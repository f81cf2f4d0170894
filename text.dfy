/**
 * Character classes and string helpers shared by the header parser, the
 * request-body check and the token callbacks.
 */
module Text {

  /** A character stripped by PHP's `trim()` with its default list " \t\n\r\0\x0B". */
  predicate IsTrimChar(c: char) {
    c == ' ' || c == '\t' || c == '\n' || c == '\r' || c == '\0' || c == '\U{B}'
  }

  /**
   * A character matched by `\s` in a PCRE pattern: space, \t, \n, \x0B, \f
   * and \r. It differs from `IsTrimChar`: \f is here, \0 is not.
   */
  predicate IsPcreSpace(c: char) {
    c == ' ' || c == '\t' || c == '\n' || c == '\U{B}' || c == '\U{C}' || c == '\r'
  }

  predicate All(s: string, p: char -> bool) {
    forall i :: 0 <= i < |s| ==> p(s[i])
  }

  predicate NoNewline(s: string) {
    forall i :: 0 <= i < |s| ==> s[i] != '\n'
  }

  /** ASCII lower-casing, what a PCRE `/i` pattern without `/u` folds. */
  function Lower(c: char): (d: char)
    ensures 'A' <= c <= 'Z' ==> 'a' <= d <= 'z' && d as int == c as int + 32
    ensures !('A' <= c <= 'Z') ==> d == c
  {
    if 'A' <= c <= 'Z' then (c as int + 32) as char else c
  }

  /** Length of the longest prefix of `s` whose characters all satisfy `p`. */
  function LeadingRun(s: string, p: char -> bool): (n: nat)
    ensures n <= |s|
    ensures All(s[..n], p)
    ensures n < |s| ==> !p(s[n])
    decreases |s|
  {
    if |s| == 0 || !p(s[0]) then 0 else 1 + LeadingRun(s[1..], p)
  }

  /** Length of the longest suffix of `s` whose characters all satisfy `p`. */
  function TrailingRun(s: string, p: char -> bool): (n: nat)
    ensures n <= |s|
    ensures All(s[|s| - n..], p)
    ensures n < |s| ==> !p(s[|s| - n - 1])
    decreases |s|
  {
    if |s| == 0 || !p(s[|s| - 1]) then 0
    else
      var m := TrailingRun(s[..|s| - 1], p);
      assert s[|s| - (m + 1)..] == s[..|s| - 1][|s| - 1 - m..] + [s[|s| - 1]];
      m + 1
  }

  /** The prefix run is determined by the first character that fails `p`. */
  lemma {:induction false} LeadingRunExact(s: string, p: char -> bool, k: nat)
    requires k <= |s| && All(s[..k], p) && (k < |s| ==> !p(s[k]))
    ensures LeadingRun(s, p) == k
    decreases k
  {
    if k > 0 {
      assert p(s[0]);
      assert s[1..][..k - 1] == s[1..k];
      assert s[1..][..k - 1] == s[..k][1..];
      LeadingRunExact(s[1..], p, k - 1);
    }
  }

  /** Any prefix whose characters all satisfy `p` lies inside the run. */
  lemma {:induction false} LeadingRunCovers(s: string, p: char -> bool, k: nat)
    requires k <= |s| && All(s[..k], p)
    ensures k <= LeadingRun(s, p)
    decreases k
  {
    if k > 0 {
      assert p(s[0]);
      assert s[1..][..k - 1] == s[..k][1..];
      LeadingRunCovers(s[1..], p, k - 1);
    }
  }

  /** PHP's `trim()` with the default character list. */
  function Trim(s: string): (r: string)
    ensures |r| <= |s|
    ensures r == "" <==> All(s, IsTrimChar)
    ensures r != "" ==> !IsTrimChar(r[0]) && !IsTrimChar(r[|r| - 1])
  {
    var lead := LeadingRun(s, IsTrimChar);
    var rest := s[lead..];
    var trail := TrailingRun(rest, IsTrimChar);
    assert lead == |s| ==> s[..lead] == s;
    assert lead < |s| ==> !IsTrimChar(rest[0]) && trail < |rest|;
    rest[..|rest| - trail]
  }

  /** The trimmed string is the middle of `s`, between two runs of trim characters. */
  lemma TrimIsInfix(s: string) returns (i: nat)
    ensures i + |Trim(s)| <= |s|
    ensures s[i..i + |Trim(s)|] == Trim(s)
    ensures All(s[..i], IsTrimChar) && All(s[i + |Trim(s)|..], IsTrimChar)
  {
    var lead := LeadingRun(s, IsTrimChar);
    var rest := s[lead..];
    var trail := TrailingRun(rest, IsTrimChar);
    i := lead;
    var r := rest[..|rest| - trail];
    assert Trim(s) == r;
    assert s[i..i + |r|] == r;
    assert s[i + |r|..] == rest[|rest| - trail..];
  }

  /** A string that neither starts nor ends with a trim character is its own trim. */
  lemma TrimFixesTrimmed(s: string)
    requires s != [] && !IsTrimChar(s[0]) && !IsTrimChar(s[|s| - 1])
    ensures Trim(s) == s
  {
  }
}
