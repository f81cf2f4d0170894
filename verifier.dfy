/**
 * The token verifier: bearer-header parsing and a full scan of the stored
 * credentials that never stops early and keeps the last match.
 */
module Verifier {
  import opened Wrappers
  import opened Text
  import opened Entity
  import opened Matching

  /** Six characters that spell "bearer" up to ASCII case. */
  predicate IsBearerWord(w: string) {
    |w| == 6 && forall i :: 0 <= i < 6 ==> Lower(w[i]) == "bearer"[i]
  }

  /**
   * The text captured by `(.+)` when the header matches the pattern
   * `^\s*Bearer\s+(.+)$` with the `i` flag, or None when it does not match.
   * PCRE semantics: `.` matches anything but '\n', `$` also matches just
   * before a final '\n', and the greedy `\s+` gives back a character when
   * only whitespace follows the word.
   */
  function BearerCapture(header: string): (c: Option<string>)
    ensures c.Some? ==> 1 <= |c.value| < |header| && NoNewline(c.value)
    ensures c.Some? ==> !IsPcreSpace(c.value[0]) || |c.value| == 1
  {
    var lead := LeadingRun(header, IsPcreSpace);
    var rest := header[lead..];
    if |rest| < 6 || !IsBearerWord(rest[..6]) then None
    else CaptureAfterWord(rest[6..])
  }

  /**
   * The `\s+(.+)$` tail of the pattern, applied to what follows the word.
   * The greedy `\s+` leaves the capture starting at the first non-space
   * character; only an all-whitespace tail gives back a single character.
   */
  function CaptureAfterWord(r: string): (c: Option<string>)
    ensures c.Some? ==> 1 <= |c.value| < |r| && NoNewline(c.value)
    ensures c.Some? ==> !IsPcreSpace(c.value[0]) || (|c.value| == 1 && All(r, IsPcreSpace))
  {
    var n := LeadingRun(r, IsPcreSpace);
    if n == 0 then None
    else if n < |r| then
      if !NoNewline(r[n..|r| - 1]) then None
      else if r[|r| - 1] == '\n' then Some(r[n..|r| - 1])
      else
        assert r[n..] == r[n..|r| - 1] + [r[|r| - 1]];
        Some(r[n..])
    else if n >= 2 && r[n - 1] != '\n' then Some([r[n - 1]])
    else if n >= 3 && r[n - 1] == '\n' && r[n - 2] != '\n' then Some([r[n - 2]])
    else None
  }

  /** The header has the shape the pattern accepts, with `c` as the capture. */
  ghost predicate BearerShape(header: string, w1: string, b: string, w2: string, c: string, e: string) {
    && header == w1 + b + w2 + c + e
    && All(w1, IsPcreSpace)
    && IsBearerWord(b)
    && |w2| >= 1 && All(w2, IsPcreSpace)
    && |c| >= 1 && NoNewline(c)
    && (e == "" || e == "\n")
  }

  /**
   * The greedy choice of `\s+`: the capture starts with a non-space
   * character, unless the whole tail is whitespace and one character was
   * given back to `(.+)`.
   */
  ghost predicate GreedySplit(w2: string, c: string, e: string) {
    |c| >= 1 && (!IsPcreSpace(c[0]) || (|c| == 1 && All(w2 + c + e, IsPcreSpace)))
  }

  /** The tail of the pattern: a capture is preceded by whitespace and followed by at most a final newline. */
  lemma TailSound(r: string) returns (w2: string, e: string)
    requires CaptureAfterWord(r).Some?
    ensures var c := CaptureAfterWord(r).value;
            && r == w2 + c + e
            && |w2| >= 1 && All(w2, IsPcreSpace)
            && |c| >= 1 && NoNewline(c)
            && (e == "" || e == "\n")
            && GreedySplit(w2, c, e)
  {
    var c := CaptureAfterWord(r).value;
    var n := LeadingRun(r, IsPcreSpace);
    if n < |r| {
      w2 := r[..n];
      e := if r[|r| - 1] == '\n' then "\n" else "";
      assert r == w2 + c + e;
    } else if r[n - 1] != '\n' {
      w2, e := r[..n - 1], "";
      assert r == w2 + c + e;
    } else {
      w2, e := r[..n - 2], "\n";
      assert r == w2 + c + e;
    }
  }

  /** A capture is always the `(.+)` part of a header of the accepted shape. */
  lemma CaptureSound(header: string) returns (w1: string, b: string, w2: string, e: string)
    requires BearerCapture(header).Some?
    ensures BearerShape(header, w1, b, w2, BearerCapture(header).value, e)
    ensures GreedySplit(w2, BearerCapture(header).value, e)
  {
    var lead := LeadingRun(header, IsPcreSpace);
    var rest := header[lead..];
    var r := rest[6..];
    w1, b := header[..lead], rest[..6];
    assert header == w1 + (b + r);
    assert CaptureAfterWord(r) == BearerCapture(header);
    w2, e := TailSound(r);
    Regroup(header, w1, b, r, w2, CaptureAfterWord(r).value, e);
  }

  /** The word, then a tail split by `TailSound`, make up the whole accepted shape. */
  lemma Regroup(header: string, w1: string, b: string, r: string, w2: string, c: string, e: string)
    requires header == w1 + (b + r) && r == w2 + c + e
    requires All(w1, IsPcreSpace) && IsBearerWord(b)
    requires |w2| >= 1 && All(w2, IsPcreSpace)
    requires |c| >= 1 && NoNewline(c) && (e == "" || e == "\n")
    ensures header == w1 + b + w2 + c + e
    ensures BearerShape(header, w1, b, w2, c, e)
  {
  }

  /** The tail of the pattern accepts whitespace, a newline-free capture and an optional final newline. */
  lemma TailComplete(r: string, w2: string, c: string, e: string)
    requires r == w2 + c + e
    requires |w2| >= 1 && All(w2, IsPcreSpace)
    requires |c| >= 1 && NoNewline(c)
    requires e == "" || e == "\n"
    ensures CaptureAfterWord(r).Some?
  {
    assert r[..|w2|] == w2;
    LeadingRunCovers(r, IsPcreSpace, |w2|);
    var n := LeadingRun(r, IsPcreSpace);
    if n < |r| {
      forall i | n <= i < |r| - 1
        ensures r[i] != '\n'
      {
        assert r[i] == c[i - |w2|];
      }
      assert NoNewline(r[n..|r| - 1]);
    } else if e == "" {
      assert r[n - 1] == c[|c| - 1];
    } else {
      assert r[n - 2] == c[|c| - 1];
    }
  }

  /** Every header of the accepted shape is captured. */
  lemma CaptureComplete(header: string, w1: string, b: string, w2: string, c: string, e: string)
    requires BearerShape(header, w1, b, w2, c, e)
    ensures BearerCapture(header).Some?
  {
    assert !IsPcreSpace(b[0]) by {
      assert Lower(b[0]) == 'b';
    }
    var r := w2 + c + e;
    assert header == w1 + (b + r);
    assert header[..|w1|] == w1;
    LeadingRunExact(header, IsPcreSpace, |w1|);
    var rest := header[|w1|..];
    assert rest == b + r;
    assert rest[..6] == b && rest[6..] == r;
    TailComplete(r, w2, c, e);
  }

  /** A greedy split of the tail determines the capture. */
  lemma TailDetermined(r: string, w2: string, c: string, e: string)
    requires r == w2 + c + e
    requires |w2| >= 1 && All(w2, IsPcreSpace)
    requires NoNewline(c) && (e == "" || e == "\n")
    requires GreedySplit(w2, c, e)
    ensures CaptureAfterWord(r) == Some(c)
  {
    assert r[..|w2|] == w2;
    if !IsPcreSpace(c[0]) {
      assert r[|w2|] == c[0];
      LeadingRunExact(r, IsPcreSpace, |w2|);
      if e == "" {
        assert r[|w2|..] == c;
        assert r[|w2|..|r| - 1] == c[..|c| - 1];
        assert r[|r| - 1] == c[|c| - 1];
      } else {
        assert r[|w2|..|r| - 1] == c;
      }
    } else {
      assert r[..|r|] == r;
      LeadingRunExact(r, IsPcreSpace, |r|);
      assert c == [c[0]] && c[0] != '\n';
      if e == "" {
        assert r[|r| - 1] == c[0];
      } else {
        assert r[|r| - 1] == '\n' && r[|r| - 2] == c[0];
      }
    }
  }

  /**
   * The capture is unique: a header of the accepted shape whose split is
   * greedy captures exactly `c`.
   */
  lemma CaptureDetermined(header: string, w1: string, b: string, w2: string, c: string, e: string)
    requires BearerShape(header, w1, b, w2, c, e)
    requires GreedySplit(w2, c, e)
    ensures BearerCapture(header) == Some(c)
  {
    assert !IsPcreSpace(b[0]) by {
      assert Lower(b[0]) == 'b';
    }
    var r := w2 + c + e;
    assert header == w1 + (b + r);
    assert header[..|w1|] == w1;
    LeadingRunExact(header, IsPcreSpace, |w1|);
    var rest := header[|w1|..];
    assert rest == b + r;
    assert rest[..6] == b && rest[6..] == r;
    TailDetermined(r, w2, c, e);
  }

  /**
   * A form feed is `\s` but not a trim character. The greedy `\s+` still
   * consumes it, so "Bearer \f x" yields the token "x" ...
   */
  lemma FormFeedBeforeToken()
    ensures ParseBearer("Bearer \U{C} x") == Some("x")
  {
    var h := "Bearer \U{C} x";
    assert IsBearerWord("Bearer") by {
      assert Lower('B') == 'b';
    }
    assert h == "" + "Bearer" + " \U{C} " + "x" + "";
    CaptureDetermined(h, "", "Bearer", " \U{C} ", "x", "");
    TrimFixesTrimmed("x");
  }

  /** ... while "Bearer \f\t" captures only "\t", which trims to nothing. */
  lemma FormFeedThenTab()
    ensures ParseBearer("Bearer \U{C}\t") == None
  {
    var h := "Bearer \U{C}\t";
    assert IsBearerWord("Bearer") by {
      assert Lower('B') == 'b';
    }
    assert h == "" + "Bearer" + " \U{C}" + "\t" + "";
    assert All(" \U{C}" + "\t" + "", IsPcreSpace);
    CaptureDetermined(h, "", "Bearer", " \U{C}", "\t", "");
    assert All("\t", IsTrimChar);
  }

  /**
   * The bearer token handed to `verify`: the capture, trimmed; None when
   * the header does not match or the capture trims to nothing.
   */
  function ParseBearer(header: string): (t: Option<string>)
    ensures t.Some? ==> BearerCapture(header).Some? && t.value == Trim(BearerCapture(header).value)
    ensures t.Some? ==> t.value != "" && !IsTrimChar(t.value[0]) && !IsTrimChar(t.value[|t.value| - 1])
    ensures t.None? <==> BearerCapture(header).None? || All(BearerCapture(header).value, IsTrimChar)
  {
    match BearerCapture(header)
    case None => None
    case Some(c) =>
      var token := Trim(c);
      if token == "" then None else Some(token)
  }

  /** The entity `verify` returns: the last row whose non-empty hash accepts the token. */
  ghost function Verified(entries: seq<FilesyncToken>, token: string, matches: Matcher): (r: FilesyncToken?)
    reads entries
    ensures r != null ==> r in entries && r.tokenHash != "" && matches(token, r.tokenHash)
    ensures entries == [] ==> r == null
  {
    var k := LastMatch(HashesOf(entries), token, matches);
    if k.Some? then entries[k.value] else null
  }

  /** `verify` returns null exactly when no row with a non-empty hash accepts the token. */
  lemma VerifiedNullIffNoHit(entries: seq<FilesyncToken>, token: string, matches: Matcher)
    ensures Verified(entries, token, matches) == null <==>
            forall i :: 0 <= i < |entries| ==> entries[i].tokenHash == "" || !matches(token, entries[i].tokenHash)
  {
    var hs := HashesOf(entries);
    LastMatchIsLast(hs, token, matches);
    if Verified(entries, token, matches) == null {
      assert LastMatch(hs, token, matches).None?;
      forall i | 0 <= i < |entries|
        ensures entries[i].tokenHash == "" || !matches(token, entries[i].tokenHash)
      {
        assert !Hit(hs, i, token, matches);
      }
    }
  }

  /**
   * Verifies a raw token against all stored rows. Every row costs one call
   * of `password_verify`: against the row's hash, or against `dummyHash`
   * when the row has none. `compared` records the hash of each call.
   */
  method Verify(token: string, entries: seq<FilesyncToken>, dummyHash: string, matches: Matcher)
    returns (matched: FilesyncToken?, ghost compared: seq<string>)
    ensures matched == Verified(entries, token, matches)
    ensures entries == [] ==> compared == []
    ensures entries != [] ==> |compared| == |entries|
    ensures forall i :: 0 <= i < |compared| ==>
              compared[i] == if entries[i].tokenHash == "" then dummyHash else entries[i].tokenHash
  {
    if |entries| == 0 {
      return null, [];
    }
    matched, compared := null, [];
    for i := 0 to |entries|
      invariant matched == Verified(entries[..i], token, matches)
      invariant |compared| == i
      invariant forall j :: 0 <= j < i ==>
                  compared[j] == if entries[j].tokenHash == "" then dummyHash else entries[j].tokenHash
    {
      assert HashesOf(entries[..i + 1])[..i] == HashesOf(entries[..i]);
      var hash := entries[i].tokenHash;
      if hash == "" {
        var ignored := matches(token, dummyHash);
        compared := compared + [dummyHash];
      } else {
        if matches(token, hash) {
          matched := entries[i];
        }
        compared := compared + [hash];
      }
    }
    assert entries[..|entries|] == entries;
  }

  /** What `verifyRequest` returns for a header: null, or the result of `verify` on the bearer token. */
  ghost function RequestVerified(header: string, entries: seq<FilesyncToken>, matches: Matcher): (r: FilesyncToken?)
    reads entries
    ensures r != null ==> ParseBearer(header).Some? && r in entries && r.tokenHash != ""
                          && matches(ParseBearer(header).value, r.tokenHash)
  {
    match ParseBearer(header)
    case None => null
    case Some(token) => Verified(entries, token, matches)
  }

  /**
   * Extracts the bearer token and verifies it. `presented` is the string
   * passed to `verify`, None when `verify` is not called.
   */
  method VerifyRequest(header: string, entries: seq<FilesyncToken>, dummyHash: string, matches: Matcher)
    returns (matched: FilesyncToken?, ghost presented: Option<string>, ghost compared: seq<string>)
    ensures BearerCapture(header).None? ==> presented == None && compared == [] && matched == null
    ensures BearerCapture(header).Some? && All(BearerCapture(header).value, IsTrimChar) ==>
              presented == None && compared == [] && matched == null
    ensures BearerCapture(header).Some? && !All(BearerCapture(header).value, IsTrimChar) ==>
              presented == Some(Trim(BearerCapture(header).value))
    ensures presented == ParseBearer(header)
    ensures presented.Some? ==> matched == Verified(entries, presented.value, matches)
    ensures presented.Some? && entries != [] ==> |compared| == |entries|
    ensures |compared| <= |entries|
    ensures forall i :: 0 <= i < |compared| ==>
              compared[i] == if entries[i].tokenHash == "" then dummyHash else entries[i].tokenHash
    ensures matched == RequestVerified(header, entries, matches)
  {
    var bearer := ParseBearer(header);
    if bearer.None? {
      return null, None, [];
    }
    presented := bearer;
    matched, compared := Verify(bearer.value, entries, dummyHash, matches);
  }
}
