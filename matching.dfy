/**
 * Where a presented secret matches in a list of stored hashes. `matches`
 * stands for PHP's `password_verify(plain, hash)`, of which nothing is known.
 * The verifier keeps the LAST hit and skips empty hashes; the older token
 * manager lookup stops at the FIRST hit and tests every hash.
 */
module Matching {
  import opened Wrappers

  type Matcher = (string, string) -> bool

  /** A hit for the verifier: a non-empty stored hash that accepts the token. */
  predicate Hit(hashes: seq<string>, i: nat, token: string, matches: Matcher)
    requires i < |hashes|
  {
    hashes[i] != "" && matches(token, hashes[i])
  }

  /** The index of the last hit, scanning the whole list. */
  function LastMatch(hashes: seq<string>, token: string, matches: Matcher): (k: Option<nat>)
    ensures k.Some? ==> k.value < |hashes| && Hit(hashes, k.value, token, matches)
    decreases |hashes|
  {
    if hashes == [] then None
    else
      var n := |hashes| - 1;
      if Hit(hashes, n, token, matches) then Some(n) else LastMatch(hashes[..n], token, matches)
  }

  /** No hit anywhere exactly when there is no last hit, and a hit reported is the last one. */
  lemma {:induction false} LastMatchIsLast(hashes: seq<string>, token: string, matches: Matcher)
    ensures LastMatch(hashes, token, matches).None? <==>
            forall i :: 0 <= i < |hashes| ==> !Hit(hashes, i, token, matches)
    ensures LastMatch(hashes, token, matches).Some? ==>
            forall j :: LastMatch(hashes, token, matches).value < j < |hashes| ==> !Hit(hashes, j, token, matches)
    decreases |hashes|
  {
    if hashes != [] {
      var n := |hashes| - 1;
      var pre := hashes[..n];
      if !Hit(hashes, n, token, matches) {
        LastMatchIsLast(pre, token, matches);
        assert forall i :: 0 <= i < n ==> (Hit(hashes, i, token, matches) <==> Hit(pre, i, token, matches));
      }
    }
  }

  /** An empty hash is never reported. */
  lemma EmptyHashNeverMatched(hashes: seq<string>, token: string, matches: Matcher)
    ensures var k := LastMatch(hashes, token, matches); k.Some? ==> hashes[k.value] != ""
  {
  }

  /** The index of the first stored hash that accepts the token; empty hashes are compared too. */
  function FirstMatch(hashes: seq<string>, token: string, matches: Matcher): (k: Option<nat>)
    ensures k.Some? ==> k.value < |hashes| && matches(token, hashes[k.value])
    decreases |hashes|
  {
    if hashes == [] then None
    else if matches(token, hashes[0]) then Some(0)
    else
      match FirstMatch(hashes[1..], token, matches)
      case None => None
      case Some(j) => Some(j + 1)
  }

  /** `FirstMatch` finds `k` exactly when `k` accepts and nothing before it does. */
  lemma {:induction false} FirstMatchIsFirst(hashes: seq<string>, token: string, matches: Matcher)
    ensures FirstMatch(hashes, token, matches).None? <==>
            forall i :: 0 <= i < |hashes| ==> !matches(token, hashes[i])
    ensures FirstMatch(hashes, token, matches).Some? ==>
            forall j :: 0 <= j < FirstMatch(hashes, token, matches).value ==> !matches(token, hashes[j])
    decreases |hashes|
  {
    if hashes != [] && !matches(token, hashes[0]) {
      FirstMatchIsFirst(hashes[1..], token, matches);
      assert forall i :: 1 <= i < |hashes| ==> hashes[1..][i - 1] == hashes[i];
    }
  }

  /** A scan that stops at `k` because `k` accepts and nothing before it did agrees with `FirstMatch`. */
  lemma FirstMatchAt(hashes: seq<string>, token: string, matches: Matcher, k: nat)
    requires k < |hashes| && matches(token, hashes[k])
    requires forall j :: 0 <= j < k ==> !matches(token, hashes[j])
    ensures FirstMatch(hashes, token, matches) == Some(k)
  {
    FirstMatchIsFirst(hashes, token, matches);
    var f := FirstMatch(hashes, token, matches);
    assert f.Some?;
  }

  /**
   * With a single hit, and `password_verify` rejecting the empty hash, the
   * two scans find the same row: the choice between first and last only
   * shows when several rows accept the same secret.
   */
  lemma UniqueHitAgrees(hashes: seq<string>, token: string, matches: Matcher, k: nat)
    requires k < |hashes| && Hit(hashes, k, token, matches)
    requires forall i :: 0 <= i < |hashes| && i != k ==> !Hit(hashes, i, token, matches)
    requires !matches(token, "")
    ensures LastMatch(hashes, token, matches) == Some(k)
    ensures FirstMatch(hashes, token, matches) == Some(k)
  {
    LastMatchIsLast(hashes, token, matches);
    forall j | 0 <= j < k
      ensures !matches(token, hashes[j])
    {
      assert !Hit(hashes, j, token, matches);
    }
    FirstMatchAt(hashes, token, matches, k);
  }

  /** With two hits the verifier reports a later row than the token manager. */
  lemma TwoHitsDisagree(hashes: seq<string>, token: string, matches: Matcher, i: nat, j: nat)
    requires i < j < |hashes| && Hit(hashes, i, token, matches) && Hit(hashes, j, token, matches)
    ensures LastMatch(hashes, token, matches).Some? && FirstMatch(hashes, token, matches).Some?
    ensures FirstMatch(hashes, token, matches).value <= i < j <= LastMatch(hashes, token, matches).value
  {
    LastMatchIsLast(hashes, token, matches);
    FirstMatchIsFirst(hashes, token, matches);
  }
}
