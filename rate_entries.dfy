/**
 * The per-request rate entries of the rolling-window design and the
 * repository query that counts them.
 */
module RateEntries {
  import opened Entity

  /** One admitted request: the token it was made with and when. */
  datatype RateEntry = RateEntry(token: FilesyncToken, requestedAt: int)

  /** The WHERE clause of `countRequestsSince`: this token, and not before `since`. */
  predicate Counted(e: RateEntry, token: FilesyncToken, since: int) {
    e.token == token && e.requestedAt >= since
  }

  /** `countRequestsSince`: how many entries of `token` were made at `since` or later. */
  function CountRequestsSince(entries: seq<RateEntry>, token: FilesyncToken, since: int): (n: nat)
    ensures n <= |entries|
    decreases |entries|
  {
    if entries == [] then 0
    else
      var last := entries[|entries| - 1];
      CountRequestsSince(entries[..|entries| - 1], token, since) + (if Counted(last, token, since) then 1 else 0)
  }

  /** The positions the query selects. */
  ghost function CountedPositions(entries: seq<RateEntry>, token: FilesyncToken, since: int): set<int> {
    set i | 0 <= i < |entries| && Counted(entries[i], token, since)
  }

  /** The count is the size of the filtered set of entries. */
  lemma {:induction false} CountIsFilteredSize(entries: seq<RateEntry>, token: FilesyncToken, since: int)
    ensures CountRequestsSince(entries, token, since) == |CountedPositions(entries, token, since)|
    decreases |entries|
  {
    if entries != [] {
      var n := |entries| - 1;
      var pre := entries[..n];
      CountIsFilteredSize(pre, token, since);
      var s := CountedPositions(pre, token, since);
      if Counted(entries[n], token, since) {
        assert CountedPositions(entries, token, since) == s + {n};
      } else {
        assert CountedPositions(entries, token, since) == s;
      }
    }
  }

  /** Appending an entry adds one exactly when it belongs to the token and is not before `since`. */
  lemma CountAppend(entries: seq<RateEntry>, e: RateEntry, token: FilesyncToken, since: int)
    ensures CountRequestsSince(entries + [e], token, since) ==
            CountRequestsSince(entries, token, since) + (if e.token == token && e.requestedAt >= since then 1 else 0)
  {
    assert (entries + [e])[..|entries|] == entries;
  }

  /** Entries of other tokens are never counted. */
  lemma {:induction false} OtherTokensNotCounted(entries: seq<RateEntry>, token: FilesyncToken, since: int)
    requires forall i :: 0 <= i < |entries| ==> entries[i].token != token
    ensures CountRequestsSince(entries, token, since) == 0
    decreases |entries|
  {
    if entries != [] {
      OtherTokensNotCounted(entries[..|entries| - 1], token, since);
    }
  }

  /** A later `since` never yields a larger count. */
  lemma {:induction false} CountAntitoneInSince(entries: seq<RateEntry>, token: FilesyncToken, s1: int, s2: int)
    requires s1 <= s2
    ensures CountRequestsSince(entries, token, s2) <= CountRequestsSince(entries, token, s1)
    decreases |entries|
  {
    if entries != [] {
      CountAntitoneInSince(entries[..|entries| - 1], token, s1, s2);
    }
  }
}
