/**
 * The alternative, rolling-window limiter: every admitted request is its
 * own timestamped entry, and a request is admitted while the token has
 * fewer than `limit` entries in the last 24 hours, the instant 24 hours
 * back included. Each call is one atomic step (`allowRequest` runs in a
 * transaction holding a lock on the token row).
 */
module RollingWindow {
  import opened Entity
  import opened RateEntries
  import FixedWindow
  import opened Wrappers

  const DAY_SECONDS := 86400
  const DEFAULT_LIMIT := 24

  /** How `allowRequest` ends: true, false, or a rethrown database error. */
  datatype Allow = Allowed | Denied | Failed

  class RateLimiter {
    const limit: int
    /** The `filesync_rate_entries` table, in insertion order. */
    var entries: seq<RateEntry>

    /** The limiter starts from an empty table, which keeps the 24-hour bound for any usable limit. */
    constructor (limit: int := DEFAULT_LIMIT)
      ensures this.limit == limit && entries == []
      ensures limit >= 0 ==> WindowBounded(entries, limit)
    {
      this.limit := limit;
      entries := [];
    }

    /**
     * `allowRequest`: count this token's entries since `now` minus 24 hours;
     * at the limit refuse, otherwise record one entry. `allowRequest` reads
     * the clock twice: `now` before the transaction and its row lock, and
     * `stampedAt` when the new entry is built, after the lock is held.
     * `fault` says that the database raises an error; the transaction is
     * rolled back.
     */
    method AllowRequest(token: FilesyncToken, now: int, stampedAt: int, fault: bool) returns (r: Allow)
      modifies this
      ensures fault ==> r == Failed && entries == old(entries)
      ensures !fault && CountRequestsSince(old(entries), token, now - DAY_SECONDS) >= limit ==>
                r == Denied && entries == old(entries)
      ensures !fault && CountRequestsSince(old(entries), token, now - DAY_SECONDS) < limit ==>
                r == Allowed && entries == old(entries) + [RateEntry(token, stampedAt)]
      ensures |old(entries)| <= |entries| && entries[..|old(entries)|] == old(entries)
      ensures r == Allowed ==> CountRequestsSince(entries, token, now - DAY_SECONDS) <= limit
      ensures old(WindowBounded(entries, limit)) && now <= stampedAt ==> WindowBounded(entries, limit)
    {
      if fault {
        return Failed;
      }
      var count := CountRequestsSince(entries, token, now - DAY_SECONDS);
      if count >= limit {
        return Denied;
      }
      if WindowBounded(entries, limit) && now <= stampedAt {
        AdmissionKeepsWindowBounded(entries, token, now, stampedAt, limit);
      }
      CountAppend(entries, RateEntry(token, stampedAt), token, now - DAY_SECONDS);
      entries := entries + [RateEntry(token, stampedAt)];
      assert entries[..|old(entries)|] == old(entries);
      return Allowed;
    }
  }

  /** Entries of `token` stamped between `lo` and `hi`, both included. */
  function CountBetween(entries: seq<RateEntry>, token: FilesyncToken, lo: int, hi: int): (n: nat)
    ensures n <= |entries|
    decreases |entries|
  {
    if entries == [] then 0
    else
      var last := entries[|entries| - 1];
      CountBetween(entries[..|entries| - 1], token, lo, hi)
        + (if last.token == token && lo <= last.requestedAt <= hi then 1 else 0)
  }

  /** Entries of `token` in the 24 hours up to `t`, both ends included. */
  function WindowCount(entries: seq<RateEntry>, token: FilesyncToken, t: int): nat {
    CountBetween(entries, token, t - DAY_SECONDS, t)
  }

  /** The rolling design's invariant: no token has more than `limit` entries in any 24-hour span. */
  ghost predicate WindowBounded(entries: seq<RateEntry>, limit: int) {
    && limit >= 0
    && forall i, t :: 0 <= i < |entries| ==> WindowCount(entries, entries[i].token, t) <= limit
  }

  /** A bounded span never holds more entries than the open-ended count from an earlier instant. */
  lemma {:induction false} BetweenAtMostSince(entries: seq<RateEntry>, token: FilesyncToken, since: int, lo: int, hi: int)
    requires since <= lo
    ensures CountBetween(entries, token, lo, hi) <= CountRequestsSince(entries, token, since)
    decreases |entries|
  {
    if entries != [] {
      BetweenAtMostSince(entries[..|entries| - 1], token, since, lo, hi);
    }
  }

  lemma {:induction false} AbsentTokenHasNoEntries(entries: seq<RateEntry>, token: FilesyncToken, lo: int, hi: int)
    requires forall i :: 0 <= i < |entries| ==> entries[i].token != token
    ensures CountBetween(entries, token, lo, hi) == 0
    decreases |entries|
  {
    if entries != [] {
      AbsentTokenHasNoEntries(entries[..|entries| - 1], token, lo, hi);
    }
  }

  /** Under the invariant, every token, listed or not, stays within the limit in every span. */
  lemma WindowBoundedAnyToken(entries: seq<RateEntry>, limit: int, token: FilesyncToken, t: int)
    requires WindowBounded(entries, limit)
    ensures WindowCount(entries, token, t) <= limit
  {
    if forall i :: 0 <= i < |entries| ==> entries[i].token != token {
      AbsentTokenHasNoEntries(entries, token, t - DAY_SECONDS, t);
    }
  }

  /**
   * An admission keeps the invariant whatever the clock did before, as long
   * as the entry is stamped no earlier than the instant the count was taken:
   * the new entry only falls in spans that also cover `now` minus 24 hours,
   * where the token had fewer than `limit` entries.
   */
  lemma AdmissionKeepsWindowBounded(entries: seq<RateEntry>, token: FilesyncToken, now: int, stampedAt: int, limit: int)
    requires WindowBounded(entries, limit)
    requires CountRequestsSince(entries, token, now - DAY_SECONDS) < limit
    requires now <= stampedAt
    ensures WindowBounded(entries + [RateEntry(token, stampedAt)], limit)
  {
    var e := RateEntry(token, stampedAt);
    var after := entries + [e];
    forall i, t | 0 <= i < |after|
      ensures WindowCount(after, after[i].token, t) <= limit
    {
      var tok := after[i].token;
      assert after[..|entries|] == entries;
      WindowBoundedAnyToken(entries, limit, tok, t);
      if tok == token && t - DAY_SECONDS <= stampedAt <= t {
        BetweenAtMostSince(entries, token, now - DAY_SECONDS, t - DAY_SECONDS, t);
      }
    }
  }

  /**
   * The condition on the stamp is needed: with a limit of 1, an entry at 0
   * and the count taken at 24 hours and 10 seconds, an entry stamped at 5
   * is admitted and puts two entries in the span ending at 5.
   */
  lemma EarlyStampBreaksBound(token: FilesyncToken)
    ensures var entries := [RateEntry(token, 0)];
            && WindowBounded(entries, 1)
            && CountRequestsSince(entries, token, 10) < 1
            && !WindowBounded(entries + [RateEntry(token, 5)], 1)
  {
    var after := [RateEntry(token, 0), RateEntry(token, 5)];
    assert [RateEntry(token, 0)] + [RateEntry(token, 5)] == after;
    assert after[..1] == [RateEntry(token, 0)];
    assert [RateEntry(token, 0)][..0] == [];
    assert CountBetween([RateEntry(token, 0)], token, 5 - DAY_SECONDS, 5) == 1;
    assert WindowCount(after, after[0].token, 5) == 2;
  }

  /** `n` entries of `token`, all stamped `t`. */
  function Burst(token: FilesyncToken, t: int, n: nat): (entries: seq<RateEntry>)
    ensures |entries| == n && forall i :: 0 <= i < n ==> entries[i] == RateEntry(token, t)
  {
    if n == 0 then [] else Burst(token, t, n - 1) + [RateEntry(token, t)]
  }

  /**
   * The two designs disagree exactly at the 24-hour boundary: a token that
   * used its whole quota at `t0` is still refused by the rolling limiter at
   * `t0` plus 24 hours (an entry exactly one day old is counted), while the
   * fixed-window limiter already opens a new window then.
   */
  lemma {:induction false} BoundaryContrast(token: FilesyncToken, t0: int, n: nat)
    ensures CountRequestsSince(Burst(token, t0, n), token, t0 + DAY_SECONDS - DAY_SECONDS) == n
    ensures FixedWindow.ConsumeStep(Some(FixedWindow.Row(t0, FixedWindow.LIMIT, t0)), t0 + FixedWindow.WINDOW_SECONDS).admitted
    ensures !FixedWindow.ConsumeStep(Some(FixedWindow.Row(t0, FixedWindow.LIMIT, t0)), t0 + FixedWindow.WINDOW_SECONDS - 1).admitted
  {
    if n > 0 {
      BoundaryContrast(token, t0, n - 1);
      CountAppend(Burst(token, t0, n - 1), RateEntry(token, t0), token, t0);
    }
  }
}
