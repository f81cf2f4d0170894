/**
 * The fixed-window limiter the trigger endpoint uses: one row per token id
 * holding the start of the current window and the number of requests
 * admitted in it. Each `consume` call is one atomic step (`consume` runs in
 * a transaction holding the row lock).
 */
module FixedWindow {
  import opened Wrappers

  const LIMIT := 24
  const WINDOW_SECONDS := 86400

  /** A `tl_filesync_rate_entries` row: window start, admitted count, last write time. */
  datatype Row = Row(windowStart: int, count: int, tstamp: int)

  /** How `consume` ends: it returns, throws `RateLimitExceededException`, or rethrows a database error. */
  datatype Outcome = Consumed | LimitExceeded | DbError

  /** The count of a row stays between 1 and the limit. */
  predicate ValidRow(r: Row) {
    1 <= r.count <= LIMIT
  }

  /** The decision of one call and the row it leaves behind. */
  datatype Step = Step(admitted: bool, row: Row)

  /** One `consume` call on the row of a token (None when it has no row yet). */
  function ConsumeStep(row: Option<Row>, now: int): (s: Step)
    ensures s.admitted <==>
            row.None? || now - row.value.windowStart >= WINDOW_SECONDS || row.value.count < LIMIT
    ensures !s.admitted ==> row == Some(s.row)
    ensures s.admitted ==> now - s.row.windowStart < WINDOW_SECONDS && s.row.tstamp == now
    ensures (row.None? || ValidRow(row.value)) ==> ValidRow(s.row)
  {
    match row
    case None => Step(true, Row(now, 1, now))
    case Some(r) =>
      if now - r.windowStart >= WINDOW_SECONDS then Step(true, Row(now, 1, now))
      else if r.count >= LIMIT then Step(false, r)
      else Step(true, Row(r.windowStart, r.count + 1, now))
  }

  function Lookup(rows: map<int, Row>, tokenId: int): Option<Row> {
    if tokenId in rows then Some(rows[tokenId]) else None
  }

  class RateLimiter {
    /**
     * The window rows, keyed by token id. The table only has a plain index
     * on the token id; the model keeps at most one row per token.
     */
    var rows: map<int, Row>

    constructor ()
      ensures rows == map[]
    {
      rows := map[];
    }

    ghost predicate Valid()
      reads this
    {
      forall k :: k in rows ==> ValidRow(rows[k])
    }

    /**
     * `consume`: create, reset, reject or increment the row of `tokenId`.
     * `fault` says that the database raises an error during the unit of
     * work; the transaction is then rolled back and the error propagates.
     */
    method Consume(tokenId: int, now: int, fault: bool) returns (o: Outcome)
      modifies this
      ensures fault ==> o == DbError && rows == old(rows)
      ensures !fault && tokenId !in old(rows) ==>
                o == Consumed && rows == old(rows)[tokenId := Row(now, 1, now)]
      ensures !fault && tokenId in old(rows) && now - old(rows)[tokenId].windowStart >= WINDOW_SECONDS ==>
                o == Consumed && rows == old(rows)[tokenId := Row(now, 1, now)]
      ensures !fault && tokenId in old(rows) && now - old(rows)[tokenId].windowStart < WINDOW_SECONDS
              && old(rows)[tokenId].count >= LIMIT ==>
                o == LimitExceeded && rows == old(rows)
      ensures !fault && tokenId in old(rows) && now - old(rows)[tokenId].windowStart < WINDOW_SECONDS
              && old(rows)[tokenId].count < LIMIT ==>
                o == Consumed
                && rows == old(rows)[tokenId := Row(old(rows)[tokenId].windowStart, old(rows)[tokenId].count + 1, now)]
      ensures o != DbError ==>
                var s := ConsumeStep(Lookup(old(rows), tokenId), now);
                (o == Consumed <==> s.admitted) && rows == old(rows)[tokenId := s.row]
      ensures forall k :: k != tokenId ==> Lookup(rows, k) == Lookup(old(rows), k)
      ensures old(Valid()) ==> Valid()
    {
      if fault {
        return DbError;
      }
      if tokenId !in rows {
        rows := rows[tokenId := Row(now, 1, now)];
        return Consumed;
      }
      var row := rows[tokenId];
      if now - row.windowStart >= WINDOW_SECONDS {
        rows := rows[tokenId := Row(now, 1, now)];
        return Consumed;
      }
      if row.count >= LIMIT {
        return LimitExceeded;
      }
      rows := rows[tokenId := Row(row.windowStart, row.count + 1, now)];
      return Consumed;
    }
  }

  /** The decisions of successive calls for one token at the given times. */
  function Run(row: Option<Row>, times: seq<int>): (admits: seq<bool>)
    ensures |admits| == |times|
    decreases |times|
  {
    if times == [] then []
    else
      var s := ConsumeStep(row, times[0]);
      [s.admitted] + Run(Some(s.row), times[1..])
  }

  /** The row left after successive calls at the given times. */
  function After(row: Option<Row>, times: seq<int>): Option<Row>
    decreases |times|
  {
    if times == [] then row else After(Some(ConsumeStep(row, times[0]).row), times[1..])
  }

  function Min(a: int, b: int): int {
    if a <= b then a else b
  }

  /** Any sequence of calls keeps the count of a valid row between 1 and the limit. */
  lemma {:induction false} RunKeepsRowValid(row: Option<Row>, times: seq<int>)
    requires row.None? || ValidRow(row.value)
    requires times != [] || row.Some?
    ensures After(row, times).Some? && ValidRow(After(row, times).value)
    decreases |times|
  {
    if times != [] {
      RunKeepsRowValid(Some(ConsumeStep(row, times[0]).row), times[1..]);
    }
  }

  /**
   * While the window of `r` stays open, a call is admitted exactly while the
   * count has not reached the limit, and the window start never moves.
   */
  lemma {:induction false} LiveWindowRun(r: Row, times: seq<int>)
    requires ValidRow(r)
    requires forall i :: 0 <= i < |times| ==> times[i] - r.windowStart < WINDOW_SECONDS
    ensures forall i :: 0 <= i < |times| ==> Run(Some(r), times)[i] == (r.count + i < LIMIT)
    ensures After(Some(r), times).Some?
    ensures After(Some(r), times).value.windowStart == r.windowStart
    ensures After(Some(r), times).value.count == Min(r.count + |times|, LIMIT)
    decreases |times|
  {
    if times != [] {
      var s := ConsumeStep(Some(r), times[0]);
      LiveWindowRun(s.row, times[1..]);
      forall i | 1 <= i < |times|
        ensures Run(Some(r), times)[i] == (r.count + i < LIMIT)
      {
        assert Run(Some(r), times)[i] == Run(Some(s.row), times[1..])[i - 1];
      }
    }
  }

  /**
   * From no row, with every call less than a window after the first one,
   * exactly the first 24 calls are admitted; every later call is rejected.
   */
  lemma FirstTwentyFourAdmitted(times: seq<int>)
    requires times != []
    requires forall i :: 0 <= i < |times| ==> times[i] - times[0] < WINDOW_SECONDS
    ensures forall i :: 0 <= i < |times| ==> Run(None, times)[i] == (i < LIMIT)
    ensures After(None, times).Some?
    ensures After(None, times).value.windowStart == times[0]
    ensures After(None, times).value.count == Min(|times|, LIMIT)
  {
    var r := Row(times[0], 1, times[0]);
    LiveWindowRun(r, times[1..]);
    forall i | 1 <= i < |times|
      ensures Run(None, times)[i] == (i < LIMIT)
    {
      assert Run(None, times)[i] == Run(Some(r), times[1..])[i - 1];
    }
  }

  function Repeat(t: int, n: nat): (s: seq<int>)
    ensures |s| == n && forall i :: 0 <= i < n ==> s[i] == t
  {
    seq(n, _ => t)
  }

  lemma {:induction false} RunAppend(row: Option<Row>, a: seq<int>, b: seq<int>)
    ensures Run(row, a + b) == Run(row, a) + Run(After(row, a), b)
    ensures After(row, a + b) == After(After(row, a), b)
    decreases |a|
  {
    if a != [] {
      var s := ConsumeStep(row, a[0]);
      assert (a + b)[1..] == a[1..] + b;
      RunAppend(Some(s.row), a[1..], b);
    } else {
      assert a + b == b;
    }
  }

  /**
   * The fixed window allows a burst: a request at t0, 23 in the last second
   * of its window and 24 in the first second of the next are all admitted:
   * 48 admissions, 47 of them within two consecutive seconds.
   */
  lemma FixedWindowBurst(t0: int)
    ensures var times := [t0] + Repeat(t0 + WINDOW_SECONDS - 1, LIMIT - 1) + Repeat(t0 + WINDOW_SECONDS, LIMIT);
            |times| == 2 * LIMIT && forall i :: 0 <= i < |times| ==> Run(None, times)[i]
  {
    var a := [t0] + Repeat(t0 + WINDOW_SECONDS - 1, LIMIT - 1);
    var b := Repeat(t0 + WINDOW_SECONDS, LIMIT);
    FirstTwentyFourAdmitted(a);
    RunAppend(None, a, b);
    var full := After(None, a).value;
    var reset := Row(t0 + WINDOW_SECONDS, 1, t0 + WINDOW_SECONDS);
    assert ConsumeStep(Some(full), b[0]) == Step(true, reset);
    LiveWindowRun(reset, b[1..]);
    var rb := Run(Some(full), b);
    forall i | 1 <= i < |b|
      ensures rb[i]
    {
      assert rb[i] == Run(Some(reset), b[1..])[i - 1];
    }
  }
}
