/**
 * What was heard of a teaching (packages/db/src/playback.ts:72-155, packages/db/src/schema.ts:888-909):
 * one upsert that adds the delta under a cap and sets the completion once.
 */
module Playback {
  import opened Runs

  /** Instants in microseconds, as the database keeps them. */
  datatype Row = Row(position: int, updatedAt: int, listened: int, duration: Option<int>, completedAt: Option<int>)

  datatype Write = Write(position: int, delta: int, duration: Option<int>, now: int)

  /** A day of listening, in milliseconds: the cap while no length is known. */
  const MAX_LISTENED_TOTAL_MS := 24 * 60 * 60_000

  predicate FitsInteger(n: int) {
    -0x8000_0000 <= n <= 0x7fff_ffff
  }

  function Min(a: int, b: int): int {
    if a < b then a else b
  }

  function KnownDuration(row: Row, w: Write): Option<int> {
    if w.duration.Some? then w.duration else row.duration
  }

  function Cap(known: Option<int>): int {
    if known.Some? then known.value * 2 else MAX_LISTENED_TOTAL_MS
  }

  function NewTotal(row: Row, w: Write): int {
    Min(row.listened + w.delta, Cap(KnownDuration(row, w)))
  }

  /** 80% of a known length. */
  predicate Reaches(total: int, known: Option<int>) {
    known.Some? && known.value > 0 && total * 5 >= known.value * 4
  }

  /** No `integer` in the statement overflows; an overflow is an error, and the row stays as it was. */
  predicate Fits(row: Option<Row>, w: Write) {
    && FitsInteger(w.position) && FitsInteger(w.delta) && (w.duration.Some? ==> FitsInteger(w.duration.value))
    && (row.Some? ==>
          var known := KnownDuration(row.value, w);
          && FitsInteger(row.value.listened + w.delta) && FitsInteger(Cap(known))
          && (row.value.completedAt.None? && known.Some? && known.value > 0 ==>
                FitsInteger(NewTotal(row.value, w) * 5) && FitsInteger(known.value * 4)))
  }

  function Upserted(row: Option<Row>, w: Write): Row {
    match row
    case None =>
      Row(w.position, w.now, w.delta, w.duration, if Reaches(w.delta, w.duration) then Some(w.now) else None)
    case Some(held) =>
      var known := KnownDuration(held, w);
      var total := NewTotal(held, w);
      Row(w.position, w.now, total, known,
          if held.completedAt.Some? then held.completedAt else if Reaches(total, known) then Some(w.now) else None)
  }

  /** The two instants read back as dates, which keep milliseconds. */
  predicate CompletedNow(row: Row) {
    row.completedAt.Some? && row.completedAt.value / 1000 == row.updatedAt / 1000
  }

  /** The row after these writes, each refused one leaving it alone. */
  function After(ws: seq<Write>): Option<Row> {
    if ws == [] then None
    else
      var before := After(ws[..|ws| - 1]);
      if Fits(before, ws[|ws| - 1]) then Some(Upserted(before, ws[|ws| - 1])) else before
  }

  predicate Accepted(ws: seq<Write>) {
    ws == [] || (Accepted(ws[..|ws| - 1]) && Fits(After(ws[..|ws| - 1]), ws[|ws| - 1]))
  }

  function Sum(ws: seq<Write>): int {
    if ws == [] then 0 else Sum(ws[..|ws| - 1]) + ws[|ws| - 1].delta
  }

  /** A player that knows the length from its first write on, and hears forwards only. */
  ghost predicate Listening(ws: seq<Write>, duration: int) {
    && duration > 0
    && (forall i :: 0 <= i < |ws| ==> ws[i].delta >= 0 && (ws[i].duration.None? || ws[i].duration == Some(duration)))
    && (ws != [] ==> ws[0].duration == Some(duration))
  }

  lemma ListeningBefore(ws: seq<Write>, duration: int)
    requires Listening(ws, duration) && ws != []
    ensures Listening(ws[..|ws| - 1], duration)
  {
  }

  lemma {:induction false} SumGrows(ws: seq<Write>, duration: int)
    requires Listening(ws, duration)
    ensures Sum(ws) >= 0 && (ws != [] ==> Sum(ws) >= ws[0].delta)
    decreases |ws|
  {
    if ws != [] {
      SumGrows(ws[..|ws| - 1], duration);
    }
  }

  // -------------------------------------------------------------------------------------------
  // The total
  // -------------------------------------------------------------------------------------------

  /** One write is uncapped; from the second on the total is what was heard, at most twice the length. */
  lemma {:induction false} TotalIsTheCappedSum(ws: seq<Write>, duration: int)
    requires Listening(ws, duration) && Accepted(ws) && ws != []
    ensures After(ws).Some? && After(ws).value.duration == Some(duration)
    ensures After(ws).value.listened == if |ws| == 1 then Sum(ws) else Min(Sum(ws), 2 * duration)
    decreases |ws|
  {
    var init := ws[..|ws| - 1];
    ListeningBefore(ws, duration);
    if init == [] {
      assert Sum(ws) == Sum(init) + ws[0].delta;
    } else {
      TotalIsTheCappedSum(init, duration);
      SumGrows(init, duration);
    }
  }

  /** So the total is the capped sum throughout exactly when the first write on its own does not exceed the cap. */
  lemma CappedFromTheStartExactly(ws: seq<Write>, duration: int)
    requires Listening(ws, duration) && Accepted(ws)
    ensures (forall n :: 1 <= n <= |ws| ==> After(ws[..n]).Some? && After(ws[..n]).value.listened == Min(Sum(ws[..n]), 2 * duration))
            <==> (ws != [] ==> ws[0].delta <= 2 * duration)
  {
    forall n | 1 <= n <= |ws|
      ensures Listening(ws[..n], duration) && Accepted(ws[..n])
      ensures After(ws[..n]).Some?
      ensures After(ws[..n]).value.listened == if n == 1 then Sum(ws[..n]) else Min(Sum(ws[..n]), 2 * duration)
    {
      AcceptedBefore(ws, n);
      TotalIsTheCappedSum(ws[..n], duration);
    }
    if ws != [] {
      assert ws[..1][..0] == [];
      assert Sum(ws[..1]) == Sum(ws[..1][..0]) + ws[0].delta;
    }
  }

  lemma {:induction false} AcceptedBefore(ws: seq<Write>, n: nat)
    requires Accepted(ws) && n <= |ws|
    ensures Accepted(ws[..n])
    decreases |ws|
  {
    if n == |ws| {
      assert ws[..n] == ws;
    } else {
      AcceptedBefore(ws[..|ws| - 1], n);
      assert ws[..|ws| - 1][..n] == ws[..n];
    }
  }

  /** While no length is told the cap is a day, and nothing is ever complete. */
  lemma {:induction false} HeardWithoutALength(ws: seq<Write>)
    requires Accepted(ws) && ws != [] && forall i :: 0 <= i < |ws| ==> ws[i].delta >= 0 && ws[i].duration == None
    ensures After(ws).Some? && After(ws).value.duration == None && After(ws).value.completedAt == None
    ensures Sum(ws) >= 0
    ensures After(ws).value.listened == if |ws| == 1 then Sum(ws) else Min(Sum(ws), 86400000)
    decreases |ws|
  {
    var init := ws[..|ws| - 1];
    if init == [] {
      assert Sum(ws) == Sum(init) + ws[0].delta;
    } else {
      HeardWithoutALength(init);
    }
  }

  /** The row a write leaves, column by column. */
  ghost predicate Records(before: Option<Row>, w: Write, after: Row) {
    && after.position == w.position && after.updatedAt == w.now
    && (w.duration.Some? ==> after.duration == w.duration)
    && (w.duration == None ==> after.duration == if before.Some? then before.value.duration else None)
    && (match before
        case None => after.listened == w.delta
        case Some(row) =>
          var cap := if after.duration.Some? then 2 * after.duration.value else 86400000;
          after.listened == if row.listened + w.delta <= cap then row.listened + w.delta else cap)
    && (before.Some? && before.value.completedAt.Some? ==> after.completedAt == before.value.completedAt)
    && (before.None? || before.value.completedAt == None ==>
          after.completedAt == if after.duration.Some? && after.duration.value > 0
                                  && after.listened * 5 >= after.duration.value * 4 then Some(w.now) else None)
  }

  /** Every integer the statement is given or computes fits in 32 bits. */
  ghost predicate AllFit(before: Option<Row>, w: Write) {
    && InRange(w.position) && InRange(w.delta) && (w.duration.Some? ==> InRange(w.duration.value))
    && match before
       case None => true
       case Some(row) =>
         var known := if w.duration.Some? then w.duration else row.duration;
         var sum := row.listened + w.delta;
         && InRange(sum)
         && (known.Some? ==> InRange(2 * known.value))
         && (row.completedAt == None && known.Some? && known.value > 0 ==>
               InRange(5 * if sum < 2 * known.value then sum else 2 * known.value) && InRange(4 * known.value))
  }

  ghost predicate InRange(n: int) {
    -2147483648 <= n <= 2147483647
  }

  lemma FitsIsAllFit(before: Option<Row>, w: Write)
    ensures Fits(before, w) <==> AllFit(before, w)
  {
  }

  lemma UpsertRecords(before: Option<Row>, w: Write)
    ensures Records(before, w, Upserted(before, w))
  {
  }

  /** The order of the writes makes no difference to what was heard. */
  lemma OrderDoesNotMatter(ws: seq<Write>, other: seq<Write>, duration: int)
    requires multiset(ws) == multiset(other) && |ws| >= 2
    requires Listening(ws, duration) && Accepted(ws) && Listening(other, duration) && Accepted(other)
    ensures After(ws).Some? && After(other).Some? && After(ws).value.listened == After(other).value.listened
  {
    SameSum(ws, other);
    assert |multiset(ws)| == |ws| && |multiset(other)| == |other|;
    TotalIsTheCappedSum(ws, duration);
    TotalIsTheCappedSum(other, duration);
  }

  lemma {:induction false} SameSum(ws: seq<Write>, other: seq<Write>)
    requires multiset(ws) == multiset(other)
    ensures Sum(ws) == Sum(other)
    decreases |ws|
  {
    if ws == [] {
      assert |multiset(ws)| == |multiset(other)|;
    } else {
      var n := |ws| - 1;
      var last := ws[n];
      assert ws == ws[..n] + [last];
      assert last in multiset(other);
      var k :| 0 <= k < |other| && other[k] == last;
      SumWithout(other, k);
      assert other == other[..k] + [last] + other[k + 1..];
      assert multiset(other[..k] + other[k + 1..]) == multiset(other) - multiset{last};
      SameSum(ws[..n], other[..k] + other[k + 1..]);
    }
  }

  lemma {:induction false} SumWithout(ws: seq<Write>, k: nat)
    requires k < |ws|
    ensures Sum(ws) == Sum(ws[..k] + ws[k + 1..]) + ws[k].delta
    decreases |ws|
  {
    var n := |ws| - 1;
    if k == n {
      assert ws[..k] + ws[k + 1..] == ws[..n];
    } else {
      SumWithout(ws[..n], k);
      var rest := ws[..k] + ws[k + 1..];
      assert rest[..|rest| - 1] == ws[..n][..k] + ws[..n][k + 1..];
      assert rest[|rest| - 1] == ws[n];
    }
  }

  /** A write lowers the total exactly when it leaves it above the cap: a first write, or a shorter length told later. */
  lemma WhenATotalFalls(row: Row, w: Write)
    requires w.delta >= 0
    ensures Upserted(Some(row), w).listened < row.listened <==> Cap(KnownDuration(row, w)) < row.listened
  {
  }

  lemma AShorterLengthLowersTheTotal()
    ensures var heard := Upserted(None, Write(0, 100, Some(100), 0));
            heard.listened == 100 && Upserted(Some(heard), Write(0, 0, Some(40), 1000)).listened == 80
  {
  }

  // -------------------------------------------------------------------------------------------
  // The completion
  // -------------------------------------------------------------------------------------------

  /** The first of these writes whose running, uncapped sum reaches 80% of the length. */
  function Crossing(ws: seq<Write>, duration: int): Option<nat> {
    if ws == [] then None
    else
      var earlier := Crossing(ws[..|ws| - 1], duration);
      if earlier.Some? then earlier else if Sum(ws) * 5 >= duration * 4 then Some(|ws| - 1) else None
  }

  lemma {:induction false} CrossingIsTheFirst(ws: seq<Write>, duration: int)
    ensures match Crossing(ws, duration)
            case None => forall n :: 1 <= n <= |ws| ==> Sum(ws[..n]) * 5 < duration * 4
            case Some(k) => && k < |ws| && Sum(ws[..k + 1]) * 5 >= duration * 4
                            && forall n :: 1 <= n <= k ==> Sum(ws[..n]) * 5 < duration * 4
    decreases |ws|
  {
    if ws != [] {
      var init := ws[..|ws| - 1];
      CrossingIsTheFirst(init, duration);
      assert ws[..|ws|] == ws;
      assert forall n :: 0 <= n < |ws| ==> init[..n] == ws[..n];
    }
  }

  /** Completion is stamped by the write that crosses, and never moved or cleared. */
  lemma {:induction false} CompletedAtTheCrossing(ws: seq<Write>, duration: int)
    requires Listening(ws, duration) && Accepted(ws) && ws != []
    ensures After(ws).Some?
    ensures match Crossing(ws, duration)
            case None => After(ws).value.completedAt == None
            case Some(k) => k < |ws| && After(ws).value.completedAt == Some(ws[k].now)
    decreases |ws|
  {
    var init := ws[..|ws| - 1];
    ListeningBefore(ws, duration);
    TotalIsTheCappedSum(ws, duration);
    if init != [] {
      CompletedAtTheCrossing(init, duration);
      TotalIsTheCappedSum(init, duration);
    }
  }

  /** What the `n`th write answers. */
  ghost predicate AnswersCompleted(ws: seq<Write>, n: nat) {
    n < |ws| && After(ws[..n + 1]).Some? && CompletedNow(After(ws[..n + 1]).value)
  }

  /** A write answers that it completed exactly from the crossing on, and within the crossing's millisecond. */
  lemma WhoAnswersCompleted(ws: seq<Write>, duration: int, n: nat)
    requires Listening(ws, duration) && Accepted(ws) && n < |ws|
    ensures AnswersCompleted(ws, n) <==>
            match Crossing(ws, duration)
            case None => false
            case Some(k) => k <= n && ws[k].now / 1000 == ws[n].now / 1000
  {
    AcceptedBefore(ws, n + 1);
    var part := ws[..n + 1];
    CompletedAtTheCrossing(part, duration);
    UpdatedByTheLast(part);
    CrossingOfAPrefix(ws, duration, n + 1);
    CrossingIsTheFirst(part, duration);
    CrossingIsTheFirst(ws, duration);
  }

  /** Exactly one write answers so if and only if one crosses and none after it shares its millisecond. */
  lemma CompletedNowExactlyOnce(ws: seq<Write>, duration: int)
    requires Listening(ws, duration) && Accepted(ws)
    ensures (exists n :: AnswersCompleted(ws, n) && forall m :: AnswersCompleted(ws, m) ==> m == n) <==>
            match Crossing(ws, duration)
            case None => false
            case Some(k) => forall m :: k < m < |ws| ==> ws[m].now / 1000 != ws[k].now / 1000
  {
    CrossingIsTheFirst(ws, duration);
    forall n | 0 <= n < |ws|
      ensures AnswersCompleted(ws, n) <==>
              match Crossing(ws, duration)
              case None => false
              case Some(k) => k <= n && ws[k].now / 1000 == ws[n].now / 1000
    {
      WhoAnswersCompleted(ws, duration, n);
    }
    if k :| Crossing(ws, duration) == Some(k) {
      assert AnswersCompleted(ws, k);
      if forall m :: k < m < |ws| ==> ws[m].now / 1000 != ws[k].now / 1000 {
        assert forall m :: AnswersCompleted(ws, m) ==> m == k;
      } else {
        var m :| k < m < |ws| && ws[m].now / 1000 == ws[k].now / 1000;
        assert AnswersCompleted(ws, m);
      }
    }
  }

  ghost predicate TicksEachWrite(ws: seq<Write>) {
    forall i, j :: 0 <= i < j < |ws| ==> ws[i].now / 1000 < ws[j].now / 1000
  }

  /** On a clock that moves a millisecond between writes, exactly the crossing write answers that it completed. */
  lemma CompletedNowOnce(ws: seq<Write>, duration: int, n: nat)
    requires Listening(ws, duration) && Accepted(ws) && TicksEachWrite(ws) && n < |ws|
    ensures After(ws[..n + 1]).Some?
    ensures CompletedNow(After(ws[..n + 1]).value) <==> Crossing(ws, duration) == Some(n)
  {
    AcceptedBefore(ws, n + 1);
    UpdatedByTheLast(ws[..n + 1]);
    CrossingIsTheFirst(ws, duration);
    WhoAnswersCompleted(ws, duration, n);
    assert forall k :: 0 <= k < n ==> ws[k].now / 1000 < ws[n].now / 1000;
  }

  lemma UpdatedByTheLast(ws: seq<Write>)
    requires Accepted(ws) && ws != []
    ensures After(ws).Some? && After(ws).value.updatedAt == ws[|ws| - 1].now
  {
  }

  lemma {:induction false} CrossingOfAPrefix(ws: seq<Write>, duration: int, n: nat)
    requires n <= |ws|
    ensures Crossing(ws[..n], duration).Some? ==> Crossing(ws, duration) == Crossing(ws[..n], duration)
    ensures Crossing(ws[..n], duration).None? && Crossing(ws, duration).Some? ==> Crossing(ws, duration).value >= n
    decreases |ws|
  {
    if n == |ws| {
      assert ws[..n] == ws;
    } else {
      CrossingOfAPrefix(ws[..|ws| - 1], duration, n);
      assert ws[..|ws| - 1][..n] == ws[..n];
    }
  }

  /** Two writes in one millisecond can both answer that they completed. */
  lemma TwoWritesInOneMillisecond()
    ensures var first := Upserted(None, Write(0, 80, Some(100), 5000));
            CompletedNow(first) && CompletedNow(Upserted(Some(first), Write(0, 0, None, 5001)))
  {
  }

  // -------------------------------------------------------------------------------------------
  // Integers
  // -------------------------------------------------------------------------------------------

  ghost predicate UpToADay(w: Write) {
    && FitsInteger(w.position) && 0 <= w.delta <= MAX_LISTENED_TOTAL_MS
    && (w.duration.Some? ==> 0 <= w.duration.value <= MAX_LISTENED_TOTAL_MS)
  }

  /** With deltas and lengths of at most a day, whatever lengths are told, no write overflows. */
  lemma {:induction false} NothingOverflows(ws: seq<Write>)
    requires forall i :: 0 <= i < |ws| ==> UpToADay(ws[i])
    ensures Accepted(ws)
    ensures ws != [] ==>
              && After(ws).Some? && 0 <= After(ws).value.listened <= 2 * MAX_LISTENED_TOTAL_MS
              && (After(ws).value.duration.Some? ==> 0 <= After(ws).value.duration.value <= MAX_LISTENED_TOTAL_MS)
    decreases |ws|
  {
    if ws != [] {
      NothingOverflows(ws[..|ws| - 1]);
      assert UpToADay(ws[|ws| - 1]);
    }
  }

  // -------------------------------------------------------------------------------------------
  // The table
  // -------------------------------------------------------------------------------------------

  /** One row for each member and teaching. */
  class PlaybackTable {
    var rows: map<(nat, nat), Row>

    constructor ()
      ensures rows == map[]
    {
      rows := map[];
    }

    /** The upsert; `None` is a statement the database refused, and then nothing has changed. */
    method RecordPlaybackProgress(user: nat, recording: nat, w: Write) returns (written: Option<(Row, bool)>)
      modifies this
      ensures var key := (user, recording);
              var before := if key in old(rows) then Some(old(rows)[key]) else None;
              if Fits(before, w) then
                && written == Some((Upserted(before, w), CompletedNow(Upserted(before, w))))
                && rows == old(rows)[key := Upserted(before, w)]
              else written == None && rows == old(rows)
      ensures written.Some? <==> AllFit(if (user, recording) in old(rows) then Some(old(rows)[(user, recording)]) else None, w)
      ensures written.None? ==> rows == old(rows)
      ensures written.Some? ==>
                && Records(if (user, recording) in old(rows) then Some(old(rows)[(user, recording)]) else None, w, written.value.0)
                && rows == old(rows)[(user, recording) := written.value.0]
                && (written.value.1 <==>
                    written.value.0.completedAt.Some? && written.value.0.completedAt.value / 1000 == w.now / 1000)
    {
      UpsertRecords(if (user, recording) in rows then Some(rows[(user, recording)]) else None, w);
      FitsIsAllFit(if (user, recording) in rows then Some(rows[(user, recording)]) else None, w);
      hide Records, AllFit;
      var key := (user, recording);
      if key !in rows {
        if !Fits(None, w) {
          return None;
        }
        var completesOnInsert := w.duration.Some? && w.duration.value > 0 && w.delta * 5 >= w.duration.value * 4;
        rows := rows[key := Row(w.position, w.now, w.delta, w.duration, if completesOnInsert then Some(w.now) else None)];
      } else {
        var row := rows[key];
        if !Fits(Some(row), w) {
          return None;
        }
        var known := if w.duration.Some? then w.duration else row.duration;
        var cap := if known.Some? then known.value * 2 else MAX_LISTENED_TOTAL_MS;
        var total := if row.listened + w.delta < cap then row.listened + w.delta else cap;
        var completedAt := row.completedAt;
        if completedAt.None? && known.Some? && known.value > 0 && total * 5 >= known.value * 4 {
          completedAt := Some(w.now);
        }
        rows := rows[key := Row(w.position, w.now, total, known, completedAt)];
      }
      written := Some((rows[key], CompletedNow(rows[key])));
    }
  }
}
