/** The job that trims old rows from the change log, a bounded batch at a time. */
module SyncTrim {
  import opened Prelude
  import opened SyncFeed

  predicate Old(row: Row, cutoff: int) { row.created < cutoff }

  function OldCount(rows: seq<Row>, cutoff: int): nat {
    if rows == [] then 0 else OldCount(rows[1..], cutoff) + if Old(rows[0], cutoff) then 1 else 0
  }

  /** The sequences of the first `batch` old rows. */
  function ExpiredSequences(rows: seq<Row>, cutoff: int, batch: nat): seq<nat> {
    if rows == [] || batch == 0 then []
    else if Old(rows[0], cutoff) then [rows[0].sequence] + ExpiredSequences(rows[1..], cutoff, batch - 1)
    else ExpiredSequences(rows[1..], cutoff, batch)
  }

  function Without(rows: seq<Row>, sequences: seq<nat>): seq<Row> {
    if rows == [] then []
    else (if rows[0].sequence in sequences then [] else [rows[0]]) + Without(rows[1..], sequences)
  }

  /** What a pass leaves of the log. */
  function Trim(rows: seq<Row>, cutoff: int, batch: nat): seq<Row> {
    Without(rows, ExpiredSequences(rows, cutoff, batch))
  }

  /** Creation times do not go back in the log. */
  predicate Chronological(rows: seq<Row>) {
    forall i, j :: 0 <= i <= j < |rows| ==> rows[i].created <= rows[j].created
  }

  function Min(a: nat, b: nat): nat { if a < b then a else b }

  lemma {:induction false} OldCountBound(rows: seq<Row>, cutoff: int)
    ensures OldCount(rows, cutoff) <= |rows|
  {
    if rows != [] { OldCountBound(rows[1..], cutoff); }
  }

  lemma {:induction false} NoneOld(rows: seq<Row>, cutoff: int)
    requires forall i :: 0 <= i < |rows| ==> !Old(rows[i], cutoff)
    ensures OldCount(rows, cutoff) == 0
  {
    if rows != [] { NoneOld(rows[1..], cutoff); }
  }

  lemma {:induction false} ExpiredAreFirst(rows: seq<Row>, cutoff: int, batch: nat)
    requires Chronological(rows)
    ensures OldCount(rows, cutoff) <= |rows|
    ensures var n, k := Min(batch, OldCount(rows, cutoff)), ExpiredSequences(rows, cutoff, batch);
            |k| == n && forall i :: 0 <= i < n ==> k[i] == rows[i].sequence
  {
    OldCountBound(rows, cutoff);
    if rows != [] {
      if Old(rows[0], cutoff) {
        ExpiredAreFirst(rows[1..], cutoff, if batch > 0 then batch - 1 else 0);
      } else {
        assert forall i :: 0 <= i < |rows| ==> rows[0].created <= rows[i].created;
        NoneOld(rows, cutoff);
        ExpiredAreFirst(rows[1..], cutoff, batch);
      }
    }
  }

  lemma {:induction false} WithoutPrefix(rows: seq<Row>, sequences: seq<nat>, n: nat)
    requires n <= |rows|
    requires forall i :: 0 <= i < |rows| ==> (rows[i].sequence in sequences <==> i < n)
    ensures Without(rows, sequences) == rows[n..]
  {
    if rows != [] {
      var rest, m := rows[1..], if n == 0 then 0 else n - 1;
      forall i | 0 <= i < |rest| ensures rest[i].sequence in sequences <==> i < m {
        assert rest[i] == rows[i + 1];
      }
      WithoutPrefix(rest, sequences, m);
      if n == 0 {
        assert rows == [rows[0]] + rows[1..];
      } else {
        assert rows[n..] == rows[1..][n - 1..];
      }
    }
  }

  /**
    With creation times that do not go back, a pass removes a prefix of the log: as many of its
    old rows as the batch allows.
  */
  lemma TrimRemovesAPrefix(rows: seq<Row>, cutoff: int, batch: nat)
    requires Ordered(rows) && Chronological(rows)
    ensures OldCount(rows, cutoff) <= |rows|
    ensures Trim(rows, cutoff, batch) == rows[Min(batch, OldCount(rows, cutoff))..]
  {
    var sequences, n := ExpiredSequences(rows, cutoff, batch), Min(batch, OldCount(rows, cutoff));
    ExpiredAreFirst(rows, cutoff, batch);
    forall i | 0 <= i < |rows| ensures rows[i].sequence in sequences <==> i < n {
      if i < n { assert sequences[i] == rows[i].sequence; }
    }
    WithoutPrefix(rows, sequences, n);
  }

  /** Where the rows older than the cutoff stand. */
  function OldOnes(rows: seq<Row>, cutoff: int): set<nat> {
    set i: nat | i < |rows| && rows[i].created < cutoff
  }

  lemma {:induction false} OldCountIs(rows: seq<Row>, cutoff: int)
    ensures OldCount(rows, cutoff) == |OldOnes(rows, cutoff)|
  {
    if rows != [] {
      var n := |rows| - 1;
      OldCountIs(rows[..n], cutoff);
      OldCountAppend(rows[..n], rows[n], cutoff);
      assert rows == rows[..n] + [rows[n]];
      assert OldOnes(rows, cutoff) == OldOnes(rows[..n], cutoff) + if rows[n].created < cutoff then {n} else {};
    }
  }

  lemma {:induction false} OldCountAppend(rows: seq<Row>, row: Row, cutoff: int)
    ensures OldCount(rows + [row], cutoff) == OldCount(rows, cutoff) + if Old(row, cutoff) then 1 else 0
  {
    if rows == [] {
      assert rows + [row] == [row];
    } else {
      assert (rows + [row])[1..] == rows[1..] + [row];
      OldCountAppend(rows[1..], row, cutoff);
    }
  }

  /** Row by row, a pass takes what is older than the cutoff and has fewer than `batch` such rows before it. */
  lemma PassTakes(rows: seq<Row>, cutoff: int, batch: nat)
    requires Ordered(rows)
    ensures forall i :: 0 <= i < |rows| ==>
              (rows[i] in Trim(rows, cutoff, batch)
               <==> !(rows[i].created < cutoff && OldCount(rows[..i], cutoff) < batch))
    ensures forall row :: row in Trim(rows, cutoff, batch) ==> row in rows
  {
    var expired := ExpiredSequences(rows, cutoff, batch);
    forall i | 0 <= i < |rows|
      ensures rows[i] in Trim(rows, cutoff, batch)
         <==> !(rows[i].created < cutoff && OldCount(rows[..i], cutoff) < batch)
    {
      ExpiredIff(rows, cutoff, batch, i);
      WithoutIff(rows, expired, rows[i]);
    }
    forall row | row in Trim(rows, cutoff, batch) ensures row in rows {
      WithoutIff(rows, expired, row);
    }
  }

  lemma {:induction false} WithoutIff(rows: seq<Row>, sequences: seq<nat>, row: Row)
    ensures row in Without(rows, sequences) <==> row in rows && row.sequence !in sequences
  {
    if rows != [] {
      WithoutIff(rows[1..], sequences, row);
      assert rows == [rows[0]] + rows[1..];
    }
  }

  lemma {:induction false} ExpiredIff(rows: seq<Row>, cutoff: int, batch: nat, i: nat)
    requires Ordered(rows) && i < |rows|
    ensures rows[i].sequence in ExpiredSequences(rows, cutoff, batch)
       <==> rows[i].created < cutoff && OldCount(rows[..i], cutoff) < batch
  {
    if batch > 0 {
      var b := if Old(rows[0], cutoff) then batch - 1 else batch;
      if i > 0 {
        ExpiredIff(rows[1..], cutoff, b, i - 1);
        assert rows[..i][1..] == rows[1..][..i - 1] && rows[i] == rows[1..][i - 1];
      } else {
        ExpiredAreListed(rows[1..], cutoff, b, rows[0].sequence);
      }
    }
  }

  lemma {:induction false} ExpiredAreListed(rows: seq<Row>, cutoff: int, batch: nat, sequence: nat)
    ensures sequence in ExpiredSequences(rows, cutoff, batch) ==>
              exists i :: 0 <= i < |rows| && rows[i].sequence == sequence
  {
    if rows != [] && batch > 0 {
      ExpiredAreListed(rows[1..], cutoff, if Old(rows[0], cutoff) then batch - 1 else batch, sequence);
      assert forall i :: 0 <= i < |rows| - 1 ==> rows[1..][i] == rows[i + 1];
    }
  }

  /** So a pass moves the feed's mark of what is trimmed, and nothing else. */
  lemma TrimIsAFeedStep(f: Feed, cutoff: int, batch: nat)
    requires Valid(f) && Chronological(f.history)
    ensures var g := Feed(f.history, f.trimmed + Min(batch, OldCount(Log(f), cutoff)));
            Valid(g) && Log(g) == Trim(Log(f), cutoff, batch)
  {
    TrimRemovesAPrefix(Log(f), cutoff, batch);
  }

  lemma TrimmedPrefix(rows: seq<Row>, cutoff: int, batch: nat)
    requires Ordered(rows) && Chronological(rows)
    ensures |ExpiredSequences(rows, cutoff, batch)| <= |rows|
    ensures Trim(rows, cutoff, batch) == rows[|ExpiredSequences(rows, cutoff, batch)|..]
  {
    TrimRemovesAPrefix(rows, cutoff, batch);
    ExpiredAreFirst(rows, cutoff, batch);
  }

  // ---- Runs ---------------------------------------------------------------------------------

  /** A row is written, or a pass of the trim job runs. */
  datatype Event = Written(row: Row) | Trimmed(cutoff: int, batch: nat)

  /** A new row has a sequence never given before, and a time not before the last row's. */
  predicate MayWrite(f: Feed, row: Row) {
    && 0 < row.sequence <= Prelude.U64_MAX
    && (f.history != [] ==>
          f.history[|f.history| - 1].sequence < row.sequence && f.history[|f.history| - 1].created <= row.created)
  }

  function Step(f: Feed, e: Event): Feed
    requires Valid(f)
  {
    match e
    case Written(row) => Feed(f.history + [row], f.trimmed)
    case Trimmed(cutoff, batch) => Feed(f.history, f.trimmed + Min(batch, OldCount(Log(f), cutoff)))
  }

  predicate Possible(f: Feed, events: seq<Event>)
    requires Valid(f) && Chronological(f.history)
    decreases events
  {
    events != [] ==>
      && (events[0].Written? ==> MayWrite(f, events[0].row))
      && (StepIsValid(f, events[0]); Possible(Step(f, events[0]), events[1..]))
  }

  lemma StepIsValid(f: Feed, e: Event)
    requires Valid(f) && Chronological(f.history) && (e.Written? ==> MayWrite(f, e.row))
    ensures Valid(Step(f, e)) && Chronological(Step(f, e).history)
    ensures f.history <= Step(f, e).history && f.trimmed <= Step(f, e).trimmed
    ensures e.Trimmed? ==> Log(Step(f, e)) == Trim(Log(f), e.cutoff, e.batch)
    ensures e.Written? ==> Log(Step(f, e)) == Log(f) + [e.row]
  {
    if e.Trimmed? { TrimIsAFeedStep(f, e.cutoff, e.batch); }
  }

  function Run(f: Feed, events: seq<Event>): Feed
    requires Valid(f) && Chronological(f.history) && Possible(f, events)
    decreases events
  {
    if events == [] then f else StepIsValid(f, events[0]); Run(Step(f, events[0]), events[1..])
  }

  lemma {:induction false} RunIsValid(f: Feed, events: seq<Event>)
    requires Valid(f) && Chronological(f.history) && Possible(f, events)
    ensures Valid(Run(f, events)) && Chronological(Run(f, events).history)
    ensures f.history <= Run(f, events).history && f.trimmed <= Run(f, events).trimmed
    decreases events
  {
    if events != [] {
      StepIsValid(f, events[0]);
      RunIsValid(Step(f, events[0]), events[1..]);
    }
  }

  /** Every row ever written after the position is still in the log. */
  predicate NothingMissed(f: Feed, position: nat)
    requires Valid(f)
  {
    forall i :: 0 <= i < |f.history| && f.history[i].sequence > position ==> f.history[i] in Log(f)
  }

  /**
    After any number of writes and bounded trims that leave the log non-empty, a non-zero position
    that is not rejected has missed no row ever written.
  */
  lemma NoSilentGapEver(f: Feed, events: seq<Event>, position: nat)
    requires Valid(f) && Chronological(f.history) && Possible(f, events)
    ensures Valid(Run(f, events)) && f.history <= Run(f, events).history
    ensures position > 0 && Log(Run(f, events)) != [] && !Expired(Log(Run(f, events)), position) ==>
              NothingMissed(Run(f, events), position)
  {
    RunIsValid(f, events);
    var g := Run(f, events);
    if position > 0 && Log(g) != [] && !Expired(Log(g), position) {
      forall i | 0 <= i < |g.history| && g.history[i].sequence > position ensures g.history[i] in Log(g) {
        if i < g.trimmed {
          assert Missed(g, position);
          NoSilentGap(g, position);
        } else {
          assert g.history[i] == Log(g)[i - g.trimmed];
        }
      }
    }
  }

  /** From feed `f` the events are possible, and lead to `g`. */
  predicate Leads(f: Feed, events: seq<Event>, g: Feed) {
    Valid(f) && Chronological(f.history) && Possible(f, events) && Run(f, events) == g
  }

  lemma WriteLeads(f: Feed, row: Row, rest: seq<Event>, g: Feed)
    requires Valid(f) && Chronological(f.history) && MayWrite(f, row)
    requires Leads(Feed(f.history + [row], f.trimmed), rest, g)
    ensures Leads(f, [Written(row)] + rest, g)
  {
    var events := [Written(row)] + rest;
    assert events[0] == Written(row) && events[1..] == rest;
  }

  lemma PassLeads(f: Feed, cutoff: int, batch: nat)
    requires Valid(f) && Chronological(f.history)
    ensures Leads(f, [Trimmed(cutoff, batch)], Feed(f.history, f.trimmed + Min(batch, OldCount(Log(f), cutoff))))
  {
    var events := [Trimmed(cutoff, batch)];
    StepIsValid(f, events[0]);
    assert events[1..] == [];
  }

  /** Two rows written and one pass run, from nothing. */
  lemma LeadsTo(a: Row, b: Row, cutoff: int, batch: nat)
    requires MayWrite(Feed([], 0), a) && MayWrite(Feed([a], 0), b)
    ensures Leads(Feed([], 0), [Written(a), Written(b), Trimmed(cutoff, batch)],
                  Feed([a, b], Min(batch, OldCount([a, b], cutoff))))
  {
    var nothing, one, two := Feed([], 0), Feed([a], 0), Feed([a, b], 0);
    assert Valid(nothing) && Chronological(nothing.history);
    hide Leads, OldCount, Min, Ordered, Chronological, MayWrite;
    var pass := Trimmed(cutoff, batch);
    assert [] + [a] == [a] && [a] + [b] == [a, b];
    StepIsValid(nothing, Written(a));
    StepIsValid(one, Written(b));
    assert Log(two) == [a, b];
    PassLeads(two, cutoff, batch);
    var end := Feed([a, b], 0 + Min(batch, OldCount([a, b], cutoff)));
    WriteLeads(one, b, [pass], end);
    assert [Written(b)] + [pass] == [Written(b), pass];
    WriteLeads(nothing, a, [Written(b), pass], end);
    assert [Written(a)] + [Written(b), pass] == [Written(a), Written(b), pass];
  }

  /**
    The three ways a cursor can be treated wrongly, at feeds a run reaches from nothing: with the
    log emptied a lost row is silent, at position 0 a lost row is silent, and a client that had
    read every trimmed row is rejected.
  */
  lemma GapsAreReached(x: string, y: string)
    ensures var a, b, nothing := Row(1, 0, x), Row(2, 10, y), Feed([], 0);
            var emptied, halved := Feed([a, b], 2), Feed([a, b], 1);
            && Leads(nothing, [Written(a), Written(b), Trimmed(20, 2)], emptied)
            && Leads(nothing, [Written(a), Written(b), Trimmed(5, 1)], halved)
            && Missed(emptied, 1) && !Expired(Log(emptied), 1)
            && Missed(halved, 0) && !Expired(Log(halved), 0)
            && !Missed(halved, 1) && Expired(Log(halved), 1)
  {
    hide Leads;
    var a, b := Row(1, 0, x), Row(2, 10, y);
    LeadsTo(a, b, 20, 2);
    LeadsTo(a, b, 5, 1);
    assert [a, b][1..] == [b];
    assert OldCount([b], 20) == 1 && OldCount([b], 5) == 0;
    var emptied, halved := Feed([a, b], 2), Feed([a, b], 1);
    SilentGapIff(emptied, 1);
    SilentGapIff(halved, 0);
    RejectedForNothingIff(halved, 1);
  }

  // ---- Clocks that step back ----------------------------------------------------------------

  predicate IsTail(left: seq<Row>, rows: seq<Row>) {
    |left| <= |rows| && left == rows[|rows| - |left|..]
  }

  /** A live position that is not rejected has lost no row to the pass. */
  predicate NoHole(rows: seq<Row>, left: seq<Row>) {
    left != [] ==>
      forall i, k :: 0 <= i < |left| && 0 <= k < |rows| && rows[k].sequence > left[i].sequence ==> rows[k] in left
  }

  lemma {:induction false} WithoutMeaning(rows: seq<Row>, sequences: seq<nat>)
    ensures forall row :: row in Without(rows, sequences) <==> row in rows && row.sequence !in sequences
  {
    if rows != [] {
      WithoutMeaning(rows[1..], sequences);
      assert rows == [rows[0]] + rows[1..];
    }
  }

  lemma {:induction false} ExpiredAreOld(rows: seq<Row>, cutoff: int, batch: nat)
    ensures forall s :: s in ExpiredSequences(rows, cutoff, batch) ==>
              exists row :: row in rows && Old(row, cutoff) && row.sequence == s
    ensures batch >= |rows| ==>
              forall row :: row in rows && Old(row, cutoff) ==> row.sequence in ExpiredSequences(rows, cutoff, batch)
  {
    if rows != [] && batch > 0 {
      ExpiredAreOld(rows[1..], cutoff, if Old(rows[0], cutoff) then batch - 1 else batch);
      assert rows == [rows[0]] + rows[1..];
    }
  }

  lemma SameSequenceSameRow(rows: seq<Row>, a: Row, b: Row)
    requires Ordered(rows) && a in rows && b in rows && a.sequence == b.sequence
    ensures a == b
  {
    var i :| 0 <= i < |rows| && rows[i] == a;
    var j :| 0 <= j < |rows| && rows[j] == b;
  }

  /** A row that is older than one before it goes, with a large enough batch, before that one does. */
  lemma OutOfOrder(rows: seq<Row>, i: nat, j: nat)
    requires Ordered(rows) && i < j < |rows| && rows[i].created > rows[j].created
    ensures var left := Trim(rows, rows[i].created, |rows|); rows[i] in left && rows[j] !in left
  {
    var cutoff := rows[i].created;
    var expired := ExpiredSequences(rows, cutoff, |rows|);
    ExpiredAreOld(rows, cutoff, |rows|);
    WithoutMeaning(rows, expired);
    assert rows[i] in rows && rows[j] in rows && Old(rows[j], cutoff);
    if rows[i].sequence in expired {
      var row :| row in rows && Old(row, cutoff) && row.sequence == rows[i].sequence;
      SameSequenceSameRow(rows, row, rows[i]);
    }
  }

  lemma TailHasNoHole(rows: seq<Row>, left: seq<Row>)
    requires Ordered(rows) && IsTail(left, rows)
    ensures NoHole(rows, left)
  {
    var n := |rows| - |left|;
    forall i, k | 0 <= i < |left| && 0 <= k < |rows| && rows[k].sequence > left[i].sequence
      ensures rows[k] in left
    {
      assert left[i] == rows[n + i];
      assert n + i < k;
      assert rows[k] == left[k - n];
    }
  }

  /**
    Creation times that do not go back are what the job needs: exactly then does every pass, with
    every cutoff and batch, leave a tail of the log, and exactly then none of them makes a hole
    that no cursor check sees.
  */
  lemma TrimsTailsIff(rows: seq<Row>)
    requires Ordered(rows)
    ensures Chronological(rows) <==> forall cutoff, batch: nat :: IsTail(Trim(rows, cutoff, batch), rows)
    ensures Chronological(rows) <==> forall cutoff, batch: nat :: NoHole(rows, Trim(rows, cutoff, batch))
  {
    if Chronological(rows) {
      forall cutoff, batch: nat
        ensures IsTail(Trim(rows, cutoff, batch), rows) && NoHole(rows, Trim(rows, cutoff, batch)) {
        TrimRemovesAPrefix(rows, cutoff, batch);
        TailHasNoHole(rows, Trim(rows, cutoff, batch));
      }
    } else {
      var i, j :| 0 <= i <= j < |rows| && rows[i].created > rows[j].created;
      OutOfOrder(rows, i, j);
      var left := Trim(rows, rows[i].created, |rows|);
      var m :| 0 <= m < |left| && left[m] == rows[i];
      assert rows[j].sequence > left[m].sequence && !NoHole(rows, left);
      if IsTail(left, rows) { TailHasNoHole(rows, left); }
    }
  }

  /** For instance: three rows, the middle one stamped too early, and a batch of one. */
  lemma ClockStepsBack(a: Row, b: Row, c: Row, cutoff: int)
    requires Ordered([a, b, c]) && !Old(a, cutoff) && Old(b, cutoff) && !Old(c, cutoff)
    ensures Trim([a, b, c], cutoff, 1) == [a, c]
    ensures !Expired(Trim([a, b, c], cutoff, 1), a.sequence) && b.sequence > a.sequence
  {
    var log := [a, b, c];
    assert log[0] == a && log[1] == b && log[2] == c;
    assert log[1..] == [b, c] && [b, c][1..] == [c] && [c][1..] == [];
    assert ExpiredSequences([b, c], cutoff, 1) == [b.sequence] + ExpiredSequences([c], cutoff, 0);
    assert ExpiredSequences(log, cutoff, 1) == [b.sequence];
    assert Without([c], [b.sequence]) == [c];
    assert Without([b, c], [b.sequence]) == [c];
  }

  // ---- Repeated passes ----------------------------------------------------------------------

  /** Every pass removes a full batch of old rows, or all that are left. */
  lemma TrimConverges(rows: seq<Row>, cutoff: int, batch: nat)
    requires Ordered(rows) && Chronological(rows)
    ensures var left := Trim(rows, cutoff, batch);
            Ordered(left) && Chronological(left)
            && OldCount(left, cutoff) == OldCount(rows, cutoff) - Min(batch, OldCount(rows, cutoff))
  {
    TrimRemovesAPrefix(rows, cutoff, batch);
    OldCountTail(rows, cutoff, Min(batch, OldCount(rows, cutoff)));
  }

  lemma {:induction false} OldCountTail(rows: seq<Row>, cutoff: int, n: nat)
    requires Chronological(rows) && n <= OldCount(rows, cutoff) <= |rows|
    ensures OldCount(rows[n..], cutoff) == OldCount(rows, cutoff) - n
  {
    if n == 0 {
      assert rows[0..] == rows;
    } else {
      if !Old(rows[0], cutoff) {
        assert forall i :: 0 <= i < |rows| ==> rows[0].created <= rows[i].created;
        NoneOld(rows, cutoff);
      }
      OldCountBound(rows[1..], cutoff);
      OldCountTail(rows[1..], cutoff, n - 1);
      assert rows[n..] == rows[1..][n - 1..];
    }
  }

  // ---- Receipts -----------------------------------------------------------------------------

  datatype Receipt = Receipt(id: string, created: int)

  /** Receipts as the job's query lists them: by creation time, each under its own id. */
  predicate Listed(receipts: seq<Receipt>) {
    && (forall i, j :: 0 <= i < j < |receipts| ==> receipts[i].created <= receipts[j].created)
    && (forall i, j :: 0 <= i < j < |receipts| ==> receipts[i].id != receipts[j].id)
  }

  function OldReceipts(receipts: seq<Receipt>, cutoff: int): (n: nat)
    ensures n <= |receipts|
  {
    if receipts == [] then 0 else OldReceipts(receipts[1..], cutoff) + if receipts[0].created < cutoff then 1 else 0
  }

  function WithoutIds(receipts: seq<Receipt>, ids: seq<string>): seq<Receipt> {
    if receipts == [] then []
    else (if receipts[0].id in ids then [] else [receipts[0]]) + WithoutIds(receipts[1..], ids)
  }

  /** In creation order the old receipts come first. */
  lemma {:induction false} OldReceiptsFirst(receipts: seq<Receipt>, cutoff: int)
    requires Listed(receipts)
    ensures forall i :: 0 <= i < |receipts| ==> (receipts[i].created < cutoff <==> i < OldReceipts(receipts, cutoff))
  {
    if receipts != [] {
      OldReceiptsFirst(receipts[1..], cutoff);
      forall i | 0 < i < |receipts|
        ensures receipts[i].created < cutoff <==> i - 1 < OldReceipts(receipts[1..], cutoff)
      {
        assert receipts[i] == receipts[1..][i - 1];
      }
      if receipts[0].created >= cutoff && |receipts| > 1 {
        assert receipts[0].created <= receipts[1].created;
      }
    }
  }

  lemma {:induction false} WithoutFirstIds(receipts: seq<Receipt>, ids: seq<string>, n: nat)
    requires n <= |receipts|
    requires forall i :: 0 <= i < |receipts| ==> (receipts[i].id in ids <==> i < n)
    ensures WithoutIds(receipts, ids) == receipts[n..]
  {
    if receipts != [] {
      var rest, m := receipts[1..], if n == 0 then 0 else n - 1;
      forall i | 0 <= i < |rest| ensures rest[i].id in ids <==> i < m {
        assert rest[i] == receipts[i + 1];
      }
      WithoutFirstIds(rest, ids, m);
      assert receipts == [receipts[0]] + rest;
      assert n > 0 ==> receipts[n..] == rest[n - 1..];
    }
  }

  lemma TakenIds(receipts: seq<Receipt>, ids: seq<string>)
    requires Listed(receipts) && |ids| <= |receipts| && forall i :: 0 <= i < |ids| ==> ids[i] == receipts[i].id
    ensures forall i :: 0 <= i < |receipts| ==> (receipts[i].id in ids <==> i < |ids|)
  {
    forall i | 0 <= i < |receipts| ensures receipts[i].id in ids <==> i < |ids| {
      if i < |ids| { assert ids[i] == receipts[i].id; }
    }
  }

  lemma RetainedStay(receipts: seq<Receipt>, cutoff: int, n: nat)
    requires Listed(receipts) && n <= OldReceipts(receipts, cutoff)
    ensures forall r :: r in receipts && r.created >= cutoff ==> r in receipts[n..]
  {
    OldReceiptsFirst(receipts, cutoff);
    forall r | r in receipts && r.created >= cutoff ensures r in receipts[n..] {
      var i :| 0 <= i < |receipts| && receipts[i] == r;
      assert receipts[n..][i - n] == r;
    }
  }

  // ---- The job ------------------------------------------------------------------------------

  datatype TrimReport = TrimReport(changeLogDeleted: nat, receiptsDeleted: nat, oldestRetained: Option<nat>)

  class SyncTables {
    var rows: seq<Row>
    var receipts: seq<Receipt>

    constructor (rows: seq<Row>, receipts: seq<Receipt>)
      ensures this.rows == rows && this.receipts == receipts
    {
      this.rows, this.receipts := rows, receipts;
    }

    /**
      One bounded pass. The change log loses the first old rows, the receipts lose the oldest
      ones: as many as the batch allows, and none inside its retention.
    */
    method TrimExpiredRows(now: int, changeRetention: nat, receiptRetention: nat, batch: nat)
      returns (report: TrimReport)
      requires Ordered(rows) && Listed(receipts)
      modifies this
      ensures rows == Trim(old(rows), now - changeRetention, batch)
      ensures Ordered(rows)
      ensures forall row :: row in rows ==> row in old(rows)
      ensures forall i :: 0 <= i < |old(rows)| ==>
                (old(rows)[i] in rows <==>
                   !(&& old(rows)[i].created < now - changeRetention
                     && OldCount(old(rows)[..i], now - changeRetention) < batch))
      ensures report.oldestRetained == if rows == [] then None else Some(rows[0].sequence)
      ensures |rows| + report.changeLogDeleted == |old(rows)|
      ensures Chronological(old(rows)) ==> rows == old(rows)[report.changeLogDeleted..]
      ensures report.receiptsDeleted == Min(batch, OldReceipts(old(receipts), now - receiptRetention))
      ensures receipts == old(receipts)[report.receiptsDeleted..]
      ensures forall r :: r in old(receipts) && r.created >= now - receiptRetention ==> r in receipts
      ensures report.receiptsDeleted <= batch
      ensures report.receiptsDeleted == batch || forall r :: r in receipts ==> r.created >= now - receiptRetention
    {
      hide *;
      PassTakes(rows, now - changeRetention, batch);
      var deleted := TrimChangeLog(now - changeRetention, batch);
      var receiptsDeleted := TrimReceipts(now - receiptRetention, batch);
      report := TrimReport(deleted, receiptsDeleted, if rows == [] then None else Some(rows[0].sequence));
    }

    method TrimChangeLog(cutoff: int, batch: nat) returns (deleted: nat)
      requires Ordered(rows)
      modifies this`rows
      ensures rows == Trim(old(rows), cutoff, batch)
      ensures Ordered(rows) && |rows| + deleted == |old(rows)|
      ensures Chronological(old(rows)) ==> rows == old(rows)[deleted..]
    {
      var expired := SelectExpired(cutoff, batch);
      TrimCounts(rows, cutoff, batch);
      WithoutIsOrdered(rows, expired);
      if Chronological(rows) {
        TrimmedPrefix(rows, cutoff, batch);
      }
      if expired != [] {
        rows := Without(rows, expired);
      } else {
        WithoutPrefix(rows, [], 0);
      }
      deleted := |expired|;
    }

    method TrimReceipts(cutoff: int, batch: nat) returns (deleted: nat)
      requires Listed(receipts)
      modifies this`receipts
      ensures deleted == Min(batch, OldReceipts(old(receipts), cutoff))
      ensures receipts == old(receipts)[deleted..]
      ensures forall r :: r in old(receipts) && r.created >= cutoff ==> r in receipts
      ensures deleted <= batch && (deleted == batch || forall r :: r in receipts ==> r.created >= cutoff)
    {
      OldReceiptsFirst(receipts, cutoff);
      var ids := SelectReceipts(cutoff, batch);
      deleted := |ids|;
      RetainedStay(receipts, cutoff, deleted);
      TakenIds(receipts, ids);
      WithoutFirstIds(receipts, ids, deleted);
      if ids != [] {
        receipts := WithoutIds(receipts, ids);
      }
    }

    method SelectReceipts(cutoff: int, batch: nat) returns (ids: seq<string>)
      requires Listed(receipts)
      ensures |ids| == Min(batch, OldReceipts(receipts, cutoff))
      ensures forall i :: 0 <= i < |ids| ==> ids[i] == receipts[i].id
    {
      ids := [];
      OldReceiptsFirst(receipts, cutoff);
      while |ids| < |receipts| && |ids| < batch && receipts[|ids|].created < cutoff
        invariant |ids| <= Min(batch, OldReceipts(receipts, cutoff))
        invariant forall i :: 0 <= i < |ids| ==> ids[i] == receipts[i].id
      {
        ids := ids + [receipts[|ids|].id];
      }
    }

    method SelectExpired(cutoff: int, batch: nat) returns (expired: seq<nat>)
      ensures expired == ExpiredSequences(rows, cutoff, batch)
    {
      expired := [];
      var i := 0;
      while i < |rows| && |expired| < batch
        invariant 0 <= i <= |rows| && |expired| <= batch
        invariant expired + ExpiredSequences(rows[i..], cutoff, batch - |expired|)
                  == ExpiredSequences(rows, cutoff, batch)
      {
        assert rows[i..][1..] == rows[i + 1..] && rows[i..][0] == rows[i];
        ghost var later := ExpiredSequences(rows[i..], cutoff, batch - |expired|);
        if Old(rows[i], cutoff) {
          assert expired + later == expired + [rows[i].sequence] + later[1..];
          expired := expired + [rows[i].sequence];
        }
        i := i + 1;
      }
    }
  }

  /** The first row has a sequence, and the later rows have larger ones. */
  lemma OrderedTail(rows: seq<Row>)
    requires Ordered(rows) && rows != []
    ensures 0 < rows[0].sequence <= Prelude.U64_MAX && Ordered(rows[1..])
    ensures forall row :: row in rows[1..] ==> rows[0].sequence < row.sequence
  {
    forall row | row in rows[1..] ensures rows[0].sequence < row.sequence {
      var i :| 0 <= i < |rows[1..]| && rows[1..][i] == row;
      assert row == rows[i + 1];
    }
  }

  lemma OrderedPrepend(row: Row, rest: seq<Row>)
    requires 0 < row.sequence <= Prelude.U64_MAX && Ordered(rest)
    requires forall later :: later in rest ==> row.sequence < later.sequence
    ensures Ordered([row] + rest)
  {
    forall j | 0 <= j < |rest| ensures row.sequence < rest[j].sequence {
      assert rest[j] in rest;
    }
  }

  lemma {:induction false} WithoutIsOrdered(rows: seq<Row>, sequences: seq<nat>)
    requires Ordered(rows)
    ensures Ordered(Without(rows, sequences))
    ensures forall row :: row in Without(rows, sequences) ==> row in rows
  {
    if rows != [] {
      hide Ordered;
      OrderedTail(rows);
      WithoutIsOrdered(rows[1..], sequences);
      OrderedPrepend(rows[0], Without(rows[1..], sequences));
      assert rows == [rows[0]] + rows[1..];
    }
  }

  lemma {:induction false} ExpiredAreInside(rows: seq<Row>, cutoff: int, batch: nat)
    ensures forall s :: s in ExpiredSequences(rows, cutoff, batch) ==>
              exists i :: 0 <= i < |rows| && rows[i].sequence == s
  {
    if rows != [] && batch > 0 {
      var later := ExpiredSequences(rows[1..], cutoff, if Old(rows[0], cutoff) then batch - 1 else batch);
      ExpiredAreInside(rows[1..], cutoff, if Old(rows[0], cutoff) then batch - 1 else batch);
      forall s | s in later ensures exists i :: 0 <= i < |rows| && rows[i].sequence == s {
        var i :| 0 <= i < |rows[1..]| && rows[1..][i].sequence == s;
        assert rows[i + 1].sequence == s;
      }
    }
  }

  lemma {:induction false} TrimCounts(rows: seq<Row>, cutoff: int, batch: nat)
    requires Ordered(rows)
    ensures |Trim(rows, cutoff, batch)| + |ExpiredSequences(rows, cutoff, batch)| == |rows|
  {
    if rows != [] {
      TrimCounts(rows[1..], cutoff, if Old(rows[0], cutoff) && batch > 0 then batch - 1 else batch);
      TrimHead(rows, cutoff, batch);
    }
  }

  lemma TrimHead(rows: seq<Row>, cutoff: int, batch: nat)
    requires Ordered(rows) && rows != []
    ensures Old(rows[0], cutoff) && batch > 0 ==> Trim(rows, cutoff, batch) == Trim(rows[1..], cutoff, batch - 1)
    ensures !Old(rows[0], cutoff) || batch == 0 ==>
              Trim(rows, cutoff, batch) == [rows[0]] + Trim(rows[1..], cutoff, batch)
  {
    var b := if Old(rows[0], cutoff) && batch > 0 then batch - 1 else batch;
    var later, all := ExpiredSequences(rows[1..], cutoff, b), ExpiredSequences(rows, cutoff, batch);
    ExpiredAreInside(rows[1..], cutoff, b);
    forall s | s in later ensures s != rows[0].sequence {
      var i :| 0 <= i < |rows[1..]| && rows[1..][i].sequence == s;
      assert rows[i + 1].sequence == s;
    }
    SameWithout(rows[1..], later, all, rows[0].sequence);
  }

  lemma {:induction false} SameWithout(rows: seq<Row>, a: seq<nat>, b: seq<nat>, other: nat)
    requires forall s :: s != other ==> (s in a <==> s in b)
    requires forall i :: 0 <= i < |rows| ==> rows[i].sequence != other
    ensures Without(rows, a) == Without(rows, b)
  {
    if rows != [] { SameWithout(rows[1..], a, b, other); }
  }
}
