/**
  The pull feed: pages of the change log behind a cursor, the job that trims the log, and the
  client loop that drains it.
*/
module SyncFeed {
  import opened Prelude
  import opened SyncCursors

  datatype Row = Row(sequence: nat, created: int, change: string)

  /** Sequences count up and fit a cursor. */
  predicate Ordered(rows: seq<Row>) {
    && (forall i :: 0 <= i < |rows| ==> 0 < rows[i].sequence <= U64_MAX)
    && (forall i, j :: 0 <= i < j < |rows| ==> rows[i].sequence < rows[j].sequence)
  }

  /** Every row that was ever written, and how many of them have been trimmed. */
  datatype Feed = Feed(history: seq<Row>, trimmed: nat)

  predicate Valid(f: Feed) { Ordered(f.history) && f.trimmed <= |f.history| }

  function Log(f: Feed): seq<Row>
    requires Valid(f)
  {
    f.history[f.trimmed..]
  }

  /** The sequence of the last trimmed row, or 0. */
  function TrimmedUpTo(f: Feed): nat
    requires Valid(f)
  {
    if f.trimmed == 0 then 0 else f.history[f.trimmed - 1].sequence
  }

  // ---- One page -----------------------------------------------------------------------------

  const MAX_PULL_LIMIT := 200

  datatype FeedError = CursorInvalid | CursorExpired

  datatype Page = Page(rows: seq<Row>, nextCursor: string, hasMore: bool)

  /** The rows after a sequence. */
  function After(rows: seq<Row>, sequence: nat): seq<Row> {
    if rows == [] then []
    else (if rows[0].sequence > sequence then [rows[0]] else []) + After(rows[1..], sequence)
  }

  function Bounded(limit: int): nat {
    if limit < 1 then 1 else if limit > MAX_PULL_LIMIT then MAX_PULL_LIMIT else limit
  }

  function Take(rows: seq<Row>, n: nat): seq<Row> {
    if n < |rows| then rows[..n] else rows
  }

  predicate Expired(log: seq<Row>, sequence: nat) {
    sequence > 0 && log != [] && sequence < log[0].sequence
  }

  /** One page; the query fetches a row more than it ships, to see whether there is more. */
  function ListChanges(log: seq<Row>, cursor: Option<string>, limit: int): (r: Result<Page, FeedError>)
    requires Ordered(log)
    ensures r == Err(CursorInvalid) <==> DecodeSyncCursor(cursor).Err?
    ensures r == Err(CursorExpired) <==> DecodeSyncCursor(cursor).Ok? && Expired(log, DecodeSyncCursor(cursor).value)
  {
    var decoded := DecodeSyncCursor(cursor);
    if decoded.Err? then Err(CursorInvalid)
    else
      var sequence := decoded.value;
      if Expired(log, sequence) then Err(CursorExpired)
      else
        var fetched := Take(After(log, sequence), Bounded(limit) + 1);
        var page := Take(fetched, Bounded(limit));
        AfterRows(log, sequence);
        DecodedFits(cursor);
        var last := if page == [] then sequence else page[|page| - 1].sequence;
        CursorRoundTrip(last);
        Ok(Page(page, EncodeSyncCursor(last).value, |fetched| > Bounded(limit)))
  }

  lemma {:induction false} AfterRows(rows: seq<Row>, sequence: nat)
    ensures forall row :: row in After(rows, sequence) <==> row in rows && row.sequence > sequence
  {
    if rows != [] {
      AfterRows(rows[1..], sequence);
      assert rows == [rows[0]] + rows[1..];
    }
  }

  lemma DecodedFits(cursor: Option<string>)
    requires DecodeSyncCursor(cursor).Ok?
    ensures DecodeSyncCursor(cursor).value <= U64_MAX
  {
    if cursor.Some? && cursor.value != "" {
      DecoderAccepts(cursor.value);
      CanonicalIff(cursor.value);
    }
  }

  /** How many rows are not after a sequence. */
  function Skip(rows: seq<Row>, sequence: nat): (k: nat)
    ensures k <= |rows|
  {
    if rows == [] || rows[|rows| - 1].sequence <= sequence then |rows| else Skip(rows[..|rows| - 1], sequence)
  }

  lemma {:induction false} SkipSplits(rows: seq<Row>, sequence: nat)
    requires Ordered(rows)
    ensures forall i :: 0 <= i < Skip(rows, sequence) ==> rows[i].sequence <= sequence
    ensures forall i :: Skip(rows, sequence) <= i < |rows| ==> rows[i].sequence > sequence
  {
    if rows != [] && rows[|rows| - 1].sequence > sequence {
      SkipSplits(rows[..|rows| - 1], sequence);
    }
  }

  /** In an ordered log the rows after a sequence are its tail. */
  lemma {:induction false} AfterIsTail(rows: seq<Row>, sequence: nat, k: nat)
    requires k <= |rows|
    requires forall i :: 0 <= i < k ==> rows[i].sequence <= sequence
    requires forall i :: k <= i < |rows| ==> rows[i].sequence > sequence
    ensures After(rows, sequence) == rows[k..]
  {
    if rows != [] {
      AfterIsTail(rows[1..], sequence, if k == 0 then 0 else k - 1);
      if k > 0 {
        assert rows[k..] == rows[1..][k - 1..];
      } else {
        assert rows == [rows[0]] + rows[1..];
      }
    }
  }

  /** The rows of the history from one sequence, exclusive, to another, inclusive. */
  function Between(rows: seq<Row>, from: nat, to: nat): seq<Row>
    requires Ordered(rows)
  {
    if from > to then []
    else
      SkipMonotone(rows, from, to);
      rows[Skip(rows, from)..Skip(rows, to)]
  }

  lemma SkipMonotone(rows: seq<Row>, from: nat, to: nat)
    requires Ordered(rows) && from <= to
    ensures Skip(rows, from) <= Skip(rows, to)
  {
    SkipSplits(rows, from);
    SkipSplits(rows, to);
    var k := Skip(rows, to);
    assert k < |rows| ==> rows[k].sequence > from;
  }

  lemma SkipIs(rows: seq<Row>, sequence: nat, k: nat)
    requires Ordered(rows) && k <= |rows|
    requires k > 0 ==> rows[k - 1].sequence <= sequence
    requires k < |rows| ==> rows[k].sequence > sequence
    ensures Skip(rows, sequence) == k
  {
    SkipSplits(rows, sequence);
    var n := Skip(rows, sequence);
    assert forall i :: 0 <= i < k ==> rows[i].sequence <= rows[k - 1].sequence;
    assert n < |rows| ==> rows[n].sequence > sequence;
  }

  /** Between two sequences lie the rows from `a` to `b`, if these are the bounds. */
  lemma BetweenIs(rows: seq<Row>, from: nat, to: nat, a: nat, b: nat)
    requires Ordered(rows) && from <= to && a <= b <= |rows|
    requires a > 0 ==> rows[a - 1].sequence <= from
    requires a < |rows| ==> rows[a].sequence > from
    requires b > 0 ==> rows[b - 1].sequence <= to
    requires b < |rows| ==> rows[b].sequence > to
    ensures Between(rows, from, to) == rows[a..b]
  {
    hide Skip;
    SkipIs(rows, from, a);
    SkipIs(rows, to, b);
  }

  lemma BetweenJoins(rows: seq<Row>, from: nat, mid: nat, to: nat)
    requires Ordered(rows) && from <= mid <= to
    ensures Between(rows, from, mid) + Between(rows, mid, to) == Between(rows, from, to)
  {
    SkipMonotone(rows, from, mid);
    SkipMonotone(rows, mid, to);
  }

  // ---- What a page ships --------------------------------------------------------------------

  /** Where a page served at `position` takes up: nothing before the oldest retained row can be shipped. */
  function Resumes(f: Feed, position: nat): nat
    requires Valid(f)
  {
    if position == 0 then TrimmedUpTo(f) else position
  }

  /**
    A served page from a non-zero position ships the next rows of the whole history and moves to
    the last of them; from position 0 it starts behind whatever was trimmed. It says that there
    is no more exactly when it shipped the last retained row.
  */
  lemma PageIsNext(f: Feed, cursor: Option<string>, limit: int)
    requires Valid(f) && ListChanges(Log(f), cursor, limit).Ok?
    ensures Serves(f, DecodeSyncCursor(cursor).value, ListChanges(Log(f), cursor, limit).value, Bounded(limit))
  {
    hide After, Skip, DecodeSyncCursor, EncodeSyncCursor, ListChanges, Serves, Ordered;
    LogIsOrdered(f);
    var from := DecodeSyncCursor(cursor).value;
    SkipSplits(Log(f), from);
    PageShape(Log(f), cursor, limit);
    var page := ListChanges(Log(f), cursor, limit).value;
    PageServes(f, from, page, Bounded(limit), Skip(Log(f), from), |page.rows|);
  }

  /** A page never ships more than 200 rows or than it is asked for, but one at least; more to come means it is full. */
  lemma PageSize(f: Feed, cursor: Option<string>, limit: int)
    requires Valid(f) && ListChanges(Log(f), cursor, limit).Ok?
    ensures var page := ListChanges(Log(f), cursor, limit).value;
            && |page.rows| <= 200 && (1 <= limit ==> |page.rows| <= limit) && (limit < 1 ==> |page.rows| <= 1)
            && (page.hasMore ==> |page.rows| == if limit < 1 then 1 else if limit > 200 then 200 else limit)
  {
    hide After, Skip, DecodeSyncCursor, EncodeSyncCursor, ListChanges, Ordered;
    LogIsOrdered(f);
    SkipSplits(Log(f), DecodeSyncCursor(cursor).value);
    PageShape(Log(f), cursor, limit);
  }

  lemma LogIsOrdered(f: Feed)
    requires Valid(f)
    ensures Ordered(Log(f))
  {}

  /** A page that is the next stretch of the log, as far as its bound allows, serves. */
  lemma PageServes(f: Feed, from: nat, page: Page, bound: nat, k: nat, n: nat)
    requires Valid(f) && !Expired(Log(f), from) && k + n <= |Log(f)| && bound > 0
    requires forall i :: 0 <= i < k ==> Log(f)[i].sequence <= from
    requires forall i :: k <= i < |Log(f)| ==> Log(f)[i].sequence > from
    requires n == (if |Log(f)| - k < bound then |Log(f)| - k else bound) && page.rows == Log(f)[k..k + n]
    requires page.hasMore <==> |Log(f)| - k > bound
    requires DecodeSyncCursor(Some(page.nextCursor)) == Ok(if n == 0 then from else Log(f)[k + n - 1].sequence)
    ensures Serves(f, from, page, bound)
  {
    hide Between, DecodeSyncCursor, Ordered;
    var to := if n == 0 then from else Log(f)[k + n - 1].sequence;
    PageInHistory(f, from, k, n, to);
    PageReaches(f, from, k, n, to);
    assert n > 0 ==> page.rows[n - 1] == Log(f)[k + n - 1];
  }

  lemma PageReaches(f: Feed, from: nat, k: nat, n: nat, to: nat)
    requires Valid(f) && k + n <= |Log(f)|
    requires forall i :: 0 <= i < k ==> Log(f)[i].sequence <= from
    requires forall i :: k <= i < |Log(f)| ==> Log(f)[i].sequence > from
    requires to == if n == 0 then from else Log(f)[k + n - 1].sequence
    ensures from <= to
    ensures n > 0 ==> f.history != [] && to <= f.history[|f.history| - 1].sequence
    ensures k + n == |Log(f)| ==> forall i :: 0 <= i < |Log(f)| ==> Log(f)[i].sequence <= to
  {
    if n > 0 {
      assert Log(f)[k + n - 1] == f.history[f.trimmed + k + n - 1];
    }
  }

  /** The page as a stretch of the log. */
  lemma PageShape(log: seq<Row>, cursor: Option<string>, limit: int)
    requires Ordered(log) && ListChanges(log, cursor, limit).Ok?
    ensures var page, from := ListChanges(log, cursor, limit).value, DecodeSyncCursor(cursor).value;
            var k, n, bound := Skip(log, from), |page.rows|, Bounded(limit);
            && !Expired(log, from)
            && n == (if |log| - k < bound then |log| - k else bound) && page.rows == log[k..k + n]
            && (page.hasMore <==> |log| - k > bound)
            && DecodeSyncCursor(Some(page.nextCursor)) == Ok(if n == 0 then from else log[k + n - 1].sequence)
  {
    hide After, Skip, DecodeSyncCursor, EncodeSyncCursor;
    var from := DecodeSyncCursor(cursor).value;
    var k := Skip(log, from);
    SkipSplits(log, from);
    AfterIsTail(log, from, k);
    var n := |ListChanges(log, cursor, limit).value.rows|;
    DecodedFits(cursor);
    CursorRoundTrip(if n == 0 then from else log[k + n - 1].sequence);
  }

  /** What the page promises to a client that asked from position `from`. */
  predicate Serves(f: Feed, from: nat, page: Page, bound: nat)
    requires Valid(f)
  {
    var to := DecodeSyncCursor(Some(page.nextCursor));
    && to.Ok? && from <= to.value
    && page.rows == Between(f.history, Resumes(f, from), to.value)
    && |page.rows| <= bound
    && (page.hasMore ==> |page.rows| == bound && to.value > 0)
    && (page.rows == [] ==> to.value == from)
    && (page.rows != [] ==> Resumes(f, from) < to.value == page.rows[|page.rows| - 1].sequence)
    && (page.rows != [] ==> f.history != [] && to.value <= f.history[|f.history| - 1].sequence)
    && (!page.hasMore ==> forall i :: 0 <= i < |Log(f)| ==> Log(f)[i].sequence <= to.value)
  }

  lemma PageInHistory(f: Feed, from: nat, k: nat, n: nat, to: nat)
    requires Valid(f) && !Expired(Log(f), from)
    requires k + n <= |Log(f)|
    requires forall i :: 0 <= i < k ==> Log(f)[i].sequence <= from
    requires forall i :: k <= i < |Log(f)| ==> Log(f)[i].sequence > from
    requires to == if n == 0 then from else Log(f)[k + n - 1].sequence
    ensures Log(f)[k..k + n] == Between(f.history, Resumes(f, from), to)
    ensures n > 0 ==> Resumes(f, from) < to
  {
    if n > 0 {
      RowsInHistory(f, from, k, n);
    } else if Resumes(f, from) <= to {
      BetweenIsNothing(f.history, to);
    }
  }

  lemma RowsInHistory(f: Feed, from: nat, k: nat, n: nat)
    requires Valid(f) && !Expired(Log(f), from)
    requires 0 < n && k + n <= |Log(f)|
    requires forall i :: 0 <= i < k ==> Log(f)[i].sequence <= from
    requires forall i :: k <= i < |Log(f)| ==> Log(f)[i].sequence > from
    ensures var to := Log(f)[k + n - 1].sequence;
            Resumes(f, from) < to && Log(f)[k..k + n] == Between(f.history, Resumes(f, from), to)
  {
    hide Skip, Between, Ordered;
    var h, a := f.history, f.trimmed + k;
    ResumesThere(f, from, k);
    assert Log(f)[k..k + n] == h[a..a + n];
    LaterRow(f, k, n);
    BetweenIs(h, Resumes(f, from), h[a + n - 1].sequence, a, a + n);
  }

  /** A served page takes up right at its first row. */
  lemma ResumesThere(f: Feed, from: nat, k: nat)
    requires Valid(f) && !Expired(Log(f), from) && k < |Log(f)|
    requires forall i :: 0 <= i < k ==> Log(f)[i].sequence <= from
    requires Log(f)[k].sequence > from
    ensures var h, a := f.history, f.trimmed + k;
            && (a > 0 ==> h[a - 1].sequence <= Resumes(f, from))
            && Resumes(f, from) < h[a].sequence
  {
    var h, a := f.history, f.trimmed + k;
    assert Log(f)[k] == h[a];
    if k > 0 {
      assert Log(f)[k - 1] == h[a - 1];
      assert f.trimmed > 0 ==> h[f.trimmed - 1].sequence < h[a - 1].sequence;
      assert from > 0 by { assert h[a - 1].sequence > 0; }
    } else {
      assert Log(f)[0] == h[f.trimmed];
    }
  }

  lemma LaterRow(f: Feed, k: nat, n: nat)
    requires Valid(f) && 0 < n && k + n <= |Log(f)|
    ensures var h, a := f.history, f.trimmed + k;
            && Log(f)[k + n - 1] == h[a + n - 1] && h[a].sequence <= h[a + n - 1].sequence
            && (a + n < |h| ==> h[a + n - 1].sequence < h[a + n].sequence)
  {}

  lemma BetweenIsNothing(rows: seq<Row>, at: nat)
    requires Ordered(rows)
    ensures Between(rows, at, at) == []
  {}

  // ---- Gaps ---------------------------------------------------------------------------------

  /** Some trimmed row is after the position: a client there has missed it for good. */
  predicate Missed(f: Feed, position: nat)
    requires Valid(f)
  {
    exists i :: 0 <= i < f.trimmed && f.history[i].sequence > position
  }

  lemma MissedIff(f: Feed, position: nat)
    requires Valid(f)
    ensures Missed(f, position) <==> position < TrimmedUpTo(f)
  {}

  /**
    Trimming causes no silent gap for a live cursor: while the log is not empty, a non-zero
    position that missed a row is rejected.
  */
  lemma NoSilentGap(f: Feed, position: nat)
    requires Valid(f) && Log(f) != [] && position > 0 && Missed(f, position)
    ensures Expired(Log(f), position)
  {
    MissedIff(f, position);
    assert f.history[f.trimmed - 1].sequence < Log(f)[0].sequence;
  }

  /** When a gap stays silent: exactly for the zero position, and while the log is empty. */
  lemma SilentGapIff(f: Feed, position: nat)
    requires Valid(f)
    ensures Missed(f, position) && !Expired(Log(f), position)
       <==> position < TrimmedUpTo(f) && (position == 0 || Log(f) == [])
  {
    MissedIff(f, position);
    if f.trimmed > 0 && Log(f) != [] {
      assert f.history[f.trimmed - 1].sequence < Log(f)[0].sequence;
    }
  }

  /**
    When a position is rejected although it missed nothing: exactly from the last trimmed row up
    to the oldest retained one, which a client that had read everything trimmed stands on.
  */
  lemma RejectedForNothingIff(f: Feed, position: nat)
    requires Valid(f)
    ensures Expired(Log(f), position) && !Missed(f, position)
       <==> position > 0 && Log(f) != [] && TrimmedUpTo(f) <= position < Log(f)[0].sequence
  {
    MissedIff(f, position);
  }

  /** A gap that an empty log hides is reported as soon as a row is written. */
  lemma HiddenGapIsReported(f: Feed, position: nat, row: Row)
    requires Valid(f) && Log(f) == [] && position > 0 && Missed(f, position)
    requires Valid(Feed(f.history + [row], f.trimmed))
    ensures Expired(Log(Feed(f.history + [row], f.trimmed)), position)
  {
    var g := Feed(f.history + [row], f.trimmed);
    var i :| 0 <= i < f.trimmed && f.history[i].sequence > position;
    assert g.history[i] == f.history[i];
    assert Missed(g, position);
    NoSilentGap(g, position);
  }

  // ---- The client loop ----------------------------------------------------------------------

  const PULL_PAGE_LIMIT := 100
  const MAX_PAGES_PER_CYCLE: nat := 100

  /** The feed as successive requests find it: rows are appended and trimmed in between. */
  predicate Evolves(feeds: seq<Feed>) {
    && (forall i :: 0 <= i < |feeds| ==> Valid(feeds[i]))
    && (forall i, j :: 0 <= i <= j < |feeds| ==>
          feeds[i].history <= feeds[j].history && feeds[i].trimmed <= feeds[j].trimmed)
  }

  datatype Summary = Summary(pagesApplied: nat, hasMore: bool)

  lemma BetweenIn(shorter: seq<Row>, longer: seq<Row>, from: nat, to: nat)
    requires Ordered(shorter) && Ordered(longer) && shorter <= longer && from <= to
    requires to <= if shorter == [] then 0 else shorter[|shorter| - 1].sequence
    ensures Between(shorter, from, to) == Between(longer, from, to)
  {
    hide Skip;
    SkipIn(shorter, longer, from);
    SkipIn(shorter, longer, to);
    SkipMonotone(shorter, from, to);
    assert shorter[Skip(shorter, from)..Skip(shorter, to)] == longer[Skip(shorter, from)..Skip(shorter, to)];
  }

  lemma SkipIn(shorter: seq<Row>, longer: seq<Row>, sequence: nat)
    requires Ordered(shorter) && Ordered(longer) && shorter <= longer
    requires sequence <= if shorter == [] then 0 else shorter[|shorter| - 1].sequence
    ensures Skip(longer, sequence) == Skip(shorter, sequence)
  {
    SkipSplits(shorter, sequence);
    var k := Skip(shorter, sequence);
    assert forall i :: 0 <= i < |shorter| ==> shorter[i] == longer[i];
    if k == |shorter| && k < |longer| && k > 0 {
      assert longer[k].sequence > longer[k - 1].sequence;
    }
    SkipIs(longer, sequence, k);
  }

  /** What a drain that began at `start` has applied when it stands at `end`. */
  predicate Drained(feeds: seq<Feed>, start: nat, end: nat, rows: seq<Row>)
    requires feeds != [] && Evolves(feeds)
  {
    start <= end && rows == Between(feeds[|feeds| - 1].history, Resumes(feeds[0], start), end)
  }

  lemma NothingDrained(feeds: seq<Feed>, start: nat)
    requires feeds != [] && Evolves(feeds)
    ensures Drained(feeds, start, start, [])
  {}

  /** The next page continues what was drained before, however the log changed in between. */
  lemma DrainsFurther(feeds: seq<Feed>, i: nat, start: nat, pos: nat, rows: seq<Row>, page: Page, bound: nat)
    requires i < |feeds| && Evolves(feeds) && Drained(feeds, start, pos, rows)
    requires if i == 0 then pos == start else pos > 0 && Resumes(feeds[0], start) <= pos
    requires Serves(feeds[i], pos, page, bound)
    ensures var to := DecodeSyncCursor(Some(page.nextCursor)).value;
            && Drained(feeds, start, to, rows + page.rows)
            && (page.rows != [] ==> Resumes(feeds[0], start) <= to)
  {
    hide DecodeSyncCursor, Skip, Between;
    var to := DecodeSyncCursor(Some(page.nextCursor)).value;
    var h := feeds[|feeds| - 1].history;
    var from := Resumes(feeds[i], pos);
    if page.rows == [] {
      assert rows + page.rows == rows;
    } else {
      BetweenIn(feeds[i].history, h, from, to);
      if i == 0 {
        DrainedNothing(feeds, start, rows);
        assert rows + page.rows == page.rows;
      } else {
        BetweenJoins(h, Resumes(feeds[0], start), pos, to);
      }
    }
  }

  lemma DrainedNothing(feeds: seq<Feed>, start: nat, rows: seq<Row>)
    requires feeds != [] && Evolves(feeds) && Drained(feeds, start, start, rows)
    ensures rows == []
  {}

  /** The drain from cursor `from` has applied `rows` and made `cursor` durable. */
  predicate Reached(feeds: seq<Feed>, from: Option<string>, cursor: Option<string>, rows: seq<Row>)
    requires feeds != [] && Evolves(feeds)
  {
    if DecodeSyncCursor(from).Err? then cursor == from && rows == []
    else
      && DecodeSyncCursor(cursor).Ok?
      && Drained(feeds, DecodeSyncCursor(from).value, DecodeSyncCursor(cursor).value, rows)
  }

  /** It may ask for page `i`: the first one, or from a position of its own. */
  predicate Continues(feeds: seq<Feed>, from: Option<string>, cursor: Option<string>, i: nat)
    requires feeds != [] && Evolves(feeds)
  {
    if i == 0 then cursor == from
    else
      && DecodeSyncCursor(from).Ok? && DecodeSyncCursor(cursor).Ok? && DecodeSyncCursor(cursor).value > 0
      && Resumes(feeds[0], DecodeSyncCursor(from).value) <= DecodeSyncCursor(cursor).value
  }

  lemma StartsReached(feeds: seq<Feed>, cursor: Option<string>)
    requires feeds != [] && Evolves(feeds)
    ensures Reached(feeds, cursor, cursor, [])
  {
    hide DecodeSyncCursor;
    if DecodeSyncCursor(cursor).Ok? {
      NothingDrained(feeds, DecodeSyncCursor(cursor).value);
    }
  }

  lemma ReachesNext(feeds: seq<Feed>, from: Option<string>, cursor: Option<string>, rows: seq<Row>, i: nat, page: Page)
    requires i < |feeds| && Evolves(feeds)
    requires Reached(feeds, from, cursor, rows) && Continues(feeds, from, cursor, i)
    requires ListChanges(Log(feeds[i]), cursor, PULL_PAGE_LIMIT) == Ok(page)
    ensures Reached(feeds, from, Some(page.nextCursor), rows + page.rows)
    ensures DecodeSyncCursor(Some(page.nextCursor)).Ok?
    ensures page.hasMore ==> Continues(feeds, from, Some(page.nextCursor), i + 1)
    ensures !page.hasMore ==> ReadToTheEnd(feeds[i], DecodeSyncCursor(Some(page.nextCursor)).value)
  {
    hide DecodeSyncCursor, EncodeSyncCursor, Between, Expired, Drained;
    assert ListChanges(Log(feeds[i]), cursor, PULL_PAGE_LIMIT).Ok?;
    PageIsNext(feeds[i], cursor, PULL_PAGE_LIMIT);
    hide ListChanges;
    DrainsFurther(feeds, i, DecodeSyncCursor(from).value, DecodeSyncCursor(cursor).value, rows, page,
                  Bounded(PULL_PAGE_LIMIT));
  }

  /** No retained row is after the position. */
  predicate ReadToTheEnd(f: Feed, position: nat)
    requires Valid(f)
  {
    forall i :: 0 <= i < |Log(f)| ==> Log(f)[i].sequence <= position
  }

  class DesktopStore {
    var cursor: Option<string>
    /** The rows of all pages applied so far. */
    var applied: seq<Row>

    method FetchChangesPage(feed: Feed) returns (page: Result<Page, FeedError>)
      requires Valid(feed)
      ensures page == ListChanges(Log(feed), cursor, PULL_PAGE_LIMIT)
      ensures page == Err(CursorInvalid) <==> DecodeSyncCursor(cursor).Err?
      ensures page == Err(CursorExpired) <==>
                DecodeSyncCursor(cursor).Ok? && Expired(Log(feed), DecodeSyncCursor(cursor).value)
    {
      page := ListChanges(Log(feed), cursor, PULL_PAGE_LIMIT);
    }

    /** A page's rows and its cursor become durable together. */
    method ApplyChangesPage(page: Page)
      modifies this
      ensures applied == old(applied) + page.rows && cursor == Some(page.nextCursor)
    {
      applied := applied + page.rows;
      cursor := Some(page.nextCursor);
    }

    /**
      Drains the feed page by page. Whatever is appended or trimmed in between, and however the
      drain ends, the rows applied are exactly the rows of the whole history from where the
      cursor stood to where it stands now, each once and in order; only a drain from 0 starts
      behind what had been trimmed by then. A drain that says there is no more has reached the
      last retained row.
    */
    method PullChanges(feeds: seq<Feed>) returns (r: Result<Summary, FeedError>)
      requires |feeds| >= MAX_PAGES_PER_CYCLE && Evolves(feeds)
      modifies this
      ensures old(applied) <= applied
      ensures Reached(feeds, old(cursor), cursor, applied[|old(applied)|..])
      ensures DecodeSyncCursor(old(cursor)).Err? ==> r == Err(CursorInvalid)
      ensures r.Ok? ==> 1 <= r.value.pagesApplied <= MAX_PAGES_PER_CYCLE && DecodeSyncCursor(cursor).Ok?
      ensures r.Ok? && r.value.hasMore ==> r.value.pagesApplied == MAX_PAGES_PER_CYCLE
      ensures r.Ok? && !r.value.hasMore ==>
                ReadToTheEnd(feeds[r.value.pagesApplied - 1], DecodeSyncCursor(cursor).value)
      ensures r == Err(CursorExpired) ==>
                && DecodeSyncCursor(cursor).Ok?
                && exists i :: 0 <= i < |feeds| && Expired(Log(feeds[i]), DecodeSyncCursor(cursor).value)
    {
      hide DecodeSyncCursor, EncodeSyncCursor, Between, Expired, Drained, Resumes, ReadToTheEnd, ListChanges, Log;
      var pages: nat := 0;
      ghost var rows: seq<Row> := [];
      StartsReached(feeds, cursor);
      while true
        invariant pages < MAX_PAGES_PER_CYCLE
        invariant applied == old(applied) + rows
        invariant Reached(feeds, old(cursor), cursor, rows) && Continues(feeds, old(cursor), cursor, pages)
        decreases MAX_PAGES_PER_CYCLE - pages
      {
        assert applied[|old(applied)|..] == rows;
        var page := FetchChangesPage(feeds[pages]);
        if page.Err? {
          return Err(page.error);
        }
        ReachesNext(feeds, old(cursor), cursor, rows, pages, page.value);
        ApplyChangesPage(page.value);
        rows := rows + page.value.rows;
        pages := pages + 1;
        assert applied[|old(applied)|..] == rows;
        if !page.value.hasMore || pages >= MAX_PAGES_PER_CYCLE {
          return Ok(Summary(pages, page.value.hasMore));
        }
      }
    }
  }
}
