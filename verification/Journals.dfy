/**
  Append-only journal files, one JSON record a line, as both journalled engines of the desktop
  client keep them. A crash may leave the last line without its newline, and the next append is
  then glued to it. Reading stops at the first line that does not parse, and fails on a line that
  is not UTF-8, which is what a record becomes that is torn inside a character of several bytes.
*/
module Journals {
  import opened Prelude

  /** One line of the file: a complete record, white space, text that does not parse, or no text. */
  datatype Line<+R> = Record(value: R) | Blank | Corrupt | Undecodable

  /** `terminated` says whether the last line ends in a newline. */
  datatype File<+R> = File(lines: seq<Line<R>>, terminated: bool)

  /**
    What reading a journal yields: the latest record, or one of the source's three read errors (a
    first line that does not parse, no record at all, a line that cannot be decoded).
  */
  datatype Reading<+R> = Latest(value: R) | Malformed | Empty | Unreadable

  predicate IsBad<R(==)>(line: Line<R>) { line == Corrupt || line == Undecodable }

  predicate HasBad<R(==)>(lines: seq<Line<R>>) {
    exists i :: 0 <= i < |lines| && IsBad(lines[i])
  }

  /** The reading of a file, line by line. Nothing after the first bad line counts. */
  function Read<R(==)>(lines: seq<Line<R>>): Reading<R> {
    if lines == [] then Empty
    else
      var front := lines[..|lines| - 1];
      var last := lines[|lines| - 1];
      if HasBad(front) then Read(front)
      else match last
        case Record(value) => Latest(value)
        case Blank => Read(front)
        case Corrupt => if Read(front).Latest? then Read(front) else Malformed
        case Undecodable => Unreadable
  }

  /** The reader's loop. */
  method ReadLatest<R(==)>(lines: seq<Line<R>>) returns (reading: Reading<R>)
    ensures reading == Read(lines)
  {
    var latest: Option<R> := None;
    var i := 0;
    while i < |lines|
      invariant 0 <= i <= |lines|
      invariant !HasBad(lines[..i])
      invariant Read(lines[..i]) == if latest.Some? then Latest(latest.value) else Empty
    {
      assert lines[..i + 1][..i] == lines[..i];
      match lines[i] {
        case Record(value) =>
          latest := Some(value);
        case Blank =>
        case Corrupt =>
          ReadIgnoresTail(lines, i + 1);
          return if latest.Some? then Latest(latest.value) else Malformed;
        case Undecodable =>
          ReadIgnoresTail(lines, i + 1);
          return Unreadable;
      }
      i := i + 1;
    }
    assert lines[..|lines|] == lines;
    reading := if latest.Some? then Latest(latest.value) else Empty;
  }

  /** Once a bad line has been met, the rest of the file cannot change the reading. */
  lemma {:induction false} ReadIgnoresTail<R>(lines: seq<Line<R>>, n: nat)
    requires n <= |lines| && HasBad(lines[..n])
    ensures Read(lines) == Read(lines[..n])
  {
    if n == |lines| {
      assert lines[..n] == lines;
    } else {
      var front := lines[..|lines| - 1];
      assert front[..n] == lines[..n];
      var i :| 0 <= i < n && IsBad(lines[..n][i]);
      assert IsBad(front[i]);
      ReadIgnoresTail(front, n);
    }
  }

  /** Line `i` is the last record that precedes every bad line. */
  ghost predicate IsLastGood<R>(lines: seq<Line<R>>, i: nat) {
    && i < |lines| && lines[i].Record?
    && !HasBad(lines[..i])
    && forall j :: i < j < |lines| && lines[j].Record? ==> HasBad(lines[..j])
  }

  /** The first bad line is one that cannot be decoded. */
  ghost predicate BreaksInCharacter<R>(lines: seq<Line<R>>) {
    exists i :: 0 <= i < |lines| && lines[i] == Undecodable && !HasBad(lines[..i])
  }

  /** A reading succeeds exactly with the last record that precedes every bad line. */
  lemma {:induction false} ReadMeaning<R>(lines: seq<Line<R>>, value: R)
    ensures Read(lines) == Latest(value)
       <==> !BreaksInCharacter(lines) && exists i: nat :: IsLastGood(lines, i) && lines[i] == Record(value)
    ensures Read(lines) == Unreadable <==> BreaksInCharacter(lines)
  {
    if lines != [] {
      var n := |lines| - 1;
      var front := lines[..n];
      ReadMeaning(front, value);
      BreakStep(lines);
      assert forall k :: 0 <= k <= n ==> front[..k] == lines[..k];
      if Read(lines) == Latest(value) {
        if !HasBad(front) && lines[n].Record? {
          assert IsLastGood(lines, n);
        } else {
          var i: nat :| IsLastGood(front, i) && front[i] == Record(value);
          assert IsLastGood(lines, i);
        }
      }
      if i: nat :| IsLastGood(lines, i) && lines[i] == Record(value) {
        if i < n {
          assert IsLastGood(front, i);
        }
      }
    }
  }

  lemma BreakStep<R>(lines: seq<Line<R>>)
    requires lines != []
    ensures var front, last := lines[..|lines| - 1], lines[|lines| - 1];
            BreaksInCharacter(lines) <==> BreaksInCharacter(front) || (!HasBad(front) && last == Undecodable)
  {
    var n := |lines| - 1;
    var front := lines[..n];
    assert forall k :: 0 <= k <= n ==> front[..k] == lines[..k];
    if i :| 0 <= i < |front| && front[i] == Undecodable && !HasBad(front[..i]) {
      assert lines[i] == Undecodable && !HasBad(lines[..i]);
    }
    if !HasBad(front) && lines[n] == Undecodable {
      assert lines[n] == Undecodable && !HasBad(lines[..n]);
    }
    if i :| 0 <= i < |lines| && lines[i] == Undecodable && !HasBad(lines[..i]) {
      if i < n { assert front[i] == Undecodable && !HasBad(front[..i]); }
    }
  }

  /** The last line is unterminated text, to which the next record will be glued. */
  predicate IsOpen<R(==)>(file: File<R>) {
    !file.terminated && file.lines != [] && file.lines[|file.lines| - 1] != Blank
  }

  /** The lines an append keeps as they are: all but an open last one. */
  function Kept<R(==)>(file: File<R>): seq<Line<R>> {
    if IsOpen(file) then file.lines[..|file.lines| - 1] else file.lines
  }

  /** The states of a record that is being written after `front`, while it is torn. */
  function Torn<R>(front: seq<Line<R>>, wide: bool): seq<File<R>> {
    [File(front + [Corrupt], false)] + if wide then [File(front + [Undecodable], false)] else []
  }

  /**
    The states the file passes through while a record is appended: a torn line, the whole line
    without its newline, the finished line. An absent file is created first. A `wide` record holds
    characters of several bytes, and is no text while torn inside one. Onto an open line the new
    text is glued, and the two together do not parse, or still are no text.
  */
  function AppendSteps<R(==)>(file: Option<File<R>>, record: R, wide: bool): (steps: seq<File<R>>)
    ensures 2 <= |steps| <= 5
  {
    match file
    case None =>
      [File([], true)] + Torn([], wide) + [File([Record(record)], false), File([Record(record)], true)]
    case Some(f) =>
      var front := Kept(f);
      if !IsOpen(f) then
        Torn(front, wide) + [File(front + [Record(record)], false), File(front + [Record(record)], true)]
      else if f.lines[|f.lines| - 1] == Undecodable then
        [File(front + [Undecodable], false), File(front + [Undecodable], true)]
      else
        Torn(front, wide) + [File(front + [Corrupt], true)]
  }

  /** The file after a whole append. */
  function Append<R(==)>(file: Option<File<R>>, record: R): File<R> {
    var front := if file.None? then [] else Kept(file.value);
    File(front + [if file.None? || !IsOpen(file.value) then Record(record)
                  else if file.value.lines[|file.value.lines| - 1] == Undecodable then Undecodable
                  else Corrupt], true)
  }

  lemma AppendIsLastStep<R>(file: Option<File<R>>, record: R, wide: bool)
    ensures var steps := AppendSteps(file, record, wide); steps[|steps| - 1] == Append(file, record)
  {
    assert [] + [Record(record)] == [Record(record)];
  }

  /** A journal whose every append so far was completed. */
  predicate Clean<R(==)>(file: File<R>) {
    !IsOpen(file) && !HasBad(file.lines)
  }

  lemma ReadNext<R>(lines: seq<Line<R>>, last: Line<R>)
    ensures HasBad(lines + [last]) <==> HasBad(lines) || IsBad(last)
    ensures Read(lines + [last]) == if HasBad(lines) then Read(lines)
                                    else match last
                                      case Record(value) => Latest(value)
                                      case Blank => Read(lines)
                                      case Corrupt => if Read(lines).Latest? then Read(lines) else Malformed
                                      case Undecodable => Unreadable
  {
    var all := lines + [last];
    assert all[..|all| - 1] == lines && all[|lines|] == last;
    if i :| 0 <= i < |lines| && IsBad(lines[i]) { assert IsBad(all[i]); }
  }

  /** Without bad lines there is a latest record, or none at all. */
  lemma {:induction false} GoodLinesRead<R>(lines: seq<Line<R>>)
    requires !HasBad(lines)
    ensures Read(lines).Latest? || Read(lines) == Empty
  {
    if lines != [] {
      var front := lines[..|lines| - 1];
      assert forall i :: 0 <= i < |front| ==> front[i] == lines[i];
      assert !IsBad(lines[|lines| - 1]);
      GoodLinesRead(front);
    }
  }

  /** Whole-record appends: on a clean journal the new record is what is read back. */
  lemma AppendIsRead<R>(file: File<R>, record: R)
    requires Clean(file)
    ensures Clean(Append(Some(file), record))
    ensures Read(Append(Some(file), record).lines) == Latest(record)
  {
    ReadNext(file.lines, Record(record));
  }

  /**
    A record appended to a journal that is not clean is never read: whatever is appended, the
    reading is the same. So appends are visible exactly on clean journals.
  */
  lemma AppendIsLost<R>(file: File<R>, record: R, other: R)
    requires !Clean(file)
    ensures !Clean(Append(Some(file), record))
    ensures Read(Append(Some(file), record).lines) == Read(Append(Some(file), other).lines)
  {
    hide Read, HasBad;
    var front := Kept(file);
    var one, two := Append(Some(file), record), Append(Some(file), other);
    ReadNext(front, one.lines[|front|]);
    ReadNext(front, two.lines[|front|]);
  }

  /** Exactly the clean journals make every append visible. */
  lemma AppendVisibleIffClean<R>(file: File<R>, one: R, two: R)
    requires one != two
    ensures Clean(file)
       <==> (Read(Append(Some(file), one).lines) == Latest(one)
             && Read(Append(Some(file), two).lines) == Latest(two))
  {
    if Clean(file) {
      AppendIsRead(file, one);
      AppendIsRead(file, two);
    } else {
      AppendIsLost(file, one, two);
    }
  }

  /**
    Which append makes a journal read as `record`: one to a clean journal, or one to a readable
    journal that read so already in the lines the append keeps. An open line counts for nothing,
    even if it is a whole record.
  */
  lemma AppendReadsIff<R>(file: File<R>, record: R)
    ensures Read(Append(Some(file), record).lines) == Latest(record)
       <==> Clean(file) || (Read(file.lines) != Unreadable && Read(Kept(file)) == Latest(record))
  {
    hide Read, HasBad;
    var front := Kept(file);
    ReadNext(front, Append(Some(file), record).lines[|front|]);
    if IsOpen(file) {
      assert file.lines == front + [file.lines[|front|]];
      ReadNext(front, file.lines[|front|]);
    }
  }

  // ---- What a journal can come to read as ---------------------------------------------------

  /** What the file reads as now, and once a glued append has spoilt its open last line. */
  function Readings<R(==)>(file: File<R>): set<Reading<R>> {
    {Read(file.lines)}
    + if !IsOpen(file) || file.lines[|file.lines| - 1] == Undecodable then {} else {Read(Kept(file) + [Corrupt])}
  }

  lemma CleanReadsOneWay<R>(file: File<R>)
    requires Clean(file)
    ensures Readings(file) == {Read(file.lines)}
  {}

  lemma ReadingIsOne<R>(file: File<R>)
    ensures Read(file.lines) in Readings(file)
  {}

  /** `f` reads as `file` does, as `record`, or (where there was no record yet) as malformed. */
  predicate ReadsAs<R(==)>(f: File<R>, file: File<R>, record: R, wide: bool) {
    forall r :: r in Readings(f) ==>
      || r in Readings(file) || r == Latest(record)
      || (r == Malformed && Read(file.lines) == Empty) || (r == Unreadable && wide)
  }

  /** Where the record, whole or torn, gets a line of its own. */
  lemma FreshLineReads<R>(file: File<R>, f: File<R>, line: Line<R>, record: R, wide: bool)
    requires !IsOpen(file) && f.lines == file.lines + [line]
    requires line == Corrupt || line == Record(record) || (line == Undecodable && wide)
    ensures ReadsAs(f, file, record, wide)
  {
    hide Read, HasBad;
    var front := file.lines;
    assert IsOpen(f) ==> Kept(f) == front;
    if !HasBad(front) { GoodLinesRead(front); }
    ReadNext(front, Corrupt);
    ReadNext(front, line);
  }

  lemma FreshReadings<R>(file: File<R>, record: R, wide: bool)
    requires !IsOpen(file)
    ensures forall f :: f in AppendSteps(Some(file), record, wide) ==> ReadsAs(f, file, record, wide)
  {
    hide Read, HasBad, ReadsAs;
    forall f | f in AppendSteps(Some(file), record, wide) ensures ReadsAs(f, file, record, wide) {
      var line := f.lines[|f.lines| - 1];
      assert f.lines == file.lines + [line];
      FreshLineReads(file, f, line, record, wide);
    }
  }

  /** Where it is glued to an open line, and the two together are still text. */
  lemma GluedTextReads<R>(file: File<R>, f: File<R>, record: R, wide: bool)
    requires IsOpen(file) && file.lines[|file.lines| - 1] != Undecodable && f.lines == Kept(file) + [Corrupt]
    ensures ReadsAs(f, file, record, wide)
  {
    hide Read, HasBad;
    assert IsOpen(f) ==> Kept(f) == Kept(file);
  }

  /** Where they are none. */
  lemma GluedBytesRead<R>(file: File<R>, f: File<R>, record: R, wide: bool)
    requires IsOpen(file) && (wide || file.lines[|file.lines| - 1] == Undecodable)
    requires f.lines == Kept(file) + [Undecodable]
    ensures ReadsAs(f, file, record, wide)
  {
    hide Read, HasBad;
    var front, last := Kept(file), file.lines[|file.lines| - 1];
    assert file.lines == front + [last];
    ReadNext(front, last);
    ReadNext(front, Undecodable);
  }

  lemma GluedReadings<R>(file: File<R>, record: R, wide: bool)
    requires IsOpen(file)
    ensures forall f :: f in AppendSteps(Some(file), record, wide) ==> ReadsAs(f, file, record, wide)
  {
    hide Read, HasBad, ReadsAs;
    forall f | f in AppendSteps(Some(file), record, wide) ensures ReadsAs(f, file, record, wide) {
      if f.lines[|f.lines| - 1] == Undecodable {
        GluedBytesRead(file, f, record, wide);
      } else {
        GluedTextReads(file, f, record, wide);
      }
    }
  }

  /**
    At no point of an append does the file read as anything but before or the new record, unless
    it cannot be read at all: then the record is torn inside a character.
  */
  lemma AppendReadings<R>(file: File<R>, record: R, wide: bool)
    ensures forall f :: f in AppendSteps(Some(file), record, wide) ==> ReadsAs(f, file, record, wide)
  {
    if IsOpen(file) {
      GluedReadings(file, record, wide);
    } else {
      FreshReadings(file, record, wide);
    }
  }

  /** A completed append is read back unless a bad line stands before it, and none ever goes. */
  lemma AppendReadOrBad<R>(file: File<R>, record: R, wide: bool)
    ensures var end := Append(Some(file), record);
            HasBad(end.lines) || Read(end.lines) == Latest(record)
    ensures HasBad(file.lines) ==>
              forall f :: f in AppendSteps(Some(file), record, wide) ==> HasBad(f.lines)
  {
    hide Read, HasBad;
    var front := Kept(file);
    ReadNext(front, Corrupt);
    ReadNext(front, Undecodable);
    ReadNext(front, Record(record));
    if IsOpen(file) {
      assert file.lines == front + [file.lines[|front|]];
      ReadNext(front, file.lines[|front|]);
    }
    forall f | HasBad(file.lines) && f in AppendSteps(Some(file), record, wide) ensures HasBad(f.lines) {
      assert f.lines == front + [f.lines[|front|]];
    }
    var end := Append(Some(file), record);
    assert end.lines == front + [end.lines[|front|]];
  }

  /** The same for the append that creates the file. */
  lemma FirstAppendReadings<R>(record: R, wide: bool)
    ensures forall f :: f in AppendSteps(None, record, wide) ==>
              Readings(f) <= {Empty, Malformed, Latest(record)} + if wide then {Unreadable} else {}
    ensures Clean(Append(None, record)) && Read(Append(None, record).lines) == Latest(record)
  {
    var start: File<R> := File([], true);
    AppendReadings(start, record, wide);
    AppendIsRead(start, record);
    assert forall line: Line<R> :: start.lines + [line] == [line];
    var steps := AppendSteps(None, record, wide);
    assert steps == [start] + AppendSteps(Some(start), record, wide);
    assert Readings(start) == {Empty};
    forall f | f in steps
      ensures Readings(f) <= {Empty, Malformed, Latest(record)} + if wide then {Unreadable} else {}
    {
      assert f == start || ReadsAs(f, start, record, wide);
    }
  }
}
