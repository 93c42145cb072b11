/**
  Portable paths: segments joined with '/', and the rules a segment must obey. The desktop client
  and the server each have their own copy of the rules.
*/
module PortablePaths {
  import opened Prelude
  import opened Texts

  const SEPARATOR := '/'
  const MAX_SEGMENT_BYTES := 255

  /** The length of a character in UTF-8. */
  function Utf8Length(c: char): nat {
    if c < '\U{80}' then 1 else if c < '\U{800}' then 2 else if c < '\U{10000}' then 3 else 4
  }

  function ByteLength(s: string): nat {
    if s == [] then 0 else ByteLength(s[..|s| - 1]) + Utf8Length(s[|s| - 1])
  }

  function Upper(s: string): string {
    seq(|s|, i requires 0 <= i < |s| => if 'a' <= s[i] <= 'z' then s[i] - 'a' + 'A' else s[i])
  }

  /** Device names Windows reserves, whatever follows the first dot. */
  predicate ReservedStem(segment: string) {
    var stem := Upper(Before(segment, '.'));
    || stem in {"CON", "PRN", "AUX", "NUL"}
    || (|stem| == 4 && stem[..3] in {"COM", "LPT"} && '1' <= stem[3] <= '9')
  }

  predicate Forbidden(c: char) {
    c in {'<', '>', ':', '"', '\\', '|', '?', '*'}
  }

  /** A control character by the desktop's rule: Unicode category Cc. */
  predicate DesktopControl(c: char) {
    c < '\U{20}' || '\U{7F}' <= c <= '\U{9F}'
  }

  /** A control character by the server's rule. */
  predicate ServerControl(c: char) {
    c < '\U{20}'
  }

  predicate PlainShape(segment: string) {
    && segment != "" && segment != "." && segment != ".."
    && ByteLength(segment) <= MAX_SEGMENT_BYTES
    && segment[|segment| - 1] != ' ' && segment[|segment| - 1] != '.'
    && (forall i :: 0 <= i < |segment| ==> !Forbidden(segment[i]))
    && !ReservedStem(segment)
  }

  predicate DesktopSegment(segment: string) {
    PlainShape(segment) && forall i :: 0 <= i < |segment| ==> !DesktopControl(segment[i])
  }

  predicate ServerSegment(segment: string) {
    PlainShape(segment) && forall i :: 0 <= i < |segment| ==> !ServerControl(segment[i])
  }

  // ---- What the rules amount to -------------------------------------------------------------

  /** The bytes of a text: one a character, and one more for each of the three bounds it reaches. */
  lemma {:induction false} ByteLengthIs(s: string)
    ensures ByteLength(s)
         == |s| + |Reaching(s, '\U{80}')| + |Reaching(s, '\U{800}')| + |Reaching(s, '\U{10000}')|
  {
    if s != [] {
      var front, last := s[..|s| - 1], s[|s| - 1];
      ByteLengthIs(front);
      ReachingOneMore(s, '\U{80}');
      ReachingOneMore(s, '\U{800}');
      ReachingOneMore(s, '\U{10000}');
    }
  }

  /** Where the characters from `bound` on stand. */
  function Reaching(s: string, bound: char): set<nat> {
    set i: nat | i < |s| && s[i] >= bound
  }

  lemma ReachingOneMore(s: string, bound: char)
    requires s != []
    ensures |Reaching(s, bound)|
         == |Reaching(s[..|s| - 1], bound)| + if s[|s| - 1] >= bound then 1 else 0
  {
    var n := |s| - 1;
    assert Reaching(s, bound) == Reaching(s[..n], bound) + if s[n] >= bound then {n} else {};
  }

  /** A device name, in any mix of cases. */
  predicate DeviceName(w: string) {
    || (|w| == 3 && (|| (w[0] in "Cc" && w[1] in "Oo" && w[2] in "Nn")
                     || (w[0] in "Pp" && w[1] in "Rr" && w[2] in "Nn")
                     || (w[0] in "Aa" && w[1] in "Uu" && w[2] in "Xx")
                     || (w[0] in "Nn" && w[1] in "Uu" && w[2] in "Ll")))
    || (|w| == 4 && (|| (w[0] in "Cc" && w[1] in "Oo" && w[2] in "Mm")
                     || (w[0] in "Ll" && w[1] in "Pp" && w[2] in "Tt")) && w[3] in "123456789")
  }

  lemma DeviceNamesAre(w: string)
    requires '.' !in w
    ensures DeviceName(w) <==> Upper(w) in {"CON", "PRN", "AUX", "NUL"}
                               || (|w| == 4 && Upper(w)[..3] in {"COM", "LPT"} && '1' <= Upper(w)[3] <= '9')
  {
    var u := Upper(w);
    if |w| == 3 {
      assert u == [u[0], u[1], u[2]];
    } else if |w| == 4 {
      assert u[..3] == [u[0], u[1], u[2]];
    }
  }

  /** Reserved is a device name, bare or with any extension. */
  lemma ReservedIff(segment: string)
    ensures ReservedStem(segment) <==>
              exists n :: 0 <= n <= |segment| && DeviceName(segment[..n]) && (n == |segment| || segment[n] == '.')
  {
    var stem := Before(segment, '.');
    DeviceNamesAre(stem);
    assert |Upper(stem)| == |stem| && stem == segment[..|stem|];
    if n :| 0 <= n <= |segment| && DeviceName(segment[..n]) && (n == |segment| || segment[n] == '.') {
      assert '.' !in segment[..n];
      if n == |segment| {
        assert segment[..n] == segment;
        BeforeAll(segment, '.');
      } else {
        assert segment == segment[..n] + ['.'] + segment[n + 1..];
        BeforeAppend(segment[..n], segment[n + 1..], '.');
      }
    }
  }

  /**
    The rule for a segment: something that does not end in a dot or a space, at most 255 bytes long,
    without control or forbidden characters, and no device name, bare or with an extension. The two
    sides differ in DEL and the C1 control characters.
  */
  lemma SegmentRule(segment: string)
    ensures ServerSegment(segment) <==>
              && segment != "" && segment[|segment| - 1] != '.' && segment[|segment| - 1] != ' '
              && ByteLength(segment) <= 255
              && (forall c :: c in segment ==> c >= ' ' && c !in "<>:\"\\|?*")
              && !(exists n :: 0 <= n <= |segment| && DeviceName(segment[..n])
                               && (n == |segment| || segment[n] == '.'))
    ensures DesktopSegment(segment) <==>
              ServerSegment(segment) && forall c :: c in segment ==> !('\U{7F}' <= c <= '\U{9F}')
  {
    hide ReservedStem, DeviceName, ByteLength;
    ReservedIff(segment);
    assert segment == "." || segment == ".." ==> segment[|segment| - 1] == '.';
    assert forall i :: 0 <= i < |segment| ==> segment[i] in segment;
  }

  /** A name that no file system refuses or takes for another. */
  predicate PortableName(name: string) {
    && name != "" && name[|name| - 1] != '.' && name[|name| - 1] != ' ' && ByteLength(name) <= 255
    && (forall c :: c in name ==> c >= ' ' && !('\U{7F}' <= c <= '\U{9F}') && c !in "<>:\"\\|?*")
    && (forall n :: 0 <= n <= |name| && DeviceName(name[..n]) ==> n < |name| && name[n] != '.')
  }

  lemma DesktopNamesArePortable(name: string)
    ensures DesktopSegment(name) <==> PortableName(name)
  {
    hide DeviceName, ByteLength, DesktopSegment, ServerSegment;
    SegmentRule(name);
  }

  /** Both sides take names of letters, digits, dashes, inner dots and spaces, and text from beyond ASCII. */
  lemma OrdinaryNamesAreAccepted(segment: string)
    requires segment != "" && segment[|segment| - 1] != '.' && segment[|segment| - 1] != ' '
    requires forall c :: c in segment ==>
               || 'a' <= c <= 'z' || 'A' <= c <= 'Z' || '0' <= c <= '9' || c in "-_. " || c >= '\U{A0}'
    requires |segment| + |Reaching(segment, '\U{80}')| + |Reaching(segment, '\U{800}')|
             + |Reaching(segment, '\U{10000}')| <= 255
    requires forall n :: 0 <= n <= |segment| && DeviceName(segment[..n]) ==> n < |segment| && segment[n] != '.'
    ensures DesktopSegment(segment) && ServerSegment(segment)
  {
    hide ReservedStem, DeviceName, ByteLength, Reaching;
    ByteLengthIs(segment);
    SegmentRule(segment);
  }

  // ---- Where a path leads --------------------------------------------------------------------

  /**
    The directory or file that segments lead to from a directory, given by its own segments: "." and
    nothing stay, ".." goes up, and out of everything where there is no up.
  */
  function Resolve(at: seq<string>, segments: seq<string>): Option<seq<string>>
    decreases |segments|
  {
    if segments == [] then Some(at)
    else if segments[0] in {"", "."} then Resolve(at, segments[1..])
    else if segments[0] == ".." then if at == [] then None else Resolve(at[..|at| - 1], segments[1..])
    else Resolve(at + [segments[0]], segments[1..])
  }

  lemma {:induction false} GoodSegmentsGoDown(at: seq<string>, segments: seq<string>)
    requires forall i :: 0 <= i < |segments| ==> ServerSegment(segments[i])
    ensures Resolve(at, segments) == Some(at + segments)
    decreases |segments|
  {
    if segments == [] {
      assert at + segments == at;
    } else {
      SegmentRule(segments[0]);
      GoodSegmentsGoDown(at + [segments[0]], segments[1..]);
      assert at + [segments[0]] + segments[1..] == at + segments;
    }
  }

  /** From `root` the path leads to its own segments below it. */
  predicate LeadsBelow(root: seq<string>, path: string) {
    Split(path) != [] && "" !in Split(path) && Resolve(root, Split(path)) == Some(root + Split(path))
  }

  /** From any root, a path that either side takes leads to its own segments below that root. */
  lemma PathsStayBelow(root: seq<string>, path: string)
    requires DesktopPath(path) || ServerPath(path)
    ensures LeadsBelow(root, path)
  {
    if DesktopPath(path) {
      DesktopPathsAreServerPaths(path);
    }
    GoodSegmentsGoDown(root, Split(path));
    assert !ServerSegment("");
  }

  // ---- Joining and splitting --------------------------------------------------------------

  /** Can be one segment of a path at all. */
  predicate NoSeparator(segments: seq<string>) {
    forall i :: 0 <= i < |segments| ==> SEPARATOR !in segments[i]
  }

  function Join(segments: seq<string>): string {
    if segments == [] then ""
    else if |segments| == 1 then segments[0]
    else segments[0] + [SEPARATOR] + Join(segments[1..])
  }

  function Split(path: string): (r: seq<string>)
    ensures r != [] && NoSeparator(r)
    decreases |path|
  {
    var first := Before(path, SEPARATOR);
    if |first| == |path| then [first] else [first] + Split(path[|first| + 1..])
  }

  lemma JoinPrepend(first: string, rest: seq<string>)
    requires rest != []
    ensures Join([first] + rest) == first + [SEPARATOR] + Join(rest)
  {
    assert ([first] + rest)[1..] == rest;
  }

  /** Joining what a path splits into gives the path back. */
  lemma {:induction false} JoinSplit(path: string)
    ensures Join(Split(path)) == path
    decreases |path|
  {
    var first := Before(path, SEPARATOR);
    if |first| < |path| {
      var rest := path[|first| + 1..];
      JoinSplit(rest);
      JoinPrepend(first, Split(rest));
      assert path == first + [SEPARATOR] + rest;
    }
  }

  lemma SplitFirst(first: string, rest: string)
    requires SEPARATOR !in first
    ensures Split(first + [SEPARATOR] + rest) == [first] + Split(rest)
  {
    BeforeAppend(first, rest, SEPARATOR);
    assert (first + [SEPARATOR] + rest)[|first| + 1..] == rest;
  }

  /** Splitting a joined path gives the segments back. */
  lemma {:induction false} SplitJoin(segments: seq<string>)
    requires segments != [] && NoSeparator(segments)
    ensures Split(Join(segments)) == segments
  {
    if |segments| == 1 {
      BeforeAll(segments[0], SEPARATOR);
      assert segments == [segments[0]];
    } else {
      hide Split;
      SplitJoin(segments[1..]);
      SplitFirst(segments[0], Join(segments[1..]));
      assert segments == [segments[0]] + segments[1..];
    }
  }

  /** `directory` names a directory above `path`. */
  predicate Above(directory: string, path: string) {
    directory + [SEPARATOR] <= path
  }

  /** A path's first segment and the rest after the separator are determined by the path. */
  lemma FirstSegment(a: string, ta: string, b: string, tb: string)
    requires SEPARATOR !in a && SEPARATOR !in b
    requires a + [SEPARATOR] + ta == b + [SEPARATOR] + tb
    ensures a == b && ta == tb
  {
    BeforeAppend(a, ta, SEPARATOR);
    BeforeAppend(b, tb, SEPARATOR);
    assert (a + [SEPARATOR] + ta)[|a| + 1..] == ta;
    assert (b + [SEPARATOR] + tb)[|b| + 1..] == tb;
  }

  /** One joined path lies above another exactly when its segments are a proper prefix. */
  lemma {:induction false} AboveIsPrefix(a: seq<string>, b: seq<string>)
    requires a != [] && b != [] && NoSeparator(a) && NoSeparator(b)
    ensures Above(Join(a), Join(b)) <==> a < b
  {
    if a < b {
      PrefixIsAbove(a, b);
    }
    if Above(Join(a), Join(b)) {
      AboveIsPrefixOnly(a, b);
    }
  }

  lemma {:induction false} PrefixIsAbove(a: seq<string>, b: seq<string>)
    requires a != [] && a < b
    ensures Above(Join(a), Join(b))
  {
    assert a[0] == b[0];
    assert Join(b) == a[0] + [SEPARATOR] + Join(b[1..]);
    if |a| > 1 {
      PrefixIsAbove(a[1..], b[1..]);
      assert Join(a) + [SEPARATOR] == a[0] + [SEPARATOR] + (Join(a[1..]) + [SEPARATOR]);
    }
  }

  lemma {:induction false} AboveIsPrefixOnly(a: seq<string>, b: seq<string>)
    requires a != [] && b != [] && NoSeparator(a) && NoSeparator(b)
    requires Above(Join(a), Join(b))
    ensures a < b
  {
    var pa, pb := Join(a), Join(b);
    var rest := pb[|pa| + 1..];
    assert pb == pa + [SEPARATOR] + rest;
    assert SEPARATOR in pb by { assert pb[|pa|] == SEPARATOR; }
    assert |b| > 1;
    var tb := Join(b[1..]);
    if |a| == 1 {
      FirstSegment(a[0], rest, b[0], tb);
      assert a == [b[0]] == b[..1];
    } else {
      var ta := Join(a[1..]);
      assert pb == a[0] + [SEPARATOR] + (ta + [SEPARATOR] + rest);
      FirstSegment(a[0], ta + [SEPARATOR] + rest, b[0], tb);
      AboveIsPrefixOnly(a[1..], b[1..]);
      assert a == [a[0]] + a[1..] && b == [b[0]] + b[1..];
    }
  }

  // ---- The two rule sets ------------------------------------------------------------------

  predicate DesktopPath(path: string) {
    && path != "" && path[0] != SEPARATOR && '\\' !in path
    && forall i :: 0 <= i < |Split(path)| ==> DesktopSegment(Split(path)[i])
  }

  predicate ServerPath(path: string) {
    && path != "" && path[0] != SEPARATOR && '\\' !in path
    && forall i :: 0 <= i < |Split(path)| ==> ServerSegment(Split(path)[i])
  }

  /** DEL and the C1 controls: characters only the desktop takes for control characters. */
  predicate LateControl(c: char) {
    '\U{7F}' <= c <= '\U{9F}'
  }

  /** The characters of a joined path are those of its segments and the separator. */
  lemma {:induction false} JoinedCharacters(segments: seq<string>, c: char)
    requires c != SEPARATOR
    ensures c in Join(segments) <==> exists i :: 0 <= i < |segments| && c in segments[i]
  {
    if |segments| > 1 {
      JoinedCharacters(segments[1..], c);
      if c in Join(segments[1..]) {
        var i :| 0 <= i < |segments[1..]| && c in segments[1..][i];
        assert c in segments[i + 1];
      }
      if i :| 0 <= i < |segments| && c in segments[i] {
        if i > 0 { assert c in segments[1..][i - 1]; }
      }
    }
  }

  lemma NoControlInside(segment: string, c: char)
    requires DesktopSegment(segment) && c in segment
    ensures !DesktopControl(c)
  {
  }

  /**
    Every path the desktop captures the server takes, and the server takes exactly those paths
    more that hold DEL or a C1 control character.
  */
  lemma DesktopPathsAreServerPaths(path: string)
    ensures DesktopPath(path) <==> ServerPath(path) && forall i :: 0 <= i < |path| ==> !LateControl(path[i])
  {
    var segments := Split(path);
    JoinSplit(path);
    forall c | LateControl(c)
      ensures c in path <==> exists i :: 0 <= i < |segments| && c in segments[i]
    {
      JoinedCharacters(segments, c);
    }
    if DesktopPath(path) {
      forall i | 0 <= i < |segments| ensures ServerSegment(segments[i]) {
        assert DesktopSegment(segments[i]);
      }
      forall k | 0 <= k < |path| ensures !LateControl(path[k]) {
        var c := path[k];
        assert c in path;
        if LateControl(c) {
          var i :| 0 <= i < |segments| && c in segments[i];
          NoControlInside(segments[i], c);
        }
      }
    }
    if ServerPath(path) && forall i :: 0 <= i < |path| ==> !LateControl(path[i]) {
      forall i | 0 <= i < |segments| ensures DesktopSegment(segments[i]) {
        assert ServerSegment(segments[i]);
        forall j | 0 <= j < |segments[i]| ensures !DesktopControl(segments[i][j]) {
          var c := segments[i][j];
          assert c in segments[i];
          assert LateControl(c) ==> c in path;
          assert c in path ==> exists k :: 0 <= k < |path| && path[k] == c;
        }
      }
    }
  }
}
