/**
  Snapshots of a workspace: capturing a directory as a sorted manifest plus content-addressed
  blobs, writing it back out, and checking a directory against it with an independent walker.

  A digest is identified with what it digests, which is what a collision-free hash amounts to;
  the blob store is the set of digests whose bytes it holds.
*/
module Snapshots {
  import opened Prelude
  import opened Trees
  import opened Ordering
  import opened PortablePaths

  const SNAPSHOT_FORMAT_VERSION := 1
  const SKILL_ENTRYPOINT := "SKILL.md"

  datatype Digest = OfBytes(content: Bytes) | OfManifest(manifest: Manifest)

  datatype Entry = Entry(path: string, blobHash: Digest, sizeBytes: nat)

  datatype Manifest = Manifest(formatVersion: nat, files: seq<Entry>)

  datatype Policy = Policy(maxFiles: nat, maxFileBytes: nat, maxTotalBytes: nat)

  const DEFAULT_POLICY := Policy(10_000, 64 * 1024 * 1024, 512 * 1024 * 1024)

  datatype SnapshotRef = SnapshotRef(manifestHash: Digest, fileCount: nat, totalBytes: nat)

  datatype Error =
    | MissingEntrypoint | SymlinkNotAllowed | UnsupportedFileType | TooManyFiles | FileTooLarge
    | SnapshotTooLarge | SizeOverflow | UnsupportedFormat | InvalidManifestPath
    | ManifestNotStrictlySorted | BlobNotFound | Serialization | DestinationExists
    | UnsafeMaterializationPath | BlobSizeMismatch
    | FileSetMismatch | PathMismatch | SizeMismatch | HashMismatch

  // ---- Directories ------------------------------------------------------------------------

  /** A directory entry; children are listed in the order of their names, as both walkers do. */
  datatype Node = FileNode(content: Bytes) | DirNode(children: seq<Child>) | LinkNode | SpecialNode

  datatype Child = Child(name: string, node: Node)

  /** What a file system guarantees of a listing: different, non-empty names without separators. */
  predicate WellFormed(children: seq<Child>) {
    children == [] ||
      var front, last := children[..|children| - 1], children[|children| - 1];
      && WellFormed(front)
      && last.name != "" && SEPARATOR !in last.name
      && (forall i :: 0 <= i < |front| ==> front[i].name != last.name)
      && (last.node.DirNode? ==> WellFormed(last.node.children))
  }

  /** Nothing but regular files and directories. */
  predicate Plain(children: seq<Child>) {
    children == [] ||
      var front, last := children[..|children| - 1], children[|children| - 1];
      && Plain(front)
      && !last.node.LinkNode? && !last.node.SpecialNode?
      && (last.node.DirNode? ==> Plain(last.node.children))
  }

  datatype Item = Item(segments: seq<string>, content: Bytes)

  /** The regular files below a directory. */
  function Items(children: seq<Child>, prefix: seq<string>): seq<Item> {
    if children == [] then []
    else
      Items(children[..|children| - 1], prefix) + ChildItems(children[|children| - 1], prefix)
  }

  function ChildItems(child: Child, prefix: seq<string>): seq<Item> {
    match child.node
    case FileNode(content) => [Item(prefix + [child.name], content)]
    case DirNode(children) => Items(children, prefix + [child.name])
    case _ => []
  }

  datatype Source = Source(path: string, content: Bytes)

  function SourceOf(item: Item): Source {
    Source(Join(item.segments), item.content)
  }

  function Sources(items: seq<Item>): seq<Source> {
    seq(|items|, i requires 0 <= i < |items| => SourceOf(items[i]))
  }

  function PathOf(source: Source): string { source.path }

  function MapOf(sources: seq<Source>): map<string, Bytes> {
    if sources == [] then map[]
    else MapOf(sources[..|sources| - 1])[sources[|sources| - 1].path := sources[|sources| - 1].content]
  }

  /** What a directory amounts to: its files, by path. */
  function FileMap(children: seq<Child>): Tree {
    Tree(MapOf(Sources(Items(children, []))))
  }

  predicate Incomparable(a: seq<string>, b: seq<string>) {
    !(a <= b) && !(b <= a)
  }

  /** No two of the files have comparable paths. */
  predicate AllApart(items: seq<Item>) {
    forall i, j :: 0 <= i < j < |items| ==> Incomparable(items[i].segments, items[j].segments)
  }

  /** Files lie strictly below their prefix, along segments a path can be joined from. */
  lemma {:induction false} ItemsBelow(children: seq<Child>, prefix: seq<string>)
    requires WellFormed(children) && NoSeparator(prefix)
    ensures forall item :: item in Items(children, prefix) ==> prefix < item.segments && NoSeparator(item.segments)
    ensures forall item :: item in Items(children, prefix) ==>
              exists i :: 0 <= i < |children| && prefix + [children[i].name] <= item.segments
  {
    if children != [] {
      var n := |children| - 1;
      ItemsBelow(children[..n], prefix);
      ChildItemsBelow(children[n], prefix);
      forall item | item in Items(children, prefix)
        ensures exists i :: 0 <= i < |children| && prefix + [children[i].name] <= item.segments
      {
        if item in Items(children[..n], prefix) {
          var i :| 0 <= i < n && prefix + [children[..n][i].name] <= item.segments;
          assert prefix + [children[i].name] <= item.segments;
        } else {
          assert prefix + [children[n].name] <= item.segments;
        }
      }
    }
  }

  lemma {:induction false} ChildItemsBelow(child: Child, prefix: seq<string>)
    requires SEPARATOR !in child.name && NoSeparator(prefix)
    requires child.node.DirNode? ==> WellFormed(child.node.children)
    ensures forall item :: item in ChildItems(child, prefix) ==>
              prefix + [child.name] <= item.segments && prefix < item.segments && NoSeparator(item.segments)
  {
    if child.node.DirNode? {
      ItemsBelow(child.node.children, prefix + [child.name]);
    }
  }

  /** No file's segments are a prefix of another's. */
  lemma {:induction false} ItemsIncomparable(children: seq<Child>, prefix: seq<string>)
    requires WellFormed(children) && NoSeparator(prefix)
    ensures AllApart(Items(children, prefix))
  {
    if children != [] {
      var n := |children| - 1;
      var front, last := children[..n], children[n];
      var a, b := Items(front, prefix), ChildItems(last, prefix);
      ItemsIncomparable(front, prefix);
      ItemsBelow(front, prefix);
      ChildItemsBelow(last, prefix);
      forall x, y | x in a && y in b ensures Incomparable(x.segments, y.segments) {
        var i :| 0 <= i < |front| && prefix + [front[i].name] <= x.segments;
        assert x.segments[|prefix|] == front[i].name != last.name == y.segments[|prefix|];
      }
      ChildItemsIncomparable(last, prefix);
      ApartAppend(a, b);
    }
  }

  lemma ApartAppend(a: seq<Item>, b: seq<Item>)
    requires AllApart(a) && AllApart(b)
    requires forall x, y :: x in a && y in b ==> Incomparable(x.segments, y.segments)
    ensures AllApart(a + b)
  {
  }

  lemma {:induction false} ChildItemsIncomparable(child: Child, prefix: seq<string>)
    requires SEPARATOR !in child.name && NoSeparator(prefix)
    requires child.node.DirNode? ==> WellFormed(child.node.children)
    ensures AllApart(ChildItems(child, prefix))
  {
    if child.node.DirNode? {
      ItemsIncomparable(child.node.children, prefix + [child.name]);
    }
  }

  predicate PathsApart(sources: seq<Source>) {
    forall i, j :: 0 <= i < |sources| && 0 <= j < |sources| && i != j ==>
      sources[i].path != sources[j].path && !Above(sources[i].path, sources[j].path)
  }

  /** No two sources of a directory share a path, and none lies above another. */
  lemma SourcesApart(children: seq<Child>)
    requires WellFormed(children)
    ensures PathsApart(Sources(Items(children, [])))
  {
    var items := Items(children, []);
    var sources := Sources(items);
    ItemsIncomparable(children, []);
    ItemsBelow(children, []);
    forall i, j | 0 <= i < |sources| && 0 <= j < |sources| && i != j
      ensures sources[i].path != sources[j].path && !Above(sources[i].path, sources[j].path)
    {
      assert Incomparable(items[i].segments, items[j].segments);
      assert items[i] in items && items[j] in items;
      AboveIsPrefix(items[i].segments, items[j].segments);
      SplitJoin(items[i].segments);
      SplitJoin(items[j].segments);
    }
  }

  predicate DistinctPaths(sources: seq<Source>) {
    forall i, j :: 0 <= i < j < |sources| ==> sources[i].path != sources[j].path
  }

  lemma {:induction false} MapOfMeaning(sources: seq<Source>)
    requires DistinctPaths(sources)
    ensures forall p, c :: Source(p, c) in sources <==> p in MapOf(sources) && MapOf(sources)[p] == c
  {
    if sources != [] {
      var n := |sources| - 1;
      MapOfMeaning(sources[..n]);
      assert sources == sources[..n] + [sources[n]];
      forall p, c
        ensures Source(p, c) in sources <==> p in MapOf(sources) && MapOf(sources)[p] == c
      {
        if Source(p, c) in sources[..n] {
          var i :| 0 <= i < n && sources[i] == Source(p, c);
          assert sources[i].path != sources[n].path;
        }
      }
    }
  }

  // ---- Manifests --------------------------------------------------------------------------

  function EntryOf(source: Source): Entry {
    Entry(source.path, OfBytes(source.content), |source.content|)
  }

  function EntryPath(entry: Entry): string { entry.path }

  /** The manifest lists exactly the tree's files, strictly sorted, with their digests and sizes. */
  ghost predicate Represents(m: Manifest, tree: Tree) {
    && m.formatVersion == SNAPSHOT_FORMAT_VERSION
    && StrictlySortedBy(EntryPath, m.files)
    && forall e :: e in m.files <==> e.path in tree.files && e == EntryOf(Source(e.path, tree.files[e.path]))
  }

  /** Equal trees have the same manifest, hence the same manifest hash. */
  lemma ManifestIsDetermined(m1: Manifest, m2: Manifest, tree: Tree)
    requires Represents(m1, tree) && Represents(m2, tree)
    ensures m1 == m2 && OfManifest(m1) == OfManifest(m2)
  {
    StrictlySortedIsUnique(EntryPath, m1.files, m2.files);
  }

  /** And only equal trees share a manifest. */
  lemma ManifestDetermines(m: Manifest, t1: Tree, t2: Tree)
    requires Represents(m, t1) && Represents(m, t2)
    ensures t1 == t2
  {
    forall p ensures p in t1.files <==> p in t2.files
             ensures p in t1.files ==> t1.files[p] == t2.files[p]
    {
      if p in t1.files { assert EntryOf(Source(p, t1.files[p])) in m.files; }
      if p in t2.files { assert EntryOf(Source(p, t2.files[p])) in m.files; }
    }
    assert t1.files == t2.files;
  }

  function TotalSize(files: seq<Entry>): nat {
    if files == [] then 0 else TotalSize(files[..|files| - 1]) + files[|files| - 1].sizeBytes
  }

  predicate GoodEntry(e: Entry, policy: Policy) {
    DesktopPath(e.path) && e.sizeBytes <= policy.maxFileBytes
  }

  predicate WithinTotal(total: nat, policy: Policy) {
    total <= policy.maxTotalBytes && total <= U64_MAX
  }

  predicate AllGood(files: seq<Entry>, policy: Policy) {
    forall i :: 0 <= i < |files| ==> GoodEntry(files[i], policy)
  }

  lemma AllGoodAppend(files: seq<Entry>, e: Entry, policy: Policy)
    ensures AllGood(files + [e], policy) <==> AllGood(files, policy) && GoodEntry(e, policy)
  {
    var longer := files + [e];
    assert longer[|files|] == e && forall k :: 0 <= k < |files| ==> longer[k] == files[k];
  }

  lemma AllGoodPart(files: seq<Entry>, i: nat, policy: Policy)
    requires i <= |files| && AllGood(files, policy)
    ensures AllGood(files[..i], policy)
  {
  }

  /** The part of validity that is checked entry by entry. */
  predicate GoodEntries(files: seq<Entry>, policy: Policy) {
    AllGood(files, policy) && StrictlySortedBy(EntryPath, files) && WithinTotal(TotalSize(files), policy)
  }

  predicate HasEntrypoint(files: seq<Entry>) {
    exists e :: e in files && e.path == SKILL_ENTRYPOINT
  }

  predicate ValidManifest(m: Manifest, policy: Policy) {
    |m.files| <= policy.maxFiles && GoodEntries(m.files, policy) && HasEntrypoint(m.files)
  }

  function AddAndEnforceTotal(current: nat, additional: nat, policy: Policy): Result<nat, Error> {
    if current + additional > U64_MAX then Err(SizeOverflow)
    else if current + additional > policy.maxTotalBytes then Err(SnapshotTooLarge)
    else Ok(current + additional)
  }

  lemma {:induction false} TotalSizeGrows(files: seq<Entry>, i: nat)
    requires i <= |files|
    ensures TotalSize(files[..i]) <= TotalSize(files)
    decreases |files| - i
  {
    if i < |files| {
      TotalSizeGrows(files, i + 1);
      assert files[..i + 1][..i] == files[..i];
    } else {
      assert files[..i] == files;
    }
  }

  /** What the check of one more entry decides. */
  lemma GoodEntriesStep(files: seq<Entry>, i: nat, policy: Policy)
    requires i < |files| && GoodEntries(files[..i], policy)
    ensures TotalSize(files[..i + 1]) == TotalSize(files[..i]) + files[i].sizeBytes
    ensures GoodEntries(files[..i + 1], policy)
       <==> GoodEntry(files[i], policy) && (i > 0 ==> Less(files[i - 1].path, files[i].path))
            && WithinTotal(TotalSize(files[..i]) + files[i].sizeBytes, policy)
    ensures GoodEntries(files, policy) ==> GoodEntries(files[..i + 1], policy)
  {
    var front := files[..i];
    assert files[..i + 1] == front + [files[i]] && files[..i + 1][..i] == front;
    AllGoodAppend(front, files[i], policy);
    SortedStep(EntryPath, files, i);
    TotalSizeGrows(files, i + 1);
    if GoodEntries(files, policy) {
      AllGoodPart(files, i + 1, policy);
    }
  }

  lemma EntrypointStep(files: seq<Entry>, i: nat)
    requires i < |files|
    ensures HasEntrypoint(files[..i + 1]) <==> HasEntrypoint(files[..i]) || files[i].path == SKILL_ENTRYPOINT
  {
    assert files[..i + 1] == files[..i] + [files[i]];
  }

  /** The checks of entry `i`, in the source's order. */
  method CheckEntry(files: seq<Entry>, i: nat, previous: Option<string>, total: nat, policy: Policy)
    returns (r: Result<nat, Error>)
    requires i < |files| && GoodEntries(files[..i], policy)
    requires previous == if i == 0 then None else Some(files[i - 1].path)
    requires total == TotalSize(files[..i])
    ensures r.Ok? <==> GoodEntries(files[..i + 1], policy)
    ensures r.Ok? ==> r.value == TotalSize(files[..i + 1])
  {
    GoodEntriesStep(files, i, policy);
    if !DesktopPath(files[i].path) {
      return Err(InvalidManifestPath);
    }
    if previous.Some? && !Less(previous.value, files[i].path) {
      return Err(ManifestNotStrictlySorted);
    }
    if files[i].sizeBytes > policy.maxFileBytes {
      return Err(FileTooLarge);
    }
    r := AddAndEnforceTotal(total, files[i].sizeBytes, policy);
  }

  /** From any root, every entry of a valid manifest leads to its own segments below that root. */
  lemma ValidStaysBelow(m: Manifest, policy: Policy)
    requires ValidManifest(m, policy)
    ensures forall i, root :: 0 <= i < |m.files| ==> LeadsBelow(root, m.files[i].path)
  {
    hide LeadsBelow, DesktopPath;
    forall i, root | 0 <= i < |m.files|
      ensures LeadsBelow(root, m.files[i].path)
    {
      PathsStayBelow(root, m.files[i].path);
    }
  }

  /**
    One pass over the entries accepts exactly the valid manifests. No entry of one leads out of the
    directory it is materialized in, or to anything but its own segments there.
  */
  method ValidateManifest(m: Manifest, policy: Policy) returns (r: Result<(), Error>)
    ensures r.Ok? <==> ValidManifest(m, policy)
    ensures r.Ok? ==> forall i, root :: 0 <= i < |m.files| ==> LeadsBelow(root, m.files[i].path)
  {
    if |m.files| > policy.maxFiles {
      return Err(TooManyFiles);
    }
    var previous: Option<string> := None;
    var hasEntrypoint, total := false, 0;
    for i := 0 to |m.files|
      invariant previous == if i == 0 then None else Some(m.files[i - 1].path)
      invariant GoodEntries(m.files[..i], policy)
      invariant total == TotalSize(m.files[..i])
      invariant hasEntrypoint <==> HasEntrypoint(m.files[..i])
    {
      GoodEntriesStep(m.files, i, policy);
      var sum := CheckEntry(m.files, i, previous, total, policy);
      if sum.Err? {
        return Err(sum.error);
      }
      EntrypointStep(m.files, i);
      previous := Some(m.files[i].path);
      hasEntrypoint := hasEntrypoint || m.files[i].path == SKILL_ENTRYPOINT;
      total := sum.value;
    }
    assert m.files[..|m.files|] == m.files;
    if hasEntrypoint {
      ValidStaysBelow(m, policy);
    }
    r := if hasEntrypoint then Ok(()) else Err(MissingEntrypoint);
  }

  // ---- The two walkers ----------------------------------------------------------------------

  predicate PortableItem(item: Item, policy: Policy) {
    && (forall i :: 0 <= i < |item.segments| ==> DesktopSegment(item.segments[i]))
    && |item.content| <= policy.maxFileBytes
  }

  predicate AllPortable(items: seq<Item>, policy: Policy) {
    forall item :: item in items ==> PortableItem(item, policy)
  }

  lemma SourcesAppend(a: seq<Item>, b: seq<Item>)
    ensures Sources(a + b) == Sources(a) + Sources(b)
  {
  }

  /** The part of a directory already walked. */
  lemma {:induction false} WalkedPart(children: seq<Child>, i: nat, prefix: seq<string>)
    requires i <= |children|
    ensures Items(children[..i], prefix) <= Items(children, prefix)
    ensures Plain(children) ==> Plain(children[..i])
    decreases |children| - i
  {
    if i < |children| {
      WalkedPart(children, i + 1, prefix);
      assert children[..i + 1][..i] == children[..i];
    } else {
      assert children[..i] == children;
    }
  }

  lemma WalkedNext(children: seq<Child>, i: nat, prefix: seq<string>)
    requires i < |children|
    ensures Items(children[..i + 1], prefix) == Items(children[..i], prefix) + ChildItems(children[i], prefix)
    ensures Sources(Items(children[..i + 1], prefix))
         == Sources(Items(children[..i], prefix)) + Sources(ChildItems(children[i], prefix))
    ensures Plain(children[..i + 1]) <==>
              Plain(children[..i]) && PlainChild(children[i])
    ensures Items(children[..i + 1], prefix) <= Items(children, prefix)
    ensures Plain(children) ==> Plain(children[..i + 1])
  {
    assert children[..i + 1][..i] == children[..i];
    WalkedPart(children, i + 1, prefix);
    SourcesAppend(Items(children[..i], prefix), ChildItems(children[i], prefix));
  }

  predicate PlainChild(child: Child) {
    match child.node
    case FileNode(_) => true
    case DirNode(children) => Plain(children)
    case _ => false
  }

  /** May the files be added to `count` collected ones? */
  predicate Collectable(items: seq<Item>, count: nat, policy: Policy) {
    AllPortable(items, policy) && (items == [] || count + |items| <= policy.maxFiles)
  }

  lemma CollectableSplit(a: seq<Item>, b: seq<Item>, count: nat, policy: Policy)
    requires Collectable(a, count, policy)
    ensures Collectable(a + b, count, policy) <==> Collectable(b, count + |a|, policy)
  {
    assert forall x :: x in a + b <==> x in a || x in b;
    if b == [] { assert a + b == a; }
  }

  lemma CollectablePrefix(a: seq<Item>, b: seq<Item>, count: nat, policy: Policy)
    requires a <= b && Collectable(b, count, policy)
    ensures Collectable(a, count, policy)
  {
    assert b == a + b[|a|..];
  }

  lemma CollectableNext(children: seq<Child>, i: nat, prefix: seq<string>, count: nat, policy: Policy)
    requires i < |children| && Collectable(Items(children[..i], prefix), count, policy)
    ensures Collectable(Items(children[..i + 1], prefix), count, policy)
       <==> Collectable(ChildItems(children[i], prefix), count + |Items(children[..i], prefix)|, policy)
    ensures Collectable(Items(children, prefix), count, policy) ==>
              Collectable(Items(children[..i + 1], prefix), count, policy)
  {
    hide Collectable, Plain, Items, ChildItems;
    WalkedNext(children, i, prefix);
    CollectableSplit(Items(children[..i], prefix), ChildItems(children[i], prefix), count, policy);
    if Collectable(Items(children, prefix), count, policy) {
      CollectablePrefix(Items(children[..i + 1], prefix), Items(children, prefix), count, policy);
    }
  }

  /** One regular file on the capturing walk, checked in the source's order. */
  method CollectFile(segments: seq<string>, content: Bytes, count: nat, policy: Policy)
    returns (r: Result<Source, Error>)
    ensures r.Ok? <==> Collectable([Item(segments, content)], count, policy)
    ensures r.Ok? ==> [r.value] == Sources([Item(segments, content)])
  {
    ghost var item := Item(segments, content);
    assert item in [item];
    assert AllPortable([item], policy) <==> PortableItem(item, policy);
    if |content| > policy.maxFileBytes {
      return Err(FileTooLarge);
    }
    if count >= policy.maxFiles {
      return Err(TooManyFiles);
    }
    if exists k :: 0 <= k < |segments| && !DesktopSegment(segments[k]) {
      return Err(InvalidManifestPath);
    }
    r := Ok(Source(Join(segments), content));
  }

  /** The capturing walk: it stops at the first link, special file, limit or unportable name. */
  method CollectFiles(children: seq<Child>, prefix: seq<string>, output: seq<Source>, policy: Policy)
    returns (r: Result<seq<Source>, Error>)
    ensures r.Ok? <==> Plain(children) && Collectable(Items(children, prefix), |output|, policy)
    ensures r.Ok? ==> r.value == output + Sources(Items(children, prefix))
    decreases children
  {
    var collected := output;
    for i := 0 to |children|
      invariant Plain(children[..i])
      invariant Collectable(Items(children[..i], prefix), |output|, policy)
      invariant collected == output + Sources(Items(children[..i], prefix))
    {
      hide Plain, Items, Collectable, Sources;
      var child := children[i];
      WalkedNext(children, i, prefix);
      CollectableNext(children, i, prefix, |output|, policy);
      ghost var before, next := Sources(Items(children[..i], prefix)), Sources(ChildItems(child, prefix));
      assert output + before + next == output + (before + next);
      match child.node {
        case LinkNode => return Err(SymlinkNotAllowed);
        case SpecialNode => return Err(UnsupportedFileType);
        case DirNode(below) =>
          var deeper := CollectFiles(below, prefix + [child.name], collected, policy);
          if deeper.Err? {
            return deeper;
          }
          collected := deeper.value;
        case FileNode(content) =>
          var source := CollectFile(prefix + [child.name], content, |collected|, policy);
          if source.Err? {
            return Err(source.error);
          }
          collected := collected + [source.value];
      }
    }
    assert children[..|children|] == children;
    r := Ok(collected);
  }

  /** The verifying walk: it minds links and special files only. */
  method CollectDeployed(children: seq<Child>, prefix: seq<string>, output: seq<Source>)
    returns (r: Result<seq<Source>, Error>)
    ensures r.Ok? <==> Plain(children)
    ensures r.Ok? ==> r.value == output + Sources(Items(children, prefix))
    decreases children
  {
    var collected := output;
    for i := 0 to |children|
      invariant Plain(children[..i])
      invariant collected == output + Sources(Items(children[..i], prefix))
    {
      hide Plain, Items;
      var child := children[i];
      WalkedNext(children, i, prefix);
      ghost var before, next := Sources(Items(children[..i], prefix)), Sources(ChildItems(child, prefix));
      assert output + before + next == output + (before + next);
      match child.node {
        case LinkNode => return Err(SymlinkNotAllowed);
        case SpecialNode => return Err(UnsupportedFileType);
        case DirNode(below) =>
          var deeper := CollectDeployed(below, prefix + [child.name], collected);
          if deeper.Err? {
            return deeper;
          }
          collected := deeper.value;
        case FileNode(content) =>
          collected := collected + [Source(Join(prefix + [child.name]), content)];
      }
    }
    assert children[..|children|] == children;
    r := Ok(collected);
  }

  // ---- Capture ----------------------------------------------------------------------------

  function Entries(sources: seq<Source>): seq<Entry> {
    seq(|sources|, i requires 0 <= i < |sources| => EntryOf(sources[i]))
  }

  function SortedEntries(children: seq<Child>): seq<Entry> {
    Entries(SortBy(PathOf, Sources(Items(children, []))))
  }

  lemma EntriesSorted(sources: seq<Source>)
    requires StrictlySortedBy(PathOf, sources)
    ensures StrictlySortedBy(EntryPath, Entries(sources))
  {
    var files := Entries(sources);
    forall i, j | 0 <= i < j < |files| ensures Less(EntryPath(files[i]), EntryPath(files[j])) {
      assert Less(PathOf(sources[i]), PathOf(sources[j]));
    }
  }

  lemma EntriesListed(sources: seq<Source>, tree: Tree, e: Entry)
    requires forall p, c :: Source(p, c) in sources <==> p in tree.files && tree.files[p] == c
    ensures e in Entries(sources)
       <==> e.path in tree.files && e == EntryOf(Source(e.path, tree.files[e.path]))
  {
    var files := Entries(sources);
    if e in files {
      var i :| 0 <= i < |files| && files[i] == e;
      assert sources[i] == Source(e.path, sources[i].content) && sources[i] in sources;
    }
    if e.path in tree.files && e == EntryOf(Source(e.path, tree.files[e.path])) {
      var source := Source(e.path, tree.files[e.path]);
      var i :| 0 <= i < |sources| && sources[i] == source;
      assert files[i] == e;
    }
  }

  lemma SortKeepsMembers(sources: seq<Source>)
    ensures forall x :: x in SortBy(PathOf, sources) <==> x in sources
  {
    var sorted := SortBy(PathOf, sources);
    assert forall x :: x in sorted <==> x in multiset(sorted);
    assert forall x :: x in sources <==> x in multiset(sources);
  }

  /** Sources with different paths, sorted, are the manifest of the map they make up. */
  lemma SortedRepresents(sources: seq<Source>)
    requires DistinctPaths(sources)
    ensures Represents(Manifest(SNAPSHOT_FORMAT_VERSION, Entries(SortBy(PathOf, sources))), Tree(MapOf(sources)))
  {
    var sorted, tree := SortBy(PathOf, sources), Tree(MapOf(sources));
    assert forall i, j :: 0 <= i < j < |sources| ==> PathOf(sources[i]) != PathOf(sources[j]);
    SortByStrict(PathOf, sources);
    EntriesSorted(sorted);
    MapOfMeaning(sources);
    SortKeepsMembers(sources);
    forall e
      ensures e in Entries(sorted) <==> e.path in tree.files && e == EntryOf(Source(e.path, tree.files[e.path]))
    {
      EntriesListed(sorted, tree, e);
    }
  }

  /** What capture puts together is the manifest of the directory's file map. */
  lemma SortedEntriesRepresent(children: seq<Child>)
    requires WellFormed(children)
    ensures Represents(Manifest(SNAPSHOT_FORMAT_VERSION, SortedEntries(children)), FileMap(children))
  {
    SourcesApart(children);
    SortedRepresents(Sources(Items(children, [])));
  }

  /** SKILL.md is a regular file at the root of the workspace. */
  predicate HasRootEntrypoint(children: seq<Child>) {
    exists i :: 0 <= i < |children| && children[i].name == SKILL_ENTRYPOINT && children[i].node.FileNode?
  }

  /** Portable, plain and within every limit. */
  predicate Capturable(children: seq<Child>, policy: Policy) {
    && HasRootEntrypoint(children)
    && Plain(children)
    && Collectable(Items(children, []), 0, policy)
    && WithinTotal(TotalSize(SortedEntries(children)), policy)
  }

  /** A path joined from desktop segments is portable. */
  lemma PortableJoin(segments: seq<string>)
    requires segments != [] && NoSeparator(segments)
    requires forall i :: 0 <= i < |segments| ==> DesktopSegment(segments[i])
    ensures DesktopPath(Join(segments))
  {
    SplitJoin(segments);
    var path := Join(segments);
    assert path != "" && path[0] == segments[0][0];
    assert path[0] != SEPARATOR by {
      assert segments[0][0] in segments[0];
    }
    NoBackslash(segments);
  }

  lemma {:induction false} NoBackslash(segments: seq<string>)
    requires forall i :: 0 <= i < |segments| ==> DesktopSegment(segments[i])
    ensures '\\' !in Join(segments)
  {
    if segments != [] {
      assert forall i :: 0 <= i < |segments[0]| ==> !Forbidden(segments[0][i]);
      assert '\\' !in segments[0];
      if |segments| > 1 {
        NoBackslash(segments[1..]);
      }
    }
  }

  lemma {:induction false} RootEntrypointIsCollected(children: seq<Child>)
    requires HasRootEntrypoint(children)
    ensures exists item :: item in Items(children, []) && item.segments == [SKILL_ENTRYPOINT]
  {
    var i :| 0 <= i < |children| && children[i].name == SKILL_ENTRYPOINT && children[i].node.FileNode?;
    WalkedNext(children, i, []);
    var item := Item([SKILL_ENTRYPOINT], children[i].node.content);
    assert [] + [SKILL_ENTRYPOINT] == [SKILL_ENTRYPOINT];
    assert ChildItems(children[i], []) == [item];
    var part := Items(children[..i + 1], []);
    assert part[|part| - 1] == item;
    assert Items(children, [])[|part| - 1] == item;
  }

  /** Every sorted entry is the entry of a collected file. */
  lemma EntryIsCollected(items: seq<Item>, i: nat) returns (item: Item)
    requires i < |items|
    ensures var files := Entries(SortBy(PathOf, Sources(items)));
            item in items && files[i] == EntryOf(SourceOf(item))
  {
    var sources := Sources(items);
    var sorted := SortBy(PathOf, sources);
    SortKeepsMembers(sources);
    assert sorted[i] in sources;
    var k :| 0 <= k < |sources| && sources[k] == sorted[i];
    item := items[k];
  }

  lemma CollectedIsListed(items: seq<Item>, item: Item)
    requires item in items
    ensures EntryOf(SourceOf(item)) in Entries(SortBy(PathOf, Sources(items)))
  {
    var sources := Sources(items);
    var sorted := SortBy(PathOf, sources);
    SortKeepsMembers(sources);
    var k :| 0 <= k < |items| && items[k] == item;
    assert sources[k] == SourceOf(item) && sources[k] in sorted;
    var i :| 0 <= i < |sorted| && sorted[i] == sources[k];
    assert Entries(sorted)[i] == EntryOf(SourceOf(item));
  }

  /** The self-check at the end of a capture can never fail. */
  lemma CapturedIsValid(children: seq<Child>, policy: Policy)
    requires WellFormed(children) && Capturable(children, policy)
    ensures ValidManifest(Manifest(SNAPSHOT_FORMAT_VERSION, SortedEntries(children)), policy)
  {
    var items := Items(children, []);
    var files := SortedEntries(children);
    SortedEntriesRepresent(children);
    ItemsBelow(children, []);
    forall i | 0 <= i < |files| ensures GoodEntry(files[i], policy) {
      var item := EntryIsCollected(items, i);
      assert PortableItem(item, policy);
      PortableJoin(item.segments);
    }
    RootEntrypointIsCollected(children);
    var item :| item in items && item.segments == [SKILL_ENTRYPOINT];
    CollectedIsListed(items, item);
    assert EntryOf(SourceOf(item)).path == SKILL_ENTRYPOINT;
  }

  function RefOf(m: Manifest): SnapshotRef {
    SnapshotRef(OfManifest(m), |m.files|, TotalSize(m.files))
  }

  function BlobsOf(files: seq<Entry>): set<Digest> {
    set e | e in files :: e.blobHash
  }

  /** Read, count and store each file; the entries come out in the order given. */
  method StoreFiles(blobs: set<Digest>, sources: seq<Source>, policy: Policy)
    returns (r: Result<seq<Entry>, Error>, total: nat, blobs': set<Digest>)
    ensures r.Ok? <==> WithinTotal(TotalSize(Entries(sources)), policy)
    ensures r.Ok? ==> r.value == Entries(sources) && total == TotalSize(r.value)
    ensures r.Ok? ==> blobs' == blobs + BlobsOf(r.value)
    ensures blobs <= blobs'
  {
    ghost var all := Entries(sources);
    var files := [];
    total, blobs' := 0, blobs;
    for i := 0 to |sources|
      invariant files == all[..i] && total == TotalSize(files) && WithinTotal(total, policy)
      invariant blobs' == blobs + BlobsOf(files)
    {
      var size := |sources[i].content|;
      var entry := Entry(sources[i].path, OfBytes(sources[i].content), size);
      StoredStep(all, i);
      var sum := AddAndEnforceTotal(total, size, policy);
      if sum.Err? {
        return Err(sum.error), total, blobs';
      }
      total := sum.value;
      blobs' := blobs' + {entry.blobHash};
      files := files + [entry];
    }
    assert all[..|sources|] == all;
    r := Ok(files);
  }

  lemma StoredStep(files: seq<Entry>, i: nat)
    requires i < |files|
    ensures files[..i + 1] == files[..i] + [files[i]]
    ensures BlobsOf(files[..i + 1]) == BlobsOf(files[..i]) + {files[i].blobHash}
    ensures TotalSize(files[..i + 1]) == TotalSize(files[..i]) + files[i].sizeBytes <= TotalSize(files)
  {
    assert files[..i + 1][..i] == files[..i];
    TotalSizeGrows(files, i + 1);
    assert files[..i + 1] == files[..i] + [files[i]];
    BlobsAppend(files[..i], files[i]);
  }

  lemma BlobsAppend(files: seq<Entry>, e: Entry)
    ensures BlobsOf(files + [e]) == BlobsOf(files) + {e.blobHash}
  {
    var longer := files + [e];
    assert e in longer;
    forall d ensures d in BlobsOf(longer) <==> d in BlobsOf(files) || d == e.blobHash {
      if x :| x in files && x.blobHash == d { assert x in longer; }
    }
  }

  /** Every name on the way to a captured file is portable. */
  lemma CapturedNamesArePortable(children: seq<Child>, policy: Policy)
    requires Capturable(children, policy)
    ensures forall item, name :: item in Items(children, []) && name in item.segments ==> PortableName(name)
  {
    hide HasRootEntrypoint, Plain, Items, WithinTotal, DesktopSegment, PortableName;
    forall item, name | item in Items(children, []) && name in item.segments
      ensures PortableName(name)
    {
      DesktopNamesArePortable(name);
    }
  }

  /**
    `capture_workspace`: it succeeds exactly on capturable directories, and then returns the one
    manifest of the directory's file map, held in the store with every blob it names.
  */
  method CaptureWorkspace(blobs: set<Digest>, children: seq<Child>, policy: Policy)
    returns (r: Result<SnapshotRef, Error>, blobs': set<Digest>)
    requires WellFormed(children)
    ensures r.Ok? <==> Capturable(children, policy)
    ensures r.Ok? ==>
              var m := Manifest(SNAPSHOT_FORMAT_VERSION, SortedEntries(children));
              && r.value == RefOf(m)
              && Represents(m, FileMap(children)) && ValidManifest(m, policy)
              && blobs' == blobs + BlobsOf(m.files) + {OfManifest(m)}
    ensures r.Ok? ==>
              forall item, name :: item in Items(children, []) && name in item.segments ==> PortableName(name)
    ensures blobs <= blobs'
  {
    hide PortableName, DesktopSegment, Items, Plain;
    blobs' := blobs;
    if !exists i :: 0 <= i < |children| && children[i].name == SKILL_ENTRYPOINT && children[i].node.FileNode? {
      return Err(MissingEntrypoint), blobs';
    }
    var collected := CollectFiles(children, [], [], policy);
    if collected.Err? {
      return Err(collected.error), blobs';
    }
    var sources := SortBy(PathOf, collected.value);
    assert [] + Sources(Items(children, [])) == Sources(Items(children, []));
    var stored, total;
    stored, total, blobs' := StoreFiles(blobs, sources, policy);
    if stored.Err? {
      return Err(stored.error), blobs';
    }
    var files := stored.value;
    var m := Manifest(SNAPSHOT_FORMAT_VERSION, files);
    SortedEntriesRepresent(children);
    CapturedIsValid(children, policy);
    CapturedNamesArePortable(children, policy);
    var check := ValidateManifest(m, policy);
    assert check.Ok?;
    blobs' := blobs' + {OfManifest(m)};
    r := Ok(SnapshotRef(OfManifest(m), |files|, total));
  }

  // ---- Reading a manifest, materializing ---------------------------------------------------

  predicate Readable(blobs: set<Digest>, hash: Digest, policy: Policy) {
    && hash in blobs && hash.OfManifest?
    && hash.manifest.formatVersion == SNAPSHOT_FORMAT_VERSION
    && ValidManifest(hash.manifest, policy)
  }

  method ReadManifest(blobs: set<Digest>, hash: Digest, policy: Policy) returns (r: Result<Manifest, Error>)
    ensures r.Ok? <==> Readable(blobs, hash, policy)
    ensures r.Ok? ==> r.value == hash.manifest
    ensures r.Ok? <==>
              && hash in blobs && hash.OfManifest? && hash.manifest.formatVersion == 1
              && ValidManifest(hash.manifest, policy)
    ensures hash !in blobs ==> r == Err(BlobNotFound)
  {
    if hash !in blobs {
      return Err(BlobNotFound);
    }
    if !hash.OfManifest? {
      return Err(Serialization);
    }
    if hash.manifest.formatVersion != SNAPSHOT_FORMAT_VERSION {
      return Err(UnsupportedFormat);
    }
    var check := ValidateManifest(hash.manifest, policy);
    if check.Err? {
      return Err(check.error);
    }
    r := Ok(hash.manifest);
  }

  /** The entry's bytes are held, and are as long as it says. */
  predicate Held(e: Entry, blobs: set<Digest>) {
    e.blobHash in blobs && e.blobHash.OfBytes? && |e.blobHash.content| == e.sizeBytes
  }

  /** No file of the manifest would have to be a directory for another. */
  predicate NoneAbove(files: seq<Entry>) {
    forall i, j :: 0 <= i < |files| && 0 <= j < |files| ==> !Above(files[i].path, files[j].path)
  }

  predicate Materializable(files: seq<Entry>, blobs: set<Digest>) {
    (forall i :: 0 <= i < |files| ==> Held(files[i], blobs)) && NoneAbove(files)
  }

  /** The files the entries describe. */
  ghost predicate Written(files: seq<Entry>, tree: map<string, Bytes>) {
    && (forall p :: p in tree <==> exists i :: 0 <= i < |files| && files[i].path == p)
    && (forall i :: 0 <= i < |files| && files[i].path in tree ==> files[i].blobHash == OfBytes(tree[files[i].path]))
  }

  lemma WrittenRepresents(files: seq<Entry>, tree: map<string, Bytes>, blobs: set<Digest>)
    requires StrictlySortedBy(EntryPath, files) && Written(files, tree)
    requires forall i :: 0 <= i < |files| ==> Held(files[i], blobs)
    ensures Represents(Manifest(SNAPSHOT_FORMAT_VERSION, files), Tree(tree))
  {
    forall e ensures e in files <==> e.path in tree && e == EntryOf(Source(e.path, tree[e.path])) {
      if e in files {
        var i :| 0 <= i < |files| && files[i] == e;
        assert files[i].path in tree;
      }
      if e.path in tree && e == EntryOf(Source(e.path, tree[e.path])) {
        var i :| 0 <= i < |files| && files[i].path == e.path;
        assert files[i] == e;
      }
    }
  }

  lemma MaterializableStep(files: seq<Entry>, i: nat, blobs: set<Digest>)
    requires i < |files| && Materializable(files[..i], blobs) && StrictlySortedBy(EntryPath, files)
    ensures Materializable(files[..i + 1], blobs) <==>
              Held(files[i], blobs)
              && forall k :: 0 <= k < i ==> !Above(files[k].path, files[i].path) && !Above(files[i].path, files[k].path)
    ensures Materializable(files, blobs) ==> Materializable(files[..i + 1], blobs)
  {
    var front, longer := files[..i], files[..i + 1];
    assert forall k :: 0 <= k < |longer| ==> longer[k] == files[k];
    assert forall k :: 0 <= k < i ==> front[k] == longer[k];
    if Materializable(longer, blobs) {
      assert Held(longer[i], blobs);
      forall k | 0 <= k < i ensures !Above(files[k].path, files[i].path) && !Above(files[i].path, files[k].path) {
        assert !Above(longer[k].path, longer[i].path) && !Above(longer[i].path, longer[k].path);
      }
    }
  }

  /** A path cannot lie above itself. */
  lemma NotAboveItself(path: string)
    ensures !Above(path, path)
  {
  }

  /** A written path that is the entry's own, or lies above or below it, stops the entry for good. */
  lemma InTheWay(files: seq<Entry>, blobs: set<Digest>, i: nat, tree: map<string, Bytes>, p: string)
    requires StrictlySortedBy(EntryPath, files) && i < |files| && Written(files[..i], tree)
    requires p in tree && (p == files[i].path || Above(p, files[i].path) || Above(files[i].path, p))
    ensures p != files[i].path && !Materializable(files, blobs)
  {
    var k :| 0 <= k < i && files[..i][k].path == p;
    assert Less(EntryPath(files[k]), EntryPath(files[i]));
    LessIsStrict(p);
    assert Above(files[k].path, files[i].path) || Above(files[i].path, files[k].path);
  }

  /** With nothing in the way the entry goes with those before it. */
  lemma OutOfTheWay(files: seq<Entry>, i: nat, tree: map<string, Bytes>)
    requires i < |files| && Written(files[..i], tree)
    requires forall p :: p in tree ==> !Above(p, files[i].path) && !Above(files[i].path, p)
    ensures forall k :: 0 <= k < i ==> !Above(files[k].path, files[i].path) && !Above(files[i].path, files[k].path)
  {
    forall k | 0 <= k < i ensures !Above(files[k].path, files[i].path) && !Above(files[i].path, files[k].path) {
      assert files[..i][k].path in tree;
    }
  }

  /**
    The loop of `materialize_snapshot`: write each file below directories made on the way. It
    fails when a blob is missing or of another length, or when a file is where a directory must
    be.
  */
  method WriteFiles(blobs: set<Digest>, files: seq<Entry>) returns (r: Result<map<string, Bytes>, Error>)
    requires StrictlySortedBy(EntryPath, files)
    ensures r.Ok? <==> Materializable(files, blobs)
    ensures r.Ok? ==> Written(files, r.value)
  {
    var tree: map<string, Bytes> := map[];
    for i := 0 to |files|
      invariant Materializable(files[..i], blobs)
      invariant Written(files[..i], tree)
    {
      hide Materializable, Written, Less, Above;
      var file := files[i];
      MaterializableStep(files, i, blobs);
      // A directory on the way may exist already, but not as a file.
      if exists p :: p in tree && Above(p, file.path) {
        ghost var p :| p in tree && Above(p, file.path);
        InTheWay(files, blobs, i, tree, p);
        return Err(UnsafeMaterializationPath);
      }
      if !Held(file, blobs) {
        return Err(if file.blobHash in blobs then BlobSizeMismatch else BlobNotFound);
      }
      // The file itself must be new, and not a directory made on the way to another.
      if exists p :: p in tree && (p == file.path || Above(file.path, p)) {
        ghost var p :| p in tree && (p == file.path || Above(file.path, p));
        InTheWay(files, blobs, i, tree, p);
        return Err(DestinationExists);
      }
      OutOfTheWay(files, i, tree);
      WrittenStep(files, i, tree);
      tree := tree[file.path := file.blobHash.content];
    }
    assert files[..|files|] == files;
    r := Ok(tree);
  }

  lemma WrittenStep(files: seq<Entry>, i: nat, tree: map<string, Bytes>)
    requires i < |files| && Written(files[..i], tree)
    requires files[i].path !in tree && files[i].blobHash.OfBytes?
    ensures Written(files[..i + 1], tree[files[i].path := files[i].blobHash.content])
  {
    var front, longer := files[..i], files[..i + 1];
    var tree' := tree[files[i].path := files[i].blobHash.content];
    assert forall k :: 0 <= k < i ==> front[k] == longer[k];
    assert longer[i] == files[i];
    forall p ensures p in tree' <==> exists k :: 0 <= k < |longer| && longer[k].path == p {
      if p in tree {
        var k :| 0 <= k < i && front[k].path == p;
        assert longer[k].path == p;
      }
      if k :| 0 <= k < |longer| && longer[k].path == p {
        if k < i { assert front[k].path == p; }
      }
    }
    forall k | 0 <= k < |longer| && longer[k].path in tree'
      ensures longer[k].blobHash == OfBytes(tree'[longer[k].path])
    {
      if k < i {
        assert front[k].path in tree;
      }
    }
  }

  method SumSizes(files: seq<Entry>) returns (total: nat)
    ensures total == TotalSize(files)
  {
    total := 0;
    for i := 0 to |files|
      invariant total == TotalSize(files[..i])
    {
      assert files[..i + 1][..i] == files[..i];
      total := total + files[i].sizeBytes;
    }
    assert files[..|files|] == files;
  }

  /**
    `materialize_snapshot_with_policy`: into a new directory, everything or nothing. It succeeds
    exactly when the manifest reads and its entries can be written, and then the directory holds
    exactly the tree the manifest represents.
  */
  method MaterializeSnapshot(blobs: set<Digest>, hash: Digest, destinationExists: bool, policy: Policy)
    returns (r: Result<SnapshotRef, Error>, tree: Option<Tree>)
    ensures r.Ok? <==> !destinationExists && Readable(blobs, hash, policy) && Materializable(hash.manifest.files, blobs)
    ensures r.Ok? ==> r.value == RefOf(hash.manifest)
    ensures if r.Ok? then tree.Some? && Represents(hash.manifest, tree.value) else tree.None?
    ensures r.Ok? ==> forall e :: e in hash.manifest.files ==>
              && e.blobHash in blobs && e.path in tree.value.files
              && e.blobHash == OfBytes(tree.value.files[e.path]) && |tree.value.files[e.path]| == e.sizeBytes
  {
    tree := None;
    if destinationExists {
      return Err(DestinationExists), None;
    }
    var manifest := ReadManifest(blobs, hash, policy);
    if manifest.Err? {
      return Err(manifest.error), None;
    }
    var files := manifest.value.files;
    var written := WriteFiles(blobs, files);
    if written.Err? {
      return Err(written.error), None;
    }
    WrittenRepresents(files, written.value, blobs);
    var total := SumSizes(files);
    r, tree := Ok(SnapshotRef(hash, |files|, total)), Some(Tree(written.value));
  }

  // ---- Verification -----------------------------------------------------------------------

  /** The entry-by-entry comparison of a sorted listing with a manifest. */
  method CompareFiles(expected: seq<Entry>, actual: seq<Source>) returns (r: Result<nat, Error>)
    ensures r.Ok? <==> Entries(actual) == expected
    ensures r.Ok? ==> r.value == TotalSize(expected)
  {
    if |actual| != |expected| {
      return Err(FileSetMismatch);
    }
    var total := 0;
    for i := 0 to |expected|
      invariant Entries(actual)[..i] == expected[..i]
      invariant total == TotalSize(expected[..i])
    {
      assert expected[..i + 1][..i] == expected[..i];
      if expected[i].path != actual[i].path {
        assert Entries(actual)[i] != expected[i];
        return Err(PathMismatch);
      }
      if |actual[i].content| != expected[i].sizeBytes {
        assert Entries(actual)[i] != expected[i];
        return Err(SizeMismatch);
      }
      if OfBytes(actual[i].content) != expected[i].blobHash {
        assert Entries(actual)[i] != expected[i];
        return Err(HashMismatch);
      }
      assert Entries(actual)[i] == expected[i];
      assert Entries(actual)[..i + 1] == Entries(actual)[..i] + [expected[i]];
      assert expected[..i + 1] == expected[..i] + [expected[i]];
      total := total + expected[i].sizeBytes;
    }
    assert Entries(actual)[..|expected|] == Entries(actual) && expected[..|expected|] == expected;
    r := Ok(total);
  }

  /** What verification comes down to. */
  ghost predicate Verified(blobs: set<Digest>, hash: Digest, root: Node) {
    && Readable(blobs, hash, DEFAULT_POLICY)
    && root.DirNode? && Plain(root.children)
    && Represents(hash.manifest, FileMap(root.children))
  }

  /**
    `verify_materialized_snapshot` is exact: it accepts a directory precisely when the manifest
    reads, the directory is plain, and its file map is the one the manifest represents.
  */
  method VerifyMaterializedSnapshot(blobs: set<Digest>, hash: Digest, root: Node)
    returns (r: Result<SnapshotRef, Error>)
    requires root.DirNode? ==> WellFormed(root.children)
    ensures r.Ok? <==> Verified(blobs, hash, root)
    ensures r.Ok? ==> r.value == RefOf(hash.manifest)
  {
    if !root.DirNode? {
      return Err(UnsupportedFileType);
    }
    var manifest := ReadManifest(blobs, hash, DEFAULT_POLICY);
    if manifest.Err? {
      return Err(manifest.error);
    }
    var collected := CollectDeployed(root.children, [], []);
    if collected.Err? {
      return Err(collected.error);
    }
    assert [] + Sources(Items(root.children, [])) == Sources(Items(root.children, []));
    var actual := SortBy(PathOf, collected.value);
    var compared := CompareFiles(manifest.value.files, actual);
    SortedEntriesRepresent(root.children);
    if Represents(hash.manifest, FileMap(root.children)) {
      ManifestIsDetermined(hash.manifest, Manifest(SNAPSHOT_FORMAT_VERSION, SortedEntries(root.children)),
                           FileMap(root.children));
    }
    assert Entries(actual) == SortedEntries(root.children);
    if compared.Err? {
      return Err(compared.error);
    }
    r := Ok(SnapshotRef(hash, |manifest.value.files|, compared.value));
  }

  // ---- Round trip -------------------------------------------------------------------------

  lemma ItemsNotAbove(items: seq<Item>, a: Item, b: Item)
    requires PathsApart(Sources(items)) && a in items && b in items
    ensures !Above(SourceOf(a).path, SourceOf(b).path)
  {
    var k :| 0 <= k < |items| && items[k] == a;
    var l :| 0 <= l < |items| && items[l] == b;
    assert Sources(items)[k] == SourceOf(a) && Sources(items)[l] == SourceOf(b);
    NotAboveItself(SourceOf(a).path);
  }

  /** A captured manifest can always be written out again: its entries never get in each other's way. */
  lemma CapturedIsMaterializable(children: seq<Child>, blobs: set<Digest>)
    requires WellFormed(children) && BlobsOf(SortedEntries(children)) <= blobs
    ensures Materializable(SortedEntries(children), blobs)
  {
    var files := SortedEntries(children);
    var items := Items(children, []);
    SourcesApart(children);
    forall i | 0 <= i < |files| ensures Held(files[i], blobs) {
      var item := EntryIsCollected(items, i);
      assert files[i] in files && files[i].blobHash in BlobsOf(files);
    }
    forall i, j | 0 <= i < |files| && 0 <= j < |files| ensures !Above(files[i].path, files[j].path) {
      var a := EntryIsCollected(items, i);
      var b := EntryIsCollected(items, j);
      ItemsNotAbove(items, a, b);
    }
  }

  /**
    Verification by a manifest of `tree` is equality with `tree`: the fact the deployment
    protocol rests on.
  */
  lemma VerificationIsEquality(m: Manifest, tree: Tree, children: seq<Child>)
    requires Represents(m, tree) && WellFormed(children)
    ensures Represents(m, FileMap(children)) <==> FileMap(children) == tree
  {
    if Represents(m, FileMap(children)) {
      ManifestDetermines(m, tree, FileMap(children));
    }
  }

  /**
    Round trip: what is captured from a workspace materializes to exactly the workspace's file
    map, with the same reference, and verification by that reference accepts a directory exactly
    when it is plain and has that file map.
  */
  method RoundTrip(blobs: set<Digest>, workspace: seq<Child>)
    returns (captured: Result<SnapshotRef, Error>, tree: Option<Tree>, blobs': set<Digest>)
    requires WellFormed(workspace)
    ensures captured.Ok? <==> Capturable(workspace, DEFAULT_POLICY)
    ensures captured.Ok? <==> tree.Some?
    ensures tree.Some? ==> tree.value == FileMap(workspace)
    ensures tree.Some? ==>
              forall directory :: WellFormed(directory) ==>
                (Verified(blobs', captured.value.manifestHash, DirNode(directory))
                 <==> Plain(directory) && FileMap(directory) == tree.value)
  {
    captured, blobs' := CaptureWorkspace(blobs, workspace, DEFAULT_POLICY);
    tree := None;
    if captured.Ok? {
      var hash := captured.value.manifestHash;
      CapturedIsMaterializable(workspace, blobs');
      var materialized;
      materialized, tree := MaterializeSnapshot(blobs', hash, false, DEFAULT_POLICY);
      assert materialized == captured;
      ManifestDetermines(hash.manifest, tree.value, FileMap(workspace));
      forall directory | WellFormed(directory)
        ensures Verified(blobs', hash, DirNode(directory)) <==> Plain(directory) && FileMap(directory) == tree.value
      {
        VerificationIsEquality(hash.manifest, tree.value, directory);
      }
    }
  }
}
