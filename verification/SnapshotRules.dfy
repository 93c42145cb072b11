/**
  What the rules of snapshots come to: which manifests are valid, which files the walk finds, and
  which directories can be captured.
*/
module SnapshotRules {
  import opened Prelude
  import opened Ordering
  import opened PortablePaths
  import opened Snapshots

  lemma TotalSizeIs(files: seq<Entry>, e: Entry)
    ensures TotalSize([]) == 0 && TotalSize(files + [e]) == TotalSize(files) + e.sizeBytes
  {
    assert (files + [e])[..|files|] == files;
  }

  /** What makes a manifest valid: how many files, their paths, sizes and order, their total, the entry point. */
  lemma ManifestRule(m: Manifest, policy: Policy)
    ensures ValidManifest(m, policy) <==>
              && |m.files| <= policy.maxFiles
              && (forall e :: e in m.files ==> DesktopPath(e.path) && e.sizeBytes <= policy.maxFileBytes)
              && (forall i, j :: 0 <= i < j < |m.files| ==> Less(m.files[i].path, m.files[j].path))
              && TotalSize(m.files) <= policy.maxTotalBytes && TotalSize(m.files) <= 0xFFFF_FFFF_FFFF_FFFF
              && (exists i :: 0 <= i < |m.files| && m.files[i].path == "SKILL.md")
  {
    hide DesktopPath, TotalSize;
    assert AllGood(m.files, policy) <==>
             forall e :: e in m.files ==> DesktopPath(e.path) && e.sizeBytes <= policy.maxFileBytes
    by {
      assert forall i :: 0 <= i < |m.files| ==> m.files[i] in m.files;
    }
    assert HasEntrypoint(m.files) <==> exists i :: 0 <= i < |m.files| && m.files[i].path == "SKILL.md" by {
      assert forall i :: 0 <= i < |m.files| ==> m.files[i] in m.files;
    }
  }

  /** `node` is somewhere below a directory. */
  predicate Contains(children: seq<Child>, node: Node) {
    exists i :: 0 <= i < |children| &&
      (children[i].node == node || (children[i].node.DirNode? && Contains(children[i].node.children, node)))
  }

  /** Plain is what contains no link and no special file, however deep. */
  lemma {:induction false} PlainIff(children: seq<Child>)
    ensures Plain(children) <==> !Contains(children, LinkNode) && !Contains(children, SpecialNode)
    decreases children
  {
    if children != [] {
      var front, last := children[..|children| - 1], children[|children| - 1];
      PlainIff(front);
      if last.node.DirNode? {
        PlainIff(last.node.children);
      }
      forall node ensures Contains(children, node) <==>
          || Contains(front, node) || last.node == node
          || (last.node.DirNode? && Contains(last.node.children, node))
      {
        assert forall i :: 0 <= i < |front| ==> front[i] == children[i];
      }
    }
  }

  /** Where each collected file is: at the end of its path, by the names of the directories on the way. */
  predicate LeadsTo(children: seq<Child>, segments: seq<string>, content: Bytes) {
    segments != [] && exists i :: 0 <= i < |children| && LeadsThrough(children[i], segments, content)
  }

  predicate LeadsThrough(child: Child, segments: seq<string>, content: Bytes)
    requires segments != []
  {
    && child.name == segments[0]
    && if |segments| == 1 then child.node == FileNode(content)
       else child.node.DirNode? && LeadsTo(child.node.children, segments[1..], content)
  }

  /** The walk finds every regular file, with its path and content, and nothing else. */
  lemma {:induction false} ItemsAre(children: seq<Child>, prefix: seq<string>, item: Item)
    ensures item in Items(children, prefix) <==>
              prefix <= item.segments && LeadsTo(children, item.segments[|prefix|..], item.content)
    decreases children, 0
  {
    if children != [] {
      var front, last := children[..|children| - 1], children[|children| - 1];
      ItemsAre(front, prefix, item);
      ChildItemsAre(last, prefix, item);
      assert forall i :: 0 <= i < |front| ==> front[i] == children[i];
    }
  }

  lemma {:induction false} ChildItemsAre(child: Child, prefix: seq<string>, item: Item)
    ensures item in ChildItems(child, prefix) <==>
              prefix < item.segments && LeadsThrough(child, item.segments[|prefix|..], item.content)
    decreases child
  {
    var deeper := prefix + [child.name];
    if prefix < item.segments {
      var rest := item.segments[|prefix|..];
      assert deeper <= item.segments <==> rest[0] == child.name;
      assert deeper <= item.segments ==> item.segments[|deeper|..] == rest[1..];
      assert item.segments == prefix + rest;
      assert |rest| == 1 ==> rest == [rest[0]];
    } else {
      assert !(deeper <= item.segments);
    }
    if child.node.DirNode? {
      ItemsAre(child.node.children, deeper, item);
    }
  }

  /**
    Which directories can be captured: those with SKILL.md at the root, without a link or special file
    anywhere, and with files that are not too many, too large or too large together, under portable
    names.
  */
  lemma CapturableIff(children: seq<Child>, policy: Policy)
    ensures Capturable(children, policy) <==>
              && (exists child :: child in children && child.name == "SKILL.md" && child.node.FileNode?)
              && !Contains(children, LinkNode) && !Contains(children, SpecialNode)
              && |Items(children, [])| <= policy.maxFiles
              && (forall item :: item in Items(children, []) ==>
                    && |item.content| <= policy.maxFileBytes
                    && forall name :: name in item.segments ==> PortableName(name))
              && TotalSize(SortedEntries(children)) <= policy.maxTotalBytes
              && TotalSize(SortedEntries(children)) <= 0xFFFF_FFFF_FFFF_FFFF
  {
    hide Plain, Contains, Items, SortedEntries, TotalSize, DesktopSegment, PortableName;
    PlainIff(children);
    assert HasRootEntrypoint(children) <==>
             exists child :: child in children && child.name == "SKILL.md" && child.node.FileNode?
    by {
      assert forall i :: 0 <= i < |children| ==> children[i] in children;
    }
    if HasRootEntrypoint(children) {
      RootEntrypointIsCollected(children);
    }
    forall name ensures DesktopSegment(name) <==> PortableName(name) {
      DesktopNamesArePortable(name);
    }
    assert forall item :: item in Items(children, []) ==>
      (PortableItem(item, policy) <==>
         |item.content| <= policy.maxFileBytes && forall name :: name in item.segments ==> PortableName(name))
    by {
      forall item: Item
        ensures (forall i :: 0 <= i < |item.segments| ==> DesktopSegment(item.segments[i])) <==>
                forall name :: name in item.segments ==> PortableName(name)
      {
        assert forall i :: 0 <= i < |item.segments| ==> item.segments[i] in item.segments;
      }
    }
  }
}
