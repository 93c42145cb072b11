/**
  The desktop's manifests at the server. The listing of a manifest the desktop's validator accepts,
  written with its digests as canonical hashes, is one the server's rules accept. The document around
  it is not: the desktop writes the version under a key the server does not look up.
*/
module ManifestAgreement {
  import opened Prelude
  import opened Ordering
  import opened Texts
  import opened PortablePaths
  import opened PackageManifests
  import S = Snapshots

  /** How the desktop writes a digest: always `sha256:` and 64 lower-case hexadecimal digits. */
  type Rendering = S.Digest -> string

  ghost predicate Canonical(render: Rendering) {
    forall d :: CanonicalHash(render(d))
  }

  function RenderedEntry(e: S.Entry, render: Rendering): FileEntry {
    FileEntry(e.path, render(e.blobHash), e.sizeBytes)
  }

  /** The entries the server parses out of the listing the desktop wrote. */
  function Rendered(files: seq<S.Entry>, render: Rendering): seq<FileEntry> {
    seq(|files|, i requires 0 <= i < |files| => RenderedEntry(files[i], render))
  }

  lemma {:induction false} RenderedTotal(files: seq<S.Entry>, render: Rendering)
    ensures TotalSize(Rendered(files, render)) == S.TotalSize(files)
  {
    if files != [] {
      var n := |files| - 1;
      RenderedTotal(files[..n], render);
      assert Rendered(files, render)[..n] == Rendered(files[..n], render);
    }
  }

  lemma RenderedSorted(files: seq<S.Entry>, render: Rendering)
    ensures StrictlySortedBy(PathOf, Rendered(files, render)) <==> StrictlySortedBy(S.EntryPath, files)
  {
    var written := Rendered(files, render);
    assert forall i :: 0 <= i < |files| ==> PathOf(written[i]) == S.EntryPath(files[i]);
  }

  lemma RenderedEntrypoint(files: seq<S.Entry>, render: Rendering)
    ensures HasEntrypoint(Rendered(files, render)) <==> S.HasEntrypoint(files)
  {
    var written := Rendered(files, render);
    if S.HasEntrypoint(files) {
      var i :| 0 <= i < |files| && files[i].path == S.SKILL_ENTRYPOINT;
      assert written[i] in written;
    }
    if HasEntrypoint(written) {
      var i :| 0 <= i < |files| && written[i].path == SKILL_ENTRYPOINT;
      assert files[i] in files;
    }
  }

  lemma RenderedEntries(files: seq<S.Entry>, render: Rendering)
    requires Canonical(render)
    ensures S.AllGood(files, S.DEFAULT_POLICY)
       <==> forall i :: 0 <= i < |files| ==> DesktopEntry(Rendered(files, render)[i])
  {
    forall i | 0 <= i < |files|
      ensures S.GoodEntry(files[i], S.DEFAULT_POLICY) <==> DesktopEntry(Rendered(files, render)[i])
    {
      assert Rendered(files, render)[i] == RenderedEntry(files[i], render);
    }
  }

  /** The desktop's own validator and the server-side description of it decide alike. */
  lemma ValidIsDesktopAccepted(m: S.Manifest, render: Rendering)
    requires Canonical(render)
    ensures S.ValidManifest(m, S.DEFAULT_POLICY) <==> DesktopAccepts(Rendered(m.files, render))
  {
    RenderedTotal(m.files, render);
    RenderedSorted(m.files, render);
    RenderedEntrypoint(m.files, render);
    RenderedEntries(m.files, render);
  }

  /**
    The listings the desktop accepts the server's rules accept, and of those the server's rules
    accept the desktop rejects exactly the ones with a DEL or a C1 control character in a path.
  */
  lemma DesktopAndServerAgree(m: S.Manifest, render: Rendering)
    requires Canonical(render)
    ensures S.ValidManifest(m, S.DEFAULT_POLICY)
       <==> ServerAccepts(Rendered(m.files, render))
            && forall i, k :: 0 <= i < |m.files| && 0 <= k < |m.files[i].path| ==> !LateControl(m.files[i].path[k])
  {
    var written := Rendered(m.files, render);
    ValidIsDesktopAccepted(m, render);
    DesktopManifestsAreServerManifests(written);
    forall i | 0 <= i < |written|
      ensures ServerOnly(written[i]) <==> exists k :: 0 <= k < |m.files[i].path| && LateControl(m.files[i].path[k])
    {
      assert CanonicalHash(written[i].blobHash) && written[i].path == m.files[i].path;
    }
  }

  /** The listing of every workspace the desktop captures is one the server's rules accept. */
  lemma CapturedListingIsAccepted(workspace: seq<S.Child>, render: Rendering)
    requires S.WellFormed(workspace) && S.Capturable(workspace, S.DEFAULT_POLICY)
    requires Canonical(render)
    ensures ServerAccepts(Rendered(S.SortedEntries(workspace), render))
  {
    S.CapturedIsValid(workspace, S.DEFAULT_POLICY);
    DesktopAndServerAgree(S.Manifest(S.SNAPSHOT_FORMAT_VERSION, S.SortedEntries(workspace)), render);
  }

  // ---- The document -------------------------------------------------------------------------

  /** The key under which the desktop writes the version, and the one under which the server looks it up. */
  const DESKTOP_VERSION_KEY := "formatVersion"
  const SERVER_VERSION_KEY := "format_version"

  function WrittenEntry(e: S.Entry, render: Rendering): Json {
    Object(map["path" := Text(e.path), "blobHash" := Text(render(e.blobHash)), "sizeBytes" := Integer(e.sizeBytes)])
  }

  function WrittenEntries(files: seq<S.Entry>, render: Rendering): seq<Json> {
    seq(|files|, i requires 0 <= i < |files| => WrittenEntry(files[i], render))
  }

  /** A manifest as a document, with its version under `versionKey`. */
  function Written(m: S.Manifest, render: Rendering, versionKey: string): Json {
    Object(map[versionKey := Integer(m.formatVersion), "files" := Array(WrittenEntries(m.files, render))])
  }

  /** The server reads the entries as the desktop wrote them. */
  lemma {:induction false} WrittenIsRead(files: seq<S.Entry>, render: Rendering)
    ensures EntriesOf(WrittenEntries(files, render)) == Some(Rendered(files, render))
  {
    if files != [] {
      var n := |files| - 1;
      WrittenIsRead(files[..n], render);
      assert WrittenEntries(files, render)[..n] == WrittenEntries(files[..n], render);
      assert Rendered(files, render) == Rendered(files[..n], render) + [RenderedEntry(files[n], render)];
      assert EntryOf(WrittenEntry(files[n], render)) == Some(RenderedEntry(files[n], render));
    } else {
      assert WrittenEntries(files, render) == [] && Rendered(files, render) == [];
    }
  }

  /**
    A document is accepted exactly if its version is where the server looks for it and is the right
    one, and the rules accept its listing.
  */
  lemma WrittenIsAcceptedIff(m: S.Manifest, render: Rendering, versionKey: string)
    requires versionKey != "files"
    ensures DocumentAccepted(Written(m, render, versionKey))
       <==> versionKey == SERVER_VERSION_KEY && m.formatVersion == SNAPSHOT_FORMAT_VERSION
            && ServerAccepts(Rendered(m.files, render))
  {
    WrittenIsRead(m.files, render);
    var fields := Written(m, render, versionKey).fields;
    assert Get(fields, "files", Null) == Array(WrittenEntries(m.files, render));
    assert Get(fields, SERVER_VERSION_KEY, Null)
        == if versionKey == SERVER_VERSION_KEY then Integer(m.formatVersion) else Null;
  }

  /**
    So the server rejects every manifest as the desktop writes it, for its version, and would accept
    every one that the desktop can read back if only the version were under the other key.
  */
  lemma VersionKeyDecides(blobs: set<S.Digest>, hash: S.Digest, render: Rendering)
    requires S.Readable(blobs, hash, S.DEFAULT_POLICY) && Canonical(render)
    ensures !IsVersion(Get(Written(hash.manifest, render, DESKTOP_VERSION_KEY).fields, SERVER_VERSION_KEY, Null))
    ensures !DocumentAccepted(Written(hash.manifest, render, DESKTOP_VERSION_KEY))
    ensures DocumentAccepted(Written(hash.manifest, render, SERVER_VERSION_KEY))
  {
    WrittenIsAcceptedIff(hash.manifest, render, DESKTOP_VERSION_KEY);
    WrittenIsAcceptedIff(hash.manifest, render, SERVER_VERSION_KEY);
    DesktopAndServerAgree(hash.manifest, render);
  }

  /** In particular the manifest of every captured workspace. */
  lemma CapturedIsRejected(workspace: seq<S.Child>, render: Rendering)
    requires S.WellFormed(workspace) && S.Capturable(workspace, S.DEFAULT_POLICY) && Canonical(render)
    ensures var m := S.Manifest(S.SNAPSHOT_FORMAT_VERSION, S.SortedEntries(workspace));
            && !DocumentAccepted(Written(m, render, DESKTOP_VERSION_KEY))
            && DocumentAccepted(Written(m, render, SERVER_VERSION_KEY))
  {
    var hash := S.OfManifest(S.Manifest(S.SNAPSHOT_FORMAT_VERSION, S.SortedEntries(workspace)));
    S.CapturedIsValid(workspace, S.DEFAULT_POLICY);
    VersionKeyDecides({hash}, hash, render);
  }

  // ---- The difference, on inputs ------------------------------------------------------------

  lemma {:induction false} ByteLengthBound(s: string)
    ensures ByteLength(s) <= 4 * |s|
  {
    if s != [] { ByteLengthBound(s[..|s| - 1]); }
  }

  lemma OneSegment(path: string)
    requires SEPARATOR !in path && path != ""
    ensures Split(path) == [path]
  {
    BeforeAll(path, SEPARATOR);
  }

  lemma LongStemIsFree(stem: string, extension: string)
    requires |stem| > 4 && '.' !in stem
    ensures !ReservedStem(stem + ['.'] + extension)
  {
    BeforeAppend(stem, extension, '.');
  }

  lemma EntrypointIsPortable()
    ensures ServerPath(SKILL_ENTRYPOINT)
  {
    hide Split, ReservedStem, ByteLength;
    var path := SKILL_ENTRYPOINT;
    OneSegment(path);
    ByteLengthBound(path);
    LongStemIsFree("SKILL", "md");
    assert path == "SKILL" + ['.'] + "md";
    assert PlainShape(path);
  }

  lemma DelIsPortable()
    ensures ServerPath("\U{7F}")
  {
    var path := "\U{7F}";
    OneSegment(path);
    ByteLengthBound(path);
    BeforeAll(path, '.');
    assert |Upper(path)| == 1;
    assert forall i :: 0 <= i < |path| ==> !Forbidden(path[i]);
  }

  /** Two listings the server's rules accept and the desktop's reject, one for each difference. */
  lemma ServerTakesMore(hash: string)
    requires CanonicalHash(hash)
    ensures var files := [FileEntry(SKILL_ENTRYPOINT, hash + "\n", 0)];
      ServerAccepts(files) && !DesktopAccepts(files)
    ensures var files := [FileEntry(SKILL_ENTRYPOINT, hash, 0), FileEntry("\U{7F}", hash, 0)];
      ServerAccepts(files) && !DesktopAccepts(files)
  {
    EntrypointIsPortable();
    var newline := FileEntry(SKILL_ENTRYPOINT, hash + "\n", 0);
    assert (hash + "\n")[..71] == hash;
    assert newline in [newline] && [newline][0] == newline;
    assert TotalSize([newline][..0]) == 0;
    DelIsPortable();
    var plain, del := FileEntry(SKILL_ENTRYPOINT, hash, 0), FileEntry("\U{7F}", hash, 0);
    var two := [plain, del];
    assert LateControl(del.path[0]);
    assert two[..1] == [plain] && [plain][..0] == [] && TotalSize(two) == 0;
    assert plain in two && Less(plain.path, del.path);
    EntryRulesCompared(newline);
    EntryRulesCompared(del);
    assert two[1] == del;
  }
}
