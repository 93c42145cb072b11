/**
  The server's validation of a snapshot manifest, from the JSON value its bytes parse to, and how
  its rules for the listing in it compare with the desktop's.
*/
module PackageManifests {
  import opened Prelude
  import opened Ordering
  import opened PortablePaths

  const SKILL_ENTRYPOINT := "SKILL.md"
  const MAX_SNAPSHOT_FILES := 10_000
  const MAX_BLOB_BYTES := 64 * 1024 * 1024
  const MAX_PACKAGE_BYTES := 512 * 1024 * 1024
  const HASH_PREFIX := "sha256:"
  const MAX_MANIFEST_BYTES := 16 * 1024 * 1024
  const SNAPSHOT_FORMAT_VERSION := 1

  datatype FileEntry = FileEntry(path: string, blobHash: string, sizeBytes: int)

  datatype Error =
    | ManifestTooLarge | InvalidJson | NotAnObject | UnsupportedVersion | FilesNotAList | InvalidEntry
    | TooManyFiles | InvalidHash | FileTooLarge | InvalidPath | NotSorted | PackageTooLarge
    | MissingEntrypoint | BlobMissing(blobHash: string)

  predicate LowerHex(c: char) {
    '0' <= c <= '9' || 'a' <= c <= 'f'
  }

  /** `sha256:` and 64 lower-case hexadecimal digits. */
  predicate CanonicalHash(hash: string) {
    && |hash| == 71 && hash[..7] == HASH_PREFIX
    && forall i :: 7 <= i < 71 ==> LowerHex(hash[i])
  }

  /** The server's pattern ends in `$`, which also matches before one final newline. */
  predicate ServerHash(hash: string) {
    CanonicalHash(hash) || (|hash| == 72 && hash[71] == '\n' && CanonicalHash(hash[..71]))
  }

  function PathOf(e: FileEntry): string { e.path }

  function TotalSize(files: seq<FileEntry>): int {
    if files == [] then 0 else TotalSize(files[..|files| - 1]) + files[|files| - 1].sizeBytes
  }

  predicate GoodSize(size: int) {
    0 <= size <= MAX_BLOB_BYTES
  }

  predicate ServerEntry(e: FileEntry) {
    ServerHash(e.blobHash) && GoodSize(e.sizeBytes) && ServerPath(e.path)
  }

  predicate DesktopEntry(e: FileEntry) {
    CanonicalHash(e.blobHash) && GoodSize(e.sizeBytes) && DesktopPath(e.path)
  }

  predicate HasEntrypoint(files: seq<FileEntry>) {
    exists e :: e in files && e.path == SKILL_ENTRYPOINT
  }

  /** What both sides ask of the listing as a whole. */
  predicate GoodListing(files: seq<FileEntry>) {
    && |files| <= MAX_SNAPSHOT_FILES
    && StrictlySortedBy(PathOf, files)
    && TotalSize(files) <= MAX_PACKAGE_BYTES
    && HasEntrypoint(files)
  }

  predicate ServerAccepts(files: seq<FileEntry>) {
    GoodListing(files) && forall i :: 0 <= i < |files| ==> ServerEntry(files[i])
  }

  predicate DesktopAccepts(files: seq<FileEntry>) {
    GoodListing(files) && forall i :: 0 <= i < |files| ==> DesktopEntry(files[i])
  }

  /** What the server lets through and the desktop does not. */
  predicate ServerOnly(e: FileEntry) {
    |e.blobHash| == 72 || exists i :: 0 <= i < |e.path| && LateControl(e.path[i])
  }

  lemma EntryRulesCompared(e: FileEntry)
    ensures DesktopEntry(e) <==> ServerEntry(e) && !ServerOnly(e)
  {
    DesktopPathsAreServerPaths(e.path);
  }

  /**
    The mirror: a manifest the desktop accepts is never rejected by the server. The converse
    fails, and exactly on manifests with a hash that ends in a newline or a path with DEL or a
    C1 control character.
  */
  lemma DesktopManifestsAreServerManifests(files: seq<FileEntry>)
    ensures DesktopAccepts(files)
       <==> ServerAccepts(files) && forall i :: 0 <= i < |files| ==> !ServerOnly(files[i])
  {
    forall i | 0 <= i < |files|
      ensures DesktopEntry(files[i]) <==> ServerEntry(files[i]) && !ServerOnly(files[i])
    {
      EntryRulesCompared(files[i]);
    }
  }

  // ---- The server's loop --------------------------------------------------------------------

  predicate AllGood(files: seq<FileEntry>) {
    forall i :: 0 <= i < |files| ==> ServerEntry(files[i])
  }

  lemma AllGoodAppend(files: seq<FileEntry>, e: FileEntry)
    ensures AllGood(files + [e]) <==> AllGood(files) && ServerEntry(e)
  {
    var longer := files + [e];
    assert longer[|files|] == e && forall k :: 0 <= k < |files| ==> longer[k] == files[k];
  }

  lemma AllGoodPart(files: seq<FileEntry>, i: nat)
    requires i <= |files| && AllGood(files)
    ensures AllGood(files[..i])
  {
  }

  /** The part of acceptance that is checked entry by entry. */
  predicate GoodEntries(files: seq<FileEntry>) {
    AllGood(files) && StrictlySortedBy(PathOf, files) && TotalSize(files) <= MAX_PACKAGE_BYTES
  }

  lemma {:induction false} TotalSizeGrows(files: seq<FileEntry>, i: nat)
    requires i <= |files| && forall k :: 0 <= k < |files| ==> files[k].sizeBytes >= 0
    ensures TotalSize(files[..i]) <= TotalSize(files)
    decreases |files| - i
  {
    if i < |files| {
      TotalSizeGrows(files, i + 1);
      assert files[..i + 1][..i] == files[..i];
    } else {
      assert files[..i] == files;
    }
  }

  lemma GoodEntriesStep(files: seq<FileEntry>, i: nat)
    requires i < |files| && GoodEntries(files[..i])
    ensures TotalSize(files[..i + 1]) == TotalSize(files[..i]) + files[i].sizeBytes
    ensures GoodEntries(files[..i + 1])
       <==> ServerEntry(files[i]) && (i > 0 ==> Less(files[i - 1].path, files[i].path))
            && TotalSize(files[..i]) + files[i].sizeBytes <= MAX_PACKAGE_BYTES
    ensures GoodEntries(files) ==> GoodEntries(files[..i + 1])
  {
    var front := files[..i];
    assert files[..i + 1] == front + [files[i]] && files[..i + 1][..i] == front;
    AllGoodAppend(front, files[i]);
    SortedStep(PathOf, files, i);
    if GoodEntries(files) {
      AllGoodPart(files, i + 1);
      assert forall k :: 0 <= k < |files| ==> ServerEntry(files[k]);
      TotalSizeGrows(files, i + 1);
    }
  }

  /** The checks of entry `i`, in the server's order. */
  method CheckEntry(files: seq<FileEntry>, i: nat, previous: Option<string>, total: int)
    returns (r: Result<int, Error>)
    requires i < |files| && GoodEntries(files[..i])
    requires previous == if i == 0 then None else Some(files[i - 1].path)
    requires total == TotalSize(files[..i])
    ensures r.Ok? <==> GoodEntries(files[..i + 1])
    ensures r.Ok? ==> r.value == TotalSize(files[..i + 1])
    ensures r.Err? ==> r.error in {InvalidHash, FileTooLarge, InvalidPath, NotSorted, PackageTooLarge}
  {
    GoodEntriesStep(files, i);
    var entry := files[i];
    if !ServerHash(entry.blobHash) {
      return Err(InvalidHash);
    }
    if entry.sizeBytes < 0 || entry.sizeBytes > MAX_BLOB_BYTES {
      return Err(FileTooLarge);
    }
    if !ServerPath(entry.path) {
      return Err(InvalidPath);
    }
    if previous.Some? && !Less(previous.value, entry.path) {
      return Err(NotSorted);
    }
    if total + entry.sizeBytes > MAX_PACKAGE_BYTES {
      return Err(PackageTooLarge);
    }
    r := Ok(total + entry.sizeBytes);
  }

  // ---- The document -----------------------------------------------------------------------

  /** A JSON value as the server's parser yields it; `Unordered` is a number that is none. */
  datatype Json =
    | Null
    | Boolean(truth: bool)
    | Integer(value: int)
    | Float(number: real)
    | Unordered
    | Text(text: string)
    | Array(items: seq<Json>)
    | Object(fields: map<string, Json>)

  /** `dict.get` with a default. */
  function Get(fields: map<string, Json>, key: string, default: Json): Json {
    if key in fields then fields[key] else default
  }

  /** Equal to 1 by the server's comparison, for which `true` is a number too. */
  predicate IsVersion(j: Json) {
    j == Integer(SNAPSHOT_FORMAT_VERSION) || j == Float(1.0) || j == Boolean(true)
  }

  /** The hash of an entry under either of its names; the first one counts if it is there at all. */
  function HashField(fields: map<string, Json>): Json {
    Get(fields, "blobHash", Get(fields, "blob_hash", Null))
  }

  function SizeField(fields: map<string, Json>): Json {
    Get(fields, "sizeBytes", Get(fields, "size_bytes", Null))
  }

  predicate WellShaped(entry: Json) {
    entry.Object? && Get(entry.fields, "path", Null).Text? && SizeField(entry.fields).Integer?
  }

  function EntryOf(entry: Json): Option<FileEntry> {
    if WellShaped(entry) && HashField(entry.fields).Text? then
      Some(FileEntry(entry.fields["path"].text, HashField(entry.fields).text, SizeField(entry.fields).value))
    else None
  }

  function EntriesOf(items: seq<Json>): (r: Option<seq<FileEntry>>)
    ensures r.Some? ==> |r.value| == |items|
  {
    if items == [] then Some([])
    else
      var front, last := EntriesOf(items[..|items| - 1]), EntryOf(items[|items| - 1]);
      if front.Some? && last.Some? then Some(front.value + [last.value]) else None
  }

  /** The listing of a document of the right version, if it has the shape of one. */
  function ListingOf(document: Json): Option<seq<FileEntry>> {
    if document.Object? && IsVersion(Get(document.fields, "format_version", Null)) then
      var files := Get(document.fields, "files", Null);
      if files.Array? then EntriesOf(files.items) else None
    else None
  }

  predicate DocumentAccepted(document: Json) {
    ListingOf(document).Some? && ServerAccepts(ListingOf(document).value)
  }

  /**
    The listing a document stands for: an object whose version is 1 and whose files are objects, each
    with a path, a hash and a whole size, the latter two under either of their names, the one in
    camel case first.
  */
  lemma ListingIs(document: Json, files: seq<FileEntry>)
    ensures ListingOf(document) == Some(files) <==>
              && document.Object?
              && "format_version" in document.fields
              && document.fields["format_version"] in {Integer(1), Float(1.0), Boolean(true)}
              && "files" in document.fields && document.fields["files"].Array?
              && |document.fields["files"].items| == |files|
              && forall i :: 0 <= i < |files| ==>
                   var entry := document.fields["files"].items[i];
                   && entry.Object?
                   && "path" in entry.fields && entry.fields["path"] == Text(files[i].path)
                   && (if "blobHash" in entry.fields then entry.fields["blobHash"] == Text(files[i].blobHash)
                       else "blob_hash" in entry.fields && entry.fields["blob_hash"] == Text(files[i].blobHash))
                   && (if "sizeBytes" in entry.fields then entry.fields["sizeBytes"] == Integer(files[i].sizeBytes)
                       else "size_bytes" in entry.fields && entry.fields["size_bytes"] == Integer(files[i].sizeBytes))
  {
    if document.Object? && "files" in document.fields && document.fields["files"].Array? {
      EntriesAre(document.fields["files"].items, files);
    }
  }

  lemma {:induction false} EntriesAre(items: seq<Json>, files: seq<FileEntry>)
    ensures EntriesOf(items) == Some(files) <==>
              |items| == |files| && forall i :: 0 <= i < |files| ==> EntryOf(items[i]) == Some(files[i])
  {
    if items != [] && |files| == |items| {
      var n := |items| - 1;
      EntriesAre(items[..n], files[..n]);
      assert files == files[..n] + [files[n]];
    }
  }

  /** What the server asks of a listing. */
  lemma ListingRule(files: seq<FileEntry>)
    ensures ServerAccepts(files) <==>
              && |files| <= 10_000 && TotalSize(files) <= 0x2000_0000
              && (exists i :: 0 <= i < |files| && files[i].path == "SKILL.md")
              && (forall i, j :: 0 <= i < j < |files| ==> Less(files[i].path, files[j].path))
              && (forall i :: 0 <= i < |files| ==>
                    var e := files[i];
                    && 0 <= e.sizeBytes <= 0x400_0000 && ServerPath(e.path)
                    && (|e.blobHash| == 71 || (|e.blobHash| == 72 && e.blobHash[71] == '\n'))
                    && e.blobHash[..7] == "sha256:"
                    && forall k :: 7 <= k < 71 ==> e.blobHash[k] in "0123456789abcdef")
  {
    hide ServerPath, ServerHash;
    forall e: FileEntry
      ensures ServerHash(e.blobHash) <==>
              && (|e.blobHash| == 71 || (|e.blobHash| == 72 && e.blobHash[71] == '\n'))
              && e.blobHash[..7] == "sha256:"
              && forall k :: 7 <= k < 71 ==> e.blobHash[k] in "0123456789abcdef"
    {
      HashRule(e.blobHash);
    }
  }

  lemma HashRule(hash: string)
    ensures ServerHash(hash) <==>
              && (|hash| == 71 || (|hash| == 72 && hash[71] == '\n'))
              && hash[..7] == "sha256:"
              && forall k :: 7 <= k < 71 ==> hash[k] in "0123456789abcdef"
  {
    forall c: char ensures LowerHex(c) <==> c in "0123456789abcdef" {}
    if |hash| == 72 {
      assert hash[..71][..7] == hash[..7];
      assert forall k :: 0 <= k < 71 ==> hash[..71][k] == hash[k];
    }
  }

  /** Entries read one by one are the entries read together. */
  lemma {:induction false} EntriesStep(items: seq<Json>, i: nat)
    requires i < |items|
    ensures EntriesOf(items[..i + 1]) == (if EntriesOf(items[..i]).Some? && EntryOf(items[i]).Some?
                                          then Some(EntriesOf(items[..i]).value + [EntryOf(items[i]).value]) else None)
    ensures EntriesOf(items).Some? ==>
              EntriesOf(items[..i + 1]).Some? && EntriesOf(items).value[..i + 1] == EntriesOf(items[..i + 1]).value
    decreases |items| - i
  {
    assert items[..i + 1][..i] == items[..i];
    if i + 1 < |items| {
      EntriesStep(items, i + 1);
      if EntriesOf(items).Some? {
        assert EntriesOf(items).value[..i + 2][..i + 1] == EntriesOf(items).value[..i + 1];
      }
    } else {
      assert items[..i + 1] == items;
      if EntriesOf(items).Some? {
        assert EntriesOf(items).value[..i + 1] == EntriesOf(items).value;
      }
    }
  }

  /** The listing cannot be accepted any more once a prefix of the entries is not good. */
  lemma BadPrefix(items: seq<Json>, i: nat, file: FileEntry)
    requires i < |items| && EntryOf(items[i]) == Some(file)
    requires EntriesOf(items[..i]).Some? && GoodEntries(EntriesOf(items[..i]).value)
    requires !GoodEntries(EntriesOf(items[..i]).value + [file])
    ensures EntriesOf(items).Some? ==> !ServerAccepts(EntriesOf(items).value)
  {
    EntriesStep(items, i);
    if EntriesOf(items).Some? {
      var files := EntriesOf(items).value;
      assert files[..i + 1] == EntriesOf(items[..i]).value + [file];
      assert files[..i] == files[..i + 1][..i];
      assert files[..i] == EntriesOf(items[..i]).value;
      GoodEntriesStep(files, i);
    }
  }

  /** One turn of the loop: the shape of an entry, then its content. */
  method ReadEntry(items: seq<Json>, i: nat, files: seq<FileEntry>, previous: Option<string>, total: int)
    returns (r: Result<(FileEntry, int), Error>)
    requires i < |items| && EntriesOf(items[..i]) == Some(files) && GoodEntries(files)
    requires previous == if i == 0 then None else Some(files[i - 1].path)
    requires total == TotalSize(files)
    ensures r.Ok? ==> EntriesOf(items[..i + 1]) == Some(files + [r.value.0]) && GoodEntries(files + [r.value.0])
    ensures r.Ok? ==> r.value.1 == TotalSize(files + [r.value.0])
    ensures r.Err? ==> EntriesOf(items).Some? ==> !ServerAccepts(EntriesOf(items).value)
    ensures r == Err(InvalidEntry) <==> !WellShaped(items[i])
    ensures r.Err? ==> r.error !in {ManifestTooLarge, UnsupportedVersion}
  {
    EntriesStep(items, i);
    var entry := items[i];
    if !WellShaped(entry) {
      return Err(InvalidEntry);
    }
    var hash := HashField(entry.fields);
    if !hash.Text? {
      return Err(InvalidHash);
    }
    var file := FileEntry(entry.fields["path"].text, hash.text, SizeField(entry.fields).value);
    var longer := files + [file];
    assert longer[..i] == files && longer[..i + 1] == longer;
    var sum := CheckEntry(longer, i, previous, total);
    if sum.Err? {
      BadPrefix(items, i, file);
      return Err(sum.error);
    }
    r := Ok((file, sum.value));
  }

  /**
    `validate_snapshot_manifest_bytes`: so many bytes that parse to `parsed`, or to nothing. It
    accepts exactly the documents of the right shape whose listing obeys the rules, and no entry of
    one leads out of the directory it is unpacked in, or to anything but its own segments there.
  */
  method ValidateSnapshotManifestBytes(byteCount: nat, parsed: Option<Json>) returns (r: Result<seq<FileEntry>, Error>)
    ensures r.Ok? <==> byteCount <= MAX_MANIFEST_BYTES && parsed.Some? && DocumentAccepted(parsed.value)
    ensures r.Ok? ==> ListingOf(parsed.value) == Some(r.value)
    ensures r.Ok? ==> forall i, root :: 0 <= i < |r.value| ==> LeadsBelow(root, r.value[i].path)
    ensures r == Err(ManifestTooLarge) <==> byteCount > MAX_MANIFEST_BYTES
    ensures r == Err(UnsupportedVersion) <==>
              && byteCount <= MAX_MANIFEST_BYTES && parsed.Some? && parsed.value.Object?
              && !IsVersion(Get(parsed.value.fields, "format_version", Null))
  {
    if byteCount > MAX_MANIFEST_BYTES {
      return Err(ManifestTooLarge);
    }
    if parsed.None? {
      return Err(InvalidJson);
    }
    if !parsed.value.Object? {
      return Err(NotAnObject);
    }
    if !IsVersion(Get(parsed.value.fields, "format_version", Null)) {
      return Err(UnsupportedVersion);
    }
    var files := Get(parsed.value.fields, "files", Null);
    if !files.Array? {
      return Err(FilesNotAList);
    }
    r := ValidateListing(files.items);
    if r.Ok? {
      AcceptedStaysBelow(r.value);
    }
  }

  lemma AcceptedStaysBelow(files: seq<FileEntry>)
    requires ServerAccepts(files)
    ensures forall i, root :: 0 <= i < |files| ==> LeadsBelow(root, files[i].path)
  {
    hide LeadsBelow, ServerPath, ServerHash;
    forall i, root | 0 <= i < |files|
      ensures LeadsBelow(root, files[i].path)
    {
      PathsStayBelow(root, files[i].path);
    }
  }

  /** The server's loop over the entries. */
  method ValidateListing(items: seq<Json>) returns (r: Result<seq<FileEntry>, Error>)
    ensures r.Ok? <==> EntriesOf(items).Some? && ServerAccepts(EntriesOf(items).value)
    ensures r.Ok? ==> EntriesOf(items) == Some(r.value)
    ensures r.Err? ==> r.error !in {ManifestTooLarge, UnsupportedVersion}
  {
    if |items| > MAX_SNAPSHOT_FILES {
      return Err(TooManyFiles);
    }
    var previous: Option<string> := None;
    var hasEntrypoint, total := false, 0;
    var normalized: seq<FileEntry> := [];
    for i := 0 to |items|
      invariant EntriesOf(items[..i]) == Some(normalized)
      invariant previous == if i == 0 then None else Some(normalized[i - 1].path)
      invariant GoodEntries(normalized) && total == TotalSize(normalized)
      invariant hasEntrypoint <==> HasEntrypoint(normalized)
    {
      hide GoodEntries, EntriesOf, TotalSize;
      var read := ReadEntry(items, i, normalized, previous, total);
      if read.Err? {
        return Err(read.error);
      }
      var file := read.value.0;
      assert forall e :: e in normalized + [file] <==> e in normalized || e == file;
      normalized, total := normalized + [file], read.value.1;
      previous, hasEntrypoint := Some(file.path), hasEntrypoint || file.path == SKILL_ENTRYPOINT;
    }
    assert items[..|items|] == items;
    r := if hasEntrypoint then Ok(normalized) else Err(MissingEntrypoint);
  }

  // ---- Package closure --------------------------------------------------------------------

  /** Every blob the package names is held with the size it names. */
  predicate ClosureHeld(files: seq<FileEntry>, held: map<string, int>) {
    forall i :: 0 <= i < |files| ==> files[i].blobHash in held && held[files[i].blobHash] == files[i].sizeBytes
  }

  /**
    `validate_package_closure`: the totals of a complete package, or the first blob that is
    missing or of another size.
  */
  method ValidatePackageClosure(files: seq<FileEntry>, held: map<string, int>)
    returns (r: Result<(nat, int), Error>)
    ensures r.Ok? <==> ClosureHeld(files, held)
    ensures r.Ok? ==> r.value == (|files|, TotalSize(files))
    ensures r.Err? ==>
              exists i :: 0 <= i < |files| && r.error == BlobMissing(files[i].blobHash)
                && !ClosureHeld([files[i]], held) && ClosureHeld(files[..i], held)
  {
    var total := 0;
    for i := 0 to |files|
      invariant total == TotalSize(files[..i]) && ClosureHeld(files[..i], held)
    {
      var entry := files[i];
      if entry.blobHash !in held || held[entry.blobHash] != entry.sizeBytes {
        assert [entry][0] == entry;
        return Err(BlobMissing(entry.blobHash));
      }
      assert files[..i + 1][..i] == files[..i];
      assert files[..i + 1] == files[..i] + [entry];
      total := total + entry.sizeBytes;
    }
    assert files[..|files|] == files;
    r := Ok((|files|, total));
  }
}
