/**
 * The import dialog (UploadModal.jsx): a zip archive is folded into a
 * file-name → object-URL map with a `urdf` alias for the description; a
 * single description file becomes `{urdf: url}`.
 */
module Upload {
  import opened Optional
  import opened Strings
  import opened FileMaps

  /**
   * An archive entry. For a file, `url` is the object URL minted for its
   * decompressed contents (`URL.createObjectURL(blob)`).
   */
  datatype ZipEntry = Directory(path: string) | File(path: string, url: BlobUrl)

  /**
   * The selected archive as JSZip reads it, in processing order. `Corrupt`
   * stands for a failure to open the archive or to decompress any entry:
   * both end in the same `catch`.
   */
  datatype Archive = Corrupt | Archive(entries: seq<ZipEntry>)

  const UrdfKey := "urdf"
  const UrdfSuffix := ".urdf"

  /** `relativePath.split('/').pop()`. */
  function FileName(path: string): string
  {
    AfterLast(path, '/')
  }

  /** The folders of a path are dropped; a bare name is its own file name. */
  lemma FileNameOfPath(folder: string, name: string)
    requires '/' !in name
    ensures FileName(folder + "/" + name) == name
    ensures FileName(name) == name
  {
    assert folder + "/" + name == folder + ['/'] + name;
    AfterLastJoin(folder, '/', name);
    AfterLastNoSeparator(name, '/');
  }

  /** A case-sensitive `.urdf` suffix test on the file name. */
  predicate IsDescription(name: string)
  {
    EndsWith(name, UrdfSuffix)
  }

  /** The accumulated `fileMap` and `urdfUrl` of the fold. */
  datatype Ingest = Ingest(files: FileMap, urdfUrl: Option<BlobUrl>)

  /** What one entry's `.then` callback does. */
  function Absorb(acc: Ingest, e: ZipEntry): Ingest
  {
    match e
    case Directory(_) => acc
    case File(path, url) =>
      var files := Put(acc.files, FileName(path), url);
      if IsDescriptionEntry(e) then Ingest(Put(files, UrdfKey, url), Some(url))
      else Ingest(files, acc.urdfUrl)
  }

  /** All entries absorbed, in processing order. */
  function Fold(entries: seq<ZipEntry>): Ingest
    decreases |entries|
  {
    if |entries| == 0 then Ingest([], None)
    else Absorb(Fold(entries[..|entries| - 1]), entries[|entries| - 1])
  }

  /** Entry `i` is a file whose name marks it as a robot description. */
  predicate DescriptionAt(entries: seq<ZipEntry>, i: int)
  {
    0 <= i < |entries| && IsDescriptionEntry(entries[i])
  }

  predicate IsDescriptionEntry(e: ZipEntry)
  {
    e.File? && IsDescription(FileName(e.path))
  }

  /** The position of the last description entry, if any. */
  function LastDescriptionIndex(entries: seq<ZipEntry>): (r: Option<nat>)
    ensures r.None? <==> forall i :: !DescriptionAt(entries, i)
    ensures r.Some? ==> DescriptionAt(entries, r.value) && forall j :: r.value < j ==> !DescriptionAt(entries, j)
    decreases |entries|
  {
    if |entries| == 0 then None
    else
      var n := |entries| - 1;
      var init := entries[..n];
      assert forall i :: i != n ==> DescriptionAt(entries, i) == DescriptionAt(init, i) by {
        forall i | i != n ensures DescriptionAt(entries, i) == DescriptionAt(init, i) {
          if 0 <= i < n { assert init[i] == entries[i]; }
        }
      }
      if DescriptionAt(entries, n) then Some(n)
      else LastDescriptionIndex(init)
  }

  /** The URL of the last description entry, if any: the entry point. */
  function LastDescription(entries: seq<ZipEntry>): (r: Option<BlobUrl>)
  {
    match LastDescriptionIndex(entries)
    case None => None
    case Some(i) => Some(entries[i].url)
  }

  /** `urdfUrl` ends as the last description entry's URL. */
  lemma {:induction false} FoldEntryPoint(entries: seq<ZipEntry>)
    ensures Fold(entries).urdfUrl == LastDescription(entries)
    decreases |entries|
  {
    if |entries| > 0 {
      FoldEntryPoint(entries[..|entries| - 1]);
    }
  }

  /** Entry `i` is a file whose name (after the last `/`) is `name`. */
  predicate FileNamedAt(entries: seq<ZipEntry>, i: int, name: string)
  {
    0 <= i < |entries| && entries[i].File? && FileName(entries[i].path) == name
  }

  /** The position of the last file entry named `name`, if any. */
  function LastFileIndex(entries: seq<ZipEntry>, name: string): (r: Option<nat>)
    ensures r.None? <==> forall i :: !FileNamedAt(entries, i, name)
    ensures r.Some? ==> FileNamedAt(entries, r.value, name) && forall j :: r.value < j ==> !FileNamedAt(entries, j, name)
    decreases |entries|
  {
    if |entries| == 0 then None
    else
      var n := |entries| - 1;
      var init := entries[..n];
      assert forall i :: i != n ==> FileNamedAt(entries, i, name) == FileNamedAt(init, i, name) by {
        forall i | i != n ensures FileNamedAt(entries, i, name) == FileNamedAt(init, i, name) {
          if 0 <= i < n { assert init[i] == entries[i]; }
        }
      }
      if FileNamedAt(entries, n, name) then Some(n)
      else LastFileIndex(init, name)
  }

  /** The URL of the last file entry named `name`, if any. */
  function LastFileUrl(entries: seq<ZipEntry>, name: string): Option<BlobUrl>
  {
    match LastFileIndex(entries, name)
    case None => None
    case Some(i) => Some(entries[i].url)
  }

  /** The built map has distinct keys and only `blob:` URLs as values. */
  lemma {:induction false} FoldWellFormed(entries: seq<ZipEntry>)
    ensures Valid(Fold(entries).files)
    ensures AllBlobUrls(Fold(entries).files)
    decreases |entries|
  {
    if |entries| > 0 {
      var acc := Fold(entries[..|entries| - 1]);
      FoldWellFormed(entries[..|entries| - 1]);
      match entries[|entries| - 1]
      case Directory(_) =>
      case File(path, url) =>
        PutKeys(acc.files, FileName(path), url);
        PutKeys(Put(acc.files, FileName(path), url), UrdfKey, url);
    }
  }

  /**
   * Directories add nothing; each file adds the key after its last `/`;
   * the `urdf` key appears when some file is a description.
   */
  lemma {:induction false} FoldKeys(entries: seq<ZipEntry>, k: string)
    ensures k in Keys(Fold(entries).files)
            <==> LastFileIndex(entries, k).Some? || (k == UrdfKey && LastDescriptionIndex(entries).Some?)
    decreases |entries|
  {
    if |entries| > 0 {
      var n := |entries| - 1;
      var init := entries[..n];
      FoldKeys(init, k);
      AbsorbKeys(Fold(init), entries[n], k);
      assert LastFileIndex(entries, k).Some? <==> LastFileIndex(init, k).Some? || FileNamedAt(entries, n, k);
      assert LastDescriptionIndex(entries).Some? <==> LastDescriptionIndex(init).Some? || DescriptionAt(entries, n);
    }
  }

  /** The keys one entry adds: its file name, and `urdf` for a description. */
  lemma AbsorbKeys(acc: Ingest, e: ZipEntry, k: string)
    ensures k in Keys(Absorb(acc, e).files)
            <==> k in Keys(acc.files) || (e.File? && k == FileName(e.path)) || (k == UrdfKey && IsDescriptionEntry(e))
  {
    match e
    case Directory(_) =>
    case File(path, url) =>
      PutKeys(acc.files, FileName(path), url);
      PutKeys(Put(acc.files, FileName(path), url), UrdfKey, url);
  }

  /** Files sharing a name collapse to one key holding the later file's URL. */
  lemma {:induction false} FoldLastFileWins(entries: seq<ZipEntry>, k: string)
    requires k != UrdfKey
    ensures Get(Fold(entries).files, k) == LastFileUrl(entries, k)
    decreases |entries|
  {
    if |entries| > 0 {
      var n := |entries| - 1;
      var init := entries[..n];
      var acc := Fold(init);
      FoldLastFileWins(init, k);
      var e := entries[n];
      assert LastFileIndex(entries, k) == if FileNamedAt(entries, n, k) then Some(n) else LastFileIndex(init, k);
      match e
      case Directory(_) =>
        assert Fold(entries) == acc;
      case File(path, url) =>
        var files := Put(acc.files, FileName(path), url);
        PutGet(acc.files, FileName(path), url, k);
        if IsDescriptionEntry(e) {
          assert Fold(entries).files == Put(files, UrdfKey, url);
          PutGet(files, UrdfKey, url, k);
        } else {
          assert Fold(entries).files == files;
        }
    }
  }

  /**
   * The `urdf` alias, the entry point and the last description file's URL
   * coincide, unless some file is itself named `urdf`.
   */
  lemma {:induction false} FoldAlias(entries: seq<ZipEntry>)
    requires forall i :: !FileNamedAt(entries, i, UrdfKey)
    ensures Get(Fold(entries).files, UrdfKey) == LastDescription(entries)
    ensures Fold(entries).urdfUrl == LastDescription(entries)
    decreases |entries|
  {
    FoldEntryPoint(entries);
    if |entries| > 0 {
      var init := entries[..|entries| - 1];
      var acc := Fold(init);
      assert forall i :: !FileNamedAt(init, i, UrdfKey) by {
        forall i | 0 <= i < |init| ensures !FileNamedAt(init, i, UrdfKey) {
          assert init[i] == entries[i];
          assert !FileNamedAt(entries, i, UrdfKey);
        }
      }
      FoldAlias(init);
      match entries[|entries| - 1]
      case Directory(_) =>
      case File(path, url) =>
        assert !FileNamedAt(entries, |entries| - 1, UrdfKey);
        PutGet(acc.files, FileName(path), url, UrdfKey);
        PutGet(Put(acc.files, FileName(path), url), UrdfKey, url, UrdfKey);
    }
  }

  /** Entry `i` writes the `urdf` key: a description file, or a file named plain `urdf`. */
  predicate AliasAt(entries: seq<ZipEntry>, i: int)
  {
    DescriptionAt(entries, i) || FileNamedAt(entries, i, UrdfKey)
  }

  /** The position of the last entry that writes the `urdf` key, if any. */
  function LastAliasIndex(entries: seq<ZipEntry>): (r: Option<nat>)
    ensures r.None? <==> forall i :: !AliasAt(entries, i)
    ensures r.Some? ==> AliasAt(entries, r.value) && forall j :: r.value < j ==> !AliasAt(entries, j)
    decreases |entries|
  {
    if |entries| == 0 then None
    else
      var n := |entries| - 1;
      var init := entries[..n];
      assert forall i :: i != n ==> AliasAt(entries, i) == AliasAt(init, i) by {
        forall i | i != n ensures AliasAt(entries, i) == AliasAt(init, i) {
          if 0 <= i < n { assert init[i] == entries[i]; }
        }
      }
      if AliasAt(entries, n) then Some(n)
      else LastAliasIndex(init)
  }

  /** The URL of the last entry that writes the `urdf` key, if any. */
  function LastAlias(entries: seq<ZipEntry>): Option<BlobUrl>
  {
    match LastAliasIndex(entries)
    case None => None
    case Some(i) => Some(entries[i].url)
  }

  /**
   * What one entry does to a lookup: its file name, and `urdf` when it is
   * a description, now hold its URL; every other key reads as before.
   */
  lemma AbsorbGet(acc: Ingest, e: ZipEntry, k: string)
    ensures Get(Absorb(acc, e).files, k)
            == if e.File? && (k == FileName(e.path) || (k == UrdfKey && IsDescriptionEntry(e))) then Some(e.url)
               else Get(acc.files, k)
  {
    match e
    case Directory(_) =>
    case File(path, url) =>
      PutGet(acc.files, FileName(path), url, k);
      if IsDescriptionEntry(e) {
        PutGet(Put(acc.files, FileName(path), url), UrdfKey, url, k);
      }
  }

  /**
   * For every archive, the `urdf` key holds the URL of the last entry that
   * is a description or a file named plain `urdf`.
   */
  lemma {:induction false} FoldUrdfKey(entries: seq<ZipEntry>)
    ensures Get(Fold(entries).files, UrdfKey) == LastAlias(entries)
    decreases |entries|
  {
    if |entries| > 0 {
      var n := |entries| - 1;
      var init := entries[..n];
      FoldUrdfKey(init);
      AbsorbGet(Fold(init), entries[n], UrdfKey);
      assert LastAliasIndex(entries) == if AliasAt(entries, n) then Some(n) else LastAliasIndex(init);
    }
  }

  /** Whenever the archive has a description, something is stored under `urdf`. */
  lemma DescriptionGivesAlias(entries: seq<ZipEntry>)
    requires LastDescriptionIndex(entries).Some?
    ensures LastAlias(entries).Some?
  {
    assert AliasAt(entries, LastDescriptionIndex(entries).value);
  }

  /** A later file literally named `urdf` overwrites the alias but not the entry point. */
  lemma AliasOverwrittenByFileNamedUrdf()
    ensures var entries := [File("model.urdf", "blob:a"), File("urdf", "blob:b")];
            Get(Fold(entries).files, UrdfKey) == Some("blob:b") && Fold(entries).urdfUrl == Some("blob:a")
  {
    var e1: ZipEntry := File("model.urdf", "blob:a");
    var e2: ZipEntry := File("urdf", "blob:b");
    var entries := [e1, e2];
    ExampleEntries();
    var first := Fold([e1]);
    FoldOne(e1);
    assert first.urdfUrl == Some("blob:a");
    assert entries[..1] == [e1];
    assert Fold(entries) == Absorb(first, e2);
    PutGet(first.files, UrdfKey, "blob:b", UrdfKey);
  }

  lemma ExampleEntries()
    ensures FileName("model.urdf") == "model.urdf" && IsDescriptionEntry(File("model.urdf", "blob:a"))
    ensures FileName("urdf") == "urdf" && !IsDescriptionEntry(File("urdf", "blob:b"))
  {
    AfterLastNoSeparator("model.urdf", '/');
    AfterLastNoSeparator("urdf", '/');
    assert "model.urdf" == "model" + ".urdf";
    EndsWithAppend("model", ".urdf");
    if IsDescription("urdf") {
      EndsWithLength("urdf", ".urdf");
    }
  }

  lemma FoldOne(e: ZipEntry)
    ensures Fold([e]) == Absorb(Ingest([], None), e)
  {
    assert [e][..0] == [];
  }

  /** The shape of a failed run: no load, no close, the alert in the middle. */
  lemma FailureTrace(message: string)
    ensures var effects := [SetProcessing(true), Alert(message), SetProcessing(false)];
            && (forall i :: !LoadsAt(effects, i))
            && (forall i :: 0 <= i < |effects| ==> effects[i] != CloseDialog)
  {
  }

  /** The shape of an import: one load, immediately followed by the close. */
  lemma ImportTrace(files: FileMap)
    ensures var effects := [SetProcessing(true), LoadFiles(files), CloseDialog, SetProcessing(false)];
            && LoadsAt(effects, 1)
            && (forall i :: LoadsAt(effects, i) <==> i == 1)
            && (forall i :: 0 <= i < |effects| && effects[i] == CloseDialog ==> i == 2)
  {
  }

  /** What the dialog asks of its surroundings, in order. */
  datatype Effect =
    | SetProcessing(on: bool)
    | LoadFiles(files: FileMap)
    | CloseDialog
    | Alert(message: string)

  const NoDescriptionAlert := "Error: No .urdf file found in the ZIP!"
  const UnzipAlert := "Failed to unzip file."

  /** The selection is a readable archive holding a description file. */
  predicate Imports(selected: Option<Archive>)
  {
    selected.Some? && selected.value.Archive? && LastDescriptionIndex(selected.value.entries).Some?
  }

  /** Effect `i` hands a file map to the application. */
  predicate LoadsAt(effects: seq<Effect>, i: int)
  {
    0 <= i < |effects| && effects[i].LoadFiles?
  }

  /**
   * `handleZipUpload`, given the first selected file (if any) as an
   * archive: nothing without a file; otherwise the processing flag is
   * raised first and lowered last, and the map is handed over, followed by
   * closing the dialog, exactly when the archive holds a description.
   */
  function ZipUpload(selected: Option<Archive>): (effects: seq<Effect>)
    ensures selected.None? <==> effects == []
    ensures selected.Some? ==> && |effects| >= 3
                               && effects[0] == SetProcessing(true)
                               && effects[|effects| - 1] == SetProcessing(false)
                               && forall i :: 0 < i < |effects| - 1 ==> !effects[i].SetProcessing?
    ensures (exists i :: LoadsAt(effects, i)) <==> Imports(selected)
    ensures forall i :: LoadsAt(effects, i) ==>
              && Imports(selected)
              && effects[i].files == Fold(selected.value.entries).files
              && i + 1 < |effects| && effects[i + 1] == CloseDialog
              && forall j :: LoadsAt(effects, j) ==> j == i
    ensures forall i :: 0 <= i < |effects| && effects[i] == CloseDialog ==> LoadsAt(effects, i - 1)
    ensures selected == Some(Corrupt) ==> Alert(UnzipAlert) in effects
    ensures selected.Some? && selected.value.Archive? && !Imports(selected) ==> Alert(NoDescriptionAlert) in effects
  {
    match selected
    case None => []
    case Some(Corrupt) =>
      FailureTrace(UnzipAlert);
      [SetProcessing(true), Alert(UnzipAlert), SetProcessing(false)]
    case Some(Archive(entries)) =>
      FoldEntryPoint(entries);
      var result := Fold(entries);
      if result.urdfUrl.None? then
        FailureTrace(NoDescriptionAlert);
        [SetProcessing(true), Alert(NoDescriptionAlert), SetProcessing(false)]
      else
        ImportTrace(result.files);
        [SetProcessing(true), LoadFiles(result.files), CloseDialog, SetProcessing(false)]
  }

  /**
   * `handleSimpleUpload`, given the object URL of the selected file (if
   * any): the application receives a map whose only key is `urdf`.
   */
  function SimpleUpload(selected: Option<BlobUrl>): (effects: seq<Effect>)
    ensures selected.None? <==> effects == []
    ensures selected.Some? ==> && |effects| == 2 && effects[0].LoadFiles? && effects[1] == CloseDialog
                               && Keys(effects[0].files) == {UrdfKey}
                               && Get(effects[0].files, UrdfKey) == Some(selected.value)
  {
    match selected
    case None => []
    case Some(url) =>
      var files := [Entry(UrdfKey, url)];
      assert Keys(files) == {UrdfKey} by {
        assert files[0].key == UrdfKey;
      }
      [LoadFiles(files), CloseDialog]
  }
}
