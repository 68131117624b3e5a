/**
  The archive side of the converter: the `ZipProcessor` state that records
  the markdown and image files found in an extracted archive, the choice of
  the main markdown file, the extracted-size limit, the image mapping and
  the reset in `cleanup`. The directory walk, the file reads and the MIME
  sniffing are inputs: the walk is a sequence of discovered paths, the
  reads and the sniffing are functions given by the caller.
*/
module ZipProcessing {
  import opened Outcomes
  import opened Text
  import opened Paths
  import opened FileHelpers
  import opened Config

  const ImageExtensions: set<string> := {".png", ".jpg", ".jpeg"}
  const MarkdownExtensions: set<string> := {".md", ".markdown"}

  const NoTempDirMessage: string := "No temporary directory available"
  const NoMarkdownMessage: string := "No markdown files found in ZIP archive"
  const NoMainMessage: string := "No main markdown file identified"
  const ReadFailedPrefix: string := "Failed to read markdown file: "
  const BadZipMessage: string := "Invalid ZIP file format"
  const ExtractFailedPrefix: string := "Failed to extract ZIP file: "

  // ---- _extract_zip: the size limit ----

  /**
    What `zipfile` makes of the uploaded bytes: not an archive at all, or an
    archive with the declared sizes of its entries and, when `extractall`
    raises, what it raised.
  */
  datatype Archive = Corrupt | Archive(entrySizes: seq<nat>, extractError: Option<ExtractFailure>)

  /**
    An error raised by `extractall`: a `zipfile.BadZipFile` about one member
    (a bad CRC, a bad header, a name that differs from the directory), or any
    other exception, by its text.
  */
  datatype ExtractFailure = BadZipMember | Raised(text: string)

  /** `sum(info.file_size for info in zip_ref.infolist())`. */
  function TotalSize(sizes: seq<nat>): (total: nat)
    ensures forall k :: 0 <= k < |sizes| ==> sizes[k] <= total
  {
    if sizes == [] then 0
    else
      var init := sizes[..|sizes| - 1];
      assert forall k :: 0 <= k < |init| ==> init[k] == sizes[k];
      TotalSize(init) + sizes[|sizes| - 1]
  }

  /**
    `_extract_zip`. The size error is raised inside the `try`, so the generic
    handler wraps it into "Failed to extract ZIP file: ..."; a `BadZipFile`,
    whether from opening the archive or from `extractall`, becomes
    "Invalid ZIP file format".
  */
  function ExtractZip(archive: Archive, settings: Settings): (r: Outcome<string>)
    ensures r == Pass <==> archive.Archive? && TotalSize(archive.entrySizes) <= settings.maxExtractedSize && archive.extractError == None
    ensures archive.Corrupt? ==> r == Fail(BadZipMessage)
    ensures archive.Archive? && TotalSize(archive.entrySizes) > settings.maxExtractedSize ==>
      r == Fail(ExtractFailedPrefix + "Extracted size " + IntToString(TotalSize(archive.entrySizes)) +
                " exceeds limit " + IntToString(settings.maxExtractedSize))
    ensures archive.Archive? && TotalSize(archive.entrySizes) <= settings.maxExtractedSize && archive.extractError == Some(BadZipMember) ==>
      r == Fail(BadZipMessage)
    ensures (archive.Archive? && TotalSize(archive.entrySizes) <= settings.maxExtractedSize &&
             archive.extractError.Some? && archive.extractError.value.Raised?) ==>
      r == Fail(ExtractFailedPrefix + archive.extractError.value.text)
  {
    match archive
    case Corrupt => Fail(BadZipMessage)
    case Archive(sizes, failure) =>
      var total := TotalSize(sizes);
      if total > settings.maxExtractedSize then
        Fail(ExtractFailedPrefix + "Extracted size " + IntToString(total) + " exceeds limit " + IntToString(settings.maxExtractedSize))
      else
        match failure
        case None => Pass
        case Some(BadZipMember) => Fail(BadZipMessage)
        case Some(Raised(text)) => Fail(ExtractFailedPrefix + text)
  }

  /** The total of the declared sizes grows with every entry. */
  lemma {:induction false} TotalSizeAppend(a: seq<nat>, b: seq<nat>)
    ensures TotalSize(a + b) == TotalSize(a) + TotalSize(b)
  {
    if b == [] {
      assert a + b == a;
    } else {
      TotalSizeAppend(a, b[..|b| - 1]);
      assert (a + b)[..|a + b| - 1] == a + b[..|b| - 1];
    }
  }

  /**
    The limit is inclusive: an archive whose declared sizes add up to exactly
    the limit is extracted, and dropping entries from an accepted archive
    keeps it accepted. With the defaults the limit is 209715200 bytes.
  */
  lemma ExtractLimitInclusive(sizes: seq<nat>, extra: seq<nat>, settings: Settings)
    requires TotalSize(sizes + extra) <= settings.maxExtractedSize
    ensures ExtractZip(Archive(sizes, None), settings) == Pass
    ensures TotalSize(sizes + extra) == settings.maxExtractedSize ==> ExtractZip(Archive(sizes + extra, None), settings) == Pass
    ensures Defaults.maxExtractedSize == 209715200
  {
    TotalSizeAppend(sizes, extra);
  }

  // ---- _find_files: classification and the main file ----

  /** What a discovered file is by its lower-cased suffix (`file_path.suffix.lower()`). */
  datatype Kind = MarkdownFile | ImageFile | Ignored

  function Classify(path: string): (k: Kind)
    ensures k != Ignored ==> 0 < LastIndexOf(Name(path), '.') < |Name(path)| - 1
    ensures k == MarkdownFile ==> Lower(Name(path)[LastIndexOf(Name(path), '.')..]) in MarkdownExtensions
    ensures k == ImageFile ==> Lower(Name(path)[LastIndexOf(Name(path), '.')..]) in ImageExtensions
  {
    var ext := GetFileExtension(path);
    if ext in MarkdownExtensions then MarkdownFile
    else if ext in ImageExtensions then ImageFile
    else Ignored
  }

  /** A last component `stem.x` is classified by `.x` without regard to case, whatever directory it is in. */
  lemma ClassifyOfName(dir: string, stem: string, x: string)
    requires stem != "" && x != "" && '/' !in stem && '/' !in x && '.' !in x
    ensures Classify(dir + "/" + (stem + "." + x)) ==
      if Lower("." + x) in MarkdownExtensions then MarkdownFile
      else if Lower("." + x) in ImageExtensions then ImageFile
      else Ignored
  {
    var n := stem + "." + x;
    GetFileExtensionOfName(stem, x);
    NoSlashJoined(stem, x);
    assert |n| >= 3;
    NameAfterSlash(dir, n);
    NameOfComponent(n);
  }

  /** `stem.x` has no '/' when neither part has one. */
  lemma NoSlashJoined(stem: string, x: string)
    requires '/' !in stem && '/' !in x
    ensures '/' !in stem + "." + x
  {
    var n := stem + "." + x;
    assert forall k :: 0 <= k < |n| ==> n[k] == (if k < |stem| then stem[k] else if k == |stem| then '.' else x[k - |stem| - 1]);
  }

  /** One path `walk` yields below the extraction root: its root-relative path and whether it is a regular file. */
  datatype Discovered = Discovered(relPath: string, isFile: bool)

  /** `temp_path / relative_path`. */
  function FullPath(root: string, rel: string): string {
    root + "/" + rel
  }

  /** The path a discovered entry has under the root. */
  function EntryPath(root: string, e: Discovered): string {
    FullPath(root, e.relPath)
  }

  predicate IsMarkdownPath(path: string) {
    Classify(path) == MarkdownFile
  }

  predicate IsImagePath(path: string) {
    Classify(path) == ImageFile
  }

  /** `file_path.name.lower() in ['main.md', 'readme.md']`. */
  predicate IsMainName(path: string)
    ensures IsMainName(path) ==> Classify(path) == MarkdownFile
  {
    MainNameSuffix(Name(path));
    Lower(Name(path)) == "main.md" || Lower(Name(path)) == "readme.md"
  }

  /** `main.md` and `readme.md`, in any case, have the suffix `.md`. */
  lemma MainNameSuffix(n: string)
    ensures Lower(n) == "main.md" || Lower(n) == "readme.md" ==>
      0 < LastIndexOf(n, '.') < |n| - 1 && Lower(n[LastIndexOf(n, '.')..]) == ".md"
  {
    if Lower(n) == "main.md" || Lower(n) == "readme.md" {
      var k := |n| - 3;
      var low := Lower(n);
      assert low[k] == '.' && low[k + 1] == 'm' && low[k + 2] == 'd';
      assert n[k] == '.' && n[k + 1] != '.' && n[k + 2] != '.';
      LastIndexOfAtLeast(n, '.', k);
      assert LastIndexOf(n, '.') == k;
      assert Lower(n[k..]) == low[k..];
    }
  }

  /** The full paths of the discovered regular files that `keep` selects, in discovery order. */
  function FilesWhere(keep: string -> bool, root: string, found: seq<Discovered>): seq<string> {
    if found == [] then []
    else
      var last := found[|found| - 1];
      FilesWhere(keep, root, found[..|found| - 1]) + (if last.isFile && keep(EntryPath(root, last)) then [EntryPath(root, last)] else [])
  }

  /** `images` with every discovered regular file that `keep` selects added under its relative path. */
  function FilesByRelPath(keep: string -> bool, images: map<string, string>, root: string, found: seq<Discovered>): map<string, string> {
    if found == [] then images
    else
      var last := found[|found| - 1];
      var before := FilesByRelPath(keep, images, root, found[..|found| - 1]);
      if last.isFile && keep(EntryPath(root, last)) then before[last.relPath := EntryPath(root, last)] else before
  }

  /** The full paths of the markdown files among the discovered entries, in discovery order. */
  function MarkdownFound(root: string, found: seq<Discovered>): seq<string> {
    FilesWhere(IsMarkdownPath, root, found)
  }

  /** `images` with every discovered image file added under its relative path. */
  function ImagesFound(images: map<string, string>, root: string, found: seq<Discovered>): map<string, string> {
    FilesByRelPath(IsImagePath, images, root, found)
  }

  /** The last path of a list that `wanted` selects, if any. */
  function LastWhere(wanted: string -> bool, paths: seq<string>): Option<string> {
    if paths == [] then None
    else if wanted(paths[|paths| - 1]) then Some(paths[|paths| - 1])
    else LastWhere(wanted, paths[..|paths| - 1])
  }

  /** The last main-named path of a list, if any. */
  function LastMain(paths: seq<string>): Option<string> {
    LastWhere(IsMainName, paths)
  }

  /** A selected file is one the walk found. */
  lemma {:induction false} FilesWhereFound(keep: string -> bool, root: string, found: seq<Discovered>, p: string)
    requires p in FilesWhere(keep, root, found)
    ensures exists j :: 0 <= j < |found| && found[j].isFile && keep(EntryPath(root, found[j])) && EntryPath(root, found[j]) == p
  {
    var init := found[..|found| - 1];
    if p in FilesWhere(keep, root, init) {
      FilesWhereFound(keep, root, init, p);
      var j :| 0 <= j < |init| && init[j].isFile && keep(EntryPath(root, init[j])) && EntryPath(root, init[j]) == p;
      assert found[j] == init[j];
    }
  }

  /** Every found file that `keep` selects is selected. */
  lemma {:induction false} FilesWhereKeeps(keep: string -> bool, root: string, found: seq<Discovered>, j: nat)
    requires j < |found| && found[j].isFile && keep(EntryPath(root, found[j]))
    ensures EntryPath(root, found[j]) in FilesWhere(keep, root, found)
  {
    var init := found[..|found| - 1];
    if j < |init| {
      assert found[j] == init[j];
      FilesWhereKeeps(keep, root, init, j);
    }
  }

  /** A path is a found markdown file exactly when some discovered regular file with a markdown suffix has it. */
  lemma MarkdownFoundMembership(root: string, found: seq<Discovered>, p: string)
    ensures p in MarkdownFound(root, found) <==>
      exists j :: 0 <= j < |found| && found[j].isFile && IsMarkdownPath(EntryPath(root, found[j])) && EntryPath(root, found[j]) == p
  {
    if p in MarkdownFound(root, found) {
      FilesWhereFound(IsMarkdownPath, root, found, p);
    }
    if exists j :: 0 <= j < |found| && found[j].isFile && IsMarkdownPath(EntryPath(root, found[j])) && EntryPath(root, found[j]) == p {
      var j :| 0 <= j < |found| && found[j].isFile && IsMarkdownPath(EntryPath(root, found[j])) && EntryPath(root, found[j]) == p;
      FilesWhereKeeps(IsMarkdownPath, root, found, j);
    }
  }

  /** Starting from no files, the keys are the relative paths of the selected files, each mapped to its full path. */
  lemma {:induction false} FilesByRelPathKeys(keep: string -> bool, root: string, found: seq<Discovered>, k: string)
    ensures k in FilesByRelPath(keep, map[], root, found) <==>
      exists j :: 0 <= j < |found| && found[j].isFile && keep(EntryPath(root, found[j])) && found[j].relPath == k
    ensures k in FilesByRelPath(keep, map[], root, found) ==> FilesByRelPath(keep, map[], root, found)[k] == FullPath(root, k)
  {
    if found != [] {
      var init := found[..|found| - 1];
      var last := found[|found| - 1];
      FilesByRelPathKeys(keep, root, init, k);
      if last.isFile && keep(EntryPath(root, last)) && last.relPath == k {
      } else {
        if exists j :: 0 <= j < |found| && found[j].isFile && keep(EntryPath(root, found[j])) && found[j].relPath == k {
          var j :| 0 <= j < |found| && found[j].isFile && keep(EntryPath(root, found[j])) && found[j].relPath == k;
          assert j < |init|;
          assert init[j] == found[j];
        }
        if k in FilesByRelPath(keep, map[], root, init) {
          var j :| 0 <= j < |init| && init[j].isFile && keep(EntryPath(root, init[j])) && init[j].relPath == k;
          assert found[j] == init[j];
        }
      }
    }
  }

  /**
    Starting from no images, the keys are exactly the relative paths of the
    discovered regular files with an image suffix, and each maps to its full path.
  */
  lemma ImagesFoundKeys(root: string, found: seq<Discovered>, k: string)
    ensures k in ImagesFound(map[], root, found) <==>
      exists j :: 0 <= j < |found| && found[j].isFile && IsImagePath(EntryPath(root, found[j])) && found[j].relPath == k
    ensures k in ImagesFound(map[], root, found) ==> ImagesFound(map[], root, found)[k] == FullPath(root, k)
  {
    FilesByRelPathKeys(IsImagePath, root, found, k);
  }

  /** No discovered file is both a markdown file and an image. */
  lemma FoundDisjoint(root: string, found: seq<Discovered>, k: string)
    requires k in ImagesFound(map[], root, found)
    ensures FullPath(root, k) !in MarkdownFound(root, found)
  {
    ImagesFoundKeys(root, found, k);
    MarkdownFoundMembership(root, found, FullPath(root, k));
  }

  /**
    The last selected path is an element of the list, selected, and
    followed by no other selected path; there is none exactly when no path
    of the list is selected.
  */
  lemma {:induction false} LastWhereChoice(wanted: string -> bool, paths: seq<string>)
    ensures LastWhere(wanted, paths) == None <==> forall j :: 0 <= j < |paths| ==> !wanted(paths[j])
    ensures LastWhere(wanted, paths).Some? ==>
      exists j :: 0 <= j < |paths| && paths[j] == LastWhere(wanted, paths).value &&
        wanted(paths[j]) && (forall l :: j < l < |paths| ==> !wanted(paths[l]))
  {
    if paths != [] && !wanted(paths[|paths| - 1]) {
      var init := paths[..|paths| - 1];
      LastWhereChoice(wanted, init);
      assert forall j :: 0 <= j < |init| ==> paths[j] == init[j];
    }
  }

  /**
    The main-named choice: the last main-named path of the list, followed
    by no other; none exactly when no path is main-named.
  */
  lemma LastMainChoice(paths: seq<string>)
    ensures LastMain(paths) == None <==> forall j :: 0 <= j < |paths| ==> !IsMainName(paths[j])
    ensures LastMain(paths).Some? ==>
      exists j :: 0 <= j < |paths| && paths[j] == LastMain(paths).value &&
        IsMainName(paths[j]) && (forall l :: j < l < |paths| ==> !IsMainName(paths[l]))
  {
    LastWhereChoice(IsMainName, paths);
  }

  /** The last main-named path is one of the paths. */
  lemma LastMainIn(paths: seq<string>)
    ensures LastMain(paths).Some? ==> LastMain(paths).value in paths
  {
    LastWhereChoice(IsMainName, paths);
  }

  /** What one discovered entry contributes. */
  lemma FoundOne(root: string, e: Discovered, images: map<string, string>)
    ensures MarkdownFound(root, [e]) == if e.isFile && IsMarkdownPath(EntryPath(root, e)) then [EntryPath(root, e)] else []
    ensures ImagesFound(images, root, [e]) ==
      if e.isFile && IsImagePath(EntryPath(root, e)) then images[e.relPath := EntryPath(root, e)] else images
    ensures LastMain(MarkdownFound(root, [e])) ==
      if e.isFile && IsMarkdownPath(EntryPath(root, e)) && IsMainName(EntryPath(root, e)) then Some(EntryPath(root, e)) else None
  {
    FilesWhereOne(IsMarkdownPath, root, e);
    LastWhereOne(IsMainName, EntryPath(root, e));
    FilesByRelPathOne(IsImagePath, images, root, e);
  }

  lemma FilesWhereOne(keep: string -> bool, root: string, e: Discovered)
    ensures FilesWhere(keep, root, [e]) == if e.isFile && keep(EntryPath(root, e)) then [EntryPath(root, e)] else []
  {
    assert [e][..0] == [];
  }

  lemma LastWhereOne(wanted: string -> bool, p: string)
    ensures LastWhere(wanted, [p]) == if wanted(p) then Some(p) else None
  {
    assert [p][..0] == [];
  }

  lemma FilesByRelPathOne(keep: string -> bool, images: map<string, string>, root: string, e: Discovered)
    ensures FilesByRelPath(keep, images, root, [e]) == if e.isFile && keep(EntryPath(root, e)) then images[e.relPath := EntryPath(root, e)] else images
  {
    assert [e][..0] == [];
  }

  /** A prefix one longer is the prefix followed by the next element. */
  lemma PrefixStep<T>(s: seq<T>, i: nat)
    requires i < |s|
    ensures s[..i + 1] == s[..i] + [s[i]]
  {
  }

  /** Selecting from a concatenation selects from each part. */
  lemma {:induction false} FilesWhereAppend(keep: string -> bool, root: string, a: seq<Discovered>, b: seq<Discovered>)
    ensures FilesWhere(keep, root, a + b) == FilesWhere(keep, root, a) + FilesWhere(keep, root, b)
  {
    if b == [] {
      assert a + b == a;
    } else {
      FilesWhereAppend(keep, root, a, b[..|b| - 1]);
      assert (a + b)[..|a + b| - 1] == a + b[..|b| - 1];
    }
  }

  /** Recording a concatenation records the first part, then the second. */
  lemma {:induction false} FilesByRelPathAppend(keep: string -> bool, images: map<string, string>, root: string, a: seq<Discovered>, b: seq<Discovered>)
    ensures FilesByRelPath(keep, images, root, a + b) == FilesByRelPath(keep, FilesByRelPath(keep, images, root, a), root, b)
  {
    if b == [] {
      assert a + b == a;
    } else {
      FilesByRelPathAppend(keep, images, root, a, b[..|b| - 1]);
      assert (a + b)[..|a + b| - 1] == a + b[..|b| - 1];
    }
  }

  /** The last selected path of a concatenation is the last one of the second part, if it has one. */
  lemma {:induction false} LastWhereAppend(wanted: string -> bool, a: seq<string>, b: seq<string>)
    ensures LastWhere(wanted, a + b) == if LastWhere(wanted, b).Some? then LastWhere(wanted, b) else LastWhere(wanted, a)
  {
    if b == [] {
      assert a + b == a;
    } else {
      assert (a + b)[..|a + b| - 1] == a + b[..|b| - 1];
      assert (a + b)[|a + b| - 1] == b[|b| - 1];
      if !wanted(b[|b| - 1]) {
        LastWhereAppend(wanted, a, b[..|b| - 1]);
      }
    }
  }

  /** `not self.temp_dir`: no directory, or the empty path. */
  predicate HasTempDir(tempDir: Option<string>) {
    tempDir.Some? && tempDir.value != ""
  }

  /** `_create_image_mapping` keeps an image when the sniffer says `image/...` and the file can be read. */
  predicate Accepted(path: string, detectMime: string -> Option<string>, canRead: string -> bool) {
    detectMime(path).Some? && StartsWith(detectMime(path).value, "image/") && canRead(path)
  }

  /** What the first read of the main file does: yields its text, fails to decode as UTF-8, or fails otherwise. */
  datatype ReadAttempt = Content(text: string) | DecodeError | ReadError(reason: string)

  class ZipProcessor {
    var tempDir: Option<string>
    var markdownFiles: seq<string>
    var imageFiles: map<string, string>
    var mainMarkdown: Option<string>

    /** The main markdown file, once chosen, is one of the markdown files. */
    predicate Valid()
      reads this
    {
      mainMarkdown.Some? ==> mainMarkdown.value in markdownFiles
    }

    /** `__init__`: nothing found yet. */
    constructor()
      ensures Valid()
      ensures tempDir == None && markdownFiles == [] && imageFiles == map[] && mainMarkdown == None
    {
      tempDir := None;
      markdownFiles := [];
      imageFiles := map[];
      mainMarkdown := None;
    }

    /** `self.temp_dir = tempfile.mkdtemp()`, with the new directory's path given. */
    method UseTempDir(dir: string)
      modifies this
      ensures tempDir == Some(dir)
      ensures markdownFiles == old(markdownFiles) && imageFiles == old(imageFiles) && mainMarkdown == old(mainMarkdown)
    {
      tempDir := Some(dir);
    }

    /**
      `_find_files` over the entries the recursive walk of the temporary
      directory yields. Markdown files are appended in that order, image
      files are recorded under their relative paths, the last main-named
      markdown file becomes the main one, and the first markdown file is the
      fallback.
    */
    method FindFiles(found: seq<Discovered>) returns (outcome: Outcome<string>)
      modifies this
      ensures tempDir == old(tempDir)
      ensures !HasTempDir(old(tempDir)) ==>
        outcome == Fail(NoTempDirMessage) && markdownFiles == old(markdownFiles) &&
        imageFiles == old(imageFiles) && mainMarkdown == old(mainMarkdown)
      ensures HasTempDir(old(tempDir)) ==>
        var root := old(tempDir).value;
        var md := MarkdownFound(root, found);
        var picked := if LastMain(md).Some? then LastMain(md) else old(mainMarkdown);
        markdownFiles == old(markdownFiles) + md &&
        imageFiles == ImagesFound(old(imageFiles), root, found) &&
        (markdownFiles == [] ==> outcome == Fail(NoMarkdownMessage) && mainMarkdown == picked) &&
        (markdownFiles != [] ==> outcome == Pass && mainMarkdown == if picked.Some? then picked else Some(markdownFiles[0]))
      ensures old(Valid()) ==> Valid()
      ensures outcome == Pass ==> mainMarkdown.Some?
    {
      if !HasTempDir(tempDir) {
        return Fail(NoTempDirMessage);
      }
      var root := tempDir.value;
      RecordAll(root, found);
      LastMainIn(MarkdownFound(root, found));
      if markdownFiles == [] {
        return Fail(NoMarkdownMessage);
      }
      if mainMarkdown == None {
        mainMarkdown := Some(markdownFiles[0]);
      }
      return Pass;
    }

    /** The walk of `_find_files`: records every discovered entry in turn. */
    method RecordAll(root: string, found: seq<Discovered>)
      modifies this
      ensures tempDir == old(tempDir)
      ensures markdownFiles == old(markdownFiles) + MarkdownFound(root, found)
      ensures imageFiles == ImagesFound(old(imageFiles), root, found)
      ensures mainMarkdown == if LastMain(MarkdownFound(root, found)).Some? then LastMain(MarkdownFound(root, found)) else old(mainMarkdown)
    {
      for i := 0 to |found|
        invariant tempDir == old(tempDir)
        invariant markdownFiles == old(markdownFiles) + MarkdownFound(root, found[..i])
        invariant imageFiles == ImagesFound(old(imageFiles), root, found[..i])
        invariant mainMarkdown == if LastMain(MarkdownFound(root, found[..i])).Some? then LastMain(MarkdownFound(root, found[..i])) else old(mainMarkdown)
      {
        PrefixStep(found, i);
        FilesWhereAppend(IsMarkdownPath, root, found[..i], [found[i]]);
        FilesByRelPathAppend(IsImagePath, old(imageFiles), root, found[..i], [found[i]]);
        LastWhereAppend(IsMainName, MarkdownFound(root, found[..i]), MarkdownFound(root, [found[i]]));
        FoundOne(root, found[i], imageFiles);
        RecordFound(root, found[i]);
      }
      assert found[..|found|] == found;
    }

    /** One step of the walk in `_find_files`: records one discovered entry. */
    method RecordFound(root: string, e: Discovered)
      modifies this
      ensures tempDir == old(tempDir)
      ensures var path := EntryPath(root, e);
        markdownFiles == old(markdownFiles) + (if e.isFile && IsMarkdownPath(path) then [path] else []) &&
        imageFiles == (if e.isFile && IsImagePath(path) then old(imageFiles)[e.relPath := path] else old(imageFiles)) &&
        mainMarkdown == (if e.isFile && IsMarkdownPath(path) && IsMainName(path) then Some(path) else old(mainMarkdown))
    {
      if e.isFile {
        var path := EntryPath(root, e);
        var kind := Classify(path);
        if kind == MarkdownFile {
          markdownFiles := markdownFiles + [path];
          if IsMainName(path) {
            mainMarkdown := Some(path);
          }
        } else if kind == ImageFile {
          imageFiles := imageFiles[e.relPath := path];
        }
      }
    }

    /**
      `_read_main_markdown`: the text of the main markdown file, read as
      UTF-8 and, when that does not decode, as Latin-1.
    */
    method ReadMainMarkdown(readUtf8: string -> ReadAttempt, readLatin1: string -> Result<string, string>)
      returns (r: Result<string, string>)
      ensures mainMarkdown == None ==> r == Err(NoMainMessage)
      ensures mainMarkdown.Some? && readUtf8(mainMarkdown.value).Content? ==> r == Ok(readUtf8(mainMarkdown.value).text)
      ensures mainMarkdown.Some? && readUtf8(mainMarkdown.value).ReadError? ==>
        r == Err(ReadFailedPrefix + readUtf8(mainMarkdown.value).reason)
      ensures mainMarkdown.Some? && readUtf8(mainMarkdown.value).DecodeError? ==>
        r == match readLatin1(mainMarkdown.value)
             case Ok(text) => Ok(text)
             case Err(reason) => Err(ReadFailedPrefix + reason)
    {
      if mainMarkdown == None {
        return Err(NoMainMessage);
      }
      var path := mainMarkdown.value;
      match readUtf8(path)
      case Content(text) =>
        r := Ok(text);
      case ReadError(reason) =>
        r := Err(ReadFailedPrefix + reason);
      case DecodeError =>
        match readLatin1(path)
        case Ok(text) =>
          r := Ok(text);
        case Err(reason) =>
          r := Err(ReadFailedPrefix + reason);
    }

    /**
      `_create_image_mapping`: of the recorded images, keeps exactly those
      the sniffer calls `image/...` and that can be read, each mapped to its
      full path; a failed sniff or read skips the image.
    */
    method CreateImageMapping(detectMime: string -> Option<string>, canRead: string -> bool)
      returns (mapping: map<string, string>)
      ensures forall k :: k in mapping <==> k in imageFiles && Accepted(imageFiles[k], detectMime, canRead)
      ensures forall k :: k in mapping ==> mapping[k] == imageFiles[k]
    {
      mapping := map[];
      var rest := imageFiles.Keys;
      while rest != {}
        invariant rest <= imageFiles.Keys
        invariant forall k :: k in mapping <==> k in imageFiles && k !in rest && Accepted(imageFiles[k], detectMime, canRead)
        invariant forall k :: k in mapping ==> mapping[k] == imageFiles[k]
        decreases |rest|
      {
        var key :| key in rest;
        var path := imageFiles[key];
        var mime := detectMime(path);
        if mime.Some? && StartsWith(mime.value, "image/") && canRead(path) {
          mapping := mapping[key := path];
        }
        rest := rest - {key};
      }
    }

    /** `cleanup`: forgets the directory and everything found in it. */
    method Cleanup()
      modifies this
      ensures tempDir == None && markdownFiles == [] && imageFiles == map[] && mainMarkdown == None
      ensures Valid()
    {
      tempDir := None;
      markdownFiles := [];
      imageFiles := map[];
      mainMarkdown := None;
    }
  }

  /** Cleaning up twice leaves the processor as cleaning up once does. */
  method CleanupTwice(p: ZipProcessor)
    modifies p
    ensures p.tempDir == None && p.markdownFiles == [] && p.imageFiles == map[] && p.mainMarkdown == None
  {
    p.Cleanup();
    ghost var once := (p.tempDir, p.markdownFiles, p.imageFiles, p.mainMarkdown);
    p.Cleanup();
    assert (p.tempDir, p.markdownFiles, p.imageFiles, p.mainMarkdown) == once;
  }

  /**
    A fresh processor that finds files in a set directory ends with the
    main file chosen as the source chooses it: the last main-named markdown
    file, otherwise the first markdown file.
  */
  method FindFilesFresh(dir: string, found: seq<Discovered>) returns (p: ZipProcessor, outcome: Outcome<string>)
    requires dir != ""
    ensures outcome == Pass <==> MarkdownFound(dir, found) != []
    ensures outcome != Pass ==> outcome == Fail(NoMarkdownMessage)
    ensures p.markdownFiles == MarkdownFound(dir, found) && p.imageFiles == ImagesFound(map[], dir, found)
    ensures outcome == Pass ==> p.mainMarkdown == Some(ChooseMain(MarkdownFound(dir, found))) && p.Valid()
  {
    p := new ZipProcessor();
    p.UseTempDir(dir);
    outcome := p.FindFiles(found);
  }

  /** The main-file rule on a non-empty list of markdown files. */
  function ChooseMain(paths: seq<string>): (main: string)
    requires paths != []
    ensures main in paths
    ensures (exists j :: 0 <= j < |paths| && IsMainName(paths[j])) ==>
      IsMainName(main) && exists j :: 0 <= j < |paths| && paths[j] == main && forall l :: j < l < |paths| ==> !IsMainName(paths[l])
    ensures (forall j :: 0 <= j < |paths| ==> !IsMainName(paths[j])) ==> main == paths[0]
  {
    LastMainChoice(paths);
    if LastMain(paths).Some? then LastMain(paths).value else paths[0]
  }
}
