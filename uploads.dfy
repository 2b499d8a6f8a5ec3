/**
 * Upload acceptance in the `create` route: which uploaded files pass the
 * per-file checks of its loop, and which of them reach the upload folder.
 */
module Uploads {
  import opened Wrappers
  import opened FileExt

  /** `ALLOWED_EXTENSIONS`. */
  const AllowedExtensions: set<string> := {"mp4", "txt", "png", "jpg", "jpeg", "gif"}

  /** One entry of `request.files.items()`: the form field name and the client's file name. */
  datatype FileField = FileField(key: string, filename: string)

  /** Why the loop stops at a file. */
  datatype Rejection =
    | EmptyFilename         // `not file.filename`
    | NoExtension           // `get_file_ext` fails: the sanitised name has no '.'
    | DisallowedExtension   // the extension is not in AllowedExtensions

  /** Outcome of the loop over all uploaded files. */
  datatype Scan = AllAccepted | RejectedAt(index: nat, reason: Rejection)

  /**
   * The check the loop body applies to one file; on success the name
   * (after `secure_filename`, here `sanitize`) under which it is saved.
   */
  function CheckFile(f: FileField, sanitize: string -> string): (r: Result<string, Rejection>)
    ensures r == Err(EmptyFilename) <==> f.filename == ""
    ensures r.Ok? ==> r.value == sanitize(f.filename)
  {
    if f.filename == "" then Err(EmptyFilename)
    else
      var name := sanitize(f.filename);
      match GetFileExt(name)
      case None => Err(NoExtension)
      case Some(ext) => if ext in AllowedExtensions then Ok(name) else Err(DisallowedExtension)
  }

  /**
   * A file passes exactly when its name is non-empty and its sanitised name
   * carries an allowed extension, and is refused for a missing extension
   * exactly when its sanitised name has no '.'.
   */
  lemma CheckFileMeaning(f: FileField, sanitize: string -> string)
    ensures CheckFile(f, sanitize).Ok? <==>
      f.filename != "" && GetFileExt(sanitize(f.filename)).Some? &&
      GetFileExt(sanitize(f.filename)).value in AllowedExtensions
    ensures CheckFile(f, sanitize) == Err(NoExtension) <==> f.filename != "" && '.' !in sanitize(f.filename)
  {
  }

  /** The loop's verdict: every file accepted, or the first file it stops at and why. */
  function ScanFiles(files: seq<FileField>, sanitize: string -> string): (v: Scan)
    ensures v.AllAccepted? <==> forall i :: 0 <= i < |files| ==> CheckFile(files[i], sanitize).Ok?
    ensures v.RejectedAt? ==>
      v.index < |files| && CheckFile(files[v.index], sanitize) == Err(v.reason) &&
      forall j :: 0 <= j < v.index ==> CheckFile(files[j], sanitize).Ok?
  {
    if files == [] then AllAccepted
    else match CheckFile(files[0], sanitize)
      case Err(reason) => RejectedAt(0, reason)
      case Ok(_) =>
        match ScanFiles(files[1..], sanitize)
        case AllAccepted => AllAccepted
        case RejectedAt(k, reason) => RejectedAt(k + 1, reason)
  }

  /** The sanitised names of `files`, in order. */
  function SavedNames(files: seq<FileField>, sanitize: string -> string): seq<string> {
    if files == [] then []
    else SavedNames(files[..|files| - 1], sanitize) + [sanitize(files[|files| - 1].filename)]
  }

  /** One saved name per file, in order: file i is saved under its sanitised name. */
  lemma {:induction false} SavedNamesAt(files: seq<FileField>, sanitize: string -> string)
    ensures |SavedNames(files, sanitize)| == |files|
    ensures forall i :: 0 <= i < |files| ==> SavedNames(files, sanitize)[i] == sanitize(files[i].filename)
  {
    if files != [] {
      SavedNamesAt(files[..|files| - 1], sanitize);
    }
  }

  /** Saving one more file appends its sanitised name. */
  lemma SavedNamesSnoc(files: seq<FileField>, sanitize: string -> string, i: nat)
    requires i < |files|
    ensures SavedNames(files[..i + 1], sanitize) == SavedNames(files[..i], sanitize) + [sanitize(files[i].filename)]
  {
    assert files[..i + 1][..i] == files[..i];
  }

  /** How many files the loop saves before it stops (it saves each file right after checking it). */
  function SavedCount(files: seq<FileField>, sanitize: string -> string): (n: nat)
    ensures n <= |files|
    ensures forall j :: 0 <= j < n ==> CheckFile(files[j], sanitize).Ok?
    ensures n < |files| ==> CheckFile(files[n], sanitize).Err?
  {
    match ScanFiles(files, sanitize)
    case AllAccepted => |files|
    case RejectedAt(k, _) => k
  }

  /** The loop stops at the first file that fails its check, having saved the files before it. */
  lemma {:induction false} ScanStopsAt(files: seq<FileField>, sanitize: string -> string, i: nat)
    requires i < |files| && CheckFile(files[i], sanitize).Err?
    requires forall j :: 0 <= j < i ==> CheckFile(files[j], sanitize).Ok?
    ensures ScanFiles(files, sanitize) == RejectedAt(i, CheckFile(files[i], sanitize).error)
    ensures SavedCount(files, sanitize) == i
  {
    if i > 0 {
      var rest := files[1..];
      assert CheckFile(files[0], sanitize).Ok?;
      assert forall j :: 0 <= j < i - 1 ==> rest[j] == files[j + 1];
      ScanStopsAt(rest, sanitize, i - 1);
    }
  }

  /** `'video' in request.files`. */
  predicate HasField(files: seq<FileField>, key: string) {
    exists i :: 0 <= i < |files| && files[i].key == key
  }

  /** `request.files.keys()`: the field names of the upload. */
  function Keys(files: seq<FileField>): set<string> {
    if files == [] then {} else {files[0].key} + Keys(files[1..])
  }

  /** A field is present exactly when its name is one of the upload's keys. */
  lemma {:induction false} HasFieldIffKeyPresent(files: seq<FileField>, key: string)
    ensures HasField(files, key) <==> key in Keys(files)
  {
    if files != [] {
      HasFieldIffKeyPresent(files[1..], key);
      if HasField(files, key) && files[0].key != key {
        var i :| 0 <= i < |files| && files[i].key == key;
        assert files[1..][i - 1].key == key;
      }
      if HasField(files[1..], key) {
        var i :| 0 <= i < |files| - 1 && files[1..][i].key == key;
        assert files[i + 1].key == key;
      }
    }
  }

  /** `request.files[key].filename`: the file name of the first entry for `key`. */
  function FilenameOf(files: seq<FileField>, key: string): (name: string)
    requires HasField(files, key)
    ensures exists i ::
              && 0 <= i < |files| && files[i].key == key && name == files[i].filename
              && forall j :: 0 <= j < i ==> files[j].key != key
  {
    if files[0].key == key then files[0].filename
    else
      assert HasField(files[1..], key) by {
        var i :| 0 <= i < |files| && files[i].key == key;
        assert files[1..][i - 1].key == key;
      }
      var name := FilenameOf(files[1..], key);
      ghost var i :| 0 <= i < |files| - 1 && files[1..][i].key == key && name == files[1..][i].filename &&
        forall j :: 0 <= j < i ==> files[1..][j].key != key;
      assert files[i + 1].key == key;
      name
  }

  /**
   * The loop accepts the upload exactly when every file, not only the video
   * and the thumbnail, has a non-empty name whose sanitised form carries an
   * allowed extension.
   */
  lemma AcceptedIffAllFilesAllowed(files: seq<FileField>, sanitize: string -> string)
    ensures ScanFiles(files, sanitize).AllAccepted? <==>
      forall i :: 0 <= i < |files| ==>
        files[i].filename != "" && GetFileExt(sanitize(files[i].filename)).Some? &&
        GetFileExt(sanitize(files[i].filename)).value in AllowedExtensions
  {
    forall i | 0 <= i < |files|
      ensures CheckFile(files[i], sanitize).Ok? <==>
        files[i].filename != "" && GetFileExt(sanitize(files[i].filename)).Some? &&
        GetFileExt(sanitize(files[i].filename)).value in AllowedExtensions
    {
      CheckFileMeaning(files[i], sanitize);
    }
  }

  /** A file whose sanitised name ends in '.' has the empty extension and is refused. */
  lemma TrailingDotRejected(f: FileField, sanitize: string -> string, base: string)
    requires f.filename != "" && sanitize(f.filename) == base + "."
    ensures CheckFile(f, sanitize) == Err(DisallowedExtension)
  {
    TrailingDotGivesEmpty(base);
    assert "" !in AllowedExtensions;
  }
}
