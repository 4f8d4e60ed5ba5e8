/** The upload helpers of core/imageworker.py: the file-type check, the name
    and path a stored upload gets, and the guarded removal of an old file.
    The file system is a set of paths, and the uuid is an argument. */
module ImageWorker {
  import opened Wrappers

  /** An `HTTPException` with its status code and detail. */
  datatype HttpError = HttpError(status: int, detail: string)

  const InvalidFileType: HttpError := HttpError(400, "Invalid file type")
  const AllowedExtensions: seq<string> := ["png", "jpg", "jpeg"]

  function LowerChar(c: char): char {
    if 'A' <= c <= 'Z' then (c as int - 'A' as int + 'a' as int) as char else c
  }

  /** `str.lower()` on ASCII letters. */
  function Lower(s: string): (r: string)
    ensures |r| == |s| && forall i :: 0 <= i < |s| ==> r[i] == LowerChar(s[i])
  {
    if s == [] then [] else Lower(s[..|s| - 1]) + [LowerChar(s[|s| - 1])]
  }

  /** Where the last part of `s.split('.')` starts: just after the last dot,
      or 0 when `s` has none. */
  function LastPartStart(s: string): (k: nat)
    ensures k <= |s|
    ensures 0 < k ==> s[k - 1] == '.'
  {
    if s == [] then 0
    else if s[|s| - 1] == '.' then |s|
    else LastPartStart(s[..|s| - 1])
  }

  /** `s.split('.')[-1]`: what follows the last dot, or all of `s` when it
      has none. */
  function AfterLastDot(s: string): string {
    s[LastPartStart(s)..]
  }

  /** What `AfterLastDot` keeps holds no dot. */
  lemma {:induction false} AfterLastDotHasNoDot(s: string)
    ensures forall i | LastPartStart(s) <= i < |s| :: s[i] != '.'
  {
    if s != [] && s[|s| - 1] != '.' {
      var init := s[..|s| - 1];
      AfterLastDotHasNoDot(init);
      forall i | LastPartStart(s) <= i < |s| - 1 ensures s[i] != '.' {
        assert s[i] == init[i];
      }
    }
  }

  /** The extension as `upload_image` computes it. */
  function Extension(filename: string): string {
    Lower(AfterLastDot(filename))
  }

  /** The file a successful upload produces, under the key `image`. */
  datatype Upload = Upload(image: string)

  /** `upload_image`: rejects any extension but png, jpg and jpeg before
      writing anything; otherwise the file is stored as `<uuid>.<ext>` in
      `dir`, and its path is returned. */
  function UploadImage(filename: string, dir: string, uuid: string): (r: Result<Upload, HttpError>)
    ensures r.Failure? <==> Extension(filename) !in AllowedExtensions
    ensures r.Failure? ==> r.error == InvalidFileType
    ensures r.Success? ==> r.value.image == dir + "/" + uuid + "." + Extension(filename)
  {
    var ext := Extension(filename);
    if ext !in AllowedExtensions then Failure(InvalidFileType)
    else Success(Upload(dir + "/" + uuid + "." + ext))
  }

  /** When the last dot of `s` is at `i`, the extension is what follows it. */
  lemma AfterDotAt(s: string, i: nat)
    requires i < |s| && s[i] == '.' && forall j | i < j < |s| :: s[j] != '.'
    ensures AfterLastDot(s) == s[i + 1..]
  {
    AfterLastDotHasNoDot(s);
  }

  /** A name with no dot at all is checked whole. */
  lemma UndottedNameCheckedWhole(filename: string)
    requires forall i | 0 <= i < |filename| :: filename[i] != '.'
    ensures Extension(filename) == Lower(filename)
  {
    AfterLastDotHasNoDot(filename);
  }

  /** The last part of a name joined to a dotless suffix by a dot starts
      just after that dot. */
  lemma {:induction false} AfterJoiningDot(name: string, ext: string)
    requires forall i | 0 <= i < |ext| :: ext[i] != '.'
    ensures LastPartStart(name + "." + ext) == |name| + 1
    ensures AfterLastDot(name + "." + ext) == ext
    decreases |ext|
  {
    var s := name + "." + ext;
    if ext == [] {
      assert s[|s| - 1] == '.';
    } else {
      var init := ext[..|ext| - 1];
      assert s[..|s| - 1] == name + "." + init;
      AfterJoiningDot(name, init);
    }
    assert s[|name| + 1..] == ext;
  }

  /** Only the text after the last dot counts, whatever comes before it. */
  lemma ExtensionIsLastPart(name: string, ext: string)
    requires forall i | 0 <= i < |ext| :: ext[i] != '.'
    ensures Extension(name + "." + ext) == Lower(ext)
  {
    AfterJoiningDot(name, ext);
  }

  /** Only the part after the last dot decides, and it decides without
      regard to case: `x.PNG` is stored as `png`, `x.png.exe` is refused. */
  lemma UploadJudgedByLastPart(name: string, ext: string, dir: string, uuid: string)
    requires forall i | 0 <= i < |ext| :: ext[i] != '.'
    ensures UploadImage(name + "." + ext, dir, uuid).Success? <==> Lower(ext) in AllowedExtensions
    ensures UploadImage(name + "." + ext, dir, uuid).Success? ==>
      UploadImage(name + "." + ext, dir, uuid).value.image == dir + "/" + uuid + "." + Lower(ext)
  {
    ExtensionIsLastPart(name, ext);
  }

  /** `remove_file_if_exists`: with a non-empty path that names an existing
      file, the file is removed, unless the removal itself fails, which is
      reported and swallowed. It never raises. */
  function RemoveFileIfExists(files: set<string>, path: string, removalFails: bool): (after: set<string>)
    ensures after <= files
    ensures path == "" || path !in files || removalFails ==> after == files
    ensures path != "" && path in files && !removalFails ==> after == files - {path}
  {
    if path != "" && path in files && !removalFails then files - {path} else files
  }

  /** The old file that both services remove before they store a new image
      path: the old path, when it is set, not empty, and not the new one. */
  function Superseded(current: Option<string>, path: string): (r: Option<string>)
    ensures r.Some? <==> current.Some? && current.value != "" && current.value != path
    ensures r.Some? ==> r == current
  {
    if current.Some? && current.value != "" && current.value != path then current else None
  }

  /** The files after the current image gives way to `path`. */
  function AfterReplacing(files: set<string>, current: Option<string>, path: string, removalFails: bool): set<string> {
    match Superseded(current, path)
    case None => files
    case Some(p) => RemoveFileIfExists(files, p, removalFails)
  }

  /** Replacing an image never deletes the file the row now points at, and
      deletes the current file exactly when it is set, differs from the new path,
      exists, and its removal does not fail; no other file is touched. */
  lemma ReplacingKeepsNewImage(files: set<string>, current: Option<string>, path: string, removalFails: bool)
    ensures var after := AfterReplacing(files, current, path, removalFails);
      && (path in files ==> path in after)
      && after <= files
      && (forall f :: f in files && Some(f) != current ==> f in after)
      && (current.Some? && current.value in files ==>
            (current.value !in after <==> current.value != "" && current.value != path && !removalFails))
  {
  }
}
