/** The `/rank` route of backend/app.py up to the hand-off to `rank_resumes`: reject an empty upload,
    keep the files whose lower-cased extension is allowed, save them and warn about the ones without
    text, and reject the request when nothing was kept. */
module UploadValidation {
  import opened Text
  import Seqs
  import opened TfidfRanking

  const UPLOAD_FOLDER: string := "resumes"
  const ALLOWED_EXTENSIONS: set<string> := {".pdf", ".txt"}
  const NO_FILES: string := "No files provided"
  const NO_VALID_RESUMES: string := "No valid resumes uploaded"

  /** One uploaded file: the client's file name and the contents that saving it stores. */
  datatype Upload = Upload(filename: string, file: StoredFile)

  /** The route's answer up to the ranking step: a 400 error with its message, or the list of saved
      paths together with the saved paths whose text is blank (those are only logged). */
  datatype Response = Rejected(status: int, error: string) | Accepted(saved: seq<string>, blank: seq<string>)

  /** The extension test of lines 65-68. */
  predicate AllowedName(filename: string)
  {
    Lower(Extension(filename)) in ALLOWED_EXTENSIONS
  }

  /** The test applied to an upload, after `secure` (werkzeug's `secure_filename`) cleans its name. */
  function AllowedUpload(secure: string -> string): Upload -> bool
  {
    (u: Upload) => AllowedName(secure(u.filename))
  }

  function SavePath(u: Upload, secure: string -> string): string
  {
    JoinPath(UPLOAD_FOLDER, secure(u.filename))
  }

  /** The paths the loop saves, in upload order. */
  function SavedPaths(files: seq<Upload>, secure: string -> string): seq<string>
  {
    if files == [] then []
    else
      var u := files[|files| - 1];
      SavedPaths(files[..|files| - 1], secure) + (if AllowedUpload(secure)(u) then [SavePath(u, secure)] else [])
  }

  /** The saved paths whose extracted text is blank, in upload order. */
  function BlankPaths(files: seq<Upload>, secure: string -> string): seq<string>
  {
    if files == [] then []
    else
      var u := files[|files| - 1];
      var p := SavePath(u, secure);
      BlankPaths(files[..|files| - 1], secure)
        + (if AllowedUpload(secure)(u) && IsBlank(ExtractedText(p, u.file)) then [p] else [])
  }

  /** Lines 56-86: the two 400 errors and the filtering loop. */
  method Rank(files: seq<Upload>, secure: string -> string) returns (resp: Response)
    ensures resp == Rejected(400, NO_FILES) <==> files == []
    ensures resp == Rejected(400, NO_VALID_RESUMES) <==> files != [] && SavedPaths(files, secure) == []
    ensures resp.Accepted? ==> resp.saved == SavedPaths(files, secure) && resp.blank == BlankPaths(files, secure)
    ensures files != [] && SavedPaths(files, secure) != [] ==>
      resp == Accepted(SavedPaths(files, secure), BlankPaths(files, secure))
  {
    if files == [] {
      return Rejected(400, NO_FILES);
    }
    var saved: seq<string> := [];
    var blank: seq<string> := [];
    for i := 0 to |files|
      invariant saved == SavedPaths(files[..i], secure)
      invariant blank == BlankPaths(files[..i], secure)
    {
      assert files[..i + 1][..i] == files[..i];
      var filename := secure(files[i].filename);
      var ext := Lower(Extension(filename));
      if ext !in ALLOWED_EXTENSIONS {
        continue;
      }
      var savePath := JoinPath(UPLOAD_FOLDER, filename);
      var extractedText := ExtractText(savePath, files[i].file);
      if IsBlank(extractedText) {
        blank := blank + [savePath];
      }
      saved := saved + [savePath];
    }
    assert files[..|files|] == files;
    if saved == [] {
      return Rejected(400, NO_VALID_RESUMES);
    }
    return Accepted(saved, blank);
  }

  /** One saved path per allowed upload, in upload order: the saved paths are the save paths of the
      kept uploads, and the kept uploads are a subsequence of the uploads. */
  lemma {:induction false} SavedPathsAccounting(files: seq<Upload>, secure: string -> string)
    ensures var kept := Seqs.Filter(files, AllowedUpload(secure));
      var saved := SavedPaths(files, secure);
      && |saved| == |kept|
      && (forall i :: 0 <= i < |kept| ==> saved[i] == SavePath(kept[i], secure))
      && Seqs.IsSubsequence(kept, files)
  {
    Seqs.FilterIsSubsequence(files, AllowedUpload(secure));
    if files != [] {
      var init, u := files[..|files| - 1], files[|files| - 1];
      SavedPathsAccounting(init, secure);
      var k0 := Seqs.Filter(init, AllowedUpload(secure));
      var s0 := SavedPaths(init, secure);
      if AllowedUpload(secure)(u) {
        assert Seqs.Filter(files, AllowedUpload(secure)) == k0 + [u];
        assert SavedPaths(files, secure) == s0 + [SavePath(u, secure)];
      } else {
        assert Seqs.Filter(files, AllowedUpload(secure)) == k0 + [];
        assert SavedPaths(files, secure) == s0 + [];
      }
    }
  }

  /** The second 400 error fires exactly when no upload has an allowed extension. */
  lemma NothingSavedIff(files: seq<Upload>, secure: string -> string)
    ensures SavedPaths(files, secure) == [] <==> forall i :: 0 <= i < |files| ==> !AllowedName(secure(files[i].filename))
  {
    SavedPathsAccounting(files, secure);
    Seqs.FilterEmptyIff(files, AllowedUpload(secure));
  }

  /** An upload with an allowed extension is saved, whatever its text: a blank text does not drop it. */
  lemma AllowedUploadSaved(files: seq<Upload>, secure: string -> string, j: int)
    requires 0 <= j < |files| && AllowedName(secure(files[j].filename))
    ensures SavePath(files[j], secure) in SavedPaths(files, secure)
  {
    var kept := Seqs.Filter(files, AllowedUpload(secure));
    Seqs.FilterKeepsQualifying(files, AllowedUpload(secure), j);
    var i :| 0 <= i < |kept| && kept[i] == files[j];
    SavedPathsAccounting(files, secure);
  }

  /** Every path warned about for having no text is among the saved paths. */
  lemma {:induction false} BlankPathsSaved(files: seq<Upload>, secure: string -> string)
    ensures forall p :: p in BlankPaths(files, secure) ==> p in SavedPaths(files, secure)
  {
    if files != [] {
      BlankPathsSaved(files[..|files| - 1], secure);
    }
  }

  /** Lower-casing commutes with taking a suffix. */
  lemma LowerEndsWith(s: string, t: string)
    requires EndsWith(s, t)
    ensures EndsWith(Lower(s), Lower(t))
  {
    assert Lower(s)[|s| - |t|..] == Lower(t);
  }

  /** Every file the upload filter keeps also passes the name filter of `rank_resumes`. */
  lemma UploadFilterImpliesRankFilter(filename: string)
    requires AllowedName(filename)
    ensures Qualifies(filename)
  {
    var ext := Extension(filename);
    ExtensionShape(filename);
    LowerEndsWith(filename, ext);
  }

  /** The converse holds for a name without a directory part that has a character other than a dot
      before its suffix: its extension is then exactly the matched suffix. */
  lemma RankFilterImpliesUploadFilter(filename: string)
    requires Qualifies(filename) && '/' !in filename
    requires exists k :: 0 <= k < |filename| - 4 && filename[k] != '.'
    ensures AllowedName(filename)
  {
    var n := |filename|;
    var low := Lower(filename);
    assert low[n - 4] == '.' && low[n - 3] != '.' && low[n - 2] != '.' && low[n - 1] != '.';
    assert filename[n - 4] == '.' && filename[n - 3] != '.' && filename[n - 2] != '.' && filename[n - 1] != '.';
    assert LastIndexOf(filename, '.') == n - 4;
    assert LastIndexOf(filename, '/') == -1;
    assert Extension(filename) == filename[n - 4..];
    assert Lower(filename[n - 4..]) == low[n - 4..];
  }

  /** Without the non-dot character the two filters disagree: ".pdf" passes the name filter of
      `rank_resumes`, but its extension is empty, so the upload filter rejects it. */
  lemma BareSuffixRejectedAtUpload()
    ensures Qualifies(".pdf") && !AllowedName(".pdf")
  {
    var name := ".pdf";
    assert name[0] == '.' && forall j :: 0 < j < |name| ==> name[j] != '.';
    assert LastIndexOf(name, '.') == 0;
    assert Extension(".pdf") == "";
    assert EndsWith(Lower(".pdf"), ".pdf");
  }
}
