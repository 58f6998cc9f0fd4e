/**
 * The upload filter of the S3 files module (multer's `fileFilter`): a file
 * is accepted when its original name ends with an allowed extension,
 * compared without regard to case; otherwise the callback gets a
 * bad-request error naming the extension.
 */
module FilesModule {
  import opened Wrappers
  import opened Strings
  import opened Exceptions

  const ALLOWED_EXTENSIONS: seq<string> := [
    "jpg", "jpeg", "png", "gif", "tif", "tiff", "bmp", "webp",
    "pdf", "docx", "mp4", "mpeg-2", "mov", "wmv", "mkv"]

  /**
   * The pattern `/\.(jpg|…|mkv)$/i`: the name, in lower case, ends with a
   * dot followed by one of the allowed extensions.
   */
  predicate HasAllowedSuffix(name: string)
    ensures HasAllowedSuffix(name) ==> '.' in name
  {
    LowerKeepsDots(name);
    AllowedSuffixHasDot(Lower(name));
    exists ext :: ext in ALLOWED_EXTENSIONS && EndsWith(Lower(name), "." + ext)
  }

  /** `name.split('.').pop().toLocaleLowerCase()`: the text after the last dot, in lower case. */
  function FinalExtension(name: string): (ext: string)
    ensures '.' !in ext
  {
    var parts := Split(name, '.');
    SplitPiecesLackSeparator(name, '.');
    LowerKeepsDots(parts[|parts| - 1]);
    Lower(parts[|parts| - 1])
  }

  /** The rejection text, from which the extension can be read back at a fixed position. */
  function RejectionMessage(name: string): (message: string)
    ensures |message| == 28 + |FinalExtension(name)|
    ensures message[..11] == "File type (" && message[|message| - 17..] == ") not supported !"
    ensures message[11..|message| - 17] == FinalExtension(name)
  {
    "File type (" + FinalExtension(name) + ") not supported !"
  }

  /** The one invocation of `callback(error, acceptFile)` the filter makes. */
  datatype FilterCallback = FilterCallback(error: Option<Exception>, acceptFile: bool)

  /**
   * The filter: `(null, true)` for an allowed name, and otherwise a
   * bad-request error with the rejection message and `false`.
   */
  function FileFilter(originalname: string): (call: FilterCallback)
    ensures call.acceptFile <==> HasAllowedSuffix(originalname)
    ensures call.acceptFile <==> call.error.None?
    ensures !call.acceptFile ==> call.error == Some(BadRequest(RejectionMessage(originalname)))
  {
    if !HasAllowedSuffix(originalname) then
      FilterCallback(Some(BadRequest(RejectionMessage(originalname))), false)
    else
      FilterCallback(None, true)
  }

  /** No allowed extension contains a dot. */
  lemma AllowedExtensionsHaveNoDot()
    ensures forall ext :: ext in ALLOWED_EXTENSIONS ==> '.' !in ext
  {
  }

  /** A text ending with a dot and an allowed extension contains a dot. */
  lemma AllowedSuffixHasDot(l: string)
    ensures (exists ext :: ext in ALLOWED_EXTENSIONS && EndsWith(l, "." + ext)) ==> '.' in l
  {
    if exists ext :: ext in ALLOWED_EXTENSIONS && EndsWith(l, "." + ext) {
      var ext :| ext in ALLOWED_EXTENSIONS && EndsWith(l, "." + ext);
      assert l[|l| - |ext| - 1] == ("." + ext)[0];
    }
  }

  /** Lower-casing neither creates nor removes dots. */
  lemma LowerKeepsDots(s: string)
    ensures '.' in Lower(s) <==> '.' in s
  {
    var l := Lower(s);
    if '.' in s {
      var k :| 0 <= k < |s| && s[k] == '.';
      assert l[k] == '.';
    }
    if '.' in l {
      var k :| 0 <= k < |l| && l[k] == '.';
      assert s[k] == '.';
    }
  }

  /** Lower-casing keeps the text after the last dot in step. */
  lemma LowerAfterLastDot(name: string)
    ensures AfterLast(Lower(name), '.') == Lower(AfterLast(name, '.'))
  {
    var l, r := Lower(name), AfterLast(name, '.');
    var t := Lower(r);
    assert t == l[|l| - |t|..];
    assert '.' !in t;
    AfterLastUnique(l, '.', t);
  }

  lemma FinalExtensionUnfold(name: string)
    ensures FinalExtension(name) == Lower(Split(name, '.')[|Split(name, '.')| - 1])
  {
  }

  /** The extension is the text after the last dot of the lower-cased name. */
  lemma FinalExtensionIsAfterLastDot(name: string)
    ensures FinalExtension(name) == AfterLast(Lower(name), '.')
  {
    var parts := Split(name, '.');
    var last := parts[|parts| - 1];
    FinalExtensionUnfold(name);
    SplitLast(name, '.');
    assert last == AfterLast(name, '.');
    LowerAfterLastDot(name);
  }

  /** A name with no upper-case ASCII letter is its own lower-case form. */
  lemma LowerOfLowercase(s: string)
    requires forall k :: 0 <= k < |s| ==> !('A' <= s[k] <= 'Z')
    ensures Lower(s) == s
  {
  }

  /** An allowed suffix is the final extension. */
  lemma SuffixIsFinalExtension(name: string, ext: string)
    requires ext in ALLOWED_EXTENSIONS && EndsWith(Lower(name), "." + ext)
    ensures '.' in name && FinalExtension(name) == ext
  {
    var l := Lower(name);
    AllowedExtensionsHaveNoDot();
    assert l[|l| - |ext| - 1] == ("." + ext)[0];
    assert ext == l[|l| - |ext|..];
    AfterLastUnique(l, '.', ext);
    FinalExtensionIsAfterLastDot(name);
    LowerKeepsDots(name);
  }

  /** A name with a dot, lower-cased, ends with a dot and its final extension. */
  lemma EndsWithFinalExtension(name: string)
    requires '.' in name
    ensures EndsWith(Lower(name), "." + FinalExtension(name))
  {
    var l := Lower(name);
    LowerKeepsDots(name);
    FinalExtensionIsAfterLastDot(name);
    EndsWithAfterLast(l, '.');
  }

  /**
   * Only the final suffix decides: a name is accepted exactly when it has a
   * dot and the text after its last dot, lower-cased, is an allowed
   * extension. So `a.exe.png` passes and `a.png.exe` does not.
   */
  lemma {:induction false} AcceptedIffFinalExtensionAllowed(name: string)
    ensures HasAllowedSuffix(name) <==> '.' in name && FinalExtension(name) in ALLOWED_EXTENSIONS
  {
    if HasAllowedSuffix(name) {
      var ext :| ext in ALLOWED_EXTENSIONS && EndsWith(Lower(name), "." + ext);
      SuffixIsFinalExtension(name, ext);
    }
    if '.' in name && FinalExtension(name) in ALLOWED_EXTENSIONS {
      EndsWithFinalExtension(name);
    }
  }

  /** A rejected name is one whose final extension is missing or not allowed. */
  lemma RejectionNamesExtension(name: string)
    requires !FileFilter(name).acceptFile
    ensures '.' !in name || FinalExtension(name) !in ALLOWED_EXTENSIONS
    ensures FileFilter(name).error == Some(BadRequest("File type (" + FinalExtension(name) + ") not supported !"))
  {
    AcceptedIffFinalExtensionAllowed(name);
  }

  /** The final extension of `<stem>.<ext>`, for a lower-case `ext` without dots. */
  lemma {:induction false} FinalExtensionOf(stem: string, ext: string)
    requires '.' !in ext
    requires forall k :: 0 <= k < |ext| ==> !('A' <= ext[k] <= 'Z')
    ensures '.' in stem + "." + ext
    ensures FinalExtension(stem + "." + ext) == ext
  {
    var name := stem + "." + ext;
    assert name[|stem|] == '.';
    assert ext == name[|name| - |ext|..];
    AfterLastUnique(name, '.', ext);
    SplitLast(name, '.');
    LowerOfLowercase(ext);
  }

  /** The rejection of a name whose final extension is known. */
  lemma RejectedNaming(name: string, ext: string)
    requires '.' in name && FinalExtension(name) == ext && ext !in ALLOWED_EXTENSIONS
    ensures FileFilter(name) == FilterCallback(Some(BadRequest("File type (" + ext + ") not supported !")), false)
  {
    AcceptedIffFinalExtensionAllowed(name);
  }

  /** `virus.exe` is refused with a message that names `exe`. */
  lemma VirusExeRejected()
    ensures FileFilter("virus.exe") == FilterCallback(Some(BadRequest("File type (exe) not supported !")), false)
  {
    FinalExtensionOf("virus", "exe");
    assert "virus" + "." + "exe" == "virus.exe";
    ExeNotAllowed();
    RejectedNaming("virus.exe", "exe");
    ConcatLiteral();
  }

  /** `exe` is not an allowed extension. */
  lemma ExeNotAllowed()
    ensures "exe" !in ALLOWED_EXTENSIONS
  {
  }

  /** The message text for `exe`, spelled out. */
  lemma ConcatLiteral()
    ensures "File type (" + "exe" + ") not supported !" == "File type (exe) not supported !"
  {
  }

  /** `a.exe.png` is accepted: only the final suffix counts. */
  lemma FinalSuffixAccepted()
    ensures FileFilter("a.exe.png").acceptFile
  {
    FinalExtensionOf("a.exe", "png");
    assert "a.exe" + "." + "png" == "a.exe.png";
    assert "png" in ALLOWED_EXTENSIONS;
    AcceptedIffFinalExtensionAllowed("a.exe.png");
  }

  /** `a.png.exe` is refused: an allowed inner suffix does not help. */
  lemma InnerSuffixRejected()
    ensures !FileFilter("a.png.exe").acceptFile
  {
    FinalExtensionOf("a.png", "exe");
    assert "a.png" + "." + "exe" == "a.png.exe";
    ExeNotAllowed();
    AcceptedIffFinalExtensionAllowed("a.png.exe");
  }
}
