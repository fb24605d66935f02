/** The upload route's storage rule and file filter: which uploads are accepted, and
    under which name an accepted upload is stored. */
module Uploads {
  import opened Text
  import opened Results
  import opened Paths
  import FileParser

  const AllowedTypes := [".pdf", ".docx", ".pptx", ".txt"]
  const RejectionMessage := "Only PDF, DOCX, PPTX, and TXT files are allowed"

  /** The two arguments the filter passes to multer's callback: an error or `null`,
      and whether to accept the file. */
  datatype FilterDecision = FilterDecision(error: Option<string>, accept: bool)

  /** `fileFilter`: accept exactly the allowed lower-cased extensions. */
  function FileFilter(originalName: string): FilterDecision {
    var ext := ToLower(Extname(originalName));
    if ext in AllowedTypes then FilterDecision(None, true)
    else FilterDecision(Some(RejectionMessage), false)
  }

  /** `filename`: the upload time in milliseconds, a dash and the original name. */
  function StoredName(now: nat, originalName: string): string {
    NatToString(now) + "-" + originalName
  }

  /** The filter accepts exactly the four allowed extensions, compared after
      lower-casing, and a rejection always comes with the fixed message. */
  lemma FilterDecides(originalName: string)
    ensures FileFilter(originalName).accept <==> FileParser.Extension(originalName) in AllowedTypes
    ensures FileFilter(originalName).accept <==> FileFilter(originalName).error == None
    ensures !FileFilter(originalName).accept ==> FileFilter(originalName).error == Some(RejectionMessage)
  {
  }

  /** Acceptance ignores case: `Notes.PDF` is treated as `notes.pdf`. */
  lemma FilterIgnoresCase(originalName: string)
    ensures FileFilter(ToLower(originalName)) == FileFilter(originalName)
  {
    ExtnameToLower(originalName);
    ToLowerIdempotent(Extname(originalName));
  }

  /** The stored file keeps the extension of the upload, under any directory. */
  lemma StoredNameKeepsExtension(dir: string, now: nat, originalName: string)
    requires Extname(originalName) != ""
    ensures Extname(dir + StoredName(now, originalName)) == Extname(originalName)
  {
    var prefix := dir + NatToString(now) + "-";
    assert dir + StoredName(now, originalName) == prefix + originalName;
    PrefixedExtname(prefix, originalName, dir + StoredName(now, originalName));
  }

  lemma PrefixedExtname(prefix: string, name: string, whole: string)
    requires Extname(name) != "" && whole == prefix + name
    ensures Extname(whole) == Extname(name)
  {
    ExtnameIgnoresPrefix(prefix, name);
  }

  /** Every accepted upload, once stored, is one the format dispatcher supports. */
  lemma AcceptedIsDispatchable(dir: string, now: nat, originalName: string)
    requires FileFilter(originalName).accept
    ensures FileParser.FormatOf(FileParser.Extension(dir + StoredName(now, originalName))).Some?
  {
    var ext := FileParser.Extension(originalName);
    assert ext in AllowedTypes;
    assert |ext| > 0;
    StoredNameKeepsExtension(dir, now, originalName);
    FileParser.SupportedExtensions(ext);
  }

  /** `.doc` and `.ppt` uploads are rejected here, though the dispatcher handles them. */
  lemma LegacyOfficeRejected(originalName: string)
    requires FileParser.Extension(originalName) in [".doc", ".ppt"]
    ensures !FileFilter(originalName).accept
    ensures FileParser.FormatOf(FileParser.Extension(originalName)).Some?
  {
    LegacyExtension(FileParser.Extension(originalName));
  }

  lemma LegacyExtension(ext: string)
    requires ext in [".doc", ".ppt"]
    ensures ext !in AllowedTypes && FileParser.FormatOf(ext).Some?
  {
    if ext == ".doc" {
      assert ext[1] == 'd' && ext[2] == 'o';
    } else {
      assert ext[1] == 'p' && ext[2] == 'p';
    }
  }
}
