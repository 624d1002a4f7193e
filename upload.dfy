/** The upload gate of server.js: multer's per-field `fileFilter` and its
    file-size limit. */
module Upload {
  import opened Text
  import opened Archives

  /** The limit on every uploaded file: 200 MiB. */
  const MaxFileSize: nat := 200 * 1024 * 1024

  const ImageMimeTypes: seq<string> := ["image/jpeg", "image/jpg", "image/png", "image/gif", "image/webp"]
  const ChapterExtensions: seq<string> := [".zip", ".cbz"]
  const MangaExtensions: seq<string> := [".zip", ".rar", ".cbz", ".cbr"]

  const ImageRejected: string := "只允许上传图片文件"
  const ChapterRejected: string := "只允许上传 ZIP, CBZ 格式的章节文件"
  const MangaRejected: string := "只允许上传 CBZ, CBR, ZIP, RAR 格式的漫画文件"
  /** multer's message for a file over the limit. */
  const TooLarge: string := "File too large"

  datatype Verdict = Accept | Reject(message: string)

  /** The image fields are judged by their declared MIME type, a chapter
      file and any other field (the manga archive) by the lower-cased
      extension of their original name. */
  function FileFilter(fieldname: string, mimetype: string, originalname: string): Verdict
  {
    if fieldname == "cover" || fieldname == "image" then
      if mimetype in ImageMimeTypes then Accept else Reject(ImageRejected)
    else if fieldname == "chapterFile" then
      if Lower(Extname(originalname)) in ChapterExtensions then Accept else Reject(ChapterRejected)
    else
      if Lower(Extname(originalname)) in MangaExtensions then Accept else Reject(MangaRejected)
  }

  /** The filter, then the size limit. */
  function AdmitFile(fieldname: string, mimetype: string, originalname: string, size: nat): (r: Verdict)
    ensures r == Accept <==> size <= MaxFileSize && FileFilter(fieldname, mimetype, originalname) == Accept
    ensures FileFilter(fieldname, mimetype, originalname).Reject? ==> r == FileFilter(fieldname, mimetype, originalname)
    ensures FileFilter(fieldname, mimetype, originalname) == Accept && size > MaxFileSize ==> r == Reject(TooLarge)
    ensures r.Reject? ==> r.message in {ImageRejected, ChapterRejected, MangaRejected, TooLarge}
  {
    match FileFilter(fieldname, mimetype, originalname)
    case Reject(m) => Reject(m)
    case Accept => if size <= MaxFileSize then Accept else Reject(TooLarge)
  }

  /** The image gate looks only at the MIME type; the archive gates only at
      the name. */
  lemma GatesLookAtOneThing(fieldname: string, m1: string, m2: string, n1: string, n2: string)
    ensures fieldname in {"cover", "image"} ==>
              FileFilter(fieldname, m1, n1) == FileFilter(fieldname, m1, n2)
    ensures fieldname !in {"cover", "image"} ==>
              FileFilter(fieldname, m1, n1) == FileFilter(fieldname, m2, n1)
  {
  }

  /** The extension test ignores the case of the whole name. */
  lemma {:induction false} FileFilterIgnoresCase(fieldname: string, mimetype: string, originalname: string)
    ensures FileFilter(fieldname, mimetype, Lower(originalname)) == FileFilter(fieldname, mimetype, originalname)
  {
    LowerExtnameOfLower(originalname);
    FileFilterSeesLoweredExtension(fieldname, mimetype, Lower(originalname), originalname);
  }

  /** The archive gates see only the lower-cased extension. */
  lemma FileFilterSeesLoweredExtension(fieldname: string, mimetype: string, n1: string, n2: string)
    requires Lower(Extname(n1)) == Lower(Extname(n2))
    ensures FileFilter(fieldname, mimetype, n1) == FileFilter(fieldname, mimetype, n2)
  {
  }

  lemma {:induction false} LowerExtnameOfLower(name: string)
    ensures Lower(Extname(Lower(name))) == Lower(Extname(name))
  {
    ExtnameOfLower(name);
    LowerIdempotent(Extname(name));
  }

  /** Every chapter file would also pass as a manga archive; `.rar` and
      `.cbr` pass only as a manga archive. */
  lemma ChapterGateIsNarrower(fieldname: string, mimetype: string, originalname: string)
    requires fieldname !in {"cover", "image", "chapterFile"}
    ensures FileFilter("chapterFile", mimetype, originalname) == Accept ==>
              FileFilter(fieldname, mimetype, originalname) == Accept
    ensures Lower(Extname(originalname)) in {".rar", ".cbr"} ==>
              FileFilter("chapterFile", mimetype, originalname) == Reject(ChapterRejected)
              && FileFilter(fieldname, mimetype, originalname) == Accept
  {
    ExtensionListsNest(Lower(Extname(originalname)));
  }

  lemma ExtensionListsNest(l: string)
    ensures l in ChapterExtensions ==> l in MangaExtensions
    ensures l in {".rar", ".cbr"} ==> l !in ChapterExtensions && l in MangaExtensions
  {
  }

  /** An accepted archive has one of the listed extensions, so its name is
      not empty and its extension begins with a dot. */
  lemma {:induction false} AcceptedArchiveHasExtension(fieldname: string, mimetype: string, originalname: string)
    requires fieldname !in {"cover", "image"}
    requires FileFilter(fieldname, mimetype, originalname) == Accept
    ensures |Extname(originalname)| == 4 && Extname(originalname)[0] == '.'
    ensures |originalname| >= 4
  {
    var ext := Extname(originalname);
    assert Lower(ext) in MangaExtensions by {
      if fieldname == "chapterFile" {
        assert Lower(ext) in ChapterExtensions;
      }
    }
    ExtensionOfLength4(ext);
    ExtnameShape(originalname);
  }

  lemma ListedExtensionShape(l: string)
    requires l in MangaExtensions
    ensures |l| == 4 && l[0] == '.'
  {
  }

  lemma {:induction false} ExtensionOfLength4(ext: string)
    requires Lower(ext) in MangaExtensions
    ensures |ext| == 4 && ext[0] == '.'
  {
    ListedExtensionShape(Lower(ext));
    assert Lower(ext)[0] == LowerChar(ext[0]);
  }
}
