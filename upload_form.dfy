/** The checks `uploadManga` in admin-script.js makes before sending a
    manga upload, and how they relate to the server's upload gate. */
module UploadForm {
  import opened Wrappers
  import opened Text
  import opened Archives
  import opened Upload

  /** What the page reads from a chosen file. */
  datatype FileInfo = FileInfo(name: string, size: nat, mimeType: string)

  /** The first check that fails, or `Proceed`. */
  datatype UploadCheck =
    | Proceed
    | MissingFields
    | MissingFile
    | BadFileType
    | FileTooLarge
    | BadCoverType
    | CoverTooLarge

  const ClientArchiveExtensions: seq<string> := [".zip", ".rar", ".cbz", ".cbr"]
  const ClientCoverTypes: seq<string> := ["image/jpeg", "image/png", "image/gif", "image/webp"]
  /** The cover limit of the form: 5 MiB. */
  const MaxCoverSize: nat := 5 * 1024 * 1024

  /** `'.' + name.split('.').pop().toLowerCase()`: a dot and the text after
      the last dot, or the whole name when it has no dot. */
  function ClientExtension(name: string): string {
    "." + Lower(name[LastIndexOf(name, '.') + 1..])
  }

  /** The checks in the order the form makes them; an empty title or author
      counts as missing. */
  function ValidateUpload(title: string, author: string, file: Option<FileInfo>, cover: Option<FileInfo>): UploadCheck
  {
    if title == "" || author == "" then MissingFields
    else if file.None? then MissingFile
    else if ClientExtension(file.value.name) !in ClientArchiveExtensions then BadFileType
    else if file.value.size > MaxFileSize then FileTooLarge
    else if cover.Some? && cover.value.mimeType !in ClientCoverTypes then BadCoverType
    else if cover.Some? && cover.value.size > MaxCoverSize then CoverTooLarge
    else Proceed
  }

  lemma {:induction false} LastIndexOfAbsent(s: string, c: char)
    requires forall i :: 0 <= i < |s| ==> s[i] != c
    ensures LastIndexOf(s, c) == -1
  {
    if s != [] {
      LastIndexOfAbsent(s[..|s| - 1], c);
    }
  }

  /** `path.extname` of a name without `/`: from its last dot, unless there
      is none, the dot comes first, or the name is `..`. */
  lemma {:induction false} ExtnameWithoutSlash(name: string)
    requires forall i :: 0 <= i < |name| ==> name[i] != '/'
    ensures var dot := LastIndexOf(name, '.');
      Extname(name) == if dot <= 0 || name == ".." then "" else name[dot..]
  {
    assert TrimmedLength(name) == |name| by {
      if |name| > 0 {
        assert name[|name| - 1] != '/';
      }
    }
    assert name[..|name|] == name;
    assert name[0..] == name;
    LastIndexOfAbsent(name, '/');
  }

  /** For a file name as a browser reports it (no `/`) with a dot after its
      first character, the form's extension is the server's, lower-cased. */
  lemma {:induction false} ClientExtensionIsExtname(name: string)
    requires forall i :: 0 <= i < |name| ==> name[i] != '/'
    requires LastIndexOf(name, '.') > 0 && name != ".."
    ensures ClientExtension(name) == Lower(Extname(name))
  {
    ExtnameIsDotTail(name);
    LowerOfDotted(name[LastIndexOf(name, '.') + 1..]);
  }

  lemma {:induction false} ExtnameIsDotTail(name: string)
    requires forall i :: 0 <= i < |name| ==> name[i] != '/'
    requires LastIndexOf(name, '.') > 0 && name != ".."
    ensures Extname(name) == "." + name[LastIndexOf(name, '.') + 1..]
  {
    var dot := LastIndexOf(name, '.');
    ExtnameWithoutSlash(name);
    DotSplit(name, dot);
  }

  lemma {:induction false} DotSplit(s: string, k: nat)
    requires k < |s| && s[k] == '.'
    ensures s[k..] == "." + s[k + 1..]
  {
    assert s[k..] == [s[k]] + s[k + 1..];
  }

  lemma {:induction false} LowerOfDotted(tail: string)
    ensures Lower("." + tail) == "." + Lower(tail)
  {
    LowerAppend(".", tail);
    assert Lower(".") == ".";
  }

  /** An upload the form lets through is admitted by the server: the file
      field passes the archive gate and the size limit, and a cover the
      image gate and the size limit. */
  lemma {:induction false} FormCheckedUploadIsAdmitted(title: string, author: string, file: Option<FileInfo>, cover: Option<FileInfo>)
    requires ValidateUpload(title, author, file, cover) == Proceed
    requires file.Some? ==> forall i :: 0 <= i < |file.value.name| ==> file.value.name[i] != '/'
    requires file.Some? ==> LastIndexOf(file.value.name, '.') > 0
    ensures file.Some?
    ensures AdmitFile("file", file.value.mimeType, file.value.name, file.value.size) == Accept
    ensures cover.Some? ==> AdmitFile("cover", cover.value.mimeType, cover.value.name, cover.value.size) == Accept
  {
    FormFileIsAdmitted(file.value);
    if cover.Some? {
      FormCoverIsAdmitted(cover.value);
    }
  }

  lemma {:induction false} FormFileIsAdmitted(file: FileInfo)
    requires ClientExtension(file.name) in ClientArchiveExtensions && file.size <= MaxFileSize
    requires forall i :: 0 <= i < |file.name| ==> file.name[i] != '/'
    requires LastIndexOf(file.name, '.') > 0
    ensures AdmitFile("file", file.mimeType, file.name, file.size) == Accept
  {
    var name := file.name;
    assert |ClientExtension(name)| == 4;
    assert name != "..";
    ClientExtensionIsExtname(name);
  }

  lemma {:induction false} FormCoverIsAdmitted(cover: FileInfo)
    requires cover.mimeType in ClientCoverTypes && cover.size <= MaxCoverSize
    ensures AdmitFile("cover", cover.mimeType, cover.name, cover.size) == Accept
  {
  }

  /** The form is looser than the server for names without an extension:
      it accepts a file called `zip`, which the server rejects. */
  lemma FormAcceptsDotlessName()
    ensures ClientExtension("zip") in ClientArchiveExtensions
    ensures FileFilter("file", "", "zip") == Reject(MangaRejected)
  {
    DotlessZipReadsAsZip();
    DotlessZipHasNoExtension();
  }

  /** Likewise for a dot-file such as `.zip`: the form reads `zip`, the
      server sees no extension at all. */
  lemma FormAcceptsDotFile()
    ensures ClientExtension(".zip") in ClientArchiveExtensions
    ensures FileFilter("file", "", ".zip") == Reject(MangaRejected)
  {
    DotZipReadsAsZip();
    DotZipHasNoExtension();
  }

  lemma LowerZip()
    ensures Lower("zip") == "zip"
  {
  }

  lemma DotlessZipReadsAsZip()
    ensures ClientExtension("zip") == ".zip"
  {
    ClientExtensionOfDotless("zip");
    LowerZip();
  }

  lemma DotlessZipHasNoExtension()
    ensures FileFilter("file", "", "zip") == Reject(MangaRejected)
  {
    ExtnameOfDotless("zip");
    ArchiveGateWithoutExtension("file", "", "zip");
  }

  lemma DotZipReadsAsZip()
    ensures ClientExtension(".zip") == ".zip"
  {
    assert ".zip" == "." + "zip";
    ClientExtensionOfDotFile("zip");
    LowerZip();
  }

  lemma DotZipHasNoExtension()
    ensures FileFilter("file", "", ".zip") == Reject(MangaRejected)
  {
    assert ".zip" == "." + "zip";
    ExtnameOfDotFile("zip");
    ArchiveGateWithoutExtension("file", "", ".zip");
  }

  lemma {:induction false} ClientExtensionOfDotless(name: string)
    requires forall i :: 0 <= i < |name| ==> name[i] != '.'
    ensures ClientExtension(name) == "." + Lower(name)
  {
    var k := LastIndexOf(name, '.');
    assert k == -1 by {
      LastIndexOfAbsent(name, '.');
    }
    assert name[k + 1..] == name;
  }

  lemma {:induction false} ClientExtensionOfDotFile(tail: string)
    requires forall i :: 0 <= i < |tail| ==> tail[i] != '.'
    ensures ClientExtension("." + tail) == "." + Lower(tail)
  {
    var name := "." + tail;
    DotFileLastDot(tail);
    assert name[1..] == tail;
  }

  lemma {:induction false} DotFileLastDot(tail: string)
    requires forall i :: 0 <= i < |tail| ==> tail[i] != '.'
    ensures LastIndexOf("." + tail, '.') == 0
  {
    var name := "." + tail;
    assert name[0] == '.';
    assert forall j :: 0 < j < |name| ==> name[j] == tail[j - 1];
  }

  lemma {:induction false} ExtnameOfDotless(name: string)
    requires forall i :: 0 <= i < |name| ==> name[i] != '.' && name[i] != '/'
    ensures Extname(name) == ""
  {
    LastIndexOfAbsent(name, '.');
    ExtnameWithoutSlash(name);
  }

  lemma {:induction false} ExtnameOfDotFile(tail: string)
    requires forall i :: 0 <= i < |tail| ==> tail[i] != '.' && tail[i] != '/'
    ensures Extname("." + tail) == ""
  {
    var name := "." + tail;
    DotFileLastDot(tail);
    assert name[0] == '.';
    assert forall i :: 0 <= i < |name| ==> name[i] != '/';
    ExtnameWithoutSlash(name);
  }

  lemma {:induction false} ArchiveGateWithoutExtension(fieldname: string, mimetype: string, name: string)
    requires Extname(name) == ""
    requires fieldname != "cover" && fieldname != "image" && fieldname != "chapterFile"
    ensures FileFilter(fieldname, mimetype, name) == Reject(MangaRejected)
  {
    assert Lower("") == "";
  }
}
