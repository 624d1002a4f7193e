/** Choosing a manga's cover at upload time: `extractCoverFromCBZ` and the
    cover branch of the upload route in server.js. Paths are relative to the
    server's root directory; reading the chosen entry and converting it to
    WebP are outcomes passed in as flags. */
module Covers {
  import opened Wrappers
  import opened Text
  import opened Archives
  import opened Collation
  import Sorting

  const CoversDir: string := "manga/covers/"
  const DefaultCoverPath: string := "manga/covers/default-cover.jpg"

  /** The entry ranked first: names containing `cover` (any case) before
      the others, then by name; ties keep archive order. */
  function CoverCandidate(entries: seq<Entry>): Option<string>
  {
    var ranked := SortNames(CoverFirstOrder, ImageEntryNames(entries));
    if ranked == [] then None else Some(ranked[0])
  }

  /** There is a candidate exactly when some entry is an image, and the
      candidate is the name of such an entry. */
  lemma {:induction false} CoverCandidateExists(entries: seq<Entry>)
    ensures CoverCandidate(entries) == None <==> forall e :: e in entries ==> !IsArchiveImage(e)
    ensures CoverCandidate(entries).Some? ==>
              exists e :: e in entries && IsArchiveImage(e) && e.name == CoverCandidate(entries).value
  {
    var names := ImageEntryNames(entries);
    var ranked := SortNames(CoverFirstOrder, names);
    ImageEntryNamesMembers(entries);
    if ranked != [] {
      assert ranked[0] in multiset(ranked);
      assert ranked[0] in names;
    } else {
      assert |names| == 0;
    }
  }

  /** The candidate ranks no later than any other image: in particular a
      name containing `cover` wins whenever one exists, and a single such
      name is always the one chosen. */
  lemma {:induction false} CoverCandidateRanksFirst(entries: seq<Entry>)
    requires CoverCandidate(entries).Some?
    ensures forall n :: n in ImageEntryNames(entries) ==> Le(CoverFirstOrder, CoverCandidate(entries).value, n)
    ensures (exists e :: e in entries && IsArchiveImage(e) && IsCoverName(e.name)) ==>
              IsCoverName(CoverCandidate(entries).value)
    ensures forall e :: e in entries && IsArchiveImage(e) && IsCoverName(e.name)
              && (forall f :: f in entries && IsArchiveImage(f) && IsCoverName(f.name) ==> f.name == e.name)
              ==> CoverCandidate(entries).value == e.name
  {
    var names := ImageEntryNames(entries);
    var c := CoverCandidate(entries).value;
    CandidateNotAfterAny(entries);
    ImageEntryNamesMembers(entries);
    if exists e :: e in entries && IsArchiveImage(e) && IsCoverName(e.name) {
      var e :| e in entries && IsArchiveImage(e) && IsCoverName(e.name);
      assert e.name in names;
      CoverNameComesFirst(c, e.name);
    }
    CoverCandidateExists(entries);
  }

  /** The candidate is not after any image name. */
  lemma {:induction false} CandidateNotAfterAny(entries: seq<Entry>)
    requires CoverCandidate(entries).Some?
    ensures forall n :: n in ImageEntryNames(entries) ==> Le(CoverFirstOrder, CoverCandidate(entries).value, n)
  {
    var names := ImageEntryNames(entries);
    var le := LeOf(CoverFirstOrder);
    LeOfIsTotalPreorder(CoverFirstOrder);
    Sorting.SortHead(le, names);
    var k :| 0 <= k < |names| && CoverCandidate(entries).value == names[k] && Sorting.IsMinimal(le, names[k], names);
    forall n | n in names ensures Le(CoverFirstOrder, names[k], n) {
      var i :| 0 <= i < |names| && names[i] == n;
      assert le(names[k], names[i]);
    }
  }

  /** Under the cover-first order, only a cover name is not after a cover
      name. */
  lemma CoverNameComesFirst(a: string, b: string)
    requires IsCoverName(b) && Le(CoverFirstOrder, a, b)
    ensures IsCoverName(a)
  {
  }

  /** Ties are broken by archive order: every image listed before the
      candidate ranks strictly after it. */
  lemma {:induction false} CoverCandidateFirstOfTies(entries: seq<Entry>)
    requires CoverCandidate(entries).Some?
    ensures exists k :: 0 <= k < |ImageEntryNames(entries)|
              && ImageEntryNames(entries)[k] == CoverCandidate(entries).value
              && forall j :: 0 <= j < k ==>
                   !Le(CoverFirstOrder, ImageEntryNames(entries)[j], ImageEntryNames(entries)[k])
  {
    var names := ImageEntryNames(entries);
    var le := LeOf(CoverFirstOrder);
    LeOfIsTotalPreorder(CoverFirstOrder);
    Sorting.SortHead(le, names);
    var k :| 0 <= k < |names| && Sorting.Sort(le, names)[0] == names[k] && Sorting.IsMinimal(le, names[k], names)
             && forall j :: 0 <= j < k ==> !Sorting.IsMinimal(le, names[j], names);
    assert CoverCandidate(entries).value == names[k];
    forall j | 0 <= j < k ensures !Le(CoverFirstOrder, names[j], names[k]) {
      var i :| 0 <= i < |names| && !le(names[j], names[i]);
      assert le(names[k], names[i]);
    }
  }

  /** `path.join(rootDir, 'manga', 'covers', `cover-${mangaId}${ext}`)`,
      relative to the root directory. */
  function CoverPath(mangaId: string, ext: string): string {
    CoversDir + "cover-" + mangaId + ext
  }

  /** A generated cover path lies in the covers directory under a `cover-`
      name, so it is never the default cover. */
  lemma {:induction false} CoverPathIsNotDefault(mangaId: string, ext: string)
    ensures StartsWith(CoverPath(mangaId, ext), CoversDir + "cover-")
    ensures CoverPath(mangaId, ext) != DefaultCoverPath
  {
    var p := CoverPath(mangaId, ext);
    assert p == (CoversDir + "cover-") + (mangaId + ext);
    assert |CoversDir| == 13;
    assert p[13] == 'c';
    assert DefaultCoverPath[13] == 'd';
  }

  /** `extractCoverFromCBZ`: `readOk` says whether reading the chosen entry
      gave data, `convertOk` whether the WebP conversion succeeded. */
  function ExtractCover(archive: Archive, mangaId: string, readOk: bool, convertOk: bool): Option<string>
  {
    if !archive.Readable? then None
    else match CoverCandidate(archive.entries)
      case None => None
      case Some(name) =>
        if !readOk then None
        else if convertOk then Some(CoverPath(mangaId, ".webp"))
        else Some(CoverPath(mangaId, Extname(name)))
  }

  /** A cover comes out exactly when the archive opens, holds an image and
      the chosen entry can be read; it is the WebP file, or after a failed
      conversion a copy keeping the entry's own extension (one of the six
      image extensions, in the entry's case). */
  lemma {:induction false} ExtractCoverOutcome(archive: Archive, mangaId: string, readOk: bool, convertOk: bool)
    ensures ExtractCover(archive, mangaId, readOk, convertOk).Some? <==>
              archive.Readable? && readOk && exists e :: e in archive.entries && IsArchiveImage(e)
    ensures ExtractCover(archive, mangaId, readOk, convertOk).Some? && convertOk ==>
              ExtractCover(archive, mangaId, readOk, convertOk).value == CoverPath(mangaId, ".webp")
    ensures ExtractCover(archive, mangaId, readOk, convertOk).Some? && !convertOk ==>
              archive.Readable? && CoverCandidate(archive.entries).Some?
              && IsArchiveImageExtension(Extname(CoverCandidate(archive.entries).value))
              && ExtractCover(archive, mangaId, readOk, convertOk).value
                 == CoverPath(mangaId, Extname(CoverCandidate(archive.entries).value))
  {
    if archive.Readable? {
      CoverCandidateExists(archive.entries);
      if CoverCandidate(archive.entries).Some? {
        var e :| e in archive.entries && IsArchiveImage(e) && e.name == CoverCandidate(archive.entries).value;
        assert IsArchiveImageExtension(Extname(e.name));
      }
    }
  }

  /** The cover path the upload route stores: a user-supplied cover (its
      temporary path) wins over the archive; converted to WebP when that
      succeeds, kept as uploaded otherwise. Without one, the cover extracted
      from the archive, else the default cover. */
  function UploadCoverPath(userCover: Option<string>, userConvertOk: bool,
                           archive: Archive, mangaId: string, readOk: bool, convertOk: bool): string
  {
    match userCover
    case Some(tempPath) =>
      if userConvertOk then CoverPath(mangaId, ".webp") else tempPath
    case None =>
      match ExtractCover(archive, mangaId, readOk, convertOk)
      case Some(extracted) => extracted
      case None => DefaultCoverPath
  }

  /** Every extracted cover lives in the covers directory under a
      `cover-` name, so it is never the default cover. */
  lemma {:induction false} ExtractedCoverIsNotDefault(archive: Archive, mangaId: string, readOk: bool, convertOk: bool)
    ensures ExtractCover(archive, mangaId, readOk, convertOk).Some? ==>
              StartsWith(ExtractCover(archive, mangaId, readOk, convertOk).value, CoversDir + "cover-")
              && ExtractCover(archive, mangaId, readOk, convertOk).value != DefaultCoverPath
  {
    ExtractCoverOutcome(archive, mangaId, readOk, convertOk);
    var r := ExtractCover(archive, mangaId, readOk, convertOk);
    if r.Some? && convertOk {
      CoverPathIsNotDefault(mangaId, ".webp");
    } else if r.Some? {
      CoverPathIsNotDefault(mangaId, Extname(CoverCandidate(archive.entries).value));
    }
  }

  /** Without a user cover, the default cover is stored exactly when the
      archive yields no cover; a user cover makes the archive irrelevant. */
  lemma {:induction false} UploadCoverFallsBackToDefault(userCover: Option<string>, userConvertOk: bool,
                                      archive: Archive, mangaId: string, readOk: bool, convertOk: bool,
                                      other: Archive)
    ensures userCover == None ==>
              (UploadCoverPath(userCover, userConvertOk, archive, mangaId, readOk, convertOk) == DefaultCoverPath
               <==> ExtractCover(archive, mangaId, readOk, convertOk) == None)
    ensures userCover.Some? ==>
              UploadCoverPath(userCover, userConvertOk, archive, mangaId, readOk, convertOk)
              == UploadCoverPath(userCover, userConvertOk, other, mangaId, readOk, convertOk)
  {
    ExtractedCoverIsNotDefault(archive, mangaId, readOk, convertOk);
  }
}
