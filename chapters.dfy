/** Chapter structure detection for an uploaded manga archive
    (`parseMangaZip` in server.js). */
module Chapters {
  import opened Text
  import opened Archives

  /** The record `parseMangaZip` pushes for each chapter it detects. */
  datatype ChapterInfo = ChapterInfo(
    number: nat,
    title: string,
    fileCount: nat,
    originalFolder: string,
    filePath: string)

  /** `name.replace(/\/$/, '')`: drops one trailing slash, if any. */
  function StripOneSlash(name: string): (r: string)
    ensures |name| > 0 && name[|name| - 1] == '/' ==> name == r + "/"
    ensures (|name| == 0 || name[|name| - 1] != '/') ==> r == name
  {
    if |name| > 0 && name[|name| - 1] == '/' then name[..|name| - 1] else name
  }

  /** A directory entry whose name, minus one trailing slash, matches `^\d+$`. */
  predicate IsChapterFolder(e: Entry) {
    var d := StripOneSlash(e.name);
    e.isDirectory && d != [] && AllDigits(d)
  }

  function ChapterNumber(folder: Entry): nat
    requires IsChapterFolder(folder)
  {
    ParseDecimal(StripOneSlash(folder.name))
  }

  /** The title template `第${n}章`. */
  function ChapterTitle(n: nat): string {
    "第" + Decimal(n) + "章"
  }

  /** The files of a chapter folder: non-directory entries under the folder's
      full name (slash included) that pass `isImageFile`. */
  predicate IsChapterFile(e: Entry, folder: string) {
    !e.isDirectory && StartsWith(e.name, folder) && IsImageFile(e.name)
  }

  function ChapterFolders(entries: seq<Entry>): (r: seq<Entry>)
    ensures forall i :: 0 <= i < |r| ==> IsChapterFolder(r[i])
  {
    if entries == [] then []
    else (if IsChapterFolder(entries[0]) then [entries[0]] else []) + ChapterFolders(entries[1..])
  }

  function ChapterFiles(entries: seq<Entry>, folder: string): seq<Entry>
  {
    if entries == [] then []
    else (if IsChapterFile(entries[0], folder) then [entries[0]] else []) + ChapterFiles(entries[1..], folder)
  }

  function AllImages(entries: seq<Entry>): seq<Entry>
  {
    if entries == [] then []
    else (if !entries[0].isDirectory && IsImageFile(entries[0].name) then [entries[0]] else [])
         + AllImages(entries[1..])
  }

  /** The three filters keep exactly the entries their test accepts. */
  lemma {:induction false} FiltersKeepAccepted(entries: seq<Entry>, folder: string)
    ensures forall e :: e in ChapterFolders(entries) <==> e in entries && IsChapterFolder(e)
    ensures forall e :: e in ChapterFiles(entries, folder) <==> e in entries && IsChapterFile(e, folder)
    ensures forall e :: e in AllImages(entries) <==> e in entries && !e.isDirectory && IsImageFile(e.name)
  {
    if entries != [] {
      FiltersKeepAccepted(entries[1..], folder);
      assert entries == [entries[0]] + entries[1..];
    }
  }

  lemma {:induction false} NoChapterFolders(entries: seq<Entry>)
    requires forall e :: e in entries ==> !IsChapterFolder(e)
    ensures ChapterFolders(entries) == []
  {
    if entries != [] {
      assert entries[0] in entries;
      NoChapterFolders(entries[1..]);
    }
  }

  /** The record a chapter folder gives rise to. */
  function ChapterOf(entries: seq<Entry>, folder: Entry, zipFilePath: string): ChapterInfo
    requires IsChapterFolder(folder)
  {
    var n := ChapterNumber(folder);
    ChapterInfo(n, ChapterTitle(n), |ChapterFiles(entries, folder.name)|, folder.name, zipFilePath)
  }

  predicate HasImages(entries: seq<Entry>, folder: Entry) {
    |ChapterFiles(entries, folder.name)| > 0
  }

  /** The records of the folders `keep` admits, in folder order. */
  function Pushed(folders: seq<Entry>, keep: Entry -> bool, record: Entry --> ChapterInfo): seq<ChapterInfo>
    requires forall i :: 0 <= i < |folders| ==> record.requires(folders[i])
  {
    if folders == [] then []
    else
      var init := Pushed(folders[..|folders| - 1], keep, record);
      var last := folders[|folders| - 1];
      if keep(last) then init + [record(last)] else init
  }

  function KeepFolder(entries: seq<Entry>): Entry -> bool {
    folder => HasImages(entries, folder)
  }

  function RecordOf(entries: seq<Entry>, zipFilePath: string): Entry --> ChapterInfo {
    folder requires IsChapterFolder(folder) => ChapterOf(entries, folder, zipFilePath)
  }

  /** The chapters of `folders`, in folder order, duplicates kept: one per
      folder that holds an image. */
  function FolderChapters(entries: seq<Entry>, folders: seq<Entry>, zipFilePath: string): seq<ChapterInfo>
    requires forall i :: 0 <= i < |folders| ==> IsChapterFolder(folders[i])
  {
    Pushed(folders, KeepFolder(entries), RecordOf(entries, zipFilePath))
  }

  /** What `parseMangaZip` returns for a readable archive. */
  function DetectChapters(entries: seq<Entry>, zipFilePath: string): seq<ChapterInfo>
  {
    var folders := ChapterFolders(entries);
    if |folders| > 0 then FolderChapters(entries, folders, zipFilePath)
    else
      var all := AllImages(entries);
      if |all| > 0 then [ChapterInfo(1, ChapterTitle(1), |all|, "", zipFilePath)] else []
  }

  /** `parseMangaZip`: an unreadable archive gives the empty list; otherwise
      the chapter folders are walked in order, or, when there are none, all
      images at any depth form chapter 1. */
  method ParseMangaZip(archive: Archive, zipFilePath: string) returns (chapters: seq<ChapterInfo>)
    ensures !archive.Readable? ==> chapters == []
    ensures archive.Readable? ==> chapters == DetectChapters(archive.entries, zipFilePath)
    ensures forall i :: 0 <= i < |chapters| ==>
              chapters[i].fileCount >= 1 && chapters[i].filePath == zipFilePath
  {
    chapters := [];
    if !archive.Readable? {
      return;
    }
    var entries := archive.entries;
    var folders := ChapterFolders(entries);
    if |folders| > 0 {
      chapters := CollectFolderChapters(entries, folders, zipFilePath);
    } else {
      var allImages := AllImages(entries);
      if |allImages| > 0 {
        chapters := [ChapterInfo(1, ChapterTitle(1), |allImages|, "", zipFilePath)];
      }
    }
  }

  /** The folder loop of `parseMangaZip`: a chapter is pushed for each folder
      that holds an image. */
  method CollectFolderChapters(entries: seq<Entry>, folders: seq<Entry>, zipFilePath: string)
    returns (chapters: seq<ChapterInfo>)
    requires forall i :: 0 <= i < |folders| ==> IsChapterFolder(folders[i])
    ensures chapters == FolderChapters(entries, folders, zipFilePath)
    ensures forall i :: 0 <= i < |chapters| ==>
              chapters[i].fileCount >= 1 && chapters[i].filePath == zipFilePath
  {
    chapters := [];
    for i := 0 to |folders|
      invariant chapters == FolderChapters(entries, folders[..i], zipFilePath)
      invariant forall k :: 0 <= k < |chapters| ==>
                  chapters[k].fileCount >= 1 && chapters[k].filePath == zipFilePath
    {
      var folder := folders[i];
      var chapterNumber := ParseDecimal(StripOneSlash(folder.name));
      var chapterFiles := ChapterFiles(entries, folder.name);
      if |chapterFiles| > 0 {
        chapters := chapters + [ChapterInfo(chapterNumber, ChapterTitle(chapterNumber),
                                            |chapterFiles|, folder.name, zipFilePath)];
      }
      assert folders[..i + 1][..i] == folders[..i];
    }
    assert folders[..|folders|] == folders;
  }

  // ---- properties ----

  /** Every pushed record is the record of an admitted folder. */
  lemma {:induction false} PushedSound(folders: seq<Entry>, keep: Entry -> bool, record: Entry --> ChapterInfo)
    requires forall i :: 0 <= i < |folders| ==> record.requires(folders[i])
    ensures forall c :: c in Pushed(folders, keep, record) ==>
              exists k :: 0 <= k < |folders| && keep(folders[k]) && c == record(folders[k])
  {
    if folders != [] {
      var init := folders[..|folders| - 1];
      PushedSound(init, keep, record);
      forall c | c in Pushed(init, keep, record)
        ensures exists k :: 0 <= k < |folders| && keep(folders[k]) && c == record(folders[k])
      {
        var k :| 0 <= k < |init| && keep(init[k]) && c == record(init[k]);
        assert folders[k] == init[k];
      }
    }
  }

  /** Every admitted folder has its record pushed. */
  lemma {:induction false} PushedComplete(folders: seq<Entry>, keep: Entry -> bool, record: Entry --> ChapterInfo)
    requires forall i :: 0 <= i < |folders| ==> record.requires(folders[i])
    ensures forall k :: 0 <= k < |folders| && keep(folders[k]) ==> record(folders[k]) in Pushed(folders, keep, record)
  {
    if folders != [] {
      var init := folders[..|folders| - 1];
      PushedComplete(init, keep, record);
      forall k | 0 <= k < |init| ensures folders[k] == init[k] { }
    }
  }

  /** When every folder is admitted, the i-th record is the i-th folder's. */
  lemma {:induction false} PushedInOrder(folders: seq<Entry>, keep: Entry -> bool, record: Entry --> ChapterInfo)
    requires forall i :: 0 <= i < |folders| ==> record.requires(folders[i])
    requires forall i :: 0 <= i < |folders| ==> keep(folders[i])
    ensures |Pushed(folders, keep, record)| == |folders|
    ensures forall i :: 0 <= i < |folders| ==> Pushed(folders, keep, record)[i] == record(folders[i])
  {
    if folders != [] {
      var init := folders[..|folders| - 1];
      PushedInOrder(init, keep, record);
      forall i | 0 <= i < |init| ensures folders[i] == init[i] { }
    }
  }

  /** Every folder chapter is the record of one of the folders, and that
      folder holds an image. */
  lemma {:induction false} FolderChaptersSound(entries: seq<Entry>, folders: seq<Entry>, zipFilePath: string)
    requires forall i :: 0 <= i < |folders| ==> IsChapterFolder(folders[i])
    ensures forall c :: c in FolderChapters(entries, folders, zipFilePath) ==>
              exists k :: 0 <= k < |folders| && HasImages(entries, folders[k])
                          && c == ChapterOf(entries, folders[k], zipFilePath)
  {
    var keep, record := KeepFolder(entries), RecordOf(entries, zipFilePath);
    PushedSound(folders, keep, record);
    forall c | c in FolderChapters(entries, folders, zipFilePath)
      ensures exists k :: 0 <= k < |folders| && HasImages(entries, folders[k])
                          && c == ChapterOf(entries, folders[k], zipFilePath)
    {
      var k :| 0 <= k < |folders| && keep(folders[k]) && c == record(folders[k]);
      assert HasImages(entries, folders[k]);
    }
  }

  /** Every folder that holds an image contributes its record. */
  lemma {:induction false} FolderChaptersComplete(entries: seq<Entry>, folders: seq<Entry>, zipFilePath: string)
    requires forall i :: 0 <= i < |folders| ==> IsChapterFolder(folders[i])
    ensures forall k :: 0 <= k < |folders| && HasImages(entries, folders[k]) ==>
              ChapterOf(entries, folders[k], zipFilePath) in FolderChapters(entries, folders, zipFilePath)
  {
    var keep, record := KeepFolder(entries), RecordOf(entries, zipFilePath);
    PushedComplete(folders, keep, record);
    forall k | 0 <= k < |folders| && HasImages(entries, folders[k])
      ensures ChapterOf(entries, folders[k], zipFilePath) in FolderChapters(entries, folders, zipFilePath)
    {
      assert keep(folders[k]);
      assert record(folders[k]) == ChapterOf(entries, folders[k], zipFilePath);
    }
  }

  /** When every folder holds an image, the i-th folder gives the i-th
      chapter: nothing is merged or reordered, so `01/` and `1/` both give a
      chapter numbered 1. */
  lemma {:induction false} FolderChaptersInOrder(entries: seq<Entry>, folders: seq<Entry>, zipFilePath: string)
    requires forall i :: 0 <= i < |folders| ==> IsChapterFolder(folders[i])
    requires forall i :: 0 <= i < |folders| ==> HasImages(entries, folders[i])
    ensures |FolderChapters(entries, folders, zipFilePath)| == |folders|
    ensures forall i :: 0 <= i < |folders| ==>
              FolderChapters(entries, folders, zipFilePath)[i] == ChapterOf(entries, folders[i], zipFilePath)
  {
    var keep, record := KeepFolder(entries), RecordOf(entries, zipFilePath);
    assert forall i :: 0 <= i < |folders| ==> keep(folders[i]);
    PushedInOrder(folders, keep, record);
    forall i | 0 <= i < |folders|
      ensures FolderChapters(entries, folders, zipFilePath)[i] == ChapterOf(entries, folders[i], zipFilePath)
    {
      assert record(folders[i]) == ChapterOf(entries, folders[i], zipFilePath);
    }
  }

  /** The title spells the chapter number back: between `第` and `章` sit
      decimal digits that read as the number. */
  lemma {:induction false} ChapterTitleSpellsNumber(n: nat)
    ensures var t := ChapterTitle(n);
      && |t| >= 3 && t[0] == '第' && t[|t| - 1] == '章'
      && AllDigits(t[1..|t| - 1]) && ParseDecimal(t[1..|t| - 1]) == n
  {
    var t := ChapterTitle(n);
    assert t[1..|t| - 1] == Decimal(n);
    ParseDecimalOfDecimal(n);
  }

  /** A folder named with the decimal form of `n` is chapter `n`; leading
      zeros do not change the number, so `007/` and `7/` are the same
      chapter number. */
  lemma {:induction false} ChapterNumberOfFolderName(k: nat, n: nat)
    ensures IsChapterFolder(Entry(Zeros(k) + Decimal(n) + "/", true))
    ensures ChapterNumber(Entry(Zeros(k) + Decimal(n) + "/", true)) == n
  {
    var d := Zeros(k) + Decimal(n);
    assert StripOneSlash(d + "/") == d;
    ParseDecimalLeadingZeros(k, Decimal(n));
    ParseDecimalOfDecimal(n);
  }

  /** With at least one chapter folder, the result is exactly the records of
      the chapter folders that hold an image, in entry order. */
  lemma {:induction false} DetectChaptersWithFolders(entries: seq<Entry>, zipFilePath: string)
    requires exists e :: e in entries && IsChapterFolder(e)
    ensures DetectChapters(entries, zipFilePath) == FolderChapters(entries, ChapterFolders(entries), zipFilePath)
    ensures forall c :: c in DetectChapters(entries, zipFilePath) ==>
              exists e :: e in entries && IsChapterFolder(e) && HasImages(entries, e)
                          && c == ChapterOf(entries, e, zipFilePath)
    ensures forall e :: e in entries && IsChapterFolder(e) && HasImages(entries, e) ==>
              ChapterOf(entries, e, zipFilePath) in DetectChapters(entries, zipFilePath)
  {
    var folders := ChapterFolders(entries);
    FiltersKeepAccepted(entries, "");
    var e :| e in entries && IsChapterFolder(e);
    assert e in folders;
    assert DetectChapters(entries, zipFilePath) == FolderChapters(entries, folders, zipFilePath);
    ChapterFoldersSound(entries, zipFilePath);
    ChapterFoldersComplete(entries, zipFilePath);
  }

  lemma {:induction false} ChapterFoldersSound(entries: seq<Entry>, zipFilePath: string)
    ensures forall c :: c in FolderChapters(entries, ChapterFolders(entries), zipFilePath) ==>
              exists e :: e in entries && IsChapterFolder(e) && HasImages(entries, e)
                          && c == ChapterOf(entries, e, zipFilePath)
  {
    var folders := ChapterFolders(entries);
    FiltersKeepAccepted(entries, "");
    FolderChaptersSound(entries, folders, zipFilePath);
    forall c | c in FolderChapters(entries, folders, zipFilePath)
      ensures exists e :: e in entries && IsChapterFolder(e) && HasImages(entries, e)
                          && c == ChapterOf(entries, e, zipFilePath)
    {
      var k :| 0 <= k < |folders| && HasImages(entries, folders[k]) && c == ChapterOf(entries, folders[k], zipFilePath);
      assert folders[k] in folders;
    }
  }

  lemma {:induction false} ChapterFoldersComplete(entries: seq<Entry>, zipFilePath: string)
    ensures forall e :: e in entries && IsChapterFolder(e) && HasImages(entries, e) ==>
              ChapterOf(entries, e, zipFilePath) in FolderChapters(entries, ChapterFolders(entries), zipFilePath)
  {
    var folders := ChapterFolders(entries);
    FiltersKeepAccepted(entries, "");
    FolderChaptersComplete(entries, folders, zipFilePath);
    forall e | e in entries && IsChapterFolder(e) && HasImages(entries, e)
      ensures ChapterOf(entries, e, zipFilePath) in FolderChapters(entries, folders, zipFilePath)
    {
      assert e in folders;
      var k :| 0 <= k < |folders| && folders[k] == e;
    }
  }

  /** Without any chapter folder the archive is one chapter numbered 1 that
      counts every image entry at any depth, or nothing when there is no
      image at all. */
  lemma {:induction false} DetectChaptersFallback(entries: seq<Entry>, zipFilePath: string)
    requires forall e :: e in entries ==> !IsChapterFolder(e)
    ensures |DetectChapters(entries, zipFilePath)| <= 1
    ensures DetectChapters(entries, zipFilePath) == [] <==>
              forall e :: e in entries ==> e.isDirectory || !IsImageFile(e.name)
    ensures DetectChapters(entries, zipFilePath) != [] ==>
              var c := DetectChapters(entries, zipFilePath)[0];
              c.number == 1 && c.originalFolder == "" && c.fileCount == |AllImages(entries)| >= 1
  {
    var folders := ChapterFolders(entries);
    FiltersKeepAccepted(entries, "");
    NoChapterFolders(entries);
    var all := AllImages(entries);
    if |all| > 0 {
      assert all[0] in all;
    }
  }

  /** A name lies in at most one digit folder: if it starts with both `d1/`
      and `d2/` then `d1 == d2`. So `1/` never captures `10/x.jpg`. */
  lemma {:induction false} FoldersDoNotOverlap(d1: string, d2: string, name: string)
    requires AllDigits(d1) && AllDigits(d2)
    requires StartsWith(name, d1 + "/") && StartsWith(name, d2 + "/")
    ensures d1 == d2
  {
    assert name[|d1|] == '/' && name[|d2|] == '/';
    assert forall j :: 0 <= j < |d1| ==> name[j] == d1[j] && IsDigit(name[j]);
    assert forall j :: 0 <= j < |d2| ==> name[j] == d2[j] && IsDigit(name[j]);
    assert |d1| == |d2|;
  }
}
