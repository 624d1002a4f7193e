/** The page list and image-id map of a chapter: built when a chapter is
    added (server.js, chapter-add route) and rebuilt lazily by the
    file-list route when the stored list is empty. */
module PageIndex {
  import opened Wrappers
  import opened Text
  import opened Archives
  import opened Collation

  /** The chapter's page list: its image entries in natural name order. */
  function PageList(entries: seq<Entry>): (r: seq<string>)
    ensures multiset(r) == multiset(ImageEntryNames(entries))
  {
    SortNames(NaturalOrder, ImageEntryNames(entries))
  }

  /** `String(s).padStart(width, '0')`: never truncates. */
  function PadZeros(s: string, width: nat): (r: string)
    ensures |r| == if |s| >= width then |s| else width
  {
    if |s| >= width then s else Zeros(width - |s|) + s
  }

  /** The id of the page at 1-based position `n`: `img-` and at least five
      digits. */
  function ImageId(n: nat): string {
    "img-" + PadZeros(Decimal(n), 5)
  }

  /** Reads a page position back from an id; `None` for anything that is not
      `img-` followed by digits. */
  function ImageIdNumber(id: string): Option<nat> {
    if StartsWith(id, "img-") && AllDigits(id[4..]) && |id| > 4 then Some(ParseDecimal(id[4..]))
    else None
  }

  /** Ids read back as the position they were made from, so distinct
      positions never share an id. */
  lemma {:induction false} ImageIdRoundTrip(n: nat)
    ensures ImageIdNumber(ImageId(n)) == Some(n)
    ensures |ImageId(n)| >= 9
  {
    var d := Decimal(n);
    var p := PadZeros(d, 5);
    var id := ImageId(n);
    assert id[4..] == p;
    if |d| < 5 {
      ParseDecimalLeadingZeros(5 - |d|, d);
    }
    ParseDecimalOfDecimal(n);
  }

  lemma {:induction false} ImageIdInjective(m: nat, n: nat)
    ensures ImageId(m) == ImageId(n) ==> m == n
  {
    ImageIdRoundTrip(m);
    ImageIdRoundTrip(n);
  }

  /** The id map built from a page list: position `i` (from 1) under
      `ImageId(i)`. */
  function IdMapOf(list: seq<string>): map<string, string>
  {
    if list == [] then map[]
    else IdMapOf(list[..|list| - 1])[ImageId(|list|) := list[|list| - 1]]
  }

  /** The map has exactly one key per page, and each key names its page. */
  lemma {:induction false} IdMapOfContents(list: seq<string>)
    ensures forall i :: 1 <= i <= |list| ==>
              ImageId(i) in IdMapOf(list) && IdMapOf(list)[ImageId(i)] == list[i - 1]
    ensures forall k :: k in IdMapOf(list) ==> exists i :: 1 <= i <= |list| && k == ImageId(i)
    ensures |IdMapOf(list)| == |list|
  {
    IdMapOfValues(list);
    IdMapOfKeys(list);
  }

  lemma {:induction false} IdMapOfValues(list: seq<string>)
    ensures forall i :: 1 <= i <= |list| ==>
              ImageId(i) in IdMapOf(list) && IdMapOf(list)[ImageId(i)] == list[i - 1]
  {
    if list != [] {
      var n := |list|;
      var init := list[..n - 1];
      IdMapOfValues(init);
      forall i | 1 <= i <= n
        ensures ImageId(i) in IdMapOf(list) && IdMapOf(list)[ImageId(i)] == list[i - 1]
      {
        if i < n {
          ImageIdInjective(i, n);
          assert init[i - 1] == list[i - 1];
        }
      }
    }
  }

  lemma {:induction false} IdMapOfKeys(list: seq<string>)
    ensures forall k :: k in IdMapOf(list) ==> exists i :: 1 <= i <= |list| && k == ImageId(i)
    ensures |IdMapOf(list)| == |list|
  {
    if list != [] {
      var n := |list|;
      var init := list[..n - 1];
      IdMapOfKeys(init);
      forall i | 1 <= i < n ensures ImageId(i) != ImageId(n) {
        ImageIdInjective(i, n);
      }
      assert ImageId(n) !in IdMapOf(init);
    }
  }

  /** The entry walk and sort shared by the chapter-add and file-list
      routes. */
  method CollectPageList(entries: seq<Entry>) returns (imageList: seq<string>)
    ensures imageList == PageList(entries)
  {
    imageList := CollectImageNames(entries);
    imageList := SortNames(NaturalOrder, imageList);
  }

  /** The `forEach` over the entries that keeps the image names. */
  method CollectImageNames(entries: seq<Entry>) returns (imageList: seq<string>)
    ensures imageList == ImageEntryNames(entries)
  {
    imageList := [];
    for i := 0 to |entries|
      invariant imageList == ImageEntryNames(entries[..i])
    {
      var entry := entries[i];
      assert entries[..i + 1][..i] == entries[..i];
      assert ImageEntryNames(entries[..i + 1])
             == ImageEntryNames(entries[..i]) + (if IsArchiveImage(entry) then [entry.name] else []);
      if !entry.isDirectory {
        var ext := Extname(entry.name);
        if IsArchiveImageExtension(ext) {
          imageList := imageList + [entry.name];
        }
      }
    }
    assert entries[..|entries|] == entries;
  }

  /** The pre-parse of the chapter-add route: the page list and its id map;
      an archive that cannot be opened leaves both empty. */
  method BuildImageIndex(archive: Archive) returns (imageList: seq<string>, imageIdMap: map<string, string>)
    ensures archive.Readable? ==> imageList == PageList(archive.entries) && imageIdMap == IdMapOf(imageList)
    ensures !archive.Readable? ==> imageList == [] && imageIdMap == map[]
  {
    imageList := [];
    imageIdMap := map[];
    if !archive.Readable? {
      return;
    }
    imageList := CollectPageList(archive.entries);
    for index := 0 to |imageList|
      invariant imageIdMap == IdMapOf(imageList[..index])
    {
      imageIdMap := imageIdMap[ImageId(index + 1) := imageList[index]];
      assert imageList[..index + 1][..index] == imageList[..index];
    }
    assert imageList[..|imageList|] == imageList;
  }

  /** Every page of the list names an image entry of the archive. */
  lemma {:induction false} PageListNamesImages(entries: seq<Entry>)
    ensures forall n :: n in PageList(entries) ==>
              exists e :: e in entries && IsArchiveImage(e) && e.name == n
    ensures forall e :: e in entries && IsArchiveImage(e) ==> e.name in PageList(entries)
  {
    ImageEntryNamesMembers(entries);
    var names := ImageEntryNames(entries);
    forall n | n in PageList(entries) ensures n in names {
      assert n in multiset(PageList(entries));
    }
    forall e | e in entries && IsArchiveImage(e) ensures e.name in PageList(entries) {
      assert e.name in multiset(names);
    }
  }

  datatype FileListResponse = Files(files: seq<string>) | ListFailed

  /** A chapter's stored row: its page list and id map (a missing map is
      the empty map). */
  class ChapterRecord {
    var imageList: seq<string>
    var imageIdMap: map<string, string>

    constructor(imageList: seq<string>, imageIdMap: map<string, string>)
      ensures this.imageList == imageList && this.imageIdMap == imageIdMap
    {
      this.imageList := imageList;
      this.imageIdMap := imageIdMap;
    }

    /** Every id in the map names a page of the list. */
    predicate Consistent()
      reads this
    {
      forall k :: k in imageIdMap ==> imageIdMap[k] in imageList
    }

    /** The file-list route: a stored non-empty list is returned as is;
        otherwise the list is rebuilt from the archive and stored, leaving
        the id map untouched; an archive that cannot be opened is an
        error. A record whose list is empty but whose map the chapter-add
        route built from this archive is consistent again after the
        rebuild. */
    method ListFiles(archive: Archive) returns (r: FileListResponse)
      modifies this
      ensures old(imageList) != [] ==> r == Files(old(imageList)) && imageList == old(imageList)
      ensures old(imageList) == [] && archive.Readable? ==>
                r == Files(PageList(archive.entries)) && imageList == PageList(archive.entries)
      ensures old(imageList) == [] && !archive.Readable? ==> r == ListFailed && imageList == old(imageList)
      ensures imageIdMap == old(imageIdMap)
      ensures old(imageList) == [] && archive.Readable? && imageIdMap == IdMapOf(PageList(archive.entries)) ==>
                Consistent()
    {
      if imageList != [] {
        return Files(imageList);
      }
      if !archive.Readable? {
        return ListFailed;
      }
      var rebuilt := CollectPageList(archive.entries);
      imageList := rebuilt;
      r := Files(rebuilt);
      BuiltIndexIsConsistent(rebuilt);
    }
  }

  /** A record built by the chapter-add route is consistent. */
  lemma {:induction false} BuiltIndexIsConsistent(list: seq<string>)
    ensures forall k :: k in IdMapOf(list) ==> IdMapOf(list)[k] in list
  {
    IdMapOfContents(list);
    forall k | k in IdMapOf(list) ensures IdMapOf(list)[k] in list {
      var i :| 1 <= i <= |list| && k == ImageId(i);
      assert list[i - 1] in list;
    }
  }
}
