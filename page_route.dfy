/** The chapter image route of server.js: an image id or a URL-encoded
    entry name is turned into the archive entry to send and its content
    type. */
module PageRoute {
  import opened Wrappers
  import opened Text
  import opened Archives
  import opened Uri
  import opened PageIndex

  datatype PageResponse =
    | ServePage(entry: Entry, contentType: string)
    | ChapterFileMissing   // 404: the chapter file is not on disk
    | ImageNotFound        // 404: no entry matches
    | ServerError          // 500: the archive or the name could not be read

  /** The name looked for: what the id map holds for the key when that is a
      non-empty name, otherwise the key URL-decoded (`None` for a
      `URIError`). */
  function TargetName(idMap: map<string, string>, key: string): Option<string>
  {
    if key in idMap && idMap[key] != "" then Some(idMap[key]) else DecodeURIComponent(key)
  }

  /** A file entry named `target` or lying in some folder under that name. */
  predicate Matches(e: Entry, target: string) {
    !e.isDirectory && (e.name == target || EndsWith(e.name, "/" + target))
  }

  /** The `find` as written: the first entry, in archive order, matching
      either way. */
  function FindFirstMatch(entries: seq<Entry>, target: string): Option<Entry>
  {
    if entries == [] then None
    else if Matches(entries[0], target) then Some(entries[0])
    else FindFirstMatch(entries[1..], target)
  }

  function FindExact(entries: seq<Entry>, target: string): Option<Entry>
  {
    if entries == [] then None
    else if !entries[0].isDirectory && entries[0].name == target then Some(entries[0])
    else FindExact(entries[1..], target)
  }

  /** The lookup corrected: an entry named exactly `target` first, and only
      when there is none the first entry in a folder under that name. */
  function FindEntry(entries: seq<Entry>, target: string): Option<Entry>
  {
    match FindExact(entries, target)
    case Some(e) => Some(e)
    case None => FindFirstMatch(entries, target)
  }

  function Respond(found: Option<Entry>): PageResponse {
    match found
    case None => ImageNotFound
    case Some(e) => ServePage(e, MimeTypeByExtension(Extname(e.name)))
  }

  /** The route as written. */
  function ResolvePageAsWritten(archive: Archive, idMap: map<string, string>, key: string): PageResponse
  {
    match archive
    case Missing => ChapterFileMissing
    case Corrupt => ServerError
    case Readable(entries) =>
      match TargetName(idMap, key)
      case None => ServerError
      case Some(target) => Respond(FindFirstMatch(entries, target))
  }

  /** The route with the corrected lookup. */
  function ResolvePage(archive: Archive, idMap: map<string, string>, key: string): PageResponse
  {
    match archive
    case Missing => ChapterFileMissing
    case Corrupt => ServerError
    case Readable(entries) =>
      match TargetName(idMap, key)
      case None => ServerError
      case Some(target) => Respond(FindEntry(entries, target))
  }

  // ---- the lookups ----

  /** The first match is an entry that matches, and none before it does;
      there is none exactly when no entry matches. */
  lemma {:induction false} FindFirstMatchIsFirst(entries: seq<Entry>, target: string)
    ensures FindFirstMatch(entries, target).None? <==> forall e :: e in entries ==> !Matches(e, target)
    ensures FindFirstMatch(entries, target).Some? ==>
              exists k :: 0 <= k < |entries| && entries[k] == FindFirstMatch(entries, target).value
                && Matches(entries[k], target) && forall j :: 0 <= j < k ==> !Matches(entries[j], target)
  {
    if entries != [] {
      FindFirstMatchIsFirst(entries[1..], target);
      if !Matches(entries[0], target) {
        if FindFirstMatch(entries, target).Some? {
          var k :| 0 <= k < |entries[1..]| && entries[1..][k] == FindFirstMatch(entries, target).value
                && Matches(entries[1..][k], target) && forall j :: 0 <= j < k ==> !Matches(entries[1..][j], target);
          assert entries[k + 1] == entries[1..][k];
          forall j | 0 <= j < k + 1 ensures !Matches(entries[j], target) {
            if j > 0 {
              assert entries[j] == entries[1..][j - 1];
            }
          }
        }
        assert entries == [entries[0]] + entries[1..];
      } else {
        assert entries[0] in entries;
      }
    }
  }

  /** An exact match is found whenever a file entry carries the name. */
  lemma {:induction false} FindExactFinds(entries: seq<Entry>, target: string)
    ensures FindExact(entries, target).Some? ==>
              FindExact(entries, target).value in entries
              && !FindExact(entries, target).value.isDirectory && FindExact(entries, target).value.name == target
    ensures FindExact(entries, target).None? ==> forall e :: e in entries ==> e.isDirectory || e.name != target
  {
    if entries != [] {
      FindExactFinds(entries[1..], target);
      assert entries == [entries[0]] + entries[1..];
    }
  }

  /** The corrected lookup serves the exact entry when there is one, and
      otherwise behaves as written. */
  lemma {:induction false} FindEntryPrefersExact(entries: seq<Entry>, target: string)
    ensures (exists e :: e in entries && !e.isDirectory && e.name == target) ==>
              FindEntry(entries, target).Some? && FindEntry(entries, target).value in entries
              && !FindEntry(entries, target).value.isDirectory && FindEntry(entries, target).value.name == target
    ensures (forall e :: e in entries ==> e.isDirectory || e.name != target) ==>
              FindEntry(entries, target) == FindFirstMatch(entries, target)
  {
    FindExactFinds(entries, target);
  }

  // ---- the route ----

  /** As written, a served entry is the first entry in archive order that
      matches the target name, sent with the content type of its extension;
      the page is not found exactly when no entry matches. */
  lemma {:induction false} ResolvePageServesMatch(entries: seq<Entry>, idMap: map<string, string>, key: string)
    requires TargetName(idMap, key).Some?
    ensures var target := TargetName(idMap, key).value;
      match ResolvePageAsWritten(Readable(entries), idMap, key)
      case ServePage(e, contentType) =>
        (exists k :: 0 <= k < |entries| && entries[k] == e && Matches(e, target)
           && forall j :: 0 <= j < k ==> !Matches(entries[j], target))
        && contentType == MimeTypeByExtension(Extname(e.name))
      case ImageNotFound => forall e :: e in entries ==> !Matches(e, target)
      case _ => false
  {
    FindFirstMatchIsFirst(entries, TargetName(idMap, key).value);
  }

  /** With the corrected lookup a served entry still matches the target
      name, and the page is not found exactly when no entry matches. */
  lemma {:induction false} CorrectedPageServesMatch(entries: seq<Entry>, idMap: map<string, string>, key: string)
    requires TargetName(idMap, key).Some?
    ensures var target := TargetName(idMap, key).value;
      match ResolvePage(Readable(entries), idMap, key)
      case ServePage(e, contentType) =>
        e in entries && Matches(e, target) && contentType == MimeTypeByExtension(Extname(e.name))
      case ImageNotFound => forall e :: e in entries ==> !Matches(e, target)
      case _ => false
  {
    var target := TargetName(idMap, key).value;
    FindExactFinds(entries, target);
    FindFirstMatchIsFirst(entries, target);
  }

  /** The answer before the archive's contents matter: a missing chapter
      file is a 404, an unreadable archive or a malformed escape a 500. */
  lemma ResolvePageErrors(archive: Archive, idMap: map<string, string>, key: string)
    ensures ResolvePageAsWritten(archive, idMap, key) == ChapterFileMissing <==> archive == Missing
    ensures ResolvePageAsWritten(archive, idMap, key) == ServerError <==>
              archive == Corrupt || (archive.Readable? && TargetName(idMap, key) == None)
  {
  }

  /** The corrected lookup changes only which entry is served: both routes
      serve a page for the same requests and answer every other request
      alike. */
  lemma {:induction false} RoutesDifferOnlyInEntry(archive: Archive, idMap: map<string, string>, key: string)
    ensures ResolvePage(archive, idMap, key).ServePage? <==> ResolvePageAsWritten(archive, idMap, key).ServePage?
    ensures !ResolvePageAsWritten(archive, idMap, key).ServePage? ==>
              ResolvePage(archive, idMap, key) == ResolvePageAsWritten(archive, idMap, key)
  {
    if archive.Readable? && TargetName(idMap, key).Some? {
      var target := TargetName(idMap, key).value;
      FindExactFinds(archive.entries, target);
      FindFirstMatchIsFirst(archive.entries, target);
    }
  }

  /** A key the id map does not name is looked up as the name it encodes:
      `encodeURIComponent(name)` finds `name`. */
  lemma {:induction false} EncodedNameIsLookedUp(idMap: map<string, string>, name: string)
    requires EncodeURIComponent(name) !in idMap
    ensures TargetName(idMap, EncodeURIComponent(name)) == Some(name)
  {
    DecodeEncodeRoundTrip(name);
  }

  lemma {:induction false} ArchiveImageNameIsNotEmpty(e: Entry)
    requires IsArchiveImage(e)
    ensures e.name != ""
  {
    var ext := Extname(e.name);
    ExtnameShape(e.name);
    assert |Lower(ext)| >= 4;
  }

  /** A file matching the name of an archive image is an archive image with
      the same extension. */
  lemma {:induction false} MatchOfImageNameIsImage(e: Entry, image: Entry)
    requires IsArchiveImage(image) && Matches(e, image.name)
    ensures IsArchiveImage(e) && Extname(e.name) == Extname(image.name)
  {
    if e.name != image.name {
      ExtnameShape(image.name);
      assert |Lower(Extname(image.name))| >= 4;
      ExtensionNeedsSegment(image.name);
      ExtnameOfSuffix(e.name, image.name);
    }
  }

  /** As written, a target naming an image entry is served as an image that
      either is that entry's name or ends in `/` and that name. */
  lemma {:induction false} ImageNamedIsServedAsWritten(entries: seq<Entry>, idMap: map<string, string>, key: string, e: Entry)
    requires e in entries && IsArchiveImage(e)
    requires TargetName(idMap, key) == Some(e.name)
    ensures var r := ResolvePageAsWritten(Readable(entries), idMap, key);
      r.ServePage? && r.entry in entries && Matches(r.entry, e.name) && IsArchiveImage(r.entry)
      && StartsWith(r.contentType, "image/")
  {
    FindFirstMatchIsFirst(entries, e.name);
    assert Matches(e, e.name);
    var served := FindFirstMatch(entries, e.name).value;
    MatchOfImageNameIsImage(served, e);
    MimeTypeMatchesClassifier(Extname(served.name));
  }

  /** With the corrected lookup, a target naming an image entry exactly is
      served as that image. */
  lemma {:induction false} ImageNamedIsServed(entries: seq<Entry>, idMap: map<string, string>, key: string, e: Entry)
    requires e in entries && IsArchiveImage(e)
    requires TargetName(idMap, key) == Some(e.name)
    ensures var r := ResolvePage(Readable(entries), idMap, key);
      r.ServePage? && r.entry in entries && r.entry.name == e.name && IsArchiveImage(r.entry)
      && StartsWith(r.contentType, "image/")
  {
    FindEntryPrefersExact(entries, e.name);
    var served := FindEntry(entries, e.name).value;
    assert served.name == e.name && !served.isDirectory;
    assert IsArchiveImage(served);
    MimeTypeMatchesClassifier(Extname(served.name));
  }

  /** The id of a stored position is read through the map to its page. */
  lemma {:induction false} IdTargetsItsPage(list: seq<string>, i: nat)
    requires 1 <= i <= |list| && list[i - 1] != ""
    ensures TargetName(IdMapOf(list), ImageId(i)) == Some(list[i - 1])
  {
    IdMapOfContents(list);
  }

  /** As written, every id the chapter-add route stores serves an image
      named as its page or lying in a folder under that name. */
  lemma {:induction false} EveryIdServesAMatchingPage(entries: seq<Entry>, i: nat)
    requires 1 <= i <= |PageList(entries)|
    ensures var list := PageList(entries);
      var r := ResolvePageAsWritten(Readable(entries), IdMapOf(list), ImageId(i));
      r.ServePage? && r.entry in entries && !r.entry.isDirectory
      && (r.entry.name == list[i - 1] || EndsWith(r.entry.name, "/" + list[i - 1]))
      && IsArchiveImage(r.entry) && StartsWith(r.contentType, "image/")
  {
    var list := PageList(entries);
    PageListNamesImages(entries);
    var name := list[i - 1];
    assert name in list;
    var e :| e in entries && IsArchiveImage(e) && e.name == name;
    ArchiveImageNameIsNotEmpty(e);
    IdTargetsItsPage(list, i);
    ImageNamedIsServedAsWritten(entries, IdMapOf(list), ImageId(i), e);
  }

  /** With the corrected lookup, every id the chapter-add route stores
      serves exactly the page it was given, as an image: the property the id
      map exists for. */
  lemma {:induction false} EveryIdServesItsPage(entries: seq<Entry>, i: nat)
    requires 1 <= i <= |PageList(entries)|
    ensures var list := PageList(entries);
      var r := ResolvePage(Readable(entries), IdMapOf(list), ImageId(i));
      r.ServePage? && r.entry in entries && r.entry.name == list[i - 1] && IsArchiveImage(r.entry)
      && StartsWith(r.contentType, "image/")
  {
    var list := PageList(entries);
    PageListNamesImages(entries);
    var name := list[i - 1];
    assert name in list;
    var e :| e in entries && IsArchiveImage(e) && e.name == name;
    ArchiveImageNameIsNotEmpty(e);
    IdTargetsItsPage(list, i);
    ImageNamedIsServed(entries, IdMapOf(list), ImageId(i), e);
  }

  /** As written, an entry in a folder that the archive lists before a
      top-level entry of the same name shadows it: the page stored as
      `1.jpg` is answered with `a/1.jpg`. */
  lemma SuffixMatchShadowsExactEntry()
    ensures var entries := [Entry("a/1.jpg", false), Entry("1.jpg", false)];
      var r := ResolvePageAsWritten(Readable(entries), map["img-00001" := "1.jpg"], "img-00001");
      r.ServePage? && r.entry == Entry("a/1.jpg", false)
  {
    var entries := [Entry("a/1.jpg", false), Entry("1.jpg", false)];
    assert "a/1.jpg"[2..] == "1.jpg";
    assert EndsWith("a/1.jpg", "/" + "1.jpg");
    assert Matches(entries[0], "1.jpg");
  }

  /** The corrected lookup answers the same request with `1.jpg`. */
  lemma ExactEntryIsServed()
    ensures var entries := [Entry("a/1.jpg", false), Entry("1.jpg", false)];
      var r := ResolvePage(Readable(entries), map["img-00001" := "1.jpg"], "img-00001");
      r.ServePage? && r.entry == Entry("1.jpg", false)
  {
    var entries := [Entry("a/1.jpg", false), Entry("1.jpg", false)];
    assert entries[1..] == [Entry("1.jpg", false)];
    assert FindExact(entries, "1.jpg") == Some(Entry("1.jpg", false));
  }
}
