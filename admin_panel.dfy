/** The page-level state of admin-script.js: the manga table's pagination
    and search, and the tag list of the upload form. The requests each step
    sends and the DOM it redraws are not part of this model. */
module AdminState {
  import opened Wrappers

  function Min(a: int, b: int): int { if a <= b then a else b }
  function Max(a: int, b: int): int { if a >= b then a else b }

  // ---- page arithmetic ----

  /** `Math.ceil(total / size)`: the fewest pages of `size` items holding
      `total` items. */
  function CeilDiv(total: nat, size: nat): (pages: nat)
    requires size >= 1
    ensures pages * size >= total
    ensures pages >= 1 ==> (pages - 1) * size < total
    ensures pages == 0 <==> total == 0
  {
    if total == 0 then 0
    else if total <= size then 1
    else 1 + CeilDiv(total - size, size)
  }

  /** `Math.max(1, Math.min(page, totalPages))`. */
  function ClampPage(page: int, totalPages: int): int {
    Max(1, Min(page, totalPages))
  }

  /** The clamp always lands on a page that can be shown, and leaves a page
      that is already in range alone. */
  lemma ClampPageInRange(page: int, totalPages: int)
    ensures 1 <= ClampPage(page, totalPages) <= Max(1, totalPages)
    ensures 1 <= page <= totalPages ==> ClampPage(page, totalPages) == page
    ensures page < 1 ==> ClampPage(page, totalPages) == 1
    ensures totalPages >= 1 && page > totalPages ==> ClampPage(page, totalPages) == totalPages
  {
  }

  /** First and last item numbers the pagination line shows. */
  function FirstItem(page: int, size: int): int { (page - 1) * size + 1 }
  function LastItem(page: int, size: int, total: int): int { Min(page * size, total) }

  /** The pages tile the list: every page from 1 to the last shows between
      one and `size` items, each page starts right after the previous one
      ends, the first starts at item 1 and the last ends at the final
      item. */
  lemma {:induction false} PagesTileTheList(total: nat, size: nat, page: int)
    requires size >= 1 && 1 <= page <= CeilDiv(total, size)
    ensures 1 <= FirstItem(page, size) <= LastItem(page, size, total) <= total
    ensures LastItem(page, size, total) - FirstItem(page, size) < size
    ensures page < CeilDiv(total, size) ==>
              LastItem(page, size, total) == page * size
              && LastItem(page, size, total) + 1 == FirstItem(page + 1, size)
    ensures page == CeilDiv(total, size) ==> LastItem(page, size, total) == total
  {
    var pages := CeilDiv(total, size);
    assert (page - 1) * size <= (pages - 1) * size by {
      MulMonotone(page - 1, pages - 1, size);
    }
    if page < pages {
      MulMonotone(page, pages - 1, size);
    } else {
      assert page * size >= total;
    }
    assert page * size == (page - 1) * size + size;
    assert (page + 1 - 1) * size == page * size;
  }

  lemma MulMonotone(a: int, b: int, c: nat)
    requires a <= b
    ensures a * c <= b * c
  {
  }

  /** With nothing to list there are no pages; the clamp still shows page 1
      and the line reads `1-0`. */
  lemma EmptyListShowsPageOne(size: nat, page: int)
    requires size >= 1
    ensures CeilDiv(0, size) == 0
    ensures ClampPage(page, 0) == 1
    ensures FirstItem(1, size) == 1 && LastItem(1, size, 0) == 0
  {
  }

  // ---- search text ----

  /** The characters `String.prototype.trim` removes: ECMAScript white
      space and line terminators. */
  predicate IsTrimmed(c: char) {
    c == '\t' || c == '\n' || c == '\U{000B}' || c == '\U{000C}' || c == '\r' || c == ' '
    || c == '\U{00A0}' || c == '\U{1680}' || ('\U{2000}' <= c <= '\U{200A}')
    || c == '\U{2028}' || c == '\U{2029}' || c == '\U{202F}' || c == '\U{205F}'
    || c == '\U{3000}' || c == '\U{FEFF}'
  }

  function TrimStart(s: string): (r: string)
    ensures |r| <= |s| && r == s[|s| - |r|..]
    ensures forall k :: 0 <= k < |s| - |r| ==> IsTrimmed(s[k])
    ensures r == [] || !IsTrimmed(r[0])
  {
    if s != [] && IsTrimmed(s[0]) then TrimStart(s[1..]) else s
  }

  function TrimEnd(s: string): (r: string)
    ensures |r| <= |s| && r == s[..|r|]
    ensures forall k :: |r| <= k < |s| ==> IsTrimmed(s[k])
    ensures r == [] || !IsTrimmed(r[|r| - 1])
  {
    if s != [] && IsTrimmed(s[|s| - 1]) then TrimEnd(s[..|s| - 1]) else s
  }

  /** `trim()`: the text between the white space at either end. */
  function Trim(s: string): string {
    TrimEnd(TrimStart(s))
  }

  /** The trimmed text is a piece of the input with only white space cut
      from either end. */
  lemma {:induction false} TrimCutsOnlyWhiteSpace(s: string)
    ensures var i := |s| - |TrimStart(s)|;
      i + |Trim(s)| <= |s| && Trim(s) == s[i..i + |Trim(s)|]
      && (forall k :: 0 <= k < i ==> IsTrimmed(s[k]))
      && (forall k :: i + |Trim(s)| <= k < |s| ==> IsTrimmed(s[k]))
  {
    var t := TrimStart(s);
    var i := |s| - |t|;
    var r := TrimEnd(t);
    PieceOfPiece(s, i, t, r, IsTrimmed);
  }

  /** A prefix `r` of the tail `t` of `s` is a slice of `s`, and what `r`
      leaves of `t` is what it leaves of `s`. */
  lemma {:induction false} PieceOfPiece(s: string, i: nat, t: string, r: string, p: char -> bool)
    requires i <= |s| && t == s[i..] && |r| <= |t| && r == t[..|r|]
    requires forall k :: |r| <= k < |t| ==> p(t[k])
    ensures r == s[i..i + |r|]
    ensures forall k :: i + |r| <= k < |s| ==> p(s[k])
  {
    forall k | i + |r| <= k < |s| ensures p(s[k]) {
      assert s[k] == t[k - i];
    }
  }

  /** The trimmed text neither starts nor ends with white space. */
  lemma {:induction false} TrimmedEnds(s: string)
    ensures Trim(s) == [] || (!IsTrimmed(Trim(s)[0]) && !IsTrimmed(Trim(s)[|Trim(s)| - 1]))
  {
    var t := TrimStart(s);
    var r := Trim(s);
    if r != [] {
      assert r == t[..|r|];
      assert r[0] == t[0];
    }
  }

  // ---- the tag list ----

  /** One tag of the catalogue the page loads. */
  datatype Tag = Tag(id: int, name: string)

  datatype TagOutcome = TagAdded | NoTagSelected | UnknownTag | TagAlreadyAdded

  predicate NoDuplicates(s: seq<int>) {
    forall i, j :: 0 <= i < j < |s| ==> s[i] != s[j]
  }

  predicate HasTag(tags: seq<Tag>, id: int) {
    exists i :: 0 <= i < |tags| && tags[i].id == id
  }

  /** `list.filter(id => id !== tagId)`. */
  function RemoveAll(s: seq<int>, id: int): (r: seq<int>)
    ensures |r| <= |s|
    ensures forall x :: x in r <==> x in s && x != id
  {
    if s == [] then [] else (if s[0] == id then [] else [s[0]]) + RemoveAll(s[1..], id)
  }

  /** Filtering works piece by piece, so the ids kept stay in their
      order. */
  lemma {:induction false} RemoveAllAppend(a: seq<int>, b: seq<int>, id: int)
    ensures RemoveAll(a + b, id) == RemoveAll(a, id) + RemoveAll(b, id)
  {
    if a != [] {
      assert (a + b)[1..] == a[1..] + b;
      RemoveAllAppend(a[1..], b, id);
    } else {
      assert a + b == b;
    }
  }

  /** A list without the id is left as it is. */
  lemma {:induction false} RemoveAllAbsent(s: seq<int>, id: int)
    requires id !in s
    ensures RemoveAll(s, id) == s
  {
    if s != [] {
      RemoveAllAbsent(s[1..], id);
      assert s == [s[0]] + s[1..];
    }
  }

  /** Filtering keeps a list free of duplicates. */
  lemma {:induction false} RemoveAllNoDuplicates(s: seq<int>, id: int)
    requires NoDuplicates(s)
    ensures NoDuplicates(RemoveAll(s, id))
  {
    if s != [] {
      var rest := RemoveAll(s[1..], id);
      RemoveAllNoDuplicates(s[1..], id);
      if s[0] != id {
        assert s[0] !in s[1..];
        assert s[0] !in rest;
        var r := [s[0]] + rest;
        forall i, j | 0 <= i < j < |r| ensures r[i] != r[j] {
          if i == 0 {
            assert r[j] == rest[j - 1];
            assert rest[j - 1] in rest;
          } else {
            assert r[i] == rest[i - 1] && r[j] == rest[j - 1];
          }
        }
      }
    }
  }

  class AdminPanel {
    var currentPage: int
    var itemsPerPage: int
    var totalPages: int
    var totalItems: int
    var currentSearch: string
    var currentSelectedTags: seq<int>
    var tags: seq<Tag>

    /** What every step keeps: a usable page size and a tag list without
        duplicates. */
    predicate Valid()
      reads this
    {
      itemsPerPage >= 1 && NoDuplicates(currentSelectedTags)
    }

    /** The values the script starts with. */
    constructor()
      ensures Valid()
      ensures currentPage == 1 && itemsPerPage == 10 && totalPages == 1 && totalItems == 0
      ensures currentSearch == "" && currentSelectedTags == [] && tags == []
    {
      currentPage := 1;
      itemsPerPage := 10;
      totalPages := 1;
      totalItems := 0;
      currentSearch := "";
      currentSelectedTags := [];
      tags := [];
    }

    /** `goToPage`. */
    method GoToPage(page: int)
      modifies this
      ensures currentPage == ClampPage(page, totalPages)
      ensures 1 <= currentPage <= Max(1, totalPages)
      ensures 1 <= page <= totalPages ==> currentPage == page
      ensures itemsPerPage == old(itemsPerPage) && totalPages == old(totalPages) && totalItems == old(totalItems)
      ensures currentSearch == old(currentSearch) && currentSelectedTags == old(currentSelectedTags)
      ensures tags == old(tags)
      ensures old(Valid()) ==> Valid()
    {
      ClampPageInRange(page, totalPages);
      currentPage := Max(1, Min(page, totalPages));
    }

    /** `previousPage`: one back, never before page 1. */
    method PreviousPage()
      modifies this
      ensures currentPage == ClampPage(old(currentPage) - 1, totalPages)
      ensures old(currentPage) <= 1 ==> currentPage == 1
      ensures 2 <= old(currentPage) <= totalPages + 1 ==> currentPage == old(currentPage) - 1
      ensures itemsPerPage == old(itemsPerPage) && totalPages == old(totalPages) && totalItems == old(totalItems)
      ensures currentSearch == old(currentSearch) && currentSelectedTags == old(currentSelectedTags)
      ensures tags == old(tags)
      ensures old(Valid()) ==> Valid()
    {
      GoToPage(currentPage - 1);
    }

    /** `nextPage`: one forward, never past the last page. */
    method NextPage()
      modifies this
      ensures currentPage == ClampPage(old(currentPage) + 1, totalPages)
      ensures totalPages >= 1 && old(currentPage) >= totalPages ==> currentPage == totalPages
      ensures 0 <= old(currentPage) < totalPages ==> currentPage == old(currentPage) + 1
      ensures itemsPerPage == old(itemsPerPage) && totalPages == old(totalPages) && totalItems == old(totalItems)
      ensures currentSearch == old(currentSearch) && currentSelectedTags == old(currentSelectedTags)
      ensures tags == old(tags)
      ensures old(Valid()) ==> Valid()
    {
      GoToPage(currentPage + 1);
    }

    /** `changePageSize`: the page-size selector offers only positive
        sizes. */
    method ChangePageSize(size: int)
      requires size >= 1
      modifies this
      ensures itemsPerPage == size && currentPage == 1
      ensures totalPages == old(totalPages) && totalItems == old(totalItems)
      ensures currentSearch == old(currentSearch) && currentSelectedTags == old(currentSelectedTags)
      ensures tags == old(tags)
      ensures old(Valid()) ==> Valid()
    {
      itemsPerPage := size;
      currentPage := 1;
    }

    /** What `loadMangaList` stores from a listing: a missing or zero total
        is 0, a missing or zero page is 1, and the page count is computed
        from the total. */
    method ApplyListing(total: nat, page: nat)
      requires Valid()
      modifies this
      ensures Valid()
      ensures totalItems == total && totalPages == CeilDiv(total, itemsPerPage)
      ensures currentPage == if page == 0 then 1 else page
      ensures itemsPerPage == old(itemsPerPage) && currentSearch == old(currentSearch)
      ensures currentSelectedTags == old(currentSelectedTags) && tags == old(tags)
    {
      totalItems := total;
      currentPage := if page == 0 then 1 else page;
      totalPages := CeilDiv(totalItems, itemsPerPage);
    }

    /** `searchManga`: the trimmed input becomes the search, from page 1. */
    method SearchManga(input: string)
      modifies this
      ensures currentSearch == Trim(input) && currentPage == 1
      ensures itemsPerPage == old(itemsPerPage) && totalPages == old(totalPages) && totalItems == old(totalItems)
      ensures currentSelectedTags == old(currentSelectedTags) && tags == old(tags)
      ensures old(Valid()) ==> Valid()
    {
      currentSearch := Trim(input);
      currentPage := 1;
    }

    /** `resetSearch`: no search, page 1. */
    method ResetSearch()
      modifies this
      ensures currentSearch == "" && currentPage == 1
      ensures itemsPerPage == old(itemsPerPage) && totalPages == old(totalPages) && totalItems == old(totalItems)
      ensures currentSelectedTags == old(currentSelectedTags) && tags == old(tags)
      ensures old(Valid()) ==> Valid()
    {
      currentSearch := "";
      currentPage := 1;
    }

    /** `loadAllTags` storing the catalogue it fetched. */
    method ReceiveTags(fetched: seq<Tag>)
      modifies this
      ensures tags == fetched
      ensures currentPage == old(currentPage) && itemsPerPage == old(itemsPerPage)
      ensures totalPages == old(totalPages) && totalItems == old(totalItems)
      ensures currentSearch == old(currentSearch) && currentSelectedTags == old(currentSelectedTags)
      ensures old(Valid()) ==> Valid()
    {
      tags := fetched;
    }

    /** `addTagToManga`: `selected` is the parsed selector value (`None`
        for `NaN`). Only a non-zero id of a known tag not yet chosen is
        appended; anything else leaves the list as it was. */
    method AddTagToManga(selected: Option<int>) returns (outcome: TagOutcome)
      modifies this
      ensures outcome == TagAdded <==>
                selected.Some? && selected.value != 0 && HasTag(tags, selected.value)
                && selected.value !in old(currentSelectedTags)
      ensures outcome == TagAdded ==> currentSelectedTags == old(currentSelectedTags) + [selected.value]
      ensures outcome != TagAdded ==> currentSelectedTags == old(currentSelectedTags)
      ensures outcome == NoTagSelected <==> selected.None? || selected.value == 0
      ensures currentPage == old(currentPage) && itemsPerPage == old(itemsPerPage)
      ensures totalPages == old(totalPages) && totalItems == old(totalItems)
      ensures currentSearch == old(currentSearch) && tags == old(tags)
      ensures old(Valid()) ==> Valid()
    {
      if selected.None? || selected.value == 0 {
        return NoTagSelected;
      }
      var tagId := selected.value;
      var found := false;
      var i := 0;
      while i < |tags|
        invariant 0 <= i <= |tags|
        invariant found <==> exists j :: 0 <= j < i && tags[j].id == tagId
      {
        if tags[i].id == tagId {
          found := true;
        }
        i := i + 1;
      }
      if !found {
        return UnknownTag;
      }
      if tagId in currentSelectedTags {
        return TagAlreadyAdded;
      }
      currentSelectedTags := currentSelectedTags + [tagId];
      outcome := TagAdded;
    }

    /** `removeTagFromCurrentList`: every occurrence of the id goes, the
        rest keep their order. */
    method RemoveTagFromCurrentList(tagId: int)
      modifies this
      ensures currentSelectedTags == RemoveAll(old(currentSelectedTags), tagId)
      ensures tagId !in currentSelectedTags
      ensures currentPage == old(currentPage) && itemsPerPage == old(itemsPerPage)
      ensures totalPages == old(totalPages) && totalItems == old(totalItems)
      ensures currentSearch == old(currentSearch) && tags == old(tags)
      ensures old(Valid()) ==> Valid()
    {
      if NoDuplicates(currentSelectedTags) {
        RemoveAllNoDuplicates(currentSelectedTags, tagId);
      }
      currentSelectedTags := RemoveAll(currentSelectedTags, tagId);
    }

    /** The tag reset of `resetForm`. */
    method ResetSelectedTags()
      modifies this
      ensures currentSelectedTags == []
      ensures currentPage == old(currentPage) && itemsPerPage == old(itemsPerPage)
      ensures totalPages == old(totalPages) && totalItems == old(totalItems)
      ensures currentSearch == old(currentSearch) && tags == old(tags)
      ensures old(Valid()) ==> Valid()
    {
      currentSelectedTags := [];
    }
  }
}
