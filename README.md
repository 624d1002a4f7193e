# Manga archive server: pages, uploads and the admin page

This project models the core of a manga library server written for Node.js.
It covers two parts: how the server turns an uploaded ZIP/CBZ archive into
chapters, a cover and an ordered page list, and the state the admin page
keeps while it lists, searches and uploads manga.

It also proves properties of that model. The modules follow the source:

- `Archives`: archive entries, Node's `path.extname`, the two image
  classifiers (`isImageFile` and the six-extension test) and
  `getMimeTypeByExtension`.
- `Chapters`: `parseMangaZip`, which detects numbered chapter folders and
  otherwise falls back to a single chapter 1.
- `Collation` and `Sorting`: the comparators handed to `sort` (natural
  `localeCompare` for pages, cover-first for covers), and
  `Array.prototype.sort` as a stable sort.
- `Covers`: `extractCoverFromCBZ` and the cover branch of the upload route.
- `PageIndex`: the page list and the `img-00001` id map that the chapter-add
  route builds, and the lazy rebuild in the file-list route.
- `PageRoute`: the chapter image route. It resolves an id or a URL-encoded
  name to an archive entry and its content type. `Uri` models
  `decodeURIComponent` and `encodeURIComponent`.
- `Upload`: multer's `fileFilter` and its size limit.
- `ChapterUpdate`: the SET/WHERE statement that `updateChapter` builds.
- `AdminState`: the admin page's pagination, search, tag list and
  selected-tag state, as a class whose methods update its fields.
- `UploadForm`: the page's checks before a manga upload, and how they relate
  to the server's gate.
- `Escaping`: `escapeQuote`, plus a reader for single-quoted JavaScript
  literals.

## Model

| member | source | states |
|---|---|---|
| Archives.ExtnameShape | server.js:424 | The extension is empty or a dot followed by no `/` and no further `.`. It is a suffix of the path with its trailing slashes removed. |
| Archives.ExtnameOfLower | server.js:424 | Taking the extension commutes with lower-casing the name. |
| Archives.LastIndexOf | admin-script.js:329 | The result is -1 or the position of `c`, and no `c` occurs after it. |
| Archives.ImageEntryNamesMembers | server.js:422-426 | The image-entry filter keeps exactly the names of the non-directory entries that have one of the six image extensions. |
| Archives.ClassifiersIgnoreCase | server.js:462-465 | `isImageFile` and the extension test give the same answer for a name and for its lower-cased form. |
| Archives.ArchiveImageIsImageFile | server.js:462-465 | Every name that the six-extension test accepts also passes `isImageFile`, unless its extension is `.bmp` or the name ends in `/`. |
| Archives.BmpIsArchiveImageOnly | server.js:424-425 | A `.bmp` page passes the archive-image test but not `isImageFile`. |
| Archives.DotFileIsImageFileOnly | server.js:462-465 | A dot-file named `.jpg` passes `isImageFile` but not the archive-image test, because its `extname` is empty. |
| Archives.MimeTypeMatchesClassifier | server.js:1812-1822 | An extension gets a specific type exactly when the archive-image test accepts it. That type begins with `image/`. The lookup ignores case. Every other extension gets `application/octet-stream`. |
| Chapters.StripOneSlash | server.js:473 | Exactly one trailing slash is removed, if there is one. Otherwise the name is unchanged. |
| Chapters.ChapterFolders | server.js:472-474 | Every folder kept is a directory whose name, less one slash, is all digits. |
| Chapters.FiltersKeepAccepted | server.js:472-474 | Each of the three filters (chapter folders, a folder's image files, all images) keeps exactly the entries its test accepts. |
| Chapters.ParseMangaZip | server.js:468-516 | An archive that cannot be read gives no chapters. A readable one gives `DetectChapters` of its entries. Every chapter's file count is at least one. |
| Chapters.CollectFolderChapters | server.js:476-495 | The folder loop pushes, in folder order, one record per folder that holds an image. Each pushed record has a positive file count. |
| Chapters.FolderChaptersSound | server.js:476-495 | Every pushed chapter is the record of a listed folder, and that folder holds an image. |
| Chapters.FolderChaptersComplete | server.js:476-495 | Every listed folder that holds an image contributes its record. |
| Chapters.FolderChaptersInOrder | server.js:476-495 | When every folder holds an image, the i-th folder gives the i-th chapter. |
| Chapters.ChapterTitleSpellsNumber | server.js:489 | The title is `第`, the decimal digits of the chapter number, then `章`. |
| Chapters.ChapterNumberOfFolderName | server.js:473-478 | A folder named with leading zeros and then the decimal form of n is a chapter folder numbered n. |
| Chapters.DetectChaptersWithFolders | server.js:476-495 | With some chapter folder present, the result is exactly the records of the folders that hold an image: each record in the result comes from such a folder, and each such folder has its record in the result. |
| Chapters.DetectChaptersFallback | server.js:496-510 | With no chapter folder, there is at most one chapter. It exists exactly when some file passes `isImageFile`. It is chapter 1 with an empty folder and counts every image. |
| Chapters.FoldersDoNotOverlap | server.js:480-484 | A name lies under at most one digit folder, so `1/` does not capture `10/x.jpg`. |
| Collation.UnitLessIsStrictTotal | server.js:1628 | Key units form a strict total order. |
| Collation.KeyCompareLaws | server.js:1628 | Comparing keys yields -1, 0 or 1. It is antisymmetric, and 0 means the keys are equal. |
| Collation.KeyCompareTransitive | server.js:1628 | Key comparison is transitive. |
| Collation.CompareIsTotalPreorder | server.js:428-434 | Both comparators, natural and cover-first, are consistent. "Not after" is reflexive, total and transitive, and the comparator is antisymmetric. |
| Collation.NumbersCompareByValue | server.js:1628 | Under the natural comparator, names that differ only in one embedded number are ordered by that number's value. |
| Collation.SortNames | server.js:1628 | Sorting names gives a permutation of them. |
| Collation.NaturalSortExample | server.js:1628 | `page10.jpg` and `page2.jpg` sort as `page2.jpg`, `page10.jpg`. |
| Sorting.Sort | server.js:1628 | The output is a permutation of the input. |
| Sorting.SortSorted | server.js:1628 | Under a consistent comparator the output is ordered. |
| Sorting.SortStable | server.js:428-434 | Elements that compare equal keep their input order. |
| Sorting.SortHead | server.js:436-437 | The first output element is the earliest input element that no other element precedes. |
| Covers.CoverCandidateExists | server.js:436 | There is a candidate exactly when some entry is an image, and the candidate is the name of an image entry. |
| Covers.CoverCandidateRanksFirst | server.js:428-437 | The candidate ranks no later than any other image. A name containing `cover` (in any case) wins whenever one exists. A single such name is always the one chosen. |
| Covers.CoverNameComesFirst | server.js:428-432 | Under the cover ranking, only a name containing `cover` can come no later than a name containing `cover`. |
| Covers.CoverCandidateFirstOfTies | server.js:428-437 | Every image listed before the candidate ranks strictly after it, so ties go to archive order. |
| Covers.CoverPathIsNotDefault | server.js:438-439 | A generated cover path lies in `manga/covers/` under a `cover-` name, so it is never the default cover. |
| Covers.ExtractCoverOutcome | server.js:418-459 | A cover comes out exactly when the archive opens, holds an image and the chosen entry can be read. It is `cover-<id>.webp`, or, when conversion fails, `cover-<id>` plus the `extname` of the chosen candidate, which is one of the image extensions. |
| Covers.ExtractedCoverIsNotDefault | server.js:1439-1445 | An extracted cover is never the default cover path. |
| Covers.UploadCoverFallsBackToDefault | server.js:1425-1445 | Without a user cover, the default cover is stored exactly when extraction yields nothing. With one, the archive has no effect on the result. |
| PageIndex.PageList | server.js:1617-1628 | The page list is a permutation of the archive's image-entry names. |
| PageIndex.PadZeros | server.js:1630 | `padStart(5, '0')` never truncates: the result has the greater of the input length and 5. |
| PageIndex.ImageIdRoundTrip | server.js:1630 | An id reads back as the position it was made from, and it is at least 9 characters long. |
| PageIndex.ImageIdInjective | server.js:1629-1632 | Distinct positions never share an id. |
| PageIndex.IdMapOfContents | server.js:1629-1632 | The map has one key per page. `img-` plus the five-digit position i names page i. It has no other key. |
| PageIndex.CollectImageNames | server.js:1617-1627 | The entry walk collects exactly the image-entry names, in archive order. |
| PageIndex.CollectPageList | server.js:1617-1628 | The walk and the sort produce the page list. |
| PageIndex.BuildImageIndex | server.js:1600-1635 | A readable archive gives the page list and its id map. One that cannot be opened leaves both empty. |
| PageIndex.PageListNamesImages | server.js:1617-1628 | Every page names an image entry of the archive, and every image entry is a page. |
| PageIndex.ChapterRecord.ListFiles | server.js:1705-1755 | A stored non-empty list is returned unchanged. An empty list is rebuilt from the archive, stored and returned. An unreadable archive is an error. The id map is never touched. A record whose map the chapter-add route built from this archive is consistent again after the rebuild. |
| PageIndex.BuiltIndexIsConsistent | server.js:1629-1632 | Every id in a freshly built map names a page of the list. |
| PageRoute.FindFirstMatchIsFirst | server.js:1790-1794 | The lookup as written returns the first matching entry in archive order. It returns nothing exactly when no entry matches. |
| PageRoute.FindExactFinds | server.js:1790-1794 | Corrected lookup, first half (see Findings): the exact search finds a file entry carrying the name whenever one exists. |
| PageRoute.FindEntryPrefersExact | server.js:1790-1794 | Corrected lookup (see Findings): it serves the exact entry when there is one. Otherwise it behaves as written. |
| PageRoute.ResolvePageServesMatch | server.js:1789-1805 | As written, a served entry is the first entry in archive order that is a file named as the target or ending in `/` plus the target, and its content type is the one for its extension. "Image not found" means no entry matches. |
| PageRoute.CorrectedPageServesMatch | server.js:1790-1794 | Corrected lookup (see Findings): a served entry still matches the target, and "image not found" still means no entry matches. |
| PageRoute.ResolvePageErrors | server.js:1773-1808 | As written, a missing chapter file is a 404, and an unreadable archive or a malformed escape is a 500, exactly in those cases. |
| PageRoute.RoutesDifferOnlyInEntry | server.js:1790-1794 | The corrected lookup serves a page for exactly the requests the route as written serves, and answers every other request the same way. |
| PageRoute.EncodedNameIsLookedUp | server.js:1782-1787 | A handler argument that is not in the id map is decoded, so an argument `encodeURIComponent(name)` looks up `name`. |
| PageRoute.MatchOfImageNameIsImage | server.js:1790-1801 | A file named as an image entry, or ending in `/` plus that name, is an archive image with the same `extname`. |
| PageRoute.ImageNamedIsServedAsWritten | server.js:1789-1805 | As written, a target that names an image entry is served as an image named as the target or lying in a folder under that name, with an `image/` type. |
| PageRoute.ImageNamedIsServed | server.js:1790-1794 | Corrected lookup (see Findings): a target that names an image entry is served as that entry, with an `image/` type. |
| PageRoute.IdTargetsItsPage | server.js:1783-1784 | A stored id is read through the map to its page. |
| PageRoute.EveryIdServesAMatchingPage | server.js:1629-1632 | As written, each id the chapter-add route stores serves an image that is named as its page or ends in `/` plus that name. |
| PageRoute.EveryIdServesItsPage | server.js:1790-1794 | Corrected lookup (see Findings): each id the chapter-add route stores serves exactly its page, as an image. |
| PageRoute.SuffixMatchShadowsExactEntry | server.js:1790-1794 | As written, `a/1.jpg` listed before `1.jpg` is served for a request for `1.jpg`. |
| PageRoute.ExactEntryIsServed | server.js:1790-1794 | The corrected lookup serves `1.jpg` for the same request. |
| Uri.DecodeEscape | server.js:1786 | A decoded escape spans at least three characters of the input. |
| Uri.Utf8 | server.js:1786 | A character is encoded as one to four octets, each below 256. |
| Uri.DecodeWithoutEscapes | server.js:1786 | A string without `%` decodes to itself. |
| Uri.Utf8Decodes | server.js:1786 | The leading octet announces the sequence length, the other octets are continuation octets, and together they rebuild the character. |
| Uri.DecodeEscapeOfChar | server.js:1786 | The escapes of one character decode back to that character. |
| Uri.DecodeEncodeRoundTrip | server.js:1786 | Decoding the output of `encodeURIComponent` gives the string back. |
| Uri.MalformedEscapeFails | server.js:1786 | A `%` not followed by two hex digits is a `URIError`. |
| Uri.BadLeadingOctetFails | server.js:1786 | An escape whose octet cannot start a UTF-8 sequence is a `URIError`. |
| Uri.OverlongFormFails | server.js:1786 | The overlong `%C0%80` is a `URIError`. |
| Uri.FailureIsNotMasked | server.js:1786 | Text without `%` placed before an undecodable string does not make it decodable. |
| Upload.AdmitFile | server.js:152-183 | A file is accepted exactly when it passes the field's filter and is within 200 MiB. A filter rejection is passed on with its message. A file that passes the filter but is too large is rejected as too large. |
| Upload.GatesLookAtOneThing | server.js:157-183 | The image fields depend only on the MIME type. The archive fields depend only on the original name. |
| Upload.FileFilterIgnoresCase | server.js:157-183 | The archive gates give the same answer for a name and its lower-cased form. |
| Upload.ChapterGateIsNarrower | server.js:157-183 | Every accepted chapter file would also pass as a manga archive. `.rar` and `.cbr` pass only as a manga archive. |
| Upload.AcceptedArchiveHasExtension | server.js:157-183 | An accepted archive has a four-character extension starting with a dot, so its name has at least four characters. |
| ChapterUpdate.Assignments | server.js:349-358 | At most two columns are assigned. |
| ChapterUpdate.SetItems | server.js:349-358 | The i-th SET item assigns the i-th column to placeholder `first + i`. |
| ChapterUpdate.ValuesOf | server.js:349-358 | The i-th bound value is the i-th assignment's value. |
| ChapterUpdate.BuildUpdate | server.js:349-364 | The imperative builder produces the statement that `UpdateQueryOf` specifies. |
| ChapterUpdate.TitleOnlyQuery | server.js:349-364 | With only a title, the statement is `title = $1` with ids `$2` and `$3`. |
| ChapterUpdate.NumberOnlyQuery | server.js:349-364 | With only a number, the statement is `number = $1` with ids `$2` and `$3`. |
| ChapterUpdate.TitleAndNumberQuery | server.js:349-364 | With both fields, the statement is `title = $1, number = $2` with ids `$3` and `$4`. |
| ChapterUpdate.EmptyUpdateSendsNothing | server.js:358-360 | With neither field present, no statement is built. |
| ChapterUpdate.PlaceholdersBindInOrder | server.js:349-364 | Every placeholder is bound. The SET placeholders take the field values in order, and the two WHERE placeholders take the chapter id and then the manga id as the last two values. |
| Escaping.EscapeQuoteLength | admin-script.js:517-519 | The output grows by one character per quote. A string without quotes is returned unchanged. |
| Escaping.UnescapeEscapeQuote | admin-script.js:517-519 | Only quotes are touched: undoing the escape gives the input back. |
| Escaping.EscapeQuoteSoundWithoutBackslash | admin-script.js:517-519 | For text with no backslash and no line break, the escaped text inside quotes reads back as the text. |
| Escaping.TrailingBackslashBreaksLiteral | admin-script.js:517-519 | As written, escaping `a\` gives a literal that never closes. |
| Escaping.EscapeForLiteralRoundTrip | admin-script.js:517-519 | Every string survives the corrected escape: the literal reads back as exactly the text. |
| UploadForm.ClientExtensionIsExtname | admin-script.js:328-329 | For a name without `/` whose last dot is not its first character, the form's extension equals the server's lower-cased `extname`. |
| UploadForm.FormCheckedUploadIsAdmitted | admin-script.js:317-354 | For a name without `/` and with a dot after its first character, an upload the form lets through is admitted by the server, both the file and the cover. |
| UploadForm.FormAcceptsDotlessName | admin-script.js:328-329 | The form accepts a file named `zip`, which the server rejects. |
| UploadForm.FormAcceptsDotFile | admin-script.js:328-329 | The form accepts a file named `.zip`, which the server rejects. |
| AdminState.CeilDiv | admin-script.js:433 | `Math.ceil(total / size)` is the fewest pages of `size` items that hold `total` items. It is 0 exactly when there are no items. |
| AdminState.ClampPageInRange | admin-script.js:522-526 | The clamped page lies between 1 and the last page, or is 1 when there are no pages. A page already in range is kept. A page too small goes to 1, and one too large goes to the last page. |
| AdminState.PagesTileTheList | admin-script.js:562-563 | Every page from 1 to the last shows between 1 and `size` items within the list. The pages meet without gaps, and the last page ends at the total. |
| AdminState.EmptyListShowsPageOne | admin-script.js:522-526 | With no items there are no pages, yet the clamp shows page 1 and the line reads `1-0`. |
| AdminState.TrimStart | admin-script.js:576 | The result is a suffix of the input. Only white space was cut, and the result does not start with white space. |
| AdminState.TrimEnd | admin-script.js:576 | The result is a prefix of the input. Only white space was cut, and the result does not end with white space. |
| AdminState.TrimCutsOnlyWhiteSpace | admin-script.js:576 | The trimmed text is a contiguous piece of the input, with only ECMAScript white space cut from either end. |
| AdminState.TrimmedEnds | admin-script.js:576 | The trimmed text neither starts nor ends with white space. |
| AdminState.RemoveAll | admin-script.js:1205-1207 | The filter keeps exactly the ids different from the removed one. |
| AdminState.RemoveAllAppend | admin-script.js:1207 | Filtering works piece by piece, so the kept ids keep their order. |
| AdminState.RemoveAllAbsent | admin-script.js:1207 | A list without the id is unchanged. |
| AdminState.RemoveAllNoDuplicates | admin-script.js:1207 | Filtering keeps a duplicate-free list duplicate-free. |
| AdminState.AdminPanel.constructor | admin-script.js:1-16 | Starts on page 1 of 1, with 10 items per page, no items, no search, no selected tags and no tag catalogue. |
| AdminState.AdminPanel.GoToPage | admin-script.js:522-526 | The current page becomes the clamped request, which is a showable page. A page in range is taken as is. Nothing else changes. |
| AdminState.AdminPanel.PreviousPage | admin-script.js:528-530 | Moves one page back, never before page 1. Nothing else changes. |
| AdminState.AdminPanel.NextPage | admin-script.js:532-534 | Moves one page forward, never past the last page. Nothing else changes. |
| AdminState.AdminPanel.ChangePageSize | admin-script.js:536-540 | Sets the size and returns to page 1. Nothing else changes. |
| AdminState.AdminPanel.ApplyListing | admin-script.js:430-433 | Stores the total, derives the page count from it, and takes the reported page, using 1 when the page is missing. |
| AdminState.AdminPanel.SearchManga | admin-script.js:574-579 | The trimmed input becomes the search, and the view returns to page 1. |
| AdminState.AdminPanel.ResetSearch | admin-script.js:581-586 | Clears the search and returns to page 1. |
| AdminState.AdminPanel.ReceiveTags | admin-script.js:959-964 | Stores the fetched catalogue. Nothing else changes. |
| AdminState.AdminPanel.AddTagToManga | admin-script.js:1173-1201 | A tag is appended exactly when one is selected, exists in the catalogue and is not yet selected. Otherwise the list is unchanged. The selected list never gains a duplicate. |
| AdminState.AdminPanel.RemoveTagFromCurrentList | admin-script.js:1205-1207 | Every occurrence of the id is removed, and the rest keep their order. |
| AdminState.AdminPanel.ResetSelectedTags | admin-script.js:792 | Clears the selected tags. Nothing else changes. |

## Left out

- Reading and writing files, the database, Redis, Express routing and
  `sharp` are not modelled. A read or a conversion outcome is a boolean
  parameter (`readOk`, `convertOk`). A missing or unreadable file is an
  `Archive` case.
- Paths are relative to the server's root directory. The `rootDir` prefix
  that `path.join` and `path.resolve` add is not modelled.
- `toLowerCase` is modelled on ASCII letters only.
- Collation.Compare: `localeCompare` with `numeric: true,
  sensitivity: 'base'` is approximated by digit-run keys over ASCII-folded
  characters. ICU collation of accents and non-ASCII scripts is not
  modelled. The plain `localeCompare` of the cover ranking is approximated
  by ASCII-folded code-unit order.
- Strings are sequences of Unicode scalar values, not UTF-16 code units.
  Lone surrogates, which `encodeURIComponent` rejects, are not modelled.
- Image id map lookups see only keys stored in the map. Keys inherited from
  `Object.prototype` (such as `constructor`) are not modelled.
- PageRoute.TargetName: the key is the route parameter as the handler
  receives it, which Express has already URL-decoded once. The handler
  decodes it a second time, so a stored name such as `100%.jpg` requested
  as `100%25.jpg` reaches the handler as `100%.jpg`, and the second decode
  fails with a 500. The first decode is not modelled.
- `zip.readFile` returning `null` for a found entry is not modelled in the
  image route.
- The manga-not-found and chapter-not-found 404s of the image route are not
  modelled, because they depend on database lookups.
- The lazy rebuild in the file-list route writes `image_list` only.
  `PageIndex.ChapterRecord.ListFiles` keeps the id map as it was, as the
  source does. A chapter stored without a map keeps being served through
  `decodeURIComponent`.
- Chapters.ChapterNumber: reads the digit run exactly as a natural number.
  `parseInt` gives a double, rounded above 2^53, so very long digit runs
  are numbered differently in the source.
- Chapters.ChapterTitle: prints the number's decimal digits. A template
  literal prints numbers of 1e21 and above in exponent form (`第1e+23章`),
  which is not modelled.
- `parseMangaZip` keeps one chapter per matching folder, so `1/` and `01/`
  both give a chapter numbered 1. The model keeps both, as the source does.
- multer's storage callbacks (generated file names, `Date.now` ids) are not
  modelled.
- Running the statement that `updateChapter` builds on the database pool is not
  modelled.
- ChapterUpdate.UpdateData: a field is a string title or an integer
  number. Other JSON value types reaching the statement are not modelled.
- AdminState.AdminPanel.ChangePageSize: requires a positive size, as
  the page-size selector offers. A free-form zero or non-numeric size
  (which would make `Math.ceil` return `Infinity` or `NaN`) is not
  modelled.
- AdminState.AdminPanel.ApplyListing: takes the total and page as
  natural numbers, with 0 standing for missing. A non-integer or negative
  value in the response is not modelled.
- Fetching lists, rendering the table and other DOM work on the admin page
  are not modelled. Neither are `formatFileSize`, the notifications, the
  carousel and the tag-namespace editor.
- Escaping.ReadQuotedBody: reads only the escapes `\'`, `\"`, `\\`,
  `\n` and `\r`. Other JavaScript escapes make it fail. This is enough to
  judge `escapeQuote`, whose output contains no other escapes except the
  ones its input already holds. `escapeQuote` itself has no caller in the
  admin page.

## Findings

| source | as written | input that shows it | evidently intended | confidence | as-written member | corrected member |
|---|---|---|---|---|---|---|
| server.js:1790-1794 | One `find` accepts an entry named exactly the target or ending in `/` plus the target, whichever comes first in archive order. | Entries `a/1.jpg` then `1.jpg`, requested as `1.jpg` (through id `img-00001`): `a/1.jpg` is served. | The entry named exactly as stored in the page list is served; the folder suffix is only a fallback. | not executed | PageRoute.SuffixMatchShadowsExactEntry | PageRoute.EveryIdServesItsPage |
| admin-script.js:517-519 | `escapeQuote` escapes `'` only. | `a\` becomes `a\`, so the literal `'a\'` has its closing quote escaped and never ends. | Backslashes (and line breaks) escaped too, so the literal reads back as the text. | not executed | Escaping.TrailingBackslashBreaksLiteral | Escaping.EscapeForLiteralRoundTrip |
