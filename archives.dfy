/** Archive entries as the ZIP reader lists them, Node's `path.extname`,
    the two image classifiers and the extension → content-type table. */
module Archives {
  import opened Text

  /** One entry of an archive: its full path inside the container and
      whether the reader reports it as a directory. Bytes stay abstract. */
  datatype Entry = Entry(name: string, isDirectory: bool)

  /** What opening a chapter or manga file gives: the file may be absent,
      unparseable (the reader throws), or listed as an entry sequence. */
  datatype Archive = Missing | Corrupt | Readable(entries: seq<Entry>)

  /** Length of `p` once its trailing `/` characters are dropped. */
  function TrimmedLength(p: string): (n: nat)
    ensures n <= |p|
    ensures n == 0 || p[n - 1] != '/'
  {
    if |p| > 0 && p[|p| - 1] == '/' then TrimmedLength(p[..|p| - 1]) else |p|
  }

  /** Index of the last `c` in `s`, or -1. */
  function LastIndexOf(s: string, c: char): (i: int)
    ensures -1 <= i < |s|
    ensures i >= 0 ==> s[i] == c
    ensures forall j :: i < j < |s| ==> s[j] != c
  {
    if s == [] then -1
    else if s[|s| - 1] == c then |s| - 1
    else LastIndexOf(s[..|s| - 1], c)
  }

  /** Node's POSIX `path.extname`: trailing slashes are ignored; the
      extension runs from the last dot of the last segment to the end,
      unless there is no such dot, the dot opens the segment (a dot-file),
      or the segment is `..`. */
  function Extname(p: string): (r: string)
  {
    SegmentExtension(p[..TrimmedLength(p)])
  }

  /** The extension of the last segment of a path with no trailing `/`. */
  function SegmentExtension(q: string): string {
    var start := LastIndexOf(q, '/') + 1;
    var dot := LastIndexOf(q, '.');
    if dot <= start || q[start..] == ".." then "" else q[dot..]
  }

  /** The last `c` of `a + b` is in `b` when `b` holds one, else in `a`. */
  lemma {:induction false} LastIndexOfAppend(a: string, b: string, c: char)
    ensures LastIndexOf(a + b, c) == if LastIndexOf(b, c) >= 0 then |a| + LastIndexOf(b, c) else LastIndexOf(a, c)
    decreases |b|
  {
    if b == [] {
      assert a + b == a;
    } else {
      var b' := b[..|b| - 1];
      assert (a + b)[..|a + b| - 1] == a + b';
      if b[|b| - 1] != c {
        LastIndexOfAppend(a, b', c);
      }
    }
  }

  /** Trailing slashes of `a + b` are those of `b` when `b` is not all
      slashes. */
  lemma {:induction false} TrimmedLengthAppend(a: string, b: string)
    requires TrimmedLength(b) > 0
    ensures TrimmedLength(a + b) == |a| + TrimmedLength(b)
    decreases |b|
  {
    var b' := b[..|b| - 1];
    assert (a + b)[..|a + b| - 1] == a + b';
    if b[|b| - 1] == '/' {
      TrimmedLengthAppend(a, b');
    }
  }

  /** What comes before a `/` does not change the last segment's
      extension. */
  lemma {:induction false} SegmentExtensionAfterSlash(a: string, q: string)
    requires |a| > 0 && a[|a| - 1] == '/'
    ensures SegmentExtension(a + q) == SegmentExtension(q)
  {
    SlashAfterSlash(a, q);
    DotAfterSlash(a, q);
    AppendSuffix(a, q, LastIndexOf(q, '/') + 1);
    if LastIndexOf(q, '.') >= 0 {
      AppendSuffix(a, q, LastIndexOf(q, '.'));
    }
    SegmentExtensionShifted(a + q, q, |a|);
  }

  lemma SlashAfterSlash(a: string, q: string)
    requires |a| > 0 && a[|a| - 1] == '/'
    ensures LastIndexOf(a + q, '/') == |a| + LastIndexOf(q, '/')
  {
    LastIndexOfAppend(a, q, '/');
  }

  lemma DotAfterSlash(a: string, q: string)
    ensures LastIndexOf(q, '.') >= 0 ==> LastIndexOf(a + q, '.') == |a| + LastIndexOf(q, '.')
    ensures LastIndexOf(q, '.') < 0 ==> LastIndexOf(a + q, '.') < |a|
  {
    LastIndexOfAppend(a, q, '.');
  }

  lemma AppendSuffix(a: string, q: string, k: nat)
    requires k <= |q|
    ensures (a + q)[|a| + k..] == q[k..]
  {
  }

  /** Two paths whose last `/` and last `.` sit at the same places, up to a
      shift, and that agree from there on have the same extension. */
  lemma SegmentExtensionShifted(p: string, q: string, shift: nat)
    requires LastIndexOf(p, '/') == shift + LastIndexOf(q, '/')
    requires LastIndexOf(q, '.') >= 0 ==> LastIndexOf(p, '.') == shift + LastIndexOf(q, '.')
    requires LastIndexOf(q, '.') < 0 ==> LastIndexOf(p, '.') < shift
    requires LastIndexOf(q, '.') >= 0 ==> p[LastIndexOf(p, '.')..] == q[LastIndexOf(q, '.')..]
    requires p[LastIndexOf(p, '/') + 1..] == q[LastIndexOf(q, '/') + 1..]
    ensures SegmentExtension(p) == SegmentExtension(q)
  {
  }

  /** A name ending in `/` plus `t` has the extension of `t`, unless `t` is
      empty or all slashes. */
  lemma {:induction false} ExtnameOfSuffix(n: string, t: string)
    requires EndsWith(n, "/" + t) && TrimmedLength(t) > 0
    ensures Extname(n) == Extname(t)
  {
    var a := n[..|n| - |t|];
    assert n == a + t;
    assert a[|a| - 1] == n[|n| - |t| - 1] == ("/" + t)[0];
    ExtnameAfterSlash(a, t);
  }

  lemma {:induction false} ExtnameAfterSlash(a: string, t: string)
    requires |a| > 0 && a[|a| - 1] == '/' && TrimmedLength(t) > 0
    ensures Extname(a + t) == Extname(t)
  {
    var n, m := a + t, TrimmedLength(t);
    TrimmedLengthAppend(a, t);
    AppendPrefix(a, t, m);
    assert n[..TrimmedLength(n)] == a + t[..m];
    SegmentExtensionAfterSlash(a, t[..m]);
    assert Extname(n) == SegmentExtension(a + t[..m]);
    assert Extname(t) == SegmentExtension(t[..m]);
  }

  lemma AppendPrefix(a: string, t: string, m: nat)
    requires m <= |t|
    ensures (a + t)[..|a| + m] == a + t[..m]
  {
  }

  /** A path with an extension is not empty or all slashes. */
  lemma ExtensionNeedsSegment(t: string)
    requires Extname(t) != ""
    ensures TrimmedLength(t) > 0
  {
  }

  /** The extension is empty or a dot followed by neither `/` nor `.`, and it
      is a tail of the path once trailing slashes are dropped. */
  lemma {:induction false} ExtnameShape(p: string)
    ensures Extname(p) == "" || Extname(p)[0] == '.'
    ensures forall i :: 0 <= i < |Extname(p)| ==> Extname(p)[i] != '/'
    ensures forall i :: 1 <= i < |Extname(p)| ==> Extname(p)[i] != '.'
    ensures EndsWith(p[..TrimmedLength(p)], Extname(p))
  {
    var q := p[..TrimmedLength(p)];
    var start := LastIndexOf(q, '/') + 1;
    var dot := LastIndexOf(q, '.');
    if dot > start && q[start..] != ".." {
      var r := q[dot..];
      assert Extname(p) == r;
      forall i | 0 <= i < |r|
        ensures r[i] != '/' && (i >= 1 ==> r[i] != '.')
      {
        assert r[i] == q[dot + i];
      }
      assert q[|q| - |r|..] == r;
    } else {
      assert Extname(p) == "";
    }
  }

  lemma {:induction false} TrimmedLengthOfLower(p: string)
    ensures TrimmedLength(Lower(p)) == TrimmedLength(p)
  {
    if |p| > 0 {
      assert Lower(p)[..|p| - 1] == Lower(p[..|p| - 1]);
      TrimmedLengthOfLower(p[..|p| - 1]);
    }
  }

  /** Lower-casing moves no `/` or `.`. */
  lemma {:induction false} LastIndexOfLower(s: string, c: char)
    requires !IsUpper(c) && !('a' <= c <= 'z')
    ensures LastIndexOf(Lower(s), c) == LastIndexOf(s, c)
  {
    if |s| > 0 {
      assert Lower(s)[..|s| - 1] == Lower(s[..|s| - 1]);
      LastIndexOfLower(s[..|s| - 1], c);
    }
  }

  lemma LowerTail(s: string, i: nat)
    requires i <= |s|
    ensures Lower(s)[i..] == Lower(s[i..])
  {
  }

  lemma {:induction false} LowerIsParentSegment(x: string)
    ensures Lower(x) == ".." <==> x == ".."
  {
    if Lower(x) == ".." {
      assert LowerChar(x[0]) == '.' && LowerChar(x[1]) == '.';
    }
  }

  /** `path.extname` commutes with lower-casing, so an extension test on
      the lower-cased extension ignores the case of the whole name. */
  lemma {:induction false} ExtnameOfLower(p: string)
    ensures Extname(Lower(p)) == Lower(Extname(p))
  {
    var lp := Lower(p);
    TrimmedLengthOfLower(p);
    var n := TrimmedLength(p);
    assert lp[..n] == Lower(p[..n]);
    SegmentExtensionOfLower(p[..n]);
  }

  lemma {:induction false} SegmentExtensionOfLower(q: string)
    ensures SegmentExtension(Lower(q)) == Lower(SegmentExtension(q))
  {
    var lq := Lower(q);
    LastIndexOfLower(q, '/');
    LastIndexOfLower(q, '.');
    var start := LastIndexOf(q, '/') + 1;
    var dot := LastIndexOf(q, '.');
    assert LastIndexOf(lq, '/') + 1 == start && LastIndexOf(lq, '.') == dot;
    LowerTail(q, start);
    LowerIsParentSegment(q[start..]);
    assert (lq[start..] == "..") == (q[start..] == "..");
    if dot <= start || q[start..] == ".." {
      assert SegmentExtension(q) == "";
      assert SegmentExtension(lq) == "";
    } else {
      LowerTail(q, dot);
      assert SegmentExtension(q) == q[dot..];
      assert SegmentExtension(lq) == lq[dot..];
    }
  }

  // ---- isImageFile (server.js): a suffix test over the lower-cased name ----

  const ImageFileSuffixes: seq<string> := [".jpg", ".jpeg", ".png", ".gif", ".webp"]

  predicate IsImageFile(filename: string) {
    exists i :: 0 <= i < |ImageFileSuffixes| && EndsWith(Lower(filename), ImageFileSuffixes[i])
  }

  // ---- the extension test used by the cover, chapter-add and rebuild paths ----

  predicate IsArchiveImageExtension(ext: string) {
    var l := Lower(ext);
    l == ".jpg" || l == ".jpeg" || l == ".png" || l == ".gif" || l == ".webp" || l == ".bmp"
  }

  /** A non-directory entry whose `path.extname`, lower-cased, is one of six. */
  predicate IsArchiveImage(e: Entry) {
    !e.isDirectory && IsArchiveImageExtension(Extname(e.name))
  }

  /** Names of the entries that pass the archive-image test, in archive
      order: the list the cover, chapter-add and rebuild paths start from. */
  function ImageEntryNames(entries: seq<Entry>): seq<string>
  {
    if entries == [] then []
    else
      var last := entries[|entries| - 1];
      ImageEntryNames(entries[..|entries| - 1]) + (if IsArchiveImage(last) then [last.name] else [])
  }

  lemma {:induction false} ImageEntryNamesMembers(entries: seq<Entry>)
    ensures forall n :: n in ImageEntryNames(entries) ==>
              exists e :: e in entries && IsArchiveImage(e) && e.name == n
    ensures forall e :: e in entries && IsArchiveImage(e) ==> e.name in ImageEntryNames(entries)
  {
    if entries != [] {
      var init := entries[..|entries| - 1];
      ImageEntryNamesMembers(init);
      assert entries == init + [entries[|entries| - 1]];
    }
  }

  /** Both classifiers ignore case. */
  lemma {:induction false} ClassifiersIgnoreCase(name: string)
    ensures IsImageFile(Lower(name)) == IsImageFile(name)
    ensures IsArchiveImageExtension(Lower(name)) == IsArchiveImageExtension(name)
  {
    LowerIdempotent(name);
  }

  lemma {:induction false} LowerKeepsSuffix(s: string, suffix: string)
    requires EndsWith(s, suffix)
    ensures EndsWith(Lower(s), Lower(suffix))
  {
    var k := |s| - |suffix|;
    assert s == s[..k] + suffix;
    LowerAppend(s[..k], suffix);
    assert Lower(s)[k..] == Lower(suffix);
  }

  lemma {:induction false} ArchiveExtensionIsImageSuffix(ext: string)
    requires IsArchiveImageExtension(ext) && Lower(ext) != ".bmp"
    ensures Lower(ext) in ImageFileSuffixes
  {
    var le := Lower(ext);
    assert ImageFileSuffixes == [".jpg", ".jpeg", ".png", ".gif", ".webp"];
    assert le == ".jpg" || le == ".jpeg" || le == ".png" || le == ".gif" || le == ".webp";
  }

  /** Whatever the archive-image test accepts, other than `.bmp`, also passes
      `isImageFile` as long as the name does not end in `/`. */
  lemma {:induction false} ArchiveImageIsImageFile(name: string)
    requires IsArchiveImageExtension(Extname(name))
    requires Lower(Extname(name)) != ".bmp"
    requires name == [] || name[|name| - 1] != '/'
    ensures IsImageFile(name)
  {
    var ext := Extname(name);
    ExtnameShape(name);
    assert name[..TrimmedLength(name)] == name;
    LowerKeepsSuffix(name, ext);
    ArchiveExtensionIsImageSuffix(ext);
    var i :| 0 <= i < |ImageFileSuffixes| && ImageFileSuffixes[i] == Lower(ext);
    assert EndsWith(Lower(name), ImageFileSuffixes[i]);
  }

  lemma ExtnameOfBmpName()
    ensures Extname("p.bmp") == ".bmp"
  {
    assert TrimmedLength("p.bmp") == 5;
    assert "p.bmp"[..5] == "p.bmp";
    assert "p.bmp"[..4] == "p.bm" && "p.bm"[..3] == "p.b" && "p.b"[..2] == "p." && "p."[..1] == "p";
    assert LastIndexOf("p.bmp", '/') == -1;
    assert LastIndexOf("p.bmp", '.') == 1;
  }

  lemma ExtnameOfDotFile()
    ensures Extname(".jpg") == ""
  {
    assert TrimmedLength(".jpg") == 4;
    assert ".jpg"[..4] == ".jpg";
    assert ".jpg"[..3] == ".jp" && ".jp"[..2] == ".j" && ".j"[..1] == "." && "."[..0] == "";
    assert LastIndexOf(".jpg", '/') == -1;
    assert LastIndexOf(".jpg", '.') == 0;
  }

  lemma BmpNameIsNotImageFile()
    ensures !IsImageFile("p.bmp")
  {
    var l := Lower("p.bmp");
    assert l == "p.bmp";
    forall i | 0 <= i < |ImageFileSuffixes| ensures !EndsWith(l, ImageFileSuffixes[i]) {
      var x := ImageFileSuffixes[i];
      assert x[|x| - 2] != 'm' || x[|x| - 1] != 'p';
      if |x| <= |l| {
        assert l[|l| - |x|..][|x| - 2] == 'm';
      }
    }
  }

  /** `.bmp` passes only the archive-image test. */
  lemma BmpIsArchiveImageOnly()
    ensures IsArchiveImage(Entry("p.bmp", false)) && !IsImageFile("p.bmp")
  {
    BmpNameIsArchiveImage();
    BmpNameIsNotImageFile();
  }

  lemma BmpNameIsArchiveImage()
    ensures IsArchiveImage(Entry("p.bmp", false))
  {
    ExtnameOfBmpName();
    var l := Lower(".bmp");
    assert l[0] == '.' && l[1] == 'b' && l[2] == 'm' && l[3] == 'p';
    assert l == ".bmp";
  }

  /** A dot-file such as `.jpg` has an empty `path.extname`, so it passes only
      `isImageFile`. */
  lemma DotFileIsImageFileOnly()
    ensures IsImageFile(".jpg") && !IsArchiveImage(Entry(".jpg", false))
  {
    DotFileIsImageFile();
    DotFileIsNotArchiveImage();
  }

  lemma DotFileIsImageFile()
    ensures IsImageFile(".jpg")
  {
    assert Lower(".jpg") == ".jpg";
    assert EndsWith(Lower(".jpg"), ImageFileSuffixes[0]);
  }

  lemma DotFileIsNotArchiveImage()
    ensures !IsArchiveImage(Entry(".jpg", false))
  {
    ExtnameOfDotFile();
    assert Lower("") == "";
  }

  // ---- getMimeTypeByExtension ----

  const DefaultMimeType: string := "application/octet-stream"

  function MimeTypeByExtension(ext: string): (r: string)
  {
    var l := Lower(ext);
    if l == ".jpg" || l == ".jpeg" then "image/jpeg"
    else if l == ".png" then "image/png"
    else if l == ".gif" then "image/gif"
    else if l == ".webp" then "image/webp"
    else if l == ".bmp" then "image/bmp"
    else DefaultMimeType
  }

  /** An entry gets a specific image type exactly when the archive-image test
      accepts its extension; every other extension, upper or lower case,
      falls to `application/octet-stream`. */
  lemma {:induction false} MimeTypeMatchesClassifier(ext: string)
    ensures MimeTypeByExtension(ext) != DefaultMimeType <==> IsArchiveImageExtension(ext)
    ensures IsArchiveImageExtension(ext) ==> StartsWith(MimeTypeByExtension(ext), "image/")
    ensures MimeTypeByExtension(Lower(ext)) == MimeTypeByExtension(ext)
  {
    LowerIdempotent(ext);
  }
}
