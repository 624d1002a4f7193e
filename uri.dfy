/** `decodeURIComponent` (section 19.2.6.2 and the Decode operation of
    section 19.2.6.5 of ECMA-262): `%XX` escapes are read as UTF-8 octets,
    and a malformed escape or octet sequence is a `URIError`, here `None`.
    `encodeURIComponent` is its partner: decoding what it produces gives the
    string back. Characters are Unicode scalar values. */
module Uri {
  import opened Wrappers

  predicate IsHexDigit(c: char) {
    '0' <= c <= '9' || 'a' <= c <= 'f' || 'A' <= c <= 'F'
  }

  function HexValue(c: char): (v: nat)
    requires IsHexDigit(c)
    ensures v < 16
  {
    if '0' <= c <= '9' then c as int - '0' as int
    else if 'a' <= c <= 'f' then c as int - 'a' as int + 10
    else c as int - 'A' as int + 10
  }

  /** Upper-case hex digit, as `encodeURIComponent` writes it. */
  function HexChar(v: nat): (c: char)
    requires v < 16
    ensures IsHexDigit(c) && HexValue(c) == v
  {
    if v < 10 then ('0' as int + v) as char else ('A' as int + v - 10) as char
  }

  /** The octet of the escape `%XX` at position `k`, if there is one. */
  function ReadOctet(s: string, k: nat): (r: Option<nat>)
    ensures r.Some? ==> r.value < 256 && k + 3 <= |s|
  {
    if k + 2 < |s| && s[k] == '%' && IsHexDigit(s[k + 1]) && IsHexDigit(s[k + 2]) then
      Some(16 * HexValue(s[k + 1]) + HexValue(s[k + 2]))
    else None
  }

  /** The octet count a leading octet announces (its leading one bits);
      0 when that count is 1 or more than 4. */
  function SequenceLength(b: nat): (n: nat)
    ensures n == 0 || 2 <= n <= 4
  {
    if 0xC0 <= b < 0xE0 then 2
    else if 0xE0 <= b < 0xF0 then 3
    else if 0xF0 <= b < 0xF8 then 4
    else 0
  }

  /** `count` continuation escapes (octets `10xxxxxx`) from position `k`. */
  function ContinuationOctets(s: string, k: nat, count: nat): (r: Option<seq<nat>>)
    ensures r.Some? ==> |r.value| == count && (count > 0 ==> k + 3 * count <= |s|)
    ensures r.Some? ==> forall i :: 0 <= i < count ==> 0x80 <= r.value[i] < 0xC0
    decreases count
  {
    if count == 0 then Some([])
    else match ReadOctet(s, k)
      case None => None
      case Some(b) =>
        if b < 0x80 || b >= 0xC0 then None
        else match ContinuationOctets(s, k + 3, count - 1)
          case None => None
          case Some(bs) => Some([b] + bs)
  }

  function CodePoint(b0: nat, bs: seq<nat>): int
    requires 1 <= |bs| <= 3
  {
    var b: int := b0;
    if |bs| == 1 then (b - 0xC0) * 64 + (bs[0] as int - 0x80)
    else if |bs| == 2 then (b - 0xE0) * 4096 + (bs[0] as int - 0x80) * 64 + (bs[1] as int - 0x80)
    else (b - 0xF0) * 262144 + (bs[0] as int - 0x80) * 4096 + (bs[1] as int - 0x80) * 64 + (bs[2] as int - 0x80)
  }

  /** Well-formed UTF-8 in the sense of RFC 3629: no overlong form, no
      surrogate, nothing above U+10FFFF. */
  predicate IsScalarOfLength(n: nat, cp: int) {
    (n == 2 && 0x80 <= cp < 0x800)
    || (n == 3 && 0x800 <= cp < 0x10000 && !(0xD800 <= cp < 0xE000))
    || (n == 4 && 0x10000 <= cp < 0x110000)
  }

  /** Decodes the escape sequence that opens `s`: the character and the
      number of input characters it spans. */
  function DecodeEscape(s: string): (r: Option<(char, nat)>)
    ensures r.Some? ==> 3 <= r.value.1 <= |s|
  {
    match ReadOctet(s, 0)
    case None => None
    case Some(b0) =>
      if b0 < 0x80 then Some((b0 as char, 3))
      else
        var n := SequenceLength(b0);
        if n == 0 then None
        else match ContinuationOctets(s, 3, n - 1)
          case None => None
          case Some(bs) =>
            var cp := CodePoint(b0, bs);
            if IsScalarOfLength(n, cp) then Some((cp as char, 3 * n)) else None
  }

  function DecodeURIComponent(s: string): Option<string>
    decreases |s|
  {
    if s == [] then Some([])
    else if s[0] != '%' then
      match DecodeURIComponent(s[1..])
      case None => None
      case Some(t) => Some([s[0]] + t)
    else match DecodeEscape(s)
      case None => None
      case Some((c, m)) =>
        match DecodeURIComponent(s[m..])
        case None => None
        case Some(t) => Some([c] + t)
  }

  // ---- the encoder ----

  /** Characters `encodeURIComponent` leaves as they are. */
  predicate IsUnreserved(c: char) {
    'a' <= c <= 'z' || 'A' <= c <= 'Z' || '0' <= c <= '9'
    || c == '-' || c == '_' || c == '.' || c == '!' || c == '~' || c == '*' || c == '\'' || c == '(' || c == ')'
  }

  function Escape(b: nat): (r: string)
    requires b < 256
    ensures |r| == 3 && ReadOctet(r, 0) == Some(b)
  {
    ['%', HexChar(b / 16), HexChar(b % 16)]
  }

  /** UTF-8 octets of a character. */
  function Utf8(c: char): (r: seq<nat>)
    ensures 1 <= |r| <= 4
    ensures forall i :: 0 <= i < |r| ==> r[i] < 256
  {
    var cp := c as int;
    if cp < 0x80 then [cp]
    else if cp < 0x800 then [0xC0 + cp / 64, 0x80 + cp % 64]
    else if cp < 0x10000 then [0xE0 + cp / 4096, 0x80 + (cp / 64) % 64, 0x80 + cp % 64]
    else [0xF0 + cp / 262144, 0x80 + (cp / 4096) % 64, 0x80 + (cp / 64) % 64, 0x80 + cp % 64]
  }

  function EscapeAll(bs: seq<nat>): (r: string)
    requires forall i :: 0 <= i < |bs| ==> bs[i] < 256
    ensures |r| == 3 * |bs|
  {
    if bs == [] then [] else Escape(bs[0]) + EscapeAll(bs[1..])
  }

  function EncodeURIComponent(s: string): string {
    if s == [] then []
    else (if IsUnreserved(s[0]) then [s[0]] else EscapeAll(Utf8(s[0]))) + EncodeURIComponent(s[1..])
  }

  // ---- properties ----

  /** A string without `%` decodes to itself. */
  lemma {:induction false} DecodeWithoutEscapes(s: string)
    requires forall i :: 0 <= i < |s| ==> s[i] != '%'
    ensures DecodeURIComponent(s) == Some(s)
  {
    if s != [] {
      DecodeWithoutEscapes(s[1..]);
      assert [s[0]] + s[1..] == s;
    }
  }

  lemma {:induction false} ContinuationOctetsOfEscapes(bs: seq<nat>, rest: string)
    requires forall i :: 0 <= i < |bs| ==> 0x80 <= bs[i] < 0xC0
    ensures ContinuationOctets(EscapeAll(bs) + rest, 0, |bs|) == Some(bs)
  {
    if bs != [] {
      var x := EscapeAll(bs[1..]) + rest;
      assert EscapeAll(bs) + rest == Escape(bs[0]) + x;
      ContinuationOctetsOfEscapes(bs[1..], rest);
      ContinuationOctetsShift(Escape(bs[0]), x, |bs| - 1);
      ReadOctetOfEscape(bs[0], x);
      ContinuationOctetsStep(Escape(bs[0]) + x, |bs|, bs[0], bs[1..]);
      assert [bs[0]] + bs[1..] == bs;
    }
  }

  lemma ContinuationOctetsStep(s: string, count: nat, b: nat, tail: seq<nat>)
    requires count >= 1 && ReadOctet(s, 0) == Some(b) && 0x80 <= b < 0xC0
    requires ContinuationOctets(s, 3, count - 1) == Some(tail)
    ensures ContinuationOctets(s, 0, count) == Some([b] + tail)
  {
  }

  lemma {:induction false} ReadOctetOfEscape(b: nat, rest: string)
    requires b < 256
    ensures ReadOctet(Escape(b) + rest, 0) == Some(b)
  {
    var s := Escape(b) + rest;
    assert s[0] == '%' && s[1] == HexChar(b / 16) && s[2] == HexChar(b % 16);
  }

  /** Reading continuation octets after a prefix of three characters. */
  lemma {:induction false} ContinuationOctetsShift(p: string, s: string, count: nat)
    requires |p| == 3
    ensures ContinuationOctets(p + s, 3, count) == ContinuationOctets(s, 0, count)
  {
    ContinuationOctetsShiftAt(p, s, 0, count);
  }

  lemma {:induction false} ContinuationOctetsShiftAt(p: string, s: string, k: nat, count: nat)
    requires |p| == 3
    ensures ContinuationOctets(p + s, k + 3, count) == ContinuationOctets(s, k, count)
    decreases count
  {
    if count > 0 {
      var t := p + s;
      assert ReadOctet(t, k + 3) == ReadOctet(s, k) by {
        if k + 2 < |s| {
          assert t[k + 3] == s[k] && t[k + 4] == s[k + 1] && t[k + 5] == s[k + 2];
        }
      }
      ContinuationOctetsShiftAt(p, s, k + 3, count - 1);
    }
  }

  /** The escape sequence of one character decodes to that character. */
  lemma {:induction false} DecodeEscapeOfChar(c: char, rest: string)
    requires c as int >= 0x80
    ensures DecodeEscape(EscapeAll(Utf8(c)) + rest) == Some((c, 3 * |Utf8(c)|))
  {
    Utf8Decodes(c);
    DecodeEscapeOfOctets(Utf8(c), rest);
  }

  /** The escapes of a well-formed multi-octet sequence decode to the
      character the octets spell. */
  lemma {:induction false} DecodeEscapeOfOctets(bs: seq<nat>, rest: string)
    requires 2 <= |bs| <= 4 && 0x80 <= bs[0] < 256 && SequenceLength(bs[0]) == |bs|
    requires forall i :: 1 <= i < |bs| ==> 0x80 <= bs[i] < 0xC0
    requires IsScalarOfLength(|bs|, CodePoint(bs[0], bs[1..]))
    ensures DecodeEscape(EscapeAll(bs) + rest) == Some((CodePoint(bs[0], bs[1..]) as char, 3 * |bs|))
  {
    var x := EscapeAll(bs[1..]) + rest;
    var s := EscapeAll(bs) + rest;
    assert s == Escape(bs[0]) + x;
    ReadOctetOfEscape(bs[0], x);
    ContinuationOctetsOfEscapes(bs[1..], rest);
    ContinuationOctetsShift(Escape(bs[0]), x, |bs| - 1);
    DecodeEscapeStep(s, bs[0], |bs|, bs[1..]);
  }

  lemma DecodeEscapeStep(s: string, b0: nat, n: nat, bs: seq<nat>)
    requires ReadOctet(s, 0) == Some(b0) && b0 >= 0x80 && SequenceLength(b0) == n && n != 0
    requires ContinuationOctets(s, 3, n - 1) == Some(bs)
    requires IsScalarOfLength(n, CodePoint(b0, bs))
    ensures DecodeEscape(s) == Some((CodePoint(b0, bs) as char, 3 * n))
  {
  }

  /** The octets `Utf8` writes are a leading octet announcing their count,
      continuation octets, and they add back up to the character. */
  lemma {:induction false} Utf8Decodes(c: char)
    requires c as int >= 0x80
    ensures SequenceLength(Utf8(c)[0]) == |Utf8(c)|
    ensures forall i :: 1 <= i < |Utf8(c)| ==> 0x80 <= Utf8(c)[i] < 0xC0
    ensures CodePoint(Utf8(c)[0], Utf8(c)[1..]) == c as int
    ensures IsScalarOfLength(|Utf8(c)|, c as int)
  {
    var cp := c as int;
    var bs := Utf8(c);
    if cp < 0x800 {
      Utf8Two(cp);
    } else if cp < 0x10000 {
      Utf8Three(cp);
    } else {
      Utf8Four(cp);
    }
  }

  lemma Utf8Two(cp: int)
    requires 0x80 <= cp < 0x800
    ensures 0xC0 <= 0xC0 + cp / 64 < 0xE0
    ensures (cp / 64) * 64 + cp % 64 == cp
  {
  }

  lemma {:induction false} Utf8Three(cp: int)
    requires 0x800 <= cp < 0x10000
    ensures 0xE0 <= 0xE0 + cp / 4096 < 0xF0
    ensures (cp / 4096) * 4096 + ((cp / 64) % 64) * 64 + cp % 64 == cp
  {
    var q := cp / 64;
    assert q / 64 == cp / 4096;
  }

  lemma {:induction false} Utf8Four(cp: int)
    requires 0x10000 <= cp < 0x110000
    ensures 0xF0 <= 0xF0 + cp / 262144 < 0xF8
    ensures (cp / 262144) * 262144 + ((cp / 4096) % 64) * 4096 + ((cp / 64) % 64) * 64 + cp % 64 == cp
  {
    var q := cp / 64;
    var r := q / 64;
    assert r == cp / 4096;
    assert r / 64 == cp / 262144;
  }

  /** Decoding what `encodeURIComponent` writes gives the string back. */
  lemma {:induction false} DecodeEncodeRoundTrip(s: string)
    ensures DecodeURIComponent(EncodeURIComponent(s)) == Some(s)
  {
    if s != [] {
      var c := s[0];
      var tail := EncodeURIComponent(s[1..]);
      DecodeEncodeRoundTrip(s[1..]);
      if IsUnreserved(c) {
        assert EncodeURIComponent(s) == [c] + tail;
        assert ([c] + tail)[1..] == tail;
      } else {
        var e := EscapeAll(Utf8(c));
        var t := e + tail;
        assert EncodeURIComponent(s) == t;
        assert t[0] == '%';
        if c as int < 0x80 {
          assert e == Escape(c as int);
          assert t[..3] == e;
          assert ReadOctet(t, 0) == Some(c as int);
          assert DecodeEscape(t) == Some((c, 3));
        } else {
          DecodeEscapeOfChar(c, tail);
        }
        assert t[|e|..] == tail;
      }
      assert [c] + s[1..] == s;
    }
  }

  /** `%` not followed by two hex digits is a `URIError`. */
  lemma {:induction false} MalformedEscapeFails(rest: string)
    requires |rest| < 2 || !IsHexDigit(rest[0]) || !IsHexDigit(rest[1])
    ensures DecodeURIComponent(['%'] + rest) == None
  {
    var s := ['%'] + rest;
    if |rest| >= 2 {
      assert s[1] == rest[0] && s[2] == rest[1];
    }
    assert ReadOctet(s, 0) == None;
  }

  /** An escape whose octet starts no UTF-8 sequence (a continuation octet,
      or `F8` and above) is a `URIError`. */
  lemma {:induction false} BadLeadingOctetFails(rest: string, b: nat)
    requires 0x80 <= b < 0xC0 || 0xF8 <= b < 256
    ensures DecodeURIComponent(Escape(b) + rest) == None
  {
    ReadOctetOfEscape(b, rest);
  }

  /** The overlong two-octet form of NUL, `%C0%80`, is a `URIError`. */
  lemma {:induction false} OverlongFormFails(rest: string)
    ensures DecodeURIComponent(Escape(0xC0) + Escape(0x80) + rest) == None
  {
    var s := Escape(0xC0) + (Escape(0x80) + rest);
    assert Escape(0xC0) + Escape(0x80) + rest == s;
    ReadOctetOfEscape(0xC0, Escape(0x80) + rest);
    ContinuationOctetsShift(Escape(0xC0), Escape(0x80) + rest, 1);
    ReadOctetOfEscape(0x80, rest);
    assert ContinuationOctets(Escape(0x80) + rest, 3, 0) == Some([]);
    assert [0x80] + [] == [0x80];
    assert ContinuationOctets(Escape(0x80) + rest, 0, 1) == Some([0x80]);
    assert CodePoint(0xC0, [0x80]) == 0;
  }

  /** A failure anywhere fails the whole: text without `%` in front of an
      undecodable string does not make it decodable. */
  lemma {:induction false} FailureIsNotMasked(p: string, s: string)
    requires forall i :: 0 <= i < |p| ==> p[i] != '%'
    requires DecodeURIComponent(s) == None
    ensures DecodeURIComponent(p + s) == None
  {
    if p != [] {
      assert (p + s)[1..] == p[1..] + s;
      FailureIsNotMasked(p[1..], s);
    } else {
      assert p + s == s;
    }
  }
}
