/**
 * encodeURIComponent, which builds the redirect target of the search, and
 * the matching decodeURIComponent, with which the listing page reads the
 * query back (ECMA-262, section 19.2.6: the Encode and Decode abstract
 * operations with an empty reserved set). JavaScript strings are UTF-16;
 * here a string is a sequence of Unicode scalar values, so the lone
 * surrogates for which encodeURIComponent throws cannot occur.
 */
module UriComponent {
  import opened Options

  type Byte = b: int | 0 <= b < 256

  /** The characters encodeURIComponent copies unchanged: ASCII letters, digits and - _ . ! ~ * ' ( ). */
  predicate IsUnreserved(c: char) {
    ('a' <= c <= 'z') || ('A' <= c <= 'Z') || ('0' <= c <= '9')
    || c == '-' || c == '_' || c == '.' || c == '!' || c == '~' || c == '*' || c == '\'' || c == '(' || c == ')'
  }

  predicate IsUpperHexDigit(c: char) {
    ('0' <= c <= '9') || ('A' <= c <= 'F')
  }

  function HexDigit(n: int): (c: char)
    requires 0 <= n < 16
    ensures IsUpperHexDigit(c)
  {
    if n < 10 then ('0' as int + n) as char else ('A' as int + n - 10) as char
  }

  /** The value of a hexadecimal digit of either case. */
  function HexValue(c: char): (r: Option<int>)
    ensures r.Some? ==> 0 <= r.value < 16
  {
    if '0' <= c <= '9' then Some(c as int - '0' as int)
    else if 'A' <= c <= 'F' then Some(c as int - 'A' as int + 10)
    else if 'a' <= c <= 'f' then Some(c as int - 'a' as int + 10)
    else None
  }

  /** The UTF-8 octets of a scalar value (RFC 3629, section 3). */
  function Utf8(c: char): (bs: seq<Byte>)
    ensures 1 <= |bs| <= 4
  {
    var n := c as int;
    if n < 0x80 then [n]
    else if n < 0x800 then [0xC0 + n / 64, 0x80 + n % 64]
    else if n < 0x1_0000 then [0xE0 + n / 4096, 0x80 + (n / 64) % 64, 0x80 + n % 64]
    else [0xF0 + n / 262144, 0x80 + (n / 4096) % 64, 0x80 + (n / 64) % 64, 0x80 + n % 64]
  }

  /** One octet as a percent escape with upper-case digits. */
  function PercentByte(b: Byte): string {
    ['%', HexDigit(b / 16), HexDigit(b % 16)]
  }

  function PercentBytes(bs: seq<Byte>): (r: string)
    ensures |r| == 3 * |bs|
  {
    if bs == [] then [] else PercentByte(bs[0]) + PercentBytes(bs[1..])
  }

  function EncodeChar(c: char): string {
    if IsUnreserved(c) then [c] else PercentBytes(Utf8(c))
  }

  /** encodeURIComponent. */
  function EncodeUriComponent(s: string): string {
    if s == [] then [] else EncodeChar(s[0]) + EncodeUriComponent(s[1..])
  }

  /** The octet written as "%XY" at the front of `s`, if there is one. */
  function ReadByte(s: string): (r: Option<Byte>)
    ensures r.Some? ==> |s| >= 3
  {
    if |s| < 3 || s[0] != '%' then None
    else
      var hi :- HexValue(s[1]);
      var lo :- HexValue(s[2]);
      Some(hi * 16 + lo)
  }

  /** `n` consecutive percent-escaped octets at the front of `s`. */
  function ReadBytes(s: string, n: nat): (r: Option<seq<Byte>>)
    ensures r.Some? ==> |r.value| == n && 3 * n <= |s|
  {
    if n == 0 then Some([])
    else
      var b :- ReadByte(s);
      var rest :- ReadBytes(s[3..], n - 1);
      Some([b] + rest)
  }

  /** How many octets a sequence starting with `b` has; 0 when `b` cannot start one. */
  function SequenceLength(b: Byte): nat {
    if b < 0x80 then 1
    else if 0xC0 <= b < 0xE0 then 2
    else if 0xE0 <= b < 0xF0 then 3
    else if 0xF0 <= b < 0xF8 then 4
    else 0
  }

  predicate IsContinuation(b: Byte) {
    0x80 <= b < 0xC0
  }

  /** The payload bits of an octet sequence, put together. */
  function CodePoint(bs: seq<Byte>): int
    requires 1 <= |bs| <= 4
  {
    var b: seq<int> := bs;
    if |b| == 1 then b[0]
    else if |b| == 2 then (b[0] - 0xC0) * 64 + (b[1] - 0x80)
    else if |b| == 3 then (b[0] - 0xE0) * 4096 + (b[1] - 0x80) * 64 + (b[2] - 0x80)
    else (b[0] - 0xF0) * 262144 + (b[1] - 0x80) * 4096 + (b[2] - 0x80) * 64 + (b[3] - 0x80)
  }

  /** `cp` is a scalar value whose shortest UTF-8 form has `n` octets. */
  predicate IsShortestForm(n: nat, cp: int) {
    (0 <= cp < 0xD800 || 0xE000 <= cp < 0x11_0000)
    && (if n == 1 then cp < 0x80
        else if n == 2 then 0x80 <= cp < 0x800
        else if n == 3 then 0x800 <= cp < 0x1_0000
        else n == 4 && 0x1_0000 <= cp)
  }

  /** One escaped character at the front of `s` (which starts with '%') and how many characters it took. */
  function DecodeEscape(s: string): (r: Option<(char, nat)>)
    ensures r.Some? ==> 3 <= r.value.1 <= |s|
  {
    var b :- ReadByte(s);
    var n := SequenceLength(b);
    if n == 0 then None
    else
      var bs :- ReadBytes(s, n);
      if forall i :: 1 <= i < n ==> IsContinuation(bs[i]) then
        var cp := CodePoint(bs);
        if IsShortestForm(n, cp) then Some((cp as char, 3 * n)) else None
      else None
  }

  /** decodeURIComponent; None where it throws URIError. */
  function DecodeUriComponent(s: string): Option<string>
    decreases |s|
  {
    if s == [] then Some([])
    else if s[0] != '%' then
      var rest :- DecodeUriComponent(s[1..]);
      Some([s[0]] + rest)
    else
      var e :- DecodeEscape(s);
      var rest :- DecodeUriComponent(s[e.1..]);
      Some([e.0] + rest)
  }

  /** A string in which every character is unreserved, '%' or an upper-case hexadecimal digit. */
  predicate IsUriSafe(s: string) {
    forall i :: 0 <= i < |s| ==> IsUnreserved(s[i]) || s[i] == '%' || IsUpperHexDigit(s[i])
  }

  predicate IsAllUnreserved(s: string) {
    forall i :: 0 <= i < |s| ==> IsUnreserved(s[i])
  }

  lemma HexRoundTrip(n: int)
    requires 0 <= n < 16
    ensures HexValue(HexDigit(n)) == Some(n)
  {
  }

  lemma ReadPercentByte(b: Byte, rest: string)
    ensures ReadByte(PercentByte(b) + rest) == Some(b)
  {
    var s := PercentByte(b) + rest;
    HexRoundTrip(b / 16);
    HexRoundTrip(b % 16);
    assert s[0] == '%' && s[1] == HexDigit(b / 16) && s[2] == HexDigit(b % 16);
  }

  lemma {:induction false} ReadPercentBytes(bs: seq<Byte>, rest: string)
    ensures ReadBytes(PercentBytes(bs) + rest, |bs|) == Some(bs)
  {
    if bs != [] {
      ReadFirstByte(bs, rest);
      DropFirstEscape(bs, rest);
      ReadPercentBytes(bs[1..], rest);
      assert [bs[0]] + bs[1..] == bs;
    }
  }

  lemma DropFirstEscape(bs: seq<Byte>, rest: string)
    requires bs != []
    ensures (PercentBytes(bs) + rest)[3..] == PercentBytes(bs[1..]) + rest
  {
    assert PercentBytes(bs) + rest == PercentByte(bs[0]) + (PercentBytes(bs[1..]) + rest);
  }

  lemma TwoOctets(n: int)
    requires 0x80 <= n < 0x800
    ensures var b0, b1 := 0xC0 + n / 64, 0x80 + n % 64;
      0xC0 <= b0 < 0xE0 && 0x80 <= b1 < 0xC0 && (b0 - 0xC0) * 64 + (b1 - 0x80) == n
  {
  }

  lemma ThreeOctets(n: int)
    requires 0x800 <= n < 0x1_0000
    ensures var b0, b1, b2 := 0xE0 + n / 4096, 0x80 + (n / 64) % 64, 0x80 + n % 64;
      0xE0 <= b0 < 0xF0 && 0x80 <= b1 < 0xC0 && 0x80 <= b2 < 0xC0
      && (b0 - 0xE0) * 4096 + (b1 - 0x80) * 64 + (b2 - 0x80) == n
  {
    var q := n / 64;
    assert n == q * 64 + n % 64;
    assert q == (q / 64) * 64 + q % 64;
    assert q / 64 == n / 4096;
  }

  lemma FourOctets(n: int)
    requires 0x1_0000 <= n < 0x11_0000
    ensures var b0, b1, b2, b3 := 0xF0 + n / 262144, 0x80 + (n / 4096) % 64, 0x80 + (n / 64) % 64, 0x80 + n % 64;
      0xF0 <= b0 < 0xF8 && 0x80 <= b1 < 0xC0 && 0x80 <= b2 < 0xC0 && 0x80 <= b3 < 0xC0
      && (b0 - 0xF0) * 262144 + (b1 - 0x80) * 4096 + (b2 - 0x80) * 64 + (b3 - 0x80) == n
  {
    var q := n / 64;
    var r := q / 64;
    assert n == q * 64 + n % 64;
    assert q == r * 64 + q % 64;
    assert r == (r / 64) * 64 + r % 64;
    assert r == n / 4096;
    assert r / 64 == n / 262144;
  }

  /** The octets of every scalar value form a well-formed, shortest-form sequence of that value. */
  lemma Utf8WellFormed(c: char)
    ensures var bs := Utf8(c);
      SequenceLength(bs[0]) == |bs|
      && (forall i :: 1 <= i < |bs| ==> IsContinuation(bs[i]))
      && CodePoint(bs) == c as int
      && IsShortestForm(|bs|, c as int)
  {
    var n := c as int;
    if n < 0x80 {
    } else if n < 0x800 {
      TwoOctets(n);
    } else if n < 0x1_0000 {
      ThreeOctets(n);
    } else {
      FourOctets(n);
    }
  }

  lemma DecodeEncodedChar(c: char, rest: string)
    requires !IsUnreserved(c)
    ensures DecodeEscape(PercentBytes(Utf8(c)) + rest) == Some((c, 3 * |Utf8(c)|))
  {
    var bs := Utf8(c);
    Utf8WellFormed(c);
    ReadPercentBytes(bs, rest);
    ReadFirstByte(bs, rest);
  }

  lemma ReadFirstByte(bs: seq<Byte>, rest: string)
    requires bs != []
    ensures ReadByte(PercentBytes(bs) + rest) == Some(bs[0])
  {
    assert PercentBytes(bs) == PercentByte(bs[0]) + PercentBytes(bs[1..]);
    ReadPercentByte(bs[0], PercentBytes(bs[1..]) + rest);
    assert PercentBytes(bs) + rest == PercentByte(bs[0]) + (PercentBytes(bs[1..]) + rest);
  }

  lemma DecodeEncodeChar(c: char, rest: string)
    ensures DecodeUriComponent(EncodeChar(c) + rest) == (var r :- DecodeUriComponent(rest); Some([c] + r))
  {
    var s := EncodeChar(c) + rest;
    if IsUnreserved(c) {
      assert s[0] == c && s[1..] == rest;
    } else {
      DecodeEncodedChar(c, rest);
      var bs := Utf8(c);
      assert s[0] == '%' by {
        assert PercentBytes(bs) == PercentByte(bs[0]) + PercentBytes(bs[1..]);
      }
      assert s[3 * |bs|..] == rest;
    }
  }

  /** decodeURIComponent undoes encodeURIComponent. */
  lemma {:induction false} DecodeEncode(s: string)
    ensures DecodeUriComponent(EncodeUriComponent(s)) == Some(s)
  {
    if s != [] {
      DecodeEncodeChar(s[0], EncodeUriComponent(s[1..]));
      DecodeEncode(s[1..]);
      assert [s[0]] + s[1..] == s;
    }
  }

  lemma {:induction false} PercentBytesSafe(bs: seq<Byte>)
    ensures IsUriSafe(PercentBytes(bs))
  {
    if bs != [] {
      PercentBytesSafe(bs[1..]);
      var p, t := PercentByte(bs[0]), PercentBytes(bs[1..]);
      forall i | 0 <= i < |p + t| ensures IsUnreserved((p + t)[i]) || (p + t)[i] == '%' || IsUpperHexDigit((p + t)[i]) {
        if i >= 3 {
          assert (p + t)[i] == t[i - 3];
        }
      }
    }
  }

  /**
   * The encoded component holds only unreserved characters, '%' and
   * upper-case hexadecimal digits, so none of the delimiters & = # + ?
   * or a space can end the search parameter early.
   */
  lemma {:induction false} EncodeIsUriSafe(s: string)
    ensures IsUriSafe(EncodeUriComponent(s))
    ensures forall i :: 0 <= i < |EncodeUriComponent(s)| ==>
      EncodeUriComponent(s)[i] !in {'&', '=', '#', '+', '?', ' '}
  {
    if s != [] {
      EncodeIsUriSafe(s[1..]);
      var e, t := EncodeChar(s[0]), EncodeUriComponent(s[1..]);
      if !IsUnreserved(s[0]) {
        PercentBytesSafe(Utf8(s[0]));
      }
      forall i | 0 <= i < |e + t| ensures IsUnreserved((e + t)[i]) || (e + t)[i] == '%' || IsUpperHexDigit((e + t)[i]) {
        if i >= |e| {
          assert (e + t)[i] == t[i - |e|];
        }
      }
    }
  }

  /** encodeURIComponent is the identity exactly on strings of unreserved characters. */
  lemma {:induction false} EncodeIdentity(s: string)
    ensures EncodeUriComponent(s) == s <==> IsAllUnreserved(s)
  {
    if s != [] {
      EncodeIdentity(s[1..]);
      assert IsAllUnreserved(s) <==> IsUnreserved(s[0]) && IsAllUnreserved(s[1..]) by {
        assert forall i :: 0 <= i < |s| - 1 ==> s[1..][i] == s[i + 1];
      }
      EncodeLength(s[1..]);
      if !IsUnreserved(s[0]) {
        var bs := Utf8(s[0]);
        assert |PercentBytes(bs)| >= 3;
      }
    }
  }

  lemma {:induction false} EncodeLength(s: string)
    ensures |EncodeUriComponent(s)| >= |s|
  {
    if s != [] {
      EncodeLength(s[1..]);
    }
  }
}
