/** `urllib.parse.quote` with its defaults (section 2.1 of RFC 3986 percent-encoding of
    UTF-8): letters, digits, `_.-~` and `/` are kept, every other character is written as
    the `%XX` escapes of its UTF-8 bytes, with upper-case hexadecimal digits. */
module UrlQuote {
  import opened Strings

  /** The characters `quote` leaves alone with `safe='/'`. */
  predicate IsSafe(c: char) {
    IsAsciiLetter(c) || IsAsciiDigit(c) || c == '_' || c == '.' || c == '-' || c == '~' || c == '/'
  }

  predicate IsByte(b: int) {
    0 <= b < 256
  }

  /** The UTF-8 encoding of one scalar value. */
  function Utf8(c: char): (r: seq<int>)
    ensures 1 <= |r| <= 4
    ensures forall i | 0 <= i < |r| :: IsByte(r[i])
    ensures |r| == 1 <==> c as int < 0x80
  {
    var n := c as int;
    if n < 0x80 then [n]
    else if n < 0x800 then [0xC0 + n / 0x40, 0x80 + n % 0x40]
    else if n < 0x1_0000 then [0xE0 + n / 0x1000, 0x80 + (n / 0x40) % 0x40, 0x80 + n % 0x40]
    else [0xF0 + n / 0x4_0000, 0x80 + (n / 0x1000) % 0x40, 0x80 + (n / 0x40) % 0x40,
          0x80 + n % 0x40]
  }

  /** The scalar value a well-formed UTF-8 sequence of one to four bytes stands for. */
  function Utf8Value(b: seq<int>): int
    requires 1 <= |b| <= 4
  {
    if |b| == 1 then b[0]
    else if |b| == 2 then (b[0] - 0xC0) * 0x40 + (b[1] - 0x80)
    else if |b| == 3 then ((b[0] - 0xE0) * 0x40 + (b[1] - 0x80)) * 0x40 + (b[2] - 0x80)
    else (((b[0] - 0xF0) * 0x40 + (b[1] - 0x80)) * 0x40 + (b[2] - 0x80)) * 0x40 + (b[3] - 0x80)
  }

  lemma DivMod64(n: int)
    requires 0 <= n
    ensures (n / 0x40) * 0x40 + n % 0x40 == n
    ensures n / 0x1000 == (n / 0x40) / 0x40
    ensures n / 0x4_0000 == (n / 0x1000) / 0x40
  {
  }

  /** The encoding starts with the lead byte the length calls for, continues with
      continuation bytes, and decodes back to the character. */
  lemma Utf8RoundTrip(c: char)
    ensures Utf8Value(Utf8(c)) == c as int
    ensures var r := Utf8(c);
      (|r| == 1 ==> r[0] < 0x80)
      && (|r| == 2 ==> 0xC0 <= r[0] < 0xE0)
      && (|r| == 3 ==> 0xE0 <= r[0] < 0xF0)
      && (|r| == 4 ==> 0xF0 <= r[0] < 0xF8)
      && forall i | 0 < i < |r| :: 0x80 <= r[i] < 0xC0
  {
    var n := c as int;
    DivMod64(n);
    DivMod64(n / 0x40);
    DivMod64(n / 0x1000);
  }

  function HexDigit(d: int): (c: char)
    requires 0 <= d < 16
    ensures IsSafe(c)
  {
    if d < 10 then ('0' as int + d) as char else ('A' as int + d - 10) as char
  }

  predicate IsHexDigit(c: char) {
    IsAsciiDigit(c) || 'A' <= c <= 'F' || 'a' <= c <= 'f'
  }

  /** A hexadecimal digit as `quote` writes it: `0`-`9` or `A`-`F`. */
  predicate IsUpperHexDigit(c: char) {
    IsAsciiDigit(c) || 'A' <= c <= 'F'
  }

  function HexValue(c: char): int
    requires IsHexDigit(c)
  {
    if IsAsciiDigit(c) then c as int - '0' as int
    else if 'A' <= c <= 'F' then c as int - 'A' as int + 10
    else c as int - 'a' as int + 10
  }

  /** `%XX` for one byte. */
  function Escape(b: int): (r: string)
    requires IsByte(b)
    ensures |r| == 3 && r[0] == '%' && IsHexDigit(r[1]) && IsHexDigit(r[2])
    ensures HexValue(r[1]) * 16 + HexValue(r[2]) == b
    ensures IsUpperHexDigit(r[1]) && IsUpperHexDigit(r[2])
  {
    ['%', HexDigit(b / 16), HexDigit(b % 16)]
  }

  function EscapeAll(bytes: seq<int>): string
    requires forall i | 0 <= i < |bytes| :: IsByte(bytes[i])
    decreases |bytes|
  {
    if bytes == [] then [] else Escape(bytes[0]) + EscapeAll(bytes[1..])
  }

  function QuoteChar(c: char): string {
    if IsSafe(c) then [c] else EscapeAll(Utf8(c))
  }

  /** `urllib.parse.quote(s)` */
  function Quote(s: string): string
    decreases |s|
  {
    if s == [] then [] else QuoteChar(s[0]) + Quote(s[1..])
  }

  /** The quoted text only holds safe characters and `%`. */
  lemma {:induction false} QuoteAlphabet(s: string)
    ensures forall i | 0 <= i < |Quote(s)| :: IsSafe(Quote(s)[i]) || Quote(s)[i] == '%'
    decreases |s|
  {
    if s != [] {
      QuoteAlphabet(s[1..]);
      EscapeAllAlphabet(Utf8(s[0]));
      QuoteCons(s);
    }
  }

  lemma {:induction false} EscapeAllAlphabet(bytes: seq<int>)
    requires forall i | 0 <= i < |bytes| :: IsByte(bytes[i])
    ensures forall i | 0 <= i < |EscapeAll(bytes)| :: IsSafe(EscapeAll(bytes)[i]) || EscapeAll(bytes)[i] == '%'
    decreases |bytes|
  {
    if bytes != [] {
      EscapeAllAlphabet(bytes[1..]);
      var e := Escape(bytes[0]);
      assert IsSafe(e[1]) && IsSafe(e[2]);
    }
  }

  /** A text of safe characters is quoted to itself. */
  lemma {:induction false} QuoteSafe(s: string)
    requires forall i | 0 <= i < |s| :: IsSafe(s[i])
    ensures Quote(s) == s
    decreases |s|
  {
    if s != [] {
      QuoteSafe(s[1..]);
      assert [s[0]] + s[1..] == s;
    }
  }

  /** The escapes of a byte sequence are the three-character escapes of its bytes, in order. */
  lemma {:induction false} EscapeAllSpec(bytes: seq<int>)
    requires forall i | 0 <= i < |bytes| :: IsByte(bytes[i])
    ensures |EscapeAll(bytes)| == 3 * |bytes|
    ensures forall i | 0 <= i < |bytes| :: EscapeAll(bytes)[3 * i..3 * i + 3] == Escape(bytes[i])
    decreases |bytes|
  {
    if bytes != [] {
      EscapeAllSpec(bytes[1..]);
      var e := Escape(bytes[0]);
      var tail := EscapeAll(bytes[1..]);
      assert EscapeAll(bytes) == e + tail;
      forall i | 0 <= i < |bytes| ensures EscapeAll(bytes)[3 * i..3 * i + 3] == Escape(bytes[i]) {
        if i > 0 {
          assert EscapeAll(bytes)[3 * i..3 * i + 3] == tail[3 * (i - 1)..3 * (i - 1) + 3];
          assert bytes[1..][i - 1] == bytes[i];
        }
      }
    }
  }

  /** Quoting works character by character: a safe character is kept, any other becomes the
      escapes of its UTF-8 bytes. */
  lemma QuoteOneChar(c: char)
    ensures IsSafe(c) ==> Quote([c]) == [c]
    ensures !IsSafe(c) ==> Quote([c]) == EscapeAll(Utf8(c))
  {
    assert [c][1..] == [];
  }

  lemma QuoteCons(s: string)
    requires s != []
    ensures Quote(s) == QuoteChar(s[0]) + Quote(s[1..])
  {
  }

  /** Quoting a concatenation quotes each part. */
  lemma {:induction false} QuoteAppend(a: string, b: string)
    ensures Quote(a + b) == Quote(a) + Quote(b)
    decreases |a|
  {
    if a == [] {
      assert a + b == b;
    } else {
      QuoteAppend(a[1..], b);
      QuoteAppendStep(a, b);
    }
  }

  /** One character of the induction in `QuoteAppend`. */
  lemma QuoteAppendStep(a: string, b: string)
    requires a != [] && Quote(a[1..] + b) == Quote(a[1..]) + Quote(b)
    ensures Quote(a + b) == Quote(a) + Quote(b)
  {
    QuoteConsAppend(a, b);
    QuoteCons(a);
    ConcatAssoc(QuoteChar(a[0]), Quote(a[1..]), Quote(b));
  }

  lemma QuoteConsAppend(a: string, b: string)
    requires a != []
    ensures Quote(a + b) == QuoteChar(a[0]) + Quote(a[1..] + b)
  {
    var ab := a + b;
    assert ab[0] == a[0] && ab[1..] == a[1..] + b;
    QuoteCons(ab);
  }

  lemma ConcatAssoc(x: string, y: string, z: string)
    ensures x + (y + z) == (x + y) + z
  {
  }

  /** Undoing percent-encoding: each `%XX` becomes the byte it names, every other character
      its code. */
  function PercentDecode(t: string): seq<int>
    decreases |t|
  {
    if t == [] then []
    else if |t| >= 3 && t[0] == '%' && IsHexDigit(t[1]) && IsHexDigit(t[2]) then
      [HexValue(t[1]) * 16 + HexValue(t[2])] + PercentDecode(t[3..])
    else [t[0] as int] + PercentDecode(t[1..])
  }

  /** The UTF-8 bytes of a whole text. */
  function Bytes(s: string): seq<int>
    decreases |s|
  {
    if s == [] then [] else Utf8(s[0]) + Bytes(s[1..])
  }

  lemma DecodeOneEscape(b: int, rest: string)
    requires IsByte(b)
    ensures PercentDecode(Escape(b) + rest) == [b] + PercentDecode(rest)
  {
    var e := Escape(b);
    var t := e + rest;
    assert t[0] == '%' && t[1] == e[1] && t[2] == e[2];
    assert t[3..] == rest;
  }

  lemma {:induction false} DecodeEscapes(bytes: seq<int>, rest: string)
    requires forall i | 0 <= i < |bytes| :: IsByte(bytes[i])
    ensures PercentDecode(EscapeAll(bytes) + rest) == bytes + PercentDecode(rest)
    decreases |bytes|
  {
    if bytes != [] {
      var tail := EscapeAll(bytes[1..]);
      calc {
        PercentDecode(EscapeAll(bytes) + rest);
        { assert EscapeAll(bytes) + rest == Escape(bytes[0]) + (tail + rest); }
        PercentDecode(Escape(bytes[0]) + (tail + rest));
        { DecodeOneEscape(bytes[0], tail + rest); }
        [bytes[0]] + PercentDecode(tail + rest);
        { DecodeEscapes(bytes[1..], rest); }
        [bytes[0]] + (bytes[1..] + PercentDecode(rest));
        { ConsAppend(bytes, PercentDecode(rest)); }
        bytes + PercentDecode(rest);
      }
    } else {
      assert EscapeAll(bytes) + rest == rest;
    }
  }

  lemma ConsAppend(x: seq<int>, y: seq<int>)
    requires x != []
    ensures [x[0]] + (x[1..] + y) == x + y
  {
    assert x == [x[0]] + x[1..];
  }

  /** Percent-decoding the quoted text gives back the text's UTF-8 bytes: quoting loses
      nothing. */
  lemma {:induction false} QuoteRoundTrip(s: string)
    ensures PercentDecode(Quote(s)) == Bytes(s)
    decreases |s|
  {
    if s != [] {
      QuoteRoundTrip(s[1..]);
      var c := s[0];
      var rest := Quote(s[1..]);
      if IsSafe(c) {
        assert Quote(s) == [c] + rest;
        assert ([c] + rest)[1..] == rest;
        assert Utf8(c) == [c as int];
      } else {
        DecodeEscapes(Utf8(c), rest);
      }
    }
  }
}
