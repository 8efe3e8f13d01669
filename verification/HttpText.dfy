/** The pieces of text handling that the HTTP client takes from the standard library. */
module HttpText {
  import opened Prelude

  const CR: byte := 13

  predicate IsAscii(b: bytes) {
    forall i :: 0 <= i < |b| ==> b[i] < 128
  }

  function AsciiText(b: bytes): (s: string)
    requires IsAscii(b)
    ensures |s| == |b|
    ensures forall i :: 0 <= i < |b| ==> s[i] == b[i] as char
  {
    seq(|b|, i requires 0 <= i < |b| => b[i] as char)
  }

  /** UTF-8 decoding, of which only its effect on ASCII is used. */
  datatype Decoder = Decoder(decode: bytes -> Option<string>)

  ghost predicate LawfulDecoder(d: Decoder) {
    forall b :: IsAscii(b) ==> d.decode(b) == Some(AsciiText(b))
  }

  type Utf8 = d: Decoder | LawfulDecoder(d)
    ghost witness Decoder(b => if IsAscii(b) then Some(AsciiText(b)) else None)

  /** `char::is_whitespace`. */
  predicate IsWhitespace(c: char) {
    || '\t' <= c <= '\r'
    || c in {' ', '\U{85}', '\U{A0}', '\U{1680}', '\U{2028}', '\U{2029}', '\U{202F}', '\U{205F}', '\U{3000}'}
    || '\U{2000}' <= c <= '\U{200A}'
  }

  function TrimStart(s: string): string {
    if s != [] && IsWhitespace(s[0]) then TrimStart(s[1..]) else s
  }

  function TrimEnd(s: string): string {
    if s != [] && IsWhitespace(s[|s| - 1]) then TrimEnd(s[..|s| - 1]) else s
  }

  function Trim(s: string): string {
    TrimEnd(TrimStart(s))
  }

  /** The text before the first occurrence of `c`, or all of it. */
  function Before(s: string, c: char): string {
    if s == [] || s[0] == c then [] else [s[0]] + Before(s[1..], c)
  }

  function HexDigit(c: char): Option<nat> {
    if '0' <= c <= '9' then Some(c as int - '0' as int)
    else if 'a' <= c <= 'f' then Some(c as int - 'a' as int + 10)
    else if 'A' <= c <= 'F' then Some(c as int - 'A' as int + 10)
    else None
  }

  predicate AllHex(s: string) {
    forall i :: 0 <= i < |s| ==> HexDigit(s[i]).Some?
  }

  function HexValue(s: string): nat
    requires AllHex(s)
  {
    if s == [] then 0 else 16 * HexValue(s[..|s| - 1]) + HexDigit(s[|s| - 1]).value
  }

  /** `usize::from_str_radix(_, 16)` on a 64-bit target; a leading plus sign is allowed. */
  function ParseHex(s: string): Option<nat> {
    var digits := if |s| > 1 && s[0] == '+' then s[1..] else s;
    if digits == [] || !AllHex(digits) || HexValue(digits) >= U64 then None else Some(HexValue(digits))
  }

  /** The size in a chunk header, whose extensions are dropped. */
  function ParseChunkSize(header: string): Option<nat> {
    ParseHex(Trim(Before(Trim(header), ';')))
  }

  /** How much `read_line` takes: up to and including the first line feed, or everything. */
  function LineLength(input: bytes): (n: nat)
    ensures n <= |input|
    ensures n == 0 <==> input == []
  {
    if input == [] then 0 else if input[0] == LF then 1 else 1 + LineLength(input[1..])
  }

  lemma {:induction false} LineEndsAtLf(a: bytes, rest: bytes)
    requires LF !in a
    ensures LineLength(a + [LF] + rest) == |a| + 1
    ensures LineLength(a) == |a|
  {
    if a != [] {
      LineEndsAtLf(a[1..], rest);
      assert (a + [LF] + rest)[1..] == a[1..] + [LF] + rest;
    }
  }

  // ------------------------------------------------------------ chunk sizes

  lemma TrimStartIsIdle(s: string)
    requires s == [] || !IsWhitespace(s[0])
    ensures TrimStart(s) == s
  {
  }

  /** Trimming the end of `d + x` stops at the latest where `d` ends. */
  lemma {:induction false} TrimEndKeeps(d: string, x: string)
    requires d != [] && !IsWhitespace(d[|d| - 1])
    ensures TrimEnd(d + x) == d + TrimEnd(x)
  {
    if x == [] {
      assert d + x == d;
    } else {
      var init := x[..|x| - 1];
      assert (d + x)[..|d + x| - 1] == d + init;
      if IsWhitespace(x[|x| - 1]) {
        TrimEndKeeps(d, init);
      }
    }
  }

  lemma {:induction false} BeforeSemicolon(d: string, x: string)
    requires ';' !in d && (x == [] || x[0] == ';')
    ensures Before(d + x, ';') == d
  {
    if d == [] {
      assert d + x == x;
    } else {
      BeforeSemicolon(d[1..], x);
      assert (d + x)[1..] == d[1..] + x;
      assert d == [d[0]] + d[1..];
    }
  }

  lemma {:induction false} TrimEndOfExtension(x: string)
    requires x != [] && x[0] == ';'
    ensures TrimEnd(x) != [] && TrimEnd(x)[0] == ';'
  {
    if IsWhitespace(x[|x| - 1]) {
      TrimEndOfExtension(x[..|x| - 1]);
    }
  }

  lemma {:induction false} TrimEndOfSpace(x: string)
    requires forall i :: 0 <= i < |x| ==> IsWhitespace(x[i])
    ensures TrimEnd(x) == []
  {
    if x != [] {
      TrimEndOfSpace(x[..|x| - 1]);
    }
  }

  /** Digits followed by white space, or by an extension and anything else, read as the digits. */
  lemma ChunkSizeOf(d: string, x: string)
    requires d != [] && AllHex(d)
    requires (x != [] && x[0] == ';') || (forall i :: 0 <= i < |x| ==> IsWhitespace(x[i]))
    ensures ParseChunkSize(d + x) == if HexValue(d) < U64 then Some(HexValue(d)) else None
  {
    assert HexDigit(d[0]).Some? && HexDigit(d[|d| - 1]).Some?;
    assert forall i :: 0 <= i < |d| ==> HexDigit(d[i]).Some?;
    TrimStartIsIdle(d + x);
    TrimEndKeeps(d, x);
    if x != [] && x[0] == ';' {
      TrimEndOfExtension(x);
    } else {
      TrimEndOfSpace(x);
    }
    BeforeSemicolon(d, TrimEnd(x));
    TrimStartIsIdle(d);
    TrimEndKeeps(d, []);
    assert d + [] == d;
  }

  lemma {:induction false} HexOfZeros(s: string)
    requires forall i :: 0 <= i < |s| ==> s[i] == '0'
    ensures AllHex(s) && HexValue(s) == 0
  {
    if s != [] {
      HexOfZeros(s[..|s| - 1]);
    }
  }

  lemma {:induction false} HexAfterZeros(z: string, s: string)
    requires (forall i :: 0 <= i < |z| ==> z[i] == '0') && AllHex(s)
    ensures AllHex(z + s) && HexValue(z + s) == HexValue(s)
  {
    if s == [] {
      assert z + s == z;
      HexOfZeros(z);
    } else {
      HexAfterZeros(z, s[..|s| - 1]);
      assert (z + s)[..|z + s| - 1] == z + s[..|s| - 1];
      assert forall i :: 0 <= i < |z + s| ==> HexDigit((z + s)[i]).Some?;
    }
  }

  /** A number that starts with a digit other than zero is not zero, and every cut of it is smaller. */
  lemma {:induction false} HexCut(s: string, n: nat)
    requires AllHex(s) && 0 < n <= |s| && s[0] != '0'
    ensures AllHex(s[..n]) && 0 < HexValue(s[..n]) <= HexValue(s)
  {
    if n == |s| {
      assert s[..n] == s;
      if n > 1 {
        HexCut(s, n - 1);
      }
    } else {
      HexCut(s[..|s| - 1], n);
      assert s[..|s| - 1][..n] == s[..n];
    }
  }
}
