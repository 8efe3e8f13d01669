/**
 Chunked bodies as a server writes them (section 7.1 of RFC 9112), cut
 anywhere, and what the decoder makes of them.
 */
module HttpChunked {
  import opened Prelude
  import opened HttpText
  import opened HttpBody

  /** A chunk: `pad` zeros and the digits of its size, an extension, and its data. */
  datatype Chunk = Chunk(pad: nat, digits: bytes, ext: bytes, data: bytes)

  predicate WellFormed(c: Chunk) {
    && 0 < |c.data| < U64
    && IsAscii(c.digits) && c.digits != [] && c.digits[0] != 48
    && AllHex(AsciiText(c.digits)) && HexValue(AsciiText(c.digits)) == |c.data|
    && IsAscii(c.ext) && LF !in c.ext && (c.ext != [] ==> c.ext[0] == 59)
  }

  predicate AllWellFormed(cs: seq<Chunk>) {
    forall i :: 0 <= i < |cs| ==> WellFormed(cs[i])
  }

  function Zeros(n: nat): (z: bytes)
    ensures |z| == n && forall i :: 0 <= i < n ==> z[i] == 48
  {
    seq(n, _ => 48)
  }

  /** The header line up to its carriage return. */
  function HeaderLine(c: Chunk): bytes {
    Zeros(c.pad) + c.digits + (c.ext + [CR])
  }

  function Header(c: Chunk): bytes {
    HeaderLine(c) + [LF]
  }

  function ChunkBytes(c: Chunk): bytes {
    Header(c) + c.data + [CR, LF]
  }

  const TERMINAL: bytes := [48, CR, LF, CR, LF]

  function Encode(cs: seq<Chunk>): bytes {
    if cs == [] then TERMINAL else ChunkBytes(cs[0]) + Encode(cs[1..])
  }

  /** What reading `Encode(cs)[..n]` to the end gives. */
  function Expected(cs: seq<Chunk>, n: nat): Outcome {
    if n == 0 then Outcome([], Cut)
    else if cs == [] then Outcome([], Complete)
    else
      var c := cs[0];
      if n <= c.pad then Outcome([], Complete)  // a cut within leading zeros looks like the last chunk
      else if n <= |Header(c)| then Outcome([], Cut)
      else if n < |ChunkBytes(c)| then Outcome(c.data[..Min(n - |Header(c)|, |c.data|)], Cut)
      else Prepend(c.data, Expected(cs[1..], n - |ChunkBytes(c)|))
  }

  // ------------------------------------------------------------ header lines

  /** A prefix of an extension and the line end is empty, white space, or an extension. */
  predicate Harmless(x: bytes) {
    IsAscii(x) && ((x != [] && x[0] == 59) || forall i :: 0 <= i < |x| ==> x[i] == CR || x[i] == LF)
  }

  lemma ExtensionIsHarmless(c: Chunk, x: bytes)
    requires WellFormed(c) && x <= c.ext + [CR] + [LF]
    ensures Harmless(x)
  {
  }

  lemma SizeOfLine(d: bytes, x: bytes)
    requires IsAscii(d) && d != [] && AllHex(AsciiText(d)) && HexValue(AsciiText(d)) < U64 && Harmless(x)
    ensures IsAscii(d + x)
    ensures ParseChunkSize(AsciiText(d + x)) == Some(HexValue(AsciiText(d)))
  {
    assert AsciiText(d + x) == AsciiText(d) + AsciiText(x);
    if x != [] && x[0] == 59 {
      assert AsciiText(x)[0] == ';';
    }
    ChunkSizeOf(AsciiText(d), AsciiText(x));
  }

  lemma SizeDigits(c: Chunk, n: nat)
    requires WellFormed(c) && 0 < n <= |c.digits|
    ensures var d := Zeros(c.pad) + c.digits[..n];
      && IsAscii(d) && AllHex(AsciiText(d)) && 0 < HexValue(AsciiText(d)) <= |c.data|
      && (n == |c.digits| ==> HexValue(AsciiText(d)) == |c.data|)
  {
    var s := AsciiText(c.digits);
    HexCut(s, n);
    PaddedText(c, n);
    HexAfterZeros(AsciiText(Zeros(c.pad)), s[..n]);
    if n == |c.digits| {
      assert s[..n] == s;
    }
  }

  lemma PaddedText(c: Chunk, n: nat)
    requires WellFormed(c) && n <= |c.digits|
    ensures var d := Zeros(c.pad) + c.digits[..n];
      IsAscii(d) && AsciiText(d) == AsciiText(Zeros(c.pad)) + AsciiText(c.digits)[..n]
  {
  }

  lemma HeaderHasNoLf(c: Chunk)
    requires WellFormed(c)
    ensures LF !in HeaderLine(c)
  {
    var s := AsciiText(c.digits);
    forall i | 0 <= i < |c.digits| ensures c.digits[i] != LF {
      assert HexDigit(s[i]).Some?;
    }
  }

  lemma ZerosAreZero(n: nat)
    ensures AllHex(AsciiText(Zeros(n))) && HexValue(AsciiText(Zeros(n))) == 0
  {
    HexOfZeros(AsciiText(Zeros(n)));
  }

  /** The size that a header line shows when it is cut after `n` bytes. */
  lemma CutHeaderSize(c: Chunk, n: nat)
    requires WellFormed(c) && 0 < n <= |Header(c)|
    ensures var line := Header(c)[..n];
      && IsAscii(line) && ParseChunkSize(AsciiText(line)).Some?
      && (ParseChunkSize(AsciiText(line)).value == 0 <==> n <= c.pad)
      && (n > c.pad + |c.digits| ==> ParseChunkSize(AsciiText(line)).value == |c.data|)
  {
    var line := Header(c)[..n];
    if n <= c.pad {
      assert line == Zeros(n) + [];
      ZerosAreZero(n);
      SizeOfLine(Zeros(n), []);
    } else if n <= c.pad + |c.digits| {
      var k := n - c.pad;
      var d := Zeros(c.pad) + c.digits[..k];
      assert line == d + [];
      SizeDigits(c, k);
      SizeOfLine(d, []);
    } else {
      var k := n - c.pad - |c.digits|;
      var d := Zeros(c.pad) + c.digits;
      var x := (c.ext + [CR] + [LF])[..k];
      assert c.digits[..|c.digits|] == c.digits;
      assert line == d + x;
      SizeDigits(c, |c.digits|);
      ExtensionIsHarmless(c, x);
      SizeOfLine(d, x);
    }
  }

  // ----------------------------------------------------------- decoder states

  lemma ReadsLine(u: Utf8, a: bytes, rest: bytes)
    requires IsAscii(a) && LF !in a
    ensures IsAscii(a + [LF]) && NextLine(u, a + [LF] + rest) == Text(AsciiText(a + [LF]), |a| + 1)
    ensures a != [] ==> NextLine(u, a) == Text(AsciiText(a), |a|)
  {
    LineEndsAtLf(a, rest);
    SplitAt(a + [LF], rest);
    assert a[..|a|] == a;
  }

  /** A line that is all that is left of the input, with or without its line feed. */
  lemma ReadsOnlyLine(u: Utf8, line: bytes)
    requires line != [] && IsAscii(line) && LF !in line[..|line| - 1]
    ensures NextLine(u, line) == Text(AsciiText(line), |line|)
  {
    var init := line[..|line| - 1];
    if line[|line| - 1] == LF {
      assert line == init + [LF] + [] == init + [LF];
      ReadsLine(u, init, []);
    } else {
      assert LF !in line;
      ReadsLine(u, line, []);
    }
  }

  /** A header line that is all that is left of the input. */
  lemma CutInHeader(u: Utf8, c: Chunk, n: nat)
    requires WellFormed(c) && 0 < n <= |Header(c)|
    ensures FromHeader(u, Header(c)[..n]) == Outcome([], if n <= c.pad then Complete else Cut)
  {
    var line := Header(c)[..n];
    CutHeaderSize(c, n);
    HeaderHasNoLf(c);
    assert line[..n - 1] == HeaderLine(c)[..n - 1];
    ReadsOnlyLine(u, line);
    assert line[n..] == [];
  }

  lemma WholeHeader(u: Utf8, c: Chunk, rest: bytes)
    requires WellFormed(c)
    ensures FromHeader(u, Header(c) + rest) == FromData(u, rest, |c.data|)
  {
    var n := |Header(c)|;
    CutHeaderSize(c, n);
    assert Header(c)[..n] == Header(c);
    assert HeaderLine(c) == Header(c)[..n - 1];
    HeaderHasNoLf(c);
    ReadsLine(u, HeaderLine(c), rest);
    SplitAt(Header(c), rest);
  }

  /** What is left of a chunk's line end, when the input stops within it. */
  lemma CutInCrlf(u: Utf8, n: nat)
    requires n < 2
    ensures FromCrlf(u, [CR, LF][..n]) == Outcome([], Cut)
  {
    if n == 1 {
      assert [CR, LF][..1] == [CR];
      ReadsLine(u, [CR], []);
    }
  }

  lemma WholeCrlf(u: Utf8, rest: bytes)
    ensures FromCrlf(u, [CR, LF] + rest) == FromHeader(u, rest)
  {
    assert [CR, LF] + rest == [CR] + [LF] + rest;
    ReadsLine(u, [CR], rest);
    SplitAt([CR, LF], rest);
  }

  lemma ZeroLine(x: bytes)
    requires Harmless(x)
    ensures IsAscii([48] + x) && ParseChunkSize(AsciiText([48] + x)) == Some(0)
  {
    ZerosAreZero(1);
    assert Zeros(1) == [48];
    SizeOfLine([48], x);
  }

  lemma CutInTerminal(u: Utf8, n: nat)
    requires 0 < n <= |TERMINAL|
    ensures FromHeader(u, TERMINAL[..n]) == Outcome([], Complete)
  {
    if n >= 3 {
      assert TERMINAL[..n] == [48, CR] + [LF] + [CR, LF][..n - 3];
      ReadsLine(u, [48, CR], [CR, LF][..n - 3]);
      assert [48, CR] + [LF] == [48] + [CR, LF];
      ZeroLine([CR, LF]);
    } else {
      var x := [CR][..n - 1];
      assert TERMINAL[..n] == [48] + x;
      ZeroLine(x);
      ReadsOnlyLine(u, [48] + x);
    }
  }

  /** The input stops within a chunk, after its header. */
  lemma CutInData(u: Utf8, c: Chunk, n: nat)
    requires WellFormed(c) && |Header(c)| < n < |ChunkBytes(c)|
    ensures FromHeader(u, ChunkBytes(c)[..n]) == Outcome(c.data[..Min(n - |Header(c)|, |c.data|)], Cut)
  {
    var m := n - |Header(c)|;
    var rest := (c.data + [CR, LF])[..m];
    Assoc(Header(c), c.data, [CR, LF]);
    assert ChunkBytes(c)[..n] == Header(c) + rest;
    WholeHeader(u, c, rest);
    if m >= |c.data| {
      var k := m - |c.data|;
      assert rest == c.data + [CR, LF][..k];
      SplitAt(c.data, [CR, LF][..k]);
      CutInCrlf(u, k);
      assert c.data[..|c.data|] == c.data && c.data + [] == c.data;
    } else {
      assert rest == c.data[..m];
    }
  }

  lemma WholeChunk(u: Utf8, c: Chunk, rest: bytes)
    requires WellFormed(c)
    ensures FromHeader(u, ChunkBytes(c) + rest) == Prepend(c.data, FromHeader(u, rest))
  {
    var after := [CR, LF] + rest;
    Assoc(Header(c) + c.data, [CR, LF], rest);
    Assoc(Header(c), c.data, after);
    WholeHeader(u, c, c.data + after);
    SplitAt(c.data, after);
    WholeCrlf(u, rest);
  }

  // ---------------------------------------------------------------- theorems

  /**
   The decoder on every cut of every chunked body. Together with
   `Response.ReadToEnd` this holds for every sequence of buffers and every
   pattern of short reads.
   */
  lemma {:induction false} DecodesEveryCut(u: Utf8, cs: seq<Chunk>, n: nat)
    requires AllWellFormed(cs) && n <= |Encode(cs)|
    ensures Rest(u, Chunked, Encode(cs)[..n], 0, false) == Expected(cs, n)
    decreases |cs|
  {
    if n == 0 {
      assert NextLine(u, Encode(cs)[..n]) == NoLine;
    } else if cs == [] {
      CutInTerminal(u, n);
    } else {
      var c, rest := cs[0], Encode(cs[1..]);
      if n <= |Header(c)| {
        assert Encode(cs)[..n] == Header(c)[..n];
        CutInHeader(u, c, n);
      } else if n < |ChunkBytes(c)| {
        assert Encode(cs)[..n] == ChunkBytes(c)[..n];
        CutInData(u, c, n);
      } else {
        var m := n - |ChunkBytes(c)|;
        assert Encode(cs)[..n] == ChunkBytes(c) + rest[..m];
        WholeChunk(u, c, rest[..m]);
        DecodesEveryCut(u, cs[1..], m);
      }
    }
  }

  /** The length of the body before the last chunk's zero digit. */
  function BeforeTerminal(cs: seq<Chunk>): nat {
    if cs == [] then 0 else |ChunkBytes(cs[0])| + BeforeTerminal(cs[1..])
  }

  /** The cut falls just after one of the leading zeros of some chunk's size. */
  predicate CutInLeadingZeros(cs: seq<Chunk>, n: nat) {
    && cs != []
    && if n < |ChunkBytes(cs[0])| then 0 < n <= cs[0].pad
       else CutInLeadingZeros(cs[1..], n - |ChunkBytes(cs[0])|)
  }

  /**
   When a body is reported as complete: exactly when the cut leaves the last
   chunk's zero digit, or falls within the leading zeros of a chunk size, which
   a cut makes look like the last chunk.
   */
  lemma {:induction false} ReportedCompleteExactlyWhen(cs: seq<Chunk>, n: nat)
    ensures Expected(cs, n).end == Complete <==> n > BeforeTerminal(cs) || CutInLeadingZeros(cs, n)
    ensures Expected(cs, n).end != Malformed
    decreases |cs|
  {
    if cs != [] && n >= |ChunkBytes(cs[0])| {
      ReportedCompleteExactlyWhen(cs[1..], n - |ChunkBytes(cs[0])|);
    }
  }

  predicate NoLeadingZeros(cs: seq<Chunk>) {
    forall i :: 0 <= i < |cs| ==> cs[i].pad == 0
  }

  /** Sizes without leading zeros: the body is reported as cut exactly when the last chunk's zero digit is missing. */
  lemma TruncationIsDetected(u: Utf8, cs: seq<Chunk>, n: nat)
    requires AllWellFormed(cs) && NoLeadingZeros(cs) && n <= |Encode(cs)|
    ensures var o := Rest(u, Chunked, Encode(cs)[..n], 0, false);
      && (o.end == Cut <==> n <= BeforeTerminal(cs))
      && (o.end == Complete <==> n > BeforeTerminal(cs))
  {
    DecodesEveryCut(u, cs, n);
    ReportedCompleteExactlyWhen(cs, n);
    NoZerosToCutIn(cs, n);
  }

  lemma {:induction false} NoZerosToCutIn(cs: seq<Chunk>, n: nat)
    requires NoLeadingZeros(cs)
    ensures !CutInLeadingZeros(cs, n)
  {
    if cs != [] && n >= |ChunkBytes(cs[0])| {
      NoZerosToCutIn(cs[1..], n - |ChunkBytes(cs[0])|);
    }
  }

  /** With a leading zero the claim fails: `01\r\n...` cut after its first byte is taken for a complete empty body. */
  lemma LeadingZeroHidesACut(u: Utf8)
    ensures var c := Chunk(1, [49], [], [7]);
      && WellFormed(c)
      && Rest(u, Chunked, Encode([c])[..1], 0, false) == Outcome([], Complete)
      && 1 <= BeforeTerminal([c])
  {
    var c := Chunk(1, [49], [], [7]);
    var s := AsciiText(c.digits);
    assert s == ['1'] && s[..0] == [];
    assert HexValue(s) == 16 * HexValue(s[..0]) + 1;
    DecodesEveryCut(u, [c], 1);
  }

  /** An uncut body is delivered whole. */
  lemma {:induction false} WholeBodyIsDelivered(cs: seq<Chunk>)
    ensures Expected(cs, |Encode(cs)|) == Outcome(AllData(cs), Complete)
  {
    if cs != [] {
      WholeBodyIsDelivered(cs[1..]);
    }
  }

  function AllData(cs: seq<Chunk>): bytes {
    if cs == [] then [] else cs[0].data + AllData(cs[1..])
  }

  /** However a body is cut, what is delivered is a prefix of its data. */
  lemma {:induction false} DeliveredIsAPrefix(cs: seq<Chunk>, n: nat)
    ensures Expected(cs, n).data <= AllData(cs)
  {
    if n > 0 && cs != [] && n >= |ChunkBytes(cs[0])| {
      DeliveredIsAPrefix(cs[1..], n - |ChunkBytes(cs[0])|);
    }
  }
}
