/**
 The bytes of frames and footers, and how one of them is read. A frame is a 44-byte
 header (packed length, raw length, row count, SHA-256 of the payload) and an
 LZ4 block; a footer is a header with both lengths zero, the row total, and the
 SHA-256 of the preamble and every frame header.
 */
module SpoolFormat {
  import opened Prelude
  import opened SpoolLog

  const MAX_FRAME: nat := 4 * 1024 * 1024
  const MAX_PACKED: nat := MAX_FRAME + MAX_FRAME / 255 + 16

  /** SHA-256 and the LZ4 block codec, which the segment code only calls. */
  datatype Codec = Codec(
    digest: bytes -> bytes,
    compress: bytes -> bytes,
    decompress: (bytes, nat) -> Option<bytes>)

  ghost predicate LawfulCodec(c: Codec) {
    && (forall b :: |c.digest(b)| == 32)
    && (forall b :: |b| <= MAX_FRAME ==> |c.compress(b)| <= MAX_PACKED)
    && (forall b :: |b| <= MAX_FRAME ==> c.decompress(c.compress(b), |b|) == Some(b))
  }

  /** The witness shows that what is assumed of the codec is consistent. */
  type Primitives = c: Codec | LawfulCodec(c)
    ghost witness Codec(_ => seq(32, _ => 0), b => b, (b, _) => Some(b))

  predicate ValidFrame(c: Primitives, f: Frame) {
    && 0 < |f.raw| <= MAX_FRAME
    && |f.packed| <= MAX_PACKED
    && 0 < f.rows < U32
    && c.decompress(f.packed, |f.raw|) == Some(f.raw)
  }

  /** The four header fields in file order. */
  function HeaderBytes(packed: nat, raw: nat, rows: nat, sum: bytes): (h: bytes)
    requires |sum| == 32
    ensures |h| == FRAME_HEADER
  {
    LE(packed, 4) + LE(raw, 4) + LE(rows, 4) + sum
  }

  function Header(c: Primitives, f: Frame): (h: bytes)
    ensures |h| == FRAME_HEADER
  {
    HeaderBytes(|f.packed|, |f.raw|, f.rows, c.digest(f.raw))
  }

  function FrameBytes(c: Primitives, f: Frame): (b: bytes)
    ensures |b| == FRAME_HEADER + |f.packed|
  {
    Header(c, f) + f.packed
  }

  function FooterBytes(rows: nat, sum: bytes): bytes {
    if |sum| == 32 then HeaderBytes(0, 0, rows, sum) else []
  }

  function U32At(b: bytes, i: nat): nat
    requires i + 4 <= |b|
  {
    FromLE(b[i..i + 4])
  }

  function NextItem(c: Primitives, rest: bytes): Item {
    if |rest| < FRAME_HEADER then Torn else
    var packedLen, rawLen, n := U32At(rest, 0), U32At(rest, 4), U32At(rest, 8);
    if packedLen == 0 && rawLen == 0 then Foot(n, rest[12..FRAME_HEADER])
    else if rawLen == 0 || rawLen > MAX_FRAME || packedLen > MAX_PACKED || n == 0 then Bad(FrameBounds)
    else if |rest| < FRAME_HEADER + packedLen then Torn
    else
      var packed := rest[FRAME_HEADER..FRAME_HEADER + packedLen];
      match c.decompress(packed, rawLen)
      case None => Bad(InvalidLz4)
      case Some(raw) =>
        if |raw| != rawLen || c.digest(raw) != rest[12..FRAME_HEADER] then Bad(PayloadChecksum)
        else Whole(Frame(raw, packed, n))
  }

  function SpoolWire(c: Primitives): Wire {
    Wire(rest => NextItem(c, rest),
         f => ValidFrame(c, f),
         f => FrameBytes(c, f),
         f => Header(c, f),
         (rows, sum) => FooterBytes(rows, sum),
         c.digest)
  }

  // ---------------------------------------------------------------- headers

  lemma Quarters(p: bytes, q: bytes, r: bytes, s: bytes, tail: bytes)
    requires |p| == |q| == |r| == 4 && |s| == 32
    ensures var h := p + q + r + s + tail;
      h[0..4] == p && h[4..8] == q && h[8..12] == r && h[12..44] == s && h[44..] == tail
  {
  }

  /** Reading back a header whose fields fit in 32 bits. */
  lemma HeaderFields(a: nat, b: nat, n: nat, sum: bytes, tail: bytes)
    requires a < U32 && b < U32 && n < U32 && |sum| == 32
    ensures var h := HeaderBytes(a, b, n, sum) + tail;
      && U32At(h, 0) == a && U32At(h, 4) == b && U32At(h, 8) == n
      && h[12..44] == sum && h[44..] == tail
  {
    Widths();
    LERoundTrip(a, 4);
    LERoundTrip(b, 4);
    LERoundTrip(n, 4);
    Quarters(LE(a, 4), LE(b, 4), LE(n, 4), sum, tail);
  }

  /** Any 44 bytes are the header that their own fields spell. */
  lemma FieldsOfHeader(rest: bytes)
    requires |rest| >= FRAME_HEADER
    ensures rest[..FRAME_HEADER]
         == HeaderBytes(U32At(rest, 0), U32At(rest, 4), U32At(rest, 8), rest[12..FRAME_HEADER])
    ensures U32At(rest, 0) < U32 && U32At(rest, 4) < U32 && U32At(rest, 8) < U32
  {
    Widths();
    LEOfFromLE(rest[0..4]);
    LEOfFromLE(rest[4..8]);
    LEOfFromLE(rest[8..12]);
    assert rest[..FRAME_HEADER] == rest[0..4] + rest[4..8] + rest[8..12] + rest[12..FRAME_HEADER];
  }

  // -------------------------------------------------------------------- laws

  lemma FrameIsRead(c: Primitives, f: Frame, tail: bytes)
    requires ValidFrame(c, f)
    ensures NextItem(c, FrameBytes(c, f) + tail) == Whole(f)
  {
    HeaderFields(|f.packed|, |f.raw|, f.rows, c.digest(f.raw), f.packed + tail);
    Assoc(Header(c, f), f.packed, tail);
    SplitAt(f.packed, tail);
  }

  /** A frame that lost any part of its end is torn, not malformed. */
  lemma CutFrameIsTorn(c: Primitives, f: Frame, n: nat)
    requires ValidFrame(c, f) && n < |FrameBytes(c, f)|
    ensures NextItem(c, FrameBytes(c, f)[..n]) == Torn
  {
    if n >= FRAME_HEADER {
      var part := f.packed[..n - FRAME_HEADER];
      HeaderFields(|f.packed|, |f.raw|, f.rows, c.digest(f.raw), part);
      assert FrameBytes(c, f)[..n] == Header(c, f) + part;
    }
  }

  lemma ReadFrame(c: Primitives, rest: bytes, f: Frame)
    requires NextItem(c, rest) == Whole(f)
    ensures ValidFrame(c, f)
    ensures FRAME_HEADER + |f.packed| <= |rest|
    ensures rest[..FRAME_HEADER] == Header(c, f)
    ensures rest[FRAME_HEADER..FRAME_HEADER + |f.packed|] == f.packed
  {
    FieldsOfHeader(rest);
    assert |f.packed| == U32At(rest, 0) && |f.raw| == U32At(rest, 4) && f.rows == U32At(rest, 8);
    assert c.digest(f.raw) == rest[12..FRAME_HEADER];
  }

  lemma FrameIsPrefix(head: bytes, body: bytes, rest: bytes)
    requires |head| + |body| <= |rest|
    requires rest[..|head|] == head && rest[|head|..|head| + |body|] == body
    ensures head + body <= rest
  {
  }

  lemma ReadFrameBytes(c: Primitives, rest: bytes, f: Frame)
    requires NextItem(c, rest) == Whole(f)
    ensures ValidFrame(c, f)
    ensures Header(c, f) <= FrameBytes(c, f) <= rest
  {
    ReadFrame(c, rest, f);
    FrameIsPrefix(Header(c, f), f.packed, rest);
  }

  lemma ReadFooterBytes(c: Primitives, rest: bytes, n: nat, sum: bytes)
    requires NextItem(c, rest) == Foot(n, sum)
    ensures n < U32 && |sum| == 32
    ensures FooterBytes(n, sum) <= rest
  {
    FieldsOfHeader(rest);
  }

  lemma FooterIsRead(c: Primitives, n: nat, sum: bytes, tail: bytes)
    requires n < U32 && |sum| == 32
    ensures NextItem(c, FooterBytes(n, sum) + tail) == Foot(n, sum)
  {
    HeaderFields(0, 0, n, sum, tail);
  }

  /** The format keeps every law the theory of segments rests on. */
  lemma SpoolWireIsLawful(c: Primitives)
    ensures Lawful(SpoolWire(c))
  {
    var w := SpoolWire(c);
    forall f, tail ensures FrameReadBack(w, f, tail) {
      if ValidFrame(c, f) {
        FrameIsRead(c, f, tail);
      }
    }
    forall f, n: nat ensures CutIsTorn(w, f, n) {
      if ValidFrame(c, f) && n < |FrameBytes(c, f)| {
        CutFrameIsTorn(c, f, n);
      }
    }
    forall rest ensures ReadIsSound(w, rest) {
      match NextItem(c, rest)
      case Whole(f) => ReadFrameBytes(c, rest, f);
      case Foot(n, sum) => ReadFooterBytes(c, rest, n, sum);
      case _ =>
    }
    forall n: nat, sum, tail ensures FooterReadBack(w, n, sum, tail) {
      if n < U32 && |sum| == 32 {
        FooterIsRead(c, n, sum, tail);
      }
    }
  }
}
