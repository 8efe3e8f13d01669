/**
 The theory of an append-only log of framed rows with a sealing footer.

 A segment file is a 24-byte preamble (magic and token), frames, and a footer.
 How a frame and a footer look in bytes is a `Wire`, of which only the laws in
 `Lawful` are used here; `SpoolFormat` defines the actual one and proves it lawful.
 */
module SpoolLog {
  import opened Prelude

  const MAGIC: bytes := [78, 69, 84, 79, 77, 67, 72, 49]  // "NETOMCH1"
  const FRAME_HEADER: nat := 44

  datatype ScanError =
    | UnexpectedEof
    | UnknownFormat
    | FooterMismatch
    | BytesAfterFooter
    | FrameBounds
    | InvalidLz4
    | PayloadChecksum
    | RowOverflow

  /** A frame as it lies in a file: its payload, the block that packs it, its row count. */
  datatype Frame = Frame(raw: bytes, packed: bytes, rows: nat)

  /** What lies at the start of the unread bytes. */
  datatype Item =
    | Torn                 // a header or a block runs past the end
    | Foot(rows: nat, sum: bytes)
    | Whole(frame: Frame)
    | Bad(error: ScanError)

  datatype Wire = Wire(
    next: bytes -> Item,
    valid: Frame -> bool,
    frame: Frame -> bytes,         // a frame's bytes
    head: Frame -> bytes,          // the header they start with
    foot: (nat, bytes) -> bytes,   // the footer for a row total and a hash
    digest: bytes -> bytes)

  predicate AllValid(w: Wire, fs: seq<Frame>) {
    forall i :: 0 <= i < |fs| ==> w.valid(fs[i])
  }

  function TotalRows(fs: seq<Frame>): nat {
    if fs == [] then 0 else TotalRows(fs[..|fs| - 1]) + fs[|fs| - 1].rows
  }

  /** A frame list that a segment may hold. */
  predicate Fits(w: Wire, token: bytes, fs: seq<Frame>) {
    |token| == 16 && AllValid(w, fs) && TotalRows(fs) < U32
  }

  /** A frame is read back whatever follows it. */
  predicate FrameReadBack(w: Wire, f: Frame, tail: bytes) {
    w.valid(f) ==> |w.frame(f)| >= FRAME_HEADER && w.next(w.frame(f) + tail) == Whole(f)
  }

  /** A frame that lost any part of its end is torn, not malformed. */
  predicate CutIsTorn(w: Wire, f: Frame, n: nat) {
    w.valid(f) && n < |w.frame(f)| ==> w.next(w.frame(f)[..n]) == Torn
  }

  predicate ShortIsTorn(w: Wire, rest: bytes) {
    |rest| < FRAME_HEADER ==> w.next(rest) == Torn
  }

  /** What is read as a frame or a footer is one. */
  predicate ReadIsSound(w: Wire, rest: bytes) {
    match w.next(rest)
    case Whole(f) =>
      w.valid(f) && |w.head(f)| == FRAME_HEADER && w.head(f) <= w.frame(f) <= rest
    case Foot(n, sum) =>
      n < U32 && |sum| == 32 && |w.foot(n, sum)| == FRAME_HEADER && w.foot(n, sum) <= rest
    case _ => true
  }

  /** A footer is read back whatever follows it. */
  predicate FooterReadBack(w: Wire, n: nat, sum: bytes, tail: bytes) {
    n < U32 && |sum| == 32 ==>
      |w.foot(n, sum)| == FRAME_HEADER && w.next(w.foot(n, sum) + tail) == Foot(n, sum)
  }

  predicate DigestIs32Bytes(w: Wire, b: bytes) {
    |w.digest(b)| == 32
  }

  ghost predicate Lawful(w: Wire) {
    && (forall f, tail :: FrameReadBack(w, f, tail))
    && (forall f, n: nat :: CutIsTorn(w, f, n))
    && (forall rest :: ShortIsTorn(w, rest))
    && (forall rest :: ReadIsSound(w, rest))
    && (forall n: nat, sum, tail :: FooterReadBack(w, n, sum, tail))
    && (forall b :: DigestIs32Bytes(w, b))
  }

  function FramesBytes(w: Wire, fs: seq<Frame>): bytes {
    if fs == [] then [] else FramesBytes(w, fs[..|fs| - 1]) + w.frame(fs[|fs| - 1])
  }

  function HeadersOf(w: Wire, fs: seq<Frame>): bytes {
    if fs == [] then [] else HeadersOf(w, fs[..|fs| - 1]) + w.head(fs[|fs| - 1])
  }

  /** Everything fed to the running hash: the preamble and the frame headers, not the blocks. */
  function HashInput(w: Wire, token: bytes, fs: seq<Frame>): bytes {
    MAGIC + token + HeadersOf(w, fs)
  }

  function FooterOf(w: Wire, token: bytes, fs: seq<Frame>): bytes {
    w.foot(TotalRows(fs), w.digest(HashInput(w, token, fs)))
  }

  /** An unsealed segment. */
  function Layout(w: Wire, token: bytes, fs: seq<Frame>): bytes {
    MAGIC + token + FramesBytes(w, fs)
  }

  function Sealed(w: Wire, token: bytes, fs: seq<Frame>): bytes {
    Layout(w, token, fs) + FooterOf(w, token, fs)
  }

  function Raws(fs: seq<Frame>): (r: seq<bytes>)
    ensures |r| == |fs|
    ensures forall i :: 0 <= i < |fs| ==> r[i] == fs[i].raw
  {
    if fs == [] then [] else Raws(fs[..|fs| - 1]) + [fs[|fs| - 1].raw]
  }

  lemma PushFrame(w: Wire, fs: seq<Frame>, f: Frame)
    ensures FramesBytes(w, fs + [f]) == FramesBytes(w, fs) + w.frame(f)
    ensures TotalRows(fs + [f]) == TotalRows(fs) + f.rows
    ensures Raws(fs + [f]) == Raws(fs) + [f.raw]
  {
    assert (fs + [f])[..|fs|] == fs;
  }

  lemma LayoutPush(w: Wire, token: bytes, fs: seq<Frame>, f: Frame)
    ensures Layout(w, token, fs + [f]) == Layout(w, token, fs) + w.frame(f)
  {
    PushFrame(w, fs, f);
    Assoc(MAGIC + token, FramesBytes(w, fs), w.frame(f));
  }

  lemma HashInputPush(w: Wire, token: bytes, fs: seq<Frame>, f: Frame)
    ensures HashInput(w, token, fs + [f]) == HashInput(w, token, fs) + w.head(f)
  {
    assert (fs + [f])[..|fs|] == fs;
    Assoc(MAGIC + token, HeadersOf(w, fs), w.head(f));
  }

  lemma {:induction false} FramesConcat(w: Wire, a: seq<Frame>, b: seq<Frame>)
    ensures FramesBytes(w, a + b) == FramesBytes(w, a) + FramesBytes(w, b)
    ensures TotalRows(a + b) == TotalRows(a) + TotalRows(b)
  {
    if b == [] {
      assert a + b == a;
    } else {
      var init, last := b[..|b| - 1], b[|b| - 1];
      assert b == init + [last];
      assert a + b == (a + init) + [last];
      FramesConcat(w, a, init);
      PushFrame(w, a + init, last);
      PushFrame(w, init, last);
      Assoc(FramesBytes(w, a), FramesBytes(w, init), w.frame(last));
    }
  }

  lemma ConsFrames(w: Wire, ts: seq<Frame>)
    requires ts != []
    ensures FramesBytes(w, ts) == w.frame(ts[0]) + FramesBytes(w, ts[1..])
    ensures TotalRows(ts) == ts[0].rows + TotalRows(ts[1..])
  {
    assert ts == [ts[0]] + ts[1..];
    FramesConcat(w, [ts[0]], ts[1..]);
    PushFrame(w, [], ts[0]);
    assert [] + [ts[0]] == [ts[0]];
    assert [] + w.frame(ts[0]) == w.frame(ts[0]);
  }

  // ------------------------------------------------------------------- scan

  datatype Outcome =
    | Accepted(token: bytes, frames: seq<Frame>, sealed: bool)
    | Rejected(error: ScanError)

  /** One round of the reader's loop, and the rest of them. */
  function ScanRest(w: Wire, rest: bytes, token: bytes, fs: seq<Frame>, recovery: bool): Outcome
    decreases |rest|
  {
    match w.next(rest)
    case Torn => if recovery then Accepted(token, fs, false) else Rejected(UnexpectedEof)
    case Bad(e) => Rejected(e)
    case Foot(n, sum) =>
      if n != TotalRows(fs) || sum != w.digest(HashInput(w, token, fs)) then Rejected(FooterMismatch)
      else if |rest| > FRAME_HEADER then Rejected(BytesAfterFooter)
      else Accepted(token, fs, true)
    case Whole(f) =>
      var n := |w.frame(f)|;
      if TotalRows(fs) + f.rows >= U32 then Rejected(RowOverflow)
      else if 0 < n <= |rest| then ScanRest(w, rest[n..], token, fs + [f], recovery)
      else Rejected(FrameBounds)  // not for a lawful wire
  }

  function Scan(w: Wire, file: bytes, recovery: bool): Outcome {
    if |file| < 24 then Rejected(UnexpectedEof)
    else if file[..8] != MAGIC then Rejected(UnknownFormat)
    else ScanRest(w, file[24..], file[8..24], [], recovery)
  }

  lemma WalkOne(w: Wire, token: bytes, fs: seq<Frame>, f: Frame, more: bytes, recovery: bool)
    requires Lawful(w) && w.valid(f) && TotalRows(fs) + f.rows < U32
    ensures ScanRest(w, w.frame(f) + more, token, fs, recovery) == ScanRest(w, more, token, fs + [f], recovery)
  {
    SplitAt(w.frame(f), more);
    assert FrameReadBack(w, f, more);
  }

  /** The loop walks over whole frames whatever follows them. */
  lemma {:induction false} WalkFrames(
      w: Wire, token: bytes, fs: seq<Frame>, ts: seq<Frame>, tail: bytes, recovery: bool)
    requires Lawful(w) && AllValid(w, ts) && TotalRows(fs) + TotalRows(ts) < U32
    ensures ScanRest(w, FramesBytes(w, ts) + tail, token, fs, recovery)
         == ScanRest(w, tail, token, fs + ts, recovery)
    decreases |ts|
  {
    if ts == [] {
      assert [] + tail == tail && fs + ts == fs;
    } else {
      var f, more := ts[0], FramesBytes(w, ts[1..]) + tail;
      ConsFrames(w, ts);
      Assoc(w.frame(f), FramesBytes(w, ts[1..]), tail);
      WalkOne(w, token, fs, f, more, recovery);
      PushFrame(w, fs, f);
      WalkFrames(w, token, fs + [f], ts[1..], tail, recovery);
      Assoc(fs, [f], ts[1..]);
      assert [f] + ts[1..] == ts;
    }
  }

  /** What an accepted run read, as bytes: whole frames, then a footer or a torn tail. */
  ghost predicate Shape(w: Wire, token: bytes, body: bytes, gs: seq<Frame>, sealed: bool) {
    && AllValid(w, gs) && TotalRows(gs) < U32
    && FramesBytes(w, gs) <= body
    && var tail := body[|FramesBytes(w, gs)|..];
       if sealed then tail == FooterOf(w, token, gs) else w.next(tail) == Torn
  }

  lemma {:induction false} AcceptedShape(w: Wire, rest: bytes, token: bytes, fs: seq<Frame>, recovery: bool)
    requires Lawful(w) && AllValid(w, fs) && TotalRows(fs) < U32
    requires ScanRest(w, rest, token, fs, recovery).Accepted?
    ensures var o := ScanRest(w, rest, token, fs, recovery);
      && o.token == token
      && Shape(w, token, FramesBytes(w, fs) + rest, o.frames, o.sealed)
      && (o.sealed || recovery)
    decreases |rest|
  {
    SplitAt(FramesBytes(w, fs), rest);
    assert ReadIsSound(w, rest);
    match w.next(rest)
    case Torn =>
    case Bad(e) =>
    case Foot(n, sum) =>
    case Whole(f) =>
      var more := rest[|w.frame(f)|..];
      assert rest == w.frame(f) + more;
      PushFrame(w, fs, f);
      AcceptedShape(w, more, token, fs + [f], recovery);
      Assoc(FramesBytes(w, fs), w.frame(f), more);
  }

  lemma ShapeIsAccepted(w: Wire, token: bytes, body: bytes, gs: seq<Frame>, sealed: bool, recovery: bool)
    requires Lawful(w) && |token| == 16
    requires Shape(w, token, body, gs, sealed) && (sealed || recovery)
    ensures ScanRest(w, body, token, [], recovery) == Accepted(token, gs, sealed)
  {
    var tail := body[|FramesBytes(w, gs)|..];
    assert body == FramesBytes(w, gs) + tail;
    WalkFrames(w, token, [], gs, tail, recovery);
    assert [] + gs == gs;
    if sealed {
      var n, sum := TotalRows(gs), w.digest(HashInput(w, token, gs));
      assert DigestIs32Bytes(w, HashInput(w, token, gs)) && FooterReadBack(w, n, sum, []);
      assert tail + [] == tail;
    }
  }

  lemma Preamble(token: bytes, body: bytes)
    requires |token| == 16
    ensures var file := MAGIC + token + body;
      |file| == 24 + |body| && file[..8] == MAGIC && file[8..24] == token && file[24..] == body
  {
  }

  lemma PreambleOf(file: bytes)
    requires |file| >= 24 && file[..8] == MAGIC
    ensures file == MAGIC + file[8..24] + file[24..]
  {
  }

  /** Scanning a preamble and a body of known shape. */
  lemma ScanOfShape(w: Wire, token: bytes, body: bytes, gs: seq<Frame>, sealed: bool, recovery: bool)
    requires Lawful(w) && |token| == 16
    requires Shape(w, token, body, gs, sealed) && (sealed || recovery)
    ensures Scan(w, MAGIC + token + body, recovery) == Accepted(token, gs, sealed)
  {
    Preamble(token, body);
    ShapeIsAccepted(w, token, body, gs, sealed, recovery);
  }

  lemma ShapeOfScan(w: Wire, file: bytes, recovery: bool)
    requires Lawful(w) && Scan(w, file, recovery).Accepted?
    ensures var o := Scan(w, file, recovery);
      && |o.token| == 16 && file == MAGIC + o.token + file[24..]
      && Shape(w, o.token, file[24..], o.frames, o.sealed)
      && (o.sealed || recovery)
  {
    AcceptedShape(w, file[24..], file[8..24], [], recovery);
    assert [] + file[24..] == file[24..];
    PreambleOf(file);
  }

  // --------------------------------------------------------------- theorems

  /**
   A file is accepted as sealed, in either mode, exactly when it is a preamble,
   valid frames and the footer that matches them, with nothing after.
   */
  lemma SealedIsExactlyWhatScanAccepts(w: Wire, file: bytes, token: bytes, fs: seq<Frame>, recovery: bool)
    requires Lawful(w)
    ensures Scan(w, file, recovery) == Accepted(token, fs, true)
       <==> Fits(w, token, fs) && file == Sealed(w, token, fs)
    ensures !recovery && Scan(w, file, recovery).Accepted? ==> Scan(w, file, recovery).sealed
  {
    var frames, foot := FramesBytes(w, fs), FooterOf(w, token, fs);
    Assoc(MAGIC + token, frames, foot);
    if Scan(w, file, recovery).Accepted? {
      ShapeOfScan(w, file, recovery);
      if Scan(w, file, recovery) == Accepted(token, fs, true) {
        assert file[24..] == frames + foot;
      }
    }
    if Fits(w, token, fs) && file == Sealed(w, token, fs) {
      SplitAt(frames, foot);
      ScanOfShape(w, token, frames + foot, fs, true, recovery);
    }
  }

  /** A sealed segment decomposes in one way only. */
  lemma SealedIsUnique(w: Wire, t: bytes, fs: seq<Frame>, u: bytes, gs: seq<Frame>)
    requires Lawful(w) && Fits(w, t, fs) && Fits(w, u, gs)
    requires Sealed(w, t, fs) == Sealed(w, u, gs)
    ensures t == u && fs == gs
  {
    SealedIsExactlyWhatScanAccepts(w, Sealed(w, t, fs), t, fs, false);
    SealedIsExactlyWhatScanAccepts(w, Sealed(w, t, fs), u, gs, false);
  }

  /**
   Recovery accepts one more family of files: whole frames followed by a tail
   too short to hold the header or the block it announces.
   */
  lemma RecoveryAcceptsATornTail(w: Wire, file: bytes, token: bytes, fs: seq<Frame>)
    requires Lawful(w)
    ensures Scan(w, file, true) == Accepted(token, fs, false)
       <==> && Fits(w, token, fs)
            && Layout(w, token, fs) <= file
            && w.next(file[|Layout(w, token, fs)|..]) == Torn
  {
    var frames := FramesBytes(w, fs);
    if Scan(w, file, true) == Accepted(token, fs, false) {
      ShapeOfScan(w, file, true);
      var body := file[24..];
      assert file == MAGIC + token + (frames + body[|frames|..]);
      Assoc(MAGIC + token, frames, body[|frames|..]);
    }
    if Fits(w, token, fs) && Layout(w, token, fs) <= file && w.next(file[|Layout(w, token, fs)|..]) == Torn {
      var tail := file[|Layout(w, token, fs)|..];
      assert file == Layout(w, token, fs) + tail;
      Assoc(MAGIC + token, frames, tail);
      SplitAt(frames, tail);
      ScanOfShape(w, token, frames + tail, fs, false, true);
    }
  }

  // ------------------------------------------------------------- the reader

  datatype Scanned = Scanned(token: bytes, rows: nat, offset: nat, hash: Option<bytes>)

  lemma FrameInFile(w: Wire, file: bytes, offset: nat)
    requires Lawful(w) && offset <= |file| && w.next(file[offset..]).Whole?
    ensures var f := w.next(file[offset..]).frame;
      && FRAME_HEADER <= |w.frame(f)| <= |file| - offset
      && w.head(f) == file[offset..offset + FRAME_HEADER]
      && file[offset..][|w.frame(f)|..] == file[offset + |w.frame(f)|..]
  {
    var rest := file[offset..];
    var f := w.next(rest).frame;
    assert ReadIsSound(w, rest);
    assert rest[..FRAME_HEADER] == file[offset..offset + FRAME_HEADER];
    assert w.head(f) == w.frame(f)[..FRAME_HEADER] == rest[..FRAME_HEADER];
  }

  /** A round of the reader's loop that found a frame. */
  lemma FrameRound(w: Wire, file: bytes, offset: nat, token: bytes, fs: seq<Frame>, recovery: bool)
    requires Lawful(w)
    requires offset == |Layout(w, token, fs)| <= |file| && w.next(file[offset..]).Whole?
    ensures var f := w.next(file[offset..]).frame;
      var next := offset + |w.frame(f)|;
      && offset < next == |Layout(w, token, fs + [f])| <= |file|
      && offset + FRAME_HEADER <= |file|
      && HashInput(w, token, fs + [f]) == HashInput(w, token, fs) + file[offset..offset + FRAME_HEADER]
      && ScanRest(w, file[offset..], token, fs, recovery)
         == if TotalRows(fs) + f.rows >= U32 then Rejected(RowOverflow)
            else ScanRest(w, file[next..], token, fs + [f], recovery)
  {
    var f := w.next(file[offset..]).frame;
    FrameInFile(w, file, offset);
    HashInputPush(w, token, fs, f);
    LayoutPush(w, token, fs, f);
  }

  /** What the reader reports of an outcome: `hash` is present exactly when the file was torn. */
  ghost predicate Reports(w: Wire, o: Outcome, r: Option<Scanned>, error: Option<ScanError>, emitted: seq<bytes>) {
    match o
    case Accepted(token, fs, sealed) =>
      && emitted == Raws(fs)
      && r == Some(Scanned(token, TotalRows(fs), |Layout(w, token, fs)|,
                           if sealed then None else Some(HashInput(w, token, fs))))
    case Rejected(e) => r == None && error == Some(e)
  }

  /** The reader. `emitted` is every payload handed to the caller. */
  method ScanFile(w: Wire, file: bytes, recovery: bool)
    returns (r: Option<Scanned>, error: Option<ScanError>, emitted: seq<bytes>)
    requires Lawful(w)
    ensures Reports(w, Scan(w, file, recovery), r, error, emitted)
  {
    if |file| < 24 {
      return None, Some(UnexpectedEof), [];
    }
    if file[..8] != MAGIC {
      return None, Some(UnknownFormat), [];
    }
    r, error, emitted := ScanFrames(w, file, file[8..24], recovery);
  }

  /** The last round of the reader's loop: no whole frame is left. */
  method ScanEnd(w: Wire, rest: bytes, token: bytes, ghost fs: seq<Frame>, recovery: bool, offset: nat, rows: nat, hash: bytes)
    returns (r: Option<Scanned>, error: Option<ScanError>)
    requires !w.next(rest).Whole?
    requires offset == |Layout(w, token, fs)| && hash == HashInput(w, token, fs) && rows == TotalRows(fs)
    ensures Reports(w, ScanRest(w, rest, token, fs, recovery), r, error, Raws(fs))
  {
    r, error := None, None;
    match w.next(rest)
    case Torn =>
      if recovery {
        r := Some(Scanned(token, rows, offset, Some(hash)));
      } else {
        error := Some(UnexpectedEof);
      }
    case Bad(e) =>
      error := Some(e);
    case Foot(n, sum) =>
      if n != rows || sum != w.digest(hash) {
        error := Some(FooterMismatch);
      } else if FRAME_HEADER < |rest| {
        error := Some(BytesAfterFooter);
      } else {
        r := Some(Scanned(token, rows, offset, None));
      }
  }

  /** The reader's loop, with its running hash and row count. */
  method ScanFrames(w: Wire, file: bytes, token: bytes, recovery: bool)
    returns (r: Option<Scanned>, error: Option<ScanError>, emitted: seq<bytes>)
    requires Lawful(w) && |file| >= 24 && MAGIC + token == file[..24]
    ensures Reports(w, ScanRest(w, file[24..], token, [], recovery), r, error, emitted)
  {
    var hash := file[..24];
    var rows, offset := 0, 24;
    ghost var fs: seq<Frame> := [];
    r, error, emitted := None, None, [];
    assert hash == MAGIC + token + [];
    while true
      invariant offset == |Layout(w, token, fs)| <= |file|
      invariant hash == HashInput(w, token, fs)
      invariant rows == TotalRows(fs) < U32
      invariant emitted == Raws(fs)
      invariant ScanRest(w, file[24..], token, [], recovery) == ScanRest(w, file[offset..], token, fs, recovery)
      decreases |file| - offset
    {
      var next := w.next(file[offset..]);
      if !next.Whole? {
        r, error := ScanEnd(w, file[offset..], token, fs, recovery, offset, rows, hash);
        return;
      }
      var f := next.frame;
      FrameRound(w, file, offset, token, fs, recovery);
      hash := hash + file[offset..offset + FRAME_HEADER];
      if rows + f.rows >= U32 {
        error := Some(RowOverflow);
        return;
      }
      PushFrame(w, fs, f);
      rows := rows + f.rows;
      offset := offset + |w.frame(f)|;
      emitted := emitted + [f.raw];
      fs := fs + [f];
    }
  }
}
