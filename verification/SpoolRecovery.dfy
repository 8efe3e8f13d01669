/**
 `recover`: turning an unfinished segment into a sealed one, and what survives
 of it when the recovery is itself interrupted.
 */
module SpoolRecovery {
  import opened Prelude
  import opened SpoolLog

  /** The durable state of one segment. */
  datatype SegFile = OpenFile(content: bytes) | ReadyFile(content: bytes) | NoFile

  /** What a recovery that is not interrupted makes of an open file; absent when it reports an error. */
  function Recover(w: Wire, b: bytes): Option<SegFile> {
    if |b| < 24 then Some(NoFile) else
    match Scan(w, b, true)
    case Rejected(_) => None
    case Accepted(token, fs, sealed) =>
      if sealed then Some(ReadyFile(b))
      else Some(ReadyFile(Layout(w, token, fs) + FooterOf(w, token, fs)))
  }

  /**
   What may be on disk when `recover` stops while `j` bytes of the footer are
   written: the untouched file, the truncated file plus a part of the footer,
   or the finished result.
   */
  ghost predicate LeftBehind(w: Wire, b: bytes, s: SegFile, j: nat) {
    || s == OpenFile(b)
    || Recover(w, b) == Some(s)
    || (&& |b| >= 24 && Scan(w, b, true).Accepted? && !Scan(w, b, true).sealed
        && var o := Scan(w, b, true);
           && j <= |FooterOf(w, o.token, o.frames)|
           && s == OpenFile(Layout(w, o.token, o.frames) + FooterOf(w, o.token, o.frames)[..j]))
  }

  /** One interrupted attempt leads from one durable state to the next. */
  ghost predicate Attempt(w: Wire, s: SegFile, s': SegFile) {
    if s.OpenFile? then exists j :: LeftBehind(w, s.content, s', j) else s' == s
  }

  /** Where an uninterrupted recovery would end from here. */
  function Final(w: Wire, s: SegFile): Option<SegFile> {
    if s.OpenFile? then Recover(w, s.content) else Some(s)
  }

  // -------------------------------------------------------------- confluence

  lemma PartialFooter(w: Wire, token: bytes, fs: seq<Frame>, j: nat)
    requires Lawful(w) && Fits(w, token, fs) && j <= FRAME_HEADER
    ensures |FooterOf(w, token, fs)| == FRAME_HEADER
    ensures Recover(w, Layout(w, token, fs) + FooterOf(w, token, fs)[..j])
         == Some(ReadyFile(Sealed(w, token, fs)))
  {
    var lay, foot := Layout(w, token, fs), FooterOf(w, token, fs);
    assert DigestIs32Bytes(w, HashInput(w, token, fs));
    assert FooterReadBack(w, TotalRows(fs), w.digest(HashInput(w, token, fs)), []);
    var b := lay + foot[..j];
    assert ShortIsTorn(w, foot[..j]);
    if j == FRAME_HEADER {
      assert foot[..j] == foot;
      SealedIsExactlyWhatScanAccepts(w, b, token, fs, true);
    } else {
      SplitAt(lay, foot[..j]);
      RecoveryAcceptsATornTail(w, b, token, fs);
    }
  }

  /** One interrupted attempt does not change where recovery will end. */
  lemma AttemptKeepsFinal(w: Wire, s: SegFile, s': SegFile)
    requires Lawful(w) && Attempt(w, s, s')
    ensures Final(w, s') == Final(w, s)
  {
    if s.OpenFile? {
      var b := s.content;
      var j :| LeftBehind(w, b, s', j);
      if s' != OpenFile(b) && Recover(w, b) != Some(s') {
        var o := Scan(w, b, true);
        RecoveryAcceptsATornTail(w, b, o.token, o.frames);
        PartialFooter(w, o.token, o.frames, 0);
        PartialFooter(w, o.token, o.frames, j);
      }
    }
  }

  ghost predicate Attempts(w: Wire, run: seq<SegFile>) {
    && run != []
    && forall i :: 0 <= i < |run| - 1 ==> Attempt(w, run[i], run[i + 1])
  }

  /**
   Confluence. However often recovery is interrupted, and wherever, running it
   to the end leaves byte for byte what a single uninterrupted recovery leaves,
   and reports an error exactly when that one would.
   */
  lemma {:induction false} InterruptedRecoveryIsConfluent(w: Wire, run: seq<SegFile>)
    requires Lawful(w) && Attempts(w, run)
    ensures Final(w, run[|run| - 1]) == Final(w, run[0])
    decreases |run|
  {
    if |run| > 1 {
      var n := |run| - 1;
      var init := run[..n];
      InterruptedRecoveryIsConfluent(w, init);
      assert Attempt(w, init[n - 1], run[n]);
      AttemptKeepsFinal(w, init[n - 1], run[n]);
    }
  }

  // -------------------------------------------------------------------- cuts

  /** How many of the frames lie wholly within the first `n` bytes of the file. */
  function WholeWithin(w: Wire, token: bytes, fs: seq<Frame>, n: nat): (k: nat)
    ensures k <= |fs|
  {
    if fs == [] || |Layout(w, token, fs)| <= n then |fs|
    else WholeWithin(w, token, fs[..|fs| - 1], n)
  }

  lemma {:induction false} WholeWithinIsMaximal(w: Wire, token: bytes, fs: seq<Frame>, n: nat)
    requires |Layout(w, token, [])| <= n
    ensures var k := WholeWithin(w, token, fs, n);
      && |Layout(w, token, fs[..k])| <= n
      && (k < |fs| ==> n < |Layout(w, token, fs[..k + 1])|)
  {
    if fs == [] || |Layout(w, token, fs)| <= n {
      assert fs[..|fs|] == fs;
    } else {
      var init := fs[..|fs| - 1];
      WholeWithinIsMaximal(w, token, init, n);
      var k := WholeWithin(w, token, init, n);
      assert init[..k] == fs[..k];
      if k < |init| {
        assert init[..k + 1] == fs[..k + 1];
      } else {
        assert fs[..k + 1] == fs;
      }
    }
  }

  lemma PrefixFits(w: Wire, token: bytes, fs: seq<Frame>, k: nat)
    requires Fits(w, token, fs) && k <= |fs|
    ensures Fits(w, token, fs[..k])
    ensures Layout(w, token, fs[..k]) + FramesBytes(w, fs[k..]) == Layout(w, token, fs)
  {
    assert fs == fs[..k] + fs[k..];
    FramesConcat(w, fs[..k], fs[k..]);
    Assoc(MAGIC + token, FramesBytes(w, fs[..k]), FramesBytes(w, fs[k..]));
  }

  /** A prefix of `a + b` that reaches into `b`. */
  lemma CutInSecond<T>(a: seq<T>, b: seq<T>, n: nat)
    requires |a| <= n <= |a + b|
    ensures (a + b)[..n] == a + b[..n - |a|]
  {
  }

  lemma CutInsideFrames(w: Wire, token: bytes, fs: seq<Frame>, n: nat, k: nat)
    requires Lawful(w) && Fits(w, token, fs) && k < |fs|
    requires |Layout(w, token, fs[..k])| <= n < |Layout(w, token, fs[..k + 1])|
    requires n <= |Layout(w, token, fs)|
    ensures Recover(w, Layout(w, token, fs)[..n]) == Some(ReadyFile(Sealed(w, token, fs[..k])))
  {
    var lay, f, rest := Layout(w, token, fs[..k]), fs[k], FramesBytes(w, fs[k + 1..]);
    PrefixFits(w, token, fs, k);
    ConsFrames(w, fs[k..]);
    assert fs[k..][1..] == fs[k + 1..];
    assert fs[..k + 1] == fs[..k] + [f];
    LayoutPush(w, token, fs[..k], f);
    var m := n - |lay|;
    CutInSecond(lay, w.frame(f) + rest, n);
    assert (w.frame(f) + rest)[..m] == w.frame(f)[..m];
    assert w.valid(f);
    assert CutIsTorn(w, f, m);
    var b := lay + w.frame(f)[..m];
    SplitAt(lay, w.frame(f)[..m]);
    RecoveryAcceptsATornTail(w, b, token, fs[..k]);
  }

  /**
   The crash guarantee. Cut a segment anywhere, within a frame, within the
   footer or not at all: recovery leaves a sealed segment with the same token
   that holds exactly the frames lying wholly inside the cut, or removes a file
   too short to hold its preamble.
   */
  lemma CutSegmentRecovers(w: Wire, token: bytes, fs: seq<Frame>, n: nat)
    requires Lawful(w) && Fits(w, token, fs) && n <= |Sealed(w, token, fs)|
    ensures Recover(w, Sealed(w, token, fs)[..n]) ==
      if n < 24 then Some(NoFile)
      else Some(ReadyFile(Sealed(w, token, fs[..WholeWithin(w, token, fs, n)])))
  {
    var lay, foot := Layout(w, token, fs), FooterOf(w, token, fs);
    if n >= 24 {
      WholeWithinIsMaximal(w, token, fs, n);
      var k := WholeWithin(w, token, fs, n);
      if k == |fs| {
        assert fs[..k] == fs;
        PartialFooter(w, token, fs, 0);
        CutInSecond(lay, foot, n);
        PartialFooter(w, token, fs, n - |lay|);
      } else {
        PrefixFits(w, token, fs, k + 1);
        assert n < |lay|;
        assert (lay + foot)[..n] == lay[..n];
        CutInsideFrames(w, token, fs, n, k);
      }
    }
  }

  /** What a recovered segment replays: the payloads of the whole frames, in order. */
  lemma RecoveredSegmentReplays(w: Wire, token: bytes, fs: seq<Frame>, n: nat)
    requires Lawful(w) && Fits(w, token, fs) && 24 <= n <= |Sealed(w, token, fs)|
    ensures var r := Recover(w, Sealed(w, token, fs)[..n]);
      && r.Some? && r.value.ReadyFile?
      && var o := Scan(w, r.value.content, false);
         && o == Accepted(token, fs[..WholeWithin(w, token, fs, n)], true)
         && Raws(o.frames) == Raws(fs)[..WholeWithin(w, token, fs, n)]
  {
    var k := WholeWithin(w, token, fs, n);
    CutSegmentRecovers(w, token, fs, n);
    PrefixFits(w, token, fs, k);
    SealedIsExactlyWhatScanAccepts(w, Sealed(w, token, fs[..k]), token, fs[..k], false);
  }

  /**
   The row limit is needed. A segment whose last append took the row total
   past 32 bits is refused by both modes, whatever was written after it, so it
   can be neither replayed nor recovered.
   */
  lemma OverflowedSegmentIsLost(w: Wire, token: bytes, fs: seq<Frame>, f: Frame, tail: bytes)
    requires Lawful(w) && Fits(w, token, fs) && w.valid(f) && TotalRows(fs) + f.rows >= U32
    ensures var b := Layout(w, token, fs + [f]) + tail;
      && Scan(w, b, false) == Rejected(RowOverflow)
      && Scan(w, b, true) == Rejected(RowOverflow)
      && Recover(w, b) == None
  {
    var b := Layout(w, token, fs + [f]) + tail;
    var more := w.frame(f) + tail;
    LayoutPush(w, token, fs, f);
    assert b == MAGIC + token + (FramesBytes(w, fs) + more);
    Preamble(token, FramesBytes(w, fs) + more);
    assert FrameReadBack(w, f, tail);
    WalkFrames(w, token, [], fs, more, false);
    WalkFrames(w, token, [], fs, more, true);
    assert [] + fs == fs;
  }

  // --------------------------------------------------------- what is refused

  predicate IsSealedAs(w: Wire, b: bytes, token: bytes, fs: seq<Frame>) {
    Fits(w, token, fs) && b == Sealed(w, token, fs)
  }

  /** The file is a sealed segment, or whole frames followed by the torn beginning of something. */
  predicate Readable(w: Wire, b: bytes, token: bytes, fs: seq<Frame>) {
    && Fits(w, token, fs)
    && (IsSealedAs(w, b, token, fs) || (Layout(w, token, fs) <= b && w.next(b[|Layout(w, token, fs)|..]) == Torn))
  }

  /** A file long enough for a preamble that is neither. */
  ghost predicate Refused(w: Wire, b: bytes) {
    |b| >= 24 && !exists token, fs :: Readable(w, b, token, fs)
  }

  /** Recovery reports an error exactly on refused files. */
  lemma RefusedExactlyWhen(w: Wire, b: bytes)
    requires Lawful(w)
    ensures Recover(w, b) == None <==> Refused(w, b)
  {
    if |b| >= 24 {
      var o := Scan(w, b, true);
      if o.Accepted? {
        SealedIsExactlyWhatScanAccepts(w, b, o.token, o.frames, true);
        RecoveryAcceptsATornTail(w, b, o.token, o.frames);
        assert Readable(w, b, o.token, o.frames);
      }
      if token, fs :| Readable(w, b, token, fs) {
        SealedIsExactlyWhatScanAccepts(w, b, token, fs, true);
        RecoveryAcceptsATornTail(w, b, token, fs);
      }
    }
  }

  /** What follows the whole frames decides: a torn item is cut off, a malformed one, or a footer that is wrong or not the end, is fatal. */
  lemma NextItemDecides(w: Wire, token: bytes, fs: seq<Frame>, tail: bytes, recovery: bool)
    requires Lawful(w) && Fits(w, token, fs)
    ensures var b := Layout(w, token, fs) + tail;
      match w.next(tail)
      case Torn => recovery ==> Recover(w, b) == Some(ReadyFile(Sealed(w, token, fs)))
      case Bad(e) => Scan(w, b, recovery) == Rejected(e)
      case Foot(n, sum) =>
        && (n != TotalRows(fs) ==> Scan(w, b, recovery) == Rejected(FooterMismatch))
        && (|tail| > FRAME_HEADER ==> Scan(w, b, recovery).Rejected?)
      case Whole(_) => true
  {
    var b := Layout(w, token, fs) + tail;
    var frames := FramesBytes(w, fs);
    Assoc(MAGIC + token, frames, tail);
    Preamble(token, frames + tail);
    WalkFrames(w, token, [], fs, tail, recovery);
    assert [] + fs == fs;
    if w.next(tail) == Torn {
      SplitAt(Layout(w, token, fs), tail);
      RecoveryAcceptsATornTail(w, b, token, fs);
    }
  }
}
