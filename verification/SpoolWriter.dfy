/**
 The writer of a segment as a sequence of appends on a file with a position,
 failures included: what each leaves behind, and when what they leave behind
 can still be recovered.
 */
module SpoolWriter {
  import opened Prelude
  import opened SpoolLog
  import opened SpoolFormat
  import opened SpoolRecovery

  // ------------------------------------------------------------------- files

  function Hole(n: nat): (b: bytes)
    ensures |b| == n
  {
    seq(n, _ => 0)
  }

  /** The content made at least `n` bytes long, zeros at the end. */
  function Grown(content: bytes, n: nat): (b: bytes)
    ensures content <= b && |b| >= n
  {
    if |content| < n then content + Hole(n - |content|) else content
  }

  /** Writing at a position; past the end it leaves a hole of zeros. */
  function WriteAt(content: bytes, pos: nat, data: bytes): bytes {
    if data == [] then content
    else
      var g := Grown(content, pos + |data|);
      g[..pos] + data + g[pos + |data|..]
  }

  function SetLen(content: bytes, n: nat): bytes {
    Grown(content, n)[..n]
  }

  // ----------------------------------------------------------------- appends

  /** The payload bytes of all frames together. */
  function TotalRaw(fs: seq<Frame>): nat {
    if fs == [] then 0 else TotalRaw(fs[..|fs| - 1]) + |fs[|fs| - 1].raw|
  }

  /** The file of an open segment and the counters its writer keeps. */
  datatype Cursor = Cursor(content: bytes, pos: nat, hash: bytes, rows: nat, rawBytes: nat)

  /** A write that stops early, and whether the two calls that undo it succeed. */
  datatype WriteFault = WriteFault(written: nat, truncated: bool, sought: bool)

  datatype Appended = Stored | InvalidFrame | RowsOverflowed | WriteFailed(rolledBack: bool)

  datatype AppendOp = AppendOp(frame: Frame, fault: Option<WriteFault>)

  function Partial(frame: bytes, fault: WriteFault): bytes {
    if fault.written <= |frame| then frame[..fault.written] else frame
  }

  /** The file after a write that stopped early and whatever undid it. */
  function AfterFault(c: Cursor, frame: bytes, fault: WriteFault): Cursor {
    var part := Partial(frame, fault);
    var content := WriteAt(c.content, c.pos, part);
    if !fault.truncated then c.(content := content, pos := c.pos + |part|)
    else if !fault.sought then c.(content := SetLen(content, c.pos), pos := c.pos + |part|)
    else c.(content := SetLen(content, c.pos))
  }

  /** The file and the hash after a write that succeeded; the counters only if the row total fits. */
  function Stores(w: Wire, c: Cursor, f: Frame): Cursor {
    var d := c.(content := WriteAt(c.content, c.pos, w.frame(f)), pos := c.pos + |w.frame(f)|, hash := c.hash + w.head(f));
    if c.rows + f.rows >= U32 then d else d.(rows := c.rows + f.rows, rawBytes := c.rawBytes + |f.raw|)
  }

  function AfterAppend(w: Wire, c: Cursor, op: AppendOp): Cursor {
    match op.fault
    case Some(fault) => AfterFault(c, w.frame(op.frame), fault)
    case None => Stores(w, c, op.frame)
  }

  function Answer(c: Cursor, op: AppendOp): Appended {
    match op.fault
    case Some(fault) => WriteFailed(fault.truncated && fault.sought)
    case None => if c.rows + op.frame.rows >= U32 then RowsOverflowed else Stored
  }

  function Fresh(token: bytes): Cursor {
    Cursor(MAGIC + token, |MAGIC + token|, MAGIC + token, 0, 0)
  }

  function AppendAll(w: Wire, c: Cursor, ops: seq<AppendOp>): Cursor {
    if ops == [] then c else AfterAppend(w, AppendAll(w, c, ops[..|ops| - 1]), ops[|ops| - 1])
  }

  /** Where a sequence of appends leaves a new segment. */
  function Written(w: Wire, token: bytes, ops: seq<AppendOp>): Cursor {
    AppendAll(w, Fresh(token), ops)
  }

  /** The file once `seal` has written its footer. */
  function Closed(w: Wire, c: Cursor): bytes {
    WriteAt(c.content, c.pos, w.foot(c.rows, w.digest(c.hash)))
  }

  /** What is left of a file that loses its end after `n` bytes. */
  function Cut(b: bytes, n: nat): bytes {
    if n <= |b| then b[..n] else b
  }

  predicate ValidOps(w: Wire, token: bytes, ops: seq<AppendOp>) {
    |token| == 16 && forall i :: 0 <= i < |ops| ==> w.valid(ops[i].frame)
  }

  lemma OneMoreOp(w: Wire, c: Cursor, ops: seq<AppendOp>, op: AppendOp)
    ensures AppendAll(w, c, ops + [op]) == AfterAppend(w, AppendAll(w, c, ops), op)
  {
    assert (ops + [op])[..|ops|] == ops;
  }

  // ----------------------------------------------------------- orderly writers

  /** The state of a writer whose file is exactly these frames. */
  function Clean(w: Wire, token: bytes, fs: seq<Frame>): Cursor {
    Cursor(Layout(w, token, fs), |Layout(w, token, fs)|, HashInput(w, token, fs), TotalRows(fs), TotalRaw(fs))
  }

  lemma FreshIsClean(w: Wire, token: bytes)
    ensures Fresh(token) == Clean(w, token, [])
  {
    assert MAGIC + token + [] == MAGIC + token;
  }

  lemma WriteAtEnd(content: bytes, data: bytes)
    ensures WriteAt(content, |content|, data) == content + data
  {
    var g := Grown(content, |content| + |data|);
    assert g[..|content|] == content;
    assert data != [] ==> g[|content| + |data|..] == [];
  }

  lemma RawPush(fs: seq<Frame>, f: Frame)
    ensures TotalRaw(fs + [f]) == TotalRaw(fs) + |f.raw|
  {
    assert (fs + [f])[..|fs|] == fs;
  }

  /** Storing a frame whose rows fit keeps the writer clean. */
  lemma StoredIsClean(w: Wire, token: bytes, fs: seq<Frame>, f: Frame)
    ensures Stores(w, Clean(w, token, fs), f).content == Layout(w, token, fs + [f])
    ensures TotalRows(fs) + f.rows < U32 ==> Stores(w, Clean(w, token, fs), f) == Clean(w, token, fs + [f])
  {
    LayoutPush(w, token, fs, f);
    HashInputPush(w, token, fs, f);
    PushFrame(w, fs, f);
    RawPush(fs, f);
    WriteAtEnd(Layout(w, token, fs), w.frame(f));
  }

  /** A write at the end that fails leaves a part of the frame, or after a truncation nothing. */
  lemma FailedAtEnd(c: Cursor, frame: bytes, fault: WriteFault)
    requires c.pos == |c.content|
    ensures AfterFault(c, frame, fault).content == c.content + if fault.truncated then [] else Partial(frame, fault)
    ensures fault.truncated && fault.sought ==> AfterFault(c, frame, fault) == c
  {
    WriteAtEnd(c.content, Partial(frame, fault));
    assert (c.content + Partial(frame, fault))[..c.pos] == c.content;
    assert c.content + [] == c.content;
  }

  /** The append of an orderly writer: stored, or undone. */
  predicate IsOrderly(c: Cursor, op: AppendOp) {
    Answer(c, op) == Stored || Answer(c, op) == WriteFailed(true)
  }

  lemma OrderlyKeepsClean(w: Wire, token: bytes, fs: seq<Frame>, op: AppendOp)
    requires Fits(w, token, fs) && w.valid(op.frame)
    ensures var c := Clean(w, token, fs);
      && (Answer(c, op) == Stored ==>
            AfterAppend(w, c, op) == Clean(w, token, fs + [op.frame]) && Fits(w, token, fs + [op.frame]))
      && (Answer(c, op) == WriteFailed(true) ==> AfterAppend(w, c, op) == c)
  {
    match op.fault
    case None =>
      StoredIsClean(w, token, fs, op.frame);
      PushFrame(w, fs, op.frame);
    case Some(fault) =>
      FailedAtEnd(Clean(w, token, fs), w.frame(op.frame), fault);
  }

  predicate Orderly(w: Wire, token: bytes, ops: seq<AppendOp>) {
    ops != [] ==>
      Orderly(w, token, ops[..|ops| - 1]) && IsOrderly(Written(w, token, ops[..|ops| - 1]), ops[|ops| - 1])
  }

  /** The frames of the appends that did not fail to write. */
  function StoredFrames(ops: seq<AppendOp>): seq<Frame> {
    if ops == [] then []
    else StoredFrames(ops[..|ops| - 1]) + if ops[|ops| - 1].fault == None then [ops[|ops| - 1].frame] else []
  }

  /** An append that failed and was rolled back leaves no trace, over any number of appends. */
  lemma {:induction false} OrderlyWriterIsClean(w: Wire, token: bytes, ops: seq<AppendOp>)
    requires ValidOps(w, token, ops) && Orderly(w, token, ops)
    ensures Written(w, token, ops) == Clean(w, token, StoredFrames(ops)) && Fits(w, token, StoredFrames(ops))
  {
    if ops == [] {
      FreshIsClean(w, token);
    } else {
      var init, last := ops[..|ops| - 1], ops[|ops| - 1];
      OrderlyWriterIsClean(w, token, init);
      var fs := StoredFrames(init);
      OrderlyKeepsClean(w, token, fs, last);
      assert fs + [] == fs;
    }
  }

  /** A closed orderly segment is the sealed one. */
  lemma ClosedIsSealed(w: Wire, token: bytes, fs: seq<Frame>)
    ensures Closed(w, Clean(w, token, fs)) == Sealed(w, token, fs)
  {
    WriteAtEnd(Layout(w, token, fs), FooterOf(w, token, fs));
  }

  function Storing(fs: seq<Frame>): (ops: seq<AppendOp>)
    ensures |ops| == |fs| && forall i :: 0 <= i < |fs| ==> ops[i] == AppendOp(fs[i], None)
  {
    seq(|fs|, i requires 0 <= i < |fs| => AppendOp(fs[i], None))
  }

  /** Every frame list that fits is written by storing its frames one by one. */
  lemma {:induction false} StoringIsClean(w: Wire, token: bytes, fs: seq<Frame>, k: nat)
    requires Fits(w, token, fs) && k <= |fs|
    ensures Written(w, token, Storing(fs[..k])) == Clean(w, token, fs[..k])
  {
    if k == 0 {
      FreshIsClean(w, token);
    } else {
      StoringIsClean(w, token, fs, k - 1);
      StoringNext(w, token, fs, k - 1);
    }
  }

  lemma {:induction false} RowsOfPrefix(fs: seq<Frame>, k: nat)
    requires k <= |fs|
    ensures TotalRows(fs[..k]) <= TotalRows(fs)
  {
    if k == |fs| {
      assert fs[..k] == fs;
    } else {
      RowsOfPrefix(fs[..|fs| - 1], k);
      assert fs[..|fs| - 1][..k] == fs[..k];
    }
  }

  lemma StoringNext(w: Wire, token: bytes, fs: seq<Frame>, k: nat)
    requires Fits(w, token, fs) && k < |fs| && Written(w, token, Storing(fs[..k])) == Clean(w, token, fs[..k])
    ensures Written(w, token, Storing(fs[..k + 1])) == Clean(w, token, fs[..k + 1])
  {
    RowsOfPrefix(fs, k + 1);
    assert fs[..k + 1] == fs[..k] + [fs[k]];
    StoringOneMore(w, token, fs[..k], fs[k]);
  }

  lemma StoringOneMore(w: Wire, token: bytes, fs: seq<Frame>, f: Frame)
    requires Written(w, token, Storing(fs)) == Clean(w, token, fs) && TotalRows(fs + [f]) < U32
    ensures Written(w, token, Storing(fs + [f])) == Clean(w, token, fs + [f])
  {
    StoringPush(fs, f);
    OneMoreOp(w, Fresh(token), Storing(fs), AppendOp(f, None));
    PushFrame(w, fs, f);
    StoredIsClean(w, token, fs, f);
  }

  lemma StoringPush(fs: seq<Frame>, f: Frame)
    ensures Storing(fs + [f]) == Storing(fs) + [AppendOp(f, None)]
  {
  }

  // -------------------------------------------------------- disorderly writers

  /** No append takes back what an earlier one left in the file. */
  lemma ContentOnlyGrows(w: Wire, c: Cursor, op: AppendOp)
    requires c.pos >= |c.content|
    ensures c.content <= AfterAppend(w, c, op).content && AfterAppend(w, c, op).pos >= |AfterAppend(w, c, op).content|
  {
    var data := match op.fault case None => w.frame(op.frame) case Some(x) => Partial(w.frame(op.frame), x);
    WriteKeeps(c.content, c.pos, data);
    if op.fault.Some? && op.fault.value.truncated {
      SetLenKeeps(c.content, WriteAt(c.content, c.pos, data), c.pos);
    }
  }

  lemma WriteKeeps(content: bytes, pos: nat, data: bytes)
    requires pos >= |content|
    ensures content <= WriteAt(content, pos, data) && |WriteAt(content, pos, data)| <= pos + |data|
  {
  }

  lemma SetLenKeeps(content: bytes, more: bytes, n: nat)
    requires content <= more && |content| <= n
    ensures content <= SetLen(more, n) && |SetLen(more, n)| == n
  {
  }

  lemma {:induction false} LaterAppendsOnlyGrow(w: Wire, c: Cursor, later: seq<AppendOp>)
    requires c.pos >= |c.content|
    ensures var d := AppendAll(w, c, later); d.pos >= |d.content| && c.content <= d.content
  {
    if later != [] {
      LaterAppendsOnlyGrow(w, c, later[..|later| - 1]);
      ContentOnlyGrows(w, AppendAll(w, c, later[..|later| - 1]), later[|later| - 1]);
    }
  }

  /** Nor does closing the segment. */
  lemma ClosedStartsWith(w: Wire, c: Cursor, later: seq<AppendOp>)
    requires c.pos >= |c.content|
    ensures c.content <= Closed(w, AppendAll(w, c, later))
  {
    LaterAppendsOnlyGrow(w, c, later);
    var d := AppendAll(w, c, later);
    WriteKeeps(d.content, d.pos, w.foot(d.rows, w.digest(d.hash)));
  }

  /** A cut within one more frame, whether or not its rows fit. */
  lemma CutInsideNextFrame(w: Wire, token: bytes, fs: seq<Frame>, f: Frame, n: nat)
    requires Lawful(w) && Fits(w, token, fs) && w.valid(f) && n < |Layout(w, token, fs + [f])|
    ensures Recover(w, Layout(w, token, fs + [f])[..n]) ==
      if n < 24 then Some(NoFile) else Some(ReadyFile(Sealed(w, token, fs[..WholeWithin(w, token, fs, n)])))
  {
    var lay, frame := Layout(w, token, fs), w.frame(f);
    LayoutPush(w, token, fs, f);
    if n <= |lay| {
      assert (lay + frame)[..n] == Sealed(w, token, fs)[..n];
      CutSegmentRecovers(w, token, fs, n);
    } else {
      var k := n - |lay|;
      CutInSecond(lay, frame, n);
      assert CutIsTorn(w, f, k);
      NextItemDecides(w, token, fs, frame[..k], true);
      assert fs[..|fs|] == fs;
    }
  }

  /** A file that starts with an overflowing frame, cut anywhere. */
  lemma OverflowingFile(w: Wire, token: bytes, fs: seq<Frame>, f: Frame, whole: bytes, n: nat)
    requires Lawful(w) && Fits(w, token, fs) && w.valid(f) && TotalRows(fs) + f.rows >= U32
    requires Layout(w, token, fs + [f]) <= whole && n <= |whole|
    ensures Recover(w, whole[..n]) ==
      if n < 24 then Some(NoFile)
      else if n < |Layout(w, token, fs + [f])| then Some(ReadyFile(Sealed(w, token, fs[..WholeWithin(w, token, fs, n)])))
      else None
    ensures n >= |Layout(w, token, fs + [f])| ==> Scan(w, whole[..n], false) == Rejected(RowOverflow)
  {
    var lay := Layout(w, token, fs + [f]);
    if n >= |lay| {
      assert whole[..n] == lay + whole[|lay|..n];
      OverflowedSegmentIsLost(w, token, fs, f, whole[|lay|..n]);
    } else {
      assert whole[..n] == lay[..n];
      CutInsideNextFrame(w, token, fs, f, n);
    }
  }

  /**
   An append that overflows the row total is fatal exactly once its frame is
   wholly on disk, whatever is appended or sealed after it: a file cut before
   that recovers to the frames inside the cut.
   */
  lemma OverflowIsFatalExactlyOnceWhole(w: Wire, token: bytes, fs: seq<Frame>, f: Frame, later: seq<AppendOp>, n: nat)
    requires Lawful(w) && Fits(w, token, fs) && w.valid(f)
    requires TotalRows(fs) + f.rows >= U32
    ensures Answer(Clean(w, token, fs), AppendOp(f, None)) == RowsOverflowed
    ensures Recover(w, Cut(Closed(w, AppendAll(w, Stores(w, Clean(w, token, fs), f), later)), n)) ==
      if n < 24 then Some(NoFile)
      else if n < |Layout(w, token, fs + [f])| then Some(ReadyFile(Sealed(w, token, fs[..WholeWithin(w, token, fs, n)])))
      else None
  {
    var c := Stores(w, Clean(w, token, fs), f);
    StoredIsClean(w, token, fs, f);
    LayoutPush(w, token, fs, f);
    ClosedStartsWith(w, c, later);
    var whole := Closed(w, AppendAll(w, c, later));
    OverflowingFile(w, token, fs, f, whole, Min(n, |whole|));
    assert whole[..|whole|] == whole;
  }

  /** A failed write that nothing was appended after is a cut like any other, rolled back or not. */
  lemma UnfinishedWriteRecovers(w: Wire, token: bytes, fs: seq<Frame>, f: Frame, fault: WriteFault, n: nat)
    requires Lawful(w) && Fits(w, token, fs) && w.valid(f) && fault.written < |w.frame(f)|
    requires n <= |AfterFault(Clean(w, token, fs), w.frame(f), fault).content|
    ensures Recover(w, AfterFault(Clean(w, token, fs), w.frame(f), fault).content[..n]) ==
      if n < 24 then Some(NoFile) else Some(ReadyFile(Sealed(w, token, fs[..WholeWithin(w, token, fs, n)])))
  {
    FailedAtEnd(Clean(w, token, fs), w.frame(f), fault);
    LayoutPush(w, token, fs, f);
    var content, lay := AfterFault(Clean(w, token, fs), w.frame(f), fault).content, Layout(w, token, fs + [f]);
    assert content <= lay && |content| < |lay|;
    assert content[..n] == lay[..n];
    CutInsideNextFrame(w, token, fs, f, n);
  }

  /** What stands between the whole frames and the next one after a failed roll-back. */
  function Debris(frame: bytes, fault: WriteFault): bytes {
    if fault.truncated then Hole(|Partial(frame, fault)|) else Partial(frame, fault)
  }

  lemma RetryAtEnd(c: Cursor, frame: bytes, fault: WriteFault, next: bytes)
    requires c.pos == |c.content| && !(fault.truncated && fault.sought) && next != []
    ensures var d := AfterFault(c, frame, fault); WriteAt(d.content, d.pos, next) == c.content + (Debris(frame, fault) + next)
  {
    var part := Partial(frame, fault);
    FailedAtEnd(c, frame, fault);
    if fault.truncated {
      WritePastEnd(c.content, |part|, next);
      Assoc(c.content, Hole(|part|), next);
    } else {
      WriteAtEnd(c.content + part, next);
      Assoc(c.content, part, next);
    }
  }

  /** An append that follows a failed roll-back: behind a part of the frame, or behind a hole where that part was. */
  lemma RetriedAppendLeaves(w: Wire, token: bytes, fs: seq<Frame>, f: Frame, fault: WriteFault, g: Frame)
    requires !(fault.truncated && fault.sought) && w.frame(g) != []
    ensures Stores(w, AfterFault(Clean(w, token, fs), w.frame(f), fault), g).content ==
      Layout(w, token, fs) + (Debris(w.frame(f), fault) + w.frame(g))
  {
    RetryAtEnd(Clean(w, token, fs), w.frame(f), fault, w.frame(g));
  }

  lemma WritePastEnd(content: bytes, gap: nat, data: bytes)
    requires data != []
    ensures WriteAt(content, |content| + gap, data) == content + Hole(gap) + data
  {
    var end := |content| + gap + |data|;
    var g := Grown(content, end);
    assert g[..|content| + gap] == content + Hole(gap);
    assert g[end..] == [];
  }

  // ------------------------------------------------------ what debris reads as

  lemma ZeroField(b: bytes, i: nat)
    requires i + 4 <= |b| && b[i] == b[i + 1] == b[i + 2] == b[i + 3] == 0
    ensures U32At(b, i) == 0
  {
    var x := b[i..i + 4];
    assert x == [0, 0, 0, 0];
    assert x[1..] == [0, 0, 0] && x[1..][1..] == [0, 0] && x[1..][1..][1..] == [0];
    assert FromLE([0, 0]) == 0 + 256 * FromLE([0, 0][1..]);
    assert FromLE([0, 0, 0]) == 0 + 256 * FromLE([0, 0, 0][1..]);
  }

  /** Eight zero bytes and the rest of a header are taken for a footer. */
  lemma HoleIsAFooter(c: Primitives, n: nat, more: bytes)
    requires n >= 8 && n + |more| >= FRAME_HEADER
    ensures NextItem(c, Hole(n) + more).Foot?
  {
    var tail := Hole(n) + more;
    ZeroField(tail, 0);
    ZeroField(tail, 4);
  }

  predicate HoleReads(w: Wire, n: nat, more: bytes) {
    n >= 8 && n + |more| >= FRAME_HEADER ==> w.next(Hole(n) + more).Foot?
  }

  ghost predicate HolesReadAsFooters(w: Wire) {
    forall n: nat, more :: HoleReads(w, n, more)
  }

  lemma SpoolHolesReadAsFooters(c: Primitives)
    ensures HolesReadAsFooters(SpoolWire(c))
  {
    forall n: nat, more ensures HoleReads(SpoolWire(c), n, more) {
      if n >= 8 && n + |more| >= FRAME_HEADER {
        HoleIsAFooter(c, n, more);
      }
    }
  }

  lemma HoleIsRefused(w: Wire, token: bytes, fs: seq<Frame>, n: nat, more: bytes, recovery: bool)
    requires Lawful(w) && HolesReadAsFooters(w) && Fits(w, token, fs)
    requires n >= 8 && n + |more| > FRAME_HEADER
    ensures Scan(w, Layout(w, token, fs) + (Hole(n) + more), recovery).Rejected?
  {
    assert HoleReads(w, n, more);
    NextItemDecides(w, token, fs, Hole(n) + more, recovery);
  }

  lemma MixedBlock(head: bytes, kept: bytes, more: bytes, n: nat)
    requires |kept| <= n <= |kept| + |more|
    ensures (head + kept + more)[|head|..|head| + n] == kept + more[..n - |kept|]
  {
  }

  lemma MixedFields(c: Primitives, f: Frame, rest: bytes, tail: bytes)
    requires ValidFrame(c, f) && rest == Header(c, f) + tail
    ensures |rest| == FRAME_HEADER + |tail| && U32At(rest, 0) == |f.packed| && U32At(rest, 4) == |f.raw|
    ensures U32At(rest, 8) == f.rows && rest[12..FRAME_HEADER] == c.digest(f.raw)
  {
    HeaderFields(|f.packed|, |f.raw|, f.rows, c.digest(f.raw), tail);
  }

  /** The payload of a block, if it has the announced length and checksum. */
  function PayloadOf(c: Primitives, block: bytes, len: nat, sum: bytes): Option<bytes> {
    match c.decompress(block, len)
    case None => None
    case Some(raw) => if |raw| == len && c.digest(raw) == sum then Some(raw) else None
  }

  /** What is read where a complete header announces this block. */
  predicate ReadsAs(item: Item, payload: Option<bytes>, block: bytes, rows: nat) {
    match payload case None => item.Bad? case Some(raw) => item == Item.Whole(Frame(raw, block, rows))
  }

  lemma BlockDecides(c: Primitives, rest: bytes, p: nat, len: nat, n: nat, sum: bytes)
    requires FRAME_HEADER + p <= |rest| && U32At(rest, 0) == p && U32At(rest, 4) == len && U32At(rest, 8) == n
    requires rest[12..FRAME_HEADER] == sum && 0 < len <= MAX_FRAME && p <= MAX_PACKED && n > 0
    ensures var block := rest[FRAME_HEADER..FRAME_HEADER + p];
      ReadsAs(NextItem(c, rest), PayloadOf(c, block, len, sum), block, n)
  {
  }

  /**
   The rest of a frame made up of other bytes: refused exactly when the mixed
   block does not unpack to a payload of the announced length and checksum.
   */
  lemma MixedFrameIsRefusedExactlyWhen(c: Primitives, f: Frame, kept: bytes, more: bytes)
    requires ValidFrame(c, f) && kept <= f.packed && |f.packed| <= |kept| + |more|
    ensures var block := kept + more[..|f.packed| - |kept|];
      ReadsAs(NextItem(c, Header(c, f) + kept + more), PayloadOf(c, block, |f.raw|, c.digest(f.raw)), block, f.rows)
  {
    Assoc(Header(c, f), kept, more);
    MixedFields(c, f, Header(c, f) + kept + more, kept + more);
    MixedReads(c, Header(c, f), kept, more, |f.packed|, |f.raw|, f.rows, c.digest(f.raw));
  }

  lemma MixedReads(c: Primitives, head: bytes, kept: bytes, more: bytes, p: nat, len: nat, n: nat, sum: bytes)
    requires |head| == FRAME_HEADER && |kept| <= p <= |kept| + |more|
    requires var rest := head + kept + more;
      && U32At(rest, 0) == p && U32At(rest, 4) == len && U32At(rest, 8) == n && rest[12..FRAME_HEADER] == sum
    requires 0 < len <= MAX_FRAME && p <= MAX_PACKED && n > 0
    ensures var block := kept + more[..p - |kept|];
      ReadsAs(NextItem(c, head + kept + more), PayloadOf(c, block, len, sum), block, n)
  {
    MixedBlock(head, kept, more, p);
    BlockDecides(c, head + kept + more, p, len, n, sum);
  }

  /** A frame behind a part of another, header included, is refused unless the mixture has the checksum of the first. */
  lemma PartIsRefused(c: Primitives, w: Wire, token: bytes, fs: seq<Frame>, f: Frame, kept: bytes, more: bytes, recovery: bool)
    requires w == SpoolWire(c) && Fits(w, token, fs) && ValidFrame(c, f)
    requires kept <= f.packed && |f.packed| <= |kept| + |more|
    requires PayloadOf(c, kept + more[..|f.packed| - |kept|], |f.raw|, c.digest(f.raw)) == None
    ensures Scan(w, Layout(w, token, fs) + (Header(c, f) + kept + more), recovery).Rejected?
  {
    MixedFrameIsRefusedExactlyWhen(c, f, kept, more);
    SpoolWireIsLawful(c);
    NextItemDecides(w, token, fs, Header(c, f) + kept + more, recovery);
  }

  /** Retrying an append after a failed seek that left eight bytes or more of a gap loses the segment. */
  lemma RetryBehindAHoleLosesTheSegment(w: Wire, token: bytes, fs: seq<Frame>, f: Frame, fault: WriteFault, g: Frame, recovery: bool)
    requires Lawful(w) && HolesReadAsFooters(w) && Fits(w, token, fs) && w.valid(f) && w.valid(g)
    requires fault.truncated && !fault.sought && fault.written >= 8
    ensures var content := Stores(w, AfterFault(Clean(w, token, fs), w.frame(f), fault), g).content;
      Scan(w, content, recovery).Rejected? && Recover(w, content) == None
  {
    assert FrameReadBack(w, f, []) && FrameReadBack(w, g, []);
    var n, next := |Partial(w.frame(f), fault)|, w.frame(g);
    RetriedAppendLeaves(w, token, fs, f, fault, g);
    HoleIsRefused(w, token, fs, n, next, recovery);
    HoleIsRefused(w, token, fs, n, next, true);
  }
}
