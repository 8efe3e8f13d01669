/**
 The writer of a segment and the recovery of one left behind, on a directory
 whose files change in place. Operating-system failures are parameters.
 */
module SpoolSegment {
  import opened Prelude
  import opened SpoolLog
  import opened SpoolFormat
  import opened SpoolRecovery
  import opened SpoolWriter

  type Name = string

  /** The segment files: `open` holds the `.open` ones, `ready` the `.ready` ones. */
  class Dir {
    var open: map<Name, bytes>
    var ready: map<Name, bytes>

    constructor ()
      ensures open == map[] && ready == map[]
    {
      open, ready := map[], map[];
    }
  }

  predicate Acceptable(raw: bytes, rows: nat) {
    0 < |raw| <= MAX_FRAME && 0 < rows < U32
  }

  /** A packed payload is a frame that the format can hold. */
  predicate PackIsValid(w: Wire, compress: bytes -> bytes, raw: bytes, rows: nat) {
    Acceptable(raw, rows) ==>
      var f := Frame(raw, compress(raw), rows);
      w.valid(f) && |w.head(f)| == FRAME_HEADER && w.head(f) <= w.frame(f)
  }

  ghost predicate Packs(w: Wire, compress: bytes -> bytes) {
    forall raw, rows: nat :: PackIsValid(w, compress, raw, rows)
  }

  /** The spool's own format and compressor fit together. */
  lemma SpoolPacks(c: Primitives)
    ensures Packs(SpoolWire(c), c.compress)
  {
  }

  class Segment {
    const w: Wire
    const compress: bytes -> bytes
    const dir: Dir
    const name: Name
    var pos: nat
    var hash: bytes       // the input of the running hash
    var rows: nat
    var rawBytes: nat
    ghost var token: bytes
    ghost var ops: seq<AppendOp>    // every append so far, the failed ones included
    ghost var frames: seq<Frame>    // what the file holds as long as the writer is orderly

    function Now(): Cursor
      requires name in dir.open
      reads this, dir
    {
      Cursor(dir.open[name], pos, hash, rows, rawBytes)
    }

    /** The file and the counters are where the appends so far have left them. */
    ghost predicate Open()
      reads this, dir
    {
      && Lawful(w) && Packs(w, compress)
      && name in dir.open
      && ValidOps(w, token, ops) && Now() == Written(w, token, ops)
    }

    /** And that is exactly the frames stored so far. */
    ghost predicate Valid()
      reads this, dir
    {
      Open() && Fits(w, token, frames) && Now() == Clean(w, token, frames)
    }

    /** `create`, once the name is known not to exist. */
    constructor (w: Wire, compress: bytes -> bytes, dir: Dir, name: Name, id: bytes)
      requires Lawful(w) && Packs(w, compress)
      requires |id| == 16 && name !in dir.open
      modifies dir
      ensures Valid() && this.w == w && this.compress == compress && this.dir == dir && this.name == name
      ensures token == id && ops == [] && frames == []
      ensures dir.open == old(dir.open)[name := MAGIC + id] && dir.ready == old(dir.ready)
    {
      this.w, this.compress, this.dir, this.name := w, compress, dir, name;
      pos, hash, rows, rawBytes := 24, MAGIC + id, 0, 0;
      token, ops, frames := id, [], [];
      new;
      dir.open := dir.open[name := MAGIC + id];
      assert MAGIC + id + [] == MAGIC + id;
    }

    /** The file of this segment holds `content`, and no other file differs from before. */
    twostate predicate Only(content: bytes)
      reads this, dir
    {
      dir.open == old(dir.open)[name := content] && dir.ready == old(dir.ready)
    }

    /** The path of `append` taken when the write stops after `written` bytes. */
    method FailedWrite(frame: bytes, fault: WriteFault) returns (rolledBack: bool)
      requires name in dir.open
      modifies this`pos, dir
      ensures name in dir.open && Now() == AfterFault(old(Now()), frame, fault) && Only(Now().content)
      ensures rolledBack <==> fault.truncated && fault.sought
    {
      var offset := pos;
      var part := Partial(frame, fault);
      dir.open := dir.open[name := WriteAt(dir.open[name], pos, part)];
      pos := pos + |part|;
      if !fault.truncated {
        return false;
      }
      dir.open := dir.open[name := SetLen(dir.open[name], offset)];
      if !fault.sought {
        return false;
      }
      pos := offset;
      return true;
    }

    /** The path of `append` taken when the write succeeds. */
    method StoreFrame(f: Frame) returns (ok: bool)
      requires name in dir.open
      requires |w.head(f)| == FRAME_HEADER && w.head(f) <= w.frame(f)
      modifies this`pos, this`hash, this`rows, this`rawBytes, dir
      ensures name in dir.open && Now() == Stores(w, old(Now()), f) && Only(Now().content)
      ensures ok <==> old(rows) + f.rows < U32
    {
      var frame := w.frame(f);
      dir.open := dir.open[name := WriteAt(dir.open[name], pos, frame)];
      pos := pos + |frame|;
      hash := hash + frame[..FRAME_HEADER];
      if rows + f.rows >= U32 {
        return false;
      }
      rows := rows + f.rows;
      rawBytes := rawBytes + |f.raw|;
      return true;
    }

    method WriteFrame(f: Frame, fault: Option<WriteFault>) returns (r: Appended)
      requires name in dir.open
      requires |w.head(f)| == FRAME_HEADER && w.head(f) <= w.frame(f)
      modifies this`pos, this`hash, this`rows, this`rawBytes, dir
      ensures name in dir.open && Now() == AfterAppend(w, old(Now()), AppendOp(f, fault)) && Only(Now().content)
      ensures r == Answer(old(Now()), AppendOp(f, fault))
    {
      match fault
      case Some(x) =>
        var rolledBack := FailedWrite(w.frame(f), x);
        r := WriteFailed(rolledBack);
      case None =>
        var ok := StoreFrame(f);
        r := if ok then Stored else RowsOverflowed;
    }

    /**
     Stores one frame. A failure that could be rolled back leaves no trace; one
     that could not leaves the position or a part of the frame where the next
     append goes on from; a row total that no longer fits is reported after the
     frame was written.
     */
    method Append(raw: bytes, n: nat, fault: Option<WriteFault>) returns (r: Appended, ghost op: AppendOp)
      requires Open() && n < U32
      modifies this, dir
      ensures Open() && Only(Now().content) && token == old(token)
      ensures op == AppendOp(Frame(raw, compress(raw), n), fault)
      ensures r == InvalidFrame <==> !Acceptable(raw, n)
      ensures !Acceptable(raw, n) ==> Now() == old(Now()) && ops == old(ops)
      ensures Acceptable(raw, n) ==>
        r == Answer(old(Now()), op) && Now() == AfterAppend(w, old(Now()), op) && ops == old(ops) + [op]
      ensures old(Valid()) && r == Stored ==> Valid() && frames == old(frames) + [op.frame]
      ensures old(Valid()) && (r == InvalidFrame || r == WriteFailed(true)) ==>
        Valid() && Now() == old(Now()) && frames == old(frames)
    {
      op := AppendOp(Frame(raw, compress(raw), n), fault);
      if raw == [] || |raw| > MAX_FRAME || n == 0 {
        return InvalidFrame, op;
      }
      ghost var orderly := Valid();
      assert PackIsValid(w, compress, raw, n);
      OneMoreOp(w, Fresh(token), ops, op);
      if orderly {
        OrderlyKeepsClean(w, token, frames, op);
      }
      r := WriteFrame(Frame(raw, compress(raw), n), fault);
      ops := ops + [op];
      if orderly && r == Stored {
        frames := frames + [op.frame];
      }
    }

    /** Writes the footer and renames the file. */
    method Seal(fault: Option<SealFault>) returns (ok: bool)
      requires Open()
      modifies dir
      ensures ok <==> fault == None
      ensures fault == None || fault == Some(AfterRename) ==>
        dir.open == old(dir.open) - {name} && dir.ready == old(dir.ready)[name := Closed(w, old(Now()))]
      ensures fault == Some(BeforeRename) ==> Only(Closed(w, old(Now())))
      ensures fault.Some? && fault.value.FooterStops? ==>
        var footer := w.foot(rows, w.digest(hash));
        Only(WriteAt(old(dir.open[name]), pos, footer[..Min(fault.value.written, |footer|)]))
      ensures old(Valid()) ==> Closed(w, old(Now())) == Sealed(w, token, frames)
    {
      if Valid() {
        ClosedIsSealed(w, token, frames);
      }
      var footer := w.foot(rows, w.digest(hash));
      if fault.Some? && fault.value.FooterStops? {
        dir.open := dir.open[name := WriteAt(dir.open[name], pos, footer[..Min(fault.value.written, |footer|)])];
        return false;
      }
      dir.open := dir.open[name := WriteAt(dir.open[name], pos, footer)];
      if fault == Some(BeforeRename) {
        return false;
      }
      dir.open, dir.ready := dir.open - {name}, dir.ready[name := dir.open[name]];
      ok := fault == None;
    }
  }

  /** Where `seal` fails: writing the footer, syncing or renaming the file, or syncing the directory after that. */
  datatype SealFault = FooterStops(written: nat) | BeforeRename | AfterRename

  /** Where a recovery is interrupted, if it is. */
  datatype Interrupt = Never | BeforeTruncate | AfterFooterBytes(j: nat)

  /** What became of one file of a directory: a renamed file replaces one of the same name. */
  twostate predicate Became(dir: Dir, name: Name, left: SegFile)
    reads dir
  {
    match left
    case OpenFile(b) => dir.open == old(dir.open)[name := b] && dir.ready == old(dir.ready)
    case ReadyFile(b) => dir.open == old(dir.open) - {name} && dir.ready == old(dir.ready)[name := b]
    case NoFile => dir.open == old(dir.open) - {name} && dir.ready == old(dir.ready)
  }

  /** `recover`, possibly interrupted. */
  method RecoverSegment(w: Wire, dir: Dir, name: Name, interrupt: Interrupt) returns (ok: bool, ghost left: SegFile, ghost j: nat)
    requires Lawful(w) && name in dir.open
    modifies dir
    ensures Became(dir, name, left) && LeftBehind(w, old(dir.open[name]), left, j)
    ensures interrupt == Never ==>
      && ok == Recover(w, old(dir.open[name])).Some?
      && left == if ok then Recover(w, old(dir.open[name])).value else OpenFile(old(dir.open[name]))
  {
    var content := dir.open[name];
    left, j := OpenFile(content), 0;
    if interrupt == BeforeTruncate {
      return false, left, 0;
    }
    if |content| < 24 {
      dir.open := dir.open - {name};
      return true, NoFile, 0;
    }
    var s, e, emitted := ScanFile(w, content, true);
    if s == None {
      return false, left, 0;
    }
    if s.value.hash == None {
      dir.open, dir.ready := dir.open - {name}, dir.ready[name := content];
      return true, ReadyFile(content), 0;
    }
    ghost var o := Scan(w, content, true);
    RecoveryAcceptsATornTail(w, content, o.token, o.frames);
    var cut := content[..s.value.offset];
    assert cut == Layout(w, o.token, o.frames);
    var footer := w.foot(s.value.rows, w.digest(s.value.hash.value));
    if interrupt.AfterFooterBytes? && interrupt.j <= |footer| {
      dir.open := dir.open[name := cut + footer[..interrupt.j]];
      return false, OpenFile(cut + footer[..interrupt.j]), interrupt.j;
    }
    dir.open, dir.ready := dir.open - {name}, dir.ready[name := cut + footer];
    return true, ReadyFile(cut + footer), 0;
  }

  /** `validate`: the token and the row total of a sealed segment, and of nothing else. */
  method Validate(c: Primitives, file: bytes) returns (r: Option<(bytes, nat)>)
    ensures forall token, fs :: IsSealedAs(SpoolWire(c), file, token, fs) ==> r == Some((token, TotalRows(fs)))
    ensures r.Some? ==> exists token, fs :: IsSealedAs(SpoolWire(c), file, token, fs)
  {
    SpoolWireIsLawful(c);
    var s, e, out := ScanFile(SpoolWire(c), file, false);
    SealedFiles(c, file);
    r := if s == None then None else Some((s.value.token, s.value.rows));
  }

  /** `replay`: succeeds on sealed segments only, and gives back the payloads they were made of. */
  method Replay(c: Primitives, file: bytes) returns (ok: bool, emitted: seq<bytes>)
    ensures forall token, fs :: IsSealedAs(SpoolWire(c), file, token, fs) ==> ok && emitted == Raws(fs)
    ensures ok ==> exists token, fs :: IsSealedAs(SpoolWire(c), file, token, fs)
  {
    SpoolWireIsLawful(c);
    var s, e, out := ScanFile(SpoolWire(c), file, false);
    SealedFiles(c, file);
    ok, emitted := s != None, out;
  }

  lemma SealedFiles(c: Primitives, file: bytes)
    ensures forall token, fs :: IsSealedAs(SpoolWire(c), file, token, fs) ==> Scan(SpoolWire(c), file, false) == Accepted(token, fs, true)
    ensures var o := Scan(SpoolWire(c), file, false); o.Accepted? ==> IsSealedAs(SpoolWire(c), file, o.token, o.frames)
  {
    var w := SpoolWire(c);
    SpoolWireIsLawful(c);
    forall token, fs | IsSealedAs(SpoolWire(c), file, token, fs)
      ensures Scan(w, file, false) == Accepted(token, fs, true)
    {
      SealedIsExactlyWhatScanAccepts(w, file, token, fs, false);
    }
    var o := Scan(w, file, false);
    if o.Accepted? {
      SealedIsExactlyWhatScanAccepts(w, file, o.token, o.frames, false);
    }
  }
}
