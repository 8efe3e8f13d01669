/**
 `Spool::open` over whole histories: opens, crashes in the middle of an open,
 segment writes, and restarts, on one directory that nobody else edits.
 */
module SpoolOpen {
  import opened Prelude
  import opened SpoolLog
  import opened SpoolRecovery
  import opened SpoolWriter

  type Name = string

  datatype Disk = Disk(
    manifest: Option<bytes>,
    tmp: Option<bytes>,
    open: map<Name, bytes>,
    ready: map<Name, bytes>)

  /** Where the process that holds the lock is; `stream` and `dest` are what it works with. */
  datatype Phase =
    | Down
    | Minting(stream: bytes, dest: bytes)      // writing manifest.tmp
    | Renamed(stream: bytes, dest: bytes)      // renamed, the directory not yet synced
    | Recovering(stream: bytes, dest: bytes)   // turning leftover segments into sealed ones
    | Running(stream: bytes, dest: bytes)      // open() has returned

  /** `first` remembers the stream and destination of the first open that returned. */
  datatype State = State(disk: Disk, phase: Phase, first: Option<(bytes, bytes)>)

  datatype Step =
    | Begin(dest: bytes, stream: bytes)   // `stream` is the fresh uuid, used when there is no manifest
    | MintWrite(n: nat)
    | MintRename
    | MintSync
    | RecoverOne(name: Name)
    | OpenDone
    | Write(name: Name, token: bytes, ops: seq<AppendOp>, n: nat)   // the first `n` bytes of what these appends leave
    | SealDone(name: Name)
    | Uploaded(name: Name)
    | Crash(after: Disk)

  function ManifestBytes(w: Wire, stream: bytes, dest: bytes): bytes {
    stream + dest + w.digest(stream + dest)
  }

  /** The test that `open` makes of an existing manifest. */
  predicate Accepts(w: Wire, m: bytes, dest: bytes) {
    && |m| >= 48
    && m[16..|m| - 32] == dest
    && w.digest(m[..|m| - 32]) == m[|m| - 32..]
  }

  /** A segment file at some point of its life, up to a loss of its end: failed and retried appends included. */
  ghost predicate IsLeft(w: Wire, b: bytes) {
    exists token, ops :: IsLeftBy(w, b, token, ops)
  }

  predicate IsLeftBy(w: Wire, b: bytes, token: bytes, ops: seq<AppendOp>) {
    ValidOps(w, token, ops) && b <= Closed(w, Written(w, token, ops))
  }

  /** A segment that its writer has closed. */
  ghost predicate IsClosed(w: Wire, b: bytes) {
    exists token, ops :: IsLeftBy(w, b, token, ops) && b == Closed(w, Written(w, token, ops))
  }

  /** A cut of a segment of frames that fit, the frame being written included. */
  ghost predicate IsCut(w: Wire, b: bytes) {
    exists token, fs, f :: IsCutOf(w, b, token, fs, f)
  }

  predicate IsCutOf(w: Wire, b: bytes, token: bytes, fs: seq<Frame>, f: Frame) {
    && Fits(w, token, fs)
    && (b <= Sealed(w, token, fs) || (w.valid(f) && b <= Layout(w, token, fs + [f]) && b != Layout(w, token, fs + [f])))
  }

  ghost predicate IsSealed(w: Wire, b: bytes) {
    exists token, fs :: IsSealedAs(w, b, token, fs)
  }

  ghost predicate Init(s: State) {
    s == State(Disk(None, None, map[], map[]), Down, None)
  }

  /** What a crash may leave: files lose their ends or their directory entry, an unsynced rename may be undone. */
  ghost predicate CrashLeaves(w: Wire, s: State, after: Disk) {
    var d := s.disk;
    && (after.manifest == d.manifest || (s.phase.Renamed? && after.manifest == None))
    && (forall n :: n in after.ready ==> n in d.ready && after.ready[n] == d.ready[n])
    && (forall n :: n in after.open ==>
          || (n in d.open && after.open[n] <= d.open[n])
          || (n in d.ready && after.open[n] == d.ready[n])
          || (n in d.open && s.phase.Recovering? && PartlyRecovered(w, d.open[n], after.open[n])))
  }

  /** An open file as an interrupted recovery of `b` leaves it. */
  ghost predicate PartlyRecovered(w: Wire, b: bytes, b': bytes) {
    exists j :: LeftBehind(w, b, OpenFile(b'), j)
  }

  ghost predicate Next(w: Wire, s: State, s': State, step: Step) {
    var d := s.disk;
    match step
    case Begin(dest, stream) =>
      && s.phase == Down && |stream| == 16
      && (match d.manifest
          case Some(m) =>
            s' == s.(phase := if Accepts(w, m, dest) then Recovering(m[..16], dest) else Down)
          case None =>
            if d.open != map[] || d.ready != map[] then s' == s
            else s' == s.(phase := Minting(stream, dest), disk := d.(tmp := Some([]))))
    case MintWrite(n) =>
      && s.phase.Minting? && n <= |ManifestBytes(w, s.phase.stream, s.phase.dest)|
      && s' == s.(disk := d.(tmp := Some(ManifestBytes(w, s.phase.stream, s.phase.dest)[..n])))
    case MintRename =>
      && s.phase.Minting? && d.tmp == Some(ManifestBytes(w, s.phase.stream, s.phase.dest))
      && s' == s.(phase := Renamed(s.phase.stream, s.phase.dest), disk := d.(manifest := d.tmp, tmp := None))
    case MintSync =>
      s.phase.Renamed? && s' == s.(phase := Recovering(s.phase.stream, s.phase.dest))
    case RecoverOne(name) =>
      && s.phase.Recovering? && name in d.open
      && (match Recover(w, d.open[name])
          case None => s' == s.(phase := Down)
          case Some(ReadyFile(b)) => s' == s.(disk := d.(open := d.open - {name}, ready := d.ready[name := b]))
          case Some(_) => s' == s.(disk := d.(open := d.open - {name})))
    case OpenDone =>
      && s.phase.Recovering? && d.open == map[]
      && s' == s.(phase := Running(s.phase.stream, s.phase.dest),
                  first := if s.first == None then Some((s.phase.stream, s.phase.dest)) else s.first)
    case Write(name, token, ops, n) =>
      && s.phase.Running? && ValidOps(w, token, ops) && n <= |Closed(w, Written(w, token, ops))|
      && s' == s.(disk := d.(open := d.open[name := Closed(w, Written(w, token, ops))[..n]]))
    case SealDone(name) =>
      && s.phase.Running? && name in d.open && IsClosed(w, d.open[name])
      && s' == s.(disk := d.(open := d.open - {name}, ready := d.ready[name := d.open[name]]))
    case Uploaded(name) =>
      s.phase.Running? && s' == s.(disk := d.(ready := d.ready - {name}))
    case Crash(after) =>
      CrashLeaves(w, s, after) && s' == s.(phase := Down, disk := after)
  }

  /** The manifest on disk names this stream and this destination. */
  ghost predicate Bound(w: Wire, manifest: Option<bytes>, stream: bytes, dest: bytes) {
    |stream| == 16 && manifest == Some(ManifestBytes(w, stream, dest))
  }

  ghost predicate SegmentsAreLeft(w: Wire, d: Disk) {
    && (forall n :: n in d.open ==> IsLeft(w, d.open[n]))
    && (forall n :: n in d.ready ==> IsClosed(w, d.ready[n]))
  }

  ghost predicate Inv(w: Wire, s: State) {
    && SegmentsAreLeft(w, s.disk)
    && (s.disk.manifest.Some? ==> exists stream, dest :: Bound(w, s.disk.manifest, stream, dest))
    && (s.disk.manifest == None || s.phase.Renamed? ==>
          s.disk.open == map[] && s.disk.ready == map[] && s.first == None)
    && (s.first.Some? ==> Bound(w, s.disk.manifest, s.first.value.0, s.first.value.1))
    && (match s.phase
        case Down => true
        case Minting(stream, dest) => |stream| == 16 && s.disk.manifest == None
        case Renamed(stream, dest) => Bound(w, s.disk.manifest, stream, dest)
        case Recovering(stream, dest) => Bound(w, s.disk.manifest, stream, dest)
        case Running(stream, dest) => Bound(w, s.disk.manifest, stream, dest))
  }

  lemma ManifestParts(w: Wire, stream: bytes, dest: bytes)
    requires Lawful(w) && |stream| == 16
    ensures var m := ManifestBytes(w, stream, dest);
      && |m| == 48 + |dest| && m[..16] == stream && m[16..|m| - 32] == dest
      && m[..|m| - 32] == stream + dest && m[|m| - 32..] == w.digest(stream + dest)
  {
    assert DigestIs32Bytes(w, stream + dest);
  }

  /** A manifest names one stream and one destination. */
  lemma ManifestIsUnique(w: Wire, m: Option<bytes>, s1: bytes, d1: bytes, s2: bytes, d2: bytes)
    requires Lawful(w) && Bound(w, m, s1, d1) && Bound(w, m, s2, d2)
    ensures s1 == s2 && d1 == d2
  {
    ManifestParts(w, s1, d1);
    ManifestParts(w, s2, d2);
  }

  lemma BoundManifestAccepts(w: Wire, m: Option<bytes>, stream: bytes, dest: bytes, other: bytes)
    requires Lawful(w) && Bound(w, m, stream, dest)
    ensures Accepts(w, m.value, other) <==> other == dest
    ensures |m.value| >= 16 && m.value[..16] == stream
  {
    ManifestParts(w, stream, dest);
  }

  // ------------------------------------------------------------ leftover files

  lemma SealedIsClosed(w: Wire, token: bytes, fs: seq<Frame>)
    requires Fits(w, token, fs)
    ensures IsLeftBy(w, Sealed(w, token, fs), token, Storing(fs))
    ensures Closed(w, Written(w, token, Storing(fs))) == Sealed(w, token, fs)
  {
    StoringIsClean(w, token, fs, |fs|);
    assert fs[..|fs|] == fs;
    ClosedIsSealed(w, token, fs);
    assert ValidOps(w, token, Storing(fs));
  }

  /** What recovery makes of a file is a sealed segment of frames that fit, or nothing. */
  lemma RecoveredIsSealed(w: Wire, b: bytes)
    requires Lawful(w) && Recover(w, b).Some? && Recover(w, b).value.ReadyFile?
    ensures IsSealed(w, Recover(w, b).value.content) && IsClosed(w, Recover(w, b).value.content)
  {
    var o := Scan(w, b, true);
    SealedIsExactlyWhatScanAccepts(w, b, o.token, o.frames, true);
    RecoveryAcceptsATornTail(w, b, o.token, o.frames);
    SealedIsClosed(w, o.token, o.frames);
    assert IsSealedAs(w, Recover(w, b).value.content, o.token, o.frames);
  }

  /** An interrupted recovery leaves the file, or the beginning of a sealed segment. */
  lemma PartlyRecoveredIsPrefix(w: Wire, b: bytes, b': bytes) returns (token: bytes, fs: seq<Frame>)
    requires Lawful(w) && PartlyRecovered(w, b, b') && b' != b
    ensures Fits(w, token, fs) && b' <= Sealed(w, token, fs)
  {
    var j :| LeftBehind(w, b, OpenFile(b'), j);
    var o := Scan(w, b, true);
    RecoveryAcceptsATornTail(w, b, o.token, o.frames);
    token, fs := o.token, o.frames;
  }

  lemma PartlyRecoveredIsLeft(w: Wire, b: bytes, b': bytes)
    requires Lawful(w) && IsLeft(w, b) && PartlyRecovered(w, b, b')
    ensures IsLeft(w, b')
  {
    if b' != b {
      var token, fs := PartlyRecoveredIsPrefix(w, b, b');
      SealedIsClosed(w, token, fs);
      assert IsLeftBy(w, b', token, Storing(fs));
    }
  }

  lemma PrefixIsLeft(w: Wire, b: bytes, b': bytes)
    requires IsLeft(w, b) && b' <= b
    ensures IsLeft(w, b')
  {
    var token, ops :| IsLeftBy(w, b, token, ops);
    assert IsLeftBy(w, b', token, ops);
  }

  lemma CrashKeepsLeftovers(w: Wire, s: State, after: Disk)
    requires Lawful(w) && SegmentsAreLeft(w, s.disk) && CrashLeaves(w, s, after)
    ensures SegmentsAreLeft(w, after)
  {
    var d := s.disk;
    forall n | n in after.open ensures IsLeft(w, after.open[n]) {
      if n in d.open && after.open[n] <= d.open[n] {
        PrefixIsLeft(w, d.open[n], after.open[n]);
      } else if !(n in d.ready && after.open[n] == d.ready[n]) {
        PartlyRecoveredIsLeft(w, d.open[n], after.open[n]);
      }
    }
  }

  /** Every step keeps the invariant. */
  lemma StepKeepsInv(w: Wire, s: State, s': State, step: Step)
    requires Lawful(w) && Inv(w, s) && Next(w, s, s', step)
    ensures Inv(w, s')
  {
    match step
    case Begin(dest, stream) =>
      if s.disk.manifest.Some? {
        var st, de :| Bound(w, s.disk.manifest, st, de);
        BoundManifestAccepts(w, s.disk.manifest, st, de, dest);
      }
    case MintRename =>
      assert Bound(w, s'.disk.manifest, s.phase.stream, s.phase.dest);
    case RecoverOne(name) =>
      if Recover(w, s.disk.open[name]).Some? && Recover(w, s.disk.open[name]).value.ReadyFile? {
        RecoveredIsSealed(w, s.disk.open[name]);
      }
    case Write(name, token, ops, n) =>
      assert IsLeftBy(w, s'.disk.open[name], token, ops);
    case Crash(after) =>
      CrashKeepsLeftovers(w, s, after);
    case _ =>
  }

  ghost predicate Run(w: Wire, states: seq<State>, steps: seq<Step>) {
    && |states| == |steps| + 1
    && Init(states[0])
    && forall i :: 0 <= i < |steps| ==> Next(w, states[i], states[i + 1], steps[i])
  }

  lemma {:induction false} RunKeepsInv(w: Wire, states: seq<State>, steps: seq<Step>, i: nat)
    requires Lawful(w) && Run(w, states, steps) && i < |states|
    ensures Inv(w, states[i])
  {
    if i > 0 {
      RunKeepsInv(w, states, steps, i - 1);
      StepKeepsInv(w, states[i - 1], states[i], steps[i - 1]);
    }
  }

  /** Once an open has returned, `first` never changes. */
  lemma {:induction false} OpenedIsFrozen(w: Wire, states: seq<State>, steps: seq<Step>, i: nat, j: nat)
    requires Run(w, states, steps) && i <= j < |states| && states[i].first.Some?
    ensures states[j].first == states[i].first
    decreases j - i
  {
    if i < j {
      OpenedIsFrozen(w, states, steps, i, j - 1);
      assert Next(w, states[j - 1], states[j], steps[j - 1]);
    }
  }

  /** There is never a segment without the manifest it belongs to. */
  lemma NoSegmentWithoutManifest(w: Wire, states: seq<State>, steps: seq<Step>, i: nat)
    requires Lawful(w) && Run(w, states, steps) && i < |states|
    requires states[i].disk.open != map[] || states[i].disk.ready != map[]
    ensures exists stream, dest :: Bound(w, states[i].disk.manifest, stream, dest)
  {
    RunKeepsInv(w, states, steps, i);
  }

  /**
   The binding is permanent: whatever crashes and restarts lie between two
   opens that returned, they returned the same stream for the same destination.
   */
  lemma OpensAgree(w: Wire, states: seq<State>, steps: seq<Step>, i: nat, j: nat)
    requires Lawful(w) && Run(w, states, steps) && i < j < |steps|
    requires steps[i] == OpenDone && steps[j] == OpenDone
    ensures states[i + 1].phase.Running? && states[j + 1].phase == states[i + 1].phase
  {
    assert Next(w, states[i], states[i + 1], steps[i]) && Next(w, states[j], states[j + 1], steps[j]);
    RunKeepsInv(w, states, steps, i + 1);
    RunKeepsInv(w, states, steps, j + 1);
    OpenedIsFrozen(w, states, steps, i + 1, j + 1);
    var a, b, o := states[i + 1], states[j + 1], states[i + 1].first.value;
    ManifestIsUnique(w, a.disk.manifest, a.phase.stream, a.phase.dest, o.0, o.1);
    ManifestIsUnique(w, b.disk.manifest, b.phase.stream, b.phase.dest, o.0, o.1);
  }

  /** After an open has returned, a later one is let past the manifest exactly when it asks for the same destination. */
  lemma OnlyTheBoundDestinationOpens(w: Wire, states: seq<State>, steps: seq<Step>, i: nat, j: nat)
    requires Lawful(w) && Run(w, states, steps) && i < j < |steps|
    requires steps[i] == OpenDone && steps[j].Begin?
    ensures states[i + 1].phase.Running?
    ensures var p := states[i + 1].phase;
      states[j + 1].phase == if steps[j].dest == p.dest then Recovering(p.stream, p.dest) else Down
  {
    assert Next(w, states[i], states[i + 1], steps[i]) && Next(w, states[j], states[j + 1], steps[j]);
    RunKeepsInv(w, states, steps, i + 1);
    RunKeepsInv(w, states, steps, j);
    OpenedIsFrozen(w, states, steps, i + 1, j);
    var a, b, o := states[i + 1], states[j], states[i + 1].first.value;
    ManifestIsUnique(w, a.disk.manifest, a.phase.stream, a.phase.dest, o.0, o.1);
    BoundManifestAccepts(w, b.disk.manifest, o.0, o.1, steps[j].dest);
  }

  // ------------------------------------------------------- when recovery fails

  lemma OneLess(m: map<Name, bytes>, name: Name)
    requires name in m
    ensures |m - {name}| < |m|
  {
    assert m.Keys == (m - {name}).Keys + {name};
  }

  /** A recovery step fails the open exactly on a refused file; otherwise one leftover file is gone. */
  lemma RecoveryFailsExactlyWhen(w: Wire, states: seq<State>, steps: seq<Step>, i: nat)
    requires Lawful(w) && Run(w, states, steps) && i < |steps| && steps[i].RecoverOne?
    ensures steps[i].name in states[i].disk.open
    ensures states[i + 1].phase == if Refused(w, states[i].disk.open[steps[i].name]) then Down else states[i].phase
    ensures !Refused(w, states[i].disk.open[steps[i].name]) ==> |states[i + 1].disk.open| < |states[i].disk.open|
    ensures Refused(w, states[i].disk.open[steps[i].name]) ==> states[i + 1].disk == states[i].disk
  {
    var name := steps[i].name;
    assert Next(w, states[i], states[i + 1], steps[i]);
    RefusedExactlyWhen(w, states[i].disk.open[name]);
    OneLess(states[i].disk.open, name);
  }

  /** A writer that stored or undid every append, at whatever moment it stopped, left a cut. */
  lemma OrderlyLeavesACut(w: Wire, token: bytes, ops: seq<AppendOp>, n: nat)
    requires ValidOps(w, token, ops) && Orderly(w, token, ops) && n <= |Closed(w, Written(w, token, ops))|
    ensures IsCut(w, Closed(w, Written(w, token, ops))[..n])
  {
    var fs := StoredFrames(ops);
    OrderlyWriterIsClean(w, token, ops);
    ClosedIsSealed(w, token, fs);
    assert IsCutOf(w, Sealed(w, token, fs)[..n], token, fs, Frame([], [], 0));
  }

  /** And so did one whose last append did not finish, or overflowed the row total, as long as that frame is not whole. */
  lemma UnfinishedFrameIsACut(w: Wire, token: bytes, ops: seq<AppendOp>, f: Frame, b: bytes)
    requires ValidOps(w, token, ops) && Orderly(w, token, ops) && w.valid(f)
    requires b <= Layout(w, token, StoredFrames(ops) + [f]) && b != Layout(w, token, StoredFrames(ops) + [f])
    ensures IsCut(w, b)
  {
    OrderlyWriterIsClean(w, token, ops);
    assert IsCutOf(w, b, token, StoredFrames(ops), f);
  }

  /** Every cut can be recovered, into a sealed segment or into nothing. */
  lemma CutRecovers(w: Wire, b: bytes)
    requires Lawful(w) && IsCut(w, b)
    ensures Recover(w, b).Some? && !Recover(w, b).value.OpenFile?
  {
    var token, fs, f :| IsCutOf(w, b, token, fs, f);
    if b <= Sealed(w, token, fs) {
      assert b == Sealed(w, token, fs)[..|b|];
      CutSegmentRecovers(w, token, fs, |b|);
    } else {
      assert b == Layout(w, token, fs + [f])[..|b|];
      CutInsideNextFrame(w, token, fs, f, |b|);
    }
  }

  ghost predicate AllCuts(w: Wire, d: Disk) {
    && (forall n :: n in d.open ==> IsCut(w, d.open[n]))
    && (forall n :: n in d.ready ==> IsCut(w, d.ready[n]))
  }

  lemma PrefixIsCut(w: Wire, b: bytes, b': bytes)
    requires IsCut(w, b) && b' <= b
    ensures IsCut(w, b')
  {
    var token, fs, f :| IsCutOf(w, b, token, fs, f);
    assert IsCutOf(w, b', token, fs, f);
  }

  lemma SealedIsCut(w: Wire, b: bytes)
    requires IsSealed(w, b)
    ensures IsCut(w, b)
  {
    var token, fs :| IsSealedAs(w, b, token, fs);
    assert IsCutOf(w, b, token, fs, Frame([], [], 0));
  }

  lemma CrashKeepsCuts(w: Wire, s: State, after: Disk)
    requires Lawful(w) && AllCuts(w, s.disk) && CrashLeaves(w, s, after)
    ensures AllCuts(w, after)
  {
    var d := s.disk;
    forall n | n in after.open ensures IsCut(w, after.open[n]) {
      if n in d.open && after.open[n] <= d.open[n] {
        PrefixIsCut(w, d.open[n], after.open[n]);
      } else if !(n in d.ready && after.open[n] == d.ready[n]) && after.open[n] != d.open[n] {
        var token, fs := PartlyRecoveredIsPrefix(w, d.open[n], after.open[n]);
        assert IsCutOf(w, after.open[n], token, fs, Frame([], [], 0));
      }
    }
  }

  /** The step does not leave a file behind that is no cut. */
  ghost predicate Harmless(w: Wire, step: Step) {
    step.Write? && step.n <= |Closed(w, Written(w, step.token, step.ops))| ==>
      IsCut(w, Closed(w, Written(w, step.token, step.ops))[..step.n])
  }

  lemma HarmlessStepKeepsCuts(w: Wire, s: State, s': State, step: Step)
    requires Lawful(w) && AllCuts(w, s.disk) && Next(w, s, s', step) && Harmless(w, step)
    ensures AllCuts(w, s'.disk)
  {
    match step
    case RecoverOne(name) =>
      CutRecovers(w, s.disk.open[name]);
      if Recover(w, s.disk.open[name]).value.ReadyFile? {
        RecoveredIsSealed(w, s.disk.open[name]);
        SealedIsCut(w, Recover(w, s.disk.open[name]).value.content);
      }
    case Crash(after) =>
      CrashKeepsCuts(w, s, after);
    case _ =>
  }

  lemma {:induction false} HarmlessRunKeepsCuts(w: Wire, states: seq<State>, steps: seq<Step>, i: nat)
    requires Lawful(w) && Run(w, states, steps) && i < |states|
    requires forall k :: 0 <= k < i && k < |steps| ==> Harmless(w, steps[k])
    ensures AllCuts(w, states[i].disk)
  {
    if i > 0 {
      HarmlessRunKeepsCuts(w, states, steps, i - 1);
      HarmlessStepKeepsCuts(w, states[i - 1], states[i], steps[i - 1]);
    }
  }

  /**
   As long as every writer so far stopped at a cut, no recovery fails, whatever
   crashes and interrupted recoveries lie between.
   */
  lemma RecoveryNeverFailsAfterCuts(w: Wire, states: seq<State>, steps: seq<Step>, i: nat)
    requires Lawful(w) && Run(w, states, steps) && i < |steps| && steps[i].RecoverOne?
    requires forall k :: 0 <= k < i ==> Harmless(w, steps[k])
    ensures states[i + 1].phase == states[i].phase && |states[i + 1].disk.open| < |states[i].disk.open|
  {
    HarmlessRunKeepsCuts(w, states, steps, i);
    RecoveryFailsExactlyWhen(w, states, steps, i);
    var b := states[i].disk.open[steps[i].name];
    CutRecovers(w, b);
    RefusedExactlyWhen(w, b);
  }

  // --------------------------------------------------- a history where it fails

  function ScriptStep(w: Wire, stream: bytes, dest: bytes, name: Name, token: bytes, ops: seq<AppendOp>, n: nat, i: nat): Step {
    if i == 0 || i == 7 then Begin(dest, stream)
    else if i == 1 then MintWrite(|ManifestBytes(w, stream, dest)|)
    else if i == 2 then MintRename
    else if i == 3 then MintSync
    else if i == 4 then OpenDone
    else if i == 5 then Write(name, token, ops, n)
    else if i == 6 then Crash(Disk(Some(ManifestBytes(w, stream, dest)), None, map[name := Left(w, token, ops, n)], map[]))
    else RecoverOne(name)
  }

  function Left(w: Wire, token: bytes, ops: seq<AppendOp>, n: nat): bytes {
    Cut(Closed(w, Written(w, token, ops)), n)
  }

  function ScriptState(w: Wire, stream: bytes, dest: bytes, name: Name, left: bytes, i: nat): State {
    var m := ManifestBytes(w, stream, dest);
    var empty := Disk(Some(m), None, map[], map[]);
    var full := Disk(Some(m), None, map[name := left], map[]);
    var first := Some((stream, dest));
    if i == 0 then State(Disk(None, None, map[], map[]), Down, None)
    else if i == 1 then State(Disk(None, Some([]), map[], map[]), Minting(stream, dest), None)
    else if i == 2 then State(Disk(None, Some(m), map[], map[]), Minting(stream, dest), None)
    else if i == 3 then State(empty, Renamed(stream, dest), None)
    else if i == 4 then State(empty, Recovering(stream, dest), None)
    else if i == 5 then State(empty, Running(stream, dest), first)
    else if i == 6 then State(full, Running(stream, dest), first)
    else if i == 8 then State(full, Recovering(stream, dest), first)
    else State(full, Down, first)
  }

  lemma ScriptNext(w: Wire, stream: bytes, dest: bytes, name: Name, token: bytes, ops: seq<AppendOp>, n: nat, i: nat)
    requires Lawful(w) && |stream| == 16 && ValidOps(w, token, ops) && n <= |Closed(w, Written(w, token, ops))|
    requires i < 9 && Recover(w, Left(w, token, ops, n)) == None
    ensures var left := Left(w, token, ops, n);
      Next(w, ScriptState(w, stream, dest, name, left, i), ScriptState(w, stream, dest, name, left, i + 1),
           ScriptStep(w, stream, dest, name, token, ops, n, i))
  {
    var left, m := Left(w, token, ops, n), ManifestBytes(w, stream, dest);
    if i == 1 {
      assert m[..|m|] == m;
    } else if i == 7 {
      BoundManifestAccepts(w, Some(m), stream, dest, dest);
    }
  }

  /** A writer that leaves a refused file stops the next open, on whatever directory it was the first to write. */
  lemma RefusedFileStopsTheNextOpen(w: Wire, stream: bytes, dest: bytes, name: Name, token: bytes, ops: seq<AppendOp>, n: nat)
    returns (states: seq<State>, steps: seq<Step>)
    requires Lawful(w) && |stream| == 16 && ValidOps(w, token, ops) && n <= |Closed(w, Written(w, token, ops))|
    requires Refused(w, Closed(w, Written(w, token, ops))[..n])
    ensures Run(w, states, steps) && |steps| == 9
    ensures steps[5] == Write(name, token, ops, n) && steps[7] == Begin(dest, stream) && steps[8] == RecoverOne(name)
    ensures states[8].phase == Recovering(stream, dest) && states[9].phase == Down
  {
    var left := Left(w, token, ops, n);
    RefusedExactlyWhen(w, left);
    states := seq(10, i requires 0 <= i < 10 => ScriptState(w, stream, dest, name, left, i));
    steps := seq(9, i requires 0 <= i < 9 => ScriptStep(w, stream, dest, name, token, ops, n, i));
    forall i | 0 <= i < 9 ensures Next(w, states[i], states[i + 1], steps[i]) {
      ScriptNext(w, stream, dest, name, token, ops, n, i);
    }
  }

  /** Such is every file that starts with an overflowing frame, once that frame is whole, whatever follows. */
  lemma OverflowIsRefused(w: Wire, token: bytes, fs: seq<Frame>, f: Frame, whole: bytes, n: nat)
    requires Lawful(w) && Fits(w, token, fs) && w.valid(f) && TotalRows(fs) + f.rows >= U32
    requires Layout(w, token, fs + [f]) <= whole && n <= |whole|
    ensures Refused(w, whole[..n]) <==> n >= |Layout(w, token, fs + [f])|
  {
    OverflowingFile(w, token, fs, f, whole, n);
    LayoutPush(w, token, fs, f);
    assert |MAGIC + token| == 24;
    RefusedExactlyWhen(w, whole[..n]);
  }

  /** And what a retry behind a hole leaves. */
  lemma RetryBehindAHoleIsRefused(w: Wire, token: bytes, fs: seq<Frame>, f: Frame, fault: WriteFault, g: Frame)
    requires Lawful(w) && HolesReadAsFooters(w) && Fits(w, token, fs) && w.valid(f) && w.valid(g)
    requires fault.truncated && !fault.sought && fault.written >= 8
    ensures Refused(w, Stores(w, AfterFault(Clean(w, token, fs), w.frame(f), fault), g).content)
  {
    RetryBehindAHoleLosesTheSegment(w, token, fs, f, fault, g, true);
    RefusedExactlyWhen(w, Stores(w, AfterFault(Clean(w, token, fs), w.frame(f), fault), g).content);
  }
}
