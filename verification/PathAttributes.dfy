/**
 The BGP path-attribute walker: framing (section 4.3 of RFC 4271), the values
 it inspects, and the derived columns it fills from them.
 */
module PathAttributes {
  import opened Prelude

  // ----------------------------------------------------------------- numbers

  function FromBE(b: bytes): nat {
    if b == [] then 0 else FromBE(b[..|b| - 1]) * 256 + b[|b| - 1]
  }

  function ToBE(n: nat, k: nat): (b: bytes)
    ensures |b| == k
    decreases k
  {
    if k == 0 then [] else ToBE(n / 256, k - 1) + [n % 256]
  }

  lemma {:induction false} BERoundTrip(n: nat, k: nat)
    requires n < Pow256(k)
    ensures FromBE(ToBE(n, k)) == n
    decreases k
  {
    if k > 0 {
      BERoundTrip(n / 256, k - 1);
      assert ToBE(n, k)[..k - 1] == ToBE(n / 256, k - 1);
    }
  }

  lemma {:induction false} BEOfFromBE(b: bytes)
    ensures FromBE(b) < Pow256(|b|)
    ensures ToBE(FromBE(b), |b|) == b
  {
    if b != [] {
      var init := b[..|b| - 1];
      BEOfFromBE(init);
      var n := FromBE(b);
      assert n % 256 == b[|b| - 1] && n / 256 == FromBE(init);
      assert b == init + [b[|b| - 1]];
    }
  }

  /** `chunks_exact`: the whole pieces of a given size, a shorter end dropped. */
  function Pieces(b: bytes, size: nat): (r: seq<bytes>)
    requires size > 0
    ensures forall i :: 0 <= i < |r| ==> |r[i]| == size
  {
    if |b| < size then [] else [b[..size]] + Pieces(b[size..], size)
  }

  function Numbers(items: seq<bytes>): (r: seq<nat>)
    ensures |r| == |items|
    ensures forall i :: 0 <= i < |r| ==> r[i] == FromBE(items[i])
  {
    seq(|items|, i requires 0 <= i < |items| => FromBE(items[i]))
  }

  // ----------------------------------------------------------------- framing

  datatype Attr = Attr(flags: byte, typ: byte, value: bytes)

  predicate Extended(flags: byte) {
    flags / 16 % 2 == 1
  }

  predicate Framed(a: Attr) {
    |a.value| < if Extended(a.flags) then 65536 else 256
  }

  function FrameBytes(a: Attr): bytes {
    [a.flags, a.typ] + ToBE(|a.value|, if Extended(a.flags) then 2 else 1) + a.value
  }

  function Serialise(attrs: seq<Attr>): bytes {
    if attrs == [] then [] else FrameBytes(attrs[0]) + Serialise(attrs[1..])
  }

  predicate AllFramed(attrs: seq<Attr>) {
    forall i :: 0 <= i < |attrs| ==> Framed(attrs[i])
  }

  /** The attribute at the start of `raw` and the bytes after it. */
  function NextAttr(raw: bytes): Option<(Attr, bytes)> {
    if |raw| < 2 then None else
    var head := if Extended(raw[0]) then 4 else 3;
    if |raw| < head then None else
    var len := FromBE(raw[2..head]);
    if |raw| < head + len then None
    else Some((Attr(raw[0], raw[1], raw[head..head + len]), raw[head + len..]))
  }

  function Unframe(raw: bytes): Option<seq<Attr>>
    decreases |raw|
  {
    if raw == [] then Some([]) else
    match NextAttr(raw)
    case None => None
    case Some((a, rest)) =>
      match Unframe(rest)
      case None => None
      case Some(more) => Some([a] + more)
  }

  lemma LengthField(n: nat, wide: bool)
    requires n < if wide then 65536 else 256
    ensures FromBE(ToBE(n, if wide then 2 else 1)) == n
  {
    Widths();
    assert Pow256(1) == 256;
    BERoundTrip(n, if wide then 2 else 1);
  }

  lemma FrameIsRead(a: Attr, rest: bytes)
    requires Framed(a)
    ensures NextAttr(FrameBytes(a) + rest) == Some((a, rest))
  {
    var wide := Extended(a.flags);
    var field := ToBE(|a.value|, if wide then 2 else 1);
    var raw := FrameBytes(a) + rest;
    var head := if wide then 4 else 3;
    LengthField(|a.value|, wide);
    assert raw == [a.flags, a.typ] + field + (a.value + rest);
    assert raw[2..head] == field;
    assert raw[head..] == a.value + rest;
    SplitAt(a.value, rest);
    assert raw[head..head + |a.value|] == a.value;
    assert raw[head + |a.value|..] == rest;
  }

  lemma ReadIsFrame(raw: bytes)
    requires NextAttr(raw).Some?
    ensures var (a, rest) := NextAttr(raw).value; Framed(a) && raw == FrameBytes(a) + rest
  {
    var (a, rest) := NextAttr(raw).value;
    var head := if Extended(raw[0]) then 4 else 3;
    Widths();
    assert Pow256(1) == 256;
    BEOfFromBE(raw[2..head]);
    FourParts(raw, 2, head, head + |a.value|);
    assert raw[..2] == [raw[0], raw[1]];
  }

  /** A byte string is well framed exactly when it is the serialisation of a list, and then of one list only. */
  lemma {:induction false} UnframeIsInverse(raw: bytes, attrs: seq<Attr>)
    ensures Unframe(raw) == Some(attrs) <==> AllFramed(attrs) && raw == Serialise(attrs)
    decreases |raw|, |attrs|
  {
    if attrs == [] {
      if raw != [] && NextAttr(raw).Some? {
        assert Unframe(raw) != Some([]);
      }
    } else {
      var a, more := attrs[0], attrs[1..];
      assert attrs == [a] + more;
      if Unframe(raw) == Some(attrs) {
        var (b, rest) := NextAttr(raw).value;
        ReadIsFrame(raw);
        assert Unframe(rest).value == more && b == a;
        UnframeIsInverse(rest, more);
        assert forall i :: 0 <= i < |attrs| ==> Framed(attrs[i]) by {
          assert forall i :: 1 <= i < |attrs| ==> attrs[i] == more[i - 1];
        }
      }
      if AllFramed(attrs) && raw == Serialise(attrs) {
        var rest := Serialise(more);
        FrameIsRead(a, rest);
        UnframeIsInverse(rest, more);
      }
    }
  }

  // ---------------------------------------------------------------- AS paths

  /** A segment: its type (sets, sequences and the confederation types of RFC 5065) and its AS numbers. */
  datatype AsSegment = AsSegment(typ: byte, asns: seq<nat>)

  predicate ValidSegment(s: AsSegment, width: nat) {
    1 <= s.typ <= 4 && |s.asns| < 256 && forall i :: 0 <= i < |s.asns| ==> s.asns[i] < Pow256(width)
  }

  predicate ValidPath(path: seq<AsSegment>, width: nat) {
    forall i :: 0 <= i < |path| ==> ValidSegment(path[i], width)
  }

  function AsnBytes(asns: seq<nat>, width: nat): (b: bytes)
    ensures |b| == |asns| * width
  {
    if asns == [] then [] else
    assert |asns| * width == width + |asns[1..]| * width;
    ToBE(asns[0], width) + AsnBytes(asns[1..], width)
  }

  function SegmentBytes(s: AsSegment, width: nat): bytes
    requires ValidSegment(s, width)
  {
    var head: bytes := [s.typ, |s.asns|];
    head + AsnBytes(s.asns, width)
  }

  function PathBytes(path: seq<AsSegment>, width: nat): bytes
    requires ValidPath(path, width)
  {
    if path == [] then [] else SegmentBytes(path[0], width) + PathBytes(path[1..], width)
  }

  function Members(path: seq<AsSegment>): seq<nat> {
    if path == [] then [] else path[0].asns + Members(path[1..])
  }

  function NextSegment(raw: bytes, width: nat): (r: Option<(AsSegment, bytes)>)
    requires width > 0
    ensures r.Some? ==> |r.value.1| < |raw|
  {
    if |raw| < 2 || !(1 <= raw[0] <= 4) then None
    else
      var n := raw[1] * width;
      if |raw| < 2 + n then None
      else Some((AsSegment(raw[0], Numbers(Pieces(raw[2..2 + n], width))), raw[2 + n..]))
  }

  function ParsePath(raw: bytes, width: nat): Option<seq<nat>>
    requires width > 0
    decreases |raw|
  {
    if raw == [] then Some([])
    else match NextSegment(raw, width)
         case None => None
         case Some((s, rest)) => Prepend(s.asns, ParsePath(rest, width))
  }

  function Prepend(out: seq<nat>, rest: Option<seq<nat>>): Option<seq<nat>> {
    match rest case None => None case Some(asns) => Some(out + asns)
  }

  lemma PrependTwice(a: seq<nat>, b: seq<nat>, rest: Option<seq<nat>>)
    ensures Prepend([], rest) == rest
    ensures Prepend(a, Prepend(b, rest)) == Prepend(a + b, rest)
  {
    if rest.Some? {
      Assoc(a, b, rest.value);
      assert [] + rest.value == rest.value;
    }
  }

  /** The loop that reads a path, segment by segment. */
  method ReadPath(raw: bytes, width: nat) returns (r: Option<seq<nat>>)
    requires width > 0
    ensures r == ParsePath(raw, width)
  {
    var rest, out: seq<nat> := raw, [];
    PrependTwice([], [], ParsePath(raw, width));
    while rest != []
      invariant ParsePath(raw, width) == Prepend(out, ParsePath(rest, width))
      decreases |rest|
    {
      var next := NextSegment(rest, width);
      if next == None {
        return None;
      }
      PrependTwice(out, next.value.0.asns, ParsePath(next.value.1, width));
      out := out + next.value.0.asns;
      rest := next.value.1;
    }
    assert out + [] == out;
    return Some(out);
  }

  lemma {:induction false} PiecesOfAsns(asns: seq<nat>, width: nat)
    requires width > 0 && forall i :: 0 <= i < |asns| ==> asns[i] < Pow256(width)
    ensures Numbers(Pieces(AsnBytes(asns, width), width)) == asns
  {
    if asns != [] {
      var head, tail := ToBE(asns[0], width), AsnBytes(asns[1..], width);
      PiecesOfAsns(asns[1..], width);
      BERoundTrip(asns[0], width);
      SplitAt(head, tail);
      var b := AsnBytes(asns, width);
      assert |b| >= width && b[..width] == head && b[width..] == tail;
      assert Pieces(b, width) == [head] + Pieces(tail, width);
      assert Numbers([head] + Pieces(tail, width)) == [asns[0]] + Numbers(Pieces(tail, width));
    }
  }

  lemma {:induction false} AsnsOfPieces(b: bytes, width: nat, n: nat)
    requires width > 0 && |b| == n * width
    ensures var asns := Numbers(Pieces(b, width));
      && |asns| == n && AsnBytes(asns, width) == b
      && forall i :: 0 <= i < n ==> asns[i] < Pow256(width)
    decreases n
  {
    if n == 0 {
      assert Numbers(Pieces(b, width)) == [];
    } else {
      assert n * width == width + (n - 1) * width;
      var head, tail := b[..width], b[width..];
      AsnsOfPieces(tail, width, n - 1);
      BEOfFromBE(head);
      FirstPiece(b, width);
      assert b == head + tail;
    }
  }

  lemma FirstPiece(b: bytes, width: nat)
    requires 0 < width <= |b|
    ensures var asns := Numbers(Pieces(b, width));
      asns != [] && asns[0] == FromBE(b[..width]) && asns[1..] == Numbers(Pieces(b[width..], width))
  {
    assert Pieces(b, width) == [b[..width]] + Pieces(b[width..], width);
  }

  lemma SegmentIsRead(s: AsSegment, width: nat, rest: bytes)
    requires width > 0 && ValidSegment(s, width)
    ensures NextSegment(SegmentBytes(s, width) + rest, width) == Some((s, rest))
  {
    var head: bytes := [s.typ, |s.asns|];
    var body := AsnBytes(s.asns, width);
    var raw := SegmentBytes(s, width) + rest;
    PiecesOfAsns(s.asns, width);
    Assoc(head, body, rest);
    SplitAt(head, body + rest);
    SplitAt(body, rest);
    var n := |s.asns| * width;
    assert raw[0] == s.typ && raw[1] == |s.asns|;
    assert raw[2..] == body + rest;
    assert raw[2..2 + n] == raw[2..][..n] && raw[2 + n..] == raw[2..][n..];
  }

  lemma ReadIsSegment(raw: bytes, width: nat)
    requires width > 0 && NextSegment(raw, width).Some?
    ensures var (s, rest) := NextSegment(raw, width).value;
      ValidSegment(s, width) && raw == SegmentBytes(s, width) + rest
  {
    var n := raw[1] * width;
    AsnsOfPieces(raw[2..2 + n], width, raw[1]);
    FourParts(raw, 2, 2, 2 + n);
    assert raw[..2] + raw[2..2] == [raw[0], raw[1]];
  }

  /** A serialised path is read as the concatenation of its segments' members. */
  lemma {:induction false} PathIsRead(path: seq<AsSegment>, width: nat)
    requires width > 0 && ValidPath(path, width)
    ensures ParsePath(PathBytes(path, width), width) == Some(Members(path))
  {
    if path != [] {
      PathIsRead(path[1..], width);
      SegmentIsRead(path[0], width, PathBytes(path[1..], width));
    }
  }

  /** And what is read as a path is one. */
  lemma {:induction false} ReadIsPath(raw: bytes, width: nat) returns (path: seq<AsSegment>)
    requires width > 0 && ParsePath(raw, width).Some?
    ensures ValidPath(path, width)
    ensures raw == PathBytes(path, width) && ParsePath(raw, width) == Some(Members(path))
    decreases |raw|
  {
    if raw == [] {
      path := [];
    } else {
      var (s, rest) := NextSegment(raw, width).value;
      ReadIsSegment(raw, width);
      var more := ReadIsPath(rest, width);
      path := [s] + more;
      assert path[1..] == more;
    }
  }

  lemma {:induction false} MembersFit(path: seq<AsSegment>, width: nat)
    requires ValidPath(path, width)
    ensures forall i :: 0 <= i < |Members(path)| ==> Members(path)[i] < Pow256(width)
  {
    if path != [] {
      assert ValidSegment(path[0], width);
      MembersFit(path[1..], width);
    }
  }

  // ------------------------------------------------------------ derived columns

  datatype Derived = Derived(
    path: seq<nat>,
    as4Path: seq<nat>,
    communities: seq<nat>,
    large: seq<bytes>,
    extended: seq<bytes>,
    nextHop: Option<bytes>,
    med: Option<nat>,
    localPref: Option<nat>,
    ok: bool)

  const NOTHING: Derived := Derived([], [], [], [], [], None, None, None, false)

  /** What the walker is told about the route: AS number width and address family. */
  datatype Family = Family(width: nat, afi: nat, safi: nat)

  function V4Mapped(b: bytes): bytes {
    [0, 0, 0, 0, 0, 0, 0, 0, 0, 0, 255, 255] + b
  }

  /** MP_REACH_NLRI (section 3 of RFC 4760): the next hop, when the attribute is for the route's own family. */
  function MpReach(f: Family, d: Derived, v: bytes): Option<Derived> {
    if |v| < 2 then None
    else if FromBE(v[..2]) != f.afi then Some(d)
    else if |v| < 3 then None
    else if v[2] != f.safi then Some(d)
    else if |v| < 4 then None
    else
      var len: nat := v[3];
      if |v| < 4 + len then None else
      var hop := v[4..4 + len];
      if v[..3] == [0, 1, 1] && len == 4 then Some(d.(nextHop := Some(V4Mapped(hop))))
      else if v[0] == 0 && (v[1] == 1 || v[1] == 2) && v[2] == 1 && (len == 16 || len == 32)
      then Some(d.(nextHop := Some(hop[..16])))
      else Some(d)
  }

  /** What one attribute does to the derived columns; absent when its value is malformed. */
  function Effect(f: Family, d: Derived, a: Attr): Option<Derived>
    requires f.width > 0
  {
    var v := a.value;
    if a.typ == 2 then
      (match ParsePath(v, f.width) case None => None case Some(p) => Some(d.(path := p)))
    else if a.typ == 17 then
      (match ParsePath(v, 4) case None => None case Some(p) => Some(d.(as4Path := p)))
    else if a.typ == 3 then
      if |v| != 4 then None
      else if f.afi != 1 || f.safi != 1 then Some(d)
      else Some(d.(nextHop := Some(V4Mapped(v))))
    else if a.typ == 4 then if |v| == 4 then Some(d.(med := Some(FromBE(v)))) else None
    else if a.typ == 5 then if |v| == 4 then Some(d.(localPref := Some(FromBE(v)))) else None
    else if a.typ == 8 then if |v| % 4 == 0 then Some(d.(communities := Numbers(Pieces(v, 4)))) else None
    else if a.typ == 16 then if |v| % 8 == 0 then Some(d.(extended := Pieces(v, 8))) else None
    else if a.typ == 32 then if |v| % 12 == 0 then Some(d.(large := Pieces(v, 12))) else None
    else if a.typ == 14 then MpReach(f, d, v)
    else Some(d)
  }

  predicate Inspected(typ: byte) {
    typ in {2, 3, 4, 5, 8, 14, 16, 17, 32}
  }

  function Fold(f: Family, d: Derived, attrs: seq<Attr>): Option<Derived>
    requires f.width > 0
    decreases |attrs|
  {
    if attrs == [] then Some(d.(ok := true))
    else match Effect(f, d, attrs[0])
         case None => None
         case Some(d') => Fold(f, d', attrs[1..])
  }

  /** The specification of the walker: undo the framing, then fold the effects. */
  function Derive(f: Family, d: Derived, raw: bytes): Option<Derived>
    requires f.width > 0
  {
    match Unframe(raw)
    case None => None
    case Some(attrs) => Fold(f, d, attrs)
  }

  /** The walker's loop, which takes effects as it goes and may stop before the framing has been checked. */
  method Parse(raw: bytes, f: Family) returns (r: Option<Derived>)
    requires f.width > 0
    ensures r == Derive(f, NOTHING, raw)
  {
    var rest, d := raw, NOTHING;
    while rest != []
      invariant Derive(f, NOTHING, raw) == Derive(f, d, rest)
      decreases |rest|
    {
      var next := NextAttr(rest);
      if next == None {
        return None;
      }
      var (a, more) := next.value;
      OneMore(f, d, rest);
      var d' := Effect(f, d, a);
      if d' == None {
        return None;
      }
      rest, d := more, d'.value;
    }
    return Some(d.(ok := true));
  }

  lemma OneMore(f: Family, d: Derived, raw: bytes)
    requires f.width > 0 && raw != [] && NextAttr(raw).Some?
    ensures var (a, rest) := NextAttr(raw).value;
      Derive(f, d, raw) == match Effect(f, d, a) case None => None case Some(d') => Derive(f, d', rest)
  {
    var (a, rest) := NextAttr(raw).value;
    if Unframe(rest).Some? {
      assert ([a] + Unframe(rest).value)[1..] == Unframe(rest).value;
    }
  }

  // ---------------------------------------------------------------- theorems

  /** Parsing a serialised list is folding the effects of its attributes. */
  lemma ParseOfSerialised(f: Family, attrs: seq<Attr>)
    requires f.width > 0 && AllFramed(attrs)
    ensures Derive(f, NOTHING, Serialise(attrs)) == Fold(f, NOTHING, attrs)
  {
    UnframeIsInverse(Serialise(attrs), attrs);
  }

  /** Whether a value is malformed does not depend on what came before it. */
  predicate MalformedValue(f: Family, a: Attr)
    requires f.width > 0
  {
    Effect(f, NOTHING, a) == None
  }

  lemma MalformedAnywhere(f: Family, d: Derived, a: Attr)
    requires f.width > 0
    ensures Effect(f, d, a) == None <==> MalformedValue(f, a)
  {
  }

  lemma {:induction false} FoldFailsExactlyWhen(f: Family, d: Derived, attrs: seq<Attr>)
    requires f.width > 0
    ensures Fold(f, d, attrs) == None <==> exists i :: 0 <= i < |attrs| && MalformedValue(f, attrs[i])
    ensures Fold(f, d, attrs).Some? ==> Fold(f, d, attrs).value.ok
    decreases |attrs|
  {
    if attrs != [] {
      MalformedAnywhere(f, d, attrs[0]);
      match Effect(f, d, attrs[0])
      case None =>
      case Some(d') =>
        FoldFailsExactlyWhen(f, d', attrs[1..]);
        if exists i :: 0 <= i < |attrs| && MalformedValue(f, attrs[i]) {
          var i :| 0 <= i < |attrs| && MalformedValue(f, attrs[i]);
          assert attrs[1..][i - 1] == attrs[i];
        }
    }
  }

  /** The start of a multiprotocol announcement: address family, next hop length, next hop. */
  function Announcement(f: Family, hop: bytes): bytes
    requires f.safi < 256 && |hop| < 256
  {
    var fixed: bytes := [f.safi, |hop|];
    ToBE(f.afi, 2) + fixed + hop
  }

  /** The announcement ends before its next hop does, or before its address family. */
  ghost predicate CutAnnouncement(f: Family, v: bytes)
    requires f.safi < 256
  {
    |v| < 2 || exists hop :: CutsShort(f, v, hop)
  }

  predicate CutsShort(f: Family, v: bytes, hop: bytes)
    requires f.safi < 256
  {
    |hop| < 256 && v <= Announcement(f, hop) && v != Announcement(f, hop)
  }

  /** The value is not what its type asks for. */
  ghost predicate IllFormed(f: Family, a: Attr)
    requires f.safi < 256
  {
    match a.typ
    case 2 => !IsPath(a.value, f.width)
    case 17 => !IsPath(a.value, 4)
    case 3 => |a.value| != 4
    case 4 => |a.value| != 4
    case 5 => |a.value| != 4
    case 8 => |a.value| % 4 != 0
    case 16 => |a.value| % 8 != 0
    case 32 => |a.value| % 12 != 0
    case 14 => CutAnnouncement(f, a.value)
    case _ => false
  }

  predicate SpellsPath(v: bytes, path: seq<AsSegment>, width: nat) {
    ValidPath(path, width) && v == PathBytes(path, width)
  }

  ghost predicate IsPath(v: bytes, width: nat) {
    exists path :: SpellsPath(v, path, width)
  }

  lemma PathParsesExactlyWhen(v: bytes, width: nat)
    requires width > 0
    ensures ParsePath(v, width).Some? <==> IsPath(v, width)
  {
    if ParsePath(v, width).Some? {
      var path := ReadIsPath(v, width);
      assert SpellsPath(v, path, width);
    }
    if path :| SpellsPath(v, path, width) {
      PathIsRead(path, width);
    }
  }

  lemma AnnouncementFields(f: Family, hop: bytes)
    requires f.afi < 65536 && f.safi < 256 && |hop| < 256
    ensures var v := Announcement(f, hop);
      |v| == 4 + |hop| && v[..2] == ToBE(f.afi, 2) && v[2] == f.safi && v[3] == |hop| && FromBE(v[..2]) == f.afi
  {
    Widths();
    BERoundTrip(f.afi, 2);
  }

  lemma PrefixOf(v: bytes, two: bytes, fixed: bytes, hop: bytes)
    requires |two| == |fixed| == 2 && |v| <= 4 + |hop| && |v| >= 2 && v[..2] == two
    requires |v| >= 3 ==> v[2] == fixed[0]
    requires |v| >= 4 ==> v[3] == fixed[1] && v[4..] <= hop
    ensures v <= two + fixed + hop
  {
    var whole := two + fixed + hop;
    assert whole[..2] == two && whole[2] == fixed[0] && whole[3] == fixed[1] && whole[4..] == hop;
    forall i | 0 <= i < |v| ensures v[i] == whole[i] {
      if i < 2 {
        assert v[..2][i] == two[i];
      } else if i >= 4 {
        assert v[4..][i - 4] == hop[i - 4];
      }
    }
  }

  /** A next hop of the length that the value announces, beginning with what there is of it. */
  function Completed(v: bytes): (hop: bytes)
    ensures |hop| < 256
  {
    if |v| < 4 then []
    else
      var n: nat := v[3];
      if |v| - 4 >= n then v[4..4 + n] else v[4..] + seq(n - (|v| - 4), _ => 0)
  }

  /** A value that the walker rejects is cut short ... */
  lemma RejectedIsCut(f: Family, d: Derived, v: bytes)
    requires f.afi < 65536 && f.safi < 256 && MpReach(f, d, v) == None && |v| >= 2
    ensures CutsShort(f, v, Completed(v))
  {
    var hop := Completed(v);
    BEOfFromBE(v[..2]);
    assert FromBE(v[..2]) == f.afi && |v| < 4 + |hop|;
    PrefixOf(v, ToBE(f.afi, 2), [f.safi, |hop|], hop);
  }

  /** ... and the other way round. */
  lemma CutIsRejected(f: Family, d: Derived, v: bytes, hop: bytes)
    requires f.afi < 65536 && f.safi < 256 && CutsShort(f, v, hop)
    ensures MpReach(f, d, v) == None
  {
    AnnouncementFields(f, hop);
    var whole := Announcement(f, hop);
    assert v == whole[..|v|];
    if |v| >= 2 {
      assert v[..2] == whole[..2];
    }
  }

  lemma AnnouncementRejectedExactlyWhen(f: Family, d: Derived, v: bytes)
    requires f.afi < 65536 && f.safi < 256
    ensures MpReach(f, d, v) == None <==> CutAnnouncement(f, v)
  {
    if |v| >= 2 {
      if MpReach(f, d, v) == None {
        RejectedIsCut(f, d, v);
      }
      if hop :| CutsShort(f, v, hop) {
        CutIsRejected(f, d, v, hop);
      }
    }
  }

  lemma MalformedPathExactlyWhen(f: Family, a: Attr)
    requires f.width > 0 && f.safi < 256 && (a.typ == 2 || a.typ == 17)
    ensures MalformedValue(f, a) <==> IllFormed(f, a)
  {
    PathParsesExactlyWhen(a.value, if a.typ == 2 then f.width else 4);
  }

  lemma MalformedLengthExactlyWhen(f: Family, a: Attr)
    requires f.width > 0 && f.safi < 256 && a.typ != 2 && a.typ != 17 && a.typ != 14
    ensures MalformedValue(f, a) <==> IllFormed(f, a)
  {
  }

  lemma MalformedAnnouncementExactlyWhen(f: Family, a: Attr)
    requires f.width > 0 && f.afi < 65536 && f.safi < 256 && a.typ == 14
    ensures MalformedValue(f, a) <==> IllFormed(f, a)
  {
    AnnouncementRejectedExactlyWhen(f, NOTHING, a.value);
  }

  /** For each inspected type, what makes its value malformed. */
  lemma MalformedExactlyWhen(f: Family, a: Attr)
    requires f.width > 0 && f.afi < 65536 && f.safi < 256
    ensures MalformedValue(f, a) <==> IllFormed(f, a)
  {
    if a.typ == 2 || a.typ == 17 {
      MalformedPathExactlyWhen(f, a);
    } else if a.typ == 14 {
      MalformedAnnouncementExactlyWhen(f, a);
    } else {
      MalformedLengthExactlyWhen(f, a);
    }
  }

  /** The walker fails exactly on malformed framing or on a value that is not what its type asks for. */
  lemma ParseFailsExactlyWhen(f: Family, raw: bytes)
    requires f.width > 0 && f.afi < 65536 && f.safi < 256
    ensures Derive(f, NOTHING, raw) == None <==>
      || Unframe(raw) == None
      || exists i :: 0 <= i < |Unframe(raw).value| && IllFormed(f, Unframe(raw).value[i])
  {
    if Unframe(raw).Some? {
      var attrs := Unframe(raw).value;
      FoldFailsExactlyWhen(f, NOTHING, attrs);
      forall i | 0 <= i < |attrs| ensures MalformedValue(f, attrs[i]) <==> IllFormed(f, attrs[i]) {
        MalformedExactlyWhen(f, attrs[i]);
      }
    }
  }

  lemma {:induction false} FoldSkips(f: Family, d: Derived, before: seq<Attr>, a: Attr, after: seq<Attr>)
    requires f.width > 0 && !Inspected(a.typ)
    ensures Fold(f, d, before + [a] + after) == Fold(f, d, before + after)
    decreases |before|
  {
    if before == [] {
      assert (before + [a] + after)[1..] == after && before + after == after;
    } else {
      assert (before + [a] + after)[1..] == before[1..] + [a] + after;
      assert (before + after)[1..] == before[1..] + after;
      match Effect(f, d, before[0])
      case None =>
      case Some(d') => FoldSkips(f, d', before[1..], a, after);
    }
  }

  /** An attribute of a type that is not inspected can be put in anywhere without changing a derived column. */
  lemma UnknownAttributesAreInvisible(f: Family, before: seq<Attr>, a: Attr, after: seq<Attr>)
    requires f.width > 0 && !Inspected(a.typ)
    requires AllFramed(before) && AllFramed(after) && Framed(a)
    ensures Derive(f, NOTHING, Serialise(before + [a] + after)) == Derive(f, NOTHING, Serialise(before + after))
  {
    ParseOfSerialised(f, before + [a] + after);
    ParseOfSerialised(f, before + after);
    FoldSkips(f, NOTHING, before, a, after);
  }

  // ------------------------------------------------------- what the columns mean

  /** The value of the last attribute of a type. */
  function LastOf(attrs: seq<Attr>, typ: byte): Option<bytes> {
    if attrs == [] then None
    else match LastOf(attrs[1..], typ)
         case Some(v) => Some(v)
         case None => if attrs[0].typ == typ then Some(attrs[0].value) else None
  }

  function Number(v: Option<bytes>, other: Option<nat>): Option<nat> {
    match v case None => other case Some(b) => Some(FromBE(b))
  }

  function PathOr(v: Option<bytes>, width: nat, other: seq<nat>): seq<nat>
    requires width > 0
  {
    match v case None => other case Some(b) => (match ParsePath(b, width) case None => [] case Some(p) => p)
  }

  function PiecesOr(v: Option<bytes>, size: nat, other: seq<bytes>): seq<bytes>
    requires size > 0
  {
    match v case None => other case Some(b) => Pieces(b, size)
  }

  /** Each column of `r` is read off one value, or is as it was in `d`. */
  predicate ReadOff(f: Family, d: Derived, r: Derived, value: byte -> Option<bytes>)
    requires f.width > 0
  {
    && r.path == PathOr(value(2), f.width, d.path)
    && r.as4Path == PathOr(value(17), 4, d.as4Path)
    && r.med == Number(value(4), d.med)
    && r.localPref == Number(value(5), d.localPref)
    && r.communities == WordsOr(value(8), d.communities)
    && r.extended == PiecesOr(value(16), 8, d.extended)
    && r.large == PiecesOr(value(32), 12, d.large)
  }

  function WordsOr(v: Option<bytes>, other: seq<nat>): seq<nat> {
    match v case None => other case Some(b) => Numbers(Pieces(b, 4))
  }

  lemma EffectReadsOff(f: Family, d: Derived, a: Attr)
    requires f.width > 0 && Effect(f, d, a).Some?
    ensures ReadOff(f, d, Effect(f, d, a).value, typ => LastOf([a], typ))
  {
    assert forall typ :: LastOf([a], typ) == if a.typ == typ then Some(a.value) else None;
  }

  /** Every column but the next hop holds the last attribute of its own type, or what was there before. */
  lemma {:induction false} LastAttributeWins(f: Family, d: Derived, attrs: seq<Attr>)
    requires f.width > 0 && Fold(f, d, attrs).Some?
    ensures ReadOff(f, d, Fold(f, d, attrs).value, typ => LastOf(attrs, typ))
    decreases |attrs|
  {
    if attrs != [] {
      var a, rest := attrs[0], attrs[1..];
      var d' := Effect(f, d, a).value;
      EffectReadsOff(f, d, a);
      LastAttributeWins(f, d', rest);
      assert forall typ :: LastOf(attrs, typ) == if LastOf(rest, typ).Some? then LastOf(rest, typ) else LastOf([a], typ);
    }
  }

  /** The next hop of an MP_REACH_NLRI for the route's own family, whatever announcements follow it. */
  lemma NextHopOfMpReach(f: Family, d: Derived, hop: bytes, rest: bytes)
    requires f.afi < 65536 && f.safi < 256 && |hop| < 256
    ensures var fixed: bytes := [f.safi, |hop|];
      MpReach(f, d, ToBE(f.afi, 2) + fixed + hop + rest) ==
      if f.safi == 1 && f.afi == 1 && |hop| == 4 then Some(d.(nextHop := Some(V4Mapped(hop))))
      else if f.safi == 1 && (f.afi == 1 || f.afi == 2) && (|hop| == 16 || |hop| == 32)
      then Some(d.(nextHop := Some(hop[..16])))
      else Some(d)
  {
    var fixed: bytes := [f.safi, |hop|];
    var v := ToBE(f.afi, 2) + fixed + hop + rest;
    Widths();
    BERoundTrip(f.afi, 2);
    assert v[..2] == ToBE(f.afi, 2) && v[2] == f.safi && v[3] == |hop|;
    assert v[4..4 + |hop|] == hop;
    assert ToBE(f.afi, 2) == [f.afi / 256, f.afi % 256] by {
      assert ToBE(f.afi / 256, 1) == [f.afi / 256 % 256];
    }
    assert v[..3] == [v[0], v[1], v[2]];
  }

  function UsableHop(f: Family, hop: bytes): Option<bytes> {
    if f.safi == 1 && f.afi == 1 && |hop| == 4 then Some(V4Mapped(hop))
    else if f.safi == 1 && (f.afi == 1 || f.afi == 2) && (|hop| == 16 || |hop| == 32) then Some(hop[..16])
    else None
  }

  /** The next hop that an attribute gives to a route of this family, if it gives one. */
  function Carried(f: Family, a: Attr): Option<bytes> {
    var v := a.value;
    if a.typ == 3 then if f.afi == 1 && f.safi == 1 then Some(V4Mapped(v)) else None
    else if a.typ == 14 && |v| >= 4 && FromBE(v[..2]) == f.afi && v[2] == f.safi then
      var len: nat := v[3];
      if |v| < 4 + len then None else UsableHop(f, v[4..4 + len])
    else None
  }

  function LastCarried(f: Family, attrs: seq<Attr>, other: Option<bytes>): Option<bytes> {
    if attrs == [] then other
    else LastCarried(f, attrs[1..], if Carried(f, attrs[0]).Some? then Carried(f, attrs[0]) else other)
  }

  lemma TwoBytes(b: bytes)
    requires |b| == 2
    ensures var hi: nat, lo: nat := b[0], b[1]; FromBE(b) == 256 * hi + lo
  {
    assert b[..1] == [b[0]] && b[..1][..0] == [];
    assert FromBE(b[..1]) == b[0];
  }

  lemma HopOfEffect(f: Family, d: Derived, a: Attr)
    requires f.width > 0 && Effect(f, d, a).Some?
    ensures Effect(f, d, a).value.nextHop == if Carried(f, a).Some? then Carried(f, a) else d.nextHop
  {
    var v := a.value;
    if a.typ == 14 && |v| >= 4 {
      TwoBytes(v[..2]);
      assert v[..3] == [v[0], v[1], v[2]];
    }
  }

  /** The next hop is the last one given to the route's own family. */
  lemma {:induction false} LastHopWins(f: Family, d: Derived, attrs: seq<Attr>)
    requires f.width > 0 && Fold(f, d, attrs).Some?
    ensures Fold(f, d, attrs).value.nextHop == LastCarried(f, attrs, d.nextHop)
    decreases |attrs|
  {
    if attrs != [] {
      HopOfEffect(f, d, attrs[0]);
      LastHopWins(f, Effect(f, d, attrs[0]).value, attrs[1..]);
    }
  }

  // ------------------------------------------------------------------- widths

  predicate AllU32(s: seq<nat>) {
    forall i :: 0 <= i < |s| ==> s[i] < U32
  }

  predicate AllSized(items: seq<bytes>, size: nat) {
    forall i :: 0 <= i < |items| ==> |items[i]| == size
  }

  /** The widths of the source's own types. */
  predicate Typed(d: Derived) {
    && AllU32(d.path) && AllU32(d.as4Path) && AllU32(d.communities)
    && AllSized(d.large, 12) && AllSized(d.extended, 8)
    && (d.nextHop.Some? ==> |d.nextHop.value| == 16)
    && (d.med.Some? ==> d.med.value < U32)
    && (d.localPref.Some? ==> d.localPref.value < U32)
  }

  lemma PathFits(raw: bytes, width: nat)
    requires (width == 2 || width == 4) && ParsePath(raw, width).Some?
    ensures AllU32(ParsePath(raw, width).value)
  {
    Widths();
    var path := ReadIsPath(raw, width);
    MembersFit(path, width);
  }

  lemma NumbersFit(items: seq<bytes>)
    requires AllSized(items, 4)
    ensures AllU32(Numbers(items))
  {
    forall i | 0 <= i < |items| ensures Numbers(items)[i] < U32 {
      FourBytesFit(items[i]);
    }
  }

  lemma FourBytesFit(b: bytes)
    requires |b| == 4
    ensures FromBE(b) < U32
  {
    Widths();
    BEOfFromBE(b);
  }

  lemma HopIsTyped(f: Family, d: Derived, v: bytes)
    requires Typed(d) && MpReach(f, d, v).Some?
    ensures Typed(MpReach(f, d, v).value)
  {
    if |v| >= 4 {
      var len: nat := v[3];
      assert MpReach(f, d, v).value.nextHop == d.nextHop || |MpReach(f, d, v).value.nextHop.value| == 16;
    }
  }

  lemma PathIsTyped(f: Family, d: Derived, a: Attr)
    requires (f.width == 2 || f.width == 4) && Typed(d) && Effect(f, d, a).Some?
    requires a.typ == 2 || a.typ == 17
    ensures Typed(Effect(f, d, a).value)
  {
    PathFits(a.value, if a.typ == 2 then f.width else 4);
  }

  lemma EffectIsTyped(f: Family, d: Derived, a: Attr)
    requires (f.width == 2 || f.width == 4) && Typed(d) && Effect(f, d, a).Some?
    ensures Typed(Effect(f, d, a).value)
  {
    var v := a.value;
    if a.typ == 2 || a.typ == 17 {
      PathIsTyped(f, d, a);
    } else if a.typ == 4 || a.typ == 5 {
      FourBytesFit(v);
    } else if a.typ == 8 {
      NumbersFit(Pieces(v, 4));
    } else if a.typ == 14 {
      HopIsTyped(f, d, v);
    }
  }

  lemma {:induction false} FoldIsTyped(f: Family, d: Derived, attrs: seq<Attr>)
    requires (f.width == 2 || f.width == 4) && Typed(d) && Fold(f, d, attrs).Some?
    ensures Typed(Fold(f, d, attrs).value)
    decreases |attrs|
  {
    if attrs != [] {
      EffectIsTyped(f, d, attrs[0]);
      FoldIsTyped(f, Effect(f, d, attrs[0]).value, attrs[1..]);
    }
  }
}
