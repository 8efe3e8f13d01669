/**
 One event as a RowBinary row of the `events` table: 28 columns, written by the
 encoder in table order and read back by the table's schema alone.
 */
module EventRow {
  import opened Prelude
  import opened RowBinary
  import opened PathAttributes

  // ----------------------------------------------------------------- the event

  datatype Event = Event(
    stream: bytes,
    epoch: bytes,
    sequence: nat,
    receivedMs: int,
    expires: nat,
    class_: byte,
    kind: byte,
    peer: bytes,
    ingress: nat,
    pathId: Option<nat>,
    afi: nat,
    safi: byte,
    prefix: bytes,
    prefixLen: byte,
    attrs: bytes,
    identity: bytes)

  /** The widths of the source's field types. */
  predicate ValidEvent(e: Event) {
    && |e.stream| == |e.epoch| == |e.peer| == |e.prefix| == 16
    && e.sequence < U64 && e.expires < U32 && e.ingress < U32 && e.afi < 65536
    && -(U64 / 2) <= e.receivedMs < U64 / 2
    && (e.pathId.Some? ==> e.pathId.value < U32)
  }

  // The shared buffer holds the RPKI byte, the parse-info byte and the wire attributes.

  function RawAttrs(e: Event): bytes {
    if |e.attrs| < 2 then [] else e.attrs[2..]
  }

  function Rpki(e: Event): byte {
    if e.attrs == [] then 0 else e.attrs[0]
  }

  function AsnWidth(e: Event): byte {
    if |e.attrs| > 1 && e.attrs[1] == 0 then 2 else 4
  }

  function FamilyOf(e: Event): Family {
    Family(AsnWidth(e), e.afi, e.safi)
  }

  function DerivedOf(e: Event): Derived {
    match Derive(FamilyOf(e), NOTHING, RawAttrs(e)) case None => NOTHING case Some(d) => d
  }

  /** What the table stores of an event: its scalars, the raw attributes, and what was derived from them. */
  datatype Row = Row(scalars: Event, rpki: byte, width: byte, raw: bytes, derived: Derived)

  function RowOf(e: Event): Row {
    Row(e.(attrs := []), Rpki(e), AsnWidth(e), RawAttrs(e), DerivedOf(e))
  }

  // ------------------------------------------------------------ column values

  /** Two's complement. */
  function Signed(n: int): bytes {
    LE(n % U64, 8)
  }

  function FromSigned(b: bytes): int {
    var n := FromLE(b);
    if n < U64 / 2 then n else n - U64
  }

  function Words(ns: seq<nat>): (items: seq<bytes>)
    ensures |items| == |ns|
    ensures forall i :: 0 <= i < |ns| ==> items[i] == LE(ns[i], 4)
  {
    seq(|ns|, i requires 0 <= i < |ns| => LE(ns[i], 4))
  }

  function Word(n: Option<nat>): Option<bytes> {
    match n case None => None case Some(x) => Some(LE(x, 4))
  }

  // The columns in table order, five groups of them.

  function StreamFields(e: Event): seq<Field> {
    [Raw(LE(1, 2)), Raw(e.stream), Raw(e.epoch), Raw(LE(e.sequence, 8)), Raw(Signed(e.receivedMs)), Raw(LE(e.expires, 4))]
  }

  function PeerFields(e: Event): seq<Field> {
    [Raw([e.class_]), Raw([e.kind]), Raw(e.peer), Raw(LE(e.ingress, 4)), Optional(4, Word(e.pathId))]
  }

  function RouteFields(r: Row): seq<Field> {
    var e := r.scalars;
    [Raw(LE(e.afi, 2)), Raw([e.safi]), Raw(e.prefix), Raw([e.prefixLen]), Raw([r.rpki]), Raw([r.width])]
  }

  function ArrayFields(r: Row): seq<Field> {
    var d := r.derived;
    [Text(r.raw), List(4, Words(d.path)), List(4, Words(d.as4Path)), List(4, Words(d.communities)),
     List(12, d.large), List(8, d.extended)]
  }

  function TailFields(r: Row): seq<Field> {
    var d := r.derived;
    [Optional(16, d.nextHop), Optional(4, Word(d.med)), Optional(4, Word(d.localPref)),
     Raw([if d.ok then 1 else 0]), Text(r.scalars.identity)]
  }

  function FieldsOf(r: Row): seq<Field> {
    StreamFields(r.scalars) + PeerFields(r.scalars) + RouteFields(r) + ArrayFields(r) + TailFields(r)
  }

  // ------------------------------------------------------------------ encoder

  method WriteStream(w: RowWriter, e: Event)
    requires w.Valid()
    modifies w
    ensures w.Valid() && w.before == old(w.before) && w.row == old(w.row) + StreamFields(e)
  {
    w.WriteRaw(LE(1, 2));
    w.WriteRaw(e.stream);
    w.WriteRaw(e.epoch);
    w.WriteRaw(LE(e.sequence, 8));
    w.WriteRaw(Signed(e.receivedMs));
    w.WriteRaw(LE(e.expires, 4));
  }

  method WritePeer(w: RowWriter, e: Event)
    requires w.Valid()
    modifies w
    ensures w.Valid() && w.before == old(w.before) && w.row == old(w.row) + PeerFields(e)
  {
    w.WriteRaw([e.class_]);
    w.WriteRaw([e.kind]);
    w.WriteRaw(e.peer);
    w.WriteRaw(LE(e.ingress, 4));
    w.WriteOptional(4, Word(e.pathId));
  }

  method WriteRoute(w: RowWriter, r: Row)
    requires w.Valid()
    modifies w
    ensures w.Valid() && w.before == old(w.before) && w.row == old(w.row) + RouteFields(r)
  {
    w.WriteRaw(LE(r.scalars.afi, 2));
    w.WriteRaw([r.scalars.safi]);
    w.WriteRaw(r.scalars.prefix);
    w.WriteRaw([r.scalars.prefixLen]);
    w.WriteRaw([r.rpki]);
    w.WriteRaw([r.width]);
  }

  method WriteArrays(w: RowWriter, r: Row)
    requires w.Valid()
    modifies w
    ensures w.Valid() && w.before == old(w.before) && w.row == old(w.row) + ArrayFields(r)
  {
    w.WriteText(r.raw);
    w.WriteList(4, Words(r.derived.path));
    w.WriteList(4, Words(r.derived.as4Path));
    w.WriteList(4, Words(r.derived.communities));
    w.WriteList(12, r.derived.large);
    w.WriteList(8, r.derived.extended);
  }

  method WriteTail(w: RowWriter, r: Row)
    requires w.Valid()
    modifies w
    ensures w.Valid() && w.before == old(w.before) && w.row == old(w.row) + TailFields(r)
  {
    w.WriteOptional(16, r.derived.nextHop);
    w.WriteOptional(4, Word(r.derived.med));
    w.WriteOptional(4, Word(r.derived.localPref));
    w.WriteRaw([if r.derived.ok then 1 else 0]);
    w.WriteText(r.scalars.identity);
  }

  /** The row of an event is appended to the output. */
  method EncodeEvent(e: Event, out: bytes) returns (r: bytes)
    ensures r == out + EncodeRow(FieldsOf(RowOf(e)))
  {
    var raw := if |e.attrs| < 2 then [] else e.attrs[2..];
    var width: byte := if |e.attrs| > 1 && e.attrs[1] == 0 then 2 else 4;
    var parsed := Parse(raw, Family(width, e.afi, e.safi));
    var derived := match parsed case None => NOTHING case Some(d) => d;
    var row := Row(e.(attrs := []), if e.attrs == [] then 0 else e.attrs[0], width, raw, derived);
    r := WriteRow(row, out);
  }

  method WriteRow(row: Row, out: bytes) returns (r: bytes)
    ensures r == out + EncodeRow(FieldsOf(row))
  {
    var w := new RowWriter(out);
    WriteStream(w, row.scalars);
    assert [] + StreamFields(row.scalars) == StreamFields(row.scalars);
    WritePeer(w, row.scalars);
    WriteRoute(w, row);
    WriteArrays(w, row);
    WriteTail(w, row);
    r := w.out;
  }

  // ------------------------------------------------------------------ decoder

  // The column types of the table, in the same five groups.

  const STREAM_COLUMNS: seq<Kind> := [Fixed(2), Fixed(16), Fixed(16), Fixed(8), Fixed(8), Fixed(4)]
  const PEER_COLUMNS: seq<Kind> := [Fixed(1), Fixed(1), Fixed(16), Fixed(4), Nullable(4)]
  const ROUTE_COLUMNS: seq<Kind> := [Fixed(2), Fixed(1), Fixed(16), Fixed(1), Fixed(1), Fixed(1)]
  const ARRAY_COLUMNS: seq<Kind> := [Str, Array(4), Array(4), Array(4), Array(12), Array(8)]
  const TAIL_COLUMNS: seq<Kind> := [Nullable(16), Nullable(4), Nullable(4), Fixed(1), Str]
  const SCHEMA: seq<Kind> := STREAM_COLUMNS + PEER_COLUMNS + ROUTE_COLUMNS + ARRAY_COLUMNS + TAIL_COLUMNS

  function Content(f: Field): bytes {
    match f case Raw(b) => b case Text(b) => b case _ => []
  }

  function Flag(f: Field): byte {
    if Content(f) == [] then 0 else Content(f)[0]
  }

  function MaybeContent(f: Field): Option<bytes> {
    if f.Optional? then f.value else None
  }

  function MaybeWord(f: Field): Option<nat> {
    match MaybeContent(f) case None => None case Some(b) => Some(FromLE(b))
  }

  function Contents(f: Field): seq<bytes> {
    if f.List? then f.items else []
  }

  function FromWords(f: Field): seq<nat> {
    var items := Contents(f);
    seq(|items|, i requires 0 <= i < |items| => FromLE(items[i]))
  }

  function DerivedFrom(a: seq<Field>, t: seq<Field>): Derived
    requires |a| == 6 && |t| == 5
  {
    Derived(FromWords(a[1]), FromWords(a[2]), FromWords(a[3]), Contents(a[4]), Contents(a[5]),
            MaybeContent(t[0]), MaybeWord(t[1]), MaybeWord(t[2]), Flag(t[3]) != 0)
  }

  function EventFrom(s: seq<Field>, p: seq<Field>, r: seq<Field>, identity: bytes): Event
    requires |s| == 6 && |p| == 5 && |r| == 6
  {
    Event(Content(s[1]), Content(s[2]), FromLE(Content(s[3])), FromSigned(Content(s[4])), FromLE(Content(s[5])),
          Flag(p[0]), Flag(p[1]), Content(p[2]), FromLE(Content(p[3])), MaybeWord(p[4]),
          FromLE(Content(r[0])), Flag(r[1]), Content(r[2]), Flag(r[3]), [], identity)
  }

  function Assemble(s: seq<Field>, p: seq<Field>, r: seq<Field>, a: seq<Field>, t: seq<Field>): Row
    requires |s| == 6 && |p| == 5 && |r| == 6 && |a| == 6 && |t| == 5
  {
    Row(EventFrom(s, p, r, Content(t[4])), Flag(r[4]), Flag(r[5]), Content(a[0]), DerivedFrom(a, t))
  }

  /** The columns of a row, read by position. */
  function RowFrom(fs: seq<Field>): Row
    requires |fs| == 28
  {
    Assemble(fs[..6], fs[6..11], fs[11..17], fs[17..23], fs[23..])
  }

  predicate ValidRow(r: Row) {
    ValidEvent(r.scalars) && r.scalars.attrs == [] && Typed(r.derived)
  }

  lemma WordsRoundTrip(ns: seq<nat>)
    requires AllU32(ns)
    ensures FromWords(List(4, Words(ns))) == ns
  {
    Widths();
    forall i | 0 <= i < |ns| ensures FromLE(Words(ns)[i]) == ns[i] {
      LERoundTrip(ns[i], 4);
    }
  }

  lemma WordRoundTrip(n: Option<nat>)
    requires n.Some? ==> n.value < U32
    ensures MaybeWord(Optional(4, Word(n))) == n
  {
    Widths();
    if n.Some? {
      LERoundTrip(n.value, 4);
    }
  }

  lemma SignedRoundTrip(n: int)
    requires -(U64 / 2) <= n < U64 / 2
    ensures FromSigned(Signed(n)) == n
  {
    Widths();
    LERoundTrip(n % U64, 8);
    assert n % U64 == if n < 0 then n + U64 else n;
  }

  lemma DerivedRoundTrip(r: Row)
    requires Typed(r.derived)
    ensures DerivedFrom(ArrayFields(r), TailFields(r)) == r.derived
  {
    WordsRoundTrip(r.derived.path);
    WordsRoundTrip(r.derived.as4Path);
    WordsRoundTrip(r.derived.communities);
    WordRoundTrip(r.derived.med);
    WordRoundTrip(r.derived.localPref);
  }

  lemma EventRoundTrip(r: Row)
    requires ValidRow(r)
    ensures EventFrom(StreamFields(r.scalars), PeerFields(r.scalars), RouteFields(r), r.scalars.identity) == r.scalars
  {
    var e := r.scalars;
    Widths();
    LERoundTrip(e.sequence, 8);
    SignedRoundTrip(e.receivedMs);
    LERoundTrip(e.expires, 4);
    LERoundTrip(e.ingress, 4);
    LERoundTrip(e.afi, 2);
    WordRoundTrip(e.pathId);
  }

  lemma AssembleRoundTrip(r: Row)
    requires ValidRow(r)
    ensures Assemble(StreamFields(r.scalars), PeerFields(r.scalars), RouteFields(r), ArrayFields(r), TailFields(r)) == r
  {
    EventRoundTrip(r);
    DerivedRoundTrip(r);
  }

  /** Reading the columns undoes writing them. */
  lemma RowFromFields(r: Row)
    requires ValidRow(r)
    ensures RowFrom(FieldsOf(r)) == r
  {
    Groups(StreamFields(r.scalars), PeerFields(r.scalars), RouteFields(r), ArrayFields(r), TailFields(r));
    AssembleRoundTrip(r);
  }

  lemma Groups<T>(s: seq<T>, p: seq<T>, q: seq<T>, a: seq<T>, t: seq<T>)
    requires |s| == 6 && |p| == 5 && |q| == 6 && |a| == 6 && |t| == 5
    ensures var fs := s + p + q + a + t;
      && |fs| == 28 && fs[..6] == s && fs[6..11] == p && fs[11..17] == q && fs[17..23] == a && fs[23..] == t
  {
  }

  lemma GroupsFit(r: Row)
    requires ValidRow(r)
    ensures AllFit(StreamFields(r.scalars)) && AllFit(PeerFields(r.scalars)) && AllFit(RouteFields(r))
    ensures AllFit(ArrayFields(r)) && AllFit(TailFields(r))
    ensures SchemaOf(StreamFields(r.scalars)) == STREAM_COLUMNS
    ensures SchemaOf(PeerFields(r.scalars)) == PEER_COLUMNS
    ensures SchemaOf(RouteFields(r)) == ROUTE_COLUMNS
    ensures SchemaOf(ArrayFields(r)) == ARRAY_COLUMNS
    ensures SchemaOf(TailFields(r)) == TAIL_COLUMNS
  {
  }

  lemma FitsTogether(a: seq<Field>, b: seq<Field>)
    requires AllFit(a) && AllFit(b)
    ensures AllFit(a + b) && SchemaOf(a + b) == SchemaOf(a) + SchemaOf(b)
  {
  }

  /** The fields of a row are those the table's schema asks for. */
  lemma FieldsFollowSchema(r: Row)
    requires ValidRow(r)
    ensures AllFit(FieldsOf(r)) && SchemaOf(FieldsOf(r)) == SCHEMA
  {
    var s, p, q, a, t := StreamFields(r.scalars), PeerFields(r.scalars), RouteFields(r), ArrayFields(r), TailFields(r);
    GroupsFit(r);
    FitsTogether(s, p);
    FitsTogether(s + p, q);
    FitsTogether(s + p + q, a);
    FitsTogether(s + p + q + a, t);
  }

  // ----------------------------------------------------------------- theorems

  lemma RowOfIsValid(e: Event)
    requires ValidEvent(e)
    ensures ValidRow(RowOf(e))
  {
    var attrs := Unframe(RawAttrs(e));
    if attrs.Some? && Fold(FamilyOf(e), NOTHING, attrs.value).Some? {
      FoldIsTyped(FamilyOf(e), NOTHING, attrs.value);
    }
  }

  function BatchBytes(events: seq<Event>): bytes {
    if events == [] then [] else EncodeRow(FieldsOf(RowOf(events[0]))) + BatchBytes(events[1..])
  }

  function RowsOf(events: seq<Event>): seq<Row> {
    if events == [] then [] else [RowOf(events[0])] + RowsOf(events[1..])
  }

  /** A decoder that knows the table's schema and nothing else. */
  function DecodeBatch(input: bytes): Option<seq<Row>>
    decreases |input|
  {
    if input == [] then Some([])
    else match DecodeRow(SCHEMA, input)
         case None => None
         case Some((fs, rest)) =>
           if |fs| != 28 || |rest| >= |input| then None
           else match DecodeBatch(rest)
                case None => None
                case Some(rows) => Some([RowFrom(fs)] + rows)
  }

  /** One encoded event is read back, whatever follows it. */
  lemma EventIsRead(e: Event, rest: bytes)
    requires ValidEvent(e)
    ensures var fs := FieldsOf(RowOf(e));
      DecodeRow(SCHEMA, EncodeRow(fs) + rest) == Some((fs, rest)) && |fs| == 28 && EncodeRow(fs) != []
  {
    RowOfIsValid(e);
    var fs := FieldsOf(RowOf(e));
    FieldsFollowSchema(RowOf(e));
    RowRoundTrip(fs, rest);
    assert fs[0] == Raw(LE(1, 2));
  }

  lemma OneMoreRow(enc: bytes, fs: seq<Field>, rest: bytes)
    requires DecodeRow(SCHEMA, enc + rest) == Some((fs, rest)) && |fs| == 28 && enc != []
    requires DecodeBatch(rest).Some?
    ensures DecodeBatch(enc + rest) == Some([RowFrom(fs)] + DecodeBatch(rest).value)
  {
  }

  /** Every batch is recovered from the concatenation of its rows. */
  lemma {:induction false} BatchIsDecoded(events: seq<Event>)
    requires forall i :: 0 <= i < |events| ==> ValidEvent(events[i])
    ensures DecodeBatch(BatchBytes(events)) == Some(RowsOf(events))
  {
    if events != [] {
      var e, rest := events[0], BatchBytes(events[1..]);
      BatchIsDecoded(events[1..]);
      EventIsRead(e, rest);
      RowOfIsValid(e);
      RowFromFields(RowOf(e));
      OneMoreRow(EncodeRow(FieldsOf(RowOf(e))), FieldsOf(RowOf(e)), rest);
    }
  }

  /** So the same bytes never stand for two different batches of rows. */
  lemma BatchesAreUniquelyDecodable(events: seq<Event>, others: seq<Event>)
    requires forall i :: 0 <= i < |events| ==> ValidEvent(events[i])
    requires forall i :: 0 <= i < |others| ==> ValidEvent(others[i])
    requires BatchBytes(events) == BatchBytes(others)
    ensures RowsOf(events) == RowsOf(others)
  {
    BatchIsDecoded(events);
    BatchIsDecoded(others);
  }
}
