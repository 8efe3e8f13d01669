/**
 RowBinary: fixed-width fields, length-prefixed strings and arrays, and
 nullable fields behind a flag byte. A row is decoded by its schema alone.
 */
module RowBinary {
  import opened Prelude

  /** What a column's type says about its encoding. */
  datatype Kind = Fixed(width: nat) | Str | Nullable(width: nat) | Array(width: nat)

  datatype Field =
    | Raw(b: bytes)
    | Text(b: bytes)
    | Optional(width: nat, value: Option<bytes>)
    | List(width: nat, items: seq<bytes>)

  function KindOf(f: Field): Kind {
    match f
    case Raw(b) => Fixed(|b|)
    case Text(_) => Str
    case Optional(w, _) => Nullable(w)
    case List(w, _) => Array(w)
  }

  /** Every part has the width the column says. */
  predicate Fits(f: Field) {
    match f
    case Raw(_) => true
    case Text(_) => true
    case Optional(w, v) => v.Some? ==> |v.value| == w
    case List(w, items) => forall i :: 0 <= i < |items| ==> |items[i]| == w
  }

  // ----------------------------------------------------------------- varint

  function Varint(n: nat): (b: bytes)
    ensures b != []
  {
    if n < 128 then [n] else [n % 128 + 128] + Varint(n / 128)
  }

  function ReadVarint(b: bytes): Option<(nat, bytes)> {
    if b == [] then None
    else if b[0] < 128 then Some((b[0], b[1..]))
    else match ReadVarint(b[1..])
         case None => None
         case Some((n, rest)) => Some((b[0] - 128 + 128 * n, rest))
  }

  /** The exact inverse, whatever follows. */
  lemma {:induction false} VarintRoundTrip(n: nat, rest: bytes)
    ensures ReadVarint(Varint(n) + rest) == Some((n, rest))
    decreases n
  {
    var b := Varint(n) + rest;
    if n < 128 {
      assert b[1..] == rest;
    } else {
      VarintRoundTrip(n / 128, rest);
      assert b[1..] == Varint(n / 128) + rest;
    }
  }

  /** No length prefix is the beginning of another. */
  lemma VarintIsPrefixFree(m: nat, n: nat, rest: bytes, rest': bytes)
    requires Varint(m) + rest == Varint(n) + rest'
    ensures m == n && rest == rest'
  {
    VarintRoundTrip(m, rest);
    VarintRoundTrip(n, rest');
  }

  /** The encoder's loop. */
  method WriteVarint(out: bytes, n: nat) returns (r: bytes)
    ensures r == out + Varint(n)
  {
    var m := n;
    r := out;
    while m >= 128
      invariant r + Varint(m) == out + Varint(n)
      decreases m
    {
      Assoc(r, [m % 128 + 128], Varint(m / 128));
      r := r + [m % 128 + 128];
      m := m / 128;
    }
    r := r + [m];
  }

  // ------------------------------------------------------------------ fields

  function Concat(items: seq<bytes>): bytes {
    if items == [] then [] else items[0] + Concat(items[1..])
  }

  function Encode(f: Field): bytes {
    match f
    case Raw(b) => b
    case Text(b) => Varint(|b|) + b
    case Optional(_, v) => (match v case None => [1] case Some(b) => [0] + b)
    case List(_, items) => Varint(|items|) + Concat(items)
  }

  function Take(input: bytes, n: nat): Option<(bytes, bytes)> {
    if n <= |input| then Some((input[..n], input[n..])) else None
  }

  function TakeItems(input: bytes, width: nat, count: nat): Option<(seq<bytes>, bytes)>
    decreases count
  {
    if count == 0 then Some(([], input))
    else match Take(input, width)
         case None => None
         case Some((item, rest)) =>
           match TakeItems(rest, width, count - 1)
           case None => None
           case Some((items, tail)) => Some(([item] + items, tail))
  }

  function Decode(k: Kind, input: bytes): Option<(Field, bytes)> {
    match k
    case Fixed(w) =>
      (match Take(input, w) case None => None case Some((b, rest)) => Some((Raw(b), rest)))
    case Str =>
      (match ReadVarint(input)
       case None => None
       case Some((n, more)) =>
         match Take(more, n) case None => None case Some((b, rest)) => Some((Text(b), rest)))
    case Nullable(w) =>
      if input == [] then None
      else if input[0] != 0 then Some((Optional(w, None), input[1..]))
      else (match Take(input[1..], w) case None => None case Some((b, rest)) => Some((Optional(w, Some(b)), rest)))
    case Array(w) =>
      (match ReadVarint(input)
       case None => None
       case Some((n, more)) =>
         match TakeItems(more, w, n) case None => None case Some((items, rest)) => Some((List(w, items), rest)))
  }

  lemma {:induction false} ItemsRoundTrip(items: seq<bytes>, width: nat, rest: bytes)
    requires forall i :: 0 <= i < |items| ==> |items[i]| == width
    ensures TakeItems(Concat(items) + rest, width, |items|) == Some((items, rest))
  {
    if items == [] {
      assert [] + rest == rest;
    } else {
      var more := Concat(items[1..]) + rest;
      ItemsRoundTrip(items[1..], width, rest);
      Assoc(items[0], Concat(items[1..]), rest);
      SplitAt(items[0], more);
      assert items == [items[0]] + items[1..];
    }
  }

  /** A field is read back by its kind alone, whatever follows it. */
  lemma FieldRoundTrip(f: Field, rest: bytes)
    requires Fits(f)
    ensures Decode(KindOf(f), Encode(f) + rest) == Some((f, rest))
  {
    match f
    case Raw(b) =>
      SplitAt(b, rest);
    case Text(b) =>
      Assoc(Varint(|b|), b, rest);
      VarintRoundTrip(|b|, b + rest);
      SplitAt(b, rest);
    case Optional(_, None) =>
      SplitAt([1], rest);
    case Optional(_, Some(b)) =>
      Assoc([0], b, rest);
      SplitAt([0], b + rest);
      SplitAt(b, rest);
    case List(w, items) =>
      Assoc(Varint(|items|), Concat(items), rest);
      VarintRoundTrip(|items|, Concat(items) + rest);
      ItemsRoundTrip(items, w, rest);
  }

  // -------------------------------------------------------------------- rows

  function SchemaOf(row: seq<Field>): (schema: seq<Kind>)
    ensures |schema| == |row|
    ensures forall i :: 0 <= i < |row| ==> schema[i] == KindOf(row[i])
  {
    seq(|row|, i requires 0 <= i < |row| => KindOf(row[i]))
  }

  predicate AllFit(row: seq<Field>) {
    forall i :: 0 <= i < |row| ==> Fits(row[i])
  }

  function EncodeRow(row: seq<Field>): bytes {
    if row == [] then [] else Encode(row[0]) + EncodeRow(row[1..])
  }

  function DecodeRow(schema: seq<Kind>, input: bytes): Option<(seq<Field>, bytes)> {
    if schema == [] then Some(([], input))
    else match Decode(schema[0], input)
         case None => None
         case Some((f, more)) =>
           match DecodeRow(schema[1..], more)
           case None => None
           case Some((fs, rest)) => Some(([f] + fs, rest))
  }

  /** A row is read back by its schema alone, whatever follows it. */
  lemma {:induction false} RowRoundTrip(row: seq<Field>, rest: bytes)
    requires AllFit(row)
    ensures DecodeRow(SchemaOf(row), EncodeRow(row) + rest) == Some((row, rest))
  {
    if row == [] {
      assert [] + rest == rest;
    } else {
      var more := EncodeRow(row[1..]) + rest;
      Assoc(Encode(row[0]), EncodeRow(row[1..]), rest);
      FieldRoundTrip(row[0], more);
      RowRoundTrip(row[1..], rest);
      SchemaTail(row);
      assert row == [row[0]] + row[1..];
    }
  }

  lemma SchemaTail(row: seq<Field>)
    requires row != []
    ensures SchemaOf(row)[0] == KindOf(row[0]) && SchemaOf(row)[1..] == SchemaOf(row[1..])
  {
  }

  /** One more field at the end of a row. */
  lemma {:induction false} RowPush(row: seq<Field>, f: Field)
    ensures EncodeRow(row + [f]) == EncodeRow(row) + Encode(f)
  {
    if row == [] {
      assert Encode(f) + [] == Encode(f) == [] + Encode(f);
    } else {
      RowPush(row[1..], f);
      assert (row + [f])[1..] == row[1..] + [f];
      Assoc(Encode(row[0]), EncodeRow(row[1..]), Encode(f));
    }
  }

  // ------------------------------------------------------------------ writing

  /** The output vector of the encoder, with the fields written so far. */
  class RowWriter {
    var out: bytes
    ghost var before: bytes
    ghost var row: seq<Field>

    ghost predicate Valid()
      reads this
    {
      out == before + EncodeRow(row)
    }

    constructor (out: bytes)
      ensures Valid() && row == [] && before == out
    {
      this.out, before, row := out, out, [];
    }

    /** `b` is the encoding of the next field. */
    method Push(ghost f: Field, b: bytes)
      requires Valid() && b == Encode(f)
      modifies this
      ensures Valid() && before == old(before) && row == old(row) + [f]
    {
      RowPush(row, f);
      Assoc(before, EncodeRow(row), b);
      out := out + b;
      row := row + [f];
    }

    method WriteRaw(b: bytes)
      requires Valid()
      modifies this
      ensures Valid() && before == old(before) && row == old(row) + [Raw(b)]
    {
      Push(Raw(b), b);
    }

    method WriteText(value: bytes)
      requires Valid()
      modifies this
      ensures Valid() && before == old(before) && row == old(row) + [Text(value)]
    {
      var b := WriteVarint([], |value|);
      Push(Text(value), b + value);
    }

    method WriteOptional(ghost width: nat, value: Option<bytes>)
      requires Valid()
      modifies this
      ensures Valid() && before == old(before) && row == old(row) + [Optional(width, value)]
    {
      match value
      case None => Push(Optional(width, None), [1]);
      case Some(b) => Push(Optional(width, Some(b)), [0] + b);
    }

    /** A length prefix, then the items one by one. */
    method WriteList(ghost width: nat, items: seq<bytes>)
      requires Valid()
      modifies this
      ensures Valid() && before == old(before) && row == old(row) + [List(width, items)]
    {
      var b := WriteVarint([], |items|);
      var i := 0;
      while i < |items|
        invariant 0 <= i <= |items|
        invariant b + Concat(items[i..]) == Varint(|items|) + Concat(items)
        invariant Valid() && before == old(before) && row == old(row)
      {
        Assoc(b, items[i], Concat(items[i + 1..]));
        b := b + items[i];
        i := i + 1;
      }
      Push(List(width, items), b);
    }
  }
}
