/**
 The incremental body decoder: `Response::read`, `read_chunked` and `truncated`.
 `Rest` says what is still to be delivered from a state; each read delivers a
 part of it, whatever the size of the buffer and however short the read.
 */
module HttpBody {
  import opened Prelude
  import opened HttpText

  datatype Framing = Chunked | Length(n: nat) | Eof

  datatype End = Complete | Cut | Malformed

  datatype Outcome = Outcome(data: bytes, end: End)

  /** What stands where a line of the chunked framing is expected. */
  datatype Line = NoLine | BadLine | Text(text: string, length: nat)

  function NextLine(u: Utf8, input: bytes): (line: Line)
    ensures line.Text? ==> 0 < line.length <= |input|
  {
    if input == [] then NoLine else
    var n := LineLength(input);
    match u.decode(input[..n])
    case None => BadLine
    case Some(text) => Text(text, n)
  }

  function Prepend(data: bytes, o: Outcome): Outcome {
    Outcome(data + o.data, o.end)
  }

  /** From a chunk header on. */
  function FromHeader(u: Utf8, input: bytes): Outcome
    decreases |input|
  {
    match NextLine(u, input)
    case NoLine => Outcome([], Cut)
    case BadLine => Outcome([], Malformed)
    case Text(text, n) =>
      match ParseChunkSize(text)
      case None => Outcome([], Malformed)
      case Some(size) => if size == 0 then Outcome([], Complete) else FromData(u, input[n..], size)
  }

  /** From within a chunk of which `size` bytes are due. */
  function FromData(u: Utf8, input: bytes, size: nat): Outcome
    requires size > 0
    decreases |input|
  {
    if |input| < size then Outcome(input, Cut)
    else Prepend(input[..size], FromCrlf(u, input[size..]))
  }

  /** From the line end that closes a chunk. */
  function FromCrlf(u: Utf8, input: bytes): Outcome
    decreases |input|
  {
    match NextLine(u, input)
    case NoLine => Outcome([], Cut)
    case BadLine => Outcome([], Malformed)
    case Text(_, n) => FromHeader(u, input[n..])
  }

  /** Everything that reading to the end delivers from a given state of the decoder. */
  function Rest(u: Utf8, framing: Framing, input: bytes, remaining: nat, seenChunk: bool): Outcome {
    match framing
    case Eof => Outcome(input, Complete)
    case Length(_) =>
      if remaining <= |input| then Outcome(input[..remaining], Complete) else Outcome(input, Cut)
    case Chunked =>
      if remaining > 0 then FromData(u, input, remaining)
      else if seenChunk then FromCrlf(u, input)
      else FromHeader(u, input)
  }

  class Response {
    const u: Utf8
    const framing: Framing
    var input: bytes      // what the connection has still to give before it ends
    var remaining: nat
    var seenChunk: bool
    var done: bool
    var truncated: bool

    constructor (u: Utf8, framing: Framing, body: bytes)
      ensures this.u == u && this.framing == framing
      ensures input == body && remaining == (if framing.Length? then framing.n else 0)
      ensures !seenChunk && !done && !truncated && Valid()
    {
      this.u, this.framing, input := u, framing, body;
      remaining := if framing.Length? then framing.n else 0;
      seenChunk, done, truncated := false, false, false;
    }

    /** Data is due only after a chunk header; an unfinished body is not marked as cut. */
    ghost predicate Valid()
      reads this
    {
      && (framing == Chunked && remaining > 0 ==> seenChunk)
      && (truncated ==> done)
    }

    function Pending(): Outcome
      reads this
    {
      Rest(u, framing, input, remaining, seenChunk)
    }

    /** One read of the connection into `cap` bytes: a part of what is there, nothing only at its end. */
    method Fill(cap: nat) returns (data: bytes)
      requires cap > 0
      modifies this`input
      ensures |data| <= cap && old(input) == data + input
      ensures data == [] <==> old(input) == []
    {
      if input == [] {
        return [];
      }
      var n: nat :| 0 < n <= cap && n <= |input|;
      data := input[..n];
      assert input == input[..n] + input[n..];
      input := input[n..];
    }

    method ReadLine() returns (line: Line)
      modifies this`input
      ensures line == NextLine(u, old(input))
      ensures line.Text? ==> input == old(input)[line.length..]
      ensures line.NoLine? ==> input == old(input)
    {
      line := NextLine(u, input);
      input := input[LineLength(input)..];
    }

    /** Brings the decoder to the data of a chunk, or to the end. */
    method NextChunk() returns (ok: bool)
      requires framing == Chunked && remaining == 0 && !done && Valid()
      modifies this
      ensures ok ==> Valid()
      ensures !ok ==> old(Pending()) == Outcome([], Malformed)
      ensures ok && done ==> old(Pending()) == Outcome([], if truncated then Cut else Complete)
      ensures ok && !done ==>
        !truncated && remaining > 0 && |input| < |old(input)| && old(Pending()) == Pending()
    {
      if seenChunk {
        var crlf := ReadLine();
        if crlf == BadLine {
          return false;
        }
        if crlf == NoLine {
          done, truncated := true, true;
          return true;
        }
      }
      assert old(Pending()) == FromHeader(u, input);
      var header := ReadLine();
      if header == BadLine {
        return false;
      }
      if header == NoLine {
        done, truncated := true, true;
        return true;
      }
      seenChunk := true;
      var size := ParseChunkSize(header.text);
      if size == None {
        return false;
      }
      if size.value == 0 {
        done := true;
        return true;
      }
      remaining := size.value;
      return true;
    }

    /** Delivers a part of the `remaining` bytes, or finds that they are missing. */
    method ReadCounted(cap: nat) returns (data: bytes)
      requires cap > 0 && remaining > 0 && framing != Eof && !done && Valid()
      modifies this
      ensures Valid()
      ensures |data| <= cap && |input| == |old(input)| - |data|
      ensures data != [] ==> !done && !truncated && old(Pending()) == Prepend(data, Pending())
      ensures data == [] ==> done && truncated && old(Pending()) == Outcome([], Cut)
    {
      data := Fill(if cap < remaining then cap else remaining);
      if data == [] {
        done, truncated := true, true;
        return;
      }
      if framing == Chunked {
        SplitData(u, data, input, remaining);
      }
      remaining := remaining - |data|;
    }

    /**
     `Read::read`. No bytes means the end, which is then marked; any other
     result is the next part of what was pending.
     */
    method Read(cap: nat) returns (r: Option<bytes>)
      requires Valid()
      modifies this
      ensures r.Some? ==> Valid()
      ensures old(done) || cap == 0 ==>
        r == Some([]) && done == old(done) && truncated == old(truncated) && Pending() == old(Pending())
      ensures !old(done) && cap > 0 ==>
        match r
        case None => old(Pending()) == Outcome([], Malformed)
        case Some(data) =>
          && |data| <= cap
          && (data == [] ==> done && old(Pending()) == Outcome([], if truncated then Cut else Complete))
          && (data != [] ==>
                !done && !truncated && |input| < |old(input)| && old(Pending()) == Prepend(data, Pending()))
    {
      if done || cap == 0 {
        return Some([]);
      }
      match framing
      case Eof =>
        var data := Fill(cap);
        if data == [] {
          done := true;
        }
        return Some(data);
      case Length(_) =>
        if remaining == 0 {
          done := true;
          return Some([]);
        }
        var data := ReadCounted(cap);
        return Some(data);
      case Chunked =>
        if remaining == 0 {
          var ok := NextChunk();
          if !ok {
            return None;
          }
          if done {
            return Some([]);
          }
        }
        var data := ReadCounted(cap);
        return Some(data);
    }

    /**
     Reading to the end with any sequence of buffers delivers exactly what was
     pending at the start, and `truncated` tells the two ends apart.
     */
    method ReadToEnd(caps: nat -> nat) returns (ok: bool, data: bytes)
      requires !done && Valid() && forall i :: caps(i) > 0
      modifies this
      ensures data == old(Pending()).data
      ensures ok == (old(Pending()).end != Malformed)
      ensures ok ==> done && truncated == (old(Pending()).end == Cut)
    {
      data := [];
      var i := 0;
      while true
        invariant !done && Valid()
        invariant old(Pending()) == Prepend(data, Pending())
        decreases |input|
      {
        var part := Read(caps(i));
        if part == None {
          assert data + [] == data;
          return false, data;
        }
        if part.value == [] {
          assert data + [] == data;
          return true, data;
        }
        Assoc(data, part.value, Pending().data);
        data := data + part.value;
        i := i + 1;
      }
    }
  }

  /** A chunk read in two parts. */
  lemma SplitData(u: Utf8, a: bytes, b: bytes, size: nat)
    requires 0 < |a| <= size
    ensures FromData(u, a + b, size)
         == Prepend(a, if size == |a| then FromCrlf(u, b) else FromData(u, b, size - |a|))
  {
    var input := a + b;
    SplitAt(a, b);
    if size == |a| {
    } else if |input| < size {
    } else {
      var n := size - |a|;
      assert input[..size] == a + b[..n];
      assert input[size..] == b[n..];
      Assoc(a, b[..n], FromCrlf(u, b[n..]).data);
    }
  }
}
