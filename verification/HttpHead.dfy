/** The header loop of `Response::read`, which chooses how the body is framed. */
module HttpHead {
  import opened Prelude
  import opened HttpText
  import opened HttpBody

  function Lower(c: char): char {
    if 'A' <= c <= 'Z' then (c as int + 32) as char else c
  }

  predicate SameIgnoringCase(a: string, b: string) {
    |a| == |b| && forall i :: 0 <= i < |a| ==> Lower(a[i]) == Lower(b[i])
  }

  /** `split_once(':')`, with the value trimmed. */
  function SplitHeader(line: string): Option<(string, string)> {
    var name := Before(line, ':');
    if |name| < |line| then Some((name, Trim(line[|name| + 1..]))) else None
  }

  predicate IsDigits(s: string) {
    forall i :: 0 <= i < |s| ==> '0' <= s[i] <= '9'
  }

  function DecimalValue(s: string): nat
    requires IsDigits(s)
  {
    if s == [] then 0 else 10 * DecimalValue(s[..|s| - 1]) + (s[|s| - 1] as int - '0' as int)
  }

  /** `str::parse::<usize>` on a 64-bit target. */
  function ParseDecimal(s: string): Option<nat> {
    var digits := if |s| > 1 && s[0] == '+' then s[1..] else s;
    if digits == [] || !IsDigits(digits) || DecimalValue(digits) >= U64 then None else Some(DecimalValue(digits))
  }

  predicate SaysChunked(line: string) {
    match SplitHeader(line)
    case None => false
    case Some(h) => SameIgnoringCase(h.0, "transfer-encoding") && SameIgnoringCase(h.1, "chunked")
  }

  /** The length that a usable Content-Length header gives. */
  function SaysLength(line: string): Option<nat> {
    match SplitHeader(line)
    case None => None
    case Some(h) => if SameIgnoringCase(h.0, "content-length") then ParseDecimal(h.1) else None
  }

  function LastLength(lines: seq<string>): Option<nat> {
    if lines == [] then None
    else if SaysLength(lines[|lines| - 1]).Some? then SaysLength(lines[|lines| - 1])
    else LastLength(lines[..|lines| - 1])
  }

  /** Transfer-Encoding wins wherever it stands (section 6.3 of RFC 9112), then the last usable length. */
  ghost function FramingOf(lines: seq<string>): Framing {
    if exists i :: 0 <= i < |lines| && SaysChunked(lines[i]) then Chunked
    else match LastLength(lines)
         case Some(n) => Length(n)
         case None => Eof
  }

  /** The header lines up to the empty one, and what follows it. */
  function HeadLines(u: Utf8, input: bytes): Option<(seq<string>, bytes)>
    decreases |input|
  {
    match NextLine(u, input)
    case NoLine => None
    case BadLine => None
    case Text(text, n) =>
      var line := TrimEnd(text);
      if line == [] then Some(([], input[n..]))
      else match HeadLines(u, input[n..])
           case None => None
           case Some(t) => Some(([line] + t.0, t.1))
  }

  /** The loop: it keeps one framing and revises it line by line. */
  method ReadHead(u: Utf8, input: bytes) returns (framing: Option<Framing>, rest: bytes)
    ensures framing.Some? <==> HeadLines(u, input).Some?
    ensures framing.Some? ==>
      rest == HeadLines(u, input).value.1 && framing.value == FramingOf(HeadLines(u, input).value.0)
  {
    var current := Eof;
    rest := input;
    ghost var seen: seq<string> := [];
    assert HeadLines(u, input).Some? ==> seen + HeadLines(u, input).value.0 == HeadLines(u, input).value.0;
    while true
      invariant HeadLines(u, input).Some? <==> HeadLines(u, rest).Some?
      invariant HeadLines(u, rest).Some? ==>
        HeadLines(u, input).value == (seen + HeadLines(u, rest).value.0, HeadLines(u, rest).value.1)
      invariant current == FramingOf(seen)
      decreases |rest|
    {
      var next := NextLine(u, rest);
      if !next.Text? {
        return None, rest;
      }
      var line := TrimEnd(next.text);
      rest := rest[next.length..];
      if line == [] {
        assert seen + [] == seen;
        return Some(current), rest;
      }
      FramingGrows(seen, line);
      if SaysChunked(line) {
        current := Chunked;
      } else if SaysLength(line).Some? && current != Chunked {
        current := Length(SaysLength(line).value);
      }
      if HeadLines(u, rest).Some? {
        Assoc(seen, [line], HeadLines(u, rest).value.0);
      }
      seen := seen + [line];
    }
  }

  lemma FramingGrows(lines: seq<string>, line: string)
    ensures FramingOf(lines + [line]) ==
      if SaysChunked(line) then Chunked
      else if SaysLength(line).Some? && FramingOf(lines) != Chunked then Length(SaysLength(line).value)
      else FramingOf(lines)
  {
    var all := lines + [line];
    assert all[..|lines|] == lines;
    assert all[|lines|] == line;
    if exists i :: 0 <= i < |lines| && SaysChunked(lines[i]) {
      var i :| 0 <= i < |lines| && SaysChunked(lines[i]);
      assert SaysChunked(all[i]);
    } else if !SaysChunked(line) {
      assert forall i :: 0 <= i < |all| ==> !SaysChunked(all[i]);
    }
  }
}
