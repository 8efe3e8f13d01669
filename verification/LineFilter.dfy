/** The line-buffering output filters of the command line client (`| include`, `| exclude`, `| begin`, `| count`). */
module LineFilter {
  import opened Prelude

  datatype PipeOp = Include | Exclude | Begin | Count

  /** Lossy UTF-8 decoding and lower-casing, which the filter only calls. */
  datatype Text = Text(lossy: bytes -> string, lower: string -> string)

  datatype Pipe = Pipe(op: PipeOp, pattern: string)

  predicate StandsAt(s: string, part: string, i: nat) {
    i + |part| <= |s| && s[i..i + |part|] == part
  }

  predicate Contains(s: string, part: string) {
    exists i :: 0 <= i <= |s| && StandsAt(s, part, i)
  }

  predicate Hit(t: Text, p: Pipe, line: bytes) {
    Contains(t.lower(t.lossy(line)), t.lower(p.pattern))
  }

  // ---------------------------------------------------------- specification

  /** What follows the last line feed. */
  function Tail(input: bytes): bytes {
    if input == [] || input[|input| - 1] == LF then [] else Tail(input[..|input| - 1]) + [input[|input| - 1]]
  }

  /** The lines that a line feed ended. */
  function Ended(input: bytes): seq<bytes> {
    if input == [] then []
    else if input[|input| - 1] == LF then Ended(input[..|input| - 1]) + [Tail(input[..|input| - 1])]
    else Ended(input[..|input| - 1])
  }

  /** All lines of a finished input; an unterminated last one counts unless it is empty. */
  function Lines(input: bytes): seq<bytes> {
    Ended(input) + if Tail(input) == [] then [] else [Tail(input)]
  }

  /** Whether line `i` passes: by its own content, or for `begin` by any line up to it. */
  predicate Passes(t: Text, p: Pipe, lines: seq<bytes>, i: nat)
    requires i < |lines|
  {
    match p.op
    case Include => Hit(t, p, lines[i])
    case Exclude => !Hit(t, p, lines[i])
    case Begin => exists k :: 0 <= k <= i && Hit(t, p, lines[k])
    case Count => false
  }

  /** The passing lines among the first `n`, each with a line feed, in order. */
  function Printed(t: Text, p: Pipe, lines: seq<bytes>, n: nat): bytes
    requires n <= |lines|
  {
    if n == 0 then []
    else Printed(t, p, lines, n - 1) + if Passes(t, p, lines, n - 1) then lines[n - 1] + [LF] else []
  }

  function Digits(n: nat): bytes {
    if n < 10 then [48 + n] else Digits(n / 10) + [48 + n % 10]
  }

  const TALLY: string := "Number of lines which match: "

  function Tally(n: nat): bytes {
    seq(|TALLY|, i requires 0 <= i < |TALLY| => if TALLY[i] < '\U{80}' then TALLY[i] as int as byte else 63)
      + Digits(n) + [LF]
  }

  function Output(t: Text, p: Pipe, input: bytes): bytes {
    var lines := Lines(input);
    Printed(t, p, lines, |lines|) + if p.op == Count then Tally(|lines|) else []
  }

  function Rejoin(lines: seq<bytes>): bytes {
    if lines == [] then [] else Rejoin(lines[..|lines| - 1]) + lines[|lines| - 1] + [LF]
  }

  /** The lines are the input: put together again they give it back, and none holds a line feed. */
  lemma {:induction false} LinesAreTheInput(input: bytes)
    ensures Rejoin(Ended(input)) + Tail(input) == input
    ensures LF !in Tail(input) && forall i :: 0 <= i < |Ended(input)| ==> LF !in Ended(input)[i]
  {
    if input != [] {
      var init, last := input[..|input| - 1], input[|input| - 1];
      LinesAreTheInput(init);
      assert input == init + [last];
      if last == LF {
        assert Ended(input)[..|Ended(init)|] == Ended(init);
        assert Rejoin(Ended(init)) + Tail(init) + [LF] == input;
      } else {
        Assoc(Rejoin(Ended(init)), Tail(init), [last]);
      }
    }
  }

  /** Lines printed so far do not depend on the lines that follow. */
  lemma {:induction false} PrintedPrefix(t: Text, p: Pipe, lines: seq<bytes>, more: seq<bytes>, n: nat)
    requires n <= |lines|
    ensures Printed(t, p, lines + more, n) == Printed(t, p, lines, n)
  {
    if n > 0 {
      PrintedPrefix(t, p, lines, more, n - 1);
      var all := lines + more;
      assert all[n - 1] == lines[n - 1];
      assert forall k :: 0 <= k < n ==> all[k] == lines[k];
      assert Passes(t, p, all, n - 1) == Passes(t, p, lines, n - 1) by {
        if p.op == Begin && Passes(t, p, all, n - 1) {
          var k :| 0 <= k <= n - 1 && Hit(t, p, all[k]);
          assert Hit(t, p, lines[k]);
        }
      }
    }
  }

  // ------------------------------------------------------------ what is counted

  function Matching(t: Text, p: Pipe, lines: seq<bytes>, n: nat): nat
    requires n <= |lines|
  {
    if n == 0 then 0 else Matching(t, p, lines, n - 1) + if Hit(t, p, lines[n - 1]) then 1 else 0
  }

  lemma {:induction false} MatchesAmong(t: Text, p: Pipe, lines: seq<bytes>, n: nat)
    requires n <= |lines|
    ensures Matching(t, p, lines, n) <= n
    ensures Matching(t, p, lines, n) == n <==> forall i :: 0 <= i < n ==> Hit(t, p, lines[i])
  {
    if n > 0 {
      MatchesAmong(t, p, lines, n - 1);
    }
  }

  function FromDigits(b: bytes): int {
    if b == [] then 0 else 10 * FromDigits(b[..|b| - 1]) + b[|b| - 1] - 48
  }

  lemma {:induction false} DigitsRoundTrip(n: nat)
    ensures FromDigits(Digits(n)) == n
  {
    if n >= 10 {
      DigitsRoundTrip(n / 10);
      assert Digits(n)[..|Digits(n)| - 1] == Digits(n / 10);
    }
  }

  /** Different counts are announced by different lines. */
  lemma TallyIsInjective(m: nat, n: nat)
    requires Tally(m) == Tally(n)
    ensures m == n
  {
    var k := |TALLY|;
    assert Tally(m)[k..|Tally(m)| - 1] == Digits(m);
    assert Tally(n)[k..|Tally(n)| - 1] == Digits(n);
    DigitsRoundTrip(m);
    DigitsRoundTrip(n);
  }

  lemma {:induction false} CountPrintsNothing(t: Text, p: Pipe, lines: seq<bytes>, n: nat)
    requires p.op == Count && n <= |lines|
    ensures Printed(t, p, lines, n) == []
  {
    if n > 0 {
      CountPrintsNothing(t, p, lines, n - 1);
    }
  }

  /** `| count` announces the number of matching lines exactly when every line matches: it counts them all. */
  lemma CountIsRightExactlyWhen(t: Text, p: Pipe, input: bytes)
    requires p.op == Count
    ensures var lines := Lines(input);
      Output(t, p, input) == Tally(Matching(t, p, lines, |lines|)) <==> forall i :: 0 <= i < |lines| ==> Hit(t, p, lines[i])
  {
    var lines := Lines(input);
    CountPrintsNothing(t, p, lines, |lines|);
    MatchesAmong(t, p, lines, |lines|);
    assert Output(t, p, input) == Tally(|lines|);
    if Output(t, p, input) == Tally(Matching(t, p, lines, |lines|)) {
      TallyIsInjective(|lines|, Matching(t, p, lines, |lines|));
    }
  }

  /** One line that does not hold the pattern is announced as one match. */
  lemma CountIsWrong() returns (t: Text, p: Pipe, input: bytes)
    ensures p.op == Count && Lines(input) == [[97]] && !Hit(t, p, [97])
    ensures Output(t, p, input) == Tally(1) != Tally(Matching(t, p, Lines(input), 1))
  {
    t, p, input := Text(_ => "a", s => s), Pipe(Count, "b"), [97, LF];
    assert input[..1] == [97] && input[..1][..0] == [];
    assert Tail([97]) == [97] && Ended([97]) == [];
    assert Lines(input) == [[97]];
    forall i | 0 <= i <= 1 ensures !StandsAt("a", "b", i) {
      if i == 0 {
        assert "a"[0..1][0] == 'a';
      }
    }
    CountPrintsNothing(t, p, [[97]], 1);
    CountIsRightExactlyWhen(t, p, input);
    assert !Hit(t, p, Lines(input)[0]);
  }

  // -------------------------------------------------------------- the filter

  class Filter {
    const t: Text
    const p: Pipe
    var out: bytes
    var buf: bytes
    var begun: bool
    var count: nat
    ghost var fed: bytes          // everything written so far
    ghost var emitted: seq<bytes> // every line looked at so far

    /** The lines looked at are accounted for, printed or counted. */
    ghost predicate Consistent()
      reads this
    {
      && out == Printed(t, p, emitted, |emitted|)
      && (p.op == Begin ==> (begun <==> exists k :: 0 <= k < |emitted| && Hit(t, p, emitted[k])))
      && (p.op == Count ==> count == |emitted|)
    }

    ghost predicate Valid()
      reads this
    {
      Consistent() && emitted == Ended(fed) && buf == Tail(fed)
    }

    constructor (t: Text, p: Pipe)
      ensures Valid() && fed == [] && this.t == t && this.p == p
    {
      this.t, this.p := t, p;
      out, buf, begun, count := [], [], false, 0;
      fed, emitted := [], [];
    }

    method Keep(line: bytes) returns (keep: bool)
      requires Consistent()
      modifies this`begun, this`count, this`emitted
      ensures emitted == old(emitted) + [line]
      ensures keep == Passes(t, p, emitted, |old(emitted)|)
      ensures p.op == Begin ==> (begun <==> exists k :: 0 <= k < |emitted| && Hit(t, p, emitted[k]))
      ensures p.op == Count ==> count == |emitted|
    {
      ghost var before := emitted;
      emitted := emitted + [line];
      assert forall k :: 0 <= k < |before| ==> emitted[k] == before[k];
      var hit := Hit(t, p, line);
      match p.op
      case Include => keep := hit;
      case Exclude => keep := !hit;
      case Begin =>
        if !begun && hit {
          begun := true;
        }
        keep := begun;
        assert hit ==> Hit(t, p, emitted[|before|]);
      case Count =>
        count := count + 1;
        keep := false;
    }

    method EmitLine(line: bytes)
      requires Consistent()
      modifies this`begun, this`count, this`emitted, this`out
      ensures Consistent() && emitted == old(emitted) + [line]
    {
      ghost var before := emitted;
      var keep := Keep(line);
      PrintedPrefix(t, p, before, [line], |before|);
      if keep {
        out := out + (line + [LF]);
      }
    }

    method Write(data: bytes)
      requires Valid()
      modifies this
      ensures Valid() && fed == old(fed) + data
    {
      assert old(fed) + data[..0] == old(fed);
      for i := 0 to |data|
        invariant Valid() && fed == old(fed) + data[..i]
      {
        var byte := data[i];
        ghost var next := fed + [byte];
        assert next[..|fed|] == fed;
        assert old(fed) + data[..i + 1] == next;
        if byte == LF {
          var line := buf;
          buf := [];
          EmitLine(line);
        } else {
          buf := buf + [byte];
        }
        fed := next;
      }
      assert data[..|data|] == data;
    }

    /** After `finish` the output is the specification's, a function of everything written and nothing else. */
    method Finish() returns (result: bytes)
      requires Valid()
      modifies this
      ensures result == Output(t, p, old(fed))
    {
      if buf != [] {
        var line := buf;
        buf := [];
        EmitLine(line);
      }
      assert emitted == Lines(fed);
      if p.op == Count {
        out := out + Tally(count);
      }
      return out;
    }
  }

  function Concat(writes: seq<bytes>): bytes {
    if writes == [] then [] else Concat(writes[..|writes| - 1]) + writes[|writes| - 1]
  }

  /** However the input is split into writes, the result is that of the whole input. */
  method FilterAll(t: Text, p: Pipe, writes: seq<bytes>) returns (result: bytes)
    ensures result == Output(t, p, Concat(writes))
  {
    var f := new Filter(t, p);
    assert writes[..0] == [];
    for i := 0 to |writes|
      invariant f.Valid() && f.t == t && f.p == p && f.fed == Concat(writes[..i])
    {
      assert writes[..i + 1][..i] == writes[..i];
      f.Write(writes[i]);
    }
    assert writes[..|writes|] == writes;
    result := f.Finish();
  }
}
