/** Day 10: a CPU with one register X and two instructions. `noop` (any line
    with fewer than two words) takes one cycle; `addx v` takes two and adds v
    to X. The trace records (cycle, X) once per cycle, and the signal strength
    samples it at cycles 20, 60, 100, ... */
module Day10 {
  import opened Text

  /** A recorded (clock, register) pair. */
  type Entry = (nat, int)

  datatype CpuError =
    | UnknownInstr   // a two-word line that is not `addx`
    | BadValue       // an `addx` operand that is not an integer

  /** The instruction on a line: None for a `noop`, the operand for `addx`. */
  function Decode(line: string): Result<Option<int>, CpuError> {
    var cmd := Words(line);
    if |cmd| < 2 then Ok(None)
    else if cmd[0] != "addx" then Err(UnknownInstr)
    else
      match ParseInt(cmd[1])
      case None => Err(BadValue)
      case Some(v) => Ok(Some(v))
  }

  /** A line of fewer than two words is a `noop`; a longer one must be
      `addx` followed by an integer, and its first two words decide. */
  lemma DecodeCases(line: string)
    ensures Decode(line) == Ok(None) <==> |Words(line)| < 2
    ensures Decode(line) == Err(UnknownInstr) <==> |Words(line)| >= 2 && Words(line)[0] != "addx"
    ensures Decode(line) == Err(BadValue) <==>
              |Words(line)| >= 2 && Words(line)[0] == "addx" && ParseInt(Words(line)[1]).None?
    ensures forall v :: Decode(line) == Ok(Some(v)) <==>
              |Words(line)| >= 2 && Words(line)[0] == "addx" && ParseInt(Words(line)[1]) == Some(v)
  {
  }

  /** The operand an instruction adds to the register. */
  function Operand(op: Option<int>): int {
    match op
    case None => 0
    case Some(v) => v
  }

  /** The entries one instruction records, starting from `clock` and `register`:
      `addx` records the old register first and the new one in its second cycle. */
  function Entries(op: Option<int>, clock: nat, register: int): (e: seq<Entry>)
    ensures |e| == (if op.None? then 1 else 2)
    ensures forall j :: 0 <= j < |e| ==> e[j].0 == clock + j + 1
    ensures e[0].1 == register && e[|e| - 1].1 == register + Operand(op)
  {
    match op
    case None => [(clock + 1, register)]
    case Some(v) => [(clock + 1, register), (clock + 2, register + v)]
  }

  /** A line decoder; the trace is written for any decoder and used with
      `Decode`. */
  type Decoder = string -> Result<Option<int>, CpuError>

  /** The entries recorded for `lines` when the clock has reached `clock` and
      the register holds `register`. */
  function Run(lines: seq<string>, clock: nat, register: int, decode: Decoder): Result<seq<Entry>, CpuError>
    decreases |lines|
  {
    if lines == [] then Ok([])
    else
      match decode(lines[0])
      case Err(e) => Err(e)
      case Ok(op) =>
        var e := Entries(op, clock, register);
        Prefixed(e, Run(lines[1..], clock + |e|, register + Operand(op), decode))
  }

  /** The trace of a program: the clock starts at 0 and the register at 1. */
  function Cycles(lines: seq<string>): Result<seq<Entry>, CpuError> {
    Run(lines, 0, 1, Decode)
  }

  /** The cycles a program takes: one per `noop`, two per `addx`. */
  function Cost(lines: seq<string>, decode: Decoder): nat {
    if lines == [] then 0
    else (match decode(lines[0]) case Ok(Some(_)) => 2 case _ => 1) + Cost(lines[1..], decode)
  }

  /** The sum of all `addx` operands. */
  function Added(lines: seq<string>, decode: Decoder): int {
    if lines == [] then 0
    else (match decode(lines[0]) case Ok(op) => Operand(op) case _ => 0) + Added(lines[1..], decode)
  }

  /** The trace fails exactly at a bad line. */
  lemma {:induction false} RunFails(lines: seq<string>, clock: nat, register: int, decode: Decoder)
    ensures Run(lines, clock, register, decode).Err? <==> exists i :: 0 <= i < |lines| && decode(lines[i]).Err?
    decreases |lines|
  {
    if lines != [] {
      var d := decode(lines[0]);
      if d.Ok? {
        var e := Entries(d.value, clock, register);
        RunFails(lines[1..], clock + |e|, register + Operand(d.value), decode);
        if exists i :: 0 <= i < |lines| && decode(lines[i]).Err? {
          var i :| 0 <= i < |lines| && decode(lines[i]).Err?;
          assert lines[1..][i - 1] == lines[i];
        }
        if exists i :: 0 <= i < |lines[1..]| && decode(lines[1..][i]).Err? {
          var i :| 0 <= i < |lines[1..]| && decode(lines[1..][i]).Err?;
          assert lines[i + 1] == lines[1..][i];
        }
      }
    }
  }

  /** One entry per cycle, numbered one after the other from `clock + 1`. */
  lemma {:induction false} RunClocks(lines: seq<string>, clock: nat, register: int, decode: Decoder)
    ensures Run(lines, clock, register, decode).Ok? ==>
              var t := Run(lines, clock, register, decode).value;
              |t| == Cost(lines, decode) && forall j :: 0 <= j < |t| ==> t[j].0 == clock + j + 1
    decreases |lines|
  {
    if lines != [] {
      var d := decode(lines[0]);
      if d.Ok? {
        var e := Entries(d.value, clock, register);
        RunClocks(lines[1..], clock + |e|, register + Operand(d.value), decode);
      }
    }
  }

  /** The first entry holds the starting register and the last one the
      starting register plus every operand. */
  lemma {:induction false} RunRegisters(lines: seq<string>, clock: nat, register: int, decode: Decoder)
    ensures Run(lines, clock, register, decode).Ok? && lines != [] ==>
              var t := Run(lines, clock, register, decode).value;
              t != [] && t[0].1 == register && t[|t| - 1].1 == register + Added(lines, decode)
    decreases |lines|
  {
    if lines != [] {
      var d := decode(lines[0]);
      if d.Ok? {
        var e := Entries(d.value, clock, register);
        var c, g := clock + |e|, register + Operand(d.value);
        RunRegisters(lines[1..], c, g, decode);
        if lines[1..] == [] {
          assert Run(lines[1..], c, g, decode) == Ok([]);
          assert Added(lines[1..], decode) == 0;
        }
      }
    }
  }

  /** The recorded clock values are exactly 1, 2, ..., Cost(lines), and the
      register starts at 1 and ends at 1 plus all the operands. */
  lemma CyclesShape(lines: seq<string>)
    ensures Cycles(lines).Err? <==> exists i :: 0 <= i < |lines| && Decode(lines[i]).Err?
    ensures Cycles(lines).Ok? ==>
              var t := Cycles(lines).value;
              |t| == Cost(lines, Decode) && (forall j :: 0 <= j < |t| ==> t[j].0 == j + 1) &&
              (lines != [] ==> t[0].1 == 1 && t[|t| - 1].1 == 1 + Added(lines, Decode))
  {
    RunFails(lines, 0, 1, Decode);
    RunClocks(lines, 0, 1, Decode);
    RunRegisters(lines, 0, 1, Decode);
  }

  /** What one decoded line does from `clock` and `register`: the entries it
      records and the new clock and register, or its error. */
  function Advance(d: Result<Option<int>, CpuError>, clock: nat, register: int): Result<(seq<Entry>, nat, int), CpuError> {
    match d
    case Err(e) => Err(e)
    case Ok(op) =>
      var e := Entries(op, clock, register);
      Ok((e, clock + |e|, register + Operand(op)))
  }

  /** One line of the loop of `get_cycles`: the entries it pushes and the new
      clock and register, or the error it returns. */
  method Execute(line: string, clock: nat, register: int) returns (r: Result<(seq<Entry>, nat, int), CpuError>)
    ensures r == Advance(Decode(line), clock, register)
  {
    var cmd := Words(line);
    var k := clock + 1;
    var x := register;
    var pushed: seq<Entry> := [];
    if |cmd| >= 2 {
      if cmd[0] == "addx" {
        pushed := pushed + [(k, x)];
        k := k + 1;
        var value := ParseInt(cmd[1]);
        if value.None? {
          return Err(BadValue);
        }
        x := x + value.value;
        assert Decode(line) == Ok(Some(value.value));
      } else {
        return Err(UnknownInstr);
      }
    } else {
      assert Decode(line) == Ok(None);
    }
    pushed := pushed + [(k, x)];
    assert pushed == Entries(Decode(line).value, clock, register);
    return Ok((pushed, k, x));
  }

  /** Run takes the first line off the front. */
  lemma RunStep(lines: seq<string>, clock: nat, register: int, decode: Decoder)
    requires lines != []
    ensures Run(lines, clock, register, decode) ==
            match Advance(decode(lines[0]), clock, register)
            case Err(e) => Err(e)
            case Ok(s) => Prefixed(s.0, Run(lines[1..], s.1, s.2, decode))
  {
  }

  /** `get_cycles`. */
  method GetCycles(lines: seq<string>) returns (r: Result<seq<Entry>, CpuError>)
    ensures r == Cycles(lines)
  {
    var clock: nat := 0;
    var register := 1;
    var cycles: seq<Entry> := [];
    PrefixedTwice([], [], Cycles(lines));
    for i := 0 to |lines|
      invariant Cycles(lines) == Prefixed(cycles, Run(lines[i..], clock, register, Decode))
    {
      assert lines[i..][1..] == lines[i + 1..];
      assert lines[i..][0] == lines[i];
      RunStep(lines[i..], clock, register, Decode);
      var step := Execute(lines[i], clock, register);
      if step.Err? {
        return Err(step.error);
      }
      PrefixedTwice(cycles, step.value.0, Run(lines[i + 1..], step.value.1, step.value.2, Decode));
      cycles := cycles + step.value.0;
      clock, register := step.value.1, step.value.2;
    }
    assert lines[|lines|..] == [];
    assert cycles + [] == cycles;
    return Ok(cycles);
  }

  // ---------------------------------------------------------------- signal

  /** The filter of `signal_strength`: cycle 20, or 20 plus a multiple of 40.
      Rust's `%` truncates, but a zero remainder means divisibility either way. */
  predicate Sampled(clock: int) {
    clock == 20 || (clock - 20) % 40 == 0
  }

  /** One window `[state0, state1]`: the clock of the later entry times the
      register of the earlier one, when the later clock is sampled. */
  function WindowTerm(c: seq<Entry>, j: nat): int
    requires 1 <= j < |c|
  {
    if Sampled(c[j].0) then c[j].0 * c[j - 1].1 else 0
  }

  /** The sum over the windows ending before index `n`. */
  function WindowSum(c: seq<Entry>, n: nat): int
    requires n <= |c|
  {
    if n < 2 then 0 else WindowSum(c, n - 1) + WindowTerm(c, n - 1)
  }

  /** `signal_strength` on a trace. */
  function SignalStrength(c: seq<Entry>): int {
    WindowSum(c, |c|)
  }

  /** The puzzle's reading: cycle k times the register during cycle k, which
      is the value recorded at cycle k - 1, for k = 20, 60, 100, ... up to n. */
  function Strength(c: seq<Entry>, n: nat, k: nat): int
    requires n <= |c| && k >= 20
    decreases n - k + 40
  {
    if k > n then 0 else k * c[k - 2].1 + Strength(c, n, k + 40)
  }

  lemma {:induction false} StrengthExtend(c: seq<Entry>, n: nat, k: nat)
    requires 1 <= n <= |c| && k >= 20 && k % 40 == 20
    ensures Strength(c, n, k) ==
            Strength(c, n - 1, k) + (if k <= n && n % 40 == 20 then n * c[n - 2].1 else 0)
    decreases n - k + 40
  {
    if k <= n - 1 {
      StrengthExtend(c, n, k + 40);
    } else if k == n {
      assert Strength(c, n, k + 40) == 0;
    }
  }

  /** On a trace whose clocks are 1, 2, 3, ..., the windowed filter of
      `signal_strength` adds up exactly the samples at 20, 60, 100, ... */
  lemma {:induction false} WindowSumIsStrength(c: seq<Entry>, n: nat)
    requires n <= |c|
    requires forall j :: 0 <= j < |c| ==> c[j].0 == j + 1
    ensures WindowSum(c, n) == Strength(c, n, 20)
  {
    if n >= 2 {
      WindowSumIsStrength(c, n - 1);
      StrengthExtend(c, n, 20);
      assert c[n - 1].0 == n;
      SampledAt(n);
    }
  }

  lemma SampledAt(n: nat)
    ensures Sampled(n) <==> n >= 20 && n % 40 == 20
  {
    var q, r := n / 40, n % 40;
    assert n - 20 == 40 * q + (r - 20);
    if (n - 20) % 40 == 0 {
      assert r == 20;
    }
  }

  /** Part 1 (and part 2, which is the same computation). */
  method Part1(lines: seq<string>) returns (r: Result<int, CpuError>)
    ensures r.Err? <==> exists i :: 0 <= i < |lines| && Decode(lines[i]).Err?
    ensures r.Ok? ==> Cycles(lines).Ok? &&
                      r.value == Strength(Cycles(lines).value, |Cycles(lines).value|, 20)
  {
    var cycles := GetCycles(lines);
    CyclesShape(lines);
    if cycles.Err? {
      return Err(cycles.error);
    }
    WindowSumIsStrength(cycles.value, |cycles.value|);
    return Ok(SignalStrength(cycles.value));
  }
}
