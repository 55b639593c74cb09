/** Day 10: a one-register CPU that logs the register value of every clock
    cycle, and a 40x6 CRT that lights the pixel being drawn when the three-pixel
    sprite centred on the register covers it. */
module Day10 {
  import opened Wrappers
  import opened Text

  datatype Instruction = Noop | Addx(value: int)

  /** How many cycles an instruction takes. */
  function CycleLength(instruction: Instruction): nat {
    if instruction.Noop? then 1 else 2
  }

  /** `toString` of the two instruction classes. */
  function InstructionString(instruction: Instruction): string {
    match instruction
    case Noop => "noop"
    case Addx(v) => "addx " + ShowInt(v)
  }

  /** One line of the program: exactly `noop`, or `addx` followed by its
      operand as the second space-separated field; anything else is an error. */
  function ParseInstruction(line: string): (r: Result<Instruction>)
    ensures r.Ok? <==> (line == "noop" ||
      (StartsWith(line, "addx") && |Split(line, ' ')| >= 2 && ParseInt(Split(line, ' ')[1]).Some?))
    ensures r.Ok? && r.value.Noop? ==> line == "noop"
    ensures r.Ok? && r.value.Addx? ==> |Split(line, ' ')| >= 2 && ParseInt(Split(line, ' ')[1]) == Some(r.value.value)
  {
    if line == "noop" then Ok(Noop)
    else if StartsWith(line, "addx") then
      var fields := Split(line, ' ');
      if |fields| < 2 then Err("addx without an operand")
      else match ParseInt(fields[1])
        case Some(v) => Ok(Addx(v))
        case None => Err("addx operand is not a number: " + fields[1])
    else Err("Unsupported instruction: " + line)
  }

  /** Reading back a printed instruction gives the instruction. */
  lemma ParsePrintedInstruction(instruction: Instruction)
    ensures ParseInstruction(InstructionString(instruction)) == Ok(instruction)
  {
    if instruction.Addx? {
      var n := ShowInt(instruction.value);
      var line := InstructionString(instruction);
      assert line == "addx" + [' '] + n;
      assert line[..4] == "addx";
      SplitAtFirstSeparator("addx", ' ', n);
      assert ' ' !in n;
      SplitWithoutSeparator(n, ' ');
      ShowIntRoundTrip(instruction.value);
    }
  }

  /** `parseInstrunctions`: every line parsed, failing on the first bad one. */
  function ParseInstructions(lines: seq<string>): (r: Result<seq<Instruction>>)
    ensures r.Ok? <==> forall k :: 0 <= k < |lines| ==> ParseInstruction(lines[k]).Ok?
    ensures r.Ok? ==> |r.value| == |lines|
    ensures r.Ok? ==> forall k :: 0 <= k < |lines| ==> ParseInstruction(lines[k]) == Ok(r.value[k])
  {
    if lines == [] then Ok([])
    else match ParseInstruction(lines[0])
      case Err(e) => Err(e)
      case Ok(first) =>
        match ParseInstructions(lines[1..])
        case Err(e) => Err(e)
        case Ok(rest) => Ok([first] + rest)
  }

  datatype Cycle = Cycle(number: int, value: int)

  /** The cycles one instruction appends after the last logged cycle `last`: the
      register keeps its value for the first, and `addx` changes it after its second. */
  function NewCycles(last: Cycle, instruction: Instruction): (r: seq<Cycle>)
    ensures |r| == CycleLength(instruction)
  {
    match instruction
    case Noop => [Cycle(last.number + 1, last.value)]
    case Addx(v) => [Cycle(last.number + 1, last.value), Cycle(last.number + 2, last.value + v)]
  }

  /** The cycle log of a fresh CPU after running a program. */
  function Log(program: seq<Instruction>): (r: seq<Cycle>)
    ensures |r| >= 1
    decreases |program|
  {
    if program == [] then [Cycle(1, 1)]
    else
      var before := Log(program[..|program| - 1]);
      before + NewCycles(before[|before| - 1], program[|program| - 1])
  }

  /** Cycle k of a log (counting from 0) is numbered k + 1. */
  ghost predicate Numbered(cycles: seq<Cycle>) {
    forall k :: 0 <= k < |cycles| ==> cycles[k].number == k + 1
  }

  class Cpu {
    var cycles: seq<Cycle>
    var programCounter: nat

    ghost predicate Valid()
      reads this
    {
      |cycles| >= 1 && Numbered(cycles)
    }

    /** A fresh CPU has logged cycle 1 with the register at 1. */
    constructor ()
      ensures Valid() && cycles == [Cycle(1, 1)] && programCounter == 0
    {
      cycles := [Cycle(1, 1)];
      programCounter := 0;
    }

    function CycleCount(): nat
      reads this
    {
      |cycles|
    }

    /** The register value logged for a cycle number that has been logged. */
    function ValueAt(cycle: int): int
      reads this
      requires Valid() && 1 <= cycle <= |cycles|
    {
      cycles[cycle - 1].value
    }

    /** The signal strength: the cycle number times the register during it. */
    function SignalAt(cycle: int): int
      reads this
      requires Valid() && 1 <= cycle <= |cycles|
    {
      ValueAt(cycle) * cycle
    }

    /** `Cpu.execute`: logs the instruction's cycles and counts it. */
    method Execute(instruction: Instruction) returns (newCycles: seq<Cycle>)
      requires Valid()
      modifies this
      ensures Valid()
      ensures newCycles == NewCycles(old(cycles[|cycles| - 1]), instruction)
      ensures cycles == old(cycles) + newCycles
      ensures programCounter == old(programCounter) + 1
    {
      var last := cycles[|cycles| - 1];
      newCycles := [Cycle(last.number + 1, last.value)];
      if instruction.Addx? {
        newCycles := newCycles + [Cycle(last.number + 2, last.value + instruction.value)];
      }
      programCounter := programCounter + 1;
      cycles := cycles + newCycles;
    }
  }

  /** The sum of the `addx` operands of a program. */
  function SumAddx(program: seq<Instruction>): int {
    if program == [] then 0
    else (if program[0].Addx? then program[0].value else 0) + SumAddx(program[1..])
  }

  /** The number of cycles a program takes. */
  function TotalCycles(program: seq<Instruction>): nat {
    if program == [] then 0 else CycleLength(program[0]) + TotalCycles(program[1..])
  }

  /** The register during every cycle of a program started with the register at
      `x`: an instruction leaves it alone while it runs, and `addx` adds its
      operand once both its cycles are over. */
  function RegisterDuring(x: int, program: seq<Instruction>): (r: seq<int>)
    ensures |r| == TotalCycles(program)
    decreases |program|
  {
    if program == [] then []
    else
      match program[0]
      case Noop => [x] + RegisterDuring(x, program[1..])
      case Addx(v) => [x, x] + RegisterDuring(x + v, program[1..])
  }

  /** The register during cycle c of a program started from 1, for every cycle
      of the program and the one after it. */
  function Register(program: seq<Instruction>, c: int): int
    requires 1 <= c <= TotalCycles(program) + 1
  {
    (RegisterDuring(1, program) + [1 + SumAddx(program)])[c - 1]
  }

  lemma {:induction false} SumAddxAppend(program: seq<Instruction>, i: Instruction)
    ensures SumAddx(program + [i]) == SumAddx(program) + (if i.Addx? then i.value else 0)
    ensures TotalCycles(program + [i]) == TotalCycles(program) + CycleLength(i)
  {
    if program != [] {
      assert (program + [i])[1..] == program[1..] + [i];
      SumAddxAppend(program[1..], i);
    } else {
      assert [i][1..] == [];
    }
  }

  lemma {:induction false} RegisterDuringAppend(x: int, program: seq<Instruction>, i: Instruction)
    ensures RegisterDuring(x, program + [i]) ==
      RegisterDuring(x, program) + seq(CycleLength(i), _ => x + SumAddx(program))
    decreases |program|
  {
    if program == [] {
      assert [i][1..] == [];
    } else {
      var rest := program[1..];
      assert (program + [i])[1..] == rest + [i];
      var y := if program[0].Addx? then x + program[0].value else x;
      var tail := seq(CycleLength(i), _ => y + SumAddx(rest));
      assert seq(CycleLength(i), _ => x + SumAddx(program)) == tail;
      var head := if program[0].Addx? then [x, x] else [x];
      RegisterDuringAppend(y, rest, i);
      assert RegisterDuring(x, program + [i]) == head + RegisterDuring(y, rest + [i]);
      assert RegisterDuring(x, program) == head + RegisterDuring(y, rest);
      assert head + (RegisterDuring(y, rest) + tail) == (head + RegisterDuring(y, rest)) + tail;
    }
  }

  /** The CPU's log agrees with the cycle-by-cycle register: the value logged
      for cycle c is the register during cycle c, cycles are numbered from 1,
      and the log holds one entry per cycle plus one for the cycle after the
      program. */
  lemma {:induction false} LogIsRegister(program: seq<Instruction>)
    ensures |Log(program)| == TotalCycles(program) + 1
    ensures Numbered(Log(program))
    ensures forall c :: 1 <= c <= |Log(program)| ==> Log(program)[c - 1].value == Register(program, c)
    decreases |program|
  {
    if program != [] {
      var prefix, i := program[..|program| - 1], program[|program| - 1];
      assert program == prefix + [i];
      LogIsRegister(prefix);
      LogStep(prefix, i);
    }
  }

  /** One more instruction keeps the log in step with the register. */
  lemma LogStep(prefix: seq<Instruction>, i: Instruction)
    requires |Log(prefix)| == TotalCycles(prefix) + 1 && Numbered(Log(prefix))
    requires forall c :: 1 <= c <= |Log(prefix)| ==> Log(prefix)[c - 1].value == Register(prefix, c)
    ensures |Log(prefix + [i])| == TotalCycles(prefix + [i]) + 1
    ensures Numbered(Log(prefix + [i]))
    ensures forall c :: 1 <= c <= |Log(prefix + [i])| ==> Log(prefix + [i])[c - 1].value == Register(prefix + [i], c)
  {
    LogStepNumbered(prefix, i);
    LogStepValues(prefix, i);
  }

  lemma LogStepValues(prefix: seq<Instruction>, i: Instruction)
    requires |Log(prefix)| == TotalCycles(prefix) + 1
    requires forall c :: 1 <= c <= |Log(prefix)| ==> Log(prefix)[c - 1].value == Register(prefix, c)
    ensures |Log(prefix + [i])| == TotalCycles(prefix + [i]) + 1
    ensures forall k :: 0 <= k < |Log(prefix + [i])| ==>
      Log(prefix + [i])[k].value == (RegisterDuring(1, prefix + [i]) + [1 + SumAddx(prefix + [i])])[k]
  {
    var program := prefix + [i];
    assert program[..|program| - 1] == prefix;
    SumAddxAppend(prefix, i);
    RegisterDuringAppend(1, prefix, i);
    var before, after := Log(prefix), Log(program);
    var n, x, last := |before|, 1 + SumAddx(prefix), 1 + SumAddx(program);
    assert Register(prefix, n) == x;
    assert after == before + NewCycles(before[n - 1], i);
    var earlier := RegisterDuring(1, prefix);
    var block := seq(CycleLength(i), _ => 1 + SumAddx(prefix));
    var during := RegisterDuring(1, program) + [last];
    assert RegisterDuring(1, program) == earlier + block;
    assert |earlier| == n - 1;
    forall k | 0 <= k < |after|
      ensures after[k].value == during[k]
    {
      if k < n - 1 {
        assert after[k] == before[k];
        assert Register(prefix, k + 1) == earlier[k];
        assert during[k] == earlier[k];
      } else if k == n - 1 {
        assert after[k] == before[k];
        assert during[k] == block[0];
      } else if k == n && i.Addx? {
        assert during[k] == block[1];
      } else {
        assert during[k] == last;
      }
    }
  }

  lemma LogStepNumbered(prefix: seq<Instruction>, i: Instruction)
    requires Numbered(Log(prefix))
    ensures Numbered(Log(prefix + [i]))
  {
    assert (prefix + [i])[..|prefix|] == prefix;
  }



  /** The display position drawn during a cycle, and whether the sprite covers it. */
  function Row(cycle: Cycle): int {
    (cycle.number - 1) / 40
  }

  function Col(cycle: Cycle): int {
    (cycle.number - 1) % 40
  }

  /** The three-pixel sprite centred on register value `x` covers column `col`. */
  predicate SpriteAt(x: int, col: int) {
    x - 1 == col || x == col || x + 1 == col
  }

  predicate SpriteCovers(cycle: Cycle) {
    SpriteAt(cycle.value, Col(cycle))
  }

  /** A cycle lights pixel (r, c). */
  predicate Lights(cycle: Cycle, r: int, c: int) {
    SpriteCovers(cycle) && Row(cycle) == r && Col(cycle) == c
  }

  /** Some cycle of the sequence lights pixel (r, c). */
  ghost predicate AnyLights(cycles: seq<Cycle>, r: int, c: int) {
    exists k :: 0 <= k < |cycles| && Lights(cycles[k], r, c)
  }

  /** The pixel a sequence of cycles leaves at (r, c) on a dark screen. */
  ghost function Drawn(cycles: seq<Cycle>, r: int, c: int): char {
    if AnyLights(cycles, r, c) then '#' else '.'
  }

  lemma AnyLightsAppend(cycles: seq<Cycle>, more: seq<Cycle>, r: int, c: int)
    ensures AnyLights(cycles + more, r, c) <==> AnyLights(cycles, r, c) || AnyLights(more, r, c)
  {
    var all := cycles + more;
    if AnyLights(all, r, c) {
      var k :| 0 <= k < |all| && Lights(all[k], r, c);
      if k >= |cycles| {
        assert more[k - |cycles|] == all[k];
      }
    }
    if AnyLights(cycles, r, c) {
      var k :| 0 <= k < |cycles| && Lights(cycles[k], r, c);
      assert all[k] == cycles[k];
    }
    if AnyLights(more, r, c) {
      var k :| 0 <= k < |more| && Lights(more[k], r, c);
      assert all[|cycles| + k] == more[k];
    }
  }

  /** A cycle that would light a pixel below the sixth row: the source then
      writes into a row that does not exist and fails. */
  predicate Overflows(cycle: Cycle) {
    SpriteCovers(cycle) && Row(cycle) >= 6
  }

  ghost predicate AnyOverflows(cycles: seq<Cycle>) {
    exists k :: 0 <= k < |cycles| && Overflows(cycles[k])
  }

  class Crt {
    const display: array2<char>

    ghost predicate Valid()
      reads this
    {
      display.Length0 == 6 && display.Length1 == 40
    }

    /** A dark screen except the first pixel, which cycle 1 (register 1) lights. */
    constructor ()
      ensures Valid() && fresh(display)
      ensures forall r, c :: 0 <= r < 6 && 0 <= c < 40 ==>
        display[r, c] == if r == 0 && c == 0 then '#' else '.'
    {
      display := new char[6, 40]((r, c) => '.');
      new;
      display[0, 0] := '#';
    }

    /** `Crt.evaluate`: lights every covered pixel of the given cycles; fails at
        the first covered cycle past the last row. Lit pixels are never cleared. */
    method Evaluate(cycles: seq<Cycle>) returns (ok: bool)
      requires Valid()
      requires forall k :: 0 <= k < |cycles| ==> cycles[k].number >= 1
      modifies display
      ensures ok <==> !AnyOverflows(cycles)
      ensures ok ==> forall r, c :: 0 <= r < 6 && 0 <= c < 40 ==>
        display[r, c] == if AnyLights(cycles, r, c) then '#' else old(display[r, c])
      ensures forall r, c :: 0 <= r < 6 && 0 <= c < 40 ==>
        display[r, c] == old(display[r, c]) || (display[r, c] == '#' && AnyLights(cycles, r, c))
    {
      for i := 0 to |cycles|
        invariant forall k :: 0 <= k < i ==> !Overflows(cycles[k])
        invariant forall r, c :: 0 <= r < 6 && 0 <= c < 40 ==>
          display[r, c] == if AnyLights(cycles[..i], r, c) then '#' else old(display[r, c])
      {
        assert cycles[..i + 1] == cycles[..i] + [cycles[i]];
        forall r, c
          ensures AnyLights(cycles[..i + 1], r, c) <==> AnyLights(cycles[..i], r, c) || Lights(cycles[i], r, c)
        {
          AnyLightsAppend(cycles[..i], [cycles[i]], r, c);
          assert AnyLights([cycles[i]], r, c) <==> Lights(cycles[i], r, c);
        }
        var cycle := cycles[i];
        var rowIdx := (cycle.number - 1) / 40;
        var colIdx := (cycle.number - 1) % 40;
        var match_ := cycle.value - 1 == colIdx || cycle.value == colIdx || cycle.value + 1 == colIdx;
        if !match_ {
          continue;
        }
        if rowIdx >= 6 {
          return false;
        }
        display[rowIdx, colIdx] := '#';
      }
      return true;
    }

    /** `Crt.toString`: a newline, then the six rows separated by newlines. */
    function Render(): (s: string)
      reads this, display
      requires Valid()
      ensures |s| == 6 * 41
      ensures forall r, c :: 0 <= r < 6 && 0 <= c < 40 ==> s[41 * r + 1 + c] == display[r, c]
      ensures forall r :: 0 <= r < 6 ==> s[41 * r] == '\n'
    {
      RenderShows();
      RenderFrom(0)
    }

    function RenderFrom(r: nat): (s: string)
      reads this, display
      requires Valid() && r <= 6
      ensures |s| == (6 - r) * 41
      decreases 6 - r
    {
      if r == 6 then ""
      else "\n" + RowText(r) + RenderFrom(r + 1)
    }

    /** Row r' of the display, after its newline, sits 41 characters per row
        into the text rendered from row r. */
    lemma {:induction false} RowAt(r: nat, r': nat)
      requires Valid() && r <= r' < 6
      ensures RenderFrom(r)[41 * (r' - r)..41 * (r' - r) + 41] == "\n" + RowText(r')
      decreases r' - r
    {
      var head, rest := "\n" + RowText(r), RenderFrom(r + 1);
      assert RenderFrom(r) == head + rest;
      if r' == r {
        assert (head + rest)[0..41] == head;
      } else {
        RowAt(r + 1, r');
        var o := 41 * (r' - r);
        assert (head + rest)[o..o + 41] == rest[o - 41..o];
      }
    }

    lemma RenderShows()
      requires Valid()
      ensures forall r, c :: 0 <= r < 6 && 0 <= c < 40 ==> RenderFrom(0)[41 * r + 1 + c] == display[r, c]
      ensures forall r :: 0 <= r < 6 ==> RenderFrom(0)[41 * r] == '\n'
    {
      forall r, c | 0 <= r < 6 && 0 <= c < 40
        ensures RenderFrom(0)[41 * r + 1 + c] == display[r, c]
      {
        RowAt(0, r);
        assert RenderFrom(0)[41 * r + 1 + c] == RenderFrom(0)[41 * r..41 * r + 41][1 + c];
      }
      forall r | 0 <= r < 6
        ensures RenderFrom(0)[41 * r] == '\n'
      {
        RowAt(0, r);
        assert RenderFrom(0)[41 * r] == RenderFrom(0)[41 * r..41 * r + 41][0];
      }
    }

    /** `line.join('')`: row r of the display as text. */
    function RowText(r: nat): (s: string)
      reads this, display
      requires Valid() && r < 6
      ensures |s| == 40 && forall c :: 0 <= c < 40 ==> s[c] == display[r, c]
    {
      seq(40, c requires 0 <= c < 40 reads display => display[r, c])
    }
  }

  /** The CPU and the CRT wired together. */
  class Device {
    const cpu: Cpu
    const crt: Crt

    ghost predicate Valid()
      reads this, cpu, crt
    {
      cpu.Valid() && crt.Valid()
    }

    constructor ()
      ensures Valid() && fresh(cpu) && fresh(crt) && fresh(crt.display)
      ensures cpu.cycles == [Cycle(1, 1)]
      ensures forall r, c :: 0 <= r < 6 && 0 <= c < 40 ==>
        crt.display[r, c] == if r == 0 && c == 0 then '#' else '.'
    {
      cpu := new Cpu();
      crt := new Crt();
    }

    /** `Device.execute`: the CPU runs the instruction and the CRT draws the
        cycles it logged; `ok` is false where the source throws. */
    method Execute(instruction: Instruction) returns (ok: bool)
      requires Valid()
      modifies cpu, crt.display
      ensures Valid()
      ensures cpu.cycles == old(cpu.cycles) + NewCycles(old(cpu.cycles[|cpu.cycles| - 1]), instruction)
      ensures ok <==> !AnyOverflows(NewCycles(old(cpu.cycles[|cpu.cycles| - 1]), instruction))
      ensures ok ==> forall r, c :: 0 <= r < 6 && 0 <= c < 40 ==>
        crt.display[r, c] == if AnyLights(NewCycles(old(cpu.cycles[|cpu.cycles| - 1]), instruction), r, c)
                             then '#' else old(crt.display[r, c])
    {
      var cycles := cpu.Execute(instruction);
      ok := crt.Evaluate(cycles);
    }
  }

  /** Some cycle of a program's run, including the entry logged after its last
      instruction, would light a pixel below the sixth row. */
  ghost predicate DrawsOffScreen(program: seq<Instruction>) {
    exists c :: 1 <= c <= TotalCycles(program) + 1 && (c - 1) / 40 >= 6 && SpriteAt(Register(program, c), (c - 1) % 40)
  }

  /** Pixel (r, col) is drawn by some cycle of the program's run. */
  ghost predicate Lit(program: seq<Instruction>, r: int, col: int) {
    exists c :: 1 <= c <= TotalCycles(program) + 1 && (c - 1) / 40 == r && (c - 1) % 40 == col && SpriteAt(Register(program, c), col)
  }

  /** The signal strength of cycle c of the program. */
  function Signal(program: seq<Instruction>, c: int): int
    requires 1 <= c <= TotalCycles(program) + 1
  {
    Register(program, c) * c
  }

  lemma {:induction false} LogLength(program: seq<Instruction>)
    ensures |Log(program)| == TotalCycles(program) + 1
    decreases |program|
  {
    if program != [] {
      var prefix, i := program[..|program| - 1], program[|program| - 1];
      assert program == prefix + [i];
      LogLength(prefix);
      SumAddxAppend(prefix, i);
    }
  }

  /** Entry k of the CPU's log is cycle k + 1 with the register during it. */
  lemma LogEntry(program: seq<Instruction>, k: int)
    requires 0 <= k <= TotalCycles(program)
    ensures |Log(program)| == TotalCycles(program) + 1
    ensures Log(program)[k] == Cycle(k + 1, Register(program, k + 1))
  {
    LogIsRegister(program);
  }

  /** A cycle logged by the CPU draws off screen exactly when some cycle of the
      cycle-by-cycle register does. */
  lemma LogOverflows(program: seq<Instruction>)
    ensures AnyOverflows(Log(program)) <==> DrawsOffScreen(program)
  {
    if AnyOverflows(Log(program)) {
      var k :| 0 <= k < |Log(program)| && Overflows(Log(program)[k]);
      LoggedCycleOverflows(program, k);
    }
    if DrawsOffScreen(program) {
      var c :| 1 <= c <= TotalCycles(program) + 1 && (c - 1) / 40 >= 6 && SpriteAt(Register(program, c), (c - 1) % 40);
      LogEntry(program, c - 1);
      assert Overflows(Log(program)[c - 1]);
    }
  }

  /** A logged cycle that draws off screen is a cycle of the run that does. */
  lemma LoggedCycleOverflows(program: seq<Instruction>, k: int)
    requires 0 <= k < |Log(program)| && Overflows(Log(program)[k])
    ensures DrawsOffScreen(program)
  {
    LogLength(program);
    LogEntry(program, k);
    var c := k + 1;
    assert 1 <= c <= TotalCycles(program) + 1 && (c - 1) / 40 >= 6 && SpriteAt(Register(program, c), (c - 1) % 40);
  }


  /** A cycle logged by the CPU lights a pixel exactly when the cycle-by-cycle
      register does. */
  lemma LogLights(program: seq<Instruction>, r: int, col: int)
    ensures AnyLights(Log(program), r, col) <==> Lit(program, r, col)
  {
    if AnyLights(Log(program), r, col) {
      var k :| 0 <= k < |Log(program)| && Lights(Log(program)[k], r, col);
      LoggedCycleLit(program, k, r, col);
    }
    if Lit(program, r, col) {
      var c :| 1 <= c <= TotalCycles(program) + 1 && (c - 1) / 40 == r && (c - 1) % 40 == col && SpriteAt(Register(program, c), col);
      LitCycleLogged(program, c, r, col);
    }
  }

  /** A cycle of the run that lights a pixel is logged lighting it. */
  lemma LitCycleLogged(program: seq<Instruction>, c: int, r: int, col: int)
    requires 1 <= c <= TotalCycles(program) + 1 && (c - 1) / 40 == r && (c - 1) % 40 == col
    requires SpriteAt(Register(program, c), col)
    ensures AnyLights(Log(program), r, col)
  {
    LogEntry(program, c - 1);
    assert Lights(Log(program)[c - 1], r, col);
  }

  /** A logged cycle that lights a pixel is a cycle of the run that lights it. */
  lemma LoggedCycleLit(program: seq<Instruction>, k: int, r: int, col: int)
    requires 0 <= k < |Log(program)| && Lights(Log(program)[k], r, col)
    ensures Lit(program, r, col)
  {
    LogLength(program);
    LogEntry(program, k);
    var c := k + 1;
    assert 1 <= c <= TotalCycles(program) + 1 && (c - 1) / 40 == r && (c - 1) % 40 == col && SpriteAt(Register(program, c), col);
  }


  /** The log of a program extends the log of each of its prefixes. */
  lemma {:induction false} LogExtends(program: seq<Instruction>, i: nat)
    requires i <= |program|
    ensures |Log(program[..i])| <= |Log(program)| && Log(program[..i]) == Log(program)[..|Log(program[..i])|]
    decreases |program|
  {
    if i < |program| {
      var prefix := program[..|program| - 1];
      assert prefix[..i] == program[..i];
      LogExtends(prefix, i);
    } else {
      assert program[..i] == program;
    }
  }

  lemma AnyOverflowsAppend(cycles: seq<Cycle>, more: seq<Cycle>)
    ensures AnyOverflows(cycles + more) <==> AnyOverflows(cycles) || AnyOverflows(more)
  {
    var all := cycles + more;
    if AnyOverflows(all) {
      var k :| 0 <= k < |all| && Overflows(all[k]);
      if k >= |cycles| {
        assert more[k - |cycles|] == all[k];
      }
    }
    if AnyOverflows(cycles) {
      var k :| 0 <= k < |cycles| && Overflows(cycles[k]);
      assert all[k] == cycles[k];
    }
    if AnyOverflows(more) {
      var k :| 0 <= k < |more| && Overflows(more[k]);
      assert all[|cycles| + k] == more[k];
    }
  }

  /** A prefix of a program that draws off screen makes the program draw off screen. */
  lemma OverflowExtends(program: seq<Instruction>, i: nat)
    requires i <= |program|
    ensures AnyOverflows(Log(program[..i])) ==> AnyOverflows(Log(program))
  {
    LogExtends(program, i);
    var log := Log(program);
    var n := |Log(program[..i])|;
    assert log == log[..n] + log[n..];
    AnyOverflowsAppend(log[..n], log[n..]);
  }

  /** The first cycle lights only the top left pixel. */
  lemma FirstCycleDrawn(r: int, c: int)
    ensures Drawn([Cycle(1, 1)], r, c) == if r == 0 && c == 0 then '#' else '.'
  {
    assert Lights(Cycle(1, 1), r, c) <==> r == 0 && c == 0;
    assert [Cycle(1, 1)][0] == Cycle(1, 1);
  }

  /** Runs the whole program on a fresh device (the `forEach` of both parts);
      `ok` is false where the source throws. */
  method Run(program: seq<Instruction>) returns (device: Device, ok: bool)
    ensures fresh(device) && fresh(device.cpu) && fresh(device.crt) && fresh(device.crt.display)
    ensures device.Valid()
    ensures ok <==> !AnyOverflows(Log(program))
    ensures ok ==> device.cpu.cycles == Log(program)
    ensures ok ==> forall r, c :: 0 <= r < 6 && 0 <= c < 40 ==> device.crt.display[r, c] == Drawn(Log(program), r, c)
  {
    device := new Device();
    assert program[..0] == [] && Log(program[..0]) == [Cycle(1, 1)];
    forall r, c | 0 <= r < 6 && 0 <= c < 40
      ensures device.crt.display[r, c] == Drawn([Cycle(1, 1)], r, c)
    {
      FirstCycleDrawn(r, c);
    }
    for i := 0 to |program|
      invariant device.Valid() && fresh(device.cpu) && fresh(device.crt) && fresh(device.crt.display)
      invariant device.cpu.cycles == Log(program[..i])
      invariant !AnyOverflows(Log(program[..i]))
      invariant forall r, c :: 0 <= r < 6 && 0 <= c < 40 ==> device.crt.display[r, c] == Drawn(Log(program[..i]), r, c)
    {
      ghost var before := device.cpu.cycles;
      ghost var more := NewCycles(before[|before| - 1], program[i]);
      assert program[..i + 1][..i] == program[..i];
      ok := device.Execute(program[i]);
      assert device.cpu.cycles == Log(program[..i + 1]) == before + more;
      AnyOverflowsAppend(before, more);
      if !ok {
        OverflowExtends(program, i + 1);
        return;
      }
      forall r, c | 0 <= r < 6 && 0 <= c < 40
        ensures device.crt.display[r, c] == Drawn(before + more, r, c)
      {
        AnyLightsAppend(before, more, r, c);
      }
    }
    assert program[..|program|] == program;
    ok := true;
  }

  /** Part 1: the sum of the signal strengths of cycles 20, 60, ..., 220. The
      source fails when the CRT draws off screen, and when the program is too
      short to reach cycle 220. */
  method Part1Solution(program: seq<Instruction>) returns (r: Result<int>)
    ensures r.Err? <==> DrawsOffScreen(program) || TotalCycles(program) + 1 < 220
    ensures r.Ok? ==> r.value == Signal(program, 20) + Signal(program, 60) + Signal(program, 100) +
                                 Signal(program, 140) + Signal(program, 180) + Signal(program, 220)
  {
    var device, ok := Run(program);
    LogIsRegister(program);
    LogOverflows(program);
    if !ok {
      return Err("the display has no row for a lit pixel");
    }
    var cpu := device.cpu;
    if cpu.CycleCount() < 220 {
      return Err("no cycle " + ShowNat(cpu.CycleCount() + 1));
    }
    r := Ok(cpu.SignalAt(20) + cpu.SignalAt(60) + cpu.SignalAt(100) + cpu.SignalAt(140) + cpu.SignalAt(180) + cpu.SignalAt(220));
  }

  /** Part 2: the rendered display, a pixel lit exactly when some cycle's
      sprite covered it. */
  method Part2Solution(program: seq<Instruction>) returns (r: Result<string>)
    ensures r.Err? <==> DrawsOffScreen(program)
    ensures r.Ok? ==> |r.value| == 6 * 41
    ensures r.Ok? ==> forall row, col :: 0 <= row < 6 && 0 <= col < 40 ==>
      r.value[41 * row + 1 + col] == if Lit(program, row, col) then '#' else '.'
    ensures r.Ok? ==> forall row :: 0 <= row < 6 ==> r.value[41 * row] == '\n'
  {
    var device, ok := Run(program);
    LogOverflows(program);
    if !ok {
      return Err("the display has no row for a lit pixel");
    }
    forall row, col | 0 <= row < 6 && 0 <= col < 40
      ensures device.crt.display[row, col] == if Lit(program, row, col) then '#' else '.'
    {
      LogLights(program, row, col);
    }
    r := Ok(device.crt.Render());
  }
}
