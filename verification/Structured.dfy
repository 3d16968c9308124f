/** Structured programs of nested `if` and `while`, what they mean, and the proof that the flat
    interpreter runs them. */
module Structured {
  import opened ControlFlow

  /** A block of commands: empty, a plain command and more, or a nested block and more. */
  datatype Code = Empty | Do(id: nat, next: Code)
                | Nest(cmd: BlockCmd, cond: nat, negated: bool, body: Code, next: Code)

  /** Only `if` and `while` open blocks. */
  predicate WellFormed(code: Code) {
    match code
    case Empty => true
    case Do(_, next) => WellFormed(next)
    case Nest(cmd, _, _, body, next) => !cmd.NoBlock? && WellFormed(body) && WellFormed(next)
  }

  function Flatten(code: Code): seq<Cmd> {
    match code
    case Empty => []
    case Do(id, next) => [Plain(id)] + Flatten(next)
    case Nest(cmd, cond, negated, body, next) =>
      [Open(cmd, cond, negated)] + Flatten(body) + [Close] + Flatten(next)
  }

  function Max(a: nat, b: nat): nat { if a < b then b else a }

  function Depth(code: Code): nat {
    match code
    case Empty => 0
    case Do(_, next) => Depth(next)
    case Nest(_, _, _, body, next) => Max(1 + Depth(body), Depth(next))
  }

  /** How far a program comes: it ran through, it stopped on the way, or it needs more loop turns. */
  datatype Result = Through(trace: seq<Event>) | Stopped(trace: seq<Event>, why: Why) | MoreFuel(trace: seq<Event>)

  /** What a program means. `room` is how many more blocks may be entered; a block that is not
      executed must fit all the same. `fuel` bounds how often a loop body may be repeated. */
  function Exec(w: World, code: Code, trace: seq<Event>, room: nat, fuel: nat): Result
    decreases fuel, code
  {
    match code
    case Empty => Through(trace)
    case Do(id, next) =>
      var trace' := trace + [Ran(id)];
      (match w.act(trace, id)
       case Continue => Exec(w, next, trace', room, fuel)
       case Exit => Stopped(trace', Exited)
       case Fatal => Stopped(trace', Failed))
    case Nest(cmd, cond, negated, body, next) =>
      if room == 0 then Stopped(trace, TooDeep)
      else
        var v := w.value(trace, cond);
        var trace' := trace + [Tested(cond, v)];
        if (if negated then v != 0 else v == 0) then
          if Depth(body) >= room then Stopped(trace', TooDeep)
          else Exec(w, next, trace', room, fuel)
        else
          match Exec(w, body, trace', room - 1, fuel)
          case Stopped(t, why) => Stopped(t, why)
          case MoreFuel(t) => MoreFuel(t)
          case Through(t) =>
            if cmd.WhileBlock? then
              if fuel == 0 then MoreFuel(t) else Exec(w, code, t, room, fuel - 1)
            else Exec(w, next, t, room, fuel)
  }

  // -------------------------------------------------------------------------
  // The flat interpreter on a piece of a file.

  /** The code stands at this line of the file. */
  ghost predicate At(file: seq<Cmd>, line: nat, code: Code) {
    line + |Flatten(code)| <= |file| && file[line..line + |Flatten(code)|] == Flatten(code)
  }

  function After(line: nat, code: Code): nat { line + |Flatten(code)| }

  lemma AtParts(file: seq<Cmd>, line: nat, code: Code)
    requires At(file, line, code) && !code.Empty?
    ensures line < |file|
    ensures code.Do? ==> file[line] == Plain(code.id) && At(file, line + 1, code.next)
                         && After(line + 1, code.next) == After(line, code)
    ensures code.Nest? ==>
      && file[line] == Open(code.cmd, code.cond, code.negated)
      && At(file, line + 1, code.body)
      && After(line + 1, code.body) < |file| && file[After(line + 1, code.body)] == Close
      && At(file, After(line + 1, code.body) + 1, code.next)
      && After(After(line + 1, code.body) + 1, code.next) == After(line, code)
  {
    match code
    case Do(id, next) =>
      AtConcat(file, line, [Plain(id)], Flatten(next));
    case Nest(cmd, cond, negated, body, next) =>
      NestParts(file, line, Open(cmd, cond, negated), Flatten(body), Flatten(next));
  }

  lemma NestParts(file: seq<Cmd>, line: nat, open: Cmd, body: seq<Cmd>, next: seq<Cmd>)
    requires line + |body| + |next| + 2 <= |file|
    requires file[line..line + |body| + |next| + 2] == [open] + body + [Close] + next
    ensures file[line] == open && file[line + 1..line + 1 + |body|] == body
    ensures file[line + 1 + |body|] == Close
    ensures file[line + 2 + |body|..line + 2 + |body| + |next|] == next
  {
    var rest := [Close] + next;
    assert [open] + body + [Close] + next == [open] + (body + rest);
    AtConcat(file, line, [open], body + rest);
    AtConcat(file, line + 1, body, rest);
    AtConcat(file, line + 1 + |body|, [Close], next);
  }

  lemma AtConcat(file: seq<Cmd>, line: nat, a: seq<Cmd>, b: seq<Cmd>)
    requires line + |a| + |b| <= |file| && file[line..line + |a| + |b|] == a + b
    ensures file[line..line + |a|] == a
    ensures file[line + |a|..line + |a| + |b|] == b
    ensures |a| > 0 ==> file[line] == a[0]
  {
    var whole := file[line..line + |a| + |b|];
    assert whole[..|a|] == file[line..line + |a|];
    assert whole[|a|..] == file[line + |a|..line + |a| + |b|];
    assert |a| > 0 ==> whole[0] == file[line];
  }

  /** `n` turns of the loop lead from `s` to `t`. */
  ghost predicate Goes(w: World, file: seq<Cmd>, s: Status, n: nat, t: Status) { Steps(w, file, s, n) == t }

  lemma {:induction false} Chain(w: World, file: seq<Cmd>, s: Status, m: nat, t: Status, n: nat, u: Status)
    requires Goes(w, file, s, m, t) && Goes(w, file, t, n, u)
    ensures Goes(w, file, s, m + n, u)
    decreases m
  {
    if m != 0 {
      Chain(w, file, Step(w, file, s), m - 1, t, n, u);
    }
  }

  /** The state of an interpreter at a line, in a block that is being executed. */
  function Live(line: nat, stack: seq<Block>, trace: seq<Event>): Status { Running(Machine(line, stack, trace)) }

  /** The stack with the current block's line set and a new block on top. */
  function Push(stack: seq<Block>, line: nat, ok: bool, cmd: BlockCmd): (r: seq<Block>)
    requires stack != []
  {
    stack[|stack| - 1 := stack[|stack| - 1].(line := line)] + [Block(0, ok, cmd)]
  }

  lemma ClosePushed(stack: seq<Block>, line: nat, ok: bool, cmd: BlockCmd, at: nat, trace: seq<Event>)
    requires StackOk(stack) && |stack| < MAX_BLOCKS
    ensures StackOk(Push(stack, line, ok, cmd))
    ensures CloseBlock(Machine(at, Push(stack, line, ok, cmd), trace))
         == Live(if ok && cmd.WhileBlock? then line else at + 1, stack, trace)
  {
    var pushed := Push(stack, line, ok, cmd);
    var n := |stack| - 1;
    assert pushed[..n] + [pushed[n].(line := 0)] == stack;
  }

  /** Through a nested block: into it, across its body, and out again. */
  lemma ThroughBlock(w: World, file: seq<Cmd>, code: Code, line: nat, stack: seq<Block>, trace: seq<Event>,
                     ok: bool, entered: seq<Event>, n: nat, closed: seq<Event>)
    requires At(file, line, code) && code.Nest? && StackOk(stack) && |stack| < MAX_BLOCKS
    requires Step(w, file, Live(line, stack, trace)) == Live(line + 1, Push(stack, line, ok, code.cmd), entered)
    requires Goes(w, file, Live(line + 1, Push(stack, line, ok, code.cmd), entered), n,
                  Live(After(line + 1, code.body), Push(stack, line, ok, code.cmd), closed))
    ensures Goes(w, file, Live(line, stack, trace), n + 2,
                 Live(if ok && code.cmd.WhileBlock? then line else After(line + 1, code.body) + 1, stack, closed))
  {
    AtParts(file, line, code);
    var end := After(line + 1, code.body);
    var inner := Push(stack, line, ok, code.cmd);
    ClosePushed(stack, line, ok, code.cmd, end, closed);
    var out := Step(w, file, Live(end, inner, closed));
    assert Goes(w, file, Live(end, inner, closed), 1, out) by { assert Steps(w, file, out, 0) == out; }
    Chain(w, file, Live(line + 1, inner, entered), n, Live(end, inner, closed), 1, out);
    OneMore(w, file, Live(line, stack, trace), n + 1, out);
  }

  lemma OneMore(w: World, file: seq<Cmd>, s: Status, n: nat, t: Status)
    requires Goes(w, file, Step(w, file, s), n, t)
    ensures Goes(w, file, s, n + 1, t)
  {
  }

  /** Opening a block inside an ignored one. */
  lemma OpensIgnored(w: World, file: seq<Cmd>, code: Code, line: nat, stack: seq<Block>, trace: seq<Event>)
    requires At(file, line, code) && code.Nest? && StackOk(stack) && !stack[|stack| - 1].ok
    ensures Step(w, file, Live(line, stack, trace))
         == if |stack| == MAX_BLOCKS then Halted(trace, TooDeep)
            else Live(line + 1, Push(stack, line, false, code.cmd), trace)
  {
    AtParts(file, line, code);
  }

  /** An ignored block executes and tests nothing, however deeply its blocks are nested; when they
      do not fit on the block stack the run ends there. */
  lemma {:induction false} SkipsIgnored(w: World, file: seq<Cmd>, code: Code, line: nat, stack: seq<Block>,
                                        trace: seq<Event>)
    returns (n: nat)
    requires At(file, line, code) && StackOk(stack) && !stack[|stack| - 1].ok
    ensures Goes(w, file, Live(line, stack, trace), n,
                 if |stack| + Depth(code) <= MAX_BLOCKS then Live(After(line, code), stack, trace)
                 else Halted(trace, TooDeep))
    decreases code
  {
    match code
    case Empty =>
      n := 0;
    case Do(id, next) =>
      AtParts(file, line, code);
      n := SkipsIgnored(w, file, next, line + 1, stack, trace);
      n := n + 1;
    case Nest(cmd, cond, negated, body, next) =>
      n := SkipsNest(w, file, code, line, stack, trace);
  }

  lemma SkipsNest(w: World, file: seq<Cmd>, code: Code, line: nat, stack: seq<Block>, trace: seq<Event>)
    returns (n: nat)
    requires At(file, line, code) && StackOk(stack) && !stack[|stack| - 1].ok && code.Nest?
    ensures Goes(w, file, Live(line, stack, trace), n,
                 if |stack| + Depth(code) <= MAX_BLOCKS then Live(After(line, code), stack, trace)
                 else Halted(trace, TooDeep))
    decreases code, 0
  {
    var start := Live(line, stack, trace);
    OpensIgnored(w, file, code, line, stack, trace);
    if |stack| == MAX_BLOCKS {
      n := 1;
      assert Steps(w, file, Halted(trace, TooDeep), 0) == Halted(trace, TooDeep);
      return;
    }
    AtParts(file, line, code);
    var inner := Push(stack, line, false, code.cmd);
    ClosePushed(stack, line, false, code.cmd, line, trace);
    var m := SkipsIgnored(w, file, code.body, line + 1, inner, trace);
    if |stack| + 1 + Depth(code.body) > MAX_BLOCKS {
      OneMore(w, file, start, m, Halted(trace, TooDeep));
      n := m + 1;
      return;
    }
    ThroughBlock(w, file, code, line, stack, trace, false, trace, m, trace);
    var next := After(line + 1, code.body) + 1;
    var k := SkipsIgnored(w, file, code.next, next, stack, trace);
    n := m + 2 + k;
    Chain(w, file, start, m + 2, Live(next, stack, trace), k,
          if |stack| + Depth(code.next) <= MAX_BLOCKS then Live(After(line, code), stack, trace)
          else Halted(trace, TooDeep));
  }

  // -------------------------------------------------------------------------
  // The simulation.

  /** What `n` turns from `start` show of a result: the block stack as it was and the line after
      the code, or the stop, or at least that many turns without an end; and the trace. */
  ghost predicate Shows(w: World, file: seq<Cmd>, start: Status, n: nat, r: Result, fuel: nat,
                        after: nat, stack: seq<Block>) {
    match r
    case Through(t) => Goes(w, file, start, n, Live(after, stack, t))
    case Stopped(t, why) => Goes(w, file, start, n, Halted(t, why))
    case MoreFuel(t) => fuel <= n && Steps(w, file, start, n).Running? && Steps(w, file, start, n).m.trace == t
  }

  lemma Continue1(w: World, file: seq<Cmd>, s: Status, m: nat, t: Status, n: nat, r: Result, fuel: nat, fuel': nat,
                  after: nat, stack: seq<Block>)
    requires Goes(w, file, s, m, t) && Shows(w, file, t, n, r, fuel, after, stack) && fuel' <= fuel + m
    ensures Shows(w, file, s, m + n, r, fuel', after, stack)
  {
    Chain(w, file, s, m, t, n, Steps(w, file, t, n));
  }

  /** The flat interpreter does to a piece of code in a live block what the code means. */
  lemma {:induction false} Simulates(w: World, file: seq<Cmd>, code: Code, line: nat, stack: seq<Block>,
                                     trace: seq<Event>, fuel: nat)
    returns (n: nat)
    requires At(file, line, code) && WellFormed(code) && StackOk(stack) && stack[|stack| - 1].ok
    requires |stack| > 1 ==> After(line, code) < |file|
    ensures Shows(w, file, Live(line, stack, trace), n, Exec(w, code, trace, MAX_BLOCKS - |stack|, fuel), fuel,
                  After(line, code), stack)
    decreases fuel, code, 2
  {
    match code
    case Empty =>
      n := 0;
    case Do(id, next) =>
      AtParts(file, line, code);
      var start := Live(line, stack, trace);
      var s1 := Step(w, file, start);
      assert Steps(w, file, s1, 0) == s1;
      assert Goes(w, file, start, 1, s1);
      if w.act(trace, id) == Continue {
        var m := Simulates(w, file, next, line + 1, stack, trace + [Ran(id)], fuel);
        n := 1 + m;
        Continue1(w, file, start, 1, s1, m, Exec(w, next, trace + [Ran(id)], MAX_BLOCKS - |stack|, fuel), fuel, fuel,
                  After(line, code), stack);
      } else {
        n := 1;
      }
    case Nest(cmd, cond, negated, body, next) =>
      n := SimulatesNest(w, file, code, line, stack, trace, fuel);
  }

  lemma OpensLive(w: World, file: seq<Cmd>, code: Code, line: nat, stack: seq<Block>, trace: seq<Event>)
    requires At(file, line, code) && code.Nest? && StackOk(stack) && stack[|stack| - 1].ok
    ensures
      var v := w.value(trace, code.cond);
      Step(w, file, Live(line, stack, trace))
      == if |stack| == MAX_BLOCKS then Halted(trace, TooDeep)
         else Live(line + 1, Push(stack, line, if code.negated then v == 0 else v != 0, code.cmd),
                   trace + [Tested(code.cond, v)])
  {
    AtParts(file, line, code);
  }

  lemma SimulatesNest(w: World, file: seq<Cmd>, code: Code, line: nat, stack: seq<Block>, trace: seq<Event>, fuel: nat)
    returns (n: nat)
    requires At(file, line, code) && WellFormed(code) && StackOk(stack) && stack[|stack| - 1].ok && code.Nest?
    requires |stack| > 1 ==> After(line, code) < |file|
    ensures Shows(w, file, Live(line, stack, trace), n, Exec(w, code, trace, MAX_BLOCKS - |stack|, fuel), fuel,
                  After(line, code), stack)
    decreases fuel, code, 1
  {
    OpensLive(w, file, code, line, stack, trace);
    if |stack| == MAX_BLOCKS {
      n := 1;
      assert Steps(w, file, Halted(trace, TooDeep), 0) == Halted(trace, TooDeep);
      return;
    }
    AtParts(file, line, code);
    var v := w.value(trace, code.cond);
    var entered := trace + [Tested(code.cond, v)];
    if (if code.negated then v == 0 else v != 0) {
      var inner := Push(stack, line, true, code.cmd);
      ClosePushed(stack, line, true, code.cmd, line, trace);
      var m := Simulates(w, file, code.body, line + 1, inner, entered, fuel);
      n := AfterBody(w, file, code, line, stack, trace, entered, m, fuel);
    } else {
      n := SkipsBody(w, file, code, line, stack, trace, entered, fuel);
    }
  }

  /** The condition fails: the body is skipped. */
  lemma SkipsBody(w: World, file: seq<Cmd>, code: Code, line: nat, stack: seq<Block>, trace: seq<Event>,
                  entered: seq<Event>, fuel: nat)
    returns (n: nat)
    requires At(file, line, code) && WellFormed(code) && code.Nest?
    requires StackOk(stack) && stack[|stack| - 1].ok && |stack| < MAX_BLOCKS
    requires |stack| > 1 ==> After(line, code) < |file|
    requires entered == trace + [Tested(code.cond, w.value(trace, code.cond))]
    requires if code.negated then w.value(trace, code.cond) != 0 else w.value(trace, code.cond) == 0
    ensures Shows(w, file, Live(line, stack, trace), n, Exec(w, code, trace, MAX_BLOCKS - |stack|, fuel), fuel,
                  After(line, code), stack)
    decreases fuel, code, 0
  {
    var start, room := Live(line, stack, trace), MAX_BLOCKS - |stack|;
    OpensLive(w, file, code, line, stack, trace);
    AtParts(file, line, code);
    var inner := Push(stack, line, false, code.cmd);
    ClosePushed(stack, line, false, code.cmd, line, trace);
    var m := SkipsIgnored(w, file, code.body, line + 1, inner, entered);
    if Depth(code.body) >= room {
      OneMore(w, file, start, m, Halted(entered, TooDeep));
      n := m + 1;
      return;
    }
    ThroughBlock(w, file, code, line, stack, trace, false, entered, m, entered);
    var next := After(line + 1, code.body) + 1;
    var k := Simulates(w, file, code.next, next, stack, entered, fuel);
    n := m + 2 + k;
    Continue1(w, file, start, m + 2, Live(next, stack, entered), k, Exec(w, code.next, entered, room, fuel),
              fuel, fuel, After(line, code), stack);
  }

  /** The condition holds and `m` turns have run the body: on to what follows, or back to the test. */
  lemma AfterBody(w: World, file: seq<Cmd>, code: Code, line: nat, stack: seq<Block>, trace: seq<Event>,
                  entered: seq<Event>, m: nat, fuel: nat)
    returns (n: nat)
    requires At(file, line, code) && WellFormed(code) && code.Nest?
    requires StackOk(stack) && stack[|stack| - 1].ok && |stack| < MAX_BLOCKS
    requires |stack| > 1 ==> After(line, code) < |file|
    requires entered == trace + [Tested(code.cond, w.value(trace, code.cond))]
    requires if code.negated then w.value(trace, code.cond) == 0 else w.value(trace, code.cond) != 0
    requires Shows(w, file, Live(line + 1, Push(stack, line, true, code.cmd), entered), m,
                   Exec(w, code.body, entered, MAX_BLOCKS - |stack| - 1, fuel), fuel,
                   After(line + 1, code.body), Push(stack, line, true, code.cmd))
    ensures Shows(w, file, Live(line, stack, trace), n, Exec(w, code, trace, MAX_BLOCKS - |stack|, fuel), fuel,
                  After(line, code), stack)
    decreases fuel, code, 0
  {
    var start, room := Live(line, stack, trace), MAX_BLOCKS - |stack|;
    var r := Exec(w, code.body, entered, room - 1, fuel);
    OpensLive(w, file, code, line, stack, trace);
    if !r.Through? {
      n := m + 1;
      OneMore(w, file, start, m, Steps(w, file, Live(line + 1, Push(stack, line, true, code.cmd), entered), m));
      return;
    }
    AtParts(file, line, code);
    ThroughBlock(w, file, code, line, stack, trace, true, entered, m, r.trace);
    if !code.cmd.WhileBlock? {
      var next := After(line + 1, code.body) + 1;
      var k := Simulates(w, file, code.next, next, stack, r.trace, fuel);
      n := m + 2 + k;
      Continue1(w, file, start, m + 2, Live(next, stack, r.trace), k, Exec(w, code.next, r.trace, room, fuel),
                fuel, fuel, After(line, code), stack);
    } else if fuel == 0 {
      n := m + 2;
    } else {
      var k := Simulates(w, file, code, line, stack, r.trace, fuel - 1);
      n := m + 2 + k;
      Continue1(w, file, start, m + 2, Live(line, stack, r.trace), k, Exec(w, code, r.trace, room, fuel - 1),
                fuel - 1, fuel, After(line, code), stack);
    }
  }

  // -------------------------------------------------------------------------
  // Whole files.

  lemma {:induction false} HaltedStays(w: World, file: seq<Cmd>, s: Status, n: nat)
    requires s.Halted?
    ensures Steps(w, file, s, n) == s
    decreases n
  {
    if n != 0 {
      HaltedStays(w, file, s, n - 1);
    }
  }

  lemma HaltsOnce(w: World, file: seq<Cmd>, s: Status, m: nat, n: nat)
    requires m <= n && Steps(w, file, s, m).Halted?
    ensures Steps(w, file, s, n) == Steps(w, file, s, m)
  {
    var t := Steps(w, file, s, m);
    HaltedStays(w, file, t, n - m);
    Chain(w, file, s, m, t, n - m, t);
  }

  /** How a whole program ends. */
  function Ending(r: Result): Status
    requires !r.MoreFuel?
  {
    match r
    case Through(t) => Halted(t, EndOfFile)
    case Stopped(t, why) => Halted(t, why)
  }

  ghost predicate FlatEnds(w: World, code: Code, h: Status) {
    h.Halted? && exists n: nat :: Steps(w, Flatten(code), Initial(), n) == h
  }

  ghost predicate StructuredEnds(w: World, code: Code, h: Status) {
    exists fuel: nat :: EndsWithin(w, code, fuel, h)
  }

  predicate EndsWithin(w: World, code: Code, fuel: nat, h: Status) {
    var r := Exec(w, code, [], MAX_BLOCKS - 1, fuel);
    !r.MoreFuel? && Ending(r) == h
  }

  lemma EndOfExec(w: World, code: Code, fuel: nat) returns (n: nat)
    requires WellFormed(code)
    ensures
      var r, file := Exec(w, code, [], MAX_BLOCKS - 1, fuel), Flatten(code);
      if r.MoreFuel? then
        fuel <= n && Steps(w, file, Initial(), n).Running? && Steps(w, file, Initial(), n).m.trace == r.trace
      else Steps(w, file, Initial(), n) == Ending(r)
  {
    var r, file := Exec(w, code, [], MAX_BLOCKS - 1, fuel), Flatten(code);
    assert file[0..|file|] == file;
    n := Simulates(w, file, code, 0, [OUTERMOST], [], fuel);
    if r.Through? {
      var last := Live(|file|, [OUTERMOST], r.trace);
      assert Steps(w, file, Step(w, file, last), 0) == Ending(r);
      Chain(w, file, Initial(), n, last, 1, Ending(r));
      n := n + 1;
    }
  }

  /** The flat interpreter ends a well-nested file in some way if and only if the structured program
      ends in that way, with the same commands executed and the same conditions evaluated. */
  lemma FlatMeansStructured(w: World, code: Code, h: Status)
    requires WellFormed(code)
    ensures FlatEnds(w, code, h) <==> StructuredEnds(w, code, h)
  {
    var file := Flatten(code);
    if StructuredEnds(w, code, h) {
      var fuel: nat :| EndsWithin(w, code, fuel, h);
      var n := EndOfExec(w, code, fuel);
      assert Steps(w, file, Initial(), n) == h;
    }
    if FlatEnds(w, code, h) {
      var n: nat :| Steps(w, file, Initial(), n) == h;
      var m := EndOfExec(w, code, n);
      HaltsOnce(w, file, Initial(), n, Max(n, m));
      if Steps(w, file, Initial(), m).Halted? {
        HaltsOnce(w, file, Initial(), m, Max(n, m));
        assert EndsWithin(w, code, n, h);
      }
    }
  }

  function TraceOf(s: Status): seq<Event> { if s.Running? then s.m.trace else s.trace }

  lemma {:induction false} TraceGrows(w: World, file: seq<Cmd>, s: Status, n: nat)
    ensures TraceOf(s) <= TraceOf(Steps(w, file, s, n))
    decreases n
  {
    if n != 0 {
      TraceGrows(w, file, Step(w, file, s), n - 1);
    }
  }

  /** Whether the program ends or not, after any number of turns the flat interpreter has executed and
      evaluated what the structured program does, and nothing else; and it comes to all that the
      structured program does. */
  lemma TracesAgree(w: World, code: Code, n: nat)
    requires WellFormed(code)
    ensures TraceOf(Steps(w, Flatten(code), Initial(), n)) <= Exec(w, code, [], MAX_BLOCKS - 1, n).trace
    ensures exists m: nat ::
      TraceOf(Steps(w, Flatten(code), Initial(), m)) == Exec(w, code, [], MAX_BLOCKS - 1, n).trace
  {
    var file := Flatten(code);
    var m := EndOfExec(w, code, n);
    if n <= m {
      var t := Steps(w, file, Initial(), n);
      Chain(w, file, Initial(), n, t, m - n, Steps(w, file, t, m - n));
      TraceGrows(w, file, t, m - n);
    } else {
      HaltsOnce(w, file, Initial(), m, n);
    }
  }

  /** An `end` too many: the program runs and then dies of it. */
  lemma StrayEndDies(w: World, code: Code, rest: seq<Cmd>, fuel: nat) returns (n: nat)
    requires WellFormed(code) && Exec(w, code, [], MAX_BLOCKS - 1, fuel).Through?
    ensures Steps(w, Flatten(code) + [Close] + rest, Initial(), n)
         == Halted(Exec(w, code, [], MAX_BLOCKS - 1, fuel).trace, StrayEnd)
  {
    var file, r := Flatten(code) + [Close] + rest, Exec(w, code, [], MAX_BLOCKS - 1, fuel);
    assert file[0..|Flatten(code)|] == Flatten(code);
    var m := Simulates(w, file, code, 0, [OUTERMOST], [], fuel);
    var last := Live(|Flatten(code)|, [OUTERMOST], r.trace);
    assert Steps(w, file, Step(w, file, last), 0) == Halted(r.trace, StrayEnd);
    Chain(w, file, Initial(), m, last, 1, Halted(r.trace, StrayEnd));
    n := m + 1;
  }

  /** An `end` too few: the block is entered or passed over as its condition says, and at the end of the
      file the run dies; even a command that asks to exit cannot prevent it there. */
  lemma MissingEndDies(w: World, file: seq<Cmd>, code: Code, open: Cmd, body: Code, id: nat, fuel: nat) returns (n: nat)
    requires WellFormed(code) && WellFormed(body) && open.Open? && Depth(body) + 2 <= MAX_BLOCKS
    requires file == Flatten(code) + [open] + Flatten(body) + [Plain(id)]
    requires Exec(w, code, [], MAX_BLOCKS - 1, fuel).Through?
    ensures
      var before := Exec(w, code, [], MAX_BLOCKS - 1, fuel).trace;
      var v := w.value(before, open.cond);
      var inside := Exec(w, body, before + [Tested(open.cond, v)], MAX_BLOCKS - 2, fuel);
      if (if open.negated then v != 0 else v == 0)
        then Steps(w, file, Initial(), n) == Halted(before + [Tested(open.cond, v)], MissingEnd)
      else inside.Through? ==>
        Steps(w, file, Initial(), n) == Halted(inside.trace + [Ran(id)],
                                               if w.act(inside.trace, id).Fatal? then Failed else MissingEnd)
  {
    FileParts(file, code, open, body, id);
    var before := Exec(w, code, [], MAX_BLOCKS - 1, fuel).trace;
    var v := w.value(before, open.cond);
    var line, ok := After(0, code) + 1, if open.negated then v == 0 else v != 0;
    var tested, inner := before + [Tested(open.cond, v)], Push([OUTERMOST], After(0, code), ok, open.cmd);
    n := ReachBlock(w, file, code, open, fuel);
    if ok && Exec(w, body, tested, MAX_BLOCKS - 2, fuel).Through? {
      var j, stop := EndInside(w, file, line, body, inner, tested, id, fuel);
      Chain(w, file, Initial(), n, Live(line, inner, tested), j, stop);
      n := n + j;
    } else if !ok {
      var j, stop := EndIgnored(w, file, line, body, inner, tested, id);
      Chain(w, file, Initial(), n, Live(line, inner, tested), j, stop);
      n := n + j;
    }
  }

  lemma FileParts(file: seq<Cmd>, code: Code, open: Cmd, body: Code, id: nat)
    requires file == Flatten(code) + [open] + Flatten(body) + [Plain(id)]
    ensures At(file, 0, code) && After(0, code) < |file| && file[After(0, code)] == open
    ensures At(file, After(0, code) + 1, body) && |file| == After(After(0, code) + 1, body) + 1
    ensures file[After(After(0, code) + 1, body)] == Plain(id)
  {
  }

  /** Up to a block that follows the code. */
  lemma ReachBlock(w: World, file: seq<Cmd>, code: Code, open: Cmd, fuel: nat) returns (n: nat)
    requires WellFormed(code) && At(file, 0, code) && open.Open? && Exec(w, code, [], MAX_BLOCKS - 1, fuel).Through?
    requires After(0, code) < |file| && file[After(0, code)] == open
    ensures
      var before := Exec(w, code, [], MAX_BLOCKS - 1, fuel).trace;
      var v := w.value(before, open.cond);
      Goes(w, file, Initial(), n,
           Live(After(0, code) + 1,
                Push([OUTERMOST], After(0, code), if open.negated then v == 0 else v != 0, open.cmd),
                before + [Tested(open.cond, v)]))
  {
    var at := Live(After(0, code), [OUTERMOST], Exec(w, code, [], MAX_BLOCKS - 1, fuel).trace);
    var m := Simulates(w, file, code, 0, [OUTERMOST], [], fuel);
    var s1 := Step(w, file, at);
    assert Steps(w, file, s1, 0) == s1;
    Chain(w, file, Initial(), m, at, 1, s1);
    n := m + 1;
  }

  lemma EndInside(w: World, file: seq<Cmd>, line: nat, body: Code, stack: seq<Block>, trace: seq<Event>, id: nat,
                  fuel: nat)
    returns (n: nat, stop: Status)
    requires At(file, line, body) && WellFormed(body) && StackOk(stack) && |stack| > 1 && stack[|stack| - 1].ok
    requires |file| == After(line, body) + 1 && file[After(line, body)] == Plain(id)
    requires Exec(w, body, trace, MAX_BLOCKS - |stack|, fuel).Through?
    ensures
      var inside := Exec(w, body, trace, MAX_BLOCKS - |stack|, fuel).trace;
      stop == Halted(inside + [Ran(id)], if w.act(inside, id).Fatal? then Failed else MissingEnd)
    ensures Goes(w, file, Live(line, stack, trace), n, stop)
  {
    var inside := Exec(w, body, trace, MAX_BLOCKS - |stack|, fuel).trace;
    var j := Simulates(w, file, body, line, stack, trace, fuel);
    stop := LastPlain(w, file, After(line, body), stack, inside, id);
    Chain(w, file, Live(line, stack, trace), j, Live(After(line, body), stack, inside), 2, stop);
    n := j + 2;
  }

  lemma EndIgnored(w: World, file: seq<Cmd>, line: nat, body: Code, stack: seq<Block>, trace: seq<Event>, id: nat)
    returns (n: nat, stop: Status)
    requires At(file, line, body) && StackOk(stack) && |stack| > 1 && !stack[|stack| - 1].ok
    requires |file| == After(line, body) + 1 && file[After(line, body)] == Plain(id)
    requires |stack| + Depth(body) <= MAX_BLOCKS
    ensures stop == Halted(trace, MissingEnd) && Goes(w, file, Live(line, stack, trace), n, stop)
  {
    var j := SkipsIgnored(w, file, body, line, stack, trace);
    stop := LastPlain(w, file, After(line, body), stack, trace, id);
    Chain(w, file, Live(line, stack, trace), j, Live(After(line, body), stack, trace), 2, stop);
    n := j + 2;
  }
  /** A command on the last line of a file, in an open block. */
  lemma LastPlain(w: World, file: seq<Cmd>, line: nat, stack: seq<Block>, trace: seq<Event>, id: nat)
    returns (stop: Status)
    requires |file| == line + 1 && file[line] == Plain(id) && StackOk(stack) && |stack| > 1
    ensures Goes(w, file, Live(line, stack, trace), 2, stop)
    ensures stop == if !stack[|stack| - 1].ok then Halted(trace, MissingEnd)
                    else Halted(trace + [Ran(id)], if w.act(trace, id).Fatal? then Failed else MissingEnd)
  {
    var s1 := Step(w, file, Live(line, stack, trace));
    stop := Step(w, file, s1);
    assert Steps(w, file, stop, 0) == stop && Steps(w, file, s1, 1) == stop;
  }

  /** A program at most 31 blocks deep never overflows the block stack, and only such a program can
      run to its end. No well-nested program finds a block missing or left open. */
  lemma {:induction false} DepthDecides(w: World, code: Code, trace: seq<Event>, room: nat, fuel: nat)
    ensures
      var r := Exec(w, code, trace, room, fuel);
      && (Depth(code) <= room ==> r.Stopped? ==> !r.why.TooDeep?)
      && (r.Through? ==> Depth(code) <= room)
      && (r.Stopped? ==> r.why.TooDeep? || r.why.Exited? || r.why.Failed?)
    decreases fuel, code
  {
    match code
    case Empty =>
    case Do(id, next) =>
      DepthDecides(w, next, trace + [Ran(id)], room, fuel);
    case Nest(cmd, cond, negated, body, next) =>
      if room > 0 {
        var v := w.value(trace, cond);
        var entered := trace + [Tested(cond, v)];
        DepthDecides(w, next, entered, room, fuel);
        DepthDecides(w, body, entered, room - 1, fuel);
        var r := Exec(w, body, entered, room - 1, fuel);
        if (if negated then v == 0 else v != 0) && r.Through? {
          DepthDecides(w, next, r.trace, room, fuel);
          if fuel > 0 {
            DepthDecides(w, code, r.trace, room, fuel - 1);
          }
        }
      }
  }
}
