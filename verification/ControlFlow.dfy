/** The control flow of drizzletest (client/drizzletest.cc): commands in one flat list, read
    lazily, with a block stack and line jumps for `if` and `while`. */
module ControlFlow {

  const MAX_BLOCKS: nat := 32

  datatype BlockCmd = NoBlock | IfBlock | WhileBlock

  /** A command as the main loop tells them apart. `Plain` is any command that a live block
      executes and an ignored block skips. */
  datatype Cmd = Plain(id: nat) | Open(cmd: BlockCmd, cond: nat, negated: bool) | Close

  /** What has happened so far: commands executed and conditions evaluated. */
  datatype Event = Ran(id: nat) | Tested(cond: nat, value: int)

  datatype Outcome = Continue | Exit | Fatal

  /** Executing a command and evaluating a condition may depend on everything that happened. */
  datatype World = World(act: (seq<Event>, nat) -> Outcome, value: (seq<Event>, nat) -> int)

  datatype Block = Block(line: nat, ok: bool, cmd: BlockCmd)

  datatype Why = EndOfFile | Exited | Failed | TooDeep | StrayEnd | MissingEnd

  /** `stack` holds the blocks from the outermost to the current one, whose own line is not in use. */
  datatype Machine = Machine(line: nat, stack: seq<Block>, trace: seq<Event>)

  datatype Status = Running(m: Machine) | Halted(trace: seq<Event>, why: Why)

  const OUTERMOST := Block(0, true, NoBlock)

  predicate Truth(value: int, negated: bool) { (value != 0) != negated }

  predicate StackOk(stack: seq<Block>) {
    && 1 <= |stack| <= MAX_BLOCKS
    && stack[|stack| - 1].line == 0
  }

  function Top(m: Machine): Block
    requires m.stack != []
  {
    m.stack[|m.stack| - 1]
  }

  /** do_block */
  function OpenBlock(w: World, m: Machine, c: Cmd): Status
    requires StackOk(m.stack) && c.Open?
  {
    if |m.stack| == MAX_BLOCKS then Halted(m.trace, TooDeep)
    else
      var outer := m.stack[|m.stack| - 1 := Top(m).(line := m.line)];
      if !Top(m).ok then Running(Machine(m.line + 1, outer + [Block(0, false, c.cmd)], m.trace))
      else
        var v := w.value(m.trace, c.cond);
        Running(Machine(m.line + 1, outer + [Block(0, Truth(v, c.negated), c.cmd)], m.trace + [Tested(c.cond, v)]))
  }

  /** do_done */
  function CloseBlock(m: Machine): Status
    requires StackOk(m.stack)
  {
    if |m.stack| == 1 then Halted(m.trace, StrayEnd)
    else
      var n := |m.stack| - 2;
      var stack := m.stack[..n] + [m.stack[n].(line := 0)];
      if Top(m).ok && Top(m).cmd.WhileBlock? then Running(Machine(m.stack[n].line, stack, m.trace))
      else Running(Machine(m.line + 1, stack, m.trace))
  }

  function PlainCommand(w: World, file: seq<Cmd>, m: Machine, id: nat): Status
    requires StackOk(m.stack)
  {
    if !Top(m).ok then Running(m.(line := m.line + 1))
    else
      var trace := m.trace + [Ran(id)];
      match w.act(m.trace, id)
      case Continue => Running(Machine(m.line + 1, m.stack, trace))
      case Fatal => Halted(trace, Failed)
      case Exit =>
        // The next command is still read before the loop ends.
        Halted(trace, if m.line + 1 >= |file| && |m.stack| > 1 then MissingEnd else Exited)
  }

  /** One turn of the main loop. */
  function Step(w: World, file: seq<Cmd>, s: Status): Status {
    if s.Halted? || !StackOk(s.m.stack) then s
    else
      var m := s.m;
      if m.line >= |file| then Halted(m.trace, if |m.stack| > 1 then MissingEnd else EndOfFile)
      else match file[m.line]
        case Plain(id) => PlainCommand(w, file, m, id)
        case Open(_, _, _) => OpenBlock(w, m, file[m.line])
        case Close => CloseBlock(m)
  }

  function Steps(w: World, file: seq<Cmd>, s: Status, n: nat): Status
    decreases n
  {
    if n == 0 then s else Steps(w, file, Step(w, file, s), n - 1)
  }

  function Initial(): Status { Running(Machine(0, [OUTERMOST], [])) }

  // -------------------------------------------------------------------------
  // The interpreter itself.

  class Interpreter {
    const world: World
    const input: seq<Cmd>          // the test file
    const blocks: array<Block>
    var curBlock: nat
    var currentLine: nat
    var readLines: nat
    var qLines: seq<Cmd>
    var trace: seq<Event>
    var halted: bool
    var why: Why

    ghost predicate Valid()
      reads this, blocks
    {
      && blocks.Length == MAX_BLOCKS && curBlock < MAX_BLOCKS
      && currentLine <= readLines <= |input| && qLines == input[..readLines]
      && forall k :: 0 <= k < curBlock ==> blocks[k].line < readLines
    }

    /** The stale line of the current block is not part of the state. */
    ghost function State(): Status
      reads this, blocks
      requires Valid()
    {
      if halted then Halted(trace, why)
      else Running(Machine(currentLine, blocks[..curBlock] + [blocks[curBlock].(line := 0)], trace))
    }

    constructor (world: World, input: seq<Cmd>)
      ensures Valid() && fresh(blocks) && this.world == world && this.input == input
      ensures State() == Initial()
    {
      this.world, this.input := world, input;
      blocks := new Block[MAX_BLOCKS](_ => Block(0, false, NoBlock));
      curBlock, currentLine, readLines, qLines, trace := 0, 0, 0, [], [];
      halted, why := false, EndOfFile;
      new;
      blocks[0] := Block(0, true, NoBlock);
    }

    /** read_command: a cached line, or the next one of the file. */
    method ReadCommand() returns (eof: bool, command: Cmd)
      requires Valid() && !halted
      modifies this`readLines, this`qLines, this`halted, this`why
      ensures Valid()
      ensures eof <==> currentLine >= |input|
      ensures !eof ==> !halted && currentLine < readLines && command == input[currentLine]
      ensures eof ==> halted && why == if curBlock > 0 then MissingEnd else EndOfFile
    {
      command := Close;
      if currentLine < readLines {
        return false, qLines[currentLine];
      }
      if readLines == |input| {
        halted, why := true, if curBlock > 0 then MissingEnd else EndOfFile;
        return true, command;
      }
      command := input[readLines];
      qLines := qLines + [command];
      readLines := readLines + 1;
      eof := false;
    }

    method DoBlock(command: Cmd)
      requires Valid() && !halted && currentLine < readLines && command.Open?
      modifies this`curBlock, this`currentLine, this`trace, this`halted, this`why, blocks
      ensures Valid() && State() == OpenBlock(world, old(State()).m, command)
    {
      if curBlock == MAX_BLOCKS - 1 {
        halted, why := true, TooDeep;
        return;
      }
      var ok := false;
      if blocks[curBlock].ok {
        var v := world.value(trace, command.cond);
        trace := trace + [Tested(command.cond, v)];
        ok := v != 0;
        if command.negated {
          ok := !ok;
        }
      }
      blocks[curBlock] := blocks[curBlock].(line := currentLine);
      currentLine, curBlock := currentLine + 1, curBlock + 1;
      blocks[curBlock] := blocks[curBlock].(cmd := command.cmd, ok := ok);
    }

    method DoDone()
      requires Valid() && !halted && currentLine < readLines
      modifies this`curBlock, this`currentLine, this`halted, this`why
      ensures Valid() && State() == CloseBlock(old(State()).m)
    {
      if curBlock == 0 {
        halted, why := true, StrayEnd;
        return;
      }
      if blocks[curBlock].ok && blocks[curBlock].cmd == WhileBlock {
        curBlock := curBlock - 1;
        currentLine := blocks[curBlock].line;
      } else {
        curBlock := curBlock - 1;
        currentLine := currentLine + 1;
      }
    }
  
    /** One turn of the main loop. After `exit` the loop still reads a command before it ends. */
    method Turn()
      requires Valid()
      modifies this`curBlock, this`currentLine, this`readLines, this`qLines, this`trace, this`halted, this`why, blocks
      ensures Valid() && State() == Step(world, input, old(State()))
    {
      if halted {
        return;
      }
      var eof, command := ReadCommand();
      if eof {
        return;
      }
      match command {
        case Open(_, _, _) => DoBlock(command);
        case Close => DoDone();
        case Plain(id) =>
          if blocks[curBlock].ok {
            var outcome := world.act(trace, id);
            trace := trace + [Ran(id)];
            if outcome == Fatal {
              halted, why := true, Failed;
              return;
            }
            currentLine := currentLine + 1;
            if outcome == Exit {
              eof, command := ReadCommand();
              halted, why := true, if eof && curBlock > 0 then MissingEnd else Exited;
            }
          } else {
            currentLine := currentLine + 1;
          }
      }
    }

    /** The main loop, for at most `fuel` turns. */
    method Run(fuel: nat)
      requires Valid()
      modifies this`curBlock, this`currentLine, this`readLines, this`qLines, this`trace, this`halted, this`why, blocks
      ensures Valid() && State() == Steps(world, input, old(State()), fuel)
    {
      for k := 0 to fuel
        invariant Valid()
        invariant Steps(world, input, State(), fuel - k) == Steps(world, input, old(State()), fuel)
      {
        Turn();
      }
    }
  }
}
