// The replay device model as it runs: its fields, the four callbacks with their checks in source
// order, and the interrupt thread one lock region or wait at a time. `model` is the protocol state
// of module Replay, which every method advances by exactly the step it performs.
module ReplayDevice {
  import opened CInts
  import opened TapeFormat
  import opened Replay

  class Replayer {
    const tape: seq<Record>
    const strict: Strictness
    var idx: nat
    var icount: nat
    var thread: ThreadPc
    ghost var model: State

    ghost predicate Valid()
      reads this
    {
      && model.tape == tape
      && model.strict == strict == DEFAULT_STRICTNESS
      && model.idx == idx
      && Icount(model) == icount
      && model.thread == thread
      && PrefixInv(model)
      && ThreadInv(model)
    }

    constructor (tape: seq<Record>)
      ensures Valid() && model == Init(tape)
    {
      this.tape := tape;
      strict := DEFAULT_STRICTNESS;
      idx := 0;
      icount := 0;
      thread := AtHead;
      model := Init(tape);
    }

    /** The head moves and everyone waiting for it is woken. */
    method Advance()
      modifies this`idx, this`thread
      ensures idx == old(idx) + 1 && thread == Wake(old(thread))
    {
      idx := idx + 1;
      match thread {
        case ParkedAtHead(_) => thread := ParkedAtHead(true);
        case ParkedAfterRaise(at, _) => thread := ParkedAfterRaise(at, true);
        case _ =>
      }
    }

    method TwintraceRead(address: nat, size: nat, pc: nat) returns (died: bool, value: nat)
      requires Valid()
      modifies this
      ensures Valid() && model == Step(old(model), Callback(Read(address, size, pc)))
      ensures !died <==>
                && old(idx) < |tape| && tape[old(idx)].kind == TT_R
                && tape[old(idx)].addr == address && tape[old(idx)].size == size
      ensures idx == if died then old(idx) else old(idx) + 1
      ensures !died ==> value == tape[old(idx)].value
    {
      hide PrefixInv, ThreadInv, TakeTurn, AsInt;
      BothInvs(model);
      DeliverKeepsPrefixInv(model, Read(address, size, pc));
      StepKeepsThreadInv(model, Callback(Read(address, size, pc)));
      model := Step(model, Callback(Read(address, size, pc)));
      value := 0;
      if idx >= |tape| { return true, value; }
      var e := tape[idx];
      if e.kind != TT_R { return true, value; }
      if strict.addr && e.addr != address { return true, value; }
      if strict.size && e.size != size { return true, value; }
      if strict.pc && e.pc != pc { return true, value; }
      Advance();
      return false, e.value;
    }

    method TwintraceWrite(address: nat, value: nat, size: nat, pc: nat) returns (died: bool)
      requires Valid()
      modifies this
      ensures Valid() && model == Step(old(model), Callback(Write(address, value, size, pc)))
      ensures !died <==>
                && old(idx) < |tape| && tape[old(idx)].kind == TT_W
                && tape[old(idx)].addr == address && tape[old(idx)].size == size && tape[old(idx)].value == value
      ensures idx == if died then old(idx) else old(idx) + 1
    {
      hide PrefixInv, ThreadInv, TakeTurn, AsInt;
      BothInvs(model);
      DeliverKeepsPrefixInv(model, Write(address, value, size, pc));
      StepKeepsThreadInv(model, Callback(Write(address, value, size, pc)));
      model := Step(model, Callback(Write(address, value, size, pc)));
      if idx >= |tape| { return true; }
      var e := tape[idx];
      if e.kind != TT_W { return true; }
      if strict.addr && e.addr != address { return true; }
      if strict.size && e.size != size { return true; }
      if strict.pc && e.pc != pc { return true; }
      if strict.value && e.value != value { return true; }
      Advance();
      return false;
    }

    method TwintraceInterrupt(line: int32) returns (died: bool)
      requires Valid()
      modifies this
      ensures Valid() && model == Step(old(model), Callback(Taken(line)))
      ensures !died <==>
                || line == 15
                || (old(idx) < |tape| && tape[old(idx)].kind == TT_IRQ_TAKEN &&
                    tape[old(idx)].addr == if line < 0 then U64 + line else line as nat)
      ensures idx == if died || line == 15 then old(idx) else old(idx) + 1
    {
      hide PrefixInv, ThreadInv, TakeTurn, AsInt;
      BothInvs(model);
      DeliverKeepsPrefixInv(model, Taken(line));
      StepKeepsThreadInv(model, Callback(Taken(line)));
      model := Step(model, Callback(Taken(line)));
      if line == IGNORED_LINE { return false; }
      if idx >= |tape| { return true; }
      var e := tape[idx];
      if e.kind != TT_IRQ_TAKEN { return true; }
      if e.addr != AsU64(line) { return true; }
      Advance();
      return false;
    }

    method TwintraceServe(line: int32) returns (died: bool)
      requires Valid()
      modifies this
      ensures Valid() && model == Step(old(model), Callback(Served(line)))
      ensures !died <==>
                || line == 15
                || (old(idx) < |tape| && tape[old(idx)].kind == TT_IRQ_SERVED &&
                    tape[old(idx)].addr == if line < 0 then U64 + line else line as nat)
      ensures idx == if died || line == 15 then old(idx) else old(idx) + 1
    {
      hide PrefixInv, ThreadInv, TakeTurn, AsInt;
      BothInvs(model);
      DeliverKeepsPrefixInv(model, Served(line));
      StepKeepsThreadInv(model, Callback(Served(line)));
      model := Step(model, Callback(Served(line)));
      if line == IGNORED_LINE { return false; }
      if idx >= |tape| { return true; }
      var e := tape[idx];
      if e.kind != TT_IRQ_SERVED { return true; }
      if e.addr != AsU64(line) { return true; }
      Advance();
      return false;
    }

    method IcountAdd(n: word)
      requires Valid()
      modifies this
      ensures Valid() && model == Step(old(model), Retire(n))
    {
      hide PrefixInv, ThreadInv, TakeTurn, Deliver;
      BothInvs(model);
      StepKeepsThreadInv(model, Retire(n));
      OthersKeepPrefixInv(model, Retire(n));
      CountsModulo(model.executed, n);
      model := Step(model, Retire(n));
      icount := (icount + n) % U64;
    }

    static lemma CountsModulo(executed: nat, n: nat)
      ensures (executed + n) % U64 == (executed % U64 + n) % U64
    {
    }

    /** One turn of the interrupt thread; a line is returned when this turn raised it. */
    method IrqThreadTurn() returns (raised: bool, line: int32)
      requires Valid()
      modifies this
      ensures Valid() && model == Step(old(model), ThreadTurn)
      ensures raised == old(thread).Raising?
      ensures raised ==> old(thread).at < |tape| && line == AsInt(tape[old(thread).at].addr)
    {
      hide PrefixInv, ThreadInv, AsInt, Deliver;
      TurnKeepsTheRest(model);
      BothInvs(model);
      model := Step(model, ThreadTurn);
      raised, line := false, 0;
      match thread {
        case AtHead => LookForInterrupt();
        case ParkedAtHead(woken) => if woken { LookForInterrupt(); }
        case Gate(at) =>
          if icount < tape[at].icount { thread := Recheck(at); } else { thread := Confirm(at, icount); }
        case Recheck(at) => if idx != at { thread := AtHead; } else { thread := Gate(at); }
        case Confirm(at, seen) => if idx != at { thread := AtHead; } else { thread := Raising(at, seen); }
        case Raising(at, seen) =>
          raised, line := true, AsInt(tape[at].addr);
          thread := AfterRaise(at);
        case AfterRaise(at) => if idx == at { thread := ParkedAfterRaise(at, false); } else { thread := AtHead; }
        case ParkedAfterRaise(at, woken) =>
          if woken {
            if idx == at { thread := ParkedAfterRaise(at, false); } else { thread := AtHead; }
          }
        case Finished =>
      }
    }

    /** The loop head of the thread, entered with the mutex held. */
    method LookForInterrupt()
      modifies this`thread
      ensures thread == if idx >= |tape| then Finished
                        else if tape[idx].kind == TT_IRQ_TAKEN then Gate(idx)
                        else ParkedAtHead(false)
    {
      if idx >= |tape| {
        thread := Finished;
      } else if tape[idx].kind == TT_IRQ_TAKEN {
        thread := Gate(idx);
      } else {
        thread := ParkedAtHead(false);
      }
    }
  }
}
