/** Signal delivery and return (kernel/src/Scheduling/Process.cpp): the interrupted state is
    saved, the code at the point of interruption is overwritten with a return sequence, and
    all of it is put back by the return call. */
module Signals {
  import opened Bytes

  datatype Registers = Registers(rip: nat, rsp: nat, rdi: nat, other: seq<nat>)

  datatype Metadata = Metadata(inHandler: bool, oldRegs: Registers, oldIns: seq<Byte>, extra: nat)

  const SIG_MIN := 1
  const SIG_MAX := 8

  datatype State = State(regs: Registers, mem: Memory, meta: seq<Metadata>)

  predicate IsSignal(sig: int)
  {
    SIG_MIN <= sig <= SIG_MAX
  }

  /** `mov rax, 29; mov edi, sig; syscall`. */
  function ReturnInstructions(sig: int): (s: seq<Byte>)
    requires IsSignal(sig)
    ensures |s| == 14
  {
    [0x48, 0xC7, 0xC0, 0x1D, 0, 0, 0, 0xBF, sig, 0, 0, 0, 0x0F, 0x05]
  }

  predicate Active(st: State, sig: int)
    requires |st.meta| == SIG_MAX && IsSignal(sig)
  {
    st.meta[sig - SIG_MIN].inHandler
  }

  /** The state in which the handler starts. */
  function Delivered(st: State, sig: int, handler: nat): State
    requires |st.meta| == SIG_MAX && IsSignal(sig) && st.regs.rsp >= 8
  {
    var top := st.regs.rsp - 8;
    var pushed := Store(st.mem, top, Little(st.regs.rip, 8));
    var meta := Metadata(true, st.regs, Load(pushed, st.regs.rip, 14), FromLittle(Load(st.mem, top, 8)));
    State(st.regs.(rip := handler, rsp := top, rdi := sig),
          Store(pushed, st.regs.rip, ReturnInstructions(sig)),
          st.meta[sig - SIG_MIN := meta])
  }

  /** The state after the return call. */
  function Returned(st: State, sig: int): State
    requires |st.meta| == SIG_MAX && IsSignal(sig) && st.meta[sig - SIG_MIN].oldRegs.rsp >= 8
  {
    var saved := st.meta[sig - SIG_MIN];
    State(saved.oldRegs,
          Store(Store(st.mem, saved.oldRegs.rip, saved.oldIns), saved.oldRegs.rsp - 8, Little(saved.extra, 8)),
          st.meta[sig - SIG_MIN := saved.(inHandler := false)])
  }

  class Process {
    var regs: Registers
    var mem: Memory
    var meta: seq<Metadata>

    function Current(): State
      reads this
    {
      State(regs, mem, meta)
    }

    /** The handler branch of `ReceiveSignal`, on a stack and code that pass validation. */
    method ReceiveSignal(sig: int, handler: nat)
      requires |meta| == SIG_MAX && IsSignal(sig) && regs.rsp >= 8
      modifies this
      ensures Current() ==
                if Active(old(Current()), sig) then old(Current()) else Delivered(old(Current()), sig, handler)
    {
      var k := sig - SIG_MIN;
      if meta[k].inHandler {
        return;
      }
      var m := meta[k].(oldRegs := regs, inHandler := true);
      var instructions := ReturnInstructions(sig);
      regs := regs.(rsp := regs.rsp - 8);
      m := m.(extra := FromLittle(Load(mem, regs.rsp, 8)));
      mem := Store(mem, regs.rsp, Little(regs.rip, 8));
      m := m.(oldIns := Load(mem, regs.rip, |instructions|));
      mem := Store(mem, regs.rip, instructions);
      regs := regs.(rip := handler, rdi := sig);
      meta := meta[k := m];
    }

    /** `sys_sigreturn`, on code that passes validation. */
    method SigReturn(sig: int)
      requires |meta| == SIG_MAX && IsSignal(sig) && meta[sig - SIG_MIN].oldRegs.rsp >= 8
      modifies this
      ensures Current() == Returned(old(Current()), sig)
    {
      var k := sig - SIG_MIN;
      regs := meta[k].oldRegs;
      mem := Store(mem, regs.rip, meta[k].oldIns);
      mem := Store(mem, regs.rsp - 8, Little(meta[k].extra, 8));
      meta := meta[k := meta[k].(inHandler := false)];
    }
  }

  // ---- Runs ----------------------------------------------------------------------------

  /** A well-nested run: user code changes registers and memory at will, and each delivered
      signal is returned from after a run of its own. */
  datatype Run =
    | Done
    | User(regs: Registers, mem: Memory, rest: Run)
    | Signal(sig: int, handler: nat, body: Run, rest: Run)

  predicate CanDeliver(st: State, sig: int)
    requires |st.meta| == SIG_MAX
  {
    IsSignal(sig) && st.regs.rsp >= 8 && !Active(st, sig)
  }

  /** Running keeps the records of the signals being handled, and which ones are. */
  ghost predicate SameHandlers(st: State, st': State)
  {
    && |st.meta| == |st'.meta| == SIG_MAX
    && (forall k :: 0 <= k < SIG_MAX ==> st'.meta[k].inHandler == st.meta[k].inHandler)
    && (forall k :: 0 <= k < SIG_MAX && st.meta[k].inHandler ==> st'.meta[k] == st.meta[k])
  }

  /** Delivery, a run that keeps its record, and the return leave the records as they were. */
  lemma HandledOnce(st: State, sig: int, handler: nat, ran: State)
    requires |st.meta| == SIG_MAX && CanDeliver(st, sig) && SameHandlers(Delivered(st, sig, handler), ran)
    ensures ran.meta[sig - SIG_MIN].oldRegs == st.regs && SameHandlers(st, Returned(ran, sig))
  {
    hide Store, Load, Little, FromLittle, ReturnInstructions;
  }

  /** The state a run ends in; a signal already being handled is ignored. */
  ghost function Exec(run: Run, st: State): (st': State)
    requires |st.meta| == SIG_MAX
    ensures SameHandlers(st, st')
    decreases run
  {
    match run
    case Done => st
    case User(regs, mem, rest) => Exec(rest, st.(regs := regs, mem := mem))
    case Signal(sig, handler, body, rest) =>
      if CanDeliver(st, sig) then
        var ran := Exec(body, Delivered(st, sig, handler));
        HandledOnce(st, sig, handler, ran);
        Exec(rest, Returned(ran, sig))
      else Exec(rest, st)
  }

  /** Address `a` holds the stack word or an instruction byte that delivery overwrites. */
  predicate InFrame(regs: Registers, a: nat)
  {
    regs.rsp - 8 <= a < regs.rsp || regs.rip <= a < regs.rip + 14
  }

  /** The handler starts at its first instruction with the signal as its argument and the return
      address on top of its stack; the signal counts as being handled, no other record changes,
      and no other register does. */
  lemma HandlerStarts(st: State, sig: int, handler: nat)
    requires |st.meta| == SIG_MAX && CanDeliver(st, sig)
    ensures var st' := Delivered(st, sig, handler);
            && st'.regs.rip == handler && st'.regs.rdi == sig && st'.regs.rsp + 8 == st.regs.rsp
            && st'.regs.other == st.regs.other
            && |st'.meta| == SIG_MAX && Active(st', sig)
            && (forall k :: IsSignal(k) && k != sig ==> st'.meta[k - SIG_MIN] == st.meta[k - SIG_MIN])
  {
    hide Store, Load, Little, FromLittle, ReturnInstructions;
  }

  const SIGRETURN := 29

  /** The return sequence loads the number of the return call into rax and the signal into edi,
      each as a 32-bit constant, and makes the call. */
  lemma ReturnSequence(sig: int)
    requires IsSignal(sig)
    ensures var c := ReturnInstructions(sig);
            && c[..3] == [0x48, 0xC7, 0xC0] && FromLittle(c[3..7]) == SIGRETURN
            && c[7] == 0xBF && FromLittle(c[8..12]) == sig
            && c[12..] == [0x0F, 0x05]
  {
    var c := ReturnInstructions(sig);
    SmallWord(c[3..7]);
    SmallWord(c[8..12]);
  }

  lemma SmallWord(s: seq<Byte>)
    requires |s| == 4 && s[1..] == [0, 0, 0]
    ensures FromLittle(s) == s[0]
  {
    assert FromLittle(s[1..][2..]) == 0;
    assert FromLittle(s[1..][1..]) == 0 && FromLittle(s[1..]) == 0;
  }

  /** Whatever ran in between, a return puts back the registers and every overwritten byte,
      overlapping or not, and touches no other byte. */
  lemma ReturnRestores(sig: int, handler: nat, body: Run, st: State)
    requires |st.meta| == SIG_MAX && CanDeliver(st, sig)
    ensures var ran := Exec(body, Delivered(st, sig, handler));
            var back := Returned(ran, sig);
            && back.regs == st.regs && !Active(back, sig) && SameHandlers(st, back)
            && forall a: nat :: back.mem(a) == if InFrame(st.regs, a) then st.mem(a) else ran.mem(a)
  {
    hide Store, Little, FromLittle, ReturnInstructions;
    var ran := Exec(body, Delivered(st, sig, handler));
    var back := Returned(ran, sig);
    forall a: nat ensures back.mem(a) == if InFrame(st.regs, a) then st.mem(a) else ran.mem(a) {
      Undone(st.mem, ran.mem, st.regs, a);
    }
  }

  /** Writing back the instructions and then the word undoes the two writes in the other order. */
  lemma Undone(m: Memory, m': Memory, regs: Registers, a: nat)
    requires regs.rsp >= 8
    ensures var top := regs.rsp - 8;
            var pushed := Store(m, top, Little(regs.rip, 8));
            Store(Store(m', regs.rip, Load(pushed, regs.rip, 14)), top, Little(FromLittle(Load(m, top, 8)), 8))(a)
            == if InFrame(regs, a) then m(a) else m'(a)
  {
    hide Little, FromLittle;
    LittleFromLittle(Load(m, regs.rsp - 8, 8));
  }

  /** No user step of the run changes the byte at `a`. */
  ghost predicate Leaves(run: Run, st: State, a: nat)
    requires |st.meta| == SIG_MAX
    decreases run
  {
    match run
    case Done => true
    case User(regs, mem, rest) => mem(a) == st.mem(a) && Leaves(rest, st.(regs := regs, mem := mem), a)
    case Signal(sig, handler, body, rest) =>
      if CanDeliver(st, sig) then
        var start := Delivered(st, sig, handler);
        Leaves(body, start, a) && Leaves(rest, Returned(Exec(body, start), sig), a)
      else Leaves(rest, st, a)
  }

  /** The kernel leaves no trace: a byte no user step changes is unchanged over the whole run. */
  lemma {:induction false} NoTrace(run: Run, st: State, a: nat)
    requires |st.meta| == SIG_MAX && Leaves(run, st, a)
    ensures Exec(run, st).mem(a) == st.mem(a)
    decreases run
  {
    match run
    case Done =>
    case User(regs, mem, rest) => NoTrace(rest, st.(regs := regs, mem := mem), a);
    case Signal(sig, handler, body, rest) =>
      if CanDeliver(st, sig) {
        var start := Delivered(st, sig, handler);
        NoTrace(body, start, a);
        ReturnRestores(sig, handler, body, st);
        DeliveredMemory(st, sig, handler, a);
        NoTrace(rest, Returned(Exec(body, start), sig), a);
      } else {
        NoTrace(rest, st, a);
      }
  }

  lemma DeliveredMemory(st: State, sig: int, handler: nat, a: nat)
    requires |st.meta| == SIG_MAX && CanDeliver(st, sig)
    ensures !InFrame(st.regs, a) ==> Delivered(st, sig, handler).mem(a) == st.mem(a)
    ensures st.regs.rip <= a < st.regs.rip + 14 ==>
              Delivered(st, sig, handler).mem(a) == ReturnInstructions(sig)[a - st.regs.rip]
    ensures st.regs.rsp - 8 <= a < st.regs.rsp && !(st.regs.rip <= a < st.regs.rip + 14) ==>
              Delivered(st, sig, handler).mem(a) == Little(st.regs.rip, 8)[a - (st.regs.rsp - 8)]
  {
    hide Little, FromLittle, ReturnInstructions;
  }

  /** When the handler is done, the word it returns to is the point of interruption and the
      code there is the return sequence, provided user code left both alone and they are apart. */
  lemma HandlerReturnsToTrap(sig: int, handler: nat, body: Run, st: State)
    requires |st.meta| == SIG_MAX && CanDeliver(st, sig) && st.regs.rip < Range(8)
    requires st.regs.rsp <= st.regs.rip || st.regs.rip + 14 <= st.regs.rsp - 8
    requires forall a: nat :: InFrame(st.regs, a) ==> Leaves(body, Delivered(st, sig, handler), a)
    ensures var ran := Exec(body, Delivered(st, sig, handler));
            && FromLittle(Load(ran.mem, st.regs.rsp - 8, 8)) == st.regs.rip
            && Load(ran.mem, st.regs.rip, 14) == ReturnInstructions(sig)
  {
    hide Little, FromLittle, ReturnInstructions, Leaves, Exec, Store;
    var start := Delivered(st, sig, handler);
    var ran := Exec(body, start);
    forall a: nat | InFrame(st.regs, a) ensures ran.mem(a) == start.mem(a) {
      NoTrace(body, start, a);
    }
    forall a: nat {
      DeliveredMemory(st, sig, handler, a);
    }
    assert Load(ran.mem, st.regs.rsp - 8, 8) == Little(st.regs.rip, 8);
    FromLittleLittle(st.regs.rip, 8);
  }
}
