/**
  Running injected code and putting everything back (pwndbg/aglib/shellcode.py:63-171,
  pwndbg/commands/hijack_fd.py:117-138).
 */
module Shellcode {
  import opened Options

  type Byte = b: int | 0 <= b < 256

  type Memory = map<int, Byte>

  datatype Machine = Machine(mem: Memory, regs: map<string, int>)

  datatype Error = NoPage | NoSpace | Misaligned | Fault | NoRegister | RunFailed | WrongTarget | StackCorrupt | BodyFailed

  /** How a bracket ends: normally or by an exception. */
  datatype Exit = Done | Raised(error: Error)

  /**
    The architecture and the memory map: `preserved` are the general, argument,
    program-counter and stack registers, `pageEnd` is the end of the page found
    at an address.
   */
  datatype Arch = Arch(pc: string, sp: string, others: seq<string>, alignment: nat, pageEnd: int -> Option<int>) {
    function Preserved(): set<string> { (set r | r in others) + {pc, sp} }
  }

  /** Something that happens to the machine, and how it ends. */
  type Step = Machine -> (Machine, Exit)

  // ----- Memory and registers -----

  predicate Mapped(mem: Memory, addr: int, n: nat) { forall a | addr <= a < addr + n :: a in mem }

  function ReadMem(mem: Memory, addr: int, n: nat): Option<seq<Byte>> {
    if Mapped(mem, addr, n) then Some(seq(n, i requires 0 <= i < n && Mapped(mem, addr, n) => mem[addr + i])) else None
  }

  function Overwritten(mem: Memory, addr: int, data: seq<Byte>): Memory {
    map a | a in mem :: if addr <= a < addr + |data| then data[a - addr] else mem[a]
  }

  function WriteMem(mem: Memory, addr: int, data: seq<Byte>): Option<Memory> {
    if Mapped(mem, addr, |data|) then Some(Overwritten(mem, addr, data)) else None
  }

  /** The finally clauses that write memory: a failing write replaces the exception in flight. */
  function PutBack(r: (Machine, Exit), addr: int, data: seq<Byte>): (Machine, Exit) {
    var mem := WriteMem(r.0.mem, addr, data);
    if mem.None? then (r.0, Raised(Fault)) else (r.0.(mem := mem.value), r.1)
  }

  // ----- The context managers -----

  /** Whether the code fits the rest of its page: one byte stays free. */
  function Clearance(arch: Arch, start: int, size: nat): Option<int> {
    var end := arch.pageEnd(start);
    if end.None? then None else Some(end.value - start - size - 1)
  }

  /** _ctx_code around `body`. */
  function WithCode(arch: Arch, m: Machine, start: int, blob: seq<Byte>, body: Step): (Machine, Exit) {
    var clearance := Clearance(arch, start, |blob|);
    if clearance.None? then (m, Raised(NoPage))
    else if clearance.value < 0 then (m, Raised(NoSpace))
    else
      var existing := ReadMem(m.mem, start, |blob|);
      if existing.None? then (m, Raised(Fault))
      else PutBack(body(m.(mem := Overwritten(m.mem, start, blob))), start, existing.value)
  }

  function Saved(arch: Arch, m: Machine): Option<map<string, int>> {
    if arch.Preserved() <= m.regs.Keys then Some(map r | r in arch.Preserved() && r in m.regs :: m.regs[r]) else None
  }

  /** _ctx_registers around `body`, which gets the address for the code. */
  function WithRegisters(arch: Arch, m: Machine, body: int -> Step): (Machine, Exit) {
    var saved := Saved(arch, m);
    if saved.None? then (m, Raised(NoRegister))
    else
      var start := m.regs[arch.pc] + arch.alignment;
      if arch.alignment == 0 || start % arch.alignment != 0 then (m, Raised(Misaligned))
      else
        var (after, exit) := body(start)(m.(regs := m.regs[arch.pc := start]));
        (after.(regs := after.regs + saved.value), exit)
  }

  /** What happens between the swap and the restore: run to the end of the code, then the caller's block. */
  function Body(arch: Arch, target: int, run: Step, caller: Step, m: Machine): (Machine, Exit) {
    var (ran, exit) := run(m);
    if exit.Raised? then (ran, exit)
    else if arch.pc !in ran.regs || ran.regs[arch.pc] != target then (ran, Raised(WrongTarget))
    else caller(ran)
  }

  function BodyStep(arch: Arch, target: int, run: Step, caller: Step): Step {
    m => Body(arch, target, run, caller, m)
  }

  /** The inner context manager, by the address for the code. */
  function CodeStep(arch: Arch, blob: seq<Byte>, run: Step, caller: Step): int -> Step {
    start => m => WithCode(arch, m, start, blob, BodyStep(arch, start + |blob|, run, caller))
  }

  function Exec(arch: Arch, m: Machine, blob: seq<Byte>, run: Step, caller: Step): (Machine, Exit) {
    WithRegisters(arch, m, CodeStep(arch, blob, run, caller))
  }

  /** The stack check, then the caller's block. */
  function Checked(arch: Arch, sp: int, size: nat, caller: Step, m: Machine): (Machine, Exit) {
    if arch.sp !in m.regs then (m, Raised(NoRegister))
    else if sp - m.regs[arch.sp] > size then (m, Raised(StackCorrupt))
    else caller(m)
  }

  function CheckedStep(arch: Arch, sp: int, size: nat, caller: Step): Step {
    m => Checked(arch, sp, size, caller, m)
  }

  function ExecWithStack(arch: Arch, m: Machine, blob: seq<Byte>, size: nat, run: Step, caller: Step): (Machine, Exit) {
    if arch.sp !in m.regs then (m, Raised(NoRegister))
    else
      var sp := m.regs[arch.sp];
      var original := ReadMem(m.mem, sp - size, size);
      if original.None? then (m, Raised(Fault))
      else PutBack(Exec(arch, m, blob, run, CheckedStep(arch, sp, size, caller)), sp - size, original.value)
  }

  // ----- The inferior -----

  class Inferior {
    const arch: Arch
    var mem: Memory
    var regs: map<string, int>

    constructor (arch: Arch, m: Machine)
      ensures this.arch == arch && Now() == m
    {
      this.arch, mem, regs := arch, m.mem, m.regs;
    }

    ghost function Now(): Machine
      reads this
    {
      Machine(mem, regs)
    }

    method Read(addr: int, n: nat) returns (r: Option<seq<Byte>>)
      ensures r == ReadMem(mem, addr, n)
    {
      r := ReadMem(mem, addr, n);
    }

    method Write(addr: int, data: seq<Byte>) returns (ok: bool)
      modifies this`mem
      ensures match WriteMem(old(mem), addr, data)
              case None => !ok && mem == old(mem)
              case Some(written) => ok && mem == written
    {
      var written := WriteMem(mem, addr, data);
      if written.None? {
        return false;
      }
      mem := written.value;
      ok := true;
    }

    /** A finally clause that writes memory. */
    method WriteBack(addr: int, data: seq<Byte>, exit0: Exit) returns (exit: Exit)
      modifies this
      ensures (Now(), exit) == PutBack((old(Now()), exit0), addr, data)
    {
      var ok := Write(addr, data);
      exit := if ok then exit0 else Raised(Fault);
    }

    /** Let something happen to the machine. */
    method Happen(step: Step) returns (exit: Exit)
      modifies this
      ensures (Now(), exit) == step(old(Now()))
    {
      var (after, e) := step(Machine(mem, regs));
      mem, regs := after.mem, after.regs;
      exit := e;
    }

    method RunAndYield(target: int, run: Step, caller: Step) returns (exit: Exit)
      modifies this
      ensures (Now(), exit) == Body(arch, target, run, caller, old(Now()))
    {
      exit := Happen(run);
      if exit.Raised? {
        return;
      }
      if arch.pc !in regs || regs[arch.pc] != target {
        return Raised(WrongTarget);
      }
      exit := Happen(caller);
    }

    method CtxCode(start: int, blob: seq<Byte>, run: Step, caller: Step) returns (exit: Exit)
      modifies this
      ensures (Now(), exit) == WithCode(arch, old(Now()), start, blob, BodyStep(arch, start + |blob|, run, caller))
    {
      var clearance := Clearance(arch, start, |blob|);
      if clearance.None? {
        return Raised(NoPage);
      }
      if clearance.value < 0 {
        return Raised(NoSpace);
      }
      var existing := Read(start, |blob|);
      if existing.None? {
        return Raised(Fault);
      }
      var ok := Write(start, blob);
      exit := RunAndYield(start + |blob|, run, caller);
      exit := WriteBack(start, existing.value, exit);
    }

    method ExecShellcode(blob: seq<Byte>, run: Step, caller: Step) returns (exit: Exit)
      modifies this
      ensures (Now(), exit) == Exec(arch, old(Now()), blob, run, caller)
    {
      hide WithCode;
      hide BodyStep;
      SavedPc(arch, Machine(mem, regs));
      hide Saved;
      var registers := Saved(arch, Machine(mem, regs));
      if registers.None? {
        return Raised(NoRegister);
      }
      var startingAddress := registers.value[arch.pc];
      var shellStartingAddress := startingAddress + arch.alignment;
      if arch.alignment == 0 || shellStartingAddress % arch.alignment != 0 {
        return Raised(Misaligned);
      }
      regs := regs[arch.pc := shellStartingAddress];
      ghost var ran := old(Now()).(regs := regs);
      ghost var swapped := WithCode(arch, ran, shellStartingAddress, blob, BodyStep(arch, shellStartingAddress + |blob|, run, caller));
      exit := CtxCode(shellStartingAddress, blob, run, caller);
      assert (Now(), exit) == swapped;
      regs := regs[arch.pc := startingAddress];
      regs := regs + registers.value;
      SetBefore(swapped.0.regs, arch.pc, startingAddress, registers.value);
    }

    method ExecShellcodeWithStack(blob: seq<Byte>, size: nat, run: Step, caller: Step) returns (exit: Exit)
      modifies this
      ensures (Now(), exit) == ExecWithStack(arch, old(Now()), blob, size, run, caller)
    {
      if arch.sp !in regs {
        return Raised(NoRegister);
      }
      StackBracket(arch, Now(), blob, size, run, caller);
      hide ExecWithStack;
      hide Exec;
      hide CheckedStep;
      hide ReadMem;
      hide PutBack;
      var stackStartDiff := regs[arch.sp];
      var stackStart := stackStartDiff - size;
      var originalStack := Read(stackStart, size);
      if originalStack.None? {
        return Raised(Fault);
      }
      exit := ExecShellcode(blob, run, CheckedStep(arch, stackStartDiff, size, caller));
      exit := WriteBack(stackStart, originalStack.value, exit);
    }
  }

  lemma SavedPc(arch: Arch, m: Machine)
    ensures Saved(arch, m).Some? ==> arch.pc in m.regs && arch.pc in Saved(arch, m).value && Saved(arch, m).value[arch.pc] == m.regs[arch.pc]
  {
  }

  lemma SetBefore(regs: map<string, int>, r: string, v: int, saved: map<string, int>)
    requires r in saved && saved[r] == v
    ensures regs[r := v] + saved == regs + saved
  {
  }

  // ----- What the brackets do, whatever happens inside -----

  /** Entering succeeds exactly when there is a page, a byte to spare behind the code, and memory under it. */
  ghost predicate Fits(arch: Arch, m: Machine, start: int, blob: seq<Byte>) {
    arch.pageEnd(start).Some? && start + |blob| < arch.pageEnd(start).value && Mapped(m.mem, start, |blob|)
  }

  /** Code that fills its page to the last byte is refused, like anything longer, and nothing is changed. */
  lemma NoSpaceExactly(arch: Arch, m: Machine, start: int, blob: seq<Byte>, body: Step)
    requires arch.pageEnd(start).Some? && body(m.(mem := Overwritten(m.mem, start, blob))).1 != Raised(NoSpace)
    ensures WithCode(arch, m, start, blob, body).1 == Raised(NoSpace) <==> start + |blob| >= arch.pageEnd(start).value
    ensures !Fits(arch, m, start, blob) ==> WithCode(arch, m, start, blob, body).0 == m
  {
  }

  /** The code window gets its old bytes back, everything else stays as the body left it, and so does its ending. */
  lemma CodeEffect(arch: Arch, m: Machine, start: int, blob: seq<Byte>, body: Step)
    requires Fits(arch, m, start, blob)
    requires Mapped(body(m.(mem := Overwritten(m.mem, start, blob))).0.mem, start, |blob|)
    ensures var (r, exit) := WithCode(arch, m, start, blob, body);
            var (left, ending) := body(m.(mem := Overwritten(m.mem, start, blob)));
            && exit == ending && r.regs == left.regs && r.mem.Keys == left.mem.Keys
            && forall a | a in left.mem :: r.mem[a] == if start <= a < start + |blob| then m.mem[a] else left.mem[a]
  {
  }

  // ----- Everything is put back -----

  /** `after` is `before` but for the addresses in the two windows and the preserved registers. */
  ghost predicate Within(arch: Arch, before: Machine, after: Machine, code: (int, int), stack: (int, int)) {
    && after.mem.Keys == before.mem.Keys
    && after.regs.Keys + arch.Preserved() == before.regs.Keys + arch.Preserved()
    && (forall a | a in before.mem && !(code.0 <= a < code.1) && !(stack.0 <= a < stack.1) :: after.mem[a] == before.mem[a])
    && (forall r | r in before.regs && r !in arch.Preserved() :: r in after.regs && after.regs[r] == before.regs[r])
  }

  const NOWHERE := (0, 0)

  lemma WithinTrans(arch: Arch, a: Machine, b: Machine, c: Machine, code: (int, int), stack: (int, int))
    requires Within(arch, a, b, code, stack) && Within(arch, b, c, code, stack)
    ensures Within(arch, a, c, code, stack)
  {
  }

  function Start(arch: Arch, m: Machine): int
    requires arch.pc in m.regs
  {
    m.regs[arch.pc] + arch.alignment
  }

  function CodeWindow(arch: Arch, m: Machine, blob: seq<Byte>): (int, int)
    requires arch.pc in m.regs
  {
    (Start(arch, m), Start(arch, m) + |blob|)
  }

  /** Whether the brackets are entered at all. */
  ghost predicate Entered(arch: Arch, m: Machine, blob: seq<Byte>)
    requires arch.pc in m.regs
  {
    && arch.Preserved() <= m.regs.Keys
    && arch.alignment != 0 && Start(arch, m) % arch.alignment == 0
    && Fits(arch, m, Start(arch, m), blob)
  }

  /** The machine on which the code begins to run. */
  function Loaded(arch: Arch, m: Machine, blob: seq<Byte>): Machine
    requires arch.pc in m.regs
  {
    Machine(Overwritten(m.mem, Start(arch, m), blob), m.regs[arch.pc := Start(arch, m)])
  }

  /** The machine that code and caller leave, before anything is put back. */
  function LeftBy(arch: Arch, m: Machine, blob: seq<Byte>, run: Step, caller: Step): Machine
    requires arch.pc in m.regs
  {
    BodyStep(arch, Start(arch, m) + |blob|, run, caller)(Loaded(arch, m, blob)).0
  }

  /** If the code runs at all, it and the caller together change only the code window, `stack`, and preserved registers. */
  ghost predicate Spares(arch: Arch, m: Machine, blob: seq<Byte>, run: Step, caller: Step, stack: (int, int))
    requires arch.pc in m.regs
  {
    Entered(arch, m, blob) ==>
      Within(arch, Loaded(arch, m, blob), LeftBy(arch, m, blob, run, caller), CodeWindow(arch, m, blob), stack)
  }

  /** After the code is put back, exactly what lies outside the code window may differ. */
  lemma CodePutBack(arch: Arch, m: Machine, start: int, blob: seq<Byte>, body: Step, stack: (int, int))
    requires Fits(arch, m, start, blob)
    ensures var m2 := m.(mem := Overwritten(m.mem, start, blob));
            Within(arch, m, WithCode(arch, m, start, blob, body).0, NOWHERE, stack)
            <==> Within(arch, m2, body(m2).0, (start, start + |blob|), stack)
  {
    var m2 := m.(mem := Overwritten(m.mem, start, blob));
    if Mapped(body(m2).0.mem, start, |blob|) {
      CodeEffect(arch, m, start, blob, body);
      hide WithCode;
    } else {
      assert WithCode(arch, m, start, blob, body).0 == body(m2).0;
      assert body(m2).0.mem.Keys != m.mem.Keys;
      hide WithCode;
    }
  }

  lemma SavedBack(arch: Arch, m: Machine, after: map<string, int>)
    requires arch.Preserved() <= m.regs.Keys
    ensures after + Saved(arch, m).value == m.regs
            <==> after.Keys + arch.Preserved() == m.regs.Keys && forall r | r in m.regs && r !in arch.Preserved() :: r in after && after[r] == m.regs[r]
  {
    var saved := Saved(arch, m).value;
    assert saved.Keys == arch.Preserved();
    assert (after + saved).Keys == after.Keys + arch.Preserved();
    if after + saved == m.regs {
      forall r | r in m.regs && r !in arch.Preserved() ensures r in after && after[r] == m.regs[r] {
        assert r in (after + saved).Keys && (after + saved)[r] == m.regs[r];
      }
    }
  }

  /** Restoring the registers undoes the jump and whatever the body did to preserved registers, and nothing else. */
  lemma RegistersPutBack(arch: Arch, m: Machine, body: int -> Step, stack: (int, int))
    requires arch.Preserved() <= m.regs.Keys && arch.alignment != 0 && Start(arch, m) % arch.alignment == 0
    ensures var m1 := m.(regs := m.regs[arch.pc := Start(arch, m)]);
            var r := WithRegisters(arch, m, body);
            r.0.regs == m.regs && Within(arch, m, r.0, NOWHERE, stack)
            <==> Within(arch, m1, body(Start(arch, m))(m1).0, NOWHERE, stack)
  {
    var m1 := m.(regs := m.regs[arch.pc := Start(arch, m)]);
    SavedBack(arch, m, body(Start(arch, m))(m1).0.regs);
  }

  /** Code and registers put back: nothing but the stack window differs if and only if code and caller spared the rest. */
  lemma ExecLeavesStack(arch: Arch, m: Machine, blob: seq<Byte>, run: Step, caller: Step, stack: (int, int))
    requires arch.pc in m.regs
    ensures var r := Exec(arch, m, blob, run, caller);
            r.0.regs == m.regs && Within(arch, m, r.0, NOWHERE, stack) <==> Spares(arch, m, blob, run, caller, stack)
  {
    if Entered(arch, m, blob) {
      ExecEntered(arch, m, blob, run, caller, stack);
    } else {
      ExecRefused(arch, m, blob, run, caller, stack);
    }
  }

  lemma ExecEntered(arch: Arch, m: Machine, blob: seq<Byte>, run: Step, caller: Step, stack: (int, int))
    requires arch.pc in m.regs && Entered(arch, m, blob)
    ensures var r := Exec(arch, m, blob, run, caller);
            r.0.regs == m.regs && Within(arch, m, r.0, NOWHERE, stack)
            <==> Within(arch, Loaded(arch, m, blob), LeftBy(arch, m, blob, run, caller), CodeWindow(arch, m, blob), stack)
  {
    EnteredMeans(arch, m, blob);
    ExecIs(arch, m, blob, run, caller);
    hide *;
    var m1 := m.(regs := m.regs[arch.pc := Start(arch, m)]);
    CodePutBack(arch, m1, Start(arch, m), blob, BodyStep(arch, Start(arch, m) + |blob|, run, caller), stack);
    RegistersPutBack(arch, m, CodeStep(arch, blob, run, caller), stack);
  }

  lemma EnteredMeans(arch: Arch, m: Machine, blob: seq<Byte>)
    requires arch.pc in m.regs && Entered(arch, m, blob)
    ensures arch.Preserved() <= m.regs.Keys && arch.alignment != 0 && Start(arch, m) % arch.alignment == 0
    ensures Fits(arch, m.(regs := m.regs[arch.pc := Start(arch, m)]), Start(arch, m), blob)
  {
    hide Start;
  }

  /** The two brackets, with the machines in between. */
  lemma ExecIs(arch: Arch, m: Machine, blob: seq<Byte>, run: Step, caller: Step)
    requires arch.pc in m.regs
    ensures Exec(arch, m, blob, run, caller) == WithRegisters(arch, m, CodeStep(arch, blob, run, caller))
    ensures var start := Start(arch, m);
            var m1 := m.(regs := m.regs[arch.pc := start]);
            var body := BodyStep(arch, start + |blob|, run, caller);
            && CodeStep(arch, blob, run, caller)(start)(m1) == WithCode(arch, m1, start, blob, body)
            && Loaded(arch, m, blob) == m1.(mem := Overwritten(m1.mem, start, blob))
            && LeftBy(arch, m, blob, run, caller) == body(Loaded(arch, m, blob)).0
            && CodeWindow(arch, m, blob) == (start, start + |blob|)
  {
    hide WithRegisters;
    hide WithCode;
    hide BodyStep;
    hide Overwritten;
  }

  lemma ExecRefused(arch: Arch, m: Machine, blob: seq<Byte>, run: Step, caller: Step, stack: (int, int))
    requires arch.pc in m.regs && !Entered(arch, m, blob)
    ensures Exec(arch, m, blob, run, caller).0 == m && Within(arch, m, m, NOWHERE, stack)
  {
    if arch.Preserved() <= m.regs.Keys && arch.alignment != 0 && Start(arch, m) % arch.alignment == 0 {
      var m1 := m.(regs := m.regs[arch.pc := Start(arch, m)]);
      assert WithCode(arch, m1, Start(arch, m), blob, BodyStep(arch, Start(arch, m) + |blob|, run, caller)).0 == m1;
      SavedBack(arch, m, m1.regs);
    }
  }

  lemma WithinNothing(arch: Arch, m: Machine, after: Machine)
    ensures after == m <==> after.regs == m.regs && Within(arch, m, after, NOWHERE, NOWHERE)
  {
    if after.regs == m.regs && Within(arch, m, after, NOWHERE, NOWHERE) {
      assert after.mem.Keys == m.mem.Keys;
      assert forall x | x in m.mem :: after.mem[x] == m.mem[x];
    }
  }

  /**
    Running code leaves no trace, for every ending, if and only if code and
    caller together changed nothing but the code window and preserved registers.
   */
  lemma ShellcodeRestoresExactly(arch: Arch, m: Machine, blob: seq<Byte>, run: Step, caller: Step)
    requires arch.pc in m.regs
    ensures Exec(arch, m, blob, run, caller).0 == m <==> Spares(arch, m, blob, run, caller, NOWHERE)
  {
    hide *;
    ExecLeavesStack(arch, m, blob, run, caller, NOWHERE);
    WithinNothing(arch, m, Exec(arch, m, blob, run, caller).0);
  }

  function StackWindow(arch: Arch, m: Machine, size: nat): (int, int)
    requires arch.sp in m.regs
  {
    (m.regs[arch.sp] - size, m.regs[arch.sp])
  }

  /** Restoring the stack window undoes what happened there, and nothing else. */
  lemma StackPutBack(arch: Arch, m: Machine, r: (Machine, Exit), size: nat, original: seq<Byte>)
    requires arch.sp in m.regs && ReadMem(m.mem, m.regs[arch.sp] - size, size) == Some(original)
    ensures PutBack(r, m.regs[arch.sp] - size, original).0 == m
            <==> r.0.regs == m.regs && Within(arch, m, r.0, NOWHERE, StackWindow(arch, m, size))
  {
    hide *;
    if r.0.regs == m.regs && Within(arch, m, r.0, NOWHERE, StackWindow(arch, m, size)) {
      StackIsBack(arch, m, r, size, original);
    }
    if PutBack(r, m.regs[arch.sp] - size, original).0 == m {
      OnlyStackBack(arch, m, r, size, original);
    }
  }

  lemma StackIsBack(arch: Arch, m: Machine, r: (Machine, Exit), size: nat, original: seq<Byte>)
    requires arch.sp in m.regs && ReadMem(m.mem, m.regs[arch.sp] - size, size) == Some(original)
    requires r.0.regs == m.regs && Within(arch, m, r.0, NOWHERE, StackWindow(arch, m, size))
    ensures PutBack(r, m.regs[arch.sp] - size, original).0 == m
  {
    assert PutBack(r, m.regs[arch.sp] - size, original).0.mem == m.mem;
  }

  lemma OnlyStackBack(arch: Arch, m: Machine, r: (Machine, Exit), size: nat, original: seq<Byte>)
    requires arch.sp in m.regs && ReadMem(m.mem, m.regs[arch.sp] - size, size) == Some(original)
    requires PutBack(r, m.regs[arch.sp] - size, original).0 == m
    ensures r.0.regs == m.regs && Within(arch, m, r.0, NOWHERE, StackWindow(arch, m, size))
  {
    assert Mapped(r.0.mem, m.regs[arch.sp] - size, size);
  }

  lemma StackBracket(arch: Arch, m: Machine, blob: seq<Byte>, size: nat, run: Step, caller: Step)
    requires arch.sp in m.regs
    ensures var sp := m.regs[arch.sp];
            var original := ReadMem(m.mem, sp - size, size);
            && (original.None? ==> ExecWithStack(arch, m, blob, size, run, caller) == (m, Raised(Fault)))
            && (original.Some? ==>
                  ExecWithStack(arch, m, blob, size, run, caller)
                  == PutBack(Exec(arch, m, blob, run, CheckedStep(arch, sp, size, caller)), sp - size, original.value))
  {
    hide Exec;
    hide ReadMem;
    hide PutBack;
    hide CheckedStep;
  }

  lemma ReadMapped(mem: Memory, addr: int, n: nat)
    ensures ReadMem(mem, addr, n).Some? <==> Mapped(mem, addr, n)
  {
  }

  /**
    With the stack window saved as well, no trace is left, for every ending and
    even where the two windows overlap, if and only if the stack is unmapped, so
    that nothing is run, or only the two windows and preserved registers changed.
   */
  lemma StackRestoresExactly(arch: Arch, m: Machine, blob: seq<Byte>, size: nat, run: Step, caller: Step)
    requires arch.pc in m.regs && arch.sp in m.regs
    ensures ExecWithStack(arch, m, blob, size, run, caller).0 == m <==>
            (Mapped(m.mem, m.regs[arch.sp] - size, size) ==>
               Spares(arch, m, blob, run, CheckedStep(arch, m.regs[arch.sp], size, caller), StackWindow(arch, m, size)))
  {
    hide *;
    StackUnmapped(arch, m, blob, size, run, caller);
    if Mapped(m.mem, m.regs[arch.sp] - size, size) {
      StackMapped(arch, m, blob, size, run, caller);
    }
  }

  lemma StackMapped(arch: Arch, m: Machine, blob: seq<Byte>, size: nat, run: Step, caller: Step)
    requires arch.pc in m.regs && arch.sp in m.regs && Mapped(m.mem, m.regs[arch.sp] - size, size)
    ensures ExecWithStack(arch, m, blob, size, run, caller).0 == m <==>
            Spares(arch, m, blob, run, CheckedStep(arch, m.regs[arch.sp], size, caller), StackWindow(arch, m, size))
  {
    hide *;
    var checked := CheckedStep(arch, m.regs[arch.sp], size, caller);
    var original := StackSaved(arch, m, blob, size, run, caller);
    ExecLeavesStack(arch, m, blob, run, checked, StackWindow(arch, m, size));
    StackPutBack(arch, m, Exec(arch, m, blob, run, checked), size, original);
  }

  lemma StackUnmapped(arch: Arch, m: Machine, blob: seq<Byte>, size: nat, run: Step, caller: Step)
    requires arch.sp in m.regs
    ensures !Mapped(m.mem, m.regs[arch.sp] - size, size) ==> ExecWithStack(arch, m, blob, size, run, caller).0 == m
  {
    hide *;
    StackBracket(arch, m, blob, size, run, caller);
    ReadMapped(m.mem, m.regs[arch.sp] - size, size);
  }

  lemma StackSaved(arch: Arch, m: Machine, blob: seq<Byte>, size: nat, run: Step, caller: Step) returns (original: seq<Byte>)
    requires arch.sp in m.regs && Mapped(m.mem, m.regs[arch.sp] - size, size)
    ensures ReadMem(m.mem, m.regs[arch.sp] - size, size) == Some(original)
    ensures ExecWithStack(arch, m, blob, size, run, caller)
         == PutBack(Exec(arch, m, blob, run, CheckedStep(arch, m.regs[arch.sp], size, caller)), m.regs[arch.sp] - size, original)
  {
    hide *;
    StackBracket(arch, m, blob, size, run, caller);
    ReadMapped(m.mem, m.regs[arch.sp] - size, size);
    original := ReadMem(m.mem, m.regs[arch.sp] - size, size).value;
  }

  // ----- Code and caller one after the other -----

  /** On the machines they really start from, the code keeps to the windows, and so does the caller if it gets its turn. */
  ghost predicate Tame(arch: Arch, m: Machine, blob: seq<Byte>, run: Step, caller: Step, stack: (int, int))
    requires arch.pc in m.regs
  {
    var (ran, exit) := run(Loaded(arch, m, blob));
    && Within(arch, Loaded(arch, m, blob), ran, CodeWindow(arch, m, blob), stack)
    && (exit.Done? && arch.pc in ran.regs && ran.regs[arch.pc] == CodeWindow(arch, m, blob).1 ==>
          Within(arch, ran, caller(ran).0, CodeWindow(arch, m, blob), stack))
  }

  lemma TameSpares(arch: Arch, m: Machine, blob: seq<Byte>, run: Step, caller: Step, stack: (int, int))
    requires arch.pc in m.regs && Tame(arch, m, blob, run, caller, stack)
    ensures Spares(arch, m, blob, run, caller, stack)
  {
    var l := Loaded(arch, m, blob);
    var ran := run(l).0;
    hide Within;
    hide Loaded;
    hide Entered;
    if LeftBy(arch, m, blob, run, caller) != ran {
      WithinTrans(arch, l, ran, caller(ran).0, CodeWindow(arch, m, blob), stack);
    }
  }

  /** Code that keeps to its window, and a caller that does, leave no trace. */
  lemma ShellcodeRestores(arch: Arch, m: Machine, blob: seq<Byte>, run: Step, caller: Step)
    requires arch.pc in m.regs && Tame(arch, m, blob, run, caller, NOWHERE)
    ensures Exec(arch, m, blob, run, caller).0 == m
  {
    hide *;
    TameSpares(arch, m, blob, run, caller, NOWHERE);
    ShellcodeRestoresExactly(arch, m, blob, run, caller);
  }

  lemma CheckedTame(arch: Arch, m: Machine, blob: seq<Byte>, size: nat, run: Step, caller: Step)
    requires arch.pc in m.regs && arch.sp in m.regs
    requires Tame(arch, m, blob, run, caller, StackWindow(arch, m, size))
    ensures Tame(arch, m, blob, run, CheckedStep(arch, m.regs[arch.sp], size, caller), StackWindow(arch, m, size))
  {
    hide Loaded;
    var ran := run(Loaded(arch, m, blob)).0;
    var checked := CheckedStep(arch, m.regs[arch.sp], size, caller);
    assert checked(ran).0 == ran || checked(ran).0 == caller(ran).0;
  }

  /** With the stack window saved, they may use that window too. */
  lemma StackRestores(arch: Arch, m: Machine, blob: seq<Byte>, size: nat, run: Step, caller: Step)
    requires arch.pc in m.regs && arch.sp in m.regs && Tame(arch, m, blob, run, caller, StackWindow(arch, m, size))
    ensures ExecWithStack(arch, m, blob, size, run, caller).0 == m
  {
    hide *;
    CheckedTame(arch, m, blob, size, run, caller);
    TameSpares(arch, m, blob, run, CheckedStep(arch, m.regs[arch.sp], size, caller), StackWindow(arch, m, size));
    StackRestoresExactly(arch, m, blob, size, run, caller);
  }

  // ----- A machine that runs what is in its memory -----

  /** Byte 1 stores a one at address 0, every other byte does nothing. */
  function Cpu(m: Machine): (Machine, Exit) {
    if "pc" !in m.regs || m.regs["pc"] !in m.mem then (m, Raised(RunFailed))
    else
      var next := m.regs["pc" := m.regs["pc"] + 1];
      if m.mem[m.regs["pc"]] == 1 && 0 in m.mem then (Machine(m.mem[0 := 1], next), Done)
      else (Machine(m.mem, next), Done)
  }

  const SMALL_ARCH := Arch("pc", "sp", [], 1, _ => Some(16))
  const SMALL_MACHINE := Machine(map[0 := 0, 9 := 0, 10 := 0], map["pc" := 8, "sp" := 0])

  /** What is restored depends on the code injected: byte 0 leaves no trace on this machine, byte 1 does. */
  lemma TraceOfCode()
    ensures Exec(SMALL_ARCH, SMALL_MACHINE, [0], Cpu, m => (m, Done)).0 == SMALL_MACHINE
    ensures Exec(SMALL_ARCH, SMALL_MACHINE, [1], Cpu, m => (m, Done)).0 != SMALL_MACHINE
  {
    var idle: Step := m => (m, Done);
    SmallRun(0);
    SmallRun(1);
    hide *;
    ShellcodeRestoresExactly(SMALL_ARCH, SMALL_MACHINE, [0], Cpu, idle);
    ShellcodeRestoresExactly(SMALL_ARCH, SMALL_MACHINE, [1], Cpu, idle);
  }

  lemma SmallRun(b: Byte)
    ensures SMALL_ARCH.pc in SMALL_MACHINE.regs
    ensures Spares(SMALL_ARCH, SMALL_MACHINE, [b], Cpu, m => (m, Done), NOWHERE) <==> b != 1
  {
    SmallLoaded(b);
    var l := Loaded(SMALL_ARCH, SMALL_MACHINE, [b]);
    hide Loaded;
    hide Entered;
    var left := LeftBy(SMALL_ARCH, SMALL_MACHINE, [b], Cpu, m => (m, Done));
    assert left == Machine(map[0 := if b == 1 then 1 else 0, 9 := b, 10 := 0], map["pc" := 10, "sp" := 0]);
    hide LeftBy;
    assert CodeWindow(SMALL_ARCH, SMALL_MACHINE, [b]) == (9, 10);
  }

  lemma SmallLoaded(b: Byte)
    ensures SMALL_ARCH.pc in SMALL_MACHINE.regs && Entered(SMALL_ARCH, SMALL_MACHINE, [b])
    ensures Loaded(SMALL_ARCH, SMALL_MACHINE, [b]) == Machine(map[0 := 0, 9 := b, 10 := 0], map["pc" := 9, "sp" := 0])
  {
  }
}
