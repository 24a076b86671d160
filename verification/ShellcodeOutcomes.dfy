/**
  How a call that runs injected code ends, and the machine it leaves
  (pwndbg/aglib/shellcode.py:72-171, pwndbg/commands/hijack_fd.py:117-138).
 */
module ShellcodeOutcomes {
  import opened Options
  import opened Shellcode

  // ----- The terms -----

  predicate Kept(arch: Arch, r: string) { r == arch.pc || r == arch.sp || r in arch.others }

  /** All registers to be put back can be read. */
  predicate RegistersKnown(arch: Arch, m: Machine) {
    arch.pc in m.regs && arch.sp in m.regs && forall r | r in arch.others :: r in m.regs
  }

  predicate In(a: int, w: (int, int)) { w.0 <= a < w.1 }

  predicate Whole(mem: Memory, w: (int, int)) { forall a | w.0 <= a < w.1 :: a in mem }

  /** `l` is `m` with the code in memory one instruction after the program counter, and the program counter there. */
  ghost predicate Injected(arch: Arch, m: Machine, blob: seq<Byte>, l: Machine)
    requires arch.pc in m.regs
  {
    var start := m.regs[arch.pc] + arch.alignment;
    && l.mem.Keys == m.mem.Keys
    && (forall a | a in m.mem :: l.mem[a] == if start <= a < start + |blob| then blob[a - start] else m.mem[a])
    && l.regs == m.regs[arch.pc := start]
  }

  /** The code can be injected at `start`. */
  ghost predicate Injectable(arch: Arch, m: Machine, start: int, n: nat) {
    && RegistersKnown(arch, m)
    && arch.alignment != 0 && start % arch.alignment == 0
    && arch.pageEnd(start).Some? && start + n < arch.pageEnd(start).value
    && Whole(m.mem, (start, start + n))
  }

  /**
    `final` is what becomes of `left` and its ending when the two windows and the
    registers get back what they hold in `m`: a window no longer mapped as a whole
    stays as it is, and makes the ending a memory error.
   */
  ghost predicate PutsBack(arch: Arch, m: Machine, code: (int, int), stack: (int, int), left: (Machine, Exit), final: (Machine, Exit)) {
    && final.1 == (if Whole(left.0.mem, code) && Whole(left.0.mem, stack) then left.1 else Raised(Fault))
    && MemoryBack(m.mem, code, stack, left.0.mem, final.0.mem)
    && RegistersBack(arch, m.regs, left.0.regs, final.0.regs)
  }

  ghost predicate MemoryBack(before: Memory, code: (int, int), stack: (int, int), left: Memory, final: Memory) {
    && final.Keys == left.Keys
    && forall a | a in left ::
         final[a] == if a in before && ((In(a, code) && Whole(left, code)) || (In(a, stack) && Whole(left, stack))) then before[a] else left[a]
  }

  ghost predicate RegistersBack(arch: Arch, before: map<string, int>, left: map<string, int>, final: map<string, int>) {
    && (forall r :: r in final <==> r in left || Kept(arch, r))
    && (forall r | r in final && Kept(arch, r) :: r in before && final[r] == before[r])
    && (forall r | r in final && !Kept(arch, r) :: final[r] == left[r])
  }

  predicate At(m: Machine, r: string, v: int) { r in m.regs && m.regs[r] == v }

  // ----- Calls that are refused -----

  /** There is exactly one machine with the code injected. */
  lemma InjectedOnce(arch: Arch, m: Machine, blob: seq<Byte>) returns (l: Machine)
    requires arch.pc in m.regs
    ensures Injected(arch, m, blob, l)
    ensures forall k :: Injected(arch, m, blob, k) <==> k == l
    ensures l == Loaded(arch, m, blob)
  {
    l := Loaded(arch, m, blob);
    forall k | Injected(arch, m, blob, k) ensures k == l {
      assert k.mem.Keys == l.mem.Keys;
      assert forall a | a in l.mem :: k.mem[a] == l.mem[a];
    }
  }

  /** Each thing that is missing stops the call before anything is changed, in this order. */
  lemma ExecRefusals(arch: Arch, m: Machine, blob: seq<Byte>, run: Step, caller: Step)
    ensures !RegistersKnown(arch, m) ==> Exec(arch, m, blob, run, caller) == (m, Raised(NoRegister))
    ensures RegistersKnown(arch, m) ==>
              var start := m.regs[arch.pc] + arch.alignment;
              var r := Exec(arch, m, blob, run, caller);
              && (arch.alignment == 0 || start % arch.alignment != 0 ==> r == (m, Raised(Misaligned)))
              && (arch.alignment != 0 && start % arch.alignment == 0 ==>
                    && (arch.pageEnd(start).None? ==> r == (m, Raised(NoPage)))
                    && (arch.pageEnd(start).Some? ==>
                          && (start + |blob| >= arch.pageEnd(start).value ==> r == (m, Raised(NoSpace)))
                          && (start + |blob| < arch.pageEnd(start).value && !Whole(m.mem, (start, start + |blob|)) ==> r == (m, Raised(Fault)))))
  {
    hide BodyStep;
    PreservedKnown(arch, m);
    if RegistersKnown(arch, m) {
      var start := m.regs[arch.pc] + arch.alignment;
      var m1 := m.(regs := m.regs[arch.pc := start]);
      assert m1.regs + Saved(arch, m).value == m.regs by {
        SavedBack(arch, m, m1.regs);
      }
      assert CodeStep(arch, blob, run, caller)(start)(m1) == WithCode(arch, m1, start, blob, BodyStep(arch, start + |blob|, run, caller));
    }
  }

  lemma PreservedKnown(arch: Arch, m: Machine)
    ensures RegistersKnown(arch, m) <==> arch.Preserved() <= m.regs.Keys
    ensures forall r :: r in arch.Preserved() <==> Kept(arch, r)
  {
    if RegistersKnown(arch, m) {
      forall r | r in arch.Preserved() ensures r in m.regs {
      }
    }
    if arch.Preserved() <= m.regs.Keys {
      assert arch.pc in arch.Preserved() && arch.sp in arch.Preserved();
      forall r | r in arch.others ensures r in m.regs {
        assert r in arch.Preserved();
      }
    }
  }

  // ----- Calls that run the code -----

  lemma InjectableEnters(arch: Arch, m: Machine, blob: seq<Byte>)
    requires arch.pc in m.regs && Injectable(arch, m, m.regs[arch.pc] + arch.alignment, |blob|)
    ensures Entered(arch, m, blob)
  {
    PreservedKnown(arch, m);
  }

  /** The inner bracket, entered with the registers saved. */
  lemma InnerPutsBack(arch: Arch, m: Machine, blob: seq<Byte>, run: Step, caller: Step) returns (mid: (Machine, Exit))
    requires arch.pc in m.regs && Entered(arch, m, blob)
    ensures mid == CodeStep(arch, blob, run, caller)(Start(arch, m))(m.(regs := m.regs[arch.pc := Start(arch, m)]))
    ensures var left := BodyStep(arch, Start(arch, m) + |blob|, run, caller)(Loaded(arch, m, blob));
            && mid.1 == (if Whole(left.0.mem, CodeWindow(arch, m, blob)) then left.1 else Raised(Fault))
            && MemoryBack(m.mem, CodeWindow(arch, m, blob), (0, 0), left.0.mem, mid.0.mem)
            && mid.0.regs == left.0.regs
  {
    EnteredMeans(arch, m, blob);
    ExecIs(arch, m, blob, run, caller);
    hide *;
    var m1 := m.(regs := m.regs[arch.pc := Start(arch, m)]);
    CodePutsBack(arch, m1, Start(arch, m), blob, BodyStep(arch, Start(arch, m) + |blob|, run, caller));
    mid := CodeStep(arch, blob, run, caller)(Start(arch, m))(m1);
  }

  /** The brackets around any body. */
  lemma BracketPutsBack(arch: Arch, m: Machine, blob: seq<Byte>, run: Step, caller: Step)
    requires arch.pc in m.regs && Entered(arch, m, blob)
    ensures PutsBack(arch, m, CodeWindow(arch, m, blob), (0, 0),
                     BodyStep(arch, Start(arch, m) + |blob|, run, caller)(Loaded(arch, m, blob)), Exec(arch, m, blob, run, caller))
  {
    EnteredMeans(arch, m, blob);
    ExecIs(arch, m, blob, run, caller);
    hide *;
    var mid := InnerPutsBack(arch, m, blob, run, caller);
    RegistersPutsBack(arch, m, CodeStep(arch, blob, run, caller));
    Together(arch, m, CodeWindow(arch, m, blob), BodyStep(arch, Start(arch, m) + |blob|, run, caller)(Loaded(arch, m, blob)), mid,
             Exec(arch, m, blob, run, caller));
  }

  lemma Together(arch: Arch, m: Machine, code: (int, int), left: (Machine, Exit), mid: (Machine, Exit), final: (Machine, Exit))
    requires mid.1 == (if Whole(left.0.mem, code) then left.1 else Raised(Fault))
    requires MemoryBack(m.mem, code, (0, 0), left.0.mem, mid.0.mem) && mid.0.regs == left.0.regs
    requires final.1 == mid.1 && final.0.mem == mid.0.mem && RegistersBack(arch, m.regs, mid.0.regs, final.0.regs)
    ensures PutsBack(arch, m, code, (0, 0), left, final)
  {
    hide MemoryBack;
    hide RegistersBack;
  }

  lemma CodePutsBack(arch: Arch, m: Machine, start: int, blob: seq<Byte>, body: Step)
    requires Fits(arch, m, start, blob)
    ensures var left := body(m.(mem := Overwritten(m.mem, start, blob)));
            var mid := WithCode(arch, m, start, blob, body);
            && mid.1 == (if Whole(left.0.mem, (start, start + |blob|)) then left.1 else Raised(Fault))
            && MemoryBack(m.mem, (start, start + |blob|), (0, 0), left.0.mem, mid.0.mem)
            && mid.0.regs == left.0.regs
  {
    var left := body(m.(mem := Overwritten(m.mem, start, blob)));
    if Whole(left.0.mem, (start, start + |blob|)) {
      CodeEffect(arch, m, start, blob, body);
      hide WithCode;
    }
  }

  lemma RegistersPutsBack(arch: Arch, m: Machine, body: int -> Step)
    requires arch.Preserved() <= m.regs.Keys && arch.alignment != 0 && Start(arch, m) % arch.alignment == 0
    ensures var mid := body(Start(arch, m))(m.(regs := m.regs[arch.pc := Start(arch, m)]));
            var final := WithRegisters(arch, m, body);
            final.1 == mid.1 && final.0.mem == mid.0.mem && RegistersBack(arch, m.regs, mid.0.regs, final.0.regs)
  {
    PreservedKnown(arch, m);
  }

  /**
    A call that is not refused runs the code on the one machine with it injected,
    gives the caller its turn if and only if the code ended normally at its own
    end, and puts code window and registers back behind whoever came last.
   */
  lemma ExecOutcome(arch: Arch, m: Machine, blob: seq<Byte>, run: Step, caller: Step, l: Machine)
    requires arch.pc in m.regs && Injectable(arch, m, m.regs[arch.pc] + arch.alignment, |blob|) && Injected(arch, m, blob, l)
    ensures var start := m.regs[arch.pc] + arch.alignment;
            var code := (start, start + |blob|);
            var final := Exec(arch, m, blob, run, caller);
            var (ran, ended) := run(l);
            && (ended.Raised? ==> PutsBack(arch, m, code, (0, 0), (ran, ended), final))
            && (ended.Done? && !At(ran, arch.pc, start + |blob|) ==> PutsBack(arch, m, code, (0, 0), (ran, Raised(WrongTarget)), final))
            && (ended.Done? && At(ran, arch.pc, start + |blob|) ==> PutsBack(arch, m, code, (0, 0), caller(ran), final))
  {
    hide *;
    var l' := InjectedOnce(arch, m, blob);
    InjectableEnters(arch, m, blob);
    WindowIs(arch, m, blob);
    BracketPutsBack(arch, m, blob, run, caller);
    BodyIs(arch, m.regs[arch.pc] + arch.alignment + |blob|, run, caller, l);
  }

  lemma WindowIs(arch: Arch, m: Machine, blob: seq<Byte>)
    requires arch.pc in m.regs
    ensures Start(arch, m) == m.regs[arch.pc] + arch.alignment
    ensures CodeWindow(arch, m, blob) == (Start(arch, m), Start(arch, m) + |blob|)
  {
  }

  lemma BodyIs(arch: Arch, end: int, run: Step, caller: Step, l: Machine)
    ensures var (ran, ended) := run(l);
            BodyStep(arch, end, run, caller)(l)
            == if ended.Raised? then (ran, ended) else if !At(ran, arch.pc, end) then (ran, Raised(WrongTarget)) else caller(ran)
  {
  }

  // ----- With the stack saved -----

  /** The stack bracket refuses a missing stack pointer and an unmapped stack, and passes on what the inner one refuses. */
  lemma StackRefusals(arch: Arch, m: Machine, blob: seq<Byte>, size: nat, run: Step, caller: Step)
    ensures arch.sp !in m.regs ==> ExecWithStack(arch, m, blob, size, run, caller) == (m, Raised(NoRegister))
    ensures arch.sp in m.regs && !Whole(m.mem, (m.regs[arch.sp] - size, m.regs[arch.sp])) ==>
              ExecWithStack(arch, m, blob, size, run, caller) == (m, Raised(Fault))
    ensures arch.sp in m.regs && Whole(m.mem, (m.regs[arch.sp] - size, m.regs[arch.sp]))
            && !(arch.pc in m.regs && Injectable(arch, m, m.regs[arch.pc] + arch.alignment, |blob|)) ==>
              ExecWithStack(arch, m, blob, size, run, caller) == Exec(arch, m, blob, run, caller)
  {
    StackMissing(arch, m, blob, size, run, caller);
    hide *;
    if arch.sp in m.regs {
      WholeIsMapped(m.mem, m.regs[arch.sp] - size, size);
      StackUnmappedFaults(arch, m, blob, size, run, caller);
      if Whole(m.mem, (m.regs[arch.sp] - size, m.regs[arch.sp]))
         && !(arch.pc in m.regs && Injectable(arch, m, m.regs[arch.pc] + arch.alignment, |blob|)) {
        var original := StackSaved(arch, m, blob, size, run, caller);
        SameRefusal(arch, m, blob, run, CheckedStep(arch, m.regs[arch.sp], size, caller), caller);
        NothingToPutBack(m, m.regs[arch.sp] - size, size, Exec(arch, m, blob, run, caller), original);
      }
    }
  }

  lemma StackMissing(arch: Arch, m: Machine, blob: seq<Byte>, size: nat, run: Step, caller: Step)
    ensures arch.sp !in m.regs ==> ExecWithStack(arch, m, blob, size, run, caller) == (m, Raised(NoRegister))
  {
    hide Exec;
    hide ReadMem;
    hide PutBack;
  }

  lemma StackUnmappedFaults(arch: Arch, m: Machine, blob: seq<Byte>, size: nat, run: Step, caller: Step)
    requires arch.sp in m.regs
    ensures !Mapped(m.mem, m.regs[arch.sp] - size, size) ==> ExecWithStack(arch, m, blob, size, run, caller) == (m, Raised(Fault))
  {
    hide *;
    StackBracket(arch, m, blob, size, run, caller);
    ReadMapped(m.mem, m.regs[arch.sp] - size, size);
  }

  lemma SameRefusal(arch: Arch, m: Machine, blob: seq<Byte>, run: Step, caller1: Step, caller2: Step)
    requires !(arch.pc in m.regs && Injectable(arch, m, m.regs[arch.pc] + arch.alignment, |blob|))
    ensures Exec(arch, m, blob, run, caller1) == Exec(arch, m, blob, run, caller2)
    ensures Exec(arch, m, blob, run, caller1).0 == m
  {
    hide Exec;
    ExecRefusals(arch, m, blob, run, caller1);
    ExecRefusals(arch, m, blob, run, caller2);
  }

  lemma NothingToPutBack(m: Machine, addr: int, n: nat, r: (Machine, Exit), original: seq<Byte>)
    requires ReadMem(m.mem, addr, n) == Some(original) && r.0 == m
    ensures PutBack(r, addr, original) == r
  {
    assert Overwritten(m.mem, addr, original) == m.mem;
  }

  /** Putting the stack back after the rest. */
  lemma StackPutsBack(arch: Arch, m: Machine, code: (int, int), sp: int, size: nat, left: (Machine, Exit), mid: (Machine, Exit), original: seq<Byte>)
    requires ReadMem(m.mem, sp - size, size) == Some(original) && Whole(m.mem, code)
    requires PutsBack(arch, m, code, (0, 0), left, mid)
    ensures PutsBack(arch, m, code, (sp - size, sp), left, PutBack(mid, sp - size, original))
  {
    hide RegistersBack;
    StackMemoryBack(m.mem, code, sp, size, left.0.mem, mid.0.mem, original);
    hide MemoryBack;
    hide ReadMem;
    hide Overwritten;
  }

  lemma StackMemoryBack(before: Memory, code: (int, int), sp: int, size: nat, left: Memory, mid: Memory, original: seq<Byte>)
    requires ReadMem(before, sp - size, size) == Some(original) && Whole(before, code)
    requires MemoryBack(before, code, (0, 0), left, mid)
    ensures |original| == size && (Whole(left, (sp - size, sp)) <==> Mapped(mid, sp - size, size))
    ensures MemoryBack(before, code, (sp - size, sp), left,
                       if Whole(left, (sp - size, sp)) then Overwritten(mid, sp - size, original) else mid)
  {
    assert Whole(left, (sp - size, sp)) <==> Mapped(mid, sp - size, size);
  }

  /**
    With the stack saved, the caller gets its turn if and only if the code ended
    normally at its own end with the stack pointer not below the saved window.
    Both windows and the registers are put back behind whoever came last.
   */
  lemma StackOutcome(arch: Arch, m: Machine, blob: seq<Byte>, size: nat, run: Step, caller: Step, l: Machine)
    requires arch.pc in m.regs && Injectable(arch, m, m.regs[arch.pc] + arch.alignment, |blob|) && Injected(arch, m, blob, l)
    requires Whole(m.mem, (m.regs[arch.sp] - size, m.regs[arch.sp]))
    ensures var start := m.regs[arch.pc] + arch.alignment;
            var code := (start, start + |blob|);
            var low := m.regs[arch.sp] - size;
            var stack := (low, m.regs[arch.sp]);
            var final := ExecWithStack(arch, m, blob, size, run, caller);
            var (ran, ended) := run(l);
            && (ended.Raised? ==> PutsBack(arch, m, code, stack, (ran, ended), final))
            && (ended.Done? && !At(ran, arch.pc, start + |blob|) ==> PutsBack(arch, m, code, stack, (ran, Raised(WrongTarget)), final))
            && (ended.Done? && At(ran, arch.pc, start + |blob|) ==>
                  && (arch.sp !in ran.regs ==> PutsBack(arch, m, code, stack, (ran, Raised(NoRegister)), final))
                  && (arch.sp in ran.regs && ran.regs[arch.sp] < low ==> PutsBack(arch, m, code, stack, (ran, Raised(StackCorrupt)), final))
                  && (arch.sp in ran.regs && ran.regs[arch.sp] >= low ==> PutsBack(arch, m, code, stack, caller(ran), final)))
  {
    var checked := CheckedStep(arch, m.regs[arch.sp], size, caller);
    ExecOutcome(arch, m, blob, run, checked, l);
    CheckedIs(arch, m.regs[arch.sp], size, caller, run(l).0);
    hide *;
    var start := m.regs[arch.pc] + arch.alignment;
    var (ran, ended) := run(l);
    if ended.Raised? {
      StackAround(arch, m, blob, size, run, caller, (ran, ended));
    } else if !At(ran, arch.pc, start + |blob|) {
      StackAround(arch, m, blob, size, run, caller, (ran, Raised(WrongTarget)));
    } else {
      StackAround(arch, m, blob, size, run, caller, checked(ran));
    }
  }

  lemma InjectableWhole(arch: Arch, m: Machine, start: int, n: nat)
    requires Injectable(arch, m, start, n)
    ensures Whole(m.mem, (start, start + n))
  {
  }

  lemma WholeIsMapped(mem: Memory, addr: int, n: nat)
    ensures Whole(mem, (addr, addr + n)) <==> Mapped(mem, addr, n)
  {
  }

  lemma StackAround(arch: Arch, m: Machine, blob: seq<Byte>, size: nat, run: Step, caller: Step, left: (Machine, Exit))
    requires arch.pc in m.regs && Injectable(arch, m, m.regs[arch.pc] + arch.alignment, |blob|)
    requires arch.sp in m.regs && Whole(m.mem, (m.regs[arch.sp] - size, m.regs[arch.sp]))
    requires var start := m.regs[arch.pc] + arch.alignment;
             PutsBack(arch, m, (start, start + |blob|), (0, 0), left, Exec(arch, m, blob, run, CheckedStep(arch, m.regs[arch.sp], size, caller)))
    ensures var start := m.regs[arch.pc] + arch.alignment;
            PutsBack(arch, m, (start, start + |blob|), (m.regs[arch.sp] - size, m.regs[arch.sp]), left, ExecWithStack(arch, m, blob, size, run, caller))
  {
    hide *;
    var start := m.regs[arch.pc] + arch.alignment;
    InjectableWhole(arch, m, start, |blob|);
    WholeIsMapped(m.mem, m.regs[arch.sp] - size, size);
    var original := StackSaved(arch, m, blob, size, run, caller);
    StackPutsBack(arch, m, (start, start + |blob|), m.regs[arch.sp], size, left,
                  Exec(arch, m, blob, run, CheckedStep(arch, m.regs[arch.sp], size, caller)), original);
  }

  lemma CheckedIs(arch: Arch, sp: int, size: nat, caller: Step, ran: Machine)
    ensures CheckedStep(arch, sp, size, caller)(ran)
         == if arch.sp !in ran.regs then (ran, Raised(NoRegister))
            else if ran.regs[arch.sp] < sp - size then (ran, Raised(StackCorrupt))
            else caller(ran)
  {
  }
}
