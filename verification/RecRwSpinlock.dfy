/**
  The recursive reader/writer spinlock (src/CommonLib/src/rec_rw_spinlock.c) on top of the plain
  one.  Every access to the shared fields CurrentRecursivityDepth and Holder is one step, and so
  is every step of the plain lock, so all interleavings of the two layers are covered.

  Clients follow the lock annotations of the source: a CPU that holds the lock exclusively may
  acquire it exclusively again, and releases happen in LIFO order with the interrupt state that
  the matching acquire returned.
 */
module RecRwSpinlock {

  import opened Basics
  import Rw = RwSpinlock

  const RW_DEFAULT_RECURSIVITY_DEPTH_MAX: Byte := 2

  datatype Pc =
    | Outside
    | TestHolder                        // exclusive acquire, reads Holder
    | CheckLimit                        // nested acquire, at ASSERT_INFO(depth < max)
    | Deepen                            // nested acquire, at depth++
    | InAcquire(exclusive: bool)        // inside RwSpinlockAcquire
    | CheckNoHolder(exclusive: bool)    // at ASSERT(NULL == Holder)
    | CheckNoDepth(exclusive: bool)     // at ASSERT(0 == depth)
    | SetDepth
    | SetHolder
    | Inside(exclusive: bool)           // acquire has returned
    | CheckHolder                       // exclusive release, at ASSERT(current == Holder)
    | LowerDepth
    | TestDepth
    | ClearHolder(exclusive: bool)
    | InRelease(exclusive: bool)        // inside RwSpinlockRelease
    | LimitExceeded                     // ASSERT_INFO(depth < max) fired
    | Halted                            // any other ASSERT fired

  // nesting: exclusive acquires that returned and whose release has not;
  // saved: the interrupt states those calls returned, innermost last.
  datatype Cpu = Cpu(pc: Pc, nesting: nat, intrOn: bool, saved: seq<bool>)

  // The fields of REC_RW_SPINLOCK that all CPUs share.
  datatype Fields = Fields(holder: Option<nat>, depth: Byte, max: Byte)

  datatype State = State(inner: Rw.State, fields: Fields, cpus: seq<Cpu>)

  datatype Request = AcquireExclusive | AcquireShared | Release

  datatype Turn = Turn(cpu: nat, request: Request)

  // RecRwSpinlockInit; enabled[i] is the interrupt flag CPU i runs with outside the lock.
  function Initial(recursivityDepth: Byte, enabled: seq<bool>): State
  {
    State(Rw.Initial(|enabled|),
          Fields(None, 0, if recursivityDepth == 0 then RW_DEFAULT_RECURSIVITY_DEPTH_MAX else recursivityDepth),
          seq(|enabled|, i requires 0 <= i < |enabled| => Cpu(Outside, 0, enabled[i], [])))
  }

  // CpuIntrDisable on entry to an acquire: the old state goes to the caller.
  function Entering(c: Cpu, pc: Pc): Cpu { Cpu(pc, c.nesting, false, c.saved + [c.intrOn]) }

  // One step of the recursive layer itself by CPU i.
  function OwnStep(f: Fields, i: nat, c: Cpu, request: Request): (Fields, Cpu)
  {
    match c.pc
    case Outside =>
      (f, match request
          case AcquireExclusive => Entering(c, TestHolder)
          case AcquireShared => Entering(c, InAcquire(false))
          case Release => c)
    case TestHolder => (f, c.(pc := if f.holder == Some(i) then CheckLimit else InAcquire(true)))
    case CheckLimit => (f, c.(pc := if f.depth < f.max then Deepen else LimitExceeded))
    case Deepen => (f.(depth := (f.depth + 1) % BYTE_SIZE), c.(pc := Inside(true), nesting := c.nesting + 1))
    case CheckNoHolder(exclusive) => (f, c.(pc := if f.holder.None? then CheckNoDepth(exclusive) else Halted))
    case CheckNoDepth(exclusive) =>
      (f, c.(pc := if f.depth != 0 then Halted else if exclusive then SetDepth else Inside(false)))
    case SetDepth => (f.(depth := 1), c.(pc := SetHolder))
    case SetHolder => (f.(holder := Some(i)), c.(pc := Inside(true), nesting := c.nesting + 1))
    case Inside(exclusive) =>
      (f, match request
          case AcquireExclusive => if exclusive then Entering(c, TestHolder) else c
          case AcquireShared => c
          case Release => c.(pc := if c.intrOn then Halted else if exclusive then CheckHolder else ClearHolder(false)))
    case CheckHolder => (f, c.(pc := if f.holder == Some(i) then LowerDepth else Halted))
    case LowerDepth => (f.(depth := (f.depth - 1) % BYTE_SIZE), c.(pc := TestDepth))
    case TestDepth => (f, if f.depth == 0 then c.(pc := ClearHolder(true)) else Returned(c, Inside(true), c.intrOn))
    case ClearHolder(exclusive) => (f.(holder := None), c.(pc := InRelease(exclusive)))
    case _ => (f, c)
  }

  // A release returns: the caller drops the interrupt state of the matching acquire.
  function Returned(c: Cpu, pc: Pc, intrOn: bool): Cpu
  {
    Cpu(pc, if c.nesting == 0 then 0 else c.nesting - 1, intrOn, if c.saved == [] then [] else c.saved[..|c.saved| - 1])
  }

  // The CPU after one step inside the plain lock that took it to p there.
  function AfterInner(c: Cpu, p: Rw.Pc): Cpu
  {
    match c.pc
    case InAcquire(exclusive) => if p == Rw.WriterIn || p == Rw.ReaderIn then c.(pc := CheckNoHolder(exclusive)) else c
    case InRelease(_) =>
      // RwSpinlockRelease ends with CpuIntrSetState(IntrState)
      if p == Rw.Idle then Returned(c, Outside, c.saved != [] && c.saved[|c.saved| - 1]) else c
    case _ => c
  }

  predicate RunsPlainLock(c: Cpu) { c.pc.InAcquire? || c.pc.InRelease? }

  function InnerTurn(i: nat, c: Cpu): Rw.Turn
  {
    Rw.Turn(i, if c.pc == InAcquire(true) then Rw.AcquireExclusive else Rw.AcquireShared)
  }

  predicate WellSized(s: State) { |s.inner.cpus| == |s.cpus| }

  function Next(s: State, t: Turn): (r: State)
    requires WellSized(s)
    ensures WellSized(r) && |r.cpus| == |s.cpus|
  {
    if t.cpu >= |s.cpus| then s
    else if RunsPlainLock(s.cpus[t.cpu]) then
      var inner := Rw.Next(s.inner, InnerTurn(t.cpu, s.cpus[t.cpu]));
      State(inner, s.fields, s.cpus[t.cpu := AfterInner(s.cpus[t.cpu], inner.cpus[t.cpu])])
    else
      var (f, c) := OwnStep(s.fields, t.cpu, s.cpus[t.cpu], t.request);
      State(s.inner, f, s.cpus[t.cpu := c])
  }

  function Execute(s: State, schedule: seq<Turn>): (r: State)
    requires WellSized(s)
    ensures WellSized(r) && |r.cpus| == |s.cpus|
    decreases |schedule|
  {
    if schedule == [] then s else Execute(Next(s, schedule[0]), schedule[1..])
  }

  // ----- the invariant -----

  // Holder names this CPU.
  predicate IsNamed(c: Cpu)
  {
    match c.pc
    case TestHolder => c.nesting > 0
    case CheckLimit | Deepen | CheckHolder | LowerDepth | TestDepth | LimitExceeded => true
    case Inside(exclusive) => exclusive
    case ClearHolder(exclusive) => exclusive
    case _ => false
  }

  predicate OwnsDepth(c: Cpu) { c.pc == SetHolder || IsNamed(c) }

  // The value CurrentRecursivityDepth has while this CPU owns it.
  function DepthSeenBy(c: Cpu): int
  {
    match c.pc
    case SetHolder => 1
    case TestDepth => c.nesting - 1
    case ClearHolder(_) => c.nesting - 1
    case _ => c.nesting
  }

  // Where the CPU stands in the plain lock.
  predicate InnerMatches(c: Cpu, p: Rw.Pc)
  {
    match c.pc
    case Outside => p == Rw.Idle
    case TestHolder => p == if c.nesting > 0 then Rw.WriterIn else Rw.Idle
    case InAcquire(exclusive) =>
      if exclusive then p == Rw.Idle || p == Rw.WriterSpin || p == Rw.WriterWon
      else p == Rw.Idle || p == Rw.ReaderSpin || (Rw.IsAdmittedReader(p) && p != Rw.ReaderIn)
    case CheckNoHolder(exclusive) => p == if exclusive then Rw.WriterIn else Rw.ReaderIn
    case CheckNoDepth(exclusive) => p == if exclusive then Rw.WriterIn else Rw.ReaderIn
    case Inside(exclusive) => p == if exclusive then Rw.WriterIn else Rw.ReaderIn
    case ClearHolder(exclusive) => p == if exclusive then Rw.WriterIn else Rw.ReaderIn
    case InRelease(exclusive) => if exclusive then p == Rw.WriterIn || p == Rw.WriterLeave else p == Rw.ReaderIn
    case _ => p == Rw.WriterIn
  }

  // Nesting and the saved interrupt states: an acquire in progress has saved one more.
  predicate NestingOk(c: Cpu, max: Byte) { SavedOk(c) && NestingInRange(c, max) }

  predicate SavedOk(c: Cpu)
  {
    |c.saved| == c.nesting + match c.pc
                             case Outside | CheckHolder | LowerDepth | TestDepth => 0
                             case Inside(exclusive) => if exclusive then 0 else 1
                             case ClearHolder(exclusive) => if exclusive then 0 else 1
                             case InRelease(exclusive) => if exclusive then 0 else 1
                             case _ => 1
  }

  predicate NestingInRange(c: Cpu, max: Byte)
  {
    match c.pc
    case TestHolder => c.nesting <= max
    case CheckLimit | CheckHolder | LowerDepth | TestDepth => 1 <= c.nesting <= max
    case Deepen => 1 <= c.nesting < max
    case LimitExceeded => c.nesting == max
    case Inside(exclusive) => if exclusive then 1 <= c.nesting <= max else c.nesting == 0
    case ClearHolder(exclusive) => c.nesting == if exclusive then 1 else 0
    case InRelease(exclusive) => c.nesting == if exclusive then 1 else 0
    case _ => c.nesting == 0
  }

  // The interrupt flag: off from entry to the outermost acquire until its release returns, and
  // the flag the CPU came with is what that release will restore.
  predicate InterruptsOk(c: Cpu, enabled: bool)
  {
    && c.intrOn == (c.pc == Outside && enabled)
    && (c.saved != [] ==> c.saved[0] == enabled)
  }

  predicate LocalInv(c: Cpu, enabled: bool, max: Byte)
  {
    c.pc != Halted && NestingOk(c, max) && InterruptsOk(c, enabled)
  }

  predicate InsidePlainLock(p: Rw.Pc) { Rw.IsExclusive(p) || Rw.IsAdmittedReader(p) }

  // What CPU i, at p in the plain lock, may rely on about the shared fields.
  predicate Sees(f: Fields, i: nat, c: Cpu, p: Rw.Pc)
  {
    && (f.holder == Some(i) <==> IsNamed(c))
    && (OwnsDepth(c) ==> f.depth == DepthSeenBy(c))
    && (InsidePlainLock(p) && !OwnsDepth(c) ==> f.depth == 0)
    && (InsidePlainLock(p) && !IsNamed(c) ==> f.holder.None?)
  }

  ghost predicate Inv(s: State, enabled: seq<bool>)
  {
    && |enabled| == |s.cpus| && WellSized(s) && Rw.Inv(s.inner) && 0 < s.fields.max
    && (forall i :: 0 <= i < |s.cpus| ==> LocalInv(s.cpus[i], enabled[i], s.fields.max))
    && (forall i :: 0 <= i < |s.cpus| ==> InnerMatches(s.cpus[i], s.inner.cpus[i]))
    && (forall i :: 0 <= i < |s.cpus| ==> Sees(s.fields, i, s.cpus[i], s.inner.cpus[i]))
    // the fields are at rest unless some CPU owns them
    && ((forall i :: 0 <= i < |s.cpus| ==> !OwnsDepth(s.cpus[i])) ==> s.fields.depth == 0 && s.fields.holder.None?)
  }

  lemma InitialInv(recursivityDepth: Byte, enabled: seq<bool>)
    requires |enabled| < WORD_SIZE
    ensures Inv(Initial(recursivityDepth, enabled), enabled)
  {
    Rw.InitialInv(|enabled|);
  }

  lemma OwnStepKeepsNesting(f: Fields, i: nat, c: Cpu, p: Rw.Pc, enabled: bool, request: Request)
    requires 0 < f.max && LocalInv(c, enabled, f.max) && InnerMatches(c, p) && Sees(f, i, c, p)
    requires !RunsPlainLock(c)
    ensures var (f', c') := OwnStep(f, i, c, request); f'.max == f.max && c'.pc != Halted && NestingOk(c', f.max)
  {
    OwnStepKeepsSaved(f, i, c, p, enabled, request);
  }

  lemma OwnStepKeepsSaved(f: Fields, i: nat, c: Cpu, p: Rw.Pc, enabled: bool, request: Request)
    requires 0 < f.max && LocalInv(c, enabled, f.max) && InnerMatches(c, p) && Sees(f, i, c, p)
    requires !RunsPlainLock(c)
    ensures SavedOk(OwnStep(f, i, c, request).1)
  {
  }

  lemma OwnStepKeepsInterrupts(f: Fields, i: nat, c: Cpu, p: Rw.Pc, enabled: bool, request: Request)
    requires 0 < f.max && LocalInv(c, enabled, f.max) && InnerMatches(c, p) && Sees(f, i, c, p)
    requires !RunsPlainLock(c)
    ensures InterruptsOk(OwnStep(f, i, c, request).1, enabled)
  {
  }

  lemma OwnStepKeepsView(f: Fields, i: nat, c: Cpu, p: Rw.Pc, enabled: bool, request: Request)
    requires 0 < f.max && LocalInv(c, enabled, f.max) && InnerMatches(c, p) && Sees(f, i, c, p)
    requires !RunsPlainLock(c)
    ensures var (f', c') := OwnStep(f, i, c, request); InnerMatches(c', p) && Sees(f', i, c', p)
  {
    OwnStepKeepsMatch(f, i, c, p, enabled, request);
  }

  lemma OwnStepKeepsMatch(f: Fields, i: nat, c: Cpu, p: Rw.Pc, enabled: bool, request: Request)
    requires 0 < f.max && LocalInv(c, enabled, f.max) && InnerMatches(c, p) && Sees(f, i, c, p)
    requires !RunsPlainLock(c)
    ensures InnerMatches(OwnStep(f, i, c, request).1, p)
  {
  }

  // The shared fields change only under the plain lock, and a CPU that stops owning them leaves them at rest.
  lemma OwnStepOnFields(f: Fields, i: nat, c: Cpu, p: Rw.Pc, enabled: bool, request: Request)
    requires 0 < f.max && LocalInv(c, enabled, f.max) && InnerMatches(c, p) && Sees(f, i, c, p)
    requires !RunsPlainLock(c)
    ensures var (f', c') := OwnStep(f, i, c, request);
            && (f' != f ==> Rw.IsExclusive(p) && f'.holder in {f.holder, None, Some(i)})
            && (OwnsDepth(c) && !OwnsDepth(c') ==> f'.depth == 0 && f'.holder.None?)
            && (!OwnsDepth(c) && !OwnsDepth(c') ==> f' == f)
  {
  }

  lemma InnerStepKeepsLocalInv(f: Fields, i: nat, c: Cpu, s: Rw.State, enabled: bool)
    requires Rw.Inv(s) && i < |s.cpus|
    requires 0 < f.max && LocalInv(c, enabled, f.max) && InnerMatches(c, s.cpus[i])
    requires RunsPlainLock(c) && f.holder != Some(i)
    ensures var p' := Rw.Next(s, InnerTurn(i, c)).cpus[i];
            LocalInv(AfterInner(c, p'), enabled, f.max) && InnerMatches(AfterInner(c, p'), p')
            && !OwnsDepth(AfterInner(c, p'))
  {
    Rw.NextKeepsInv(s, InnerTurn(i, c));
  }

  // At most one CPU is inside the plain lock when one of them is there exclusively.
  lemma ExclusiveIsAlone(s: Rw.State, i: nat, j: nat)
    requires Rw.Inv(s) && i < |s.cpus| && j < |s.cpus| && i != j
    requires Rw.IsExclusive(s.cpus[i])
    ensures !InsidePlainLock(s.cpus[j])
  {
    if Rw.OwnsWriterWord(s.cpus[j]) {
      Rw.CountedPair(s.cpus, if i < j then i else j, if i < j then j else i, Rw.OwnsWriterWord);
    } else if Rw.IsAdmittedReader(s.cpus[j]) {
      Rw.CountedMember(s.cpus, j, Rw.IsCountedReader);
    }
  }

  lemma NextKeepsInv(s: State, enabled: seq<bool>, t: Turn)
    requires Inv(s, enabled)
    ensures Inv(Next(s, t), enabled)
  {
    if t.cpu < |s.cpus| {
      if RunsPlainLock(s.cpus[t.cpu]) { NextInnerKeepsInv(s, enabled, t); } else { NextOwnKeepsInv(s, enabled, t); }
    }
  }

  // Inv after CPU i moved to c at p in the plain lock and the fields became f.
  lemma Reassemble(s: State, enabled: seq<bool>, i: nat, inner: Rw.State, f: Fields, c: Cpu)
    requires Inv(s, enabled) && i < |s.cpus| && Rw.Inv(inner) && |inner.cpus| == |s.cpus|
    requires f.max == s.fields.max
    requires forall j :: 0 <= j < |s.cpus| && j != i ==> inner.cpus[j] == s.inner.cpus[j]
    requires LocalInv(c, enabled[i], f.max) && InnerMatches(c, inner.cpus[i])
    requires Sees(f, i, c, inner.cpus[i])
    requires forall j :: 0 <= j < |s.cpus| && j != i ==> Sees(f, j, s.cpus[j], s.inner.cpus[j])
    requires OwnsDepth(s.cpus[i]) && !OwnsDepth(c) ==> f.depth == 0 && f.holder.None?
    requires !OwnsDepth(s.cpus[i]) && !OwnsDepth(c) ==> f == s.fields
    ensures Inv(State(inner, f, s.cpus[i := c]), enabled)
  {
    var cpus := s.cpus[i := c];
    if forall j :: 0 <= j < |cpus| ==> !OwnsDepth(cpus[j]) {
      if !OwnsDepth(s.cpus[i]) {
        forall j | 0 <= j < |s.cpus| ensures !OwnsDepth(s.cpus[j]) { assert j != i ==> cpus[j] == s.cpus[j]; }
      }
    }
  }

  lemma NextOwnKeepsInv(s: State, enabled: seq<bool>, t: Turn)
    requires Inv(s, enabled) && t.cpu < |s.cpus| && !RunsPlainLock(s.cpus[t.cpu])
    ensures Inv(Next(s, t), enabled)
  {
    var i, c, p := t.cpu, s.cpus[t.cpu], s.inner.cpus[t.cpu];
    var (f, c') := OwnStep(s.fields, i, c, t.request);
    OwnStepKeepsNesting(s.fields, i, c, p, enabled[i], t.request);
    OwnStepKeepsInterrupts(s.fields, i, c, p, enabled[i], t.request);
    OwnStepKeepsView(s.fields, i, c, p, enabled[i], t.request);
    OwnStepOnFields(s.fields, i, c, p, enabled[i], t.request);
    forall j | 0 <= j < |s.cpus| && j != i
      ensures Sees(f, j, s.cpus[j], s.inner.cpus[j])
    {
      if f != s.fields { OthersDoNotSee(s, enabled, i, j, f); }
    }
    Reassemble(s, enabled, i, s.inner, f, c');
  }

  // While CPU i is in the plain lock no other CPU relies on the fields it changes.
  lemma OthersDoNotSee(s: State, enabled: seq<bool>, i: nat, j: nat, f: Fields)
    requires Inv(s, enabled) && i < |s.cpus| && j < |s.cpus| && i != j
    requires InsidePlainLock(s.inner.cpus[i]) && (f.holder == s.fields.holder || f.holder in {None, Some(i)})
    requires Rw.IsExclusive(s.inner.cpus[i]) || f == s.fields
    ensures Sees(f, j, s.cpus[j], s.inner.cpus[j])
  {
    if Rw.IsExclusive(s.inner.cpus[i]) { ExclusiveIsAlone(s.inner, i, j); }
  }

  lemma NextInnerKeepsInv(s: State, enabled: seq<bool>, t: Turn)
    requires Inv(s, enabled) && t.cpu < |s.cpus| && RunsPlainLock(s.cpus[t.cpu])
    ensures Inv(Next(s, t), enabled)
  {
    var i, c := t.cpu, s.cpus[t.cpu];
    var inner := Rw.Next(s.inner, InnerTurn(i, c));
    Rw.NextKeepsInv(s.inner, InnerTurn(i, c));
    InnerStepKeepsLocalInv(s.fields, i, c, s.inner, enabled[i]);
    EntrantSeesFieldsAtRest(s, enabled, i, inner);
    Reassemble(s, enabled, i, inner, s.fields, AfterInner(c, inner.cpus[i]));
  }

  lemma EntrantSeesFieldsAtRest(s: State, enabled: seq<bool>, i: nat, inner: Rw.State)
    requires Inv(s, enabled) && i < |s.cpus| && RunsPlainLock(s.cpus[i])
    requires Rw.Inv(inner) && |inner.cpus| == |s.cpus|
    requires forall j :: 0 <= j < |s.cpus| && j != i ==> inner.cpus[j] == s.inner.cpus[j]
    ensures InsidePlainLock(inner.cpus[i]) ==> s.fields.depth == 0 && s.fields.holder.None?
  {
    if InsidePlainLock(inner.cpus[i]) {
      forall j | 0 <= j < |s.cpus| ensures !OwnsDepth(s.cpus[j]) {
        if j != i && OwnsDepth(s.cpus[j]) { ExclusiveIsAlone(inner, j, i); }
      }
    }
  }

  lemma {:induction false} ExecuteKeepsInv(s: State, enabled: seq<bool>, schedule: seq<Turn>)
    requires Inv(s, enabled)
    ensures Inv(Execute(s, schedule), enabled)
    decreases |schedule|
  {
    if schedule != [] {
      NextKeepsInv(s, enabled, schedule[0]);
      ExecuteKeepsInv(Next(s, schedule[0]), enabled, schedule[1..]);
    }
  }

  // ----- every interleaving -----

  // None of the ASSERTs on Holder, depth and the interrupt flag ever fires; the recursion limit
  // ASSERT stops a CPU only when it already has max unmatched exclusive acquires.
  lemma AssertsHold(recursivityDepth: Byte, enabled: seq<bool>, schedule: seq<Turn>, i: nat)
    requires |enabled| < WORD_SIZE && i < |enabled|
    ensures var s := Execute(Initial(recursivityDepth, enabled), schedule);
            && s.cpus[i].pc != Halted && s.inner.cpus[i] != Rw.Halted
            && (s.cpus[i].pc == LimitExceeded ==> s.cpus[i].nesting == s.fields.max == s.fields.depth)
  {
    InitialInv(recursivityDepth, enabled);
    ExecuteKeepsInv(Initial(recursivityDepth, enabled), enabled, schedule);
  }

  // A CPU between a returned exclusive acquire and the matching release is the recorded holder,
  // CurrentRecursivityDepth is its number of unmatched acquires, and no other CPU is inside.
  lemma HolderIsAlone(recursivityDepth: Byte, enabled: seq<bool>, schedule: seq<Turn>, i: nat, j: nat)
    requires |enabled| < WORD_SIZE && i < |enabled| && j < |enabled| && i != j
    ensures var s := Execute(Initial(recursivityDepth, enabled), schedule);
            s.cpus[i].pc == Inside(true) ==>
              && s.fields.holder == Some(i)
              && s.fields.depth == s.cpus[i].nesting >= 1
              && s.cpus[j].nesting == 0
              && !s.cpus[j].pc.Inside?
  {
    var s := Execute(Initial(recursivityDepth, enabled), schedule);
    InitialInv(recursivityDepth, enabled);
    ExecuteKeepsInv(Initial(recursivityDepth, enabled), enabled, schedule);
    if s.cpus[i].pc == Inside(true) { InsideIsAlone(s, enabled, i, j); }
  }

  lemma InsideIsAlone(s: State, enabled: seq<bool>, i: nat, j: nat)
    requires Inv(s, enabled) && i < |s.cpus| && j < |s.cpus| && i != j && s.cpus[i].pc == Inside(true)
    ensures s.fields.holder == Some(i) && s.fields.depth == s.cpus[i].nesting >= 1
    ensures s.cpus[j].nesting == 0 && !s.cpus[j].pc.Inside?
  {
    assert Sees(s.fields, i, s.cpus[i], s.inner.cpus[i]) && InnerMatches(s.cpus[i], s.inner.cpus[i]);
    ExclusiveIsAlone(s.inner, i, j);
    NotInPlainLock(s.cpus[j], s.inner.cpus[j], s.fields.max);
  }

  lemma NotInPlainLock(c: Cpu, p: Rw.Pc, max: Byte)
    requires InnerMatches(c, p) && NestingOk(c, max) && !InsidePlainLock(p) && c.pc != Halted
    ensures c.nesting == 0 && !c.pc.Inside?
  {
  }

  // Interrupts are off exactly from entry to the outermost acquire to the end of the outermost
  // release, which restores the flag the CPU came with, however deep the nesting was.
  lemma InterruptsOffInside(recursivityDepth: Byte, enabled: seq<bool>, schedule: seq<Turn>, i: nat)
    requires |enabled| < WORD_SIZE && i < |enabled|
    ensures var c := Execute(Initial(recursivityDepth, enabled), schedule).cpus[i];
            c.intrOn == (c.pc == Outside && enabled[i])
  {
    InitialInv(recursivityDepth, enabled);
    ExecuteKeepsInv(Initial(recursivityDepth, enabled), enabled, schedule);
  }

  // ----- what a call gets -----

  // Not inside an acquire or a release.
  predicate AtRest(c: Cpu) { c.pc.Outside? || c.pc.Inside? }

  // The calls a client may make: any acquire from outside, another exclusive one by an exclusive
  // holder, a release by any holder.
  predicate MayCall(c: Cpu, request: Request)
  {
    match c.pc
    case Outside => request != Release
    case Inside(exclusive) => request == Release || (exclusive && request == AcquireExclusive)
    case _ => false
  }

  // How CPU c is left by its call: an acquire from outside gives the mode that was asked for, a nested
  // one and its release count, and the last release leads outside.
  predicate IsLeftBy(c: Cpu, request: Request, c': Cpu)
  {
    match request
    case AcquireExclusive => c'.pc == Inside(true) && c'.nesting == c.nesting + 1 && c'.saved == c.saved + [c.intrOn]
    case AcquireShared => c'.pc == Inside(false) && c'.nesting == 0 && c'.saved == [c.intrOn]
    case Release =>
      && c'.pc == (if c.nesting > 1 then Inside(true) else Outside)
      && c'.nesting == (if c.nesting > 1 then c.nesting - 1 else 0)
      && |c'.saved| == |c.saved| - 1 && c'.saved == c.saved[..|c.saved| - 1]
  }

  // CPU i is inside its call in every state before the last.
  predicate BeforeReturn(s: State, schedule: seq<Turn>, i: nat)
    requires WellSized(s) && i < |s.cpus|
    decreases |schedule|
  {
    schedule != [] ==> !AtRest(s.cpus[i]) && BeforeReturn(Next(s, schedule[0]), schedule[1..], i)
  }

  // On the way from c through a call.
  predicate OnTheWay(c: Cpu, request: Request, c': Cpu)
  {
    match request
    case AcquireExclusive =>
      && c'.nesting == c.nesting && c'.saved == c.saved + [c.intrOn]
      && (if c.nesting == 0 then c'.pc in {TestHolder, InAcquire(true), CheckNoHolder(true), CheckNoDepth(true),
                                           SetDepth, SetHolder}
          else c'.pc in {TestHolder, CheckLimit, Deepen, LimitExceeded})
    case AcquireShared =>
      && c'.nesting == c.nesting == 0 && c'.saved == [c.intrOn]
      && c'.pc in {InAcquire(false), CheckNoHolder(false), CheckNoDepth(false)}
    case Release =>
      && c'.nesting == c.nesting && c'.saved == c.saved
      && (if c.pc == Inside(false) then c'.pc in {ClearHolder(false), InRelease(false)}
          else if c.nesting == 1 then c'.pc in {CheckHolder, LowerDepth, TestDepth, ClearHolder(true), InRelease(true)}
          else c'.pc in {CheckHolder, LowerDepth, TestDepth})
  }

  lemma CallBegins(s: State, enabled: seq<bool>, i: nat, request: Request)
    requires Inv(s, enabled) && i < |s.cpus| && MayCall(s.cpus[i], request)
    ensures OnTheWay(s.cpus[i], request, Next(s, Turn(i, request)).cpus[i])
  {
    assert LocalInv(s.cpus[i], enabled[i], s.fields.max);
  }

  lemma OwnStepOnTheWay(f: Fields, i: nat, c: Cpu, p: Rw.Pc, enabled: bool, c0: Cpu, request: Request, other: Request)
    requires 0 < f.max && LocalInv(c, enabled, f.max) && InnerMatches(c, p) && Sees(f, i, c, p)
    requires !RunsPlainLock(c) && OnTheWay(c0, request, c)
    ensures var c' := OwnStep(f, i, c, other).1; OnTheWay(c0, request, c') || IsLeftBy(c0, request, c')
  {
  }

  lemma InnerStepOnTheWay(s: Rw.State, i: nat, c: Cpu, c0: Cpu, request: Request)
    requires Rw.Inv(s) && i < |s.cpus| && InnerMatches(c, s.cpus[i]) && RunsPlainLock(c) && OnTheWay(c0, request, c)
    requires c0.pc == Inside(false) ==> c0.nesting == 0
    requires c.pc.InRelease? ==> c.saved != []
    ensures var c' := AfterInner(c, Rw.Next(s, InnerTurn(i, c)).cpus[i]);
      OnTheWay(c0, request, c') || IsLeftBy(c0, request, c')
  {
    Rw.WordsCoverCpu(s, i);
  }

  lemma StepOnTheWay(s: State, enabled: seq<bool>, i: nat, c0: Cpu, request: Request, t: Turn)
    requires Inv(s, enabled) && i < |s.cpus| && OnTheWay(c0, request, s.cpus[i])
    requires c0.pc == Inside(false) ==> c0.nesting == 0
    ensures var c' := Next(s, t).cpus[i]; OnTheWay(c0, request, c') || IsLeftBy(c0, request, c')
  {
    var c, p := s.cpus[i], s.inner.cpus[i];
    assert LocalInv(c, enabled[i], s.fields.max) && InnerMatches(c, p) && Sees(s.fields, i, c, p);
    if t.cpu == i {
      if RunsPlainLock(c) {
        InnerStepOnTheWay(s.inner, i, c, c0, request);
      } else {
        OwnStepOnTheWay(s.fields, i, c, p, enabled[i], c0, request, t.request);
      }
    }
  }

  lemma {:induction false} CallGoesOn(s: State, enabled: seq<bool>, i: nat, c0: Cpu, request: Request,
                                      schedule: seq<Turn>)
    requires Inv(s, enabled) && i < |s.cpus| && BeforeReturn(s, schedule, i)
    requires c0.pc == Inside(false) ==> c0.nesting == 0
    requires OnTheWay(c0, request, s.cpus[i]) || IsLeftBy(c0, request, s.cpus[i])
    ensures var c' := Execute(s, schedule).cpus[i]; OnTheWay(c0, request, c') || IsLeftBy(c0, request, c')
    decreases |schedule|
  {
    if schedule != [] {
      StepOnTheWay(s, enabled, i, c0, request, schedule[0]);
      NextKeepsInv(s, enabled, schedule[0]);
      CallGoesOn(Next(s, schedule[0]), enabled, i, c0, request, schedule[1..]);
    }
  }

  // In every interleaving: a call that returns leaves its CPU as IsLeftBy says, with interrupts off
  // unless it left the lock.
  lemma CallReturns(s: State, enabled: seq<bool>, i: nat, request: Request, schedule: seq<Turn>)
    requires Inv(s, enabled) && i < |s.cpus| && MayCall(s.cpus[i], request)
    requires BeforeReturn(Next(s, Turn(i, request)), schedule, i)
    ensures var c' := Execute(Next(s, Turn(i, request)), schedule).cpus[i];
      AtRest(c') ==> IsLeftBy(s.cpus[i], request, c') && c'.intrOn == (c'.pc == Outside && enabled[i])
  {
    var s1 := Next(s, Turn(i, request));
    CpuIsOk(s, enabled, i);
    CallBegins(s, enabled, i, request);
    NextKeepsInv(s, enabled, Turn(i, request));
    CallGoesOn(s1, enabled, i, s.cpus[i], request, schedule);
    ExecuteKeepsInv(s1, enabled, schedule);
    CallHasReturned(Execute(s1, schedule), enabled, i, s.cpus[i], request);
  }

  lemma CallHasReturned(s: State, enabled: seq<bool>, i: nat, c: Cpu, request: Request)
    requires Inv(s, enabled) && i < |s.cpus|
    requires OnTheWay(c, request, s.cpus[i]) || IsLeftBy(c, request, s.cpus[i])
    ensures AtRest(s.cpus[i]) ==> IsLeftBy(c, request, s.cpus[i])
    ensures s.cpus[i].intrOn == (s.cpus[i].pc == Outside && enabled[i])
  {
    CpuIsOk(s, enabled, i);
    if OnTheWay(c, request, s.cpus[i]) { NotYetAtRest(c, request, s.cpus[i]); }
  }

  lemma CpuIsOk(s: State, enabled: seq<bool>, i: nat)
    requires Inv(s, enabled) && i < |s.cpus|
    ensures InterruptsOk(s.cpus[i], enabled[i]) && (s.cpus[i].pc == Inside(false) ==> s.cpus[i].nesting == 0)
  {
    assert LocalInv(s.cpus[i], enabled[i], s.fields.max);
  }

  lemma NotYetAtRest(c: Cpu, request: Request, c': Cpu)
    requires OnTheWay(c, request, c')
    ensures !AtRest(c')
  {
  }

  // ----- the depth of the recursion -----

  lemma {:induction false} MaximumStays(s: State, schedule: seq<Turn>)
    requires WellSized(s)
    ensures Execute(s, schedule).fields.max == s.fields.max
    decreases |schedule|
  {
    if schedule != [] {
      MaximumStaysNext(s, schedule[0]);
      MaximumStays(Next(s, schedule[0]), schedule[1..]);
    }
  }

  lemma MaximumStaysNext(s: State, t: Turn)
    requires WellSized(s)
    ensures Next(s, t).fields.max == s.fields.max
  {
  }

  // In every run the maximum is the one asked for, 2 if none was, and no CPU nests deeper.
  lemma DepthIsBounded(recursivityDepth: Byte, enabled: seq<bool>, schedule: seq<Turn>, i: nat)
    requires |enabled| < WORD_SIZE && i < |enabled|
    ensures var s := Execute(Initial(recursivityDepth, enabled), schedule);
      s.cpus[i].nesting <= s.fields.max == if recursivityDepth == 0 then 2 else recursivityDepth
  {
    InitialInv(recursivityDepth, enabled);
    ExecuteKeepsInv(Initial(recursivityDepth, enabled), enabled, schedule);
    MaximumStays(Initial(recursivityDepth, enabled), schedule);
    NestingBound(Execute(Initial(recursivityDepth, enabled), schedule), enabled, i);
  }

  lemma NestingBound(s: State, enabled: seq<bool>, i: nat)
    requires Inv(s, enabled) && i < |s.cpus|
    ensures s.cpus[i].nesting <= s.fields.max
  {
    assert LocalInv(s.cpus[i], enabled[i], s.fields.max);
  }

  // What one turn does to CPU i and the fields, if the plain lock is not involved.
  lemma OwnTurn(s: State, i: nat, request: Request, rest: seq<Turn>, f: Fields, c: Cpu)
    requires WellSized(s) && i < |s.cpus| && !RunsPlainLock(s.cpus[i])
    requires OwnStep(s.fields, i, s.cpus[i], request) == (f, c)
    ensures Execute(s, [Turn(i, request)] + rest) == Execute(State(s.inner, f, s.cpus[i := c]), rest)
  {
    assert ([Turn(i, request)] + rest)[1..] == rest;
  }

  // CPU i is the only one with business in the lock, in which it is nested k deep.
  function Deep(max: Byte, enabled: seq<bool>, i: nat, saved: seq<bool>): State
    requires i < |enabled| && |saved| < BYTE_SIZE
  {
    State(Rw.State(Rw.Lock(0, if saved == [] then 0 else 1, 0),
                   Rw.Initial(|enabled|).cpus[i := if saved == [] then Rw.Idle else Rw.WriterIn]),
          if saved == [] then Fields(None, 0, max) else Fields(Some(i), |saved|, max),
          Initial(0, enabled).cpus[i := if saved == [] then Cpu(Outside, 0, enabled[i], [])
                                        else Cpu(Inside(true), |saved|, false, saved)])
  }

  lemma InnerTurnOf(s: State, i: nat, rest: seq<Turn>, inner: Rw.State, c: Cpu)
    requires WellSized(s) && i < |s.cpus| && RunsPlainLock(s.cpus[i])
    requires inner == Rw.Next(s.inner, InnerTurn(i, s.cpus[i])) && c == AfterInner(s.cpus[i], inner.cpus[i])
    ensures Execute(s, [Turn(i, AcquireExclusive)] + rest) == Execute(State(inner, s.fields, s.cpus[i := c]), rest)
  {
    assert ([Turn(i, AcquireExclusive)] + rest)[1..] == rest;
  }

  // The first acquire, up to the plain lock, in it, and behind it.
  lemma Entered(max: Byte, enabled: seq<bool>, i: nat, rest: seq<Turn>)
    requires i < |enabled|
    ensures var t, c := Turn(i, AcquireExclusive), Cpu(InAcquire(true), 0, false, [enabled[i]]);
      var s := Deep(max, enabled, i, []);
      Execute(s, [t] + ([t] + rest)) == Execute(State(s.inner, s.fields, s.cpus[i := c]), rest)
  {
    var s, t := Deep(max, enabled, i, []), Turn(i, AcquireExclusive);
    var c := Cpu(TestHolder, 0, false, [enabled[i]]);
    assert [] + [enabled[i]] == [enabled[i]];
    OwnTurn(s, i, AcquireExclusive, [t] + rest, s.fields, c);
    OwnTurn(State(s.inner, s.fields, s.cpus[i := c]), i, AcquireExclusive, rest, s.fields, c.(pc := InAcquire(true)));
    assert s.cpus[i := c][i := c.(pc := InAcquire(true))] == s.cpus[i := c.(pc := InAcquire(true))];
  }

  lemma PlainLockTaken(max: Byte, enabled: seq<bool>, i: nat, rest: seq<Turn>)
    requires i < |enabled|
    ensures var t, c := Turn(i, AcquireExclusive), Cpu(InAcquire(true), 0, false, [enabled[i]]);
      var s := Deep(max, enabled, i, []);
      Execute(State(s.inner, s.fields, s.cpus[i := c]), [t] + ([t] + ([t] + rest)))
      == Execute(State(Deep(max, enabled, i, [enabled[i]]).inner, s.fields,
                       s.cpus[i := c.(pc := CheckNoHolder(true))]), rest)
  {
    var s, t := Deep(max, enabled, i, []), Turn(i, AcquireExclusive);
    var c := Cpu(InAcquire(true), 0, false, [enabled[i]]);
    var cpus, q := s.cpus[i := c], s.inner.cpus;
    var q1 := Rw.State(Rw.Lock(1, 0, 0), q[i := Rw.WriterSpin]);
    var q2 := Rw.State(Rw.Lock(1, 1, 0), q[i := Rw.WriterWon]);
    var q3 := Rw.State(Rw.Lock(0, 1, 0), q[i := Rw.WriterIn]);
    InnerTurnOf(State(s.inner, s.fields, cpus), i, [t] + ([t] + rest), q1, c);
    assert cpus[i := c] == cpus;
    assert q1.cpus[i := Rw.WriterWon] == q2.cpus && q2.cpus[i := Rw.WriterIn] == q3.cpus;
    InnerTurnOf(State(q1, s.fields, cpus), i, [t] + rest, q2, c);
    InnerTurnOf(State(q2, s.fields, cpus), i, rest, q3, c.(pc := CheckNoHolder(true)));
    assert cpus[i := c.(pc := CheckNoHolder(true))] == s.cpus[i := c.(pc := CheckNoHolder(true))];
    assert q3 == Deep(max, enabled, i, [enabled[i]]).inner;
  }

  lemma FieldsSet(max: Byte, enabled: seq<bool>, i: nat, rest: seq<Turn>)
    requires i < |enabled|
    ensures var t, c := Turn(i, AcquireExclusive), Cpu(CheckNoHolder(true), 0, false, [enabled[i]]);
      var s, r := Deep(max, enabled, i, []), Deep(max, enabled, i, [enabled[i]]);
      Execute(State(r.inner, s.fields, s.cpus[i := c]), [t] + ([t] + ([t] + ([t] + rest)))) == Execute(r, rest)
  {
    var t, x := Turn(i, AcquireExclusive), AcquireExclusive;
    var s, r := Deep(max, enabled, i, []), Deep(max, enabled, i, [enabled[i]]);
    var c, f := Cpu(CheckNoHolder(true), 0, false, [enabled[i]]), s.fields;
    var s1 := State(r.inner, f, s.cpus[i := c.(pc := CheckNoDepth(true))]);
    var s2 := State(r.inner, f, s.cpus[i := c.(pc := SetDepth)]);
    var s3 := State(r.inner, f.(depth := 1), s.cpus[i := c.(pc := SetHolder)]);
    OwnTurn(State(r.inner, f, s.cpus[i := c]), i, x, [t] + ([t] + ([t] + rest)), f, s1.cpus[i]);
    assert s.cpus[i := c][i := s1.cpus[i]] == s1.cpus;
    OwnTurn(s1, i, x, [t] + ([t] + rest), f, s2.cpus[i]);
    assert s1.cpus[i := s2.cpus[i]] == s2.cpus;
    OwnTurn(s2, i, x, [t] + rest, f.(depth := 1), s3.cpus[i]);
    assert s2.cpus[i := s3.cpus[i]] == s3.cpus;
    OwnTurn(s3, i, x, rest, r.fields, r.cpus[i]);
    assert s3.cpus[i := r.cpus[i]] == r.cpus;
  }

  lemma FirstAcquire(max: Byte, enabled: seq<bool>, i: nat, rest: seq<Turn>)
    requires i < |enabled|
    ensures var t := Turn(i, AcquireExclusive);
      Execute(Deep(max, enabled, i, []), [t, t, t, t, t, t, t, t, t] + rest)
      == Execute(Deep(max, enabled, i, [enabled[i]]), rest)
  {
    var t := Turn(i, AcquireExclusive);
    var last := [t] + ([t] + ([t] + ([t] + rest)));
    var middle := [t] + ([t] + ([t] + last));
    assert [t, t, t, t, t, t, t, t, t] + rest == [t] + ([t] + middle);
    Entered(max, enabled, i, middle);
    PlainLockTaken(max, enabled, i, last);
    FieldsSet(max, enabled, i, rest);
  }

  lemma {:induction false} Dive(max: Byte, enabled: seq<bool>, i: nat, saved: seq<bool>, k: nat)
    returns (schedule: seq<Turn>)
    requires i < |enabled| && |saved| <= k <= max
    ensures Execute(Deep(max, enabled, i, saved), schedule).cpus[i].nesting == k
    ensures 0 < k ==> Execute(Deep(max, enabled, i, saved), schedule).cpus[i].pc == Inside(true)
    decreases k - |saved|
  {
    schedule := [];
    if |saved| < k {
      var t := Turn(i, AcquireExclusive);
      if saved == [] {
        var rest := Dive(max, enabled, i, [enabled[i]], k);
        FirstAcquire(max, enabled, i, rest);
        schedule := [t, t, t, t, t, t, t, t, t] + rest;
      } else {
        var rest := Dive(max, enabled, i, saved + [false], k);
        Deeper(max, enabled, i, saved, rest);
        schedule := [t, t, t, t] + rest;
      }
    }
  }

  // And every depth up to the maximum is reached, by any CPU.
  lemma DepthIsReached(recursivityDepth: Byte, enabled: seq<bool>, i: nat, k: nat) returns (schedule: seq<Turn>)
    requires i < |enabled| && 0 < k <= if recursivityDepth == 0 then 2 else recursivityDepth
    ensures var c := Execute(Initial(recursivityDepth, enabled), schedule).cpus[i];
      c.pc == Inside(true) && c.nesting == k
  {
    var s := Initial(recursivityDepth, enabled);
    assert s.inner.cpus[i := Rw.Idle] == s.inner.cpus && s.cpus[i := s.cpus[i]] == s.cpus;
    assert s == Deep(s.fields.max, enabled, i, []);
    schedule := Dive(s.fields.max, enabled, i, [], k);
  }

  lemma Deeper(max: Byte, enabled: seq<bool>, i: nat, saved: seq<bool>, rest: seq<Turn>)
    requires i < |enabled| && 0 < |saved| < max
    ensures var t := Turn(i, AcquireExclusive);
      Execute(Deep(max, enabled, i, saved), [t, t, t, t] + rest)
      == Execute(Deep(max, enabled, i, saved + [false]), rest)
  {
    var s, t, r := Deep(max, enabled, i, saved), Turn(i, AcquireExclusive), AcquireExclusive;
    var f, k := s.fields, |saved|;
    var c := Cpu(TestHolder, k, false, saved + [false]);
    var c' := Cpu(Inside(true), k + 1, false, saved + [false]);
    var s1 := State(s.inner, f, s.cpus[i := c]);
    var s2 := State(s.inner, f, s.cpus[i := c.(pc := CheckLimit)]);
    var s3 := State(s.inner, f, s.cpus[i := c.(pc := Deepen)]);
    assert [t, t, t, t] + rest == [t] + ([t] + ([t] + ([t] + rest)));
    OwnTurn(s, i, r, [t] + ([t] + ([t] + rest)), f, c);
    OwnTurn(s1, i, r, [t] + ([t] + rest), f, c.(pc := CheckLimit));
    assert s1.cpus[i := c.(pc := CheckLimit)] == s2.cpus;
    OwnTurn(s2, i, r, [t] + rest, f, c.(pc := Deepen));
    assert s2.cpus[i := c.(pc := Deepen)] == s3.cpus;
    OwnTurn(s3, i, r, rest, f.(depth := k + 1), c');
    assert State(s.inner, f.(depth := k + 1), s3.cpus[i := c']) == Deep(max, enabled, i, saved + [false]);
  }

  // ----- refinement of the plain lock -----

  // The turns of the plain lock inside a run of the recursive one.
  function InnerSchedule(s: State, schedule: seq<Turn>): seq<Rw.Turn>
    requires WellSized(s)
    decreases |schedule|
  {
    if schedule == [] then [] else
    var t := schedule[0];
    (if t.cpu < |s.cpus| && RunsPlainLock(s.cpus[t.cpu]) then [InnerTurn(t.cpu, s.cpus[t.cpu])] else [])
      + InnerSchedule(Next(s, t), schedule[1..])
  }

  // Every run of the recursive lock is, on the embedded RW_SPINLOCK, a run of the plain lock.
  lemma {:induction false} RefinesPlainLock(s: State, schedule: seq<Turn>)
    requires WellSized(s)
    ensures Execute(s, schedule).inner == Rw.Execute(s.inner, InnerSchedule(s, schedule))
    decreases |schedule|
  {
    if schedule != [] {
      var t := schedule[0];
      RefinesPlainLock(Next(s, t), schedule[1..]);
      if t.cpu < |s.cpus| && RunsPlainLock(s.cpus[t.cpu]) {
        var turns := InnerSchedule(s, schedule);
        assert turns[1..] == InnerSchedule(Next(s, t), schedule[1..]);
      } else {
        assert InnerSchedule(s, schedule) == InnerSchedule(Next(s, t), schedule[1..]);
      }
    }
  }

  // How often, in a run, CPU i's nesting goes 0 -> 1 (up) or 1 -> 0 (down), and how often it
  // takes or gives back the plain lock exclusively.
  function Outermost(c: Cpu, c': Cpu, up: bool): nat
  {
    if (if up then c.nesting == 0 && c'.nesting == 1 else c.nesting == 1 && c'.nesting == 0) then 1 else 0
  }

  function Plain(p: Rw.Pc, p': Rw.Pc, up: bool): nat
  {
    if (if up then p == Rw.WriterWon && p' == Rw.WriterIn else p == Rw.WriterLeave && p' == Rw.Idle) then 1 else 0
  }

  function OutermostCalls(s: State, schedule: seq<Turn>, i: nat, up: bool): nat
    requires WellSized(s) && i < |s.cpus|
    decreases |schedule|
  {
    if schedule == [] then 0 else
    var s' := Next(s, schedule[0]);
    OutermostCalls(s', schedule[1..], i, up) + Outermost(s.cpus[i], s'.cpus[i], up)
  }

  function PlainCalls(s: State, schedule: seq<Turn>, i: nat, up: bool): nat
    requires WellSized(s) && i < |s.cpus|
    decreases |schedule|
  {
    if schedule == [] then 0 else
    var s' := Next(s, schedule[0]);
    PlainCalls(s', schedule[1..], i, up) + Plain(s.inner.cpus[i], s'.inner.cpus[i], up)
  }

  // The outermost acquire has the plain lock but has not returned.
  function Returning(c: Cpu): nat
  {
    match c.pc
    case CheckNoHolder(exclusive) => if exclusive then 1 else 0
    case CheckNoDepth(exclusive) => if exclusive then 1 else 0
    case SetDepth | SetHolder => 1
    case _ => 0
  }

  // However deep the nesting, the plain lock is taken once per outermost acquire and given back
  // once per outermost release.
  lemma {:induction false} OnePlainPairPerOutermostPair(s: State, enabled: seq<bool>, schedule: seq<Turn>, i: nat)
    requires Inv(s, enabled) && i < |s.cpus|
    ensures PlainCalls(s, schedule, i, true) + Returning(s.cpus[i])
         == OutermostCalls(s, schedule, i, true) + Returning(Execute(s, schedule).cpus[i])
    ensures PlainCalls(s, schedule, i, false) == OutermostCalls(s, schedule, i, false)
    decreases |schedule|
  {
    if schedule != [] {
      var t := schedule[0];
      var s' := Next(s, t);
      NextKeepsInv(s, enabled, t);
      OnePlainPairPerOutermostPair(s', enabled, schedule[1..], i);
      PlainCallsOfOneTurn(s, enabled, t, i);
    }
  }

  lemma PlainCallsOfOneTurn(s: State, enabled: seq<bool>, t: Turn, i: nat)
    requires Inv(s, enabled) && i < |s.cpus|
    ensures var s' := Next(s, t);
            && Plain(s.inner.cpus[i], s'.inner.cpus[i], true) + Returning(s.cpus[i])
               == Outermost(s.cpus[i], s'.cpus[i], true) + Returning(s'.cpus[i])
            && Plain(s.inner.cpus[i], s'.inner.cpus[i], false) == Outermost(s.cpus[i], s'.cpus[i], false)
  {
    var c, p := s.cpus[i], s.inner.cpus[i];
    assert InnerMatches(c, p) && NestingOk(c, s.fields.max) && Sees(s.fields, i, c, p);
    if t.cpu == i {
      if RunsPlainLock(c) {
        if Rw.OwnsWriterWord(p) { Rw.CountedMember(s.inner.cpus, i, Rw.OwnsWriterWord); }
        PlainCallsOfInnerStep(i, c, p, s.fields.max, s.inner.lock);
      } else {
        PlainCallsOfOwnStep(s.fields, i, c, p, t.request);
      }
    }
  }

  lemma PlainCallsOfInnerStep(i: nat, c: Cpu, p: Rw.Pc, max: Byte, l: Rw.Lock)
    requires RunsPlainLock(c) && InnerMatches(c, p) && NestingOk(c, max)
    requires Rw.OwnsWriterWord(p) ==> l.activeWriter == 1
    ensures var p' := Rw.Advance(l, p, InnerTurn(i, c).call).1;
            var c' := AfterInner(c, p');
            Plain(p, p', true) + Returning(c) == Outermost(c, c', true) + Returning(c')
            && Plain(p, p', false) == Outermost(c, c', false)
  {
  }

  lemma PlainCallsOfOwnStep(f: Fields, i: nat, c: Cpu, p: Rw.Pc, request: Request)
    requires !RunsPlainLock(c) && InnerMatches(c, p) && NestingOk(c, f.max) && Sees(f, i, c, p) && c.pc != Halted
    ensures var c' := OwnStep(f, i, c, request).1;
            Returning(c) == Outermost(c, c', true) + Returning(c') && Outermost(c, c', false) == 0
  {
  }

  // ----- progress -----

  // An acquire beyond the recursion limit, from its first step on: ASSERT_INFO will stop it.
  predicate OverLimit(c: Cpu, max: Byte)
  {
    match c.pc
    case TestHolder | CheckLimit => c.nesting == max
    case LimitExceeded => true
    case _ => false
  }

  // Spinning in the plain lock.
  predicate Spins(c: Cpu, p: Rw.Pc) { c.pc.InAcquire? && Rw.IsWaiting(p) }

  // Steps still to be made in the plain lock by a CPU that acquires it.
  function RemainingToEnter(p: Rw.Pc): nat
  {
    match p
    case WriterWon => 1
    case WriterSpin => 2
    case ReaderChecked => 1
    case ReaderCounted => 2
    case ReaderPseudo => 3
    case ReaderSpin => 4
    case _ => 0
  }

  // Steps still to be made by a CPU that only releases, before it is outside again.
  function Remaining(c: Cpu, p: Rw.Pc): nat
  {
    match c.pc
    case Outside => 0
    case TestHolder => if c.nesting == 0 then 15 else 4 * c.nesting + 10
    case CheckLimit => 4 * c.nesting + 9
    case Deepen => 4 * c.nesting + 8
    case InAcquire(exclusive) =>
      if p == Rw.Idle then (if exclusive then 14 else 10) else RemainingToEnter(p) + (if exclusive then 11 else 5)
    case CheckNoHolder(exclusive) => if exclusive then 11 else 5
    case CheckNoDepth(exclusive) => if exclusive then 10 else 4
    case SetDepth => 9
    case SetHolder => 8
    case Inside(exclusive) => if exclusive then 4 * c.nesting + 3 else 3
    case CheckHolder => 4 * c.nesting + 2
    case LowerDepth => 4 * c.nesting + 1
    case TestDepth => 4 * c.nesting
    case ClearHolder(exclusive) => if exclusive then 3 else 2
    case InRelease(exclusive) => if p == Rw.WriterIn then 2 else 1
    case LimitExceeded | Halted => 0
  }

  function TotalRemaining(cpus: seq<Cpu>, inner: seq<Rw.Pc>): nat
    requires |cpus| == |inner|
  {
    if cpus == [] then 0 else Remaining(cpus[0], inner[0]) + TotalRemaining(cpus[1..], inner[1..])
  }

  lemma {:induction false} RemainingAfterUpdate(cpus: seq<Cpu>, inner: seq<Rw.Pc>, i: nat, c: Cpu, p: Rw.Pc)
    requires i < |cpus| == |inner|
    ensures TotalRemaining(cpus[i := c], inner[i := p])
         == TotalRemaining(cpus, inner) - Remaining(cpus[i], inner[i]) + Remaining(c, p)
  {
    if i == 0 {
      assert cpus[i := c][1..] == cpus[1..] && inner[i := p][1..] == inner[1..];
    } else {
      RemainingAfterUpdate(cpus[1..], inner[1..], i - 1, c, p);
      assert cpus[i := c][1..] == cpus[1..][i - 1 := c] && inner[i := p][1..] == inner[1..][i - 1 := p];
    }
  }

  lemma OwnStepUsesOne(f: Fields, i: nat, c: Cpu, p: Rw.Pc, enabled: bool)
    requires 0 < f.max && LocalInv(c, enabled, f.max) && InnerMatches(c, p) && Sees(f, i, c, p)
    requires !RunsPlainLock(c) && c.pc != Outside && !OverLimit(c, f.max)
    ensures var c' := OwnStep(f, i, c, Release).1; Remaining(c', p) + 1 == Remaining(c, p) && !OverLimit(c', f.max)
  {
  }

  lemma InnerStepUsesOne(s: Rw.State, i: nat, c: Cpu, max: Byte)
    requires Rw.Inv(s) && i < |s.cpus| && InnerMatches(c, s.cpus[i]) && RunsPlainLock(c)
    requires Spins(c, s.cpus[i]) ==> Rw.Next(s, InnerTurn(i, c)).cpus[i] != s.cpus[i]
    ensures var p' := Rw.Next(s, InnerTurn(i, c)).cpus[i];
      Remaining(AfterInner(c, p'), p') + 1 == Remaining(c, s.cpus[i]) && !OverLimit(AfterInner(c, p'), max)
  {
    Rw.NextKeepsInv(s, InnerTurn(i, c));
  }

  // A step that is not a spin, by a CPU on its way out or through an acquire within the limit.
  predicate MakesProgress(s: State, i: nat)
    requires WellSized(s)
  {
    && i < |s.cpus| && s.cpus[i].pc != Outside
    && (Spins(s.cpus[i], s.inner.cpus[i]) ==>
          Rw.Next(s.inner, InnerTurn(i, s.cpus[i])).cpus[i] != s.inner.cpus[i])
  }

  ghost predicate WithinLimit(s: State) { forall i :: 0 <= i < |s.cpus| ==> !OverLimit(s.cpus[i], s.fields.max) }

  lemma ProgressUsesOneStep(s: State, enabled: seq<bool>, i: nat)
    requires Inv(s, enabled) && WithinLimit(s) && MakesProgress(s, i)
    ensures var r := Next(s, Turn(i, Release));
      WithinLimit(r) && TotalRemaining(r.cpus, r.inner.cpus) + 1 == TotalRemaining(s.cpus, s.inner.cpus)
  {
    var c, p := s.cpus[i], s.inner.cpus[i];
    var r := Next(s, Turn(i, Release));
    if RunsPlainLock(c) {
      InnerStepUsesOne(s.inner, i, c, s.fields.max);
    } else {
      OwnStepUsesOne(s.fields, i, c, p, enabled[i]);
      OwnStepKeepsNesting(s.fields, i, c, p, enabled[i], Release);
      assert r.inner.cpus == s.inner.cpus[i := p];
    }
    RemainingAfterUpdate(s.cpus, s.inner.cpus, i, r.cpus[i], r.inner.cpus[i]);
  }

  // Whenever a CPU is not outside, some CPU has a step that is not a spin: the lock never deadlocks.
  lemma DeadlockFreedom(s: State, enabled: seq<bool>, i: nat) returns (j: nat)
    requires Inv(s, enabled) && i < |s.cpus| && s.cpus[i].pc != Outside
    ensures MakesProgress(s, j)
  {
    j := i;
    if Spins(s.cpus[i], s.inner.cpus[i]) {
      var t := Rw.DeadlockFreedom(s.inner, i);
      j := t.cpu;
      assert InnerMatches(s.cpus[j], s.inner.cpus[j]);
    }
  }

  // From every reachable state without an acquire beyond the limit some run lets every CPU finish:
  // all calls in progress return and everything is released.
  lemma {:induction false} EveryoneCanFinish(s: State, enabled: seq<bool>) returns (schedule: seq<Turn>)
    requires Inv(s, enabled) && WithinLimit(s)
    ensures |schedule| == TotalRemaining(s.cpus, s.inner.cpus)
    ensures forall i :: 0 <= i < |s.cpus| ==> Execute(s, schedule).cpus[i].pc == Outside
    decreases TotalRemaining(s.cpus, s.inner.cpus)
  {
    if i :| 0 <= i < |s.cpus| && s.cpus[i].pc != Outside {
      var j := DeadlockFreedom(s, enabled, i);
      var t := Turn(j, Release);
      ProgressUsesOneStep(s, enabled, j);
      NextKeepsInv(s, enabled, t);
      var rest := EveryoneCanFinish(Next(s, t), enabled);
      schedule := [t] + rest;
      assert schedule[1..] == rest;
    } else {
      schedule := [];
      NothingRemains(s.cpus, s.inner.cpus);
    }
  }

  lemma {:induction false} NothingRemains(cpus: seq<Cpu>, inner: seq<Rw.Pc>)
    requires |cpus| == |inner| && forall i :: 0 <= i < |cpus| ==> cpus[i].pc == Outside
    ensures TotalRemaining(cpus, inner) == 0
  {
    if cpus != [] { NothingRemains(cpus[1..], inner[1..]); }
  }

  // The condition is needed: a CPU in such an acquire never gets out, whatever the others do.
  lemma {:induction false} OverLimitStays(s: State, enabled: seq<bool>, schedule: seq<Turn>, i: nat)
    requires Inv(s, enabled) && i < |s.cpus| && OverLimit(s.cpus[i], s.fields.max)
    ensures var r := Execute(s, schedule); r.fields.max == s.fields.max && OverLimit(r.cpus[i], r.fields.max)
    decreases |schedule|
  {
    if schedule != [] {
      var t := schedule[0];
      NextKeepsInv(s, enabled, t);
      OverLimitStep(s, enabled, t, i);
      OverLimitStays(Next(s, t), enabled, schedule[1..], i);
    }
  }

  lemma OverLimitStep(s: State, enabled: seq<bool>, t: Turn, i: nat)
    requires Inv(s, enabled) && i < |s.cpus| && OverLimit(s.cpus[i], s.fields.max)
    ensures Next(s, t).fields.max == s.fields.max && OverLimit(Next(s, t).cpus[i], s.fields.max)
  {
    assert Sees(s.fields, i, s.cpus[i], s.inner.cpus[i]) && LocalInv(s.cpus[i], enabled[i], s.fields.max);
    if t.cpu < |s.cpus| && !RunsPlainLock(s.cpus[t.cpu]) {
      var c, p := s.cpus[t.cpu], s.inner.cpus[t.cpu];
      OwnStepKeepsNesting(s.fields, t.cpu, c, p, enabled[t.cpu], t.request);
    }
  }
}
