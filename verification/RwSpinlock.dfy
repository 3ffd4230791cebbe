/**
  The reader/writer spinlock (src/CommonLib/src/rw_spinlock.c) as a step relation over any
  number of CPUs.  Every interlocked instruction, and every read made by an ASSERT, is one step
  of one CPU; a schedule is any finite sequence of (CPU, client request) pairs.

  The lock is three adjacent 16-bit words.  A writer compares and exchanges the 32 bits that
  start at ActiveWriter, a reader the 32 bits that start at WaitingWriters, so the two
  exchanges overlap on ActiveWriter.
 */
module RwSpinlock {

  import opened Basics

  datatype Lock = Lock(waitingWriters: Word, activeWriter: Word, activeReaders: Word)

  // ----- the machine instructions -----

  function Increment16(w: Word): Word { (w + 1) % WORD_SIZE }

  function Decrement16(w: Word): Word { (w - 1) % WORD_SIZE }

  // The little-endian 32 bits that start at WaitingWriters, and those that start at ActiveWriter.
  function LoadFromWaitingWriters(l: Lock): int { l.waitingWriters + WORD_SIZE * l.activeWriter }

  function LoadFromActiveWriter(l: Lock): int { l.activeWriter + WORD_SIZE * l.activeReaders }

  function StoreAtWaitingWriters(l: Lock, dword: int): Lock
    requires 0 <= dword < WORD_SIZE * WORD_SIZE
  {
    l.(waitingWriters := dword % WORD_SIZE, activeWriter := dword / WORD_SIZE)
  }

  function StoreAtActiveWriter(l: Lock, dword: int): Lock
    requires 0 <= dword < WORD_SIZE * WORD_SIZE
  {
    l.(activeWriter := dword % WORD_SIZE, activeReaders := dword / WORD_SIZE)
  }

  // ----- the program of one CPU -----

  datatype Pc =
    | Idle           // does not hold the lock and does not want it
    | WriterSpin     // counted in WaitingWriters, at the compare-exchange
    | WriterWon      // exchange succeeded, still counted in WaitingWriters
    | WriterIn       // RwSpinlockAcquire(exclusive) has returned
    | WriterLeave    // past the ASSERT of RwSpinlockRelease
    | ReaderSpin     // at the compare-exchange
    | ReaderPseudo   // exchange succeeded: poses as the writer
    | ReaderCounted  // counted in ActiveReaders, at the ASSERT
    | ReaderChecked  // past the ASSERT, still posing as the writer
    | ReaderIn       // RwSpinlockAcquire(shared) has returned
    | Halted         // an ASSERT fired

  datatype Call = AcquireExclusive | AcquireShared

  // One step of a CPU at `pc`; `call` is what an idle CPU asks for.
  function Advance(l: Lock, pc: Pc, call: Call): (Lock, Pc)
  {
    match pc
    case Idle =>
      if call.AcquireExclusive?
      then (l.(waitingWriters := Increment16(l.waitingWriters)), WriterSpin)
      else (l, ReaderSpin)
    case WriterSpin =>
      if LoadFromActiveWriter(l) == 0 then (StoreAtActiveWriter(l, 1), WriterWon) else (l, WriterSpin)
    case WriterWon => (l.(waitingWriters := Decrement16(l.waitingWriters)), WriterIn)
    case WriterIn => (l, if l.activeWriter == 1 then WriterLeave else Halted)
    case WriterLeave => (l.(activeWriter := Decrement16(l.activeWriter)), Idle)
    case ReaderSpin =>
      if LoadFromWaitingWriters(l) == 0 then (StoreAtWaitingWriters(l, 0xFFFF + 1), ReaderPseudo) else (l, ReaderSpin)
    case ReaderPseudo => (l.(activeReaders := Increment16(l.activeReaders)), ReaderCounted)
    case ReaderCounted => (l, if l.activeWriter == 1 then ReaderChecked else Halted)
    case ReaderChecked => (l.(activeWriter := Decrement16(l.activeWriter)), ReaderIn)
    case ReaderIn => (l.(activeReaders := Decrement16(l.activeReaders)), Idle)
    case Halted => (l, Halted)
  }

  datatype State = State(lock: Lock, cpus: seq<Pc>)

  datatype Turn = Turn(cpu: nat, call: Call)

  function Initial(cpuCount: nat): State { State(Lock(0, 0, 0), seq(cpuCount, i => Idle)) }

  function Next(s: State, t: Turn): (r: State)
    ensures |r.cpus| == |s.cpus|
  {
    if t.cpu < |s.cpus| then
      var (l, pc) := Advance(s.lock, s.cpus[t.cpu], t.call);
      State(l, s.cpus[t.cpu := pc])
    else s
  }

  function Execute(s: State, schedule: seq<Turn>): (r: State)
    ensures |r.cpus| == |s.cpus|
    decreases |schedule|
  {
    if schedule == [] then s else Execute(Next(s, schedule[0]), schedule[1..])
  }

  // ----- who counts as what -----

  predicate IsWaitingWriter(p: Pc)
  {
    match p
    case WriterSpin | WriterWon => true
    case _ => false
  }

  predicate OwnsWriterWord(p: Pc)
  {
    match p
    case WriterWon | WriterIn | WriterLeave | ReaderPseudo | ReaderCounted | ReaderChecked => true
    case _ => false
  }

  predicate IsCountedReader(p: Pc)
  {
    match p
    case ReaderCounted | ReaderChecked | ReaderIn => true
    case _ => false
  }

  predicate IsExclusive(p: Pc)
  {
    match p
    case WriterWon | WriterIn | WriterLeave => true
    case _ => false
  }

  // A reader whose exchange has succeeded, whether or not it still poses as the writer.
  predicate IsAdmittedReader(p: Pc) { p == ReaderPseudo || IsCountedReader(p) }

  predicate IsWaiting(p: Pc) { p == WriterSpin || p == ReaderSpin }

  function Count(cpus: seq<Pc>, kind: Pc -> bool): (n: nat)
    ensures n <= |cpus|
  {
    if cpus == [] then 0 else Count(cpus[1..], kind) + if kind(cpus[0]) then 1 else 0
  }

  lemma {:induction false} CountAfterUpdate(cpus: seq<Pc>, i: nat, p: Pc, kind: Pc -> bool)
    requires i < |cpus|
    ensures Count(cpus[i := p], kind)
         == Count(cpus, kind) - (if kind(cpus[i]) then 1 else 0) + (if kind(p) then 1 else 0)
  {
    var after := cpus[i := p];
    if i == 0 {
      assert after[1..] == cpus[1..];
    } else {
      CountAfterUpdate(cpus[1..], i - 1, p, kind);
      assert after[1..] == cpus[1..][i - 1 := p];
    }
  }

  lemma {:induction false} CountedMember(cpus: seq<Pc>, i: nat, kind: Pc -> bool)
    requires i < |cpus| && kind(cpus[i])
    ensures Count(cpus, kind) >= 1
  {
    if i > 0 { CountedMember(cpus[1..], i - 1, kind); }
  }

  lemma {:induction false} CountedPair(cpus: seq<Pc>, i: nat, j: nat, kind: Pc -> bool)
    requires i < j < |cpus| && kind(cpus[i]) && kind(cpus[j])
    ensures Count(cpus, kind) >= 2
  {
    if i == 0 {
      CountedMember(cpus[1..], j - 1, kind);
    } else {
      CountedPair(cpus[1..], i - 1, j - 1, kind);
    }
  }

  lemma {:induction false} PositiveCountHasMember(cpus: seq<Pc>, kind: Pc -> bool) returns (i: nat)
    requires Count(cpus, kind) > 0
    ensures i < |cpus| && kind(cpus[i])
  {
    if kind(cpus[0]) {
      i := 0;
    } else {
      i := PositiveCountHasMember(cpus[1..], kind);
      i := i + 1;
    }
  }

  lemma {:induction false} NobodyCounted(cpus: seq<Pc>, kind: Pc -> bool)
    requires forall i :: 0 <= i < |cpus| ==> !kind(cpus[i])
    ensures Count(cpus, kind) == 0
  {
    if cpus != [] { NobodyCounted(cpus[1..], kind); }
  }

  // ----- the invariant -----

  // Each word is the exact number of CPUs it stands for, at most one CPU owns ActiveWriter, and
  // while that CPU is a real writer there is no reader.
  ghost predicate Inv(s: State)
  {
    && |s.cpus| < WORD_SIZE
    && s.lock.waitingWriters == Count(s.cpus, IsWaitingWriter)
    && s.lock.activeWriter == Count(s.cpus, OwnsWriterWord) <= 1
    && s.lock.activeReaders == Count(s.cpus, IsCountedReader)
    && (forall i :: 0 <= i < |s.cpus| ==> s.cpus[i] != Halted)
    && (forall i :: 0 <= i < |s.cpus| && IsExclusive(s.cpus[i]) ==> s.lock.activeReaders == 0)
  }

  lemma InitialInv(cpuCount: nat)
    requires cpuCount < WORD_SIZE
    ensures Inv(Initial(cpuCount))
  {
    var cpus := Initial(cpuCount).cpus;
    NobodyCounted(cpus, IsWaitingWriter);
    NobodyCounted(cpus, OwnsWriterWord);
    NobodyCounted(cpus, IsCountedReader);
  }

  lemma PseudoWriterIsAlone(s: State, i: nat)
    requires Inv(s) && i < |s.cpus| && s.cpus[i] == ReaderPseudo
    ensures forall k :: 0 <= k < |s.cpus| ==> !IsExclusive(s.cpus[k])
  {
    forall k | 0 <= k < |s.cpus| ensures !IsExclusive(s.cpus[k]) {
      if IsExclusive(s.cpus[k]) {
        CountedPair(s.cpus, if k < i then k else i, if k < i then i else k, OwnsWriterWord);
      }
    }
  }

  function Unit(b: bool): int { if b then 1 else 0 }

  // One step changes each word by what it changes in the number of CPUs the word stands for,
  // if the words were exact before.
  lemma AdvanceIsExact(l: Lock, pc: Pc, call: Call)
    requires OwnsWriterWord(pc) ==> l.activeWriter == 1
    requires IsWaitingWriter(pc) ==> l.waitingWriters > 0
    requires IsCountedReader(pc) ==> l.activeReaders > 0
    requires l.waitingWriters < WORD_SIZE - Unit(pc == Idle) && l.activeReaders < WORD_SIZE - Unit(pc == ReaderPseudo)
    requires pc != Halted
    ensures var (l', pc') := Advance(l, pc, call);
            && l'.waitingWriters == l.waitingWriters - Unit(IsWaitingWriter(pc)) + Unit(IsWaitingWriter(pc'))
            && l'.activeWriter == l.activeWriter - Unit(OwnsWriterWord(pc)) + Unit(OwnsWriterWord(pc'))
            && l'.activeReaders == l.activeReaders - Unit(IsCountedReader(pc)) + Unit(IsCountedReader(pc'))
            && (OwnsWriterWord(pc') ==> l'.activeWriter == 1)
            && pc' != Halted
  {
  }

  // What AdvanceIsExact asks for holds of every CPU.
  lemma WordsCoverCpu(s: State, i: nat)
    requires Inv(s) && i < |s.cpus|
    ensures var l, pc := s.lock, s.cpus[i];
      && (OwnsWriterWord(pc) ==> l.activeWriter == 1)
      && (IsWaitingWriter(pc) ==> l.waitingWriters > 0)
      && (IsCountedReader(pc) ==> l.activeReaders > 0)
      && l.waitingWriters < WORD_SIZE - Unit(pc == Idle) && l.activeReaders < WORD_SIZE - Unit(pc == ReaderPseudo)
  {
    var pc := s.cpus[i];
    CountAfterUpdate(s.cpus, i, WriterSpin, IsWaitingWriter);
    CountAfterUpdate(s.cpus, i, ReaderIn, IsCountedReader);
    if IsWaitingWriter(pc) { CountedMember(s.cpus, i, IsWaitingWriter); }
    if OwnsWriterWord(pc) { CountedMember(s.cpus, i, OwnsWriterWord); }
    if IsCountedReader(pc) { CountedMember(s.cpus, i, IsCountedReader); }
  }

  // A real writer and a reader are never there together.
  lemma NoReaderBesideWriter(s: State, t: Turn)
    requires Inv(s) && t.cpu < |s.cpus|
    ensures var s' := Next(s, t);
      forall i :: 0 <= i < |s'.cpus| && IsExclusive(s'.cpus[i]) ==> s'.lock.activeReaders == 0
  {
    WordsCoverCpu(s, t.cpu);
    if s.cpus[t.cpu] == ReaderPseudo { PseudoWriterIsAlone(s, t.cpu); }
  }

  lemma NextKeepsInv(s: State, t: Turn)
    requires Inv(s)
    ensures Inv(Next(s, t))
  {
    if t.cpu < |s.cpus| {
      var i, pc' := t.cpu, Next(s, t).cpus[t.cpu];
      WordsCoverCpu(s, i);
      AdvanceIsExact(s.lock, s.cpus[i], t.call);
      CountAfterUpdate(s.cpus, i, pc', IsWaitingWriter);
      CountAfterUpdate(s.cpus, i, pc', OwnsWriterWord);
      CountAfterUpdate(s.cpus, i, pc', IsCountedReader);
      NoReaderBesideWriter(s, t);
    }
  }

  lemma {:induction false} ExecuteKeepsInv(s: State, schedule: seq<Turn>)
    requires Inv(s)
    ensures Inv(Execute(s, schedule))
    decreases |schedule|
  {
    if schedule != [] {
      NextKeepsInv(s, schedule[0]);
      ExecuteKeepsInv(Next(s, schedule[0]), schedule[1..]);
    }
  }

  // ----- safety of every interleaving -----

  // In every interleaving of fewer than 65536 CPUs a CPU that owns the lock exclusively is the
  // only one that owns it in any way.
  lemma MutualExclusion(cpuCount: nat, schedule: seq<Turn>, i: nat, j: nat)
    requires cpuCount < WORD_SIZE && i < cpuCount && j < cpuCount && i != j
    ensures var s := Execute(Initial(cpuCount), schedule);
            IsExclusive(s.cpus[i]) ==> !IsExclusive(s.cpus[j]) && !IsAdmittedReader(s.cpus[j])
  {
    var s := Execute(Initial(cpuCount), schedule);
    InitialInv(cpuCount);
    ExecuteKeepsInv(Initial(cpuCount), schedule);
    if IsExclusive(s.cpus[i]) {
      if OwnsWriterWord(s.cpus[j]) {
        if i < j { CountedPair(s.cpus, i, j, OwnsWriterWord); } else { CountedPair(s.cpus, j, i, OwnsWriterWord); }
      } else if IsAdmittedReader(s.cpus[j]) {
        CountedMember(s.cpus, j, IsCountedReader);
      }
    }
  }

  // No ASSERT fires, ActiveWriter is 0 or 1, and no counter ever wraps: each of the three words
  // is the number of CPUs it is meant to count.
  lemma CountersAreExact(cpuCount: nat, schedule: seq<Turn>)
    requires cpuCount < WORD_SIZE
    ensures var s := Execute(Initial(cpuCount), schedule);
            && (forall i :: 0 <= i < cpuCount ==> s.cpus[i] != Halted)
            && s.lock.activeWriter <= 1
            && s.lock.waitingWriters == Count(s.cpus, IsWaitingWriter)
            && s.lock.activeWriter == Count(s.cpus, OwnsWriterWord)
            && s.lock.activeReaders == Count(s.cpus, IsCountedReader)
  {
    InitialInv(cpuCount);
    ExecuteKeepsInv(Initial(cpuCount), schedule);
  }

  // ----- writer preference -----

  function AdmittedReaders(s: State): set<nat>
  {
    set i: nat | i < |s.cpus| && IsAdmittedReader(s.cpus[i])
  }

  // CPU w stays between its increment of WaitingWriters and its successful exchange throughout.
  predicate WaitsThroughout(s: State, schedule: seq<Turn>, w: nat)
    requires w < |s.cpus|
    decreases |schedule|
  {
    s.cpus[w] == WriterSpin && (schedule != [] ==> WaitsThroughout(Next(s, schedule[0]), schedule[1..], w))
  }

  // While a writer waits, readers leave but none is admitted.
  lemma {:induction false} WriterPreference(s: State, schedule: seq<Turn>, w: nat)
    requires Inv(s) && w < |s.cpus| && WaitsThroughout(s, schedule, w)
    ensures AdmittedReaders(Execute(s, schedule)) <= AdmittedReaders(s)
    decreases |schedule|
  {
    if schedule != [] {
      CountedMember(s.cpus, w, IsWaitingWriter);
      NextKeepsInv(s, schedule[0]);
      WriterPreference(Next(s, schedule[0]), schedule[1..], w);
    }
  }

  // ----- who is let in -----

  lemma {:induction false} ZeroCountHasNone(cpus: seq<Pc>, kind: Pc -> bool, i: nat)
    requires Count(cpus, kind) == 0 && i < |cpus|
    ensures !kind(cpus[i])
  {
    if 0 < i { ZeroCountHasNone(cpus[1..], kind, i - 1); }
  }

  ghost predicate Nobody(s: State, kind: Pc -> bool) { forall j :: 0 <= j < |s.cpus| ==> !kind(s.cpus[j]) }

  lemma NobodyIsZero(s: State, kind: Pc -> bool)
    ensures Nobody(s, kind) <==> Count(s.cpus, kind) == 0
  {
    if Nobody(s, kind) { NobodyCounted(s.cpus, kind); }
    if Count(s.cpus, kind) == 0 {
      forall j | 0 <= j < |s.cpus| ensures !kind(s.cpus[j]) { ZeroCountHasNone(s.cpus, kind, j); }
    }
  }

  // Every run, at the next turn of a CPU that spins: a reader is let in exactly when no writer waits
  // and nobody owns ActiveWriter, however many readers are inside; a writer exactly when nobody owns
  // ActiveWriter and no reader is counted, however many writers wait.
  lemma LetInExactly(cpuCount: nat, schedule: seq<Turn>, i: nat, call: Call)
    requires cpuCount < WORD_SIZE && i < cpuCount
    ensures var s := Execute(Initial(cpuCount), schedule);
      var s' := Next(s, Turn(i, call));
      && (s.cpus[i] == ReaderSpin ==>
            AdmittedReaders(s') ==
              if Nobody(s, IsWaitingWriter) && Nobody(s, OwnsWriterWord) then AdmittedReaders(s) + {i}
              else AdmittedReaders(s))
      && (s.cpus[i] == WriterSpin ==>
            (IsExclusive(s'.cpus[i]) <==> Nobody(s, OwnsWriterWord) && Nobody(s, IsCountedReader)))
  {
    var s := Execute(Initial(cpuCount), schedule);
    InitialInv(cpuCount);
    ExecuteKeepsInv(Initial(cpuCount), schedule);
    NobodyIsZero(s, IsWaitingWriter);
    NobodyIsZero(s, OwnsWriterWord);
    NobodyIsZero(s, IsCountedReader);
  }

  // The first k CPUs are inside as readers, the others idle.
  function ReadersInside(cpuCount: nat, k: nat): State
    requires k <= cpuCount < WORD_SIZE
  {
    State(Lock(0, 0, k), seq(cpuCount, i => if i < k then ReaderIn else Idle))
  }

  lemma OneMoreReader(cpuCount: nat, k: nat, rest: seq<Turn>)
    requires k < cpuCount < WORD_SIZE
    ensures var t := Turn(k, AcquireShared);
      Execute(ReadersInside(cpuCount, k), [t, t, t, t, t] + rest) == Execute(ReadersInside(cpuCount, k + 1), rest)
  {
    var s, t := ReadersInside(cpuCount, k), Turn(k, AcquireShared);
    var s1 := State(Lock(0, 0, k), s.cpus[k := ReaderSpin]);
    var s2 := State(Lock(0, 1, k), s.cpus[k := ReaderPseudo]);
    var s3 := State(Lock(0, 1, k + 1), s.cpus[k := ReaderCounted]);
    var s4 := State(Lock(0, 1, k + 1), s.cpus[k := ReaderChecked]);
    var s5 := State(Lock(0, 0, k + 1), s.cpus[k := ReaderIn]);
    assert [t, t, t, t, t] + rest == [t] + ([t] + ([t] + ([t] + ([t] + rest))));
    FirstTurn(s, t, [t] + ([t] + ([t] + ([t] + rest))), s1);
    FirstTurn(s1, t, [t] + ([t] + ([t] + rest)), s2);
    FirstTurn(s2, t, [t] + ([t] + rest), s3);
    FirstTurn(s3, t, [t] + rest, s4);
    FirstTurn(s4, t, rest, s5);
    assert s5 == ReadersInside(cpuCount, k + 1);
  }

  lemma FirstTurn(s: State, t: Turn, rest: seq<Turn>, s': State)
    requires t.cpu < |s.cpus| && s'.lock == Advance(s.lock, s.cpus[t.cpu], t.call).0
    requires s'.cpus == s.cpus[t.cpu := Advance(s.lock, s.cpus[t.cpu], t.call).1]
    ensures Execute(s, [t] + rest) == Execute(s', rest)
  {
    assert ([t] + rest)[1..] == rest;
  }

  lemma {:induction false} MoreReaders(cpuCount: nat, k: nat) returns (schedule: seq<Turn>)
    requires k <= cpuCount < WORD_SIZE
    ensures Execute(ReadersInside(cpuCount, k), schedule) == ReadersInside(cpuCount, cpuCount)
    decreases cpuCount - k
  {
    schedule := [];
    if k < cpuCount {
      var t := Turn(k, AcquireShared);
      var rest := MoreReaders(cpuCount, k + 1);
      OneMoreReader(cpuCount, k, rest);
      schedule := [t, t, t, t, t] + rest;
    }
  }

  // Readers share: for any number of CPUs some run has all of them inside together.
  lemma ReadersShare(cpuCount: nat) returns (schedule: seq<Turn>)
    requires cpuCount < WORD_SIZE
    ensures forall i :: 0 <= i < cpuCount ==> Execute(Initial(cpuCount), schedule).cpus[i] == ReaderIn
  {
    assert Initial(cpuCount) == ReadersInside(cpuCount, 0);
    schedule := MoreReaders(cpuCount, 0);
  }

  // ----- what a call gets -----

  predicate HasReturned(p: Pc) { p == WriterIn || p == ReaderIn }

  // CPU i is inside its acquire in every state before the last.
  predicate BeforeReturn(s: State, schedule: seq<Turn>, i: nat)
    requires i < |s.cpus|
    decreases |schedule|
  {
    schedule != [] ==> !HasReturned(s.cpus[i]) && BeforeReturn(Next(s, schedule[0]), schedule[1..], i)
  }

  predicate InAcquire(p: Pc, call: Call)
  {
    match call
    case AcquireExclusive => p == WriterSpin || p == WriterWon
    case AcquireShared => p == ReaderSpin || p == ReaderPseudo || p == ReaderCounted || p == ReaderChecked
  }

  // In every interleaving, an acquire that returns has got what it was called for, and one that has
  // not returned is still in progress.
  lemma AcquireGets(s: State, i: nat, call: Call, schedule: seq<Turn>)
    requires Inv(s) && i < |s.cpus| && s.cpus[i] == Idle && BeforeReturn(Next(s, Turn(i, call)), schedule, i)
    ensures var p := Execute(Next(s, Turn(i, call)), schedule).cpus[i];
      if HasReturned(p) then p == (if call == AcquireExclusive then WriterIn else ReaderIn) else InAcquire(p, call)
  {
    NextKeepsInv(s, Turn(i, call));
    AcquireGoesOn(Next(s, Turn(i, call)), i, call, schedule);
  }

  lemma {:induction false} AcquireGoesOn(s: State, i: nat, call: Call, schedule: seq<Turn>)
    requires Inv(s) && i < |s.cpus| && BeforeReturn(s, schedule, i)
    requires InAcquire(s.cpus[i], call) || s.cpus[i] == (if call == AcquireExclusive then WriterIn else ReaderIn)
    ensures var p := Execute(s, schedule).cpus[i];
      InAcquire(p, call) || p == (if call == AcquireExclusive then WriterIn else ReaderIn)
    decreases |schedule|
  {
    if schedule != [] {
      NextKeepsInv(s, schedule[0]);
      WordsCoverCpu(s, i);
      AcquireGoesOn(Next(s, schedule[0]), i, call, schedule[1..]);
    }
  }

  // ----- progress -----

  // A step that moves a CPU through an acquire or release already begun.
  predicate MakesProgress(s: State, t: Turn)
  {
    t.cpu < |s.cpus| && s.cpus[t.cpu] != Idle && Next(s, t).cpus[t.cpu] != s.cpus[t.cpu]
  }

  // Whenever a CPU waits, some CPU (a holder leaving, a CPU inside acquire, or a waiter whose
  // exchange would succeed) can make progress: the lock never deadlocks.
  lemma DeadlockFreedom(s: State, waiting: nat) returns (t: Turn)
    requires Inv(s) && waiting < |s.cpus| && IsWaiting(s.cpus[waiting])
    ensures MakesProgress(s, t)
  {
    if s.lock.activeWriter != 0 {
      var i := PositiveCountHasMember(s.cpus, OwnsWriterWord);
      t := Turn(i, AcquireShared);
    } else if s.lock.activeReaders != 0 {
      var i := PositiveCountHasMember(s.cpus, IsCountedReader);
      t := Turn(i, AcquireShared);
    } else if s.lock.waitingWriters != 0 {
      var i := PositiveCountHasMember(s.cpus, IsWaitingWriter);
      t := Turn(i, AcquireShared);
    } else {
      t := Turn(waiting, AcquireShared);
      if s.cpus[waiting] == WriterSpin { CountedMember(s.cpus, waiting, IsWaitingWriter); }
    }
  }

  // Steps still to be made by a CPU before it is idle again.
  function Remaining(p: Pc): nat
  {
    match p
    case Idle => 0
    case WriterLeave => 1
    case WriterIn => 2
    case WriterWon => 3
    case WriterSpin => 4
    case ReaderIn => 1
    case ReaderChecked => 2
    case ReaderCounted => 3
    case ReaderPseudo => 4
    case ReaderSpin => 5
    case Halted => 0
  }

  function TotalRemaining(cpus: seq<Pc>): nat
  {
    if cpus == [] then 0 else Remaining(cpus[0]) + TotalRemaining(cpus[1..])
  }

  lemma {:induction false} RemainingAfterUpdate(cpus: seq<Pc>, i: nat, p: Pc)
    requires i < |cpus|
    ensures TotalRemaining(cpus[i := p]) == TotalRemaining(cpus) - Remaining(cpus[i]) + Remaining(p)
  {
    var after := cpus[i := p];
    if i == 0 {
      assert after[1..] == cpus[1..];
    } else {
      RemainingAfterUpdate(cpus[1..], i - 1, p);
      assert after[1..] == cpus[1..][i - 1 := p];
    }
  }

  predicate AllProgress(s: State, schedule: seq<Turn>)
    decreases |schedule|
  {
    schedule != [] ==> MakesProgress(s, schedule[0]) && AllProgress(Next(s, schedule[0]), schedule[1..])
  }

  lemma ProgressUsesOneStep(s: State, t: Turn)
    requires Inv(s) && MakesProgress(s, t)
    ensures TotalRemaining(Next(s, t).cpus) + 1 == TotalRemaining(s.cpus)
  {
    NextKeepsInv(s, t);
    RemainingAfterUpdate(s.cpus, t.cpu, Next(s, t).cpus[t.cpu]);
  }

  // Every progress step uses up exactly one remaining step, so no run without new acquires makes
  // more than TotalRemaining(s) of them.
  lemma {:induction false} ProgressIsBounded(s: State, schedule: seq<Turn>)
    requires Inv(s) && AllProgress(s, schedule)
    ensures |schedule| + TotalRemaining(Execute(s, schedule).cpus) == TotalRemaining(s.cpus)
    decreases |schedule|
  {
    if schedule != [] {
      var t := schedule[0];
      ProgressUsesOneStep(s, t);
      NextKeepsInv(s, t);
      ProgressIsBounded(Next(s, t), schedule[1..]);
    }
  }

  // From any reachable state some run without new acquires leaves every CPU idle: each waiting
  // CPU gets the lock and gives it back.
  lemma {:induction false} EveryoneCanFinish(s: State) returns (schedule: seq<Turn>)
    requires Inv(s)
    ensures AllProgress(s, schedule)
    ensures forall i :: 0 <= i < |s.cpus| ==> Execute(s, schedule).cpus[i] == Idle
    decreases TotalRemaining(s.cpus)
  {
    if i :| 0 <= i < |s.cpus| && s.cpus[i] != Idle {
      var t := Turn(i, AcquireShared);
      if IsWaiting(s.cpus[i]) { t := DeadlockFreedom(s, i); }
      ProgressUsesOneStep(s, t);
      NextKeepsInv(s, t);
      var rest := EveryoneCanFinish(Next(s, t));
      schedule := [t] + rest;
      assert schedule[1..] == rest;
    } else {
      schedule := [];
    }
  }
}
