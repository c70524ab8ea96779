/** The reader/writer protocol of craftArray in globe_index.c, step by step: readers share
    write_mutex, the first of them taking it and the last of them giving it back, and
    ca_add takes it only to reallocate. */
module CraftArrayLock {
  import opened Basics

  // Where a thread is. The names say what it waits for or holds.
  datatype Pc =
    | Idle
    // ca_lock_read: at its first lock, behind it, with write_mutex taken care of, counted
    | LockWaits | LockEntered | LockGranted | LockCounted
    | Reading
    // ca_unlock_read: at its lock, behind it, no longer counted, ready to leave
    | UnlockWaits | UnlockEntered | UnlockCounted | UnlockLeaving
    // ca_add: at its first lock, behind it, at write_mutex, reallocating, ready to append
    | AddWaits(item: nat) | AddEntered(item: nat) | AddFull(item: nat) | AddWriting(item: nat) | AddReady(item: nat)
    // ca_remove
    | RemoveWaits(item: nat) | RemoveEntered(item: nat)

  datatype Holder = Free | Thread(t: nat)
  datatype WriteHolder = NoOne | Readers | Writer(t: nat)

  datatype State = State(pcs: seq<Pc>, read: Holder, change: Holder, write: WriteHolder,
                         readerCount: int, list: seq<nat>, alloc: nat)

  predicate HoldsReadMutex(pc: Pc) {
    pc.LockEntered? || pc.LockGranted? || pc.LockCounted? || pc.UnlockEntered? || pc.UnlockCounted? || pc.UnlockLeaving?
  }

  predicate HoldsChangeMutex(pc: Pc) {
    pc.AddEntered? || pc.AddFull? || pc.AddWriting? || pc.AddReady? || pc.RemoveEntered?
  }

  // The threads that reader_count counts.
  predicate Counted(pc: Pc) {
    pc.LockCounted? || pc.Reading? || pc.UnlockWaits? || pc.UnlockEntered?
  }

  ghost predicate Init(s: State) {
    && (forall t :: 0 <= t < |s.pcs| ==> s.pcs[t] == Idle)
    && s.read == Free && s.change == Free && s.write == NoOne && s.readerCount == 0
    && s.list == [] && s.alloc == 0
  }

  function Without(list: seq<nat>, item: nat): seq<nat> {
    if list == [] then [] else
      Without(list[..|list| - 1], item) + if list[|list| - 1] == item then [] else [list[|list| - 1]]
  }

  // What an idle thread may begin.
  predicate Begins(pc: Pc) {
    pc.LockWaits? || pc.AddWaits? || pc.RemoveWaits?
  }

  /** One step of thread t; a lock can only be taken when it is free. */
  ghost predicate Step(s: State, t: nat, s': State)
    requires t < |s.pcs|
  {
    var at := (pc: Pc) => s.pcs[t := pc];
    match s.pcs[t]
    case Idle => exists pc :: Begins(pc) && s' == s.(pcs := at(pc))
    case LockWaits => s.read == Free && s' == s.(pcs := at(LockEntered), read := Thread(t))
    case LockEntered =>
      if s.readerCount == 0 then s.write == NoOne && s' == s.(pcs := at(LockGranted), write := Readers)
      else s' == s.(pcs := at(LockGranted))
    case LockGranted => s' == s.(pcs := at(LockCounted), readerCount := s.readerCount + 1)
    case LockCounted => s' == s.(pcs := at(Reading), read := Free)
    case Reading => s' == s.(pcs := at(UnlockWaits))
    case UnlockWaits => s.read == Free && s' == s.(pcs := at(UnlockEntered), read := Thread(t))
    case UnlockEntered => s' == s.(pcs := at(UnlockCounted), readerCount := s.readerCount - 1)
    case UnlockCounted =>
      s' == s.(pcs := at(UnlockLeaving), write := if s.readerCount == 0 then NoOne else s.write)
    case UnlockLeaving => s' == s.(pcs := at(Idle), read := Free)
    case AddWaits(item) => s.change == Free && s' == s.(pcs := at(AddEntered(item)), change := Thread(t))
    case AddEntered(item) => s' == s.(pcs := at(if |s.list| == s.alloc then AddFull(item) else AddReady(item)))
    case AddFull(item) => s.write == NoOne && s' == s.(pcs := at(AddWriting(item)), write := Writer(t))
    case AddWriting(item) =>
      s' == s.(pcs := at(AddReady(item)), write := NoOne,
        alloc := if |s.list| == s.alloc then s.alloc * 2 + 16 else s.alloc)
    case AddReady(item) =>
      s' == s.(pcs := at(Idle), change := Free, list := if item in s.list then s.list else s.list + [item])
    case RemoveWaits(item) => s.change == Free && s' == s.(pcs := at(RemoveEntered(item)), change := Thread(t))
    case RemoveEntered(item) => s' == s.(pcs := at(Idle), change := Free, list := Without(s.list, item))
  }

  // ------------------------------------------------------------------- the invariant

  ghost function Counting(s: State): set<nat> {
    set t | 0 <= t < |s.pcs| && Counted(s.pcs[t])
  }

  ghost predicate ReadHolds(s: State) {
    && (forall t :: 0 <= t < |s.pcs| ==> (HoldsReadMutex(s.pcs[t]) <==> s.read == Thread(t)))
    && (s.read.Thread? ==> s.read.t < |s.pcs|)
  }

  ghost predicate ChangeHolds(s: State) {
    && (forall t :: 0 <= t < |s.pcs| ==> (HoldsChangeMutex(s.pcs[t]) <==> s.change == Thread(t)))
    && (s.change.Thread? ==> s.change.t < |s.pcs|)
  }

  // Each mutex is held by the one thread that is behind it.
  ghost predicate Mutexes(s: State) {
    ReadHolds(s) && ChangeHolds(s)
  }

  ghost predicate WriterHolds(s: State) {
    && (forall t :: 0 <= t < |s.pcs| ==> (s.pcs[t].AddWriting? <==> s.write == Writer(t)))
    && (s.write.Writer? ==> s.write.t < |s.pcs|)
  }

  // The thread inside read_mutex has taken write_mutex, or has yet to give it back.
  predicate BetweenCounts(s: State) {
    s.read.Thread? && s.read.t < |s.pcs| && (s.pcs[s.read.t].LockGranted? || s.pcs[s.read.t].UnlockCounted?)
  }

  ghost predicate CountRight(s: State) {
    s.readerCount == |Counting(s)|
  }

  predicate WriteRight(s: State) {
    s.write == Readers <==> s.readerCount > 0 || BetweenCounts(s)
  }

  ghost predicate ListRight(s: State) {
    && |s.list| <= s.alloc && Distinct(s.list)
    && (forall t :: 0 <= t < |s.pcs| && s.pcs[t].AddReady? ==> |s.list| < s.alloc)
  }

  ghost predicate Inv(s: State) {
    Mutexes(s) && WriterHolds(s) && CountRight(s) && WriteRight(s) && ListRight(s)
  }

  lemma InitInv(s: State)
    requires Init(s)
    ensures Inv(s)
  {
    assert Counting(s) == {};
  }

  lemma DistinctFront(list: seq<nat>)
    requires list != []
    ensures Distinct(list) ==> Distinct(list[..|list| - 1]) && list[|list| - 1] !in list[..|list| - 1]
  {
    var front := list[..|list| - 1];
    assert forall i :: 0 <= i < |front| ==> front[i] == list[i];
  }

  lemma {:induction false} WithoutIsSmaller(list: seq<nat>, item: nat)
    ensures |Without(list, item)| <= |list|
    ensures forall x :: x in Without(list, item) <==> x in list && x != item
    ensures Distinct(list) ==> Distinct(Without(list, item))
  {
    if list != [] {
      var front, last := list[..|list| - 1], list[|list| - 1];
      WithoutIsSmaller(front, item);
      assert list == front + [last];
      DistinctFront(list);
    }
  }

  // The counted threads after thread t has moved.
  lemma CountMoved(s: State, t: nat, pc: Pc)
    requires t < |s.pcs|
    ensures var s' := s.(pcs := s.pcs[t := pc]);
      |Counting(s')| == |Counting(s)| + (if Counted(pc) then 1 else 0) - (if Counted(s.pcs[t]) then 1 else 0)
  {
    var s' := s.(pcs := s.pcs[t := pc]);
    var others := Counting(s) - {t};
    assert Counting(s') - {t} == others;
    assert Counting(s) == if Counted(s.pcs[t]) then others + {t} else others;
    assert Counting(s') == if Counted(pc) then others + {t} else others;
  }

  lemma CountOnly(s: State, s': State)
    requires s.pcs == s'.pcs
    ensures Counting(s) == Counting(s')
  {
  }

  lemma ReadKept(s: State, t: nat, s': State)
    requires t < |s.pcs| && ReadHolds(s) && Step(s, t, s')
    ensures ReadHolds(s')
  {
  }

  lemma ChangeKept(s: State, t: nat, s': State)
    requires t < |s.pcs| && ChangeHolds(s) && Step(s, t, s')
    ensures ChangeHolds(s')
  {
  }

  lemma CountKept(s: State, t: nat, s': State)
    requires t < |s.pcs| && CountRight(s) && Step(s, t, s')
    ensures CountRight(s')
  {
    hide Counting;
    CountMoved(s, t, s'.pcs[t]);
    CountOnly(s.(pcs := s'.pcs), s');
  }

  lemma WriteKept(s: State, t: nat, s': State)
    requires t < |s.pcs| && Mutexes(s) && WriterHolds(s) && CountRight(s) && WriteRight(s) && Step(s, t, s')
    ensures WriteRight(s')
  {
    hide Counting;
    Counts(s, t);
  }

  lemma Counts(s: State, t: nat)
    requires t < |s.pcs| && CountRight(s)
    ensures s.readerCount >= 0 && (Counted(s.pcs[t]) ==> s.readerCount > 0)
  {
    assert Counted(s.pcs[t]) ==> t in Counting(s);
  }

  lemma WriterKept(s: State, t: nat, s': State)
    requires t < |s.pcs| && Mutexes(s) && WriterHolds(s) && WriteRight(s) && Step(s, t, s')
    ensures WriterHolds(s')
  {
  }

  lemma ListKept(s: State, t: nat, s': State)
    requires t < |s.pcs| && Mutexes(s) && ListRight(s) && Step(s, t, s')
    ensures ListRight(s')
  {
    if s.pcs[t].RemoveEntered? {
      WithoutIsSmaller(s.list, s.pcs[t].item);
    }
  }

  /** Every step keeps the invariant. */
  lemma StepInv(s: State, t: nat, s': State)
    requires t < |s.pcs| && Inv(s) && Step(s, t, s')
    ensures Inv(s') && |s'.pcs| == |s.pcs|
  {
    hide ReadHolds, ChangeHolds, WriterHolds, CountRight, WriteRight, ListRight;
    ReadKept(s, t, s');
    ChangeKept(s, t, s');
    CountKept(s, t, s');
    WriteKept(s, t, s');
    WriterKept(s, t, s');
    ListKept(s, t, s');
  }

  // A run of the protocol: which thread moves at each step is anyone's choice.
  ghost predicate Run(states: seq<State>, moves: seq<nat>) {
    && |states| == |moves| + 1 && Init(states[0])
    && forall i :: 0 <= i < |moves| ==> |states[i].pcs| == |states[0].pcs| && moves[i] < |states[0].pcs| &&
                                        Step(states[i], moves[i], states[i + 1])
  }

  lemma {:induction false} RunInv(states: seq<State>, moves: seq<nat>, n: nat)
    requires Run(states, moves) && n < |states|
    ensures Inv(states[n]) && |states[n].pcs| == |states[0].pcs|
  {
    if n == 0 {
      InitInv(states[0]);
    } else {
      RunInv(states, moves, n - 1);
      StepInv(states[n - 1], moves[n - 1], states[n]);
    }
  }

  /** In every interleaving no thread reads the list while another one reallocates it. */
  lemma ReallocationIsExclusive(states: seq<State>, moves: seq<nat>, n: nat, reader: nat, writer: nat)
    requires Run(states, moves) && n < |states| && reader < |states[0].pcs| && writer < |states[0].pcs|
    ensures |states[n].pcs| == |states[0].pcs|
    ensures states[n].pcs[writer].AddWriting? ==> !Counted(states[n].pcs[reader])
  {
    RunInv(states, moves, n);
    if Counted(states[n].pcs[reader]) {
      assert reader in Counting(states[n]);
    }
  }

  // ------------------------------------------------------------------------ deadlock

  // What a thread does next, where nothing holds it up.
  function Next(s: State, t: nat): State
    requires t < |s.pcs|
  {
    var pcs := s.pcs;
    match pcs[t]
    case Idle => s.(pcs := pcs[t := LockWaits])
    case LockWaits => s.(pcs := pcs[t := LockEntered], read := Thread(t))
    case LockEntered => s.(pcs := pcs[t := LockGranted], write := if s.readerCount == 0 then Readers else s.write)
    case LockGranted => s.(pcs := pcs[t := LockCounted], readerCount := s.readerCount + 1)
    case LockCounted => s.(pcs := pcs[t := Reading], read := Free)
    case Reading => s.(pcs := pcs[t := UnlockWaits])
    case UnlockWaits => s.(pcs := pcs[t := UnlockEntered], read := Thread(t))
    case UnlockEntered => s.(pcs := pcs[t := UnlockCounted], readerCount := s.readerCount - 1)
    case UnlockCounted => s.(pcs := pcs[t := UnlockLeaving], write := if s.readerCount == 0 then NoOne else s.write)
    case UnlockLeaving => s.(pcs := pcs[t := Idle], read := Free)
    case AddWaits(item) => s.(pcs := pcs[t := AddEntered(item)], change := Thread(t))
    case AddEntered(item) => s.(pcs := pcs[t := if |s.list| == s.alloc then AddFull(item) else AddReady(item)])
    case AddFull(item) => s.(pcs := pcs[t := AddWriting(item)], write := Writer(t))
    case AddWriting(item) =>
      s.(pcs := pcs[t := AddReady(item)], write := NoOne,
         alloc := if |s.list| == s.alloc then s.alloc * 2 + 16 else s.alloc)
    case AddReady(item) =>
      s.(pcs := pcs[t := Idle], change := Free, list := if item in s.list then s.list else s.list + [item])
    case RemoveWaits(item) => s.(pcs := pcs[t := RemoveEntered(item)], change := Thread(t))
    case RemoveEntered(item) => s.(pcs := pcs[t := Idle], change := Free, list := Without(s.list, item))
  }

  // The lock that the thread is at, if it is at one, is free.
  predicate CanMove(s: State, t: nat)
    requires t < |s.pcs|
  {
    match s.pcs[t]
    case LockWaits => s.read == Free
    case UnlockWaits => s.read == Free
    case LockEntered => s.readerCount != 0 || s.write == NoOne
    case AddWaits(_) => s.change == Free
    case RemoveWaits(_) => s.change == Free
    case AddFull(_) => s.write == NoOne
    case _ => true
  }

  lemma CanMoveSteps(s: State, t: nat)
    requires t < |s.pcs| && CanMove(s, t)
    ensures Step(s, t, Next(s, t))
  {
    assert Begins(LockWaits);
  }

  // Whoever is inside read_mutex, or the writer it waits for, can move.
  lemma ReadOwnerMoves(s: State) returns (u: nat)
    requires Inv(s) && s.read.Thread?
    ensures u < |s.pcs| && s.pcs[u] != Idle && CanMove(s, u)
  {
    u := s.read.t;
    assert HoldsReadMutex(s.pcs[u]);
    if s.pcs[u].LockEntered? && s.readerCount == 0 && s.write.Writer? {
      u := s.write.t;
    }
  }

  lemma WriteOwnerMoves(s: State) returns (u: nat)
    requires Inv(s) && s.write != NoOne
    ensures u < |s.pcs| && s.pcs[u] != Idle && CanMove(s, u)
  {
    if s.write.Writer? {
      u := s.write.t;
    } else if BetweenCounts(s) || s.read.Thread? {
      u := ReadOwnerMoves(s);
    } else {
      assert Counting(s) != {};
      u :| u in Counting(s);
    }
  }

  lemma ChangeOwnerMoves(s: State) returns (u: nat)
    requires Inv(s) && s.change.Thread?
    ensures u < |s.pcs| && s.pcs[u] != Idle && CanMove(s, u)
  {
    u := s.change.t;
    assert HoldsChangeMutex(s.pcs[u]);
    if s.pcs[u].AddFull? && s.write != NoOne {
      u := WriteOwnerMoves(s);
    }
  }

  /** No interleaving ends in a deadlock: as long as a thread is inside an operation, some
      thread inside an operation can take its next step. */
  lemma NoDeadlock(states: seq<State>, moves: seq<nat>, n: nat, t: nat) returns (u: nat)
    requires Run(states, moves) && n < |states| && t < |states[n].pcs| && states[n].pcs[t] != Idle
    ensures u < |states[n].pcs| && states[n].pcs[u] != Idle && Step(states[n], u, Next(states[n], u))
  {
    hide Inv, Step;
    var s := states[n];
    RunInv(states, moves, n);
    u := t;
    if !CanMove(s, t) {
      if s.pcs[t].LockWaits? || s.pcs[t].UnlockWaits? {
        u := ReadOwnerMoves(s);
      } else if s.pcs[t].AddWaits? || s.pcs[t].RemoveWaits? {
        u := ChangeOwnerMoves(s);
      } else {
        u := WriteOwnerMoves(s);
      }
    }
    CanMoveSteps(s, u);
  }
}
