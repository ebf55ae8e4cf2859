/** The sense-reversing barrier: N threads share `sense` and `count`, each one has its own sense. The steps below are
    the atomic accesses to the shared variables, in any interleaving, from the all-zero state. */
module Barrier {

  /** Where a thread is: outside; inside before the fetch-and-add; before `count = 0`; before `sense = threadsense`;
      in the spin loop. */
  datatype Pc = Outside | Adding | Resetting | Releasing | Spinning

  /** A thread with its own sense, and how often it has entered and left the barrier. */
  datatype Thread = Thread(pc: Pc, sense: bool, entered: nat, left: nat)

  datatype State = State(sense: bool, count: nat, threads: seq<Thread>)

  predicate Init(s: State) {
    |s.threads| > 0 && !s.sense && s.count == 0
    && forall i :: 0 <= i < |s.threads| ==> s.threads[i] == Thread(Outside, false, 0, 0)
  }

  /** The next state when thread i takes a step. A spinning thread whose sense has not come stays where it is; a
      thread outside enters. */
  function Next(s: State, i: nat): State
    requires i < |s.threads|
  {
    var t := s.threads[i];
    match t.pc
    case Outside =>
      s.(threads := s.threads[i := t.(pc := Adding, sense := !t.sense, entered := t.entered + 1)])
    case Adding =>
      var last := s.count == |s.threads| - 1;
      s.(count := s.count + 1, threads := s.threads[i := t.(pc := if last then Resetting else Spinning)])
    case Resetting => s.(count := 0, threads := s.threads[i := t.(pc := Releasing)])
    case Releasing => s.(sense := t.sense, threads := s.threads[i := t.(pc := Outside, left := t.left + 1)])
    case Spinning =>
      if s.sense == t.sense then s.(threads := s.threads[i := t.(pc := Outside, left := t.left + 1)]) else s
  }

  /** What one step touches: the thread's own fields and at most one shared variable. The fetch-and-add tells the last
      of N threads; only that one resets the count and then passes its own sense on; the others leave when they see
      it. */
  lemma StepAccess(s: State, i: nat)
    requires i < |s.threads|
    ensures var s', t := Next(s, i), s.threads[i];
      && |s'.threads| == |s.threads| && (forall j :: 0 <= j < |s.threads| && j != i ==> s'.threads[j] == s.threads[j])
      && s'.count == (if t.pc.Adding? then s.count + 1 else if t.pc.Resetting? then 0 else s.count)
      && s'.sense == (if t.pc.Releasing? then t.sense else s.sense)
    ensures var s', t := Next(s, i), s.threads[i];
      var t', leaves := s'.threads[i], t.pc.Releasing? || (t.pc.Spinning? && s.sense == t.sense);
      && t'.sense == (t.sense != t.pc.Outside?)
      && t'.entered == t.entered + (if t.pc.Outside? then 1 else 0) && t'.left == t.left + (if leaves then 1 else 0)
      && (t'.pc.Outside? <==> leaves) && (t'.pc.Adding? <==> t.pc.Outside?) && (t'.pc.Releasing? <==> t.pc.Resetting?)
      && (t'.pc.Resetting? <==> t.pc.Adding? && s.count + 1 == |s.threads|)
  {
  }

  /** The state after the threads of `sched` took one step each, in that order. */
  function After(s: State, sched: seq<nat>): State
    requires forall n :: 0 <= n < |sched| ==> sched[n] < |s.threads|
    decreases |sched|
  {
    if sched == [] then s else After(Next(s, sched[0]), sched[1..])
  }

  predicate Odd(k: nat) { k % 2 == 1 }

  /** Thread t has been counted in the episode after the k-th. */
  predicate Counted(t: Thread, k: nat) {
    t.entered == k + 1 && (t.pc.Spinning? || t.pc.Resetting? || t.pc.Releasing?)
  }

  predicate AtEnd(t: Thread) { t.pc.Resetting? || t.pc.Releasing? }

  /** What holds of a thread when the barrier has opened k times. */
  predicate ThreadOk(t: Thread, k: nat) {
    && t.sense == Odd(t.entered)
    && match t.pc
       case Outside => t.entered == k && t.left == k
       case Spinning => t.entered == t.left + 1 && (t.entered == k || t.entered == k + 1)
       case _ => t.entered == k + 1 && t.left == k
  }

  /** How many threads are counted. */
  function Arrived(ts: seq<Thread>, k: nat): nat {
    if ts == [] then 0
    else Arrived(ts[..|ts| - 1], k) + if Counted(ts[|ts| - 1], k) then 1 else 0
  }

  lemma {:induction false} ArrivedUpdate(ts: seq<Thread>, k: nat, i: nat, t: Thread)
    requires i < |ts|
    ensures Arrived(ts[i := t], k) + (if Counted(ts[i], k) then 1 else 0)
         == Arrived(ts, k) + (if Counted(t, k) then 1 else 0)
    decreases |ts|
  {
    var ts' := ts[i := t];
    if i == |ts| - 1 {
      assert ts'[..i] == ts[..i];
    } else {
      ArrivedUpdate(ts[..|ts| - 1], k, i, t);
      assert ts'[..|ts| - 1] == ts[..|ts| - 1][i := t];
    }
  }

  /** At most N threads are counted, and N only when all are, none only when none is. */
  lemma {:induction false} ArrivedSize(ts: seq<Thread>, k: nat)
    ensures Arrived(ts, k) <= |ts|
    ensures Arrived(ts, k) == |ts| <==> forall i :: 0 <= i < |ts| ==> Counted(ts[i], k)
    ensures Arrived(ts, k) == 0 <==> forall i :: 0 <= i < |ts| ==> !Counted(ts[i], k)
    decreases |ts|
  {
    if ts != [] { ArrivedSize(ts[..|ts| - 1], k); }
  }

  ghost predicate AllOk(s: State, k: nat) {
    forall i :: 0 <= i < |s.threads| ==> ThreadOk(s.threads[i], k)
  }

  /** When a thread is about to open the barrier, all the others wait in the loop. */
  ghost predicate OthersWait(s: State, k: nat) {
    forall i, j :: 0 <= i < |s.threads| && 0 <= j < |s.threads| && i != j && AtEnd(s.threads[i]) ==>
      Counted(s.threads[j], k) && s.threads[j].pc.Spinning?
  }

  ghost predicate Some(ts: seq<Thread>, pc: Pc) { exists i :: 0 <= i < |ts| && ts[i].pc == pc }

  /** count says how many threads were counted, until it is reset; it is reset as soon as all are. */
  ghost predicate CountOk(s: State, k: nat) {
    && (Some(s.threads, Releasing) ==> s.count == 0)
    && (!Some(s.threads, Releasing) ==> s.count == Arrived(s.threads, k))
    && (s.count == |s.threads| ==> Some(s.threads, Resetting))
  }

  /** The barrier has opened k times. */
  ghost predicate Inv(s: State, k: nat) {
    |s.threads| > 0 && s.sense == Odd(k) && AllOk(s, k) && OthersWait(s, k) && CountOk(s, k)
  }

  lemma InitInv(s: State)
    requires Init(s)
    ensures Inv(s, 0)
  {
    ArrivedSize(s.threads, 0);
  }

  /** Entering and leaving do not change who is counted. */
  lemma QuietStep(s: State, k: nat, i: nat)
    requires Inv(s, k) && i < |s.threads| && (s.threads[i].pc.Outside? || s.threads[i].pc.Spinning?)
    ensures Inv(Next(s, i), k)
  {
    hide ThreadOk, Counted, Next, Arrived, AtEnd, Odd;
    QuietThread(s, k, i);
    var ts, ts' := s.threads, Next(s, i).threads;
    ArrivedUpdate(ts, k, i, ts'[i]);
    assert forall j {:trigger ts'[j]} :: 0 <= j < |ts| && j != i ==> ts'[j] == ts[j];
    forall pc | pc == Releasing || pc == Resetting ensures Some(ts', pc) == Some(ts, pc) {
      if Some(ts, pc) { var j :| 0 <= j < |ts| && ts[j].pc == pc; assert ts'[j].pc == pc; }
    }
  }

  /** What a thread outside or in the loop turns into: a waiting thread that is counted stays as it is. */
  lemma QuietThread(s: State, k: nat, i: nat)
    requires Inv(s, k) && i < |s.threads| && (s.threads[i].pc.Outside? || s.threads[i].pc.Spinning?)
    ensures |Next(s, i).threads| == |s.threads|
    ensures var t, t' := s.threads[i], Next(s, i).threads[i];
      && Next(s, i) == s.(threads := s.threads[i := t'])
      && ThreadOk(t', k) && Counted(t', k) == Counted(t, k) && (Counted(t, k) ==> t' == t)
      && !AtEnd(t) && !AtEnd(t') && !t'.pc.Releasing? && !t'.pc.Resetting?
  {
    hide OthersWait, CountOk;
    assert ThreadOk(s.threads[i], k);
  }

  lemma AddStep(s: State, k: nat, i: nat)
    requires Inv(s, k) && i < |s.threads| && s.threads[i].pc.Adding?
    ensures Inv(Next(s, i), k)
  {
    hide Arrived;
    var ts, ts' := s.threads, Next(s, i).threads;
    assert forall j :: 0 <= j < |ts| ==> !AtEnd(ts[j]);
    ArrivedUpdate(ts, k, i, ts'[i]);
    ArrivedSize(ts', k);
    assert ts' == ts[i := ts'[i]];
    assert Next(s, i).count == Arrived(ts', k);
    if Next(s, i).count == |ts| { assert ts'[i].pc.Resetting?; }
  }

  lemma ResetStep(s: State, k: nat, i: nat)
    requires Inv(s, k) && i < |s.threads| && s.threads[i].pc.Resetting?
    ensures Inv(Next(s, i), k)
  {
    assert Next(s, i).threads[i].pc.Releasing?;
  }

  lemma ReleaseStep(s: State, k: nat, i: nat)
    requires Inv(s, k) && i < |s.threads| && s.threads[i].pc.Releasing?
    ensures Inv(Next(s, i), k + 1)
  {
    var ts' := Next(s, i).threads;
    assert forall j :: 0 <= j < |ts'| && j != i ==> s.threads[j].pc.Spinning? && ts'[j] == s.threads[j];
    ArrivedSize(ts', k + 1);
  }

  /** Every step keeps the invariant; the step that opens the barrier starts the next episode. */
  lemma StepInv(s: State, k: nat, i: nat)
    requires Inv(s, k) && i < |s.threads|
    ensures Inv(Next(s, i), if s.threads[i].pc.Releasing? then k + 1 else k)
  {
    match s.threads[i].pc {
      case Adding => AddStep(s, k, i);
      case Resetting => ResetStep(s, k, i);
      case Releasing => ReleaseStep(s, k, i);
      case _ => QuietStep(s, k, i);
    }
  }

  /** In every reachable state the barrier has opened some number k of times. */
  lemma {:induction false} Reachable(s: State, k: nat, sched: seq<nat>) returns (k': nat)
    requires Inv(s, k) && forall n :: 0 <= n < |sched| ==> sched[n] < |s.threads|
    ensures Inv(After(s, sched), k') && |After(s, sched).threads| == |s.threads|
    decreases |sched|
  {
    if sched == [] {
      k' := k;
    } else {
      StepInv(s, k, sched[0]);
      k' := Reachable(Next(s, sched[0]), if s.threads[sched[0]].pc.Releasing? then k + 1 else k, sched[1..]);
    }
  }

  /** Safety over all interleavings of any number of threads and episodes: a thread that has returned from its m-th
      barrier call finds that all threads have entered theirs; no two threads are more than one episode apart; and
      count never exceeds N. */
  lemma Safety(s0: State, sched: seq<nat>)
    requires Init(s0) && forall n :: 0 <= n < |sched| ==> sched[n] < |s0.threads|
    ensures var s := After(s0, sched);
      && (forall i, j :: 0 <= i < |s.threads| && 0 <= j < |s.threads| ==>
            s.threads[i].left <= s.threads[j].entered <= s.threads[i].entered + 1)
      && s.count <= |s.threads| == |s0.threads|
  {
    InitInv(s0);
    var k := Reachable(s0, 0, sched);
    var s := After(s0, sched);
    ArrivedSize(s.threads, k);
    forall i, j | 0 <= i < |s.threads| && 0 <= j < |s.threads|
      ensures s.threads[i].left <= k <= s.threads[j].entered <= k + 1
    {
      assert ThreadOk(s.threads[i], k) && ThreadOk(s.threads[j], k);
    }
  }

  /** Thread i would do more than look at `sense` in vain. */
  predicate CanMove(s: State, i: nat) {
    i < |s.threads| && (s.threads[i].pc.Spinning? ==> s.sense == s.threads[i].sense)
  }

  /** Steps a thread inside the barrier still has to take. */
  function Left(pc: Pc): nat {
    match pc
    case Outside => 0
    case Adding => 3
    case Resetting => 2
    case Releasing => 1
    case Spinning => 1
  }

  function Work(ts: seq<Thread>): nat {
    if ts == [] then 0 else Work(ts[..|ts| - 1]) + Left(ts[|ts| - 1].pc)
  }

  lemma {:induction false} WorkUpdate(ts: seq<Thread>, i: nat, t: Thread)
    requires i < |ts|
    ensures Work(ts[i := t]) + Left(ts[i].pc) == Work(ts) + Left(t.pc)
    decreases |ts|
  {
    if i == |ts| - 1 {
      assert ts[i := t][..i] == ts[..i];
    } else {
      WorkUpdate(ts[..|ts| - 1], i, t);
      assert ts[i := t][..|ts| - 1] == ts[..|ts| - 1][i := t];
    }
  }

  lemma {:induction false} WorkBound(ts: seq<Thread>)
    ensures Work(ts) <= 3 * |ts|
    decreases |ts|
  {
    if ts != [] { WorkBound(ts[..|ts| - 1]); }
  }

  ghost predicate AllInside(s: State) { forall i :: 0 <= i < |s.threads| ==> !s.threads[i].pc.Outside? }

  /** No deadlock: while every thread is inside, some thread can move on. */
  lemma SomeoneCanMove(s: State, k: nat)
    requires Inv(s, k) && AllInside(s)
    ensures exists i :: CanMove(s, i)
  {
    ArrivedSize(s.threads, k);
    if forall i :: !CanMove(s, i) {
      forall i: nat | i < |s.threads| ensures s.threads[i].pc.Spinning? && Counted(s.threads[i], k) {
        assert !CanMove(s, i) && ThreadOk(s.threads[i], k);
      }
    }
  }

  lemma MoveWork(s: State, i: nat)
    requires i < |s.threads| && AllInside(s) && CanMove(s, i)
    ensures Work(Next(s, i).threads) < Work(s.threads) && |Next(s, i).threads| == |s.threads|
  {
    var ts' := Next(s, i).threads;
    WorkUpdate(s.threads, i, ts'[i]);
    assert ts' == s.threads[i := ts'[i]];
  }

  lemma AfterFirst(s: State, sched: seq<nat>, n: nat)
    requires n < |sched| && forall n :: 0 <= n < |sched| ==> sched[n] < |s.threads|
    ensures After(s, sched[..n + 1]) == After(Next(s, sched[0]), sched[1..][..n])
  {
    assert sched[..n + 1][1..] == sched[1..][..n];
  }

  /** ... and the wait is bounded: at most 3N moves after all N threads are inside, one of them is outside again. */
  lemma {:induction false} SomeoneLeaves(s: State, sched: seq<nat>) returns (m: nat)
    requires |s.threads| > 0 && forall n :: 0 <= n < |sched| ==> sched[n] < |s.threads|
    requires forall n :: 0 <= n < |sched| ==> CanMove(After(s, sched[..n]), sched[n])
    requires |sched| > Work(s.threads)
    ensures m <= Work(s.threads) <= 3 * |s.threads| && !AllInside(After(s, sched[..m]))
    decreases |sched|
  {
    hide Next, Work, CanMove;
    WorkBound(s.threads);
    if !AllInside(s) {
      m := 0;
      assert sched[..0] == [];
    } else {
      var i := sched[0];
      var s' := Next(s, i);
      assert sched[..0] == [] && CanMove(s, i);
      MoveWork(s, i);
      var rest := sched[1..];
      forall n | 0 <= n < |rest| ensures CanMove(After(s', rest[..n]), rest[n]) {
        AfterFirst(s, sched, n);
        assert CanMove(After(s, sched[..n + 1]), sched[n + 1]);
      }
      m := SomeoneLeaves(s', rest);
      AfterFirst(s, sched, m);
      m := m + 1;
    }
  }
}
