/** The dispatch list of the scheduler, which behaves as a first-in first-out queue of undispatched threads. */
module Scheduler {
  const CORES := 4

  /** Which core a thread wants. */
  type Wanted<!T> = T -> nat

  ghost predicate Distinct<T>(s: seq<T>) {
    forall i, j :: 0 <= i < j < |s| ==> s[i] != s[j]
  }

  /** A thread that some core is to run and that core does not list yet. */
  predicate Ready<T(==)>(cores: seq<seq<T>>, cpu: Wanted<T>, t: T) {
    cpu(t) < |cores| && t !in cores[cpu(t)]
  }

  function ToBack<T>(list: seq<T>, i: nat): seq<T>
    requires i < |list|
  {
    list[..i] + list[i + 1..] + [list[i]]
  }

  function Preempted<T>(cores: seq<seq<T>>, cpu: Wanted<T>, t: T): seq<seq<T>>
    requires cpu(t) < |cores|
  {
    cores[cpu(t) := [t] + cores[cpu(t)]]
  }

  datatype Outcome<T> = Outcome(list: seq<T>, cores: seq<seq<T>>, dispatched: seq<T>)

  /** The walk of `Reeschedule` from position `i`: dead threads are dropped, the first ready one is moved to
      the back and given to its core, and the walk ends there. */
  function Walk<T(==)>(list: seq<T>, cores: seq<seq<T>>, cpu: Wanted<T>, dead: set<T>, i: nat): (r: Outcome<T>)
    requires i <= |list|
    ensures |r.dispatched| <= 1
    decreases |list| - i
  {
    if i == |list| then Outcome(list, cores, [])
    else if list[i] in dead then Walk(list[..i] + list[i + 1..], cores, cpu, dead, i)
    else if Ready(cores, cpu, list[i]) then Outcome(ToBack(list, i), Preempted(cores, cpu, list[i]), [list[i]])
    else Walk(list, cores, cpu, dead, i + 1)
  }

  /** The first thread that is alive, wanted by a core that exists, and not listed there; or the length. */
  function FirstToRun<T(==)>(list: seq<T>, cores: seq<seq<T>>, cpu: Wanted<T>, dead: set<T>): (p: nat)
    ensures p <= |list|
    ensures forall j :: 0 <= j < p ==>
      list[j] in dead || cpu(list[j]) >= |cores| || list[j] in cores[cpu(list[j])]
    ensures p < |list| ==> list[p] !in dead && cpu(list[p]) < |cores| && list[p] !in cores[cpu(list[p])]
  {
    if list == [] || (list[0] !in dead && Ready(cores, cpu, list[0])) then 0 else
      var p := FirstToRun(list[1..], cores, cpu, dead);
      assert forall j :: 0 < j < |list| ==> list[j] == list[1..][j - 1];
      1 + p
  }

  function Alive<T(==)>(list: seq<T>, dead: set<T>): (r: seq<T>)
    ensures forall t :: t in r ==> t in list && t !in dead
    ensures forall t :: t in list && t !in dead ==> t in r
  {
    if list == [] then []
    else
      assert list == [list[0]] + list[1..];
      (if list[0] in dead then [] else [list[0]]) + Alive(list[1..], dead)
  }

  /** What a call comes to that has passed over `front`, by position: dead threads before the one that is dispatched are
      dropped, those behind it stay; that thread goes to the end of the list and to the front of its core's list. With
      nothing to dispatch, all dead ones go. */
  function ByPosition<T(==)>(front: seq<T>, list: seq<T>, cores: seq<seq<T>>, cpu: Wanted<T>, dead: set<T>):
      Outcome<T> {
    var p := FirstToRun(list, cores, cpu, dead);
    if p == |list| then Outcome(front + Alive(list, dead), cores, [])
    else
      var t := list[p];
      Outcome(front + (Alive(list[..p], dead) + list[p + 1..] + [t]), cores[cpu(t) := [t] + cores[cpu(t)]], [t])
  }

  lemma {:induction false} WalkByPosition<T>(front: seq<T>, list: seq<T>, cores: seq<seq<T>>, cpu: Wanted<T>,
      dead: set<T>)
    ensures Walk(front + list, cores, cpu, dead, |front|) == ByPosition(front, list, cores, cpu, dead)
    decreases |list|
  {
    hide *;
    if list == [] {
      WalkEnds(front, cores, cpu, dead);
    } else {
      var t, rest := list[0], list[1..];
      WalkStep(front, list, cores, cpu, dead);
      if t in dead {
        DropsDead(front, list, cores, cpu, dead);
        WalkByPosition(front, rest, cores, cpu, dead);
      } else if Ready(cores, cpu, t) {
        Dispatches(front, list, cores, cpu, dead);
      } else {
        PassesOver(front, list, cores, cpu, dead);
        WalkByPosition(front + [t], rest, cores, cpu, dead);
      }
    }
  }

  lemma WalkEnds<T>(front: seq<T>, cores: seq<seq<T>>, cpu: Wanted<T>, dead: set<T>)
    ensures Walk(front + [], cores, cpu, dead, |front|) == ByPosition(front, [], cores, cpu, dead)
  {
    assert front + [] == front;
  }

  lemma WalkStep<T>(front: seq<T>, list: seq<T>, cores: seq<seq<T>>, cpu: Wanted<T>, dead: set<T>)
    requires list != []
    ensures var t, rest := list[0], list[1..];
      Walk(front + list, cores, cpu, dead, |front|)
      == if t in dead then Walk(front + rest, cores, cpu, dead, |front|)
         else if Ready(cores, cpu, t) then
           Outcome(front + (rest + [t]), cores[cpu(t) := [t] + cores[cpu(t)]], [t])
         else Walk(front + [t] + rest, cores, cpu, dead, |front + [t]|)
  {
    hide Ready;
    var all := front + list;
    assert all[|front|] == list[0] && all[..|front|] == front && all[|front| + 1..] == list[1..];
    assert front + [list[0]] + list[1..] == all;
    assert front + list[1..] + [list[0]] == front + (list[1..] + [list[0]]);
    ReadyCore(cores, cpu, list[0]);
  }

  lemma ReadyCore<T>(cores: seq<seq<T>>, cpu: Wanted<T>, t: T)
    ensures Ready(cores, cpu, t) ==> cpu(t) < |cores|
  {
  }

  lemma FirstBehind<T>(list: seq<T>, cores: seq<seq<T>>, cpu: Wanted<T>, dead: set<T>)
    requires list != [] && (list[0] in dead || !Ready(cores, cpu, list[0]))
    ensures FirstToRun(list, cores, cpu, dead) == 1 + FirstToRun(list[1..], cores, cpu, dead)
  {
    hide Ready;
  }

  lemma AliveFront<T>(list: seq<T>, dead: set<T>, p: nat)
    requires p < |list|
    ensures Alive(list[..p + 1], dead) == (if list[0] in dead then [] else [list[0]]) + Alive(list[1..][..p], dead)
  {
    assert list[..p + 1][1..] == list[1..][..p];
  }

  lemma SameBehind<T>(list: seq<T>, p: nat)
    requires p < |list|
    ensures list[p + 1..] == list[1..][p..]
    ensures p == |list[1..]| ==> list[..p + 1] == list && list[1..][..p] == list[1..]
  {
  }

  lemma DropsDead<T>(front: seq<T>, list: seq<T>, cores: seq<seq<T>>, cpu: Wanted<T>, dead: set<T>)
    requires list != [] && list[0] in dead
    ensures ByPosition(front, list, cores, cpu, dead) == ByPosition(front, list[1..], cores, cpu, dead)
  {
    hide Ready, FirstToRun, Alive;
    var p := FirstToRun(list[1..], cores, cpu, dead);
    FirstBehind(list, cores, cpu, dead);
    AliveFront(list, dead, p);
    SameBehind(list, p);
    if p < |list[1..]| {
      SameBehind(list, p + 1);
    }
  }

  lemma Dispatches<T>(front: seq<T>, list: seq<T>, cores: seq<seq<T>>, cpu: Wanted<T>, dead: set<T>)
    requires list != [] && list[0] !in dead && Ready(cores, cpu, list[0])
    ensures cpu(list[0]) < |cores|
    ensures ByPosition(front, list, cores, cpu, dead)
         == Outcome(front + (list[1..] + [list[0]]), cores[cpu(list[0]) := [list[0]] + cores[cpu(list[0])]], [list[0]])
  {
    assert Alive(list[..0], dead) == [] && [] + list[1..] == list[1..];
  }

  lemma PassesOver<T>(front: seq<T>, list: seq<T>, cores: seq<seq<T>>, cpu: Wanted<T>, dead: set<T>)
    requires list != [] && list[0] !in dead && !Ready(cores, cpu, list[0])
    ensures ByPosition(front, list, cores, cpu, dead) == ByPosition(front + [list[0]], list[1..], cores, cpu, dead)
  {
    hide Ready, FirstToRun, Alive;
    var t, rest := list[0], list[1..];
    var p := FirstToRun(rest, cores, cpu, dead);
    FirstBehind(list, cores, cpu, dead);
    AliveFront(list, dead, p);
    SameBehind(list, p);
    var alive := Alive(rest[..p], dead);
    if p == |rest| {
      Joined(front, t, alive);
    } else {
      SameBehind(list, p + 1);
      Regrouped(t, alive, rest[p + 1..], [rest[p]]);
      Joined(front, t, alive + rest[p + 1..] + [rest[p]]);
    }
  }

  lemma Regrouped<T>(t: T, a: seq<T>, b: seq<T>, c: seq<T>)
    ensures [t] + a + b + c == [t] + (a + b + c)
  {
  }

  lemma Joined<T>(front: seq<T>, t: T, rest: seq<T>)
    ensures (front + [t]) + rest == front + ([t] + rest)
  {
  }

  function WithoutFirst<T(==)>(list: seq<T>, t: T): seq<T> {
    if list == [] then []
    else if list[0] == t then list[1..]
    else [list[0]] + WithoutFirst(list[1..], t)
  }

  // ---- the undispatched threads -----------------------------------------------------------------

  function Waiting<T(==)>(list: seq<T>, cores: seq<seq<T>>, cpu: Wanted<T>): seq<T> {
    if list == [] then []
    else (if Ready(cores, cpu, list[0]) then [list[0]] else []) + Waiting(list[1..], cores, cpu)
  }

  lemma {:induction false} WaitingOfConcat<T>(a: seq<T>, b: seq<T>, cores: seq<seq<T>>, cpu: Wanted<T>)
    ensures Waiting(a + b, cores, cpu) == Waiting(a, cores, cpu) + Waiting(b, cores, cpu)
  {
    hide Ready;
    if a == [] {
      assert a + b == b;
    } else {
      assert (a + b)[1..] == a[1..] + b;
      WaitingOfConcat(a[1..], b, cores, cpu);
      var head := if Ready(cores, cpu, a[0]) then [a[0]] else [];
      Associative(head, Waiting(a[1..], cores, cpu), Waiting(b, cores, cpu));
    }
  }

  lemma {:induction false} WaitingMembers<T>(list: seq<T>, cores: seq<seq<T>>, cpu: Wanted<T>, t: T)
    ensures t in Waiting(list, cores, cpu) <==> t in list && Ready(cores, cpu, t)
  {
    if list != [] {
      WaitingMembers(list[1..], cores, cpu, t);
      assert list == [list[0]] + list[1..];
    }
  }

  lemma {:induction false} NoneWaiting<T>(list: seq<T>, cores: seq<seq<T>>, cpu: Wanted<T>)
    requires forall t :: t in list ==> !Ready(cores, cpu, t)
    ensures Waiting(list, cores, cpu) == []
  {
    if list != [] {
      NoneWaiting(list[1..], cores, cpu);
    }
  }

  /** Giving one thread to its core leaves every other thread as ready as it was. */
  lemma ReadyAfter<T>(cores: seq<seq<T>>, cpu: Wanted<T>, t: T, other: T)
    requires cpu(t) < |cores|
    ensures Ready(Preempted(cores, cpu, t), cpu, other) <==> Ready(cores, cpu, other) && other != t
  {
  }

  lemma {:induction false} WaitingAfter<T>(list: seq<T>, cores: seq<seq<T>>, cpu: Wanted<T>, t: T)
    requires cpu(t) < |cores| && t !in list
    ensures Waiting(list, Preempted(cores, cpu, t), cpu) == Waiting(list, cores, cpu)
  {
    if list != [] {
      ReadyAfter(cores, cpu, t, list[0]);
      WaitingAfter(list[1..], cores, cpu, t);
    }
  }

  // ---- one step of the walk -----------------------------------------------------------------------

  /** Nothing before position `i` is ready. */
  ghost predicate Passed<T>(list: seq<T>, cores: seq<seq<T>>, cpu: Wanted<T>, i: nat)
    requires i <= |list|
  {
    forall t :: t in list[..i] ==> !Ready(cores, cpu, t)
  }

  lemma PassedOneMore<T>(list: seq<T>, cores: seq<seq<T>>, cpu: Wanted<T>, i: nat)
    requires i < |list| && Passed(list, cores, cpu, i) && !Ready(cores, cpu, list[i])
    ensures Passed(list, cores, cpu, i + 1)
  {
    hide Ready;
    assert list[..i + 1] == list[..i] + [list[i]];
  }

  lemma ToBackPermutes<T>(list: seq<T>, i: nat)
    requires i < |list|
    ensures multiset(ToBack(list, i)) == multiset(list)
  {
    assert list == list[..i] + [list[i]] + list[i + 1..];
  }

  lemma ToBackDistinct<T>(list: seq<T>, i: nat)
    requires i < |list| && Distinct(list)
    ensures Distinct(ToBack(list, i))
  {
    var moved := ToBack(list, i);
    forall j | 0 <= j < |moved|
      ensures moved[j] == list[if j < i then j else if j < |list| - 1 then j + 1 else i]
    {
    }
  }

  lemma WaitingHead<T>(list: seq<T>, cores: seq<seq<T>>, cpu: Wanted<T>, i: nat)
    requires i < |list| && Passed(list, cores, cpu, i) && Ready(cores, cpu, list[i])
    ensures Waiting(list, cores, cpu) == [list[i]] + Waiting(list[i + 1..], cores, cpu)
  {
    hide Ready, Waiting;
    assert list == list[..i] + list[i..];
    WaitingOfConcat(list[..i], list[i..], cores, cpu);
    NoneWaiting(list[..i], cores, cpu);
    WaitingFirst(list[i..], cores, cpu);
  }

  lemma WaitingFirst<T>(list: seq<T>, cores: seq<seq<T>>, cpu: Wanted<T>)
    requires list != [] && Ready(cores, cpu, list[0])
    ensures Waiting(list, cores, cpu) == [list[0]] + Waiting(list[1..], cores, cpu)
  {
  }

  /** Once the thread at `i` has been given to its core, what waits is what stood behind it. */
  lemma WaitingBehind<T>(list: seq<T>, cores: seq<seq<T>>, cpu: Wanted<T>, i: nat)
    requires Distinct(list) && i < |list| && cpu(list[i]) < |cores| && Passed(list, cores, cpu, i)
    ensures Waiting(ToBack(list, i), Preempted(cores, cpu, list[i]), cpu) == Waiting(list[i + 1..], cores, cpu)
  {
    hide Ready, Waiting, Preempted;
    var t, front, back := list[i], list[..i], list[i + 1..];
    var after := Preempted(cores, cpu, t);
    WaitingOfConcat(front + back, [t], after, cpu);
    WaitingOfConcat(front, back, after, cpu);
    WaitingAfter(front, cores, cpu, t);
    WaitingAfter(back, cores, cpu, t);
    NoneWaiting(front, cores, cpu);
    ReadyAfter(cores, cpu, t, t);
    NoneWaiting([t], after, cpu);
  }

  /** With every listed thread alive, the walk takes the head of the waiting threads. */
  ghost predicate TakesHead<T>(list: seq<T>, cores: seq<seq<T>>, cpu: Wanted<T>, r: Outcome<T>) {
    var w := Waiting(list, cores, cpu);
    if w == [] then r == Outcome(list, cores, []) else
    && cpu(w[0]) < |cores| && r.dispatched == [w[0]] && r.cores == Preempted(cores, cpu, w[0])
    && multiset(r.list) == multiset(list) && Distinct(r.list) && Waiting(r.list, r.cores, cpu) == w[1..]
  }

  lemma DispatchAt<T>(list: seq<T>, cores: seq<seq<T>>, cpu: Wanted<T>, i: nat)
    requires Distinct(list) && i < |list| && Passed(list, cores, cpu, i) && Ready(cores, cpu, list[i])
    ensures TakesHead(list, cores, cpu, Outcome(ToBack(list, i), Preempted(cores, cpu, list[i]), [list[i]]))
  {
    WaitingHead(list, cores, cpu, i);
    WaitingBehind(list, cores, cpu, i);
    ToBackPermutes(list, i);
    ToBackDistinct(list, i);
    hide Waiting, Preempted, ToBack, Distinct, Passed;
    var rest := Waiting(list[i + 1..], cores, cpu);
    assert ([list[i]] + rest)[1..] == rest;
  }

  lemma {:induction false} WalkTakesHead<T>(list: seq<T>, cores: seq<seq<T>>, cpu: Wanted<T>, i: nat)
    requires Distinct(list) && i <= |list| && Passed(list, cores, cpu, i)
    ensures TakesHead(list, cores, cpu, Walk(list, cores, cpu, {}, i))
    decreases |list| - i
  {
    hide Ready, Distinct;
    if i == |list| {
      assert list[..i] == list;
      NoneWaiting(list, cores, cpu);
    } else if Ready(cores, cpu, list[i]) {
      hide TakesHead;
      DispatchAt(list, cores, cpu, i);
    } else {
      hide TakesHead;
      PassedOneMore(list, cores, cpu, i);
      WalkTakesHead(list, cores, cpu, i + 1);
    }
  }

  // ---- runs, against a first-in first-out queue ---------------------------------------------------

  datatype Op<T> = Emplace(thread: T) | Kill(thread: T) | Reeschedule

  /** The dispatch list, what each core lists, every thread emplaced so far, and the threads dispatched. */
  datatype State<T> = State(list: seq<T>, cores: seq<seq<T>>, emplaced: seq<T>, log: seq<T>)

  /** The reference: a queue of threads, those dispatched, and those killed while they waited. */
  datatype Queue<T> = Queue(waiting: seq<T>, log: seq<T>, killed: seq<T>)

  function Start<T>(): State<T> {
    State([], seq(CORES, _ => []), [], [])
  }

  function Step<T(==)>(s: State<T>, cpu: Wanted<T>, op: Op<T>): State<T> {
    match op
    case Emplace(t) => s.(list := s.list + [t], emplaced := s.emplaced + [t])
    case Kill(t) => s.(list := WithoutFirst(s.list, t))
    case Reeschedule =>
      var r := Walk(s.list, s.cores, cpu, {}, 0);
      s.(list := r.list, cores := r.cores, log := s.log + r.dispatched)
  }

  function QueueStep<T(==)>(q: Queue<T>, cpu: Wanted<T>, op: Op<T>): Queue<T> {
    match op
    case Emplace(t) => if cpu(t) < CORES then q.(waiting := q.waiting + [t]) else q
    case Kill(t) =>
      if t in q.waiting then q.(waiting := WithoutFirst(q.waiting, t), killed := q.killed + [t]) else q
    case Reeschedule =>
      if q.waiting == [] then q else q.(waiting := q.waiting[1..], log := q.log + [q.waiting[0]])
  }

  function Run<T(==)>(s: State<T>, cpu: Wanted<T>, ops: seq<Op<T>>): State<T>
    decreases |ops|
  {
    if ops == [] then s else Run(Step(s, cpu, ops[0]), cpu, ops[1..])
  }

  function QueueRun<T(==)>(q: Queue<T>, cpu: Wanted<T>, ops: seq<Op<T>>): Queue<T>
    decreases |ops|
  {
    if ops == [] then q else QueueRun(QueueStep(q, cpu, ops[0]), cpu, ops[1..])
  }

  /** No thread is emplaced twice, nor once it is among `known`. */
  ghost predicate EmplacedOnce<T>(ops: seq<Op<T>>, known: seq<T>) {
    && (forall i :: 0 <= i < |ops| && ops[i].Emplace? ==> ops[i].thread !in known)
    && (forall i, j :: 0 <= i < j < |ops| && ops[i].Emplace? && ops[j].Emplace? ==> ops[i].thread != ops[j].thread)
  }

  /** The dispatched threads of core `c`, the last one first. */
  function OnCore<T>(log: seq<T>, cpu: Wanted<T>, c: nat): seq<T>
    decreases |log|
  {
    if log == [] then [] else
    var last := log[|log| - 1];
    (if cpu(last) == c then [last] else []) + OnCore(log[..|log| - 1], cpu, c)
  }

  /** The threads that some core can take and that were not killed while waiting, in the order of `emplaced`. */
  function Survivors<T(==)>(emplaced: seq<T>, cpu: Wanted<T>, killed: seq<T>): seq<T>
    decreases |emplaced|
  {
    if emplaced == [] then [] else
    var last := emplaced[|emplaced| - 1];
    Survivors(emplaced[..|emplaced| - 1], cpu, killed) + (if cpu(last) < CORES && last !in killed then [last] else [])
  }

  /** Each core lists exactly the threads dispatched to it. */
  ghost predicate CoresTellLog<T>(s: State<T>, cpu: Wanted<T>) {
    && |s.cores| == CORES
    && forall c :: 0 <= c < CORES ==> s.cores[c] == OnCore(s.log, cpu, c)
  }

  /** The list refines the queue. */
  ghost predicate Refines<T>(s: State<T>, cpu: Wanted<T>, q: Queue<T>) {
    && Distinct(s.list) && CoresTellLog(s, cpu)
    && Waiting(s.list, s.cores, cpu) == q.waiting && s.log == q.log
  }

  /** Only emplaced threads are listed, dispatched or killed, and those killed while waiting were not dispatched. */
  ghost predicate Known<T>(s: State<T>, q: Queue<T>) {
    && Distinct(s.emplaced)
    && (forall t :: t in s.list ==> t in s.emplaced)
    && (forall t :: t in s.log ==> t in s.emplaced)
    && (forall t :: t in q.killed ==> t in s.emplaced && t !in s.log && t !in q.waiting)
  }

  /** Dispatched and waiting threads, in this order, are the surviving threads as they were emplaced. */
  ghost predicate InOrder<T>(s: State<T>, cpu: Wanted<T>, q: Queue<T>) {
    q.log + q.waiting == Survivors(s.emplaced, cpu, q.killed)
  }

  ghost predicate Inv<T>(s: State<T>, cpu: Wanted<T>, q: Queue<T>) {
    Refines(s, cpu, q) && Known(s, q) && InOrder(s, cpu, q)
  }

  lemma {:induction false} OnCoreMembers<T>(log: seq<T>, cpu: Wanted<T>, c: nat, t: T)
    ensures t in OnCore(log, cpu, c) <==> t in log && cpu(t) == c
    decreases |log|
  {
    if log != [] {
      var n := |log| - 1;
      OnCoreMembers(log[..n], cpu, c, t);
      assert log == log[..n] + [log[n]];
    }
  }

  /** A thread is ready when some core can take it and it has not been dispatched. */
  lemma ReadyUnlessDispatched<T>(s: State<T>, cpu: Wanted<T>, t: T)
    requires CoresTellLog(s, cpu)
    ensures Ready(s.cores, cpu, t) <==> cpu(t) < CORES && t !in s.log
  {
    hide OnCore;
    if cpu(t) < CORES {
      OnCoreMembers(s.log, cpu, cpu(t), t);
    }
  }

  // ---- killing ------------------------------------------------------------------------------------

  lemma {:induction false} WithoutFirstMembers<T>(list: seq<T>, t: T, other: T)
    ensures other in WithoutFirst(list, t) ==> other in list
    ensures other != t && other in list ==> other in WithoutFirst(list, t)
    ensures Distinct(list) ==> t !in WithoutFirst(list, t)
    decreases |list|
  {
    if list != [] {
      assert list == [list[0]] + list[1..];
      if list[0] != t {
        WithoutFirstMembers(list[1..], t, other);
      }
    }
  }

  lemma {:induction false} WithoutFirstDistinct<T>(list: seq<T>, t: T)
    requires Distinct(list)
    ensures Distinct(WithoutFirst(list, t))
    decreases |list|
  {
    if list != [] && list[0] != t {
      var rest := WithoutFirst(list[1..], t);
      WithoutFirstDistinct(list[1..], t);
      WithoutFirstMembers(list[1..], t, list[0]);
      assert list[0] !in rest;
      assert WithoutFirst(list, t) == [list[0]] + rest;
    }
  }

  lemma {:induction false} WithoutFirstAbsent<T>(list: seq<T>, t: T)
    requires t !in list
    ensures WithoutFirst(list, t) == list
    decreases |list|
  {
    if list != [] {
      WithoutFirstAbsent(list[1..], t);
    }
  }

  lemma {:induction false} WithoutFirstOfConcat<T>(a: seq<T>, b: seq<T>, t: T)
    ensures t in a ==> WithoutFirst(a + b, t) == WithoutFirst(a, t) + b
    ensures t !in a ==> WithoutFirst(a + b, t) == a + WithoutFirst(b, t)
    decreases |a|
  {
    if a == [] {
      assert a + b == b;
    } else {
      ConcatSteps(a, b, t);
      WithoutFirstSteps(a, t);
      hide WithoutFirst;
      var head, rest := [a[0]], a[1..];
      if a[0] == t {
      } else if t in rest {
        WithoutFirstOfConcat(rest, b, t);
        Associative(head, WithoutFirst(rest, t), b);
      } else {
        WithoutFirstOfConcat(rest, b, t);
        Associative(head, rest, WithoutFirst(b, t));
        assert a == head + rest;
      }
    }
  }

  lemma ConcatSteps<T>(a: seq<T>, b: seq<T>, t: T)
    requires a != []
    ensures WithoutFirst(a + b, t) == if a[0] == t then a[1..] + b else [a[0]] + WithoutFirst(a[1..] + b, t)
  {
    assert (a + b)[1..] == a[1..] + b;
  }

  lemma Associative<T>(a: seq<T>, b: seq<T>, c: seq<T>)
    ensures a + (b + c) == (a + b) + c
  {
  }

  lemma WithoutFirstSteps<T>(list: seq<T>, t: T)
    requires list != []
    ensures WithoutFirst(list, t) == if list[0] == t then list[1..] else [list[0]] + WithoutFirst(list[1..], t)
    ensures t in list <==> list[0] == t || t in list[1..]
  {
  }

  lemma {:induction false} WaitingWithoutFirst<T>(list: seq<T>, cores: seq<seq<T>>, cpu: Wanted<T>, t: T)
    ensures Waiting(WithoutFirst(list, t), cores, cpu)
         == if Ready(cores, cpu, t) then WithoutFirst(Waiting(list, cores, cpu), t) else Waiting(list, cores, cpu)
    decreases |list|
  {
    hide Ready;
    if list != [] {
      var x, rest := list[0], Waiting(list[1..], cores, cpu);
      WithoutFirstOfConcat(if Ready(cores, cpu, x) then [x] else [], rest, t);
      if x != t {
        WaitingWithoutFirst(list[1..], cores, cpu, t);
        assert ([x] + WithoutFirst(list[1..], t))[1..] == WithoutFirst(list[1..], t);
      }
    }
  }

  lemma {:induction false} SurvivorsWithout<T>(emplaced: seq<T>, cpu: Wanted<T>, killed: seq<T>, t: T)
    requires Distinct(emplaced)
    ensures Survivors(emplaced, cpu, killed + [t]) == WithoutFirst(Survivors(emplaced, cpu, killed), t)
    decreases |emplaced|
  {
    hide WithoutFirst;
    if emplaced == [] {
      WithoutFirstAbsent(Survivors(emplaced, cpu, killed), t);
    } else {
      var n := |emplaced| - 1;
      var earlier := Survivors(emplaced[..n], cpu, killed);
      SurvivorsWithout(emplaced[..n], cpu, killed, t);
      SurvivorsMembers(emplaced[..n], cpu, killed, t);
      OneMoreSurvivor(earlier, emplaced[n], cpu(emplaced[n]) < CORES && emplaced[n] !in killed, t);
    }
  }

  lemma OneMoreSurvivor<T>(earlier: seq<T>, last: T, kept: bool, t: T)
    requires last == t ==> t !in earlier
    ensures WithoutFirst(earlier + (if kept then [last] else []), t)
         == WithoutFirst(earlier, t) + (if kept && last != t then [last] else [])
  {
    WithoutFirstOfConcat(earlier, if kept then [last] else [], t);
    if t !in earlier {
      WithoutFirstAbsent(earlier, t);
    }
  }

  lemma {:induction false} SurvivorsMembers<T>(emplaced: seq<T>, cpu: Wanted<T>, killed: seq<T>, t: T)
    ensures t in Survivors(emplaced, cpu, killed) <==> t in emplaced && cpu(t) < CORES && t !in killed
    decreases |emplaced|
  {
    if emplaced != [] {
      var n := |emplaced| - 1;
      SurvivorsMembers(emplaced[..n], cpu, killed, t);
      assert emplaced == emplaced[..n] + [emplaced[n]];
    }
  }

  lemma {:induction false} SurvivorsDistinct<T>(emplaced: seq<T>, cpu: Wanted<T>, killed: seq<T>)
    requires Distinct(emplaced)
    ensures Distinct(Survivors(emplaced, cpu, killed))
    decreases |emplaced|
  {
    if emplaced != [] {
      var n := |emplaced| - 1;
      SurvivorsDistinct(emplaced[..n], cpu, killed);
      SurvivorsMembers(emplaced[..n], cpu, killed, emplaced[n]);
    }
  }

  // ---- every step keeps the refinement ------------------------------------------------------------

  lemma EmplaceRefines<T>(s: State<T>, cpu: Wanted<T>, q: Queue<T>, t: T)
    requires Refines(s, cpu, q) && Known(s, q) && t !in s.emplaced
    ensures Refines(Step(s, cpu, Emplace(t)), cpu, QueueStep(q, cpu, Emplace(t)))
  {
    hide Ready, Waiting, CoresTellLog, OnCore;
    WaitingOfConcat(s.list, [t], s.cores, cpu);
    ReadyUnlessDispatched(s, cpu, t);
    WaitingOfOne(s.cores, cpu, t);
    SameLog(s, Step(s, cpu, Emplace(t)), cpu);
  }

  lemma EmplaceKeepsInv<T>(s: State<T>, cpu: Wanted<T>, q: Queue<T>, t: T)
    requires Inv(s, cpu, q) && t !in s.emplaced
    ensures Inv(Step(s, cpu, Emplace(t)), cpu, QueueStep(q, cpu, Emplace(t)))
  {
    var after, p := Step(s, cpu, Emplace(t)), QueueStep(q, cpu, Emplace(t));
    EmplaceRefines(s, cpu, q, t);
    hide Refines;
    assert after.emplaced[..|s.emplaced|] == s.emplaced;
    assert t !in q.killed;
  }

  lemma WaitingOfOne<T>(cores: seq<seq<T>>, cpu: Wanted<T>, t: T)
    ensures Waiting([t], cores, cpu) == if Ready(cores, cpu, t) then [t] else []
  {
    assert [t][1..] == [];
  }

  lemma SameLog<T>(s: State<T>, after: State<T>, cpu: Wanted<T>)
    requires CoresTellLog(s, cpu) && after.cores == s.cores && after.log == s.log
    ensures CoresTellLog(after, cpu)
  {
  }

  lemma KillRefines<T>(s: State<T>, cpu: Wanted<T>, q: Queue<T>, t: T)
    requires Refines(s, cpu, q)
    ensures Refines(Step(s, cpu, Kill(t)), cpu, QueueStep(q, cpu, Kill(t)))
  {
    hide Ready, Waiting, CoresTellLog, OnCore, WithoutFirst, Distinct;
    WaitingWithoutFirst(s.list, s.cores, cpu, t);
    WithoutFirstDistinct(s.list, t);
    SameLog(s, Step(s, cpu, Kill(t)), cpu);
    WaitingMembers(s.list, s.cores, cpu, t);
    if t !in q.waiting {
      WithoutFirstAbsent(q.waiting, t);
    }
  }

  lemma KillKnown<T>(s: State<T>, cpu: Wanted<T>, q: Queue<T>, t: T)
    requires Refines(s, cpu, q) && Known(s, q)
    ensures Known(Step(s, cpu, Kill(t)), QueueStep(q, cpu, Kill(t)))
  {
    hide Ready, Waiting, CoresTellLog, OnCore, WithoutFirst, Distinct;
    var after, p := Step(s, cpu, Kill(t)), QueueStep(q, cpu, Kill(t));
    forall x | x in after.list ensures x in s.emplaced {
      WithoutFirstMembers(s.list, t, x);
    }
    ReadyUnlessDispatched(s, cpu, t);
    forall x | x in p.killed ensures x in s.emplaced && x !in s.log && x !in p.waiting {
      WaitingMembers(s.list, s.cores, cpu, t);
      if x in q.killed {
        WithoutFirstMembers(q.waiting, t, x);
      } else {
        WaitingWithoutFirst(s.list, s.cores, cpu, t);
        WithoutFirstMembers(s.list, t, t);
        WaitingMembers(after.list, s.cores, cpu, t);
      }
    }
  }

  lemma KillKeepsInv<T>(s: State<T>, cpu: Wanted<T>, q: Queue<T>, t: T)
    requires Inv(s, cpu, q)
    ensures Inv(Step(s, cpu, Kill(t)), cpu, QueueStep(q, cpu, Kill(t)))
  {
    KillRefines(s, cpu, q, t);
    KillKnown(s, cpu, q, t);
    if t in q.waiting {
      WaitingMembers(s.list, s.cores, cpu, t);
      ReadyUnlessDispatched(s, cpu, t);
      hide Refines, Ready, Survivors, WithoutFirst;
      SurvivorsWithout(s.emplaced, cpu, q.killed, t);
      WithoutFirstOfConcat(q.log, q.waiting, t);
    }
  }

  // ---- dispatching --------------------------------------------------------------------------------

  /** What the step does, in terms of the queue alone. */
  lemma ReescheduleTakesHead<T>(s: State<T>, cpu: Wanted<T>, q: Queue<T>)
    requires Refines(s, cpu, q)
    ensures TakesHead(s.list, s.cores, cpu, Walk(s.list, s.cores, cpu, {}, 0))
  {
    hide TakesHead, Walk, Ready;
    WalkTakesHead(s.list, s.cores, cpu, 0);
  }

  lemma CoresTellOneMore<T>(s: State<T>, cpu: Wanted<T>, t: T, after: State<T>)
    requires CoresTellLog(s, cpu) && cpu(t) < CORES
    requires after.cores == Preempted(s.cores, cpu, t) && after.log == s.log + [t]
    ensures CoresTellLog(after, cpu)
  {
    assert after.log[..|s.log|] == s.log;
    forall c | 0 <= c < CORES ensures after.cores[c] == OnCore(after.log, cpu, c) {
      assert s.cores[c] == OnCore(s.log, cpu, c);
    }
  }

  lemma ReescheduleRefines<T>(s: State<T>, cpu: Wanted<T>, q: Queue<T>)
    requires Refines(s, cpu, q)
    ensures Refines(Step(s, cpu, Reeschedule), cpu, QueueStep(q, cpu, Reeschedule))
    ensures multiset(Step(s, cpu, Reeschedule).list) == multiset(s.list)
  {
    assert |s.cores| == CORES;
    hide Waiting, CoresTellLog, Walk, Distinct, Ready, Preempted;
    ReescheduleTakesHead(s, cpu, q);
    var after := Step(s, cpu, Reeschedule);
    if q.waiting == [] {
      SameLog(s, after, cpu);
    } else {
      CoresTellOneMore(s, cpu, q.waiting[0], after);
    }
  }

  lemma ReescheduleKnown<T>(s: State<T>, cpu: Wanted<T>, q: Queue<T>)
    requires Refines(s, cpu, q) && Known(s, q)
    ensures Known(Step(s, cpu, Reeschedule), QueueStep(q, cpu, Reeschedule))
  {
    ReescheduleTakesHead(s, cpu, q);
    hide Waiting, CoresTellLog, Walk, Distinct, Ready, Preempted;
    var after := Step(s, cpu, Reeschedule);
    ReescheduleRefines(s, cpu, q);
    forall x | x in after.list ensures x in s.emplaced {
      assert x in multiset(after.list);
    }
    if q.waiting != [] {
      WaitingMembers(s.list, s.cores, cpu, q.waiting[0]);
    }
  }

  lemma ReescheduleKeepsInv<T>(s: State<T>, cpu: Wanted<T>, q: Queue<T>)
    requires Inv(s, cpu, q)
    ensures Inv(Step(s, cpu, Reeschedule), cpu, QueueStep(q, cpu, Reeschedule))
  {
    ReescheduleRefines(s, cpu, q);
    ReescheduleKnown(s, cpu, q);
    hide Refines, Known, Survivors, Walk;
    if q.waiting != [] {
      assert q.log + [q.waiting[0]] + q.waiting[1..] == q.log + q.waiting;
    }
  }

  // ---- whole runs ---------------------------------------------------------------------------------

  lemma StepKeepsInv<T>(s: State<T>, cpu: Wanted<T>, q: Queue<T>, op: Op<T>)
    requires Inv(s, cpu, q) && (op.Emplace? ==> op.thread !in s.emplaced)
    ensures Inv(Step(s, cpu, op), cpu, QueueStep(q, cpu, op))
  {
    hide Inv, Step, QueueStep;
    match op
    case Emplace(t) => EmplaceKeepsInv(s, cpu, q, t);
    case Kill(t) => KillKeepsInv(s, cpu, q, t);
    case Reeschedule => ReescheduleKeepsInv(s, cpu, q);
  }

  lemma EmplacedOnceLater<T>(s: State<T>, cpu: Wanted<T>, ops: seq<Op<T>>)
    requires ops != [] && EmplacedOnce(ops, s.emplaced)
    ensures EmplacedOnce(ops[1..], Step(s, cpu, ops[0]).emplaced)
  {
    hide Walk;
    var rest := ops[1..];
    forall i | 0 <= i < |rest| && rest[i].Emplace? ensures rest[i].thread !in Step(s, cpu, ops[0]).emplaced {
      assert rest[i] == ops[i + 1];
    }
    forall i, j | 0 <= i < j < |rest| && rest[i].Emplace? && rest[j].Emplace? ensures rest[i].thread != rest[j].thread {
      assert rest[i] == ops[i + 1] && rest[j] == ops[j + 1];
    }
  }

  lemma {:induction false} RunKeepsInv<T>(s: State<T>, cpu: Wanted<T>, q: Queue<T>, ops: seq<Op<T>>)
    requires Inv(s, cpu, q) && EmplacedOnce(ops, s.emplaced)
    ensures Inv(Run(s, cpu, ops), cpu, QueueRun(q, cpu, ops))
    decreases |ops|
  {
    if ops != [] {
      assert ops[0].Emplace? ==> ops[0].thread !in s.emplaced;
      hide Inv, Step, QueueStep, EmplacedOnce;
      StepKeepsInv(s, cpu, q, ops[0]);
      EmplacedOnceLater(s, cpu, ops);
      RunKeepsInv(Step(s, cpu, ops[0]), cpu, QueueStep(q, cpu, ops[0]), ops[1..]);
    }
  }

  /** Over any run the dispatch list is a first-in first-out queue: the threads dispatched, then those still
      waiting, are the surviving threads in the order they were emplaced, each once, and each core lists
      exactly the threads dispatched to it. */
  lemma AnyRunIsFirstInFirstOut<T>(ops: seq<Op<T>>, cpu: Wanted<T>)
    requires EmplacedOnce(ops, [])
    ensures var s, q := Run(Start(), cpu, ops), QueueRun(Queue([], [], []), cpu, ops);
      && s.log == q.log && Waiting(s.list, s.cores, cpu) == q.waiting
      && s.log + q.waiting == Survivors(s.emplaced, cpu, q.killed) && Distinct(s.log + q.waiting)
      && CoresTellLog(s, cpu)
  {
    var s, q := Run(Start(), cpu, ops), QueueRun(Queue([], [], []), cpu, ops);
    assert Inv<T>(Start(), cpu, Queue([], [], []));
    RunKeepsInv(Start(), cpu, Queue([], [], []), ops);
    hide Run, QueueRun, CoresTellLog, Waiting, Survivors;
    SurvivorsDistinct(s.emplaced, cpu, q.killed);
  }

  // ---- every thread gets its turn -----------------------------------------------------------------

  function Rounds<T>(ops: seq<Op<T>>): nat
    decreases |ops|
  {
    if ops == [] then 0 else (if ops[0].Reeschedule? then 1 else 0) + Rounds(ops[1..])
  }

  lemma {:induction false} RoundsCounted<T>(ops: seq<Op<T>>)
    ensures Rounds(ops) == multiset(ops)[Reeschedule]
    decreases |ops|
  {
    if ops != [] {
      RoundsCounted(ops[1..]);
      assert ops == [ops[0]] + ops[1..];
    }
  }

  lemma {:induction false} LogGrows<T>(q: Queue<T>, cpu: Wanted<T>, ops: seq<Op<T>>, t: T)
    requires t in q.log
    ensures t in QueueRun(q, cpu, ops).log
    decreases |ops|
  {
    if ops != [] {
      LogGrows(QueueStep(q, cpu, ops[0]), cpu, ops[1..], t);
    }
  }

  lemma {:induction false} WithoutFirstShifts<T>(list: seq<T>, other: T, j: nat)
    requires j < |list| && list[j] != other
    ensures var after := WithoutFirst(list, other);
      (j < |after| && after[j] == list[j]) || (0 < j <= |after| && after[j - 1] == list[j])
    decreases |list|
  {
    if list[0] != other && j > 0 {
      WithoutFirstShifts(list[1..], other, j - 1);
    }
  }

  lemma {:induction false} QueueServes<T>(q: Queue<T>, cpu: Wanted<T>, ops: seq<Op<T>>, j: nat)
    requires j < |q.waiting| && Kill(q.waiting[j]) !in ops && Rounds(ops) > j
    ensures q.waiting[j] in QueueRun(q, cpu, ops).log
    decreases |ops|
  {
    var t, p := q.waiting[j], QueueStep(q, cpu, ops[0]);
    assert Kill(t) !in ops[1..] && ops[0] != Kill(t);
    match ops[0] {
      case Emplace(_) => QueueServes(p, cpu, ops[1..], j);
      case Kill(other) =>
        WithoutFirstShifts(q.waiting, other, j);
        if j < |p.waiting| && p.waiting[j] == t {
          QueueServes(p, cpu, ops[1..], j);
        } else {
          QueueServes(p, cpu, ops[1..], j - 1);
        }
      case Reeschedule =>
        if j == 0 {
          LogGrows(p, cpu, ops[1..], t);
        } else {
          QueueServes(p, cpu, ops[1..], j - 1);
        }
    }
  }

  /** A thread with `j` undispatched threads ahead of it after any run is dispatched within `j + 1` more calls,
      unless it is killed. */
  lemma DispatchedInTime<T>(ops: seq<Op<T>>, cpu: Wanted<T>, more: seq<Op<T>>, j: nat)
    requires EmplacedOnce(ops, []) && EmplacedOnce(more, Run(Start(), cpu, ops).emplaced)
    requires var s := Run(Start(), cpu, ops);
      j < |Waiting(s.list, s.cores, cpu)| && multiset(more)[Reeschedule] > j
      && Kill(Waiting(s.list, s.cores, cpu)[j]) !in more
    ensures var s := Run(Start(), cpu, ops); Waiting(s.list, s.cores, cpu)[j] in Run(s, cpu, more).log
  {
    assert Inv<T>(Start(), cpu, Queue([], [], []));
    hide Waiting, Run, QueueRun, EmplacedOnce, Rounds;
    var s, q := Run(Start(), cpu, ops), QueueRun(Queue([], [], []), cpu, ops);
    RunKeepsInv(Start(), cpu, Queue([], [], []), ops);
    RunKeepsInv(s, cpu, q, more);
    RoundsCounted(more);
    QueueServes(q, cpu, more, j);
  }

  // ---- the scheduler itself -----------------------------------------------------------------------

  class KThread {
    const desiredcpu: nat
    var state: nat
    var usertls: nat
    var entrypoint: nat

    constructor (desiredcpu: nat)
      ensures this.desiredcpu == desiredcpu && state == 0 && usertls == 0 && entrypoint == 0
    {
      this.desiredcpu := desiredcpu;
      state, usertls, entrypoint := 0, 0, 0;
    }
  }

  const DESIRED_CPU: Wanted<KThread> := (t: KThread) => t.desiredcpu

  class KScheduler {
    var preemplist: seq<KThread>
    var coreslist: seq<seq<KThread>>
    var last: KThread?
    var next: KThread?

    constructor ()
      ensures preemplist == Start<KThread>().list && coreslist == Start<KThread>().cores
      ensures last == next == null
    {
      preemplist, coreslist := [], seq(CORES, _ => []);
      last, next := null, null;
    }

    ghost function Dead(): set<KThread>
      reads this, preemplist
    {
      set t | t in preemplist && t.state == 0
    }

    method Emplace(thread: KThread)
      modifies this`preemplist
      ensures preemplist == old(preemplist) + [thread]
    {
      preemplist := preemplist + [thread];
    }

    /** Clears the state of the first occurrence of a listed thread and drops that occurrence. */
    method KillThread(thread: KThread)
      modifies this`preemplist, thread`state
      ensures preemplist == WithoutFirst(old(preemplist), thread)
      ensures thread.state == if thread in old(preemplist) then 0 else old(thread.state)
    {
      hide WithoutFirst;
      var i := 0;
      while i < |preemplist|
        invariant 0 <= i <= |preemplist| && preemplist == old(preemplist) && thread.state == old(thread.state)
        invariant thread !in preemplist[..i]
      {
        if preemplist[i] != thread {
          i := i + 1;
        } else {
          ErasedAt(preemplist, i);
          thread.state := 0;
          preemplist := preemplist[..i] + preemplist[i + 1..];
          return;
        }
      }
      WithoutFirstAbsent(preemplist, thread);
    }

    /** Pushes the thread to the front of its core's list. */
    method PreemptThread(idealcore: nat, thread: KThread)
      requires idealcore < |coreslist|
      modifies this`coreslist
      ensures coreslist == old(coreslist)[idealcore := [thread] + old(coreslist)[idealcore]]
    {
      coreslist := coreslist[idealcore := [thread] + coreslist[idealcore]];
    }

    /** Offers the thread at position `i` to the cores: a ready one goes to the back of the list and to its core. */
    method Offer(i: nat) returns (given: bool)
      requires i < |preemplist|
      modifies this
      ensures given == Ready(old(coreslist), DESIRED_CPU, old(preemplist)[i])
      ensures !given ==> unchanged(this)
      ensures given ==>
        && preemplist == ToBack(old(preemplist), i) && next == old(preemplist)[i] && last == old(next)
        && coreslist == Preempted(old(coreslist), DESIRED_CPU, old(preemplist)[i])
    {
      var osthread := preemplist[i];
      given := false;
      var cpuid := 0;
      while cpuid < |coreslist|
        invariant 0 <= cpuid <= |coreslist| && |coreslist| == old(|coreslist|)
        invariant !given ==> unchanged(this) && (osthread.desiredcpu >= cpuid)
        invariant given ==> Ready(old(coreslist), DESIRED_CPU, osthread) && osthread.desiredcpu < cpuid
        invariant given ==>
          && preemplist == ToBack(old(preemplist), i) && next == osthread && last == old(next)
          && coreslist == Preempted(old(coreslist), DESIRED_CPU, osthread)
      {
        if osthread.desiredcpu == cpuid {
          if osthread in coreslist[cpuid] {
            break;
          }
          last, next := next, osthread;
          preemplist := preemplist[..i] + preemplist[i + 1..] + [osthread];
          PreemptThread(cpuid, osthread);
          given := true;
        }
        cpuid := cpuid + 1;
      }
    }

    /** One pass over the list, when every live thread is initialised and the last one is alive. */
    method Reeschedule()
      requires preemplist != [] ==> preemplist[|preemplist| - 1].state != 0
      requires forall t :: t in preemplist ==> t.state == 0 || (t.usertls != 0 && t.entrypoint != 0)
      modifies this
      ensures var r := Walk(old(preemplist), old(coreslist), DESIRED_CPU, old(Dead()), 0);
        && preemplist == r.list && coreslist == r.cores
        && (if r.dispatched == [] then next == old(next) && last == old(last)
            else next == r.dispatched[0] && last == old(next))
    {
      ghost var dead := Dead();
      ghost var r := Walk(preemplist, coreslist, DESIRED_CPU, dead, 0);
      var i := 0;
      var given := false;
      while i < |preemplist|
        invariant 0 <= i <= |preemplist|
        invariant forall t :: t in preemplist ==> t in old(preemplist)
        invariant preemplist != [] ==> preemplist[|preemplist| - 1].state != 0
        invariant !given ==> next == old(next) && last == old(last)
        invariant !given ==> Walk(preemplist, coreslist, DESIRED_CPU, dead, i) == r
        invariant given ==> i == |preemplist| && r.list == preemplist && r.cores == coreslist
        invariant given ==> next != null && r.dispatched == [next] && last == old(next)
        decreases |preemplist| - i
      {
        ghost var list := preemplist;
        assert list[i] in old(preemplist);
        assert list[i] in dead <==> list[i].state == 0;
        if preemplist[i].state == 0 {
          assert Walk(list[..i] + list[i + 1..], coreslist, DESIRED_CPU, dead, i) == r;
          preemplist := preemplist[..i] + preemplist[i + 1..];
          assert i < |preemplist|;
        } else {
          given := Offer(i);
          assert !given ==> Walk(list, coreslist, DESIRED_CPU, dead, i + 1) == r;
          i := if given then |preemplist| else i + 1;
        }
      }
    }
  }

  lemma ErasedAt<T>(list: seq<T>, i: nat)
    requires i < |list| && list[i] !in list[..i]
    ensures WithoutFirst(list, list[i]) == list[..i] + list[i + 1..]
  {
    assert list == list[..i] + list[i..];
    WithoutFirstOfConcat(list[..i], list[i..], list[i]);
  }
}
