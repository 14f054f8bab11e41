/** The exchange of partitions between the nodes of a query, as a protocol over its steps. */
module Exchange {
  import opened Basics
  import opened Collections

  /** In every round a node sends the N - 1 parts it does not own, one by one (`distributePartitions`), and
      then takes N - 1 messages from its queue, whichever come (`collectPartitions`). Messages carry the
      query's token and kind only: the round is what the model knows, not what the receiver can see. */
  datatype Message<T> = Message(round: nat, sender: nat, payload: T)

  /** `done` holds what was collected in the rounds finished so far. */
  datatype Node<T> = Node(done: seq<seq<Message<T>>>, next: nat, current: seq<Message<T>>)

  datatype Net<T(==)> = Net(nodes: seq<Node<T>>, inbox: seq<multiset<Message<T>>>)

  datatype Step<T> = Send(i: nat) | Receive(j: nat, m: Message<T>) | Finish(k: nat)

  /** A query: N nodes, so many rounds, and what node i has for node j in round r. */
  datatype Query<!T> = Query(size: nat, rounds: nat, part: (nat, nat, nat) -> T)

  ghost predicate Initial<T>(q: Query<T>, s: Net<T>) {
    && |s.nodes| == |s.inbox| == q.size
    && (forall i :: 0 <= i < q.size ==> s.nodes[i] == Node([], 0, []))
    && (forall i :: 0 <= i < q.size ==> s.inbox[i] == multiset{})
  }

  /** When a step can be taken. */
  ghost predicate Enabled<T>(q: Query<T>, s: Net<T>, step: Step<T>)
    requires |s.nodes| == |s.inbox| == q.size
  {
    match step
    case Send(i) => i < q.size && |s.nodes[i].done| < q.rounds && s.nodes[i].next < q.size
    case Receive(j, m) =>
      && j < q.size && |s.nodes[j].done| < q.rounds && s.nodes[j].next == q.size
      && |s.nodes[j].current| < q.size - 1 && m in s.inbox[j]
    case Finish(k) =>
      k < q.size && |s.nodes[k].done| < q.rounds && s.nodes[k].next == q.size && |s.nodes[k].current| == q.size - 1
  }

  ghost function After<T>(q: Query<T>, s: Net<T>, step: Step<T>): Net<T>
    requires |s.nodes| == |s.inbox| == q.size && Enabled(q, s, step)
  {
    match step
    case Send(i) =>
      var n := s.nodes[i];
      var to := n.next;
      Net(s.nodes[i := n.(next := to + 1)],
          if to == i then s.inbox
          else s.inbox[to := s.inbox[to] + multiset{Message(|n.done|, i, q.part(|n.done|, i, to))}])
    case Receive(j, m) =>
      Net(s.nodes[j := s.nodes[j].(current := s.nodes[j].current + [m])],
          s.inbox[j := s.inbox[j] - multiset{m}])
    case Finish(k) =>
      var n := s.nodes[k];
      s.(nodes := s.nodes[k := Node(n.done + [n.current], 0, [])])
  }

  /** A run: states connected by enabled steps, from an initial state. */
  ghost predicate IsRun<T>(q: Query<T>, states: seq<Net<T>>, steps: seq<Step<T>>) {
    && q.size >= 2
    && |states| == |steps| + 1 && Initial(q, states[0])
    && (forall t :: 0 <= t < |states| ==> |states[t].nodes| == |states[t].inbox| == q.size)
    && (forall t :: 0 <= t < |steps| ==>
          Enabled(q, states[t], steps[t]) && states[t + 1] == After(q, states[t], steps[t]))
  }

  // ----- what was sent, what was received -------------------------------------------------------

  ghost function MessageOf<T>(q: Query<T>, r: nat, i: nat, j: nat): Message<T> {
    Message(r, i, q.part(r, i, j))
  }

  /** What node i has sent to node j after so many rounds. */
  ghost function SentRounds<T>(q: Query<T>, i: nat, j: nat, rounds: nat): multiset<Message<T>> {
    if rounds == 0 then multiset{}
    else SentRounds(q, i, j, rounds - 1) + multiset{MessageOf(q, rounds - 1, i, j)}
  }

  ghost function RoundsSent<T>(n: Node<T>, j: nat): nat {
    |n.done| + (if j < n.next then 1 else 0)
  }

  /** What each node has sent to node j so far; a node keeps its own part to itself. */
  ghost function Sources<T>(q: Query<T>, nodes: seq<Node<T>>, j: nat): nat -> multiset<Message<T>> {
    (x: nat) => if x < |nodes| && x != j then SentRounds(q, x, j, RoundsSent(nodes[x], j)) else multiset{}
  }

  ghost function Received<T>(n: Node<T>): multiset<Message<T>> {
    multiset(Flatten(n.done)) + multiset(n.current)
  }

  ghost predicate NodeOk<T>(n: Node<T>, size: nat, rounds: nat) {
    && |n.done| <= rounds && n.next <= size && |n.current| < size
    && (|n.done| == rounds ==> n.next == 0)
    && (n.current != [] ==> n.next == size)
    && (forall r :: 0 <= r < |n.done| ==> |n.done[r]| == size - 1)
  }

  /** The local counters make sense. */
  ghost predicate Counters<T>(q: Query<T>, s: Net<T>) {
    && q.size >= 2 && |s.nodes| == |s.inbox| == q.size
    && (forall i :: 0 <= i < q.size ==> NodeOk(s.nodes[i], q.size, q.rounds))
  }

  /** Sent = received + waiting, for node j. */
  ghost predicate Balanced<T>(q: Query<T>, s: Net<T>, j: nat)
    requires Counters(q, s) && j < q.size
  {
    s.inbox[j] + Received(s.nodes[j]) == Sum(Sources(q, s.nodes, j), q.size)
  }

  ghost predicate Inv<T>(q: Query<T>, s: Net<T>) {
    Counters(q, s) && forall j :: 0 <= j < q.size ==> Balanced(q, s, j)
  }

  lemma InitialInv<T>(q: Query<T>, s: Net<T>)
    requires q.size >= 2 && Initial(q, s)
    ensures Inv(q, s)
  {
    forall j | 0 <= j < q.size
      ensures Balanced(q, s, j)
    {
      SumNothing(Sources(q, s.nodes, j), q.size);
      assert Flatten<Message<T>>([]) == [];
    }
  }

  /** A message put into the queue of node j keeps the balance. */
  lemma SentBalance<T>(q: Query<T>, s: Net<T>, s': Net<T>, i: nat, j: nat)
    requires Counters(q, s) && Counters(q, s') && i < q.size && j < q.size && i != j && Balanced(q, s, j)
    requires RoundsSent(s'.nodes[i], j) == RoundsSent(s.nodes[i], j) + 1
    requires forall x :: 0 <= x < q.size && x != i ==> RoundsSent(s'.nodes[x], j) == RoundsSent(s.nodes[x], j)
    requires s'.nodes[j] == s.nodes[j]
    requires s'.inbox[j] == s.inbox[j] + multiset{MessageOf(q, RoundsSent(s.nodes[i], j), i, j)}
    ensures Balanced(q, s', j)
  {
    SumOneMore(Sources(q, s.nodes, j), Sources(q, s'.nodes, j), i, q.size,
               multiset{MessageOf(q, RoundsSent(s.nodes[i], j), i, j)});
  }

  /** A node whose queue and receipts are as before stays in balance if the others sent it nothing. */
  lemma SameBalance<T>(q: Query<T>, s: Net<T>, s': Net<T>, j: nat)
    requires Counters(q, s) && Counters(q, s') && j < q.size && Balanced(q, s, j)
    requires forall x :: 0 <= x < q.size && x != j ==> RoundsSent(s'.nodes[x], j) == RoundsSent(s.nodes[x], j)
    requires s'.inbox[j] + Received(s'.nodes[j]) == s.inbox[j] + Received(s.nodes[j])
    ensures Balanced(q, s', j)
  {
    SumSame(Sources(q, s.nodes, j), Sources(q, s'.nodes, j), q.size);
  }

  lemma SendInv<T>(q: Query<T>, s: Net<T>, i: nat)
    requires Inv(q, s) && Enabled(q, s, Send(i))
    ensures Inv(q, After(q, s, Send(i)))
  {
    var s' := After(q, s, Send(i));
    assert NodeOk(s.nodes[i], q.size, q.rounds);
    assert Counters(q, s');
    forall j | 0 <= j < q.size
      ensures Balanced(q, s', j)
    {
      if j == s.nodes[i].next && i != j {
        SentBalance(q, s, s', i, j);
      } else {
        SameBalance(q, s, s', j);
      }
    }
  }

  lemma ReceiveInv<T>(q: Query<T>, s: Net<T>, i: nat, m: Message<T>)
    requires Inv(q, s) && Enabled(q, s, Receive(i, m))
    ensures Inv(q, After(q, s, Receive(i, m)))
  {
    var s' := After(q, s, Receive(i, m));
    forall j | 0 <= j < q.size
      ensures Balanced(q, s', j)
    {
      SameBalance(q, s, s', j);
    }
  }

  lemma FinishInv<T>(q: Query<T>, s: Net<T>, i: nat)
    requires Inv(q, s) && Enabled(q, s, Finish(i))
    ensures Inv(q, After(q, s, Finish(i)))
  {
    var s' := After(q, s, Finish(i));
    FlattenSnoc(s.nodes[i].done, s.nodes[i].current);
    forall j | 0 <= j < q.size
      ensures Balanced(q, s', j)
    {
      SameBalance(q, s, s', j);
    }
  }

  /** Every step keeps the invariant: nothing is lost, nothing is delivered twice. */
  lemma StepInv<T>(q: Query<T>, s: Net<T>, step: Step<T>)
    requires Inv(q, s) && Enabled(q, s, step)
    ensures Inv(q, After(q, s, step))
  {
    match step
    case Send(i) => SendInv(q, s, i);
    case Receive(j, m) => ReceiveInv(q, s, j, m);
    case Finish(k) => FinishInv(q, s, k);
  }

  lemma {:induction false} RunInv<T>(q: Query<T>, states: seq<Net<T>>, steps: seq<Step<T>>, t: nat)
    requires IsRun(q, states, steps) && t < |states|
    ensures Inv(q, states[t])
  {
    if t == 0 {
      InitialInv(q, states[0]);
    } else {
      RunInv(q, states, steps, t - 1);
      StepInv(q, states[t - 1], steps[t - 1]);
    }
  }

  // ----- no run gets stuck ----------------------------------------------------------------------

  ghost predicate Finished<T>(q: Query<T>, s: Net<T>) {
    forall i :: 0 <= i < |s.nodes| ==> |s.nodes[i].done| == q.rounds
  }

  lemma {:induction false} SentRoundsSize<T>(q: Query<T>, i: nat, j: nat, rounds: nat)
    ensures |SentRounds(q, i, j, rounds)| == rounds
  {
    if rounds > 0 { SentRoundsSize(q, i, j, rounds - 1); }
  }

  lemma OthersStep(j: nat, k: nat, low: nat)
    requires k > 0
    ensures Others(j, k) * low == Others(j, k - 1) * low + (if k - 1 == j then 0 else low)
  {
    assert Others(j, k) == Others(j, k - 1) + (if k - 1 == j then 0 else 1);
  }

  /** If every node but j has sent `low` messages at least, so many have gone out in all. */
  lemma {:induction false} SumAtLeast<M>(f: nat -> multiset<M>, j: nat, k: nat, low: nat)
    requires forall x: nat :: x < k && x != j ==> |f(x)| >= low
    ensures |Sum(f, k)| >= Others(j, k) * low
  {
    if k > 0 {
      SumAtLeast(f, j, k - 1, low);
      OthersStep(j, k, low);
    }
  }

  lemma SourceAtLeast<T>(q: Query<T>, nodes: seq<Node<T>>, j: nat, low: nat, x: nat)
    requires x < |nodes| && x != j && RoundsSent(nodes[x], j) >= low
    ensures |Sources(q, nodes, j)(x)| >= low
  {
    SentRoundsSize(q, x, j, RoundsSent(nodes[x], j));
  }

  lemma SourcesAtLeast<T>(q: Query<T>, nodes: seq<Node<T>>, j: nat, low: nat, others: nat)
    requires j < |nodes| == q.size == others + 1
    requires forall x :: 0 <= x < q.size && x != j ==> RoundsSent(nodes[x], j) >= low
    ensures |Sum(Sources(q, nodes, j), q.size)| >= others * low
  {
    forall x: nat | x < q.size && x != j { SourceAtLeast(q, nodes, j, low, x); }
    SumAtLeast(Sources(q, nodes, j), j, q.size, low);
    assert Others(j, q.size) == others;
  }

  lemma ReceivedSize<T>(n: Node<T>, others: nat)
    requires forall r :: 0 <= r < |n.done| ==> |n.done[r]| == others
    ensures |Received(n)| == |n.done| * others + |n.current|
  {
    FlattenSize(n.done, others);
  }

  lemma SomethingLeft<M>(waiting: multiset<M>, got: multiset<M>, all: multiset<M>, others: nat, d: nat, now: nat)
    requires waiting + got == all && |got| == d * others + now && now < others && |all| >= others * (d + 1)
    ensures |waiting| > 0
  {
    assert |all| == |waiting| + |got|;
    assert others * (d + 1) == d * others + others;
  }

  /** An unfinished node that all others have caught up with finds a message waiting. */
  lemma MessageWaiting<T>(q: Query<T>, s: Net<T>, j: nat)
    requires Inv(q, s) && j < q.size && |s.nodes[j].current| < q.size - 1
    requires forall x :: 0 <= x < q.size && x != j ==> RoundsSent(s.nodes[x], j) >= |s.nodes[j].done| + 1
    ensures |s.inbox[j]| > 0
  {
    var n, others := s.nodes[j], q.size - 1;
    assert Balanced(q, s, j) && NodeOk(n, q.size, q.rounds);
    SourcesAtLeast(q, s.nodes, j, |n.done| + 1, others);
    ReceivedSize(n, others);
    SomethingLeft(s.inbox[j], Received(n), Sum(Sources(q, s.nodes, j), q.size), others, |n.done|, |n.current|);
  }

  /** The node that is furthest behind. */
  lemma {:induction false} FurthestBehind<T>(nodes: seq<Node<T>>) returns (m: nat)
    requires |nodes| > 0
    ensures m < |nodes| && forall x :: 0 <= x < |nodes| ==> |nodes[m].done| <= |nodes[x].done|
  {
    if |nodes| == 1 {
      m := 0;
    } else {
      m := FurthestBehind(nodes[..|nodes| - 1]);
      if |nodes[|nodes| - 1].done| < |nodes[m].done| { m := |nodes| - 1; }
    }
  }

  /** No deadlock: as long as some node has not finished, some step can be taken. */
  lemma Progress<T>(q: Query<T>, s: Net<T>) returns (step: Step<T>)
    requires Inv(q, s) && !Finished(q, s)
    ensures Enabled(q, s, step)
  {
    if i :| 0 <= i < q.size && |s.nodes[i].done| < q.rounds && s.nodes[i].next < q.size {
      step := Send(i);
    } else {
      var m := FurthestBehind(s.nodes);
      assert |s.nodes[m].done| < q.rounds;
      if |s.nodes[m].current| == q.size - 1 {
        step := Finish(m);
      } else {
        forall x | 0 <= x < q.size && x != m
          ensures RoundsSent(s.nodes[x], m) >= |s.nodes[m].done| + 1
        {
          assert |s.nodes[m].done| <= |s.nodes[x].done|;
        }
        MessageWaiting(q, s, m);
        var msg :| msg in s.inbox[m];
        step := Receive(m, msg);
      }
    }
  }

  /** Steps a node has behind it. */
  ghost function Work<T>(n: Node<T>, size: nat): nat {
    |n.done| * (2 * size) + n.next + |n.current|
  }

  ghost function TotalWork<T>(nodes: seq<Node<T>>, size: nat): nat {
    if nodes == [] then 0 else TotalWork(nodes[..|nodes| - 1], size) + Work(nodes[|nodes| - 1], size)
  }

  lemma {:induction false} WorkUpdate<T>(nodes: seq<Node<T>>, i: nat, n: Node<T>, size: nat)
    requires i < |nodes|
    ensures TotalWork(nodes[i := n], size) == TotalWork(nodes, size) - Work(nodes[i], size) + Work(n, size)
  {
    var last := |nodes| - 1;
    if i < last {
      WorkUpdate(nodes[..last], i, n, size);
      assert nodes[i := n][..last] == nodes[..last][i := n];
    } else {
      assert nodes[i := n][..last] == nodes[..last];
    }
  }

  lemma StepWorks<T>(q: Query<T>, s: Net<T>, step: Step<T>)
    requires |s.nodes| == |s.inbox| == q.size && q.size >= 2 && Enabled(q, s, step)
    ensures TotalWork(After(q, s, step).nodes, q.size) == TotalWork(s.nodes, q.size) + 1
  {
    var i := match step case Send(i) => i case Receive(j, _) => j case Finish(k) => k;
    var n, n' := s.nodes[i], After(q, s, step).nodes[i];
    assert Work(n', q.size) == Work(n, q.size) + 1 by { NextMultiple(|n.done|, 2 * q.size); }
    WorkUpdate(s.nodes, i, n', q.size);
    assert After(q, s, step).nodes == s.nodes[i := n'];
  }

  lemma {:induction false} WorkWhen<T>(nodes: seq<Node<T>>, size: nat, work: nat)
    requires forall i :: 0 <= i < |nodes| ==> Work(nodes[i], size) == work
    ensures TotalWork(nodes, size) == |nodes| * work
  {
    if nodes != [] {
      WorkWhen(nodes[..|nodes| - 1], size, work);
      assert |nodes| * work == (|nodes| - 1) * work + work;
    }
  }

  lemma {:induction false} RunWork<T>(q: Query<T>, states: seq<Net<T>>, steps: seq<Step<T>>, t: nat)
    requires IsRun(q, states, steps) && t < |states|
    ensures TotalWork(states[t].nodes, q.size) == t
  {
    if t == 0 {
      WorkWhen(states[0].nodes, q.size, 0);
    } else {
      RunWork(q, states, steps, t - 1);
      StepWorks(q, states[t - 1], steps[t - 1]);
    }
  }

  /** Every run that cannot go on has finished, and all of them take the same number of steps: N sends
      (the skipped one included), N - 1 receipts and one end of round per node and round. */
  lemma MaximalRunsFinish<T>(q: Query<T>, states: seq<Net<T>>, steps: seq<Step<T>>)
    requires IsRun(q, states, steps)
    requires forall step :: !Enabled(q, states[|steps|], step)
    ensures Finished(q, states[|steps|])
    ensures |steps| == q.size * (q.rounds * (2 * q.size))
  {
    var s := states[|steps|];
    RunInv(q, states, steps, |steps|);
    if !Finished(q, s) {
      var step := Progress(q, s);
    }
    RunWork(q, states, steps, |steps|);
    forall i | 0 <= i < q.size
      ensures Work(s.nodes[i], q.size) == q.rounds * (2 * q.size)
    {
      assert NodeOk(s.nodes[i], q.size, q.rounds);
    }
    WorkWhen(s.nodes, q.size, q.rounds * (2 * q.size));
  }

  // ----- what has been delivered ----------------------------------------------------------------

  /** What the other nodes have for node j in round r. */
  ghost function RoundMessages<T>(q: Query<T>, r: nat, j: nat): nat -> multiset<Message<T>> {
    (x: nat) => if x != j then multiset{MessageOf(q, r, x, j)} else multiset{}
  }

  lemma {:induction false} SentRoundsCount<T>(q: Query<T>, i: nat, j: nat, rounds: nat, m: Message<T>)
    ensures SentRounds(q, i, j, rounds)[m] == if m.round < rounds then multiset{MessageOf(q, m.round, i, j)}[m] else 0
  {
    if rounds > 0 { SentRoundsCount(q, i, j, rounds - 1, m); }
  }

  lemma {:induction false} SumSize<M>(f: nat -> multiset<M>, j: nat, k: nat, each: nat)
    requires forall x: nat :: x < k ==> |f(x)| == if x == j then 0 else each
    ensures |Sum(f, k)| == Others(j, k) * each
  {
    if k > 0 {
      SumSize(f, j, k - 1, each);
      OthersStep(j, k, each);
    }
  }

  lemma SourceSize<T>(q: Query<T>, s: Net<T>, j: nat, x: nat)
    requires Counters(q, s) && Finished(q, s) && x < q.size
    ensures |Sources(q, s.nodes, j)(x)| == if x == j then 0 else q.rounds
  {
    assert NodeOk(s.nodes[x], q.size, q.rounds);
    SentRoundsSize(q, x, j, RoundsSent(s.nodes[x], j));
  }

  lemma AllSent<T>(q: Query<T>, s: Net<T>, j: nat, others: nat)
    requires Counters(q, s) && Finished(q, s) && j < q.size && others == q.size - 1
    ensures |Sum(Sources(q, s.nodes, j), q.size)| == q.rounds * others
  {
    forall x: nat | x < q.size { SourceSize(q, s, j, x); }
    SumSize(Sources(q, s.nodes, j), j, q.size, q.rounds);
    assert Others(j, q.size) == others;
    Commutes(others, q.rounds);
  }

  lemma Commutes(a: int, b: int)
    ensures a * b == b * a
  {
  }

  lemma PartIsAll<M>(waiting: multiset<M>, got: multiset<M>, all: multiset<M>)
    requires waiting + got == all && |got| == |all|
    ensures waiting == multiset{} && got == all
  {
    assert |all| == |waiting| + |got|;
  }

  /** In the end every queue is empty, and node j has collected every part that was meant for it, once. */
  lemma AllDelivered<T>(q: Query<T>, s: Net<T>, j: nat)
    requires Inv(q, s) && Finished(q, s) && j < q.size
    ensures s.inbox[j] == multiset{}
    ensures multiset(Flatten(s.nodes[j].done)) == Sum(Sources(q, s.nodes, j), q.size)
  {
    assert Balanced(q, s, j) && NodeOk(s.nodes[j], q.size, q.rounds);
    var others := q.size - 1;
    AllSent(q, s, j, others);
    FlattenSize(s.nodes[j].done, others);
    var got := multiset(Flatten(s.nodes[j].done));
    assert Received(s.nodes[j]) == got;
    PartIsAll(s.inbox[j], got, Sum(Sources(q, s.nodes, j), q.size));
  }

  ghost predicate InRound<T>(n: Node<T>) {
    && (forall r, m :: 0 <= r < |n.done| && m in n.done[r] ==> m.round == r)
    && (forall m :: m in n.current ==> m.round == |n.done|)
  }

  ghost predicate AllInRound<T>(s: Net<T>) {
    forall j :: 0 <= j < |s.nodes| ==> InRound(s.nodes[j])
  }

  /** A step that takes nothing from another round than the receiver is in. */
  ghost predicate Timely<T>(s: Net<T>, step: Step<T>) {
    step.Receive? && step.j < |s.nodes| ==> step.m.round == |s.nodes[step.j].done|
  }

  lemma StepInRound<T>(q: Query<T>, s: Net<T>, step: Step<T>)
    requires Counters(q, s) && Enabled(q, s, step)
    ensures AllInRound(After(q, s, step)) <==> AllInRound(s) && Timely(s, step)
  {
    var s' := After(q, s, step);
    var i := match step case Send(i) => i case Receive(j, _) => j case Finish(k) => k;
    assert InRound(s'.nodes[i]) <==> InRound(s.nodes[i]) && Timely(s, step) by {
      var n, n' := s.nodes[i], s'.nodes[i];
      if step.Finish? {
        assert n'.done[|n.done|] == n.current;
        assert n'.done[..|n.done|] == n.done;
      } else if step.Receive? {
        assert step.m in n'.current;
      }
    }
    assert forall j :: 0 <= j < |s.nodes| && j != i ==> s'.nodes[j] == s.nodes[j];
  }

  lemma {:induction false} RunInRound<T>(q: Query<T>, states: seq<Net<T>>, steps: seq<Step<T>>, t: nat)
    requires IsRun(q, states, steps) && t < |states|
    ensures AllInRound(states[t]) <==> forall u :: 0 <= u < t ==> Timely(states[u], steps[u])
  {
    if t > 0 {
      RunInRound(q, states, steps, t - 1);
      RunInv(q, states, steps, t - 1);
      StepInRound(q, states[t - 1], steps[t - 1]);
    }
  }

  /** Node j holds, round by round, exactly what the others had for it in that round. */
  ghost predicate RoundsCorrect<T>(q: Query<T>, n: Node<T>, j: nat) {
    forall r :: 0 <= r < |n.done| ==> multiset(n.done[r]) == Sum(RoundMessages(q, r, j), q.size)
  }

  lemma SourceCount<T>(q: Query<T>, s: Net<T>, j: nat, m: Message<T>, x: nat)
    requires Counters(q, s) && Finished(q, s) && m.round < q.rounds && x < q.size
    ensures Sources(q, s.nodes, j)(x)[m] == RoundMessages(q, m.round, j)(x)[m]
  {
    assert NodeOk(s.nodes[x], q.size, q.rounds);
    SentRoundsCount(q, x, j, q.rounds, m);
  }

  lemma OwnRoundCount<T>(q: Query<T>, s: Net<T>, j: nat, m: Message<T>)
    requires Inv(q, s) && Finished(q, s) && j < q.size && m.round < q.rounds && InRound(s.nodes[j])
    ensures multiset(s.nodes[j].done[m.round])[m] == Sum(RoundMessages(q, m.round, j), q.size)[m]
  {
    FlattenCount(s.nodes[j].done, m.round, m);
    AllDelivered(q, s, j);
    forall x: nat | x < q.size { SourceCount(q, s, j, m, x); }
    SumCount(Sources(q, s.nodes, j), RoundMessages(q, m.round, j), q.size, m);
  }

  lemma OtherRoundCount<T>(q: Query<T>, j: nat, r: nat, m: Message<T>)
    requires m.round != r
    ensures Sum(RoundMessages(q, r, j), q.size)[m] == 0
  {
    if m in Sum(RoundMessages(q, r, j), q.size) {
      var x := SumHas(RoundMessages(q, r, j), q.size, m);
    }
  }

  lemma SameCounts<M(!new)>(a: multiset<M>, b: multiset<M>)
    requires forall m: M :: a[m] == b[m]
    ensures a == b
  {
  }

  lemma RoundContents<T(!new)>(q: Query<T>, s: Net<T>, j: nat, r: nat)
    requires Inv(q, s) && Finished(q, s) && j < q.size && r < q.rounds && InRound(s.nodes[j])
    ensures multiset(s.nodes[j].done[r]) == Sum(RoundMessages(q, r, j), q.size)
  {
    var n := s.nodes[j];
    forall m: Message<T>
      ensures multiset(n.done[r])[m] == Sum(RoundMessages(q, r, j), q.size)[m]
    {
      if m.round == r {
        OwnRoundCount(q, s, j, m);
      } else {
        OtherRoundCount(q, j, r, m);
        assert m !in n.done[r];
      }
    }
    SameCounts(multiset(n.done[r]), Sum(RoundMessages(q, r, j), q.size));
  }

  /** A finished query has the right parts in the right rounds on every node if and only if no node ever
      took a message of another round than its own. */
  lemma RoundsCorrectIff<T(!new)>(q: Query<T>, states: seq<Net<T>>, steps: seq<Step<T>>)
    requires IsRun(q, states, steps) && Finished(q, states[|steps|])
    ensures (forall j :: 0 <= j < q.size ==> RoundsCorrect(q, states[|steps|].nodes[j], j))
       <==> (forall t :: 0 <= t < |steps| ==> Timely(states[t], steps[t]))
  {
    var s := states[|steps|];
    RunInv(q, states, steps, |steps|);
    RunInRound(q, states, steps, |steps|);
    if AllInRound(s) {
      forall j | 0 <= j < q.size
        ensures RoundsCorrect(q, s.nodes[j], j)
      {
        forall r | 0 <= r < q.rounds { RoundContents(q, s, j, r); }
      }
    }
    if forall j :: 0 <= j < q.size ==> RoundsCorrect(q, s.nodes[j], j) {
      forall j | 0 <= j < q.size
        ensures InRound(s.nodes[j])
      {
        assert NodeOk(s.nodes[j], q.size, q.rounds);
        forall r, m | 0 <= r < |s.nodes[j].done| && m in s.nodes[j].done[r]
          ensures m.round == r
        {
          assert m in multiset(s.nodes[j].done[r]);
          var x := SumHas(RoundMessages(q, r, j), q.size, m);
        }
      }
    }
  }

  /** With one round there is nothing to confuse: every interleaving delivers every part to its owner. */
  lemma OneRoundDelivers<T>(q: Query<T>, states: seq<Net<T>>, steps: seq<Step<T>>, j: nat)
    requires IsRun(q, states, steps) && q.rounds == 1 && Finished(q, states[|steps|]) && j < q.size
    ensures states[|steps|].inbox[j] == multiset{}
    ensures multiset(states[|steps|].nodes[j].done[0]) == Sum(RoundMessages(q, 0, j), q.size)
  {
    var s := states[|steps|];
    RunInv(q, states, steps, |steps|);
    AllDelivered(q, s, j);
    assert s.nodes[j].done == [s.nodes[j].done[0]];
    assert Flatten(s.nodes[j].done[..0]) == [];
    forall x: nat | x < q.size
      ensures Sources(q, s.nodes, j)(x) == RoundMessages(q, 0, j)(x)
    {
      assert NodeOk(s.nodes[x], q.size, q.rounds);
      assert SentRounds(q, x, j, 1) == SentRounds(q, x, j, 0) + multiset{MessageOf(q, 0, x, j)};
    }
    SumSame(Sources(q, s.nodes, j), RoundMessages(q, 0, j), q.size);
  }

  // ----- why more than one round needs care -----------------------------------------------------

  ghost predicate Reaches<T>(q: Query<T>, states: seq<Net<T>>, steps: seq<Step<T>>, s: Net<T>) {
    IsRun(q, states, steps) && states[|steps|] == s
  }

  /** Some run ends in s. */
  ghost predicate Reachable<T(!new)>(q: Query<T>, s: Net<T>) {
    exists states, steps :: Reaches(q, states, steps, s)
  }

  lemma Extend<T(!new)>(q: Query<T>, s: Net<T>, step: Step<T>) returns (s': Net<T>)
    requires Reachable(q, s) && |s.nodes| == |s.inbox| == q.size && Enabled(q, s, step)
    ensures s' == After(q, s, step) && |s'.nodes| == |s'.inbox| == q.size && Reachable(q, s')
  {
    var states, steps :| Reaches(q, states, steps, s);
    s' := After(q, s, step);
    assert Reaches(q, states + [s'], steps + [step], s');
  }

  /** Node i goes on sending until the part for node `upTo` is the next one. */
  lemma {:induction false} SendUpTo<T(!new)>(q: Query<T>, s: Net<T>, i: nat, upTo: nat) returns (s': Net<T>)
    requires Reachable(q, s) && |s.nodes| == |s.inbox| == q.size && i < q.size
    requires |s.nodes[i].done| < q.rounds && s.nodes[i].next <= upTo <= q.size
    ensures Reachable(q, s') && s'.nodes == s.nodes[i := s.nodes[i].(next := upTo)] && |s'.inbox| == q.size
    ensures forall k, m :: 0 <= k < q.size && m in s.inbox[k] ==> m in s'.inbox[k]
    ensures forall k :: s.nodes[i].next <= k < upTo && k != i ==> MessageOf(q, |s.nodes[i].done|, i, k) in s'.inbox[k]
    decreases upTo - s.nodes[i].next
  {
    if s.nodes[i].next == upTo {
      s' := s;
    } else {
      var next := Extend(q, s, Send(i));
      s' := SendUpTo(q, next, i, upTo);
    }
  }

  // ----- every run can be finished --------------------------------------------------------------

  lemma WorkOfNode<T>(n: Node<T>, size: nat, rounds: nat)
    requires size >= 2 && NodeOk(n, size, rounds)
    ensures Work(n, size) <= rounds * (2 * size)
    ensures |n.done| < rounds ==> Work(n, size) < rounds * (2 * size)
  {
    if |n.done| < rounds {
      NextMultiple(|n.done|, 2 * size);
      assert (|n.done| + 1) * (2 * size) <= rounds * (2 * size) by { MulMonotone(|n.done| + 1, rounds, 2 * size); }
    }
  }

  lemma {:induction false} WorkAtMost<T>(nodes: seq<Node<T>>, size: nat, work: nat)
    requires forall i :: 0 <= i < |nodes| ==> Work(nodes[i], size) <= work
    ensures TotalWork(nodes, size) <= |nodes| * work
    ensures (exists i :: 0 <= i < |nodes| && Work(nodes[i], size) < work) ==> TotalWork(nodes, size) < |nodes| * work
  {
    if nodes != [] {
      WorkAtMost(nodes[..|nodes| - 1], size, work);
      assert |nodes| * work == (|nodes| - 1) * work + work;
    }
  }

  lemma WorkLeft<T>(q: Query<T>, s: Net<T>)
    requires Inv(q, s) && !Finished(q, s)
    ensures TotalWork(s.nodes, q.size) < q.size * (q.rounds * (2 * q.size))
  {
    forall i | 0 <= i < q.size
      ensures Work(s.nodes[i], q.size) <= q.rounds * (2 * q.size)
    {
      WorkOfNode(s.nodes[i], q.size, q.rounds);
    }
    var i :| 0 <= i < |s.nodes| && |s.nodes[i].done| != q.rounds;
    assert NodeOk(s.nodes[i], q.size, q.rounds);
    WorkOfNode(s.nodes[i], q.size, q.rounds);
    WorkAtMost(s.nodes, q.size, q.rounds * (2 * q.size));
  }

  /** What later steps leave alone: finished rounds, and messages held out of their round. */
  ghost predicate Later<T>(s: Net<T>, s': Net<T>) {
    && |s'.nodes| == |s.nodes| && (forall j :: 0 <= j < |s.nodes| ==> s.nodes[j].done <= s'.nodes[j].done)
    && (AllInRound(s') ==> AllInRound(s))
  }

  /** Every state of every run can be run to the end; what went wrong before stays wrong. */
  lemma {:induction false} CanFinish<T(!new)>(q: Query<T>, s: Net<T>) returns (s': Net<T>)
    requires Reachable(q, s) && Inv(q, s)
    ensures Reachable(q, s') && Inv(q, s') && Finished(q, s') && Later(s, s')
    decreases q.size * (q.rounds * (2 * q.size)) - TotalWork(s.nodes, q.size)
  {
    if Finished(q, s) {
      s' := s;
    } else {
      var step := Progress(q, s);
      WorkLeft(q, s);
      StepWorks(q, s, step);
      StepInv(q, s, step);
      StepInRound(q, s, step);
      var next := Extend(q, s, step);
      assert Later(s, next);
      s' := CanFinish(q, next);
    }
  }

  lemma ReachableInv<T(!new)>(q: Query<T>, s: Net<T>)
    requires Reachable(q, s)
    ensures Inv(q, s)
  {
    var states, steps :| Reaches(q, states, steps, s);
    RunInv(q, states, steps, |steps|);
  }

  // ----- when every run is right ----------------------------------------------------------------

  /** The initial state. */
  ghost function Start<T>(q: Query<T>): (s: Net<T>)
    ensures |s.nodes| == |s.inbox| == q.size && Initial(q, s)
  {
    Net(seq(q.size, i => Node([], 0, [])), seq(q.size, i => multiset{}))
  }

  lemma StartReachable<T(!new)>(q: Query<T>)
    requires q.size >= 2
    ensures Reachable(q, Start(q))
  {
    assert Reaches(q, [Start(q)], [], Start(q));
  }

  /** The first k nodes have sent all their parts of the first round, the others nothing. */
  ghost predicate SentBy<T>(q: Query<T>, s: Net<T>, k: nat) {
    && |s.nodes| == |s.inbox| == q.size
    && (forall i :: 0 <= i < q.size ==> s.nodes[i] == Node([], if i < k then q.size else 0, []))
    && (forall i :: 1 <= i < k && i < q.size ==> MessageOf(q, 0, i, 0) in s.inbox[0])
  }

  lemma {:induction false} AllSend<T(!new)>(q: Query<T>, k: nat) returns (s: Net<T>)
    requires q.size >= 2 && q.rounds >= 1 && k <= q.size
    ensures Reachable(q, s) && SentBy(q, s, k)
  {
    if k == 0 {
      s := Start(q);
      StartReachable(q);
    } else {
      var before := AllSend(q, k - 1);
      s := SendUpTo(q, before, k - 1, q.size);
    }
  }

  /** Node 0 has received from the first k of the others; the rest still waits. */
  ghost predicate ReceivedFrom<T>(q: Query<T>, s: Net<T>, k: nat) {
    && |s.nodes| == |s.inbox| == q.size && q.size >= 2
    && s.nodes[0].done == [] && s.nodes[0].next == q.size && |s.nodes[0].current| == k
    && s.nodes[1] == Node([], q.size, [])
    && (forall i :: k < i < q.size ==> MessageOf(q, 0, i, 0) in s.inbox[0])
  }

  lemma {:induction false} NodeZeroReceives<T(!new)>(q: Query<T>, k: nat) returns (s: Net<T>)
    requires q.size >= 2 && q.rounds >= 1 && k < q.size
    ensures Reachable(q, s) && ReceivedFrom(q, s, k)
  {
    if k == 0 {
      s := AllSend(q, q.size);
    } else {
      var before := NodeZeroReceives(q, k - 1);
      s := Extend(q, before, Receive(0, MessageOf(q, 0, k, 0)));
    }
  }

  /** With two rounds or more, some finished run holds a message in the wrong round: node 0 is through with
      the first round, sends on, and node 1 takes that message first. */
  lemma SomeRunMixes<T(!new)>(q: Query<T>) returns (s: Net<T>)
    requires q.size >= 2 && q.rounds >= 2
    ensures Reachable(q, s) && Inv(q, s) && Finished(q, s) && !AllInRound(s)
  {
    s := NodeZeroReceives(q, q.size - 1);
    s := Extend(q, s, Finish(0));
    s := SendUpTo(q, s, 0, 2);
    var early := MessageOf(q, 1, 0, 1);
    s := Extend(q, s, Receive(1, early));
    assert early in s.nodes[1].current && !InRound(s.nodes[1]);
    ReachableInv(q, s);
    s := CanFinish(q, s);
  }

  ghost predicate AllRoundsCorrect<T>(q: Query<T>, s: Net<T>) {
    forall j :: 0 <= j < |s.nodes| ==> RoundsCorrect(q, s.nodes[j], j)
  }

  lemma OneRoundInRound<T(!new)>(q: Query<T>, s: Net<T>)
    requires Reachable(q, s) && Finished(q, s) && q.rounds <= 1
    ensures AllRoundsCorrect(q, s)
  {
    var states, steps :| Reaches(q, states, steps, s);
    forall j | 0 <= j < |s.nodes|
      ensures RoundsCorrect(q, s.nodes[j], j)
    {
      if q.rounds == 1 { OneRoundDelivers(q, states, steps, j); }
    }
  }

  /** However many nodes and whatever the parts: all runs of a query deliver the right parts in the right
      rounds if and only if the query has no more than one round. */
  lemma AlwaysCorrectIff<T(!new)>(q: Query<T>)
    requires q.size >= 2
    ensures (forall s :: Reachable(q, s) && Finished(q, s) ==> AllRoundsCorrect(q, s)) <==> q.rounds <= 1
  {
    if q.rounds <= 1 {
      forall s | Reachable(q, s) && Finished(q, s)
        ensures AllRoundsCorrect(q, s)
      {
        OneRoundInRound(q, s);
      }
    } else {
      var s := SomeRunMixes(q);
      var states, steps :| Reaches(q, states, steps, s);
      RoundsCorrectIff(q, states, steps);
      RunInRound(q, states, steps, |steps|);
      assert !AllRoundsCorrect(q, s);
    }
  }

  // ----- and some run is right ------------------------------------------------------------------

  lemma {:induction false} SumCountAtLeast<M>(f: nat -> multiset<M>, k: nat, x: nat, m: M)
    requires x < k
    ensures Sum(f, k)[m] >= f(x)[m]
  {
    if x < k - 1 { SumCountAtLeast(f, k - 1, x, m); }
  }

  ghost function Elements<M>(s: seq<M>): set<M> {
    set m | m in s
  }

  lemma {:induction false} FewElements<M>(s: seq<M>)
    ensures |Elements(s)| <= |s|
  {
    if s != [] {
      var last := |s| - 1;
      FewElements(s[..last]);
      assert s == s[..last] + [s[last]];
      assert Elements(s) == Elements(s[..last]) + {s[last]};
    }
  }

  /** The messages the first k nodes have for node j in round r, node j's own left out. */
  ghost function Expected<T>(q: Query<T>, r: nat, j: nat, k: nat): set<Message<T>> {
    if k == 0 then {} else Expected(q, r, j, k - 1) + (if k - 1 == j then {} else {MessageOf(q, r, k - 1, j)})
  }

  lemma {:induction false} ExpectedFrom<T>(q: Query<T>, r: nat, j: nat, k: nat, m: Message<T>)
    requires m in Expected(q, r, j, k)
    ensures m.sender < k && m.sender != j && m == MessageOf(q, r, m.sender, j)
  {
    if m in Expected(q, r, j, k - 1) { ExpectedFrom(q, r, j, k - 1, m); }
  }

  lemma {:induction false} ExpectedSize<T>(q: Query<T>, r: nat, j: nat, k: nat)
    ensures |Expected(q, r, j, k)| == Others(j, k)
  {
    if k > 0 {
      ExpectedSize(q, r, j, k - 1);
      var m := MessageOf(q, r, k - 1, j);
      if m in Expected(q, r, j, k - 1) { ExpectedFrom(q, r, j, k - 1, m); }
    }
  }

  /** As long as node j has fewer than N - 1 messages, it lacks that of some other node. */
  lemma SomeoneMissing<T>(q: Query<T>, r: nat, j: nat, current: seq<Message<T>>) returns (x: nat)
    requires j < q.size && |current| < q.size - 1
    ensures x < q.size && x != j && MessageOf(q, r, x, j) !in current
  {
    ExpectedSize(q, r, j, q.size);
    FewElements(current);
    var expected := Expected(q, r, j, q.size);
    assert !(expected <= Elements(current)) by {
      if expected <= Elements(current) { SubsetSize(expected, Elements(current)); }
    }
    var m :| m in expected && m !in Elements(current);
    ExpectedFrom(q, r, j, q.size, m);
    x := m.sender;
  }

  lemma {:induction false} SubsetSize<M>(a: set<M>, b: set<M>)
    requires a <= b
    ensures |a| <= |b|
  {
    if a != {} {
      var m :| m in a;
      SubsetSize(a - {m}, b - {m});
    }
  }

  lemma SentIsThere<T>(q: Query<T>, nodes: seq<Node<T>>, j: nat, x: nat, r: nat)
    requires |nodes| == q.size && x < q.size && x != j && RoundsSent(nodes[x], j) > r
    ensures Sum(Sources(q, nodes, j), q.size)[MessageOf(q, r, x, j)] >= 1
  {
    SentRoundsCount(q, x, j, RoundsSent(nodes[x], j), MessageOf(q, r, x, j));
    SumCountAtLeast(Sources(q, nodes, j), q.size, x, MessageOf(q, r, x, j));
  }

  lemma NotReceived<T>(n: Node<T>, m: Message<T>)
    requires InRound(n) && m.round == |n.done| && m !in n.current
    ensures Received(n)[m] == 0
  {
    FlattenHas(n.done, m);
    assert m !in multiset(Flatten(n.done)) && m !in multiset(n.current);
  }

  lemma Waiting<M>(waiting: multiset<M>, got: multiset<M>, all: multiset<M>, m: M)
    requires waiting + got == all && got[m] == 0 && all[m] >= 1
    ensures m in waiting
  {
    assert (waiting + got)[m] == waiting[m] + got[m];
  }

  /** What a node lacks of its round and has been sent is waiting, if it holds nothing out of its round. */
  lemma MissingWaits<T>(q: Query<T>, s: Net<T>, j: nat, x: nat)
    requires Inv(q, s) && j < q.size && x < q.size && x != j && InRound(s.nodes[j])
    requires RoundsSent(s.nodes[x], j) > |s.nodes[j].done|
    requires MessageOf(q, |s.nodes[j].done|, x, j) !in s.nodes[j].current
    ensures MessageOf(q, |s.nodes[j].done|, x, j) in s.inbox[j]
  {
    var m := MessageOf(q, |s.nodes[j].done|, x, j);
    SentIsThere(q, s.nodes, j, x, |s.nodes[j].done|);
    NotReceived(s.nodes[j], m);
    assert Balanced(q, s, j);
    Waiting(s.inbox[j], Received(s.nodes[j]), Sum(Sources(q, s.nodes, j), q.size), m);
  }

  /** There is always a step that takes nothing out of its round. */
  lemma TimelyProgress<T>(q: Query<T>, s: Net<T>) returns (step: Step<T>)
    requires Inv(q, s) && AllInRound(s) && !Finished(q, s)
    ensures Enabled(q, s, step) && Timely(s, step)
  {
    if i :| 0 <= i < q.size && |s.nodes[i].done| < q.rounds && s.nodes[i].next < q.size {
      step := Send(i);
    } else {
      var j := FurthestBehind(s.nodes);
      assert NodeOk(s.nodes[j], q.size, q.rounds);
      if |s.nodes[j].current| == q.size - 1 {
        step := Finish(j);
      } else {
        var x := SomeoneMissing(q, |s.nodes[j].done|, j, s.nodes[j].current);
        assert |s.nodes[j].done| <= |s.nodes[x].done|;
        MissingWaits(q, s, j, x);
        step := Receive(j, MessageOf(q, |s.nodes[j].done|, x, j));
      }
    }
  }

  lemma {:induction false} CanFinishInRound<T(!new)>(q: Query<T>, s: Net<T>) returns (s': Net<T>)
    requires Reachable(q, s) && Inv(q, s) && AllInRound(s)
    ensures Reachable(q, s') && Inv(q, s') && Finished(q, s') && AllInRound(s')
    decreases q.size * (q.rounds * (2 * q.size)) - TotalWork(s.nodes, q.size)
  {
    if Finished(q, s) {
      s' := s;
    } else {
      var step := TimelyProgress(q, s);
      WorkLeft(q, s);
      StepWorks(q, s, step);
      StepInv(q, s, step);
      StepInRound(q, s, step);
      var next := Extend(q, s, step);
      s' := CanFinishInRound(q, next);
    }
  }

  /** Whatever the number of rounds, some run delivers all parts in their rounds. */
  lemma SomeRunIsCorrect<T(!new)>(q: Query<T>) returns (s: Net<T>)
    requires q.size >= 2
    ensures Reachable(q, s) && Finished(q, s) && AllRoundsCorrect(q, s)
  {
    s := Start(q);
    StartReachable(q);
    ReachableInv(q, s);
    s := CanFinishInRound(q, s);
    var states, steps :| Reaches(q, states, steps, s);
    RunInRound(q, states, steps, |steps|);
    RoundsCorrectIff(q, states, steps);
    assert forall j :: 0 <= j < q.size ==> RoundsCorrect(q, s.nodes[j], j);
  }

  // ----- rounds kept apart ----------------------------------------------------------------------

  /** Nobody starts sending in a round before everybody has finished those before. */
  ghost predicate BehindBarrier<T>(s: Net<T>, step: Step<T>) {
    step.Send? && step.i < |s.nodes| ==>
      forall j :: 0 <= j < |s.nodes| ==> |s.nodes[j].done| >= |s.nodes[step.i].done|
  }

  /** What waits is of no later round than anybody is in, and what is held is of its round. */
  ghost predicate Apart<T>(s: Net<T>) {
    && AllInRound(s) && |s.nodes| == |s.inbox|
    && forall j, k, m :: 0 <= j < |s.nodes| && 0 <= k < |s.nodes| && m in s.inbox[k] ==> m.round <= |s.nodes[j].done|
  }

  lemma SourceCountAtMost<T>(q: Query<T>, nodes: seq<Node<T>>, j: nat, x: nat, m: Message<T>)
    requires x < |nodes|
    ensures Sources(q, nodes, j)(x)[m] <= (if m.sender == x && x != j then 1 else 0)
    ensures m in Sources(q, nodes, j)(x) ==> m == MessageOf(q, m.round, m.sender, j)
  {
    if x != j { SentRoundsCount(q, x, j, RoundsSent(nodes[x], j), m); }
  }

  lemma {:induction false} SumCountOne<M>(f: nat -> multiset<M>, k: nat, sender: nat, m: M)
    requires forall x: nat :: x < k ==> f(x)[m] <= if x == sender then 1 else 0
    ensures Sum(f, k)[m] <= if sender < k then 1 else 0
  {
    if k > 0 { SumCountOne(f, k - 1, sender, m); }
  }

  lemma SumCountAtMost<T>(q: Query<T>, nodes: seq<Node<T>>, j: nat, k: nat, m: Message<T>)
    requires k <= |nodes|
    ensures Sum(Sources(q, nodes, j), k)[m] <= 1
    ensures m in Sum(Sources(q, nodes, j), k) ==>
              m.sender < k && m.sender != j && m == MessageOf(q, m.round, m.sender, j)
  {
    forall x: nat | x < k { SourceCountAtMost(q, nodes, j, x, m); }
    SumCountOne(Sources(q, nodes, j), k, m.sender, m);
    if m in Sum(Sources(q, nodes, j), k) {
      var x := SumHas(Sources(q, nodes, j), k, m);
    }
  }

  lemma {:induction false} ExpectedHas<T>(q: Query<T>, r: nat, j: nat, k: nat, m: Message<T>)
    requires m.sender < k && m.sender != j && m == MessageOf(q, r, m.sender, j)
    ensures m in Expected(q, r, j, k)
  {
    if m.sender < k - 1 { ExpectedHas(q, r, j, k - 1, m); }
  }

  lemma {:induction false} AllDifferent<M>(s: seq<M>)
    requires forall m :: m in s ==> multiset(s)[m] == 1
    ensures |Elements(s)| == |s|
  {
    if s != [] {
      var last := |s| - 1;
      assert s == s[..last] + [s[last]];
      forall m | m in s[..last]
        ensures multiset(s[..last])[m] == 1
      {
        assert multiset(s)[m] == multiset(s[..last])[m] + multiset{s[last]}[m];
      }
      assert multiset(s)[s[last]] == multiset(s[..last])[s[last]] + 1;
      AllDifferent(s[..last]);
      assert Elements(s) == Elements(s[..last]) + {s[last]} && s[last] !in Elements(s[..last]);
    }
  }

  /** A message of a finished round has been taken: N - 1 others of that round have, and there are no more. */
  lemma NoneLeftOver<T>(q: Query<T>, s: Net<T>, j: nat, m: Message<T>)
    requires Inv(q, s) && j < q.size && InRound(s.nodes[j]) && m in s.inbox[j]
    ensures m.round >= |s.nodes[j].done|
  {
    var n := s.nodes[j];
    if m.round < |n.done| {
      var round := n.done[m.round];
      assert Balanced(q, s, j) && NodeOk(n, q.size, q.rounds);
      var sum := Sum(Sources(q, s.nodes, j), q.size);
      assert sum == s.inbox[j] + Received(n);
      forall x | x in round
        ensures multiset(round)[x] == 1 && x in Expected(q, m.round, j, q.size)
      {
        HeldOnce(q, s, j, m.round, x);
      }
      WaitingNotHeld(q, s, j, m);
      AllDifferent(round);
      SumCountAtMost(q, s.nodes, j, q.size, m);
      ExpectedHas(q, m.round, j, q.size, m);
      ExpectedSize(q, m.round, j, q.size);
      assert Elements(round) <= Expected(q, m.round, j, q.size) - {m};
      SubsetSize(Elements(round), Expected(q, m.round, j, q.size) - {m});
    }
  }

  lemma ReceivedAtLeast<T>(n: Node<T>, r: nat, x: Message<T>)
    requires r < |n.done| && InRound(n) && x in n.done[r]
    ensures Received(n)[x] >= multiset(n.done[r])[x]
  {
    FlattenCount(n.done, r, x);
  }

  lemma HeldOnce<T>(q: Query<T>, s: Net<T>, j: nat, r: nat, x: Message<T>)
    requires Inv(q, s) && j < q.size && InRound(s.nodes[j]) && r < |s.nodes[j].done| && x in s.nodes[j].done[r]
    ensures multiset(s.nodes[j].done[r])[x] == 1 && x in Expected(q, r, j, q.size)
  {
    assert Balanced(q, s, j) && x.round == r;
    ReceivedAtLeast(s.nodes[j], r, x);
    SumCountAtMost(q, s.nodes, j, q.size, x);
    ExpectedHas(q, r, j, q.size, x);
  }

  lemma WaitingNotHeld<T>(q: Query<T>, s: Net<T>, j: nat, m: Message<T>)
    requires Inv(q, s) && j < q.size && InRound(s.nodes[j]) && m in s.inbox[j] && m.round < |s.nodes[j].done|
    ensures m !in s.nodes[j].done[m.round]
  {
    assert Balanced(q, s, j);
    SumCountAtMost(q, s.nodes, j, q.size, m);
    assert (s.inbox[j] + Received(s.nodes[j]))[m] == s.inbox[j][m] + Received(s.nodes[j])[m];
    if m in s.nodes[j].done[m.round] {
      ReceivedAtLeast(s.nodes[j], m.round, m);
    }
  }

  lemma BarrierStep<T>(q: Query<T>, s: Net<T>, step: Step<T>)
    requires Inv(q, s) && Apart(s) && Enabled(q, s, step) && BehindBarrier(s, step)
    ensures Timely(s, step) && Apart(After(q, s, step))
  {
    if step.Receive? {
      NoneLeftOver(q, s, step.j, step.m);
    }
    StepInRound(q, s, step);
    var s' := After(q, s, step);
    forall j, k, m | 0 <= j < |s'.nodes| && 0 <= k < |s'.nodes| && m in s'.inbox[k]
      ensures m.round <= |s'.nodes[j].done|
    {
      assert |s'.nodes[j].done| >= |s.nodes[j].done|;
      if m !in s.inbox[k] { assert step.Send? && m.round == |s.nodes[step.i].done|; }
    }
  }

  lemma {:induction false} BarrierRun<T>(q: Query<T>, states: seq<Net<T>>, steps: seq<Step<T>>, t: nat)
    requires IsRun(q, states, steps) && t < |states|
    requires forall u :: 0 <= u < |steps| ==> BehindBarrier(states[u], steps[u])
    ensures Apart(states[t]) && forall u :: 0 <= u < t ==> Timely(states[u], steps[u])
  {
    if t > 0 {
      BarrierRun(q, states, steps, t - 1);
      RunInv(q, states, steps, t - 1);
      BarrierStep(q, states[t - 1], steps[t - 1]);
    }
  }

  /** Behind a barrier any number of rounds ends right: sort and aggregation have one, because nobody can cut up
      its rows before the master has the samples of all, and nobody samples before it is through with what
      came before. */
  lemma BarrierIsCorrect<T(!new)>(q: Query<T>, states: seq<Net<T>>, steps: seq<Step<T>>)
    requires IsRun(q, states, steps) && Finished(q, states[|steps|])
    requires forall t :: 0 <= t < |steps| ==> BehindBarrier(states[t], steps[t])
    ensures AllRoundsCorrect(q, states[|steps|])
  {
    BarrierRun(q, states, steps, |steps|);
    RoundsCorrectIff(q, states, steps);
  }

  /** There is always a step behind the barrier. */
  lemma BarrierProgress<T>(q: Query<T>, s: Net<T>) returns (step: Step<T>)
    requires Inv(q, s) && Apart(s) && !Finished(q, s)
    ensures Enabled(q, s, step) && BehindBarrier(s, step)
  {
    if i :| 0 <= i < q.size && s.nodes[i].next < q.size
            && forall j :: 0 <= j < q.size ==> |s.nodes[i].done| <= |s.nodes[j].done| {
      var f :| 0 <= f < |s.nodes| && |s.nodes[f].done| != q.rounds;
      assert NodeOk(s.nodes[f], q.size, q.rounds);
      step := Send(i);
    } else {
      var j := FurthestBehind(s.nodes);
      step := StepOfLast(q, s, j);
    }
  }

  /** If all nodes in the earliest round have sent, the first of them can go on. */
  lemma StepOfLast<T>(q: Query<T>, s: Net<T>, j: nat) returns (step: Step<T>)
    requires Inv(q, s) && AllInRound(s) && !Finished(q, s) && j < q.size
    requires forall x :: 0 <= x < q.size ==> |s.nodes[j].done| <= |s.nodes[x].done|
    requires forall x :: 0 <= x < q.size && |s.nodes[x].done| == |s.nodes[j].done| ==> s.nodes[x].next == q.size
    ensures Enabled(q, s, step) && !step.Send?
  {
    var f :| 0 <= f < |s.nodes| && |s.nodes[f].done| != q.rounds;
    assert NodeOk(s.nodes[f], q.size, q.rounds) && NodeOk(s.nodes[j], q.size, q.rounds);
    if |s.nodes[j].current| == q.size - 1 {
      step := Finish(j);
    } else {
      var x := SomeoneMissing(q, |s.nodes[j].done|, j, s.nodes[j].current);
      MissingWaits(q, s, j, x);
      step := Receive(j, MessageOf(q, |s.nodes[j].done|, x, j));
    }
  }

  // ----- order of sending does not help ---------------------------------------------------------

  /** All three nodes send, but node 2 not yet to node 1. */
  lemma NodeTwoSlow<T(!new)>(q: Query<T>) returns (s: Net<T>)
    requires q.size == 3 && q.rounds >= 2
    ensures Reachable(q, s) && |s.nodes| == |s.inbox| == 3
    ensures s.nodes[0] == s.nodes[1] == Node([], 3, [])
    ensures MessageOf(q, 0, 0, 1) in s.inbox[1]
    ensures MessageOf(q, 0, 1, 0) in s.inbox[0] && MessageOf(q, 0, 2, 0) in s.inbox[0]
  {
    s := AllSend(q, 0);
    s := SendUpTo(q, s, 0, 3);
    s := SendUpTo(q, s, 1, 3);
    s := SendUpTo(q, s, 2, 1);
  }

  /** Node 0 can complete its first round all the same. */
  lemma NodeZeroAhead<T(!new)>(q: Query<T>) returns (s: Net<T>)
    requires q.size == 3 && q.rounds >= 2
    ensures Reachable(q, s) && |s.nodes| == |s.inbox| == 3
    ensures |s.nodes[0].done| == 1 && s.nodes[0].next == 0 && s.nodes[1] == Node([], 3, [])
    ensures MessageOf(q, 0, 0, 1) in s.inbox[1]
  {
    s := NodeTwoSlow(q);
    s := Extend(q, s, Receive(0, MessageOf(q, 0, 1, 0)));
    s := Extend(q, s, Receive(0, MessageOf(q, 0, 2, 0)));
    s := Extend(q, s, Finish(0));
  }

  /** Taking messages in the order in which they were sent is not enough: with three nodes, node 2 is slow to
      send to node 1, and node 0, already in its second round, fills the gap. In the end node 1 has taken both
      messages of its first round from node 0, in the order in which they were sent. */
  lemma RoundsCanMix<T(!new)>(q: Query<T>) returns (s: Net<T>)
    requires q.size == 3 && q.rounds >= 2
    ensures Reachable(q, s) && Finished(q, s) && |s.nodes| == 3 && |s.nodes[1].done| == q.rounds
    ensures s.nodes[1].done[0] == [MessageOf(q, 0, 0, 1), MessageOf(q, 1, 0, 1)]
  {
    var mixed := [MessageOf(q, 0, 0, 1), MessageOf(q, 1, 0, 1)];
    s := NodeZeroAhead(q);
    s := SendUpTo(q, s, 0, 2);
    s := Extend(q, s, Receive(1, mixed[0]));
    s := Extend(q, s, Receive(1, mixed[1]));
    assert s.nodes[1].current == mixed;
    s := Extend(q, s, Finish(1));
    var before := s;
    assert before.nodes[1].done == [mixed];
    ReachableInv(q, s);
    s := CanFinish(q, s);
    assert before.nodes[1].done <= s.nodes[1].done;
  }
}
