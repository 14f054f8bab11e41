/** Everybody sends one part to the master, which waits for all of them: the exchange of an aggregation
    without groups (src/operators/GroupBy.cpp). */
module MasterCollects {
  import opened Basics
  import opened Collections

  /** Who has sent, what waits at the master, and what the master has taken. */
  datatype Gathering<R(==)> = Gathering(sent: seq<bool>, queue: multiset<R>, got: seq<R>)

  datatype Step<R> = Send(i: nat) | Take(part: R)

  ghost predicate Initial<R>(s: Gathering<R>, parts: seq<R>) {
    && s.queue == multiset{} && s.got == []
    && |s.sent| == |parts| && forall i :: 0 <= i < |s.sent| ==> !s.sent[i]
  }

  ghost predicate Enabled<R>(s: Gathering<R>, parts: seq<R>, master: nat, step: Step<R>) {
    match step
    case Send(i) => i < |parts| && i < |s.sent| && i != master && !s.sent[i]
    case Take(part) => |s.got| < |parts| - 1 && part in s.queue
  }

  ghost function After<R>(s: Gathering<R>, parts: seq<R>, master: nat, step: Step<R>): Gathering<R>
    requires Enabled(s, parts, master, step)
  {
    match step
    case Send(i) => Gathering(s.sent[i := true], s.queue + multiset{parts[i]}, s.got)
    case Take(part) => Gathering(s.sent, s.queue - multiset{part}, s.got + [part])
  }

  ghost predicate IsRun<R>(states: seq<Gathering<R>>, steps: seq<Step<R>>, parts: seq<R>, master: nat) {
    && master < |parts| && |states| == |steps| + 1 && Initial(states[0], parts)
    && forall t :: 0 <= t < |steps| ==>
         Enabled(states[t], parts, master, steps[t]) && states[t + 1] == After(states[t], parts, master, steps[t])
  }

  /** The master goes on when it has a part from everybody else. */
  ghost predicate Finished<R>(s: Gathering<R>, parts: seq<R>) {
    |s.got| == |parts| - 1
  }

  ghost function SentParts<R>(sent: seq<bool>, parts: seq<R>): nat -> multiset<R> {
    (x: nat) => if x < |sent| && x < |parts| && sent[x] then multiset{parts[x]} else multiset{}
  }

  ghost predicate Inv<R>(s: Gathering<R>, parts: seq<R>, master: nat) {
    && master < |parts| == |s.sent| && !s.sent[master] && |s.got| < |parts|
    && s.queue + multiset(s.got) == Sum(SentParts(s.sent, parts), |parts|)
  }

  lemma StepInv<R>(s: Gathering<R>, parts: seq<R>, master: nat, step: Step<R>)
    requires Inv(s, parts, master) && Enabled(s, parts, master, step)
    ensures Inv(After(s, parts, master, step), parts, master)
  {
    var s' := After(s, parts, master, step);
    match step
    case Send(i) =>
      SumOneMore(SentParts(s.sent, parts), SentParts(s'.sent, parts), i, |parts|, multiset{parts[i]});
    case Take(part) =>
  }

  lemma {:induction false} RunInv<R>(states: seq<Gathering<R>>, steps: seq<Step<R>>, parts: seq<R>, master: nat, t: nat)
    requires IsRun(states, steps, parts, master) && t < |states|
    ensures Inv(states[t], parts, master)
  {
    if t == 0 {
      SumNothing(SentParts(states[0].sent, parts), |parts|);
    } else {
      RunInv(states, steps, parts, master, t - 1);
      StepInv(states[t - 1], parts, master, steps[t - 1]);
    }
  }

  /** How many of the first k nodes have sent. */
  ghost function Senders(sent: seq<bool>, k: nat): nat
    requires k <= |sent|
  {
    if k == 0 then 0 else Senders(sent, k - 1) + (if sent[k - 1] then 1 else 0)
  }

  lemma {:induction false} SizeIsSenders<R>(sent: seq<bool>, parts: seq<R>, k: nat)
    requires k <= |sent| == |parts|
    ensures |Sum(SentParts(sent, parts), k)| == Senders(sent, k)
  {
    if k > 0 { SizeIsSenders(sent, parts, k - 1); }
  }

  lemma {:induction false} SendersAtMost(sent: seq<bool>, master: nat, k: nat)
    requires k <= |sent| && master < |sent| && !sent[master]
    ensures Senders(sent, k) <= Others(master, k)
    ensures Senders(sent, k) == Others(master, k) <==> forall x :: 0 <= x < k && x != master ==> sent[x]
  {
    if k > 0 { SendersAtMost(sent, master, k - 1); }
  }

  /** No deadlock. */
  lemma Progress<R>(s: Gathering<R>, parts: seq<R>, master: nat) returns (step: Step<R>)
    requires Inv(s, parts, master) && !Finished(s, parts)
    ensures Enabled(s, parts, master, step)
  {
    if i :| 0 <= i < |parts| && i != master && !s.sent[i] {
      step := Send(i);
    } else {
      SizeIsSenders(s.sent, parts, |parts|);
      SendersAtMost(s.sent, master, |parts|);
      assert |s.queue + multiset(s.got)| == |s.queue| + |s.got|;
      var part :| part in s.queue;
      step := Take(part);
    }
  }

  lemma NothingElse<R>(queue: multiset<R>, got: seq<R>, all: multiset<R>)
    requires queue + multiset(got) == all && |got| >= |all|
    ensures multiset(got) == all
  {
    assert |queue + multiset(got)| == |queue| + |got|;
  }

  lemma AllSentAndGot<R>(s: Gathering<R>, parts: seq<R>, master: nat)
    requires Inv(s, parts, master) && Finished(s, parts)
    ensures multiset(s.got) == Sum(SentParts(s.sent, parts), |parts|)
    ensures forall x :: 0 <= x < |parts| && x != master ==> s.sent[x]
  {
    var all := Sum(SentParts(s.sent, parts), |parts|);
    SizeIsSenders(s.sent, parts, |parts|);
    SendersAtMost(s.sent, master, |parts|);
    assert |s.queue + multiset(s.got)| == |s.queue| + |s.got|;
    NothingElse(s.queue, s.got, all);
  }

  lemma WithOwn<R>(sent: seq<bool>, parts: seq<R>, master: nat)
    requires master < |parts| == |sent| && !sent[master] && forall x :: 0 <= x < |parts| && x != master ==> sent[x]
    ensures Sum(SentParts(sent, parts), |parts|) + multiset{parts[master]} == multiset(parts)
  {
    var all := sent[master := true];
    SumOneMore(SentParts(sent, parts), SentParts(all, parts), master, |parts|, multiset{parts[master]});
    SumIsAll(all, parts, |parts|);
    assert parts[..|parts|] == parts;
  }

  /** In every interleaving, the parts the master ends up with, its own included, are all parts, each once. */
  lemma MasterHasAll<R>(states: seq<Gathering<R>>, steps: seq<Step<R>>, parts: seq<R>, master: nat)
    requires IsRun(states, steps, parts, master) && Finished(states[|steps|], parts)
    ensures multiset(states[|steps|].got + [parts[master]]) == multiset(parts)
  {
    var s := states[|steps|];
    RunInv(states, steps, parts, master, |steps|);
    AllSentAndGot(s, parts, master);
    WithOwn(s.sent, parts, master);
  }

  lemma {:induction false} SumIsAll<R>(sent: seq<bool>, parts: seq<R>, k: nat)
    requires k <= |sent| == |parts| && forall x :: 0 <= x < k ==> sent[x]
    ensures Sum(SentParts(sent, parts), k) == multiset(parts[..k])
  {
    if k > 0 {
      SumIsAll(sent, parts, k - 1);
      assert parts[..k] == parts[..k - 1] + [parts[k - 1]];
    }
  }
}
