/** What a round of the exchange does to rows: node j ends up with everybody's part j, and all rows are
    still there. */
module Shuffle {
  import opened Collections
  import opened Exchange

  ghost function Payloads<T>(messages: seq<Message<T>>): (p: seq<T>)
    ensures |p| == |messages| && forall i :: 0 <= i < |p| ==> p[i] == messages[i].payload
  {
    seq(|messages|, i requires 0 <= i < |messages| => messages[i].payload)
  }

  /** In round r node i has parts[i][j] for node j. */
  ghost predicate Carries<R>(q: Query<seq<R>>, r: nat, parts: seq<seq<seq<R>>>) {
    && |parts| == q.size
    && forall i, j :: 0 <= i < q.size && 0 <= j < q.size ==> |parts[i]| == q.size && q.part(r, i, j) == parts[i][j]
  }

  /** The rows that node x has for node j in round r. */
  ghost function RowsFor<R>(q: Query<seq<R>>, r: nat, x: nat, j: nat): multiset<R> {
    multiset(q.part(r, x, j))
  }

  ghost function AllFor<R>(q: Query<seq<R>>, r: nat, j: nat): nat -> multiset<R> {
    (x: nat) => RowsFor(q, r, x, j)
  }

  ghost function OthersFor<R>(q: Query<seq<R>>, r: nat, j: nat): nat -> multiset<R> {
    (x: nat) => if x != j then RowsFor(q, r, x, j) else multiset{}
  }

  // ----- rows of messages in any order ----------------------------------------------------------

  /** One message or none from each sender. */
  ghost predicate OneOrNone<M, R>(f: nat -> multiset<M>, g: nat -> multiset<R>, rows: M -> multiset<R>, x: nat) {
    (f(x) == multiset{} && g(x) == multiset{}) || exists m :: m in f(x) && f(x) == multiset{m} && g(x) == rows(m)
  }

  lemma LastSender<M, R>(s: seq<M>, p: nat, g: nat -> multiset<R>, rows: M -> multiset<R>, k: nat)
    requires 0 < k && p < |s| && Total(Without(s, p), rows) == Sum(g, k - 1) && g(k - 1) == rows(s[p])
    ensures Total(s, rows) == Sum(g, k)
  {
    TotalRemoved(s, rows, p);
  }

  /** Whatever the order in which the senders' messages arrive, their rows are the same. */
  lemma {:induction false} RowsInAnyOrder<M, R>(s: seq<M>, f: nat -> multiset<M>, g: nat -> multiset<R>,
                                                rows: M -> multiset<R>, k: nat)
    requires multiset(s) == Sum(f, k) && forall x: nat :: x < k ==> OneOrNone(f, g, rows, x)
    ensures Total(s, rows) == Sum(g, k)
    decreases k
  {
    if k == 0 {
      assert |multiset(s)| == |s|;
    } else {
      assert OneOrNone(f, g, rows, k - 1);
      if f(k - 1) == multiset{} {
        RowsInAnyOrder(s, f, g, rows, k - 1);
      } else {
        var m :| m in f(k - 1) && f(k - 1) == multiset{m} && g(k - 1) == rows(m);
        var p := Find(s, m, Sum(f, k - 1));
        RowsInAnyOrder(Without(s, p), f, g, rows, k - 1);
        LastSender(s, p, g, rows, k);
      }
    }
  }

  ghost function RowsIn<R>(): Message<seq<R>> -> multiset<R> {
    (m: Message<seq<R>>) => multiset(m.payload)
  }

  lemma {:induction false} PayloadRows<R>(messages: seq<Message<seq<R>>>)
    ensures multiset(Flatten(Payloads(messages))) == Total(messages, RowsIn())
  {
    if messages != [] {
      var rest := messages[..|messages| - 1];
      PayloadRows(rest);
      assert Payloads(messages) == Payloads(rest) + [messages[|messages| - 1].payload];
      FlattenSnoc(Payloads(rest), messages[|messages| - 1].payload);
    }
  }

  /** The rows collected by node j, whatever the order of the messages. */
  lemma CollectedRows<R>(q: Query<seq<R>>, messages: seq<Message<seq<R>>>, r: nat, j: nat)
    requires multiset(messages) == Sum(RoundMessages(q, r, j), q.size)
    ensures multiset(Flatten(Payloads(messages))) == Sum(OthersFor(q, r, j), q.size)
  {
    forall x: nat | x < q.size
      ensures OneOrNone(RoundMessages(q, r, j), OthersFor(q, r, j), RowsIn(), x)
    {
      assert x != j ==> MessageOf(q, r, x, j) in RoundMessages(q, r, j)(x);
    }
    RowsInAnyOrder(messages, RoundMessages(q, r, j), OthersFor(q, r, j), RowsIn(), q.size);
    PayloadRows(messages);
  }

  /** What a node has in the end: the collected parts, then its own. */
  ghost function ToMerge<R>(q: Query<seq<R>>, n: Node<seq<R>>, r: nat, j: nat): seq<seq<R>>
    requires r < |n.done|
  {
    Payloads(n.done[r]) + [q.part(r, j, j)]
  }

  /** A node whose messages are those of the round has all rows meant for it, once each. */
  lemma ShuffleDelivers<R>(q: Query<seq<R>>, n: Node<seq<R>>, r: nat, j: nat)
    requires r < |n.done| && multiset(n.done[r]) == Sum(RoundMessages(q, r, j), q.size) && j < q.size
    ensures multiset(Flatten(ToMerge(q, n, r, j))) == Sum(AllFor(q, r, j), q.size)
  {
    CollectedRows(q, n.done[r], r, j);
    FlattenSnoc(Payloads(n.done[r]), q.part(r, j, j));
    SumOneMore(OthersFor(q, r, j), AllFor(q, r, j), j, q.size, RowsFor(q, r, j, j));
  }

  /** A part a node merges is some node's part for it. */
  lemma MergedPart<R>(q: Query<seq<R>>, n: Node<seq<R>>, r: nat, j: nat, p: nat) returns (i: nat)
    requires r < |n.done| && multiset(n.done[r]) == Sum(RoundMessages(q, r, j), q.size) && j < q.size
    requires p < |ToMerge(q, n, r, j)|
    ensures i < q.size && ToMerge(q, n, r, j)[p] == q.part(r, i, j)
  {
    if p < |n.done[r]| {
      assert n.done[r][p] in multiset(n.done[r]);
      i := SumHas(RoundMessages(q, r, j), q.size, n.done[r][p]);
    } else {
      i := j;
    }
  }

  // ----- no row is lost -------------------------------------------------------------------------

  ghost function ByReceiver<R>(q: Query<seq<R>>, r: nat): nat -> multiset<R> {
    (j: nat) => Sum(AllFor(q, r, j), q.size)
  }

  ghost function Grid<R>(q: Query<seq<R>>, r: nat): (nat, nat) -> multiset<R> {
    (i: nat, j: nat) => RowsFor(q, r, i, j)
  }

  ghost function BySender<R>(q: Query<seq<R>>, r: nat): nat -> multiset<R> {
    (i: nat) => Sum(AtRow(Grid(q, r), i), q.size)
  }

  lemma ReceiverOrSender<R>(q: Query<seq<R>>, r: nat)
    ensures Sum(ByReceiver(q, r), q.size) == Sum(BySender(q, r), q.size)
  {
    var f := Grid(q, r);
    forall j: nat | j < q.size
      ensures Sum(AllFor(q, r, j), q.size) == Sum(AtColumn(f, j), q.size)
    {
      SumSame(AllFor(q, r, j), AtColumn(f, j), q.size);
    }
    SumSame(ByReceiver(q, r), (j: nat) => Sum(AtColumn(f, j), q.size), q.size);
    SumSame(BySender(q, r), (i: nat) => Sum(AtRow(f, i), q.size), q.size);
    SumTranspose(f, q.size, q.size);
  }

  lemma SenderKeeps<R>(q: Query<seq<R>>, r: nat, parts: seq<seq<R>>, i: nat)
    requires |parts| == q.size && forall j :: 0 <= j < q.size ==> q.part(r, i, j) == parts[j]
    ensures BySender(q, r)(i) == multiset(Flatten(parts))
  {
    FlattenIsSum(parts, AtRow(Grid(q, r), i));
  }

  /** Parts counted by receiver or by sender: if each node cut up its own table, the exchange keeps the rows
      of the whole cluster. */
  lemma ShuffleConserves<R>(q: Query<seq<R>>, r: nat, tables: seq<seq<R>>)
    requires |tables| == q.size && forall i: nat :: i < q.size ==> BySender(q, r)(i) == multiset(tables[i])
    ensures Sum(ByReceiver(q, r), q.size) == multiset(Flatten(tables))
  {
    ReceiverOrSender(q, r);
    FlattenIsSum(tables, BySender(q, r));
  }
}
