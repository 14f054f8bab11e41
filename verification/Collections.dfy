/** Sequences of sequences as one (`Flatten`), sums of multisets over the numbers below k (`Sum`), and the
    multisets that the elements of a sequence stand for, added up (`Total`). Parts, messages and rows are
    counted with them: what a node gathers is a sum over the senders, what is left in a queue is a sequence
    without one of its elements, and a table is the rows of its parts taken together. */
module Collections {

  datatype Result<T, E> = Ok(value: T) | Err(error: E)

  ghost function Flatten<T>(ss: seq<seq<T>>): seq<T> {
    if ss == [] then [] else Flatten(ss[..|ss| - 1]) + ss[|ss| - 1]
  }

  lemma FlattenSnoc<T>(ss: seq<seq<T>>, s: seq<T>)
    ensures Flatten(ss + [s]) == Flatten(ss) + s
  {
    assert (ss + [s])[..|ss|] == ss;
  }

  lemma {:induction false} FlattenSize<T>(ss: seq<seq<T>>, n: nat)
    requires forall r :: 0 <= r < |ss| ==> |ss[r]| == n
    ensures |Flatten(ss)| == |ss| * n
  {
    if ss != [] {
      FlattenSize(ss[..|ss| - 1], n);
      assert |ss| * n == (|ss| - 1) * n + n;
    }
  }

  lemma {:induction false} FlattenHas<T>(ss: seq<seq<T>>, x: T)
    ensures x in Flatten(ss) <==> exists p :: 0 <= p < |ss| && x in ss[p]
  {
    if ss != [] {
      FlattenHas(ss[..|ss| - 1], x);
    }
  }

  lemma {:induction false} FlattenCount<T>(ss: seq<seq<T>>, r: nat, x: T)
    requires r < |ss| && forall p :: 0 <= p < |ss| && p != r ==> x !in ss[p]
    ensures multiset(Flatten(ss))[x] == multiset(ss[r])[x]
  {
    var last := |ss| - 1;
    assert multiset(Flatten(ss)) == multiset(Flatten(ss[..last])) + multiset(ss[last]);
    if r < last {
      FlattenCount(ss[..last], r, x);
    } else {
      FlattenHas(ss[..last], x);
    }
  }

  lemma AddAssociates<M>(a: multiset<M>, b: multiset<M>, c: multiset<M>)
    ensures (a + b) + c == a + (b + c)
  {
  }

  /** f(0) + ... + f(k - 1) */
  ghost function Sum<M>(f: nat -> multiset<M>, k: nat): multiset<M> {
    if k == 0 then multiset{} else Sum(f, k - 1) + f(k - 1)
  }

  lemma {:induction false} SumSame<M>(f: nat -> multiset<M>, g: nat -> multiset<M>, k: nat)
    requires forall x: nat :: x < k ==> f(x) == g(x)
    ensures Sum(f, k) == Sum(g, k)
  {
    if k > 0 { SumSame(f, g, k - 1); }
  }

  lemma {:induction false} SumOneMore<M>(f: nat -> multiset<M>, g: nat -> multiset<M>, i: nat, k: nat, extra: multiset<M>)
    requires i < k && g(i) == f(i) + extra && forall x: nat :: x < k && x != i ==> f(x) == g(x)
    ensures Sum(g, k) == Sum(f, k) + extra
  {
    if i == k - 1 {
      SumSame(f, g, k - 1);
    } else {
      SumOneMore(f, g, i, k - 1, extra);
    }
  }

  lemma {:induction false} SumNothing<M>(f: nat -> multiset<M>, k: nat)
    requires forall x: nat :: x < k ==> f(x) == multiset{}
    ensures Sum(f, k) == multiset{}
  {
    if k > 0 { SumNothing(f, k - 1); }
  }

  lemma {:induction false} SumCount<M>(f: nat -> multiset<M>, g: nat -> multiset<M>, k: nat, m: M)
    requires forall x: nat :: x < k ==> f(x)[m] == g(x)[m]
    ensures Sum(f, k)[m] == Sum(g, k)[m]
  {
    if k > 0 { SumCount(f, g, k - 1, m); }
  }

  lemma {:induction false} SumHas<M>(f: nat -> multiset<M>, k: nat, m: M) returns (x: nat)
    requires m in Sum(f, k)
    ensures x < k && m in f(x)
  {
    if m in f(k - 1) { x := k - 1; } else { x := SumHas(f, k - 1, m); }
  }

  /** Sums of sums. */
  lemma {:induction false} SumAdd<M>(f: nat -> multiset<M>, g: nat -> multiset<M>, h: nat -> multiset<M>, k: nat)
    requires forall x: nat :: x < k ==> h(x) == f(x) + g(x)
    ensures Sum(h, k) == Sum(f, k) + Sum(g, k)
  {
    if k > 0 { SumAdd(f, g, h, k - 1); }
  }

  ghost function AtRow<M>(f: (nat, nat) -> multiset<M>, i: nat): nat -> multiset<M> {
    (j: nat) => f(i, j)
  }

  ghost function AtColumn<M>(f: (nat, nat) -> multiset<M>, j: nat): nat -> multiset<M> {
    (i: nat) => f(i, j)
  }

  /** By rows or by columns, the total is the same. */
  lemma {:induction false} SumTranspose<M>(f: (nat, nat) -> multiset<M>, n: nat, k: nat)
    ensures Sum((i: nat) => Sum(AtRow(f, i), k), n) == Sum((j: nat) => Sum(AtColumn(f, j), n), k)
  {
    if k == 0 {
      SumNothing((i: nat) => Sum(AtRow(f, i), k), n);
    } else {
      SumTranspose(f, n, k - 1);
      SumAdd((i: nat) => Sum(AtRow(f, i), k - 1), AtColumn(f, k - 1), (i: nat) => Sum(AtRow(f, i), k), n);
    }
  }

  /** The elements of a sequence of sequences, added up. */
  lemma {:induction false} FlattenIsSum<T>(ss: seq<seq<T>>, f: nat -> multiset<T>)
    requires forall i: nat :: i < |ss| ==> f(i) == multiset(ss[i])
    ensures multiset(Flatten(ss)) == Sum(f, |ss|)
  {
    if ss != [] {
      FlattenIsSum(ss[..|ss| - 1], f);
    }
  }

  function Without<T>(s: seq<T>, p: nat): seq<T>
    requires p < |s|
  {
    s[..p] + s[p + 1..]
  }

  lemma Find<M>(s: seq<M>, m: M, others: multiset<M>) returns (p: nat)
    requires multiset(s) == others + multiset{m}
    ensures p < |s| && s[p] == m && multiset(Without(s, p)) == others
  {
    assert m in multiset(s);
    p :| 0 <= p < |s| && s[p] == m;
    assert s == s[..p] + [s[p]] + s[p + 1..];
    assert multiset(Without(s, p)) == multiset(s) - multiset{m};
  }

  /** f(s[0]) + ... */
  ghost function Total<M, R>(s: seq<M>, f: M -> multiset<R>): multiset<R> {
    if s == [] then multiset{} else Total(s[..|s| - 1], f) + f(s[|s| - 1])
  }

  lemma {:induction false} TotalRemoved<M, R>(s: seq<M>, f: M -> multiset<R>, p: nat)
    requires p < |s|
    ensures Total(s, f) == Total(Without(s, p), f) + f(s[p])
  {
    var last := |s| - 1;
    var rest := Without(s, p);
    if p == last {
      assert rest == s[..last];
    } else {
      TotalRemoved(s[..last], f, p);
      assert rest[..|rest| - 1] == Without(s[..last], p) && rest[|rest| - 1] == s[last];
    }
  }

  lemma {:induction false} TotalConcat<M, R>(a: seq<M>, b: seq<M>, f: M -> multiset<R>)
    ensures Total(a + b, f) == Total(a, f) + Total(b, f)
  {
    if b == [] {
      assert a + b == a;
    } else {
      TotalConcat(a, b[..|b| - 1], f);
      assert (a + b)[..|a + b| - 1] == a + b[..|b| - 1];
      AddAssociates(Total(a, f), Total(b[..|b| - 1], f), f(b[|b| - 1]));
    }
  }

  lemma {:induction false} TotalAdd<M, R>(s: seq<M>, f: M -> multiset<R>, g: M -> multiset<R>, h: M -> multiset<R>)
    requires forall i :: 0 <= i < |s| ==> h(s[i]) == f(s[i]) + g(s[i])
    ensures Total(s, h) == Total(s, f) + Total(s, g)
  {
    if s != [] { TotalAdd(s[..|s| - 1], f, g, h); }
  }

  lemma {:induction false} TotalSame<M, R>(s: seq<M>, f: M -> multiset<R>, g: M -> multiset<R>)
    requires forall i :: 0 <= i < |s| ==> f(s[i]) == g(s[i])
    ensures Total(s, f) == Total(s, g)
  {
    if s != [] { TotalSame(s[..|s| - 1], f, g); }
  }

  lemma {:induction false} TotalNothing<M, R>(s: seq<M>, f: M -> multiset<R>)
    requires forall i :: 0 <= i < |s| ==> f(s[i]) == multiset{}
    ensures Total(s, f) == multiset{}
  {
    if s != [] { TotalNothing(s[..|s| - 1], f); }
  }

  lemma {:induction false} TotalInAnyOrder<M, R>(a: seq<M>, b: seq<M>, f: M -> multiset<R>)
    requires multiset(a) == multiset(b)
    ensures Total(a, f) == Total(b, f)
    decreases |a|
  {
    if a == [] {
      assert |multiset(b)| == |b|;
    } else {
      var last := |a| - 1;
      var rest := Without(a, last);
      assert a == rest + [a[last]];
      var p := Find(b, a[last], multiset(rest));
      TotalInAnyOrder(rest, Without(b, p), f);
      TotalRemoved(a, f, last);
      TotalRemoved(b, f, p);
    }
  }
}
