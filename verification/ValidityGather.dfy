/** The gather of validity bits (src/ColumnManipulation.cu): 32 bits a word, one word at a time a thread, in
    strides of all threads. */
module ValidityGather {
  import opened Basics
  import opened BitMask

  // ----- one word -------------------------------------------------------------------------------

  /** Is the row valid that output row i is taken from? A negative index takes none. */
  ghost predicate RowValid(indices: seq<int>, bits: seq<Word>, i: nat)
    requires i < |indices| && InBounds(indices, bits)
  {
    indices[i] >= 0 && Bit(bits[indices[i] / WORD], indices[i] % WORD)
  }

  predicate InBounds(indices: seq<int>, bits: seq<Word>) {
    forall i :: 0 <= i < |indices| ==> indices[i] < WORD * |bits|
  }

  /** Word t of the output has the bits of its rows; past the last row its bits may be anything. */
  ghost predicate WordRight(w: Word, t: nat, indices: seq<int>, bits: seq<Word>)
    requires InBounds(indices, bits)
  {
    forall b: nat :: b < WORD && WORD * t + b < |indices| ==> Bit(w, b) == RowValid(indices, bits, WORD * t + b)
  }

  /** The inner loop; `currentBits` starts with whatever the register held. */
  method GatherWord(threadIndex: nat, indices: seq<int>, bits: seq<Word>, junk: Word) returns (currentBits: Word)
    requires InBounds(indices, bits) && WORD * threadIndex < |indices|
    ensures WordRight(currentBits, threadIndex, indices, bits)
  {
    var elementIndex := WORD * threadIndex;
    currentBits := junk;
    for bitIndex := 0 to WORD
      invariant forall b: nat :: b < bitIndex && elementIndex + b < |indices| ==>
                  Bit(currentBits, b) == RowValid(indices, bits, elementIndex + b)
    {
      if elementIndex + bitIndex < |indices| {
        var permuteIndex := indices[elementIndex + bitIndex];
        var isBitSet := permuteIndex >= 0 && Bit(bits[permuteIndex / WORD], permuteIndex % WORD);
        BitsAfterSet(currentBits, bitIndex, isBitSet);
        currentBits := SetBit(currentBits, bitIndex, isBitSet);
      }
    }
  }

  // ----- all threads ----------------------------------------------------------------------------

  /** The kernel between two writes: the word each thread is at, the output, and how often each of its
      words has been written. */
  datatype Kernel = Kernel(at: seq<nat>, out: seq<Word>, writes: seq<nat>)

  /** Some thread writes its word and moves on by the number of threads; other threads' steps come before
      or after, in any order. */
  ghost predicate Step(k: Kernel, k': Kernel, thread: nat, indices: seq<int>, bits: seq<Word>)
    requires InBounds(indices, bits)
  {
    && thread < |k.at| && WORD * k.at[thread] < |indices| && k.at[thread] < |k.out| == |k.writes|
    && var t := k.at[thread];
       && k'.at == k.at[thread := t + |k.at|] && k'.writes == k.writes[t := k.writes[t] + 1]
       && |k'.out| == |k.out| && WordRight(k'.out[t], t, indices, bits)
       && (forall w :: 0 <= w < |k.out| && w != t ==> k'.out[w] == k.out[w])
  }

  ghost predicate Initial(k: Kernel, threads: nat) {
    && |k.at| == threads && (forall i :: 0 <= i < threads ==> k.at[i] == i)
    && |k.writes| == |k.out| && (forall w :: 0 <= w < |k.writes| ==> k.writes[w] == 0)
  }

  ghost predicate IsRun(states: seq<Kernel>, schedule: seq<nat>, threads: nat, indices: seq<int>, bits: seq<Word>)
    requires InBounds(indices, bits)
  {
    && threads > 0 && |states| == |schedule| + 1 && Initial(states[0], threads)
    && (forall i :: 0 <= i < |schedule| ==> Step(states[i], states[i + 1], schedule[i], indices, bits))
  }

  /** Word w belongs to the thread w % threads. */
  ghost predicate WordState(k: Kernel, w: nat, threads: nat, indices: seq<int>, bits: seq<Word>)
    requires InBounds(indices, bits) && threads > 0 && |k.at| == threads && w < |k.out| == |k.writes|
  {
    if w < k.at[w % threads] then k.writes[w] == 1 && WordRight(k.out[w], w, indices, bits)
    else k.writes[w] == 0
  }

  ghost predicate Inv(k: Kernel, first: Kernel, threads: nat, indices: seq<int>, bits: seq<Word>)
    requires InBounds(indices, bits)
  {
    && threads > 0 && |k.at| == threads && |k.out| == |k.writes| == |first.out|
    && (forall i :: 0 <= i < threads ==> k.at[i] % threads == i)
    && (forall i :: 0 <= i < threads && k.at[i] >= threads ==> WORD * (k.at[i] - threads) < |indices|)
    && (forall w: nat :: w < |k.out| ==> WordState(k, w, threads, indices, bits))
    && (forall w: nat :: w < |k.out| && k.writes[w] == 0 ==> k.out[w] == first.out[w])
  }

  /** Between a position and the next in its stride lies no other word of the same thread. */
  lemma OneInStride(w: nat, t: nat, threads: nat)
    requires threads > 0 && w % threads == t % threads && t <= w < t + threads
    ensures w == t
  {
    var q, p := w / threads, t / threads;
    assert w - t == (q - p) * threads;
    if q > p { MulAtLeast(q - p, threads); }
    if q < p { MulAtLeast(p - q, threads); }
  }

  lemma MulAtLeast(a: int, b: int)
    requires a >= 1 && b >= 0
    ensures a * b >= b
  {
  }

  lemma Remainder(n: nat, d: nat, q: int, r: nat)
    requires d > 0 && n == q * d + r && r < d
    ensures n % d == r
  {
    var p := n / d;
    assert (p - q) * d == r - n % d;
    if p > q { MulAtLeast(p - q, d); }
    if p < q { MulAtLeast(q - p, d); }
  }

  lemma NextInStride(t: nat, threads: nat)
    requires threads > 0
    ensures (t + threads) % threads == t % threads
  {
    var q, r := t / threads, t % threads;
    NextMultiple(q, threads);
    Remainder(t + threads, threads, q + 1, r);
  }

  lemma SmallRemainder(i: nat, threads: nat)
    requires i < threads
    ensures i % threads == i
  {
    Remainder(i, threads, 0, i);
  }

  lemma RemainderAtMost(w: nat, threads: nat)
    requires threads > 0
    ensures w % threads <= w
  {
    if w < threads { SmallRemainder(w, threads); }
  }

  lemma StepInv(k: Kernel, k': Kernel, thread: nat, first: Kernel, threads: nat, indices: seq<int>, bits: seq<Word>)
    requires InBounds(indices, bits) && Inv(k, first, threads, indices, bits) && Step(k, k', thread, indices, bits)
    ensures Inv(k', first, threads, indices, bits)
  {
    var t := k.at[thread];
    NextInStride(t, threads);
    forall w: nat | w < |k'.out|
      ensures WordState(k', w, threads, indices, bits)
      ensures k'.writes[w] == 0 ==> k'.out[w] == first.out[w]
    {
      assert WordState(k, w, threads, indices, bits);
      if w % threads == thread && t <= w < t + threads { OneInStride(w, t, threads); }
    }
  }

  lemma InitialInv(k: Kernel, threads: nat, indices: seq<int>, bits: seq<Word>)
    requires InBounds(indices, bits) && threads > 0 && Initial(k, threads)
    ensures Inv(k, k, threads, indices, bits)
  {
    forall w: nat | w < |k.out|
      ensures WordState(k, w, threads, indices, bits)
    {
      RemainderAtMost(w, threads);
    }
    forall i | 0 <= i < threads
      ensures k.at[i] % threads == i
    {
      SmallRemainder(i, threads);
    }
  }

  lemma {:induction false} RunInv(states: seq<Kernel>, schedule: seq<nat>, threads: nat, indices: seq<int>,
                                  bits: seq<Word>, i: nat)
    requires InBounds(indices, bits) && IsRun(states, schedule, threads, indices, bits) && i < |states|
    ensures Inv(states[i], states[0], threads, indices, bits)
  {
    if i == 0 {
      InitialInv(states[0], threads, indices, bits);
    } else {
      RunInv(states, schedule, threads, indices, bits, i - 1);
      StepInv(states[i - 1], states[i], schedule[i - 1], states[0], threads, indices, bits);
    }
  }

  ghost predicate Finished(k: Kernel, size: nat) {
    forall i :: 0 <= i < |k.at| ==> WORD * k.at[i] >= size
  }

  /** For any number of threads, in every interleaving that runs to the end: each word that has a row is
      written exactly once and has the bits of its rows; the other words are as they were. */
  lemma GatherCorrect(states: seq<Kernel>, schedule: seq<nat>, threads: nat, indices: seq<int>, bits: seq<Word>, w: nat)
    requires InBounds(indices, bits) && IsRun(states, schedule, threads, indices, bits)
    requires Finished(states[|schedule|], |indices|) && w < |states[0].out|
    ensures var end := states[|schedule|];
            |end.out| == |end.writes| == |states[0].out|
            && if WORD * w < |indices| then end.writes[w] == 1 && WordRight(end.out[w], w, indices, bits)
               else end.writes[w] == 0 && end.out[w] == states[0].out[w]
  {
    var end := states[|schedule|];
    RunInv(states, schedule, threads, indices, bits, |schedule|);
    assert WordState(end, w, threads, indices, bits);
    var at := end.at[w % threads];
    if WORD * w >= |indices| && w < at {
      OneInStrideBefore(w, at, threads);
    }
  }

  /** Digit by digit: row 32 t + b of the output is valid if its index is not negative and digit i % 32 of source
      word i / 32 is 1, where i is the index. */
  lemma RightWordDigits(w: Word, t: nat, indices: seq<int>, bits: seq<Word>, b: nat)
    requires InBounds(indices, bits) && WordRight(w, t, indices, bits)
    requires b < 32 && 32 * t + b < |indices|
    ensures var i := indices[32 * t + b];
            Halved(w, b) % 2 == 1 <==> i >= 0 && Halved(bits[i / 32], i % 32) % 2 == 1
  {
    var i := indices[32 * t + b];
    BitIsDigit(w, b);
    if i >= 0 { BitIsDigit(bits[i / 32], i % 32); }
  }

  lemma OneInStrideBefore(w: nat, at: nat, threads: nat)
    requires threads > 0 && w < at && at % threads == w % threads
    ensures at >= threads && w <= at - threads
  {
    if at < w + threads { OneInStride(at, w, threads); }
  }

  /** There is a word with the bits wanted. */
  lemma {:induction false} SomeRightWord(t: nat, indices: seq<int>, bits: seq<Word>, n: nat) returns (w: Word)
    requires InBounds(indices, bits) && n <= WORD
    ensures forall b: nat :: b < n && WORD * t + b < |indices| ==> Bit(w, b) == RowValid(indices, bits, WORD * t + b)
  {
    if n == 0 {
      w := 0;
    } else {
      w := SomeRightWord(t, indices, bits, n - 1);
      if WORD * t + (n - 1) < |indices| {
        var bit := RowValid(indices, bits, WORD * t + (n - 1));
        BitsAfterSet(w, n - 1, bit);
        w := SetBit(w, n - 1, bit);
      }
    }
  }

  /** As long as some thread has not finished, a step can be taken, if the output has room for all rows. */
  lemma Progress(k: Kernel, first: Kernel, threads: nat, indices: seq<int>, bits: seq<Word>)
    returns (thread: nat, k': Kernel)
    requires InBounds(indices, bits) && Inv(k, first, threads, indices, bits)
    requires |indices| <= WORD * |k.out| && !Finished(k, |indices|)
    ensures Step(k, k', thread, indices, bits)
  {
    thread :| 0 <= thread < |k.at| && WORD * k.at[thread] < |indices|;
    var t := k.at[thread];
    var word := SomeRightWord(t, indices, bits, WORD);
    k' := Kernel(k.at[thread := t + |k.at|], k.out[t := word], k.writes[t := k.writes[t] + 1]);
  }

  /** The loop of one thread: it writes the words of its stride and no others. */
  method GatherBits(thread: nat, threads: nat, indices: seq<int>, bits: seq<Word>, gatheredBits: array<Word>, junk: Word)
    requires InBounds(indices, bits) && thread < threads && |indices| <= WORD * gatheredBits.Length
    modifies gatheredBits
    ensures forall w: nat :: w < gatheredBits.Length && w % threads == thread && WORD * w < |indices| ==>
              WordRight(gatheredBits[w], w, indices, bits)
    ensures forall w: nat :: w < gatheredBits.Length && (w % threads != thread || WORD * w >= |indices|) ==>
              gatheredBits[w] == old(gatheredBits[w])
  {
    var threadIndex := thread;
    SmallRemainder(thread, threads);
    forall w: nat | w < thread && w % threads == thread
      ensures false
    {
      RemainderAtMost(w, threads);
    }
    while WORD * threadIndex < |indices|
      invariant threadIndex % threads == thread
      invariant forall w: nat :: w < threadIndex && w < gatheredBits.Length && w % threads == thread && WORD * w < |indices|
                  ==> WordRight(gatheredBits[w], w, indices, bits)
      invariant forall w: nat :: w < gatheredBits.Length && (w % threads != thread || WORD * w >= |indices|) ==>
                  gatheredBits[w] == old(gatheredBits[w])
      decreases |indices| - WORD * threadIndex
    {
      var word := GatherWord(threadIndex, indices, bits, junk);
      gatheredBits[threadIndex] := word;
      forall w: nat | threadIndex <= w < threadIndex + threads && w % threads == thread
        ensures w == threadIndex
      {
        OneInStride(w, threadIndex, threads);
      }
      NextInStride(threadIndex, threads);
      threadIndex := threadIndex + threads;
    }
    forall w: nat | w < gatheredBits.Length && w % threads == thread && WORD * w < |indices|
      ensures w < threadIndex
    {
    }
  }
}
