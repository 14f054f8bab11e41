/** The cache of columns already loaded from a file (src/io/data_parser/ParserUtil.cpp) and the parser that
    fills it (src/io/data_parser/GDFParser.cpp). */
module ColumnCache {
  import opened Basics

  datatype Loaded<D> = Loaded(name: string, data: D)

  type FileCache<D> = map<string, Loaded<D>>

  /** A request for columns of a file; `load` is what reading a column from the file gives. */
  datatype Call<!D> = Call(file: string, names: seq<string>, requested: seq<nat>, load: nat -> D)
  {
    predicate Valid() {
      forall k :: 0 <= k < |requested| ==> requested[k] < |names|
    }

    function Name(k: nat): string
      requires Valid() && k < |requested|
    {
      names[requested[k]]
    }

    function Fresh(k: nat): Loaded<D>
      requires Valid() && k < |requested|
    {
      Loaded(Name(k), load(requested[k]))
    }

    /** How many columns the caller wants: those he names, or all. */
    function Wanted(): nat {
      if requested == [] then |names| else |requested|
    }

    /** Which column of the file the caller wants at position k of the output. */
    function WantedAt(k: nat): (i: nat)
      requires Valid() && k < Wanted()
      ensures i < |names|
    {
      if requested == [] then k else requested[k]
    }
  }

  // ----- the two passes -------------------------------------------------------------------------

  /** The requests from position k on whose names are not cached. */
  function NotLoaded<D>(call: Call<D>, k: nat, cache: FileCache<D>): (indices: seq<nat>)
    requires call.Valid() && k <= |call.requested|
    ensures forall i :: 0 <= i < |indices| ==> indices[i] < |call.names|
    decreases |call.requested| - k
  {
    if k == |call.requested| then []
    else (if call.Name(k) in cache then [] else [call.requested[k]]) + NotLoaded(call, k + 1, cache)
  }

  /** What the second pass puts out from position k on, and the cache it leaves; it takes the new columns
      one after the other and files each under its own name. */
  function Collected<D>(call: Call<D>, k: nat, cache: FileCache<D>, columns: seq<Loaded<D>>): (seq<Loaded<D>>, FileCache<D>)
    requires call.Valid() && k <= |call.requested|
    decreases |call.requested| - k
  {
    if k == |call.requested| then ([], cache)
    else if call.Name(k) in cache then
      var (out, end) := Collected(call, k + 1, cache, columns);
      ([cache[call.Name(k)]] + out, end)
    else if columns == [] then ([], cache)
    else
      var (out, end) := Collected(call, k + 1, cache[columns[0].name := columns[0]], columns[1..]);
      ([columns[0]] + out, end)
  }

  function LoadAll<D>(call: Call<D>, indices: seq<nat>): (columns: seq<Loaded<D>>)
    requires forall k :: 0 <= k < |indices| ==> indices[k] < |call.names|
    ensures |columns| == |indices|
    ensures forall k :: 0 <= k < |indices| ==> columns[k] == Loaded(call.names[indices[k]], call.load(indices[k]))
  {
    seq(|indices|, k requires 0 <= k < |indices| => Loaded(call.names[indices[k]], call.load(indices[k])))
  }

  // ----- the parser -----------------------------------------------------------------------------

  class GdfParser<D> {
    var loadedColumns: map<string, FileCache<D>>

    constructor ()
      ensures loadedColumns == map[]
    {
      loadedColumns := map[];
    }

    /** What is cached for a file; nothing if the file has never been parsed. */
    function CacheOf(file: string): FileCache<D>
      reads this
    {
      if file in loadedColumns then loadedColumns[file] else map[]
    }

    method GetColumnIndicesNotAlreadyLoaded(call: Call<D>) returns (columnIndices: seq<nat>)
      requires call.Valid()
      ensures columnIndices == NotLoaded(call, 0, CacheOf(call.file))
    {
      columnIndices := [];
      for k := 0 to |call.requested|
        invariant columnIndices + NotLoaded(call, k, CacheOf(call.file)) == NotLoaded(call, 0, CacheOf(call.file))
      {
        var alreadyParsedBefore := false;
        if call.file in loadedColumns {
          if call.Name(k) in loadedColumns[call.file] {
            alreadyParsedBefore := true;
          }
        }
        if !alreadyParsedBefore {
          Associate(columnIndices, [call.requested[k]], NotLoaded(call, k + 1, CacheOf(call.file)));
          columnIndices := columnIndices + [call.requested[k]];
        }
      }
    }

    method GetColumnsThatWereAlreadyLoaded(call: Call<D>, columns: seq<Loaded<D>>) returns (columnsOut: seq<Loaded<D>>)
      requires call.Valid() && |columns| == |NotLoaded(call, 0, CacheOf(call.file))|
      modifies this
      ensures columnsOut == Collected(call, 0, old(CacheOf(call.file)), columns).0
      ensures CacheOf(call.file) == Collected(call, 0, old(CacheOf(call.file)), columns).1
      ensures forall f :: f != call.file ==> CacheOf(f) == old(CacheOf(f))
    {
      columnsOut := [];
      var newlyParsedColIdx := 0;
      for k := 0 to |call.requested|
        invariant newlyParsedColIdx <= |columns|
        invariant |columns| - newlyParsedColIdx >= |NotLoaded(call, k, CacheOf(call.file))|
        invariant columnsOut + Collected(call, k, CacheOf(call.file), columns[newlyParsedColIdx..]).0
               == Collected(call, 0, old(CacheOf(call.file)), columns).0
        invariant Collected(call, k, CacheOf(call.file), columns[newlyParsedColIdx..]).1
               == Collected(call, 0, old(CacheOf(call.file)), columns).1
        invariant forall f :: f != call.file ==> CacheOf(f) == old(CacheOf(f))
      {
        ghost var cache := CacheOf(call.file);
        ghost var rest := columns[newlyParsedColIdx..];
        if call.file in loadedColumns && call.Name(k) in loadedColumns[call.file] {
          var column := loadedColumns[call.file][call.Name(k)];
          Associate(columnsOut, [column], Collected(call, k + 1, cache, rest).0);
          columnsOut := columnsOut + [column];
        } else {
          var column := columns[newlyParsedColIdx];
          Associate(columnsOut, [column], Collected(call, k + 1, cache[column.name := column], rest[1..]).0);
          FewerNotLoaded(call, k + 1, cache, column);
          assert rest[1..] == columns[newlyParsedColIdx + 1..];
          columnsOut := columnsOut + [column];
          loadedColumns := loadedColumns[call.file := CacheOf(call.file)[column.name := column]];
          newlyParsedColIdx := newlyParsedColIdx + 1;
        }
      }
    }

    method LoadColumns(call: Call<D>, columnIndices: seq<nat>) returns (columns: seq<Loaded<D>>)
      requires forall k :: 0 <= k < |columnIndices| ==> columnIndices[k] < |call.names|
      ensures columns == LoadAll(call, columnIndices)
    {
      columns := [];
      for k := 0 to |columnIndices|
        invariant columns == LoadAll(call, columnIndices[..k])
      {
        columns := columns + [Loaded(call.names[columnIndices[k]], call.load(columnIndices[k]))];
      }
      assert columnIndices[..|columnIndices|] == columnIndices;
    }

    /** `gdf_parser::parse`; an empty request stands for all columns. */
    method Parse(call: Call<D>) returns (columnsOut: seq<Loaded<D>>)
      requires call.Valid()
      modifies this
      ensures (columnsOut, CacheOf(call.file)) == ParseResult(call, old(CacheOf(call.file)))
      ensures forall f :: f != call.file ==> CacheOf(f) == old(CacheOf(f))
      ensures |columnsOut| == if call.requested == [] then |call.names| else |call.requested|
    {
      var request := Requested(call);
      CollectedLength(request, 0, CacheOf(call.file),
                      LoadAll(request, NotLoaded(request, 0, CacheOf(call.file))));
      var columnIndices := GetColumnIndicesNotAlreadyLoaded(request);
      var columns := LoadColumns(request, columnIndices);
      columnsOut := GetColumnsThatWereAlreadyLoaded(request, columns);
    }
  }

  /** Caching one more column leaves no more to load. */
  lemma {:induction false} FewerNotLoaded<D>(call: Call<D>, k: nat, cache: FileCache<D>, column: Loaded<D>)
    requires call.Valid() && k <= |call.requested|
    ensures |NotLoaded(call, k, cache[column.name := column])| <= |NotLoaded(call, k, cache)|
    decreases |call.requested| - k
  {
    if k < |call.requested| { FewerNotLoaded(call, k + 1, cache, column); }
  }

  /** The second pass puts out one column for every request. */
  lemma {:induction false} CollectedLength<D>(call: Call<D>, k: nat, cache: FileCache<D>, columns: seq<Loaded<D>>)
    requires call.Valid() && k <= |call.requested| && |columns| >= |NotLoaded(call, k, cache)|
    ensures |Collected(call, k, cache, columns).0| == |call.requested| - k
    decreases |call.requested| - k
  {
    if k < |call.requested| {
      if call.Name(k) in cache {
        CollectedLength(call, k + 1, cache, columns);
      } else {
        FewerNotLoaded(call, k + 1, cache, columns[0]);
        CollectedLength(call, k + 1, cache[columns[0].name := columns[0]], columns[1..]);
      }
    }
  }

  /** The request as the two passes see it. */
  function Requested<D>(call: Call<D>): (request: Call<D>)
    requires call.Valid()
    ensures request.Valid() && request.file == call.file && request.names == call.names && request.load == call.load
    ensures |request.requested| == call.Wanted()
    ensures forall k :: 0 <= k < |request.requested| ==> request.requested[k] == call.WantedAt(k)
  {
    if call.requested != [] then call else call.(requested := seq(|call.names|, i => i))
  }

  function ParseResult<D>(call: Call<D>, cache: FileCache<D>): (seq<Loaded<D>>, FileCache<D>)
    requires call.Valid()
  {
    var request := Requested(call);
    Collected(request, 0, cache, LoadAll(request, NotLoaded(request, 0, cache)))
  }

  // ----- what the output should be --------------------------------------------------------------

  /** The column at position k of an ideal output: the cached one, or the one the file has. */
  function Ideal<D>(call: Call<D>, cache: FileCache<D>, k: nat): Loaded<D>
    requires call.Valid() && k < |call.requested|
  {
    if call.Name(k) in cache then cache[call.Name(k)] else call.Fresh(k)
  }

  /** The output from position k on is the ideal one. */
  ghost predicate IsIdeal<D>(call: Call<D>, cache: FileCache<D>, k: nat, out: seq<Loaded<D>>)
    requires call.Valid() && k <= |call.requested|
  {
    |out| == |call.requested| - k && forall i :: k <= i < |call.requested| ==> out[i - k] == Ideal(call, cache, i)
  }

  lemma IdealStep<D>(call: Call<D>, cache: FileCache<D>, k: nat, first: Loaded<D>, rest: seq<Loaded<D>>)
    requires call.Valid() && k < |call.requested|
    ensures IsIdeal(call, cache, k, [first] + rest) <==>
              first == Ideal(call, cache, k) && IsIdeal(call, cache, k + 1, rest)
  {
    var out := [first] + rest;
    if IsIdeal(call, cache, k, out) {
      assert out[k - k] == first;
      forall i | k + 1 <= i < |call.requested|
        ensures rest[i - (k + 1)] == Ideal(call, cache, i)
      {
        assert out[i - k] == rest[i - (k + 1)];
      }
    }
  }

  /** No name stands twice in the schema. */
  ghost predicate DistinctNames(names: seq<string>) {
    forall i, j :: 0 <= i < j < |names| ==> names[i] != names[j]
  }

  ghost predicate AllCached<D>(call: Call<D>, k: nat, cache: FileCache<D>)
    requires call.Valid() && k <= |call.requested|
  {
    forall i :: k <= i < |call.requested| ==> call.Name(i) in cache
  }

  /** The cache in the middle of the second pass: the old entries, and the columns requested so far. */
  ghost predicate MidPass<D>(call: Call<D>, k: nat, before: FileCache<D>, cache: FileCache<D>)
    requires call.Valid() && k <= |call.requested|
  {
    && (forall name :: name in before ==> name in cache && cache[name] == before[name])
    && (forall i :: 0 <= i < k ==> call.Name(i) in cache)
    && (forall name :: name in cache && name !in before ==>
          exists i :: 0 <= i < k && call.Name(i) == name && cache[name] == call.Fresh(i))
  }

  /** What is cached in the middle of the pass is what the output should have. */
  lemma CachedIsIdeal<D>(call: Call<D>, k: nat, before: FileCache<D>, cache: FileCache<D>, i: nat)
    requires call.Valid() && k <= |call.requested| && DistinctNames(call.names) && MidPass(call, k, before, cache)
    requires i < |call.requested| && call.Name(i) in cache
    ensures cache[call.Name(i)] == Ideal(call, before, i)
  {
    if call.Name(i) !in before {
      var j :| 0 <= j < k && call.Name(j) == call.Name(i) && cache[call.Name(i)] == call.Fresh(j);
      assert call.requested[i] == call.requested[j];
    }
  }

  /** Once a column loaded twice is at the head of the queue, the output is right only if nothing is left
      to be taken from the queue. */
  lemma {:induction false} OutOfStep<D>(call: Call<D>, k: nat, at: nat, before: FileCache<D>, cache: FileCache<D>,
                                        columns: seq<Loaded<D>>)
    requires call.Valid() && at <= k <= |call.requested| && DistinctNames(call.names) && MidPass(call, at, before, cache)
    requires columns != [] && columns[0].name in cache
    ensures IsIdeal(call, before, k, Collected(call, k, cache, columns).0) <==> AllCached(call, k, cache)
    decreases |call.requested| - k
  {
    if k < |call.requested| {
      if call.Name(k) in cache {
        OutOfStep(call, k + 1, at, before, cache, columns);
        CachedIsIdeal(call, at, before, cache, k);
        IdealStep(call, before, k, cache[call.Name(k)], Collected(call, k + 1, cache, columns).0);
      } else {
        IdealStep(call, before, k, columns[0],
                  Collected(call, k + 1, cache[columns[0].name := columns[0]], columns[1..]).0);
      }
    }
  }

  /** The requests from k on keep in step with the loaded columns: after a name that is not cached has been
      requested again, no further name needs to be loaded. */
  ghost predicate InStep<D>(call: Call<D>, k: nat, before: FileCache<D>, cache: FileCache<D>)
    requires call.Valid() && k <= |call.requested|
    decreases |call.requested| - k
  {
    if k == |call.requested| then true
    else if call.Name(k) in before then InStep(call, k + 1, before, cache)
    else if call.Name(k) in cache then AllCached(call, k + 1, cache)
    else InStep(call, k + 1, before, cache[call.Name(k) := call.Fresh(k)])
  }

  lemma LoadAllCons<D>(call: Call<D>, i: nat, rest: seq<nat>)
    requires i < |call.names| && forall k :: 0 <= k < |rest| ==> rest[k] < |call.names|
    ensures LoadAll(call, [i] + rest) == [Loaded(call.names[i], call.load(i))] + LoadAll(call, rest)
  {
  }

  lemma MidPassNext<D>(call: Call<D>, k: nat, before: FileCache<D>, cache: FileCache<D>)
    requires call.Valid() && k < |call.requested| && MidPass(call, k, before, cache)
    ensures call.Name(k) in cache ==> MidPass(call, k + 1, before, cache)
    ensures call.Name(k) !in cache ==> MidPass(call, k + 1, before, cache[call.Name(k) := call.Fresh(k)])
  {
    if call.Name(k) !in cache {
      var next := cache[call.Name(k) := call.Fresh(k)];
      forall name | name in next && name !in before
        ensures exists i :: 0 <= i < k + 1 && call.Name(i) == name && next[name] == call.Fresh(i)
      {
        if name == call.Name(k) {
          assert next[name] == call.Fresh(k);
        } else {
          var i :| 0 <= i < k && call.Name(i) == name && cache[name] == call.Fresh(i);
          assert next[name] == call.Fresh(i);
        }
      }
    }
  }

  /** What the pass puts out from position k on, when the queue is what the first pass asked for. */
  ghost function InQueueOrder<D>(call: Call<D>, k: nat, before: FileCache<D>, cache: FileCache<D>): seq<Loaded<D>>
    requires call.Valid() && k <= |call.requested|
  {
    Collected(call, k, cache, LoadAll(call, NotLoaded(call, k, before))).0
  }

  lemma StepCached<D>(call: Call<D>, k: nat, before: FileCache<D>, cache: FileCache<D>)
    requires call.Valid() && k < |call.requested| && MidPass(call, k, before, cache) && call.Name(k) in before
    ensures InQueueOrder(call, k, before, cache)
         == [Ideal(call, before, k)] + InQueueOrder(call, k + 1, before, cache)
  {
    assert NotLoaded(call, k, before) == NotLoaded(call, k + 1, before);
  }

  lemma QueueHead<D>(call: Call<D>, k: nat, before: FileCache<D>) returns (queue: seq<Loaded<D>>)
    requires call.Valid() && k < |call.requested| && call.Name(k) !in before
    ensures queue == LoadAll(call, NotLoaded(call, k, before)) && queue != []
    ensures queue[0] == call.Fresh(k) && queue[1..] == LoadAll(call, NotLoaded(call, k + 1, before))
  {
    queue := LoadAll(call, NotLoaded(call, k, before));
    LoadAllCons(call, call.requested[k], NotLoaded(call, k + 1, before));
  }

  lemma StepNew<D>(call: Call<D>, k: nat, before: FileCache<D>, cache: FileCache<D>)
    requires call.Valid() && k < |call.requested| && MidPass(call, k, before, cache) && call.Name(k) !in cache
    ensures InQueueOrder(call, k, before, cache)
         == [Ideal(call, before, k)] + InQueueOrder(call, k + 1, before, cache[call.Name(k) := call.Fresh(k)])
  {
    var queue := QueueHead(call, k, before);
  }

  lemma StepRepeated<D>(call: Call<D>, k: nat, before: FileCache<D>, cache: FileCache<D>)
    requires call.Valid() && k < |call.requested| && DistinctNames(call.names) && MidPass(call, k, before, cache)
    requires call.Name(k) !in before && call.Name(k) in cache
    ensures IsIdeal(call, before, k, InQueueOrder(call, k, before, cache)) <==> AllCached(call, k + 1, cache)
  {
    var queue := QueueHead(call, k, before);
    OutOfStep(call, k + 1, k, before, cache, queue);
    CachedIsIdeal(call, k, before, cache, k);
    IdealStep(call, before, k, cache[call.Name(k)], Collected(call, k + 1, cache, queue).0);
  }

  lemma CachedInStep<D>(call: Call<D>, k: nat, before: FileCache<D>, cache: FileCache<D>)
    requires call.Valid() && k < |call.requested| && MidPass(call, k, before, cache) && call.Name(k) in before
    requires IsIdeal(call, before, k + 1, InQueueOrder(call, k + 1, before, cache)) <==> InStep(call, k + 1, before, cache)
    ensures IsIdeal(call, before, k, InQueueOrder(call, k, before, cache)) <==> InStep(call, k, before, cache)
  {
    StepCached(call, k, before, cache);
    IdealStep(call, before, k, Ideal(call, before, k), InQueueOrder(call, k + 1, before, cache));
  }

  lemma NewInStep<D>(call: Call<D>, k: nat, before: FileCache<D>, cache: FileCache<D>, next: FileCache<D>)
    requires call.Valid() && k < |call.requested| && MidPass(call, k, before, cache) && call.Name(k) !in cache
    requires next == cache[call.Name(k) := call.Fresh(k)]
    requires IsIdeal(call, before, k + 1, InQueueOrder(call, k + 1, before, next)) <==> InStep(call, k + 1, before, next)
    ensures IsIdeal(call, before, k, InQueueOrder(call, k, before, cache)) <==> InStep(call, k, before, cache)
  {
    StepNew(call, k, before, cache);
    IdealStep(call, before, k, Ideal(call, before, k), InQueueOrder(call, k + 1, before, next));
  }

  lemma {:induction false} StepByStep<D>(call: Call<D>, k: nat, before: FileCache<D>, cache: FileCache<D>)
    requires call.Valid() && k <= |call.requested| && DistinctNames(call.names) && MidPass(call, k, before, cache)
    ensures IsIdeal(call, before, k, InQueueOrder(call, k, before, cache)) <==> InStep(call, k, before, cache)
    decreases |call.requested| - k
  {
    if k < |call.requested| {
      MidPassNext(call, k, before, cache);
      if call.Name(k) in before {
        StepByStep(call, k + 1, before, cache);
        CachedInStep(call, k, before, cache);
      } else if call.Name(k) in cache {
        StepRepeated(call, k, before, cache);
      } else {
        var next := cache[call.Name(k) := call.Fresh(k)];
        StepByStep(call, k + 1, before, next);
        NewInStep(call, k, before, cache, next);
      }
    }
  }

  // ----- one call -------------------------------------------------------------------------------

  /** A name that is neither cached nor requested before. */
  ghost predicate NewAt<D>(call: Call<D>, cache: FileCache<D>, k: nat)
    requires call.Valid() && k < |call.requested|
  {
    call.Name(k) !in cache && forall i :: 0 <= i < k ==> call.Name(i) != call.Name(k)
  }

  /** A name that is not cached and has been requested before. */
  ghost predicate AgainAt<D>(call: Call<D>, cache: FileCache<D>, k: nat)
    requires call.Valid() && k < |call.requested|
  {
    call.Name(k) !in cache && exists i :: 0 <= i < k && call.Name(i) == call.Name(k)
  }

  /** From position k on, no name is new after one that is requested again. */
  ghost predicate NothingNewAfterAgain<D>(call: Call<D>, cache: FileCache<D>, k: nat)
    requires call.Valid()
  {
    forall i, j :: k <= i < j < |call.requested| && AgainAt(call, cache, i) ==> !NewAt(call, cache, j)
  }

  /** The first position from k on whose name is not in the cache. */
  lemma {:induction false} FirstUncached<D>(call: Call<D>, k: nat, cache: FileCache<D>) returns (j: nat)
    requires call.Valid() && k <= |call.requested| && !AllCached(call, k, cache)
    ensures k <= j < |call.requested| && call.Name(j) !in cache
    ensures forall i :: k <= i < j ==> call.Name(i) in cache
    decreases |call.requested| - k
  {
    if call.Name(k) in cache { j := FirstUncached(call, k + 1, cache); } else { j := k; }
  }

  lemma UncachedIsNew<D>(call: Call<D>, k: nat, before: FileCache<D>, cache: FileCache<D>)
    requires call.Valid() && k < |call.requested| && MidPass(call, k, before, cache) && call.Name(k) in cache
    ensures AllCached(call, k + 1, cache) <==> forall j :: k < j < |call.requested| ==> !NewAt(call, before, j)
  {
    if AllCached(call, k + 1, cache) {
      forall j | k < j < |call.requested|
        ensures !NewAt(call, before, j)
      {
        assert call.Name(j) in cache;
      }
    } else {
      var j := FirstUncached(call, k + 1, cache);
      assert NewAt(call, before, j);
    }
  }

  lemma {:induction false} InStepMeans<D>(call: Call<D>, k: nat, before: FileCache<D>, cache: FileCache<D>)
    requires call.Valid() && k <= |call.requested| && MidPass(call, k, before, cache)
    ensures InStep(call, k, before, cache) <==> NothingNewAfterAgain(call, before, k)
    decreases |call.requested| - k
  {
    if k < |call.requested| {
      MidPassNext(call, k, before, cache);
      if call.Name(k) in before {
        InStepMeans(call, k + 1, before, cache);
        assert !AgainAt(call, before, k);
      } else if call.Name(k) in cache {
        assert AgainAt(call, before, k);
        UncachedIsNew(call, k, before, cache);
      } else {
        InStepMeans(call, k + 1, before, cache[call.Name(k) := call.Fresh(k)]);
        assert !AgainAt(call, before, k);
      }
    }
  }

  /** The output of a call is right in every position if and only if no name that must be loaded comes
      after one that must be loaded and is requested again. */
  lemma OutputRightIff<D>(call: Call<D>, cache: FileCache<D>)
    requires call.Valid() && DistinctNames(call.names)
    ensures var request := Requested(call);
            IsIdeal(request, cache, 0, ParseResult(call, cache).0) <==> NothingNewAfterAgain(request, cache, 0)
  {
    StepByStep(Requested(call), 0, cache, cache);
    InStepMeans(Requested(call), 0, cache, cache);
  }

  /** Asking for a, a, b with nothing cached gives a, a, a: the second a leaves a column in the queue that
      is then taken for b. */
  lemma RepeatedRequestMisleads<D>(load: nat -> D)
    ensures var call := Call("file", ["a", "b"], [0, 0, 1], load); var a := Loaded("a", load(0));
            call.Valid() && ParseResult(call, map[]).0 == [a, a, a]
  {
    var call := Call("file", ["a", "b"], [0, 0, 1], load);
    var a, b := Loaded("a", load(0)), Loaded("b", load(1));
    assert NotLoaded(call, 3, map[]) == [] && NotLoaded(call, 2, map[]) == [1];
    assert NotLoaded(call, 1, map[]) == [0, 1] && NotLoaded(call, 0, map[]) == [0, 0, 1];
    var cache: FileCache<D> := map["a" := a];
    var queue := [a, a, b];
    assert LoadAll(call, [0, 0, 1]) == queue && queue[1..] == [a, b] && "b" !in cache;
    assert Collected(call, 2, cache, [a, b]).0 == [a];
    assert Collected(call, 1, cache, [a, b]).0 == [a, a];
  }

  // ----- runs of calls --------------------------------------------------------------------------

  /** Calls with pairwise distinct requested names, the default request included. */
  ghost predicate DistinctRequest<D>(call: Call<D>) {
    && call.Valid() && DistinctNames(call.names)
    && (var r := Requested(call); forall i, j :: 0 <= i < j < |r.requested| ==> r.Name(i) != r.Name(j))
  }

  /** The cache the pass leaves, from position k on. */
  ghost function CacheInQueueOrder<D>(call: Call<D>, k: nat, before: FileCache<D>, cache: FileCache<D>): FileCache<D>
    requires call.Valid() && k <= |call.requested|
  {
    Collected(call, k, cache, LoadAll(call, NotLoaded(call, k, before))).1
  }

  lemma CacheStepCached<D>(call: Call<D>, k: nat, before: FileCache<D>, cache: FileCache<D>)
    requires call.Valid() && k < |call.requested| && MidPass(call, k, before, cache) && call.Name(k) in before
    ensures CacheInQueueOrder(call, k, before, cache) == CacheInQueueOrder(call, k + 1, before, cache)
  {
    assert NotLoaded(call, k, before) == NotLoaded(call, k + 1, before);
  }

  lemma CacheStepNew<D>(call: Call<D>, k: nat, before: FileCache<D>, cache: FileCache<D>)
    requires call.Valid() && k < |call.requested| && MidPass(call, k, before, cache) && call.Name(k) !in cache
    ensures CacheInQueueOrder(call, k, before, cache)
         == CacheInQueueOrder(call, k + 1, before, cache[call.Name(k) := call.Fresh(k)])
  {
    var queue := QueueHead(call, k, before);
  }

  lemma {:induction false} CacheAfterPass<D>(call: Call<D>, k: nat, before: FileCache<D>, cache: FileCache<D>)
    requires call.Valid() && k <= |call.requested| && MidPass(call, k, before, cache)
    requires forall i, j :: 0 <= i < j < |call.requested| ==> call.Name(i) != call.Name(j)
    ensures MidPass(call, |call.requested|, before, CacheInQueueOrder(call, k, before, cache))
    decreases |call.requested| - k
  {
    if k < |call.requested| {
      MidPassNext(call, k, before, cache);
      if call.Name(k) in before {
        CacheStepCached(call, k, before, cache);
        CacheAfterPass(call, k + 1, before, cache);
      } else {
        assert call.Name(k) !in cache;
        CacheStepNew(call, k, before, cache);
        CacheAfterPass(call, k + 1, before, cache[call.Name(k) := call.Fresh(k)]);
      }
    }
  }

  /** What is cached for a file after some calls. */
  function CacheAfter<D>(calls: seq<Call<D>>, file: string): FileCache<D>
    requires forall t :: 0 <= t < |calls| ==> calls[t].Valid()
  {
    if calls == [] then map[]
    else
      var last, before := calls[|calls| - 1], CacheAfter(calls[..|calls| - 1], file);
      if last.file == file then ParseResult(last, before).1 else before
  }

  /** Did call t, and no call before it, load the column? */
  ghost predicate FirstLoadedBy<D>(calls: seq<Call<D>>, t: nat, file: string, column: Loaded<D>)
    requires forall u :: 0 <= u < |calls| ==> calls[u].Valid()
  {
    && t < |calls| && calls[t].file == file
    && (exists k :: 0 <= k < |Requested(calls[t]).requested| && Requested(calls[t]).Fresh(k) == column)
    && forall u :: 0 <= u < t && calls[u].file == file ==> !Requests(calls[u], column.name)
  }

  ghost predicate Requests<D>(call: Call<D>, name: string)
    requires call.Valid()
  {
    exists k :: 0 <= k < |Requested(call).requested| && Requested(call).Name(k) == name
  }

  lemma CacheOfCall<D>(call: Call<D>, before: FileCache<D>)
    requires DistinctRequest(call)
    ensures MidPass(Requested(call), |Requested(call).requested|, before, ParseResult(call, before).1)
  {
    CacheAfterPass(Requested(call), 0, before, before);
  }

  /** A name is cached if a call requested it, and then with the column first loaded. */
  ghost predicate CacheExplained<D>(calls: seq<Call<D>>, file: string, name: string, cache: FileCache<D>)
    requires forall t :: 0 <= t < |calls| ==> calls[t].Valid()
  {
    && (name in cache <==> exists t :: 0 <= t < |calls| && calls[t].file == file && Requests(calls[t], name))
    && (name in cache ==>
          cache[name].name == name && exists t: nat :: FirstLoadedBy(calls, t, file, cache[name]))
  }

  lemma LastCall<D>(calls: seq<Call<D>>, file: string, name: string, before: FileCache<D>)
    requires calls != [] && forall t :: 0 <= t < |calls| ==> calls[t].Valid()
    requires var call := calls[|calls| - 1];
             call.file == file
             && MidPass(Requested(call), |Requested(call).requested|, before, ParseResult(call, before).1)
    requires name !in before ==> forall t :: 0 <= t < |calls| - 1 && calls[t].file == file ==> !Requests(calls[t], name)
    ensures var call := calls[|calls| - 1]; var after := ParseResult(call, before).1;
            && (name in after <==> name in before || Requests(call, name))
            && (name in after && name !in before ==>
                  FirstLoadedBy(calls, |calls| - 1, file, after[name]) && after[name].name == name)
  {
    var call := calls[|calls| - 1];
    var request, after := Requested(call), ParseResult(call, before).1;
    if name in after && name !in before {
      var i :| 0 <= i < |request.requested| && request.Name(i) == name && after[name] == request.Fresh(i);
    }
    if Requests(call, name) {
      var k :| 0 <= k < |request.requested| && request.Name(k) == name;
    }
  }

  lemma ExplainedElsewhere<D>(calls: seq<Call<D>>, call: Call<D>, file: string, name: string, cache: FileCache<D>)
    requires (forall t :: 0 <= t < |calls| ==> calls[t].Valid()) && call.Valid()
    requires CacheExplained(calls, file, name, cache)
    requires call.file != file
    ensures CacheExplained(calls + [call], file, name, cache)
  {
    var all := calls + [call];
    assert all[|calls|] == call && forall t :: 0 <= t < |calls| ==> all[t] == calls[t];
    if name in cache {
      var t :| 0 <= t < |calls| && calls[t].file == file && Requests(calls[t], name);
      assert all[t] == calls[t];
      var u: nat :| FirstLoadedBy(calls, u, file, cache[name]);
      assert FirstLoadedBy(all, u, file, cache[name]);
    }
  }

  lemma ExplainedHere<D>(calls: seq<Call<D>>, call: Call<D>, name: string, before: FileCache<D>)
    requires (forall t :: 0 <= t < |calls| ==> calls[t].Valid()) && DistinctRequest(call)
    requires CacheExplained(calls, call.file, name, before)
    ensures CacheExplained(calls + [call], call.file, name, ParseResult(call, before).1)
  {
    var all, after := calls + [call], ParseResult(call, before).1;
    CacheOfCall(call, before);
    assert forall t :: 0 <= t < |calls| ==> all[t] == calls[t];
    LastCall(all, call.file, name, before);
    if name in before {
      var t :| 0 <= t < |calls| && calls[t].file == call.file && Requests(calls[t], name);
      assert all[t] == calls[t];
      var u: nat :| FirstLoadedBy(calls, u, call.file, before[name]);
      assert FirstLoadedBy(all, u, call.file, after[name]);
    } else {
      assert all[|calls|] == call;
    }
  }

  /** In every run of calls with distinct requests, what is cached under a file and a name is the column
      first loaded under them, and it is cached as soon as it has been requested. */
  lemma {:induction false} CacheIsFirstLoaded<D>(calls: seq<Call<D>>, file: string, name: string)
    requires forall t :: 0 <= t < |calls| ==> calls[t].Valid()
    requires forall t :: 0 <= t < |calls| ==> DistinctRequest(calls[t])
    ensures CacheExplained(calls, file, name, CacheAfter(calls, file))
    decreases |calls|
  {
    if calls != [] {
      var n := |calls| - 1;
      var init, last := calls[..n], calls[n];
      CacheIsFirstLoaded(init, file, name);
      assert calls == init + [last];
      if last.file == file {
        ExplainedHere(init, last, name, CacheAfter(init, file));
      } else {
        ExplainedElsewhere(init, last, file, name, CacheAfter(init, file));
      }
    }
  }

  /** In every run of calls with distinct requests, a call puts out one column per request, in request
      order, or all columns in file order if it requests none, and each is the column first loaded under its
      file and name. */
  lemma OutputIsFirstLoaded<D>(calls: seq<Call<D>>, call: Call<D>, k: nat)
    requires forall t :: 0 <= t < |calls| ==> calls[t].Valid()
    requires (forall t :: 0 <= t < |calls| ==> DistinctRequest(calls[t])) && DistinctRequest(call)
    requires k < call.Wanted()
    ensures var out := ParseResult(call, CacheAfter(calls, call.file)).0;
            && (call.requested == [] ==> |out| == |call.names| && out[k].name == call.names[k])
            && (call.requested != [] ==> |out| == |call.requested| && out[k].name == call.names[call.requested[k]])
            && exists t: nat :: FirstLoadedBy(calls + [call], t, call.file, out[k])
  {
    var request, cache := Requested(call), CacheAfter(calls, call.file);
    var out := ParseResult(call, cache).0;
    OutputRightIff(call, cache);
    assert IsIdeal(request, cache, 0, out);
    assert out[k - 0] == Ideal(request, cache, k);
    CacheIsFirstLoaded(calls, call.file, request.Name(k));
    if request.Name(k) in cache {
      var t: nat :| FirstLoadedBy(calls, t, call.file, cache[request.Name(k)]);
      assert FirstLoadedBy(calls + [call], t, call.file, out[k]);
    } else {
      assert request.Fresh(k) == out[k];
      assert FirstLoadedBy(calls + [call], |calls|, call.file, out[k]);
    }
  }

  /** Does every call find the same data under a file and a name? */
  ghost predicate SameFiles<D>(calls: seq<Call<D>>, data: (string, string) -> D)
    requires forall t :: 0 <= t < |calls| ==> calls[t].Valid()
  {
    forall t, i :: 0 <= t < |calls| && 0 <= i < |calls[t].names| ==>
      calls[t].load(i) == data(calls[t].file, calls[t].names[i])
  }

  /** If the files do not change, the output is what loading without a cache would give. */
  lemma CacheAgreesWithLoading<D>(calls: seq<Call<D>>, call: Call<D>, data: (string, string) -> D, k: nat)
    requires forall t :: 0 <= t < |calls + [call]| ==> (calls + [call])[t].Valid()
    requires (forall t :: 0 <= t < |calls| ==> DistinctRequest(calls[t])) && DistinctRequest(call)
    requires k < call.Wanted() && SameFiles(calls + [call], data)
    requires forall t :: 0 <= t < |calls| ==> calls[t].Valid()
    ensures var out := ParseResult(call, CacheAfter(calls, call.file)).0; var i := call.WantedAt(k);
            && i == (if call.requested == [] then k else call.requested[k])
            && |out| == (if call.requested == [] then |call.names| else |call.requested|)
            && out[k] == Loaded(call.names[i], call.load(i))
  {
    OutputIsFirstLoaded(calls, call, k);
    var all := calls + [call];
    var out := ParseResult(call, CacheAfter(calls, call.file)).0;
    var t: nat :| FirstLoadedBy(all, t, call.file, out[k]);
    var r := Requested(all[t]);
    var j :| 0 <= j < |r.requested| && r.Fresh(j) == out[k];
    assert all[t].load(r.requested[j]) == data(call.file, all[t].names[r.requested[j]]);
    var request := Requested(call);
    assert all[|calls|].load(request.requested[k]) == data(call.file, request.names[request.requested[k]]);
  }
}
