/** Who owns a column: the reference counter (src/GDFCounter.cu) and the handles that share columns. */
module ColumnOwnership {

  datatype Pointer = Nullptr | Column(id: nat)

  // ----- the counter ----------------------------------------------------------------------------

  /** The counter's map, and the columns whose memory has been given back, in that order. */
  datatype Counter = Counter(counts: map<nat, nat>, deallocated: seq<nat>)
  {
    function Registered(c: nat): Counter {
      if c in counts then this else this.(counts := counts[c := 1])
    }

    /** A deregistered column stays in the map with count 0. */
    function Deregistered(c: nat): Counter {
      if c in counts then this.(counts := counts[c := 0]) else this
    }

    function Incremented(p: Pointer): Counter {
      if p.Column? && p.id in counts && counts[p.id] != 0 then
        this.(counts := counts[p.id := counts[p.id] + 1])
      else this
    }

    function Decremented(p: Pointer): Counter {
      if p.Column? && p.id in counts && counts[p.id] > 0 then
        if counts[p.id] == 1 then Freed(p.id) else this.(counts := counts[p.id := counts[p.id] - 1])
      else this
    }

    function Freed(c: nat): Counter {
      if c in counts then Counter(counts - {c}, deallocated + [c]) else this
    }
  }

  class GDFRefCounter {
    var counts: map<nat, nat>
    ghost var deallocated: seq<nat>

    constructor ()
      ensures State() == Counter(map[], [])
    {
      counts, deallocated := map[], [];
    }

    ghost function State(): Counter
      reads this
    {
      Counter(counts, deallocated)
    }

    method RegisterColumn(p: Pointer)
      modifies this
      ensures State() == if p.Column? then old(State()).Registered(p.id) else old(State())
    {
      if p.Column? {
        if p.id !in counts {
          counts := counts[p.id := 1];
        }
      }
    }

    method DeregisterColumn(p: Pointer)
      modifies this
      ensures State() == if p.Column? then old(State()).Deregistered(p.id) else old(State())
    {
      if p.Column? {
        if p.id in counts {
          counts := counts[p.id := 0];
        }
      }
    }

    method Increment(p: Pointer)
      modifies this
      ensures State() == old(State()).Incremented(p)
    {
      if p.Column? && p.id in counts {
        if counts[p.id] != 0 {
          counts := counts[p.id := counts[p.id] + 1];
        }
      }
    }

    method Decrement(p: Pointer)
      modifies this
      ensures State() == old(State()).Decremented(p)
    {
      if p.Column? && p.id in counts {
        if counts[p.id] > 0 {
          counts := counts[p.id := counts[p.id] - 1];
          if counts[p.id] == 0 {
            counts := counts - {p.id};
            deallocated := deallocated + [p.id];
            assert counts == old(counts) - {p.id};
          }
        }
      }
    }

    method Free(p: Pointer)
      modifies this
      ensures State() == if p.Column? then old(State()).Freed(p.id) else old(State())
    {
      if p.Column? && p.id in counts {
        counts := counts - {p.id};
        deallocated := deallocated + [p.id];
      }
    }
  }

  // ----- the handles ----------------------------------------------------------------------------

  datatype Handle = Handle(column: Pointer, isIpc: bool)

  const EMPTY := Handle(Nullptr, false)

  /** What giving up a handle does to the counter: columns received over IPC are not counted. */
  function Dropped(k: Counter, h: Handle): Counter {
    if h.isIpc then k else k.Decremented(h.column)
  }

  class GdfColumnCpp {
    var column: Pointer
    var isIpcColumn: bool

    constructor ()
      ensures Value() == EMPTY
    {
      column, isIpcColumn := Nullptr, false;
    }

    constructor Copy(col: GdfColumnCpp, counter: GDFRefCounter)
      modifies counter
      ensures Value() == old(col.Value())
      ensures counter.State() == old(counter.State()).Incremented(old(col.column))
    {
      column, isIpcColumn := col.column, col.isIpcColumn;
      new;
      counter.Increment(col.column);
    }

    ghost function Value(): Handle
      reads this
    {
      Handle(column, isIpcColumn)
    }

    method DecrementCounter(counter: GDFRefCounter)
      modifies counter
      ensures counter.State() == Dropped(old(counter.State()), Value())
    {
      if column.Column? && !isIpcColumn {
        counter.Decrement(column);
      }
    }

    /** `operator=`: nothing happens between handles to the same column. */
    method Assign(col: GdfColumnCpp, counter: GDFRefCounter)
      modifies this, counter
      ensures old(column) == old(col.column) ==> Value() == old(Value()) && counter.State() == old(counter.State())
      ensures old(column) != old(col.column) ==>
                && Value() == old(col.Value())
                && counter.State() == Dropped(old(counter.State()), old(Value())).Incremented(old(col.column))
    {
      if column == col.column {
        return;
      }
      DecrementCounter(counter);
      column, isIpcColumn := col.column, col.isIpcColumn;
      counter.Increment(col.column);
    }

    /** The `create_gdf_column` variants that allocate: `created` is the new column. */
    method CreateGdfColumn(created: nat, counter: GDFRefCounter)
      modifies this, counter
      ensures Value() == Handle(Column(created), false)
      ensures counter.State() == Dropped(old(counter.State()), old(Value())).Registered(created)
    {
      DecrementCounter(counter);
      column, isIpcColumn := Column(created), false;
      counter.RegisterColumn(column);
    }

    method CreateGdfColumnForIpc(created: nat, counter: GDFRefCounter)
      modifies this, counter
      ensures Value() == Handle(Column(created), true)
      ensures counter.State() == Dropped(old(counter.State()), old(Value()))
    {
      DecrementCounter(counter);
      column, isIpcColumn := Column(created), true;
    }

    /** `create_gdf_column(gdf_column*)`: wraps a raw column, unless the handle has it already. */
    method Wrap(raw: nat, counter: GDFRefCounter)
      modifies this, counter
      ensures old(column) == Column(raw) ==> Value() == old(Value()) && counter.State() == old(counter.State())
      ensures old(column) != Column(raw) ==>
                && Value() == Handle(Column(raw), false)
                && counter.State() == Dropped(old(counter.State()), old(Value())).Registered(raw)
    {
      if column != Column(raw) {
        DecrementCounter(counter);
        column, isIpcColumn := Column(raw), false;
        counter.RegisterColumn(column);
      }
    }

    /** The destructor. */
    method Destroy(counter: GDFRefCounter)
      modifies counter
      ensures counter.State() == Dropped(old(counter.State()), Value())
    {
      if isIpcColumn {
      } else {
        counter.Decrement(column);
      }
    }
  }

  // ----- runs -----------------------------------------------------------------------------------

  /** The counter, the live handles, the first identity not yet used, and the columns that `free` was
      called for while they were registered. */
  datatype World = World(counter: Counter, handles: map<nat, Handle>, next: nat, released: set<nat>)

  datatype Action =
    | New(h: nat) | Copy(h: nat, from: nat) | Assign(h: nat, from: nat)
    | Create(h: nat) | CreateIpc(h: nat) | WrapOwn(h: nat) | WrapNew(h: nat)
    | Destroy(h: nat) | Deregister(c: nat) | Free(c: nat)

  const INITIAL := World(Counter(map[], []), map[], 0, {})

  /** A raw column is wrapped by a handle that has it already, or it is new and nobody else's. */
  predicate Allowed(w: World, a: Action) {
    match a
    case New(h) => h !in w.handles
    case Copy(h, from) => h !in w.handles && from in w.handles
    case Assign(h, from) => h in w.handles && from in w.handles
    case Create(h) => h in w.handles
    case CreateIpc(h) => h in w.handles
    case WrapOwn(h) => h in w.handles && w.handles[h].column.Column?
    case WrapNew(h) => h in w.handles
    case Destroy(h) => h in w.handles
    case Deregister(_) => true
    case Free(_) => true
  }

  /** A handle gives up what it has. */
  function Emptied(w: World, h: nat): World
    requires h in w.handles
  {
    w.(counter := Dropped(w.counter, w.handles[h]), handles := w.handles[h := EMPTY])
  }

  /** A handle that has nothing takes what another has. */
  function Shared(w: World, h: nat, v: Handle): World {
    w.(counter := w.counter.Incremented(v.column), handles := w.handles[h := v])
  }

  /** A handle that has nothing takes a new column. */
  function Given(w: World, h: nat, isIpc: bool): World {
    World(if isIpc then w.counter else w.counter.Registered(w.next),
          w.handles[h := Handle(Column(w.next), isIpc)], w.next + 1, w.released)
  }

  function After(w: World, a: Action): World
    requires Allowed(w, a)
  {
    match a
    case New(h) => w.(handles := w.handles[h := EMPTY])
    case Copy(h, from) => Shared(w, h, w.handles[from])
    case Assign(h, from) =>
      if w.handles[h].column == w.handles[from].column then w else Shared(Emptied(w, h), h, w.handles[from])
    case Create(h) => Given(Emptied(w, h), h, false)
    case CreateIpc(h) => Given(Emptied(w, h), h, true)
    case WrapOwn(h) => w
    case WrapNew(h) => Given(Emptied(w, h), h, false)
    case Destroy(h) =>
      var e := Emptied(w, h);
      e.(handles := e.handles - {h})
    case Deregister(c) => w.(counter := w.counter.Deregistered(c))
    case Free(c) =>
      w.(counter := w.counter.Freed(c), released := if c in w.counter.counts then w.released + {c} else w.released)
  }

  predicate Owns(v: Handle, c: nat) {
    v.column == Column(c) && !v.isIpc
  }

  /** The live handles to a column, IPC handles aside. */
  function Owners(handles: map<nat, Handle>, c: nat): set<nat> {
    set h | h in handles && Owns(handles[h], c)
  }

  // ----- the invariant --------------------------------------------------------------------------

  predicate KnownIds(w: World) {
    && (forall c :: c in w.counter.counts ==> c < w.next)
    && (forall c :: c in w.counter.deallocated ==> c < w.next)
    && (forall h :: h in w.handles && w.handles[h].column.Column? ==> w.handles[h].column.id < w.next)
  }

  /** No column is given back twice, and none that is still registered. */
  predicate NeverTwice(k: Counter, released: set<nat>) {
    && (forall i, j :: 0 <= i < j < |k.deallocated| ==> k.deallocated[i] != k.deallocated[j])
    && (forall c :: c in k.deallocated ==> c !in k.counts)
    && (forall c :: c in released ==> c in k.deallocated)
  }

  /** A registered count other than 0 is the number of owners. */
  predicate CountsOwners(w: World) {
    forall c :: c in w.counter.counts && w.counter.counts[c] != 0 ==> w.counter.counts[c] == |Owners(w.handles, c)|
  }

  /** What a handle owns is registered, unless it was released by `free`; what came over IPC is not. */
  predicate HandlesSound(w: World) {
    forall h :: h in w.handles && w.handles[h].column.Column? ==>
      var c := w.handles[h].column.id;
      if w.handles[h].isIpc then c !in w.counter.counts && c !in w.counter.deallocated
      else c in w.counter.counts || c in w.released
  }

  predicate Inv(w: World) {
    KnownIds(w) && NeverTwice(w.counter, w.released) && CountsOwners(w) && HandlesSound(w)
  }

  /** What changing one handle does to the owners of a column. */
  lemma OwnersChange(handles: map<nat, Handle>, h: nat, v: Handle, c: nat)
    ensures Owns(v, c) ==> Owners(handles[h := v], c) == Owners(handles, c) + {h}
    ensures !Owns(v, c) ==> Owners(handles[h := v], c) == Owners(handles, c) - {h}
  {
  }

  lemma OwnersCount(handles: map<nat, Handle>, h: nat, v: Handle, c: nat)
    ensures |Owners(handles[h := v], c)|
         == |Owners(handles, c)| - (if h in Owners(handles, c) then 1 else 0) + (if Owns(v, c) then 1 else 0)
  {
    OwnersChange(handles, h, v, c);
    if h in Owners(handles, c) { assert Owners(handles, c) + {h} == Owners(handles, c); }
  }

  /** Giving up a handle gives back a column if and only if the column is registered, was not deregistered, and
      the handle is its only owner. */
  lemma DropIsLast(w: World, h: nat, c: nat)
    requires Inv(w) && h in w.handles && c !in w.counter.deallocated
    ensures c in Emptied(w, h).counter.deallocated
       <==> c in w.counter.counts && w.counter.counts[c] != 0 && Owners(w.handles, c) == {h}
    ensures c in Emptied(w, h).counter.deallocated ==>
              w.counter.counts[c] == 1 && Owners(Emptied(w, h).handles, c) == {}
  {
    OwnersChange(w.handles, h, EMPTY, c);
    assert Owners(w.handles, c) == {h} ==> h in Owners(w.handles, c) && |Owners(w.handles, c)| == 1;
    if c in Emptied(w, h).counter.deallocated { OnlyOwner(Owners(w.handles, c), h); }
  }

  lemma OnlyOwner(owners: set<nat>, h: nat)
    requires |owners| == 1 && h in owners
    ensures owners == {h}
  {
    assert |owners - {h}| == 0;
  }

  lemma EmptiedSound(w: World, h: nat)
    requires Inv(w) && h in w.handles
    ensures HandlesSound(Emptied(w, h))
  {
    var w' := Emptied(w, h);
    forall g | g in w'.handles && w'.handles[g].column.Column? && !w'.handles[g].isIpc
      ensures w'.handles[g].column.id in w'.counter.counts || w'.handles[g].column.id in w'.released
    {
      var c := w'.handles[g].column.id;
      assert g != h && g in Owners(w.handles, c);
      if c in w'.counter.deallocated && c !in w.counter.deallocated { DropIsLast(w, h, c); }
    }
  }

  lemma EmptiedInv(w: World, h: nat)
    requires Inv(w) && h in w.handles
    ensures Inv(Emptied(w, h))
  {
    var w' := Emptied(w, h);
    forall c | c in w'.counter.counts && w'.counter.counts[c] != 0
      ensures w'.counter.counts[c] == |Owners(w'.handles, c)|
    {
      OwnersCount(w.handles, h, EMPTY, c);
    }
    EmptiedSound(w, h);
  }

  /** Does the handle have nothing, so that it can take something else? */
  predicate HasNothing(w: World, h: nat) {
    h in w.handles ==> w.handles[h] == EMPTY
  }

  lemma SharedInv(w: World, h: nat, from: nat)
    requires Inv(w) && from in w.handles && HasNothing(w, h)
    ensures Inv(Shared(w, h, w.handles[from]))
  {
    var v := w.handles[from];
    var w' := Shared(w, h, v);
    forall c | c in w'.counter.counts && w'.counter.counts[c] != 0
      ensures w'.counter.counts[c] == |Owners(w'.handles, c)|
    {
      OwnersCount(w.handles, h, v, c);
    }
  }

  lemma GivenInv(w: World, h: nat, isIpc: bool)
    requires Inv(w) && HasNothing(w, h)
    ensures Inv(Given(w, h, isIpc))
  {
    var v := Handle(Column(w.next), isIpc);
    var w' := Given(w, h, isIpc);
    forall c | c in w'.counter.counts && w'.counter.counts[c] != 0
      ensures w'.counter.counts[c] == |Owners(w'.handles, c)|
    {
      OwnersCount(w.handles, h, v, c);
      if c == w.next { assert Owners(w.handles, c) == {}; }
    }
  }

  lemma ForgottenInv(w: World, h: nat)
    requires Inv(w) && h in w.handles && w.handles[h] == EMPTY
    ensures Inv(w.(handles := w.handles - {h}))
  {
    forall c | c in w.counter.counts && w.counter.counts[c] != 0
      ensures w.counter.counts[c] == |Owners(w.handles - {h}, c)|
    {
      assert Owners(w.handles - {h}, c) == Owners(w.handles, c);
    }
  }

  lemma NewInv(w: World, h: nat)
    requires Inv(w) && h !in w.handles
    ensures Inv(w.(handles := w.handles[h := EMPTY]))
  {
    forall c | c in w.counter.counts && w.counter.counts[c] != 0
      ensures w.counter.counts[c] == |Owners(w.handles[h := EMPTY], c)|
    {
      OwnersCount(w.handles, h, EMPTY, c);
    }
  }

  /** Every action keeps the invariant. */
  lemma ActionInv(w: World, a: Action)
    requires Inv(w) && Allowed(w, a)
    ensures Inv(After(w, a))
  {
    match a
    case New(h) => NewInv(w, h);
    case Copy(h, from) => SharedInv(w, h, from);
    case Assign(h, from) =>
      if w.handles[h].column != w.handles[from].column {
        EmptiedInv(w, h);
        SharedInv(Emptied(w, h), h, from);
      }
    case Create(h) => EmptiedInv(w, h); GivenInv(Emptied(w, h), h, false);
    case CreateIpc(h) => EmptiedInv(w, h); GivenInv(Emptied(w, h), h, true);
    case WrapOwn(h) =>
    case WrapNew(h) => EmptiedInv(w, h); GivenInv(Emptied(w, h), h, false);
    case Destroy(h) => EmptiedInv(w, h); ForgottenInv(Emptied(w, h), h);
    case Deregister(c) =>
    case Free(c) =>
  }

  /** The worlds of a run, one per action taken so far. */
  ghost predicate IsRun(worlds: seq<World>, actions: seq<Action>) {
    && |worlds| == |actions| + 1 && worlds[0] == INITIAL
    && forall t :: 0 <= t < |actions| ==> Allowed(worlds[t], actions[t]) && worlds[t + 1] == After(worlds[t], actions[t])
  }

  lemma {:induction false} RunInv(worlds: seq<World>, actions: seq<Action>, t: nat)
    requires IsRun(worlds, actions) && t < |worlds|
    ensures Inv(worlds[t])
  {
    if t > 0 {
      RunInv(worlds, actions, t - 1);
      ActionInv(worlds[t - 1], actions[t - 1]);
    }
  }

  // ----- what the invariant is for --------------------------------------------------------------

  /** In every run, no column is deallocated twice. */
  lemma NoDoubleDeallocation(worlds: seq<World>, actions: seq<Action>, t: nat, i: nat, j: nat)
    requires IsRun(worlds, actions) && t < |worlds| && i < j < |worlds[t].counter.deallocated|
    ensures worlds[t].counter.deallocated[i] != worlds[t].counter.deallocated[j]
  {
    RunInv(worlds, actions, t);
  }

  /** Except by `free`, a column is deallocated only if it was not deregistered and nobody else has it:
      afterwards no live handle owns it. */
  lemma DeallocatedOnlyUnowned(worlds: seq<World>, actions: seq<Action>, t: nat, c: nat)
    requires IsRun(worlds, actions) && t < |actions| && !actions[t].Free?
    requires c in worlds[t + 1].counter.deallocated && c !in worlds[t].counter.deallocated
    ensures c in worlds[t].counter.counts && worlds[t].counter.counts[c] == 1
    ensures Owners(worlds[t + 1].handles, c) == {}
  {
    var w, a := worlds[t], actions[t];
    RunInv(worlds, actions, t);
    match a
    case Assign(h, from) =>
      DropIsLast(w, h, c);
      EmptiedInv(w, h);
      OwnersChange(Emptied(w, h).handles, h, w.handles[from], c);
    case Create(h) =>
      DropIsLast(w, h, c);
      OwnersChange(Emptied(w, h).handles, h, Handle(Column(w.next), false), c);
    case CreateIpc(h) =>
      DropIsLast(w, h, c);
      OwnersChange(Emptied(w, h).handles, h, Handle(Column(w.next), true), c);
    case WrapNew(h) =>
      DropIsLast(w, h, c);
      OwnersChange(Emptied(w, h).handles, h, Handle(Column(w.next), false), c);
    case Destroy(h) =>
      DropIsLast(w, h, c);
      assert Owners(worlds[t + 1].handles, c) <= Owners(Emptied(w, h).handles, c);
    case _ =>
  }

  /** Was `free` called for the column, while it was registered, before time t? */
  ghost predicate FreedBefore(worlds: seq<World>, actions: seq<Action>, t: nat, c: nat)
    requires |worlds| == |actions| + 1 && t < |worlds|
  {
    exists u :: 0 <= u < t && actions[u] == Free(c) && c in worlds[u].counter.counts
  }

  lemma {:induction false} ReleasedIsFreed(worlds: seq<World>, actions: seq<Action>, t: nat, c: nat)
    requires IsRun(worlds, actions) && t < |worlds|
    ensures c in worlds[t].released <==> FreedBefore(worlds, actions, t, c)
  {
    if t > 0 {
      ReleasedIsFreed(worlds, actions, t - 1, c);
      assert After(worlds[t - 1], actions[t - 1]) == worlds[t];
    }
  }

  /** A live handle is left with a deallocated column if and only if somebody called `free` for it. */
  lemma DanglesIffFreed(worlds: seq<World>, actions: seq<Action>, t: nat, h: nat, c: nat)
    requires IsRun(worlds, actions) && t < |worlds|
    requires h in worlds[t].handles && worlds[t].handles[h].column == Column(c)
    ensures c in worlds[t].counter.deallocated <==> FreedBefore(worlds, actions, t, c)
  {
    RunInv(worlds, actions, t);
    ReleasedIsFreed(worlds, actions, t, c);
  }

  /** In every run, a registered count other than 0 is the number of live handles that own the column. */
  lemma CountIsOwners(worlds: seq<World>, actions: seq<Action>, t: nat, c: nat)
    requires IsRun(worlds, actions) && t < |worlds|
    requires c in worlds[t].counter.counts && worlds[t].counter.counts[c] != 0
    ensures worlds[t].counter.counts[c] == |Owners(worlds[t].handles, c)|
  {
    RunInv(worlds, actions, t);
  }

  // ----- deregistered columns -------------------------------------------------------------------

  /** The column was deregistered, while it was registered, and not released by `free` since. */
  ghost predicate LeftToOthers(worlds: seq<World>, actions: seq<Action>, t: nat, c: nat)
    requires |worlds| == |actions| + 1 && t < |worlds|
  {
    exists v :: 0 <= v < t && actions[v] == Deregister(c) && c in worlds[v].counter.counts
                && forall k :: v < k < t ==> actions[k] != Free(c)
  }

  predicate HasCount(k: Counter, c: nat, n: nat) {
    c in k.counts && k.counts[c] == n
  }

  lemma ZeroWhenEmptied(w: World, h: nat, c: nat)
    requires Inv(w) && h in w.handles
    ensures HasCount(Emptied(w, h).counter, c, 0) <==> HasCount(w.counter, c, 0)
  {
  }

  lemma ZeroWhenGiven(w: World, h: nat, isIpc: bool, c: nat)
    requires Inv(w)
    ensures HasCount(Given(w, h, isIpc).counter, c, 0) <==> HasCount(w.counter, c, 0)
  {
  }

  /** Only deregistering makes a count 0, and only `free` ends that. */
  lemma ZeroAfter(w: World, a: Action, c: nat)
    requires Inv(w) && Allowed(w, a)
    ensures HasCount(After(w, a).counter, c, 0)
       <==> (a == Deregister(c) && c in w.counter.counts) || (HasCount(w.counter, c, 0) && a != Free(c))
  {
    match a
    case Assign(h, from) => EmptiedInv(w, h); ZeroWhenEmptied(w, h, c);
    case Create(h) => EmptiedInv(w, h); ZeroWhenEmptied(w, h, c); ZeroWhenGiven(Emptied(w, h), h, false, c);
    case CreateIpc(h) => EmptiedInv(w, h); ZeroWhenEmptied(w, h, c); ZeroWhenGiven(Emptied(w, h), h, true, c);
    case WrapNew(h) => EmptiedInv(w, h); ZeroWhenEmptied(w, h, c); ZeroWhenGiven(Emptied(w, h), h, false, c);
    case Destroy(h) => ZeroWhenEmptied(w, h, c);
    case _ =>
  }

  /** In every run, whatever handles come and go: a column that was deregistered stays in the map with count 0
      and is not deallocated until `free` is called for it, and no other column has count 0. */
  lemma {:induction false} DeregisteredIff(worlds: seq<World>, actions: seq<Action>, t: nat, c: nat)
    requires IsRun(worlds, actions) && t < |worlds|
    ensures LeftToOthers(worlds, actions, t, c) <==> c in worlds[t].counter.counts && worlds[t].counter.counts[c] == 0
    ensures LeftToOthers(worlds, actions, t, c) ==> c !in worlds[t].counter.deallocated
  {
    RunInv(worlds, actions, t);
    if t > 0 {
      var w, a := worlds[t - 1], actions[t - 1];
      RunInv(worlds, actions, t - 1);
      DeregisteredIff(worlds, actions, t - 1, c);
      ZeroAfter(w, a, c);
      LeftOneMore(worlds, actions, t, c);
    }
  }

  lemma LeftOneMore(worlds: seq<World>, actions: seq<Action>, t: nat, c: nat)
    requires |worlds| == |actions| + 1 && 0 < t < |worlds|
    ensures LeftToOthers(worlds, actions, t, c)
       <==> (actions[t - 1] == Deregister(c) && c in worlds[t - 1].counter.counts)
            || (LeftToOthers(worlds, actions, t - 1, c) && actions[t - 1] != Free(c))
  {
    if LeftToOthers(worlds, actions, t - 1, c) && actions[t - 1] != Free(c) {
      var v :| 0 <= v < t - 1 && actions[v] == Deregister(c) && c in worlds[v].counter.counts
               && forall k :: v < k < t - 1 ==> actions[k] != Free(c);
      assert forall k :: v < k < t ==> actions[k] != Free(c);
    }
  }

  /** A column once registered is registered or given back from then on. */
  lemma {:induction false} NeverForgotten(worlds: seq<World>, actions: seq<Action>, s: nat, t: nat, c: nat)
    requires IsRun(worlds, actions) && s <= t < |worlds| && c in worlds[s].counter.counts
    ensures c in worlds[t].counter.counts || c in worlds[t].counter.deallocated
  {
    if s < t { NeverForgotten(worlds, actions, s, t - 1, c); }
  }

  /** When all handles are gone, a column that was registered has been given back, if and only if it was not left
      to others by deregistering it. */
  lemma GivenBackIff(worlds: seq<World>, actions: seq<Action>, s: nat, t: nat, c: nat)
    requires IsRun(worlds, actions) && s <= t < |worlds| && worlds[t].handles == map[]
    requires c in worlds[s].counter.counts
    ensures c in worlds[t].counter.deallocated <==> !LeftToOthers(worlds, actions, t, c)
  {
    RunInv(worlds, actions, t);
    NeverForgotten(worlds, actions, s, t, c);
    DeregisteredIff(worlds, actions, t, c);
    if c in worlds[t].counter.counts { NothingLeaks(worlds, actions, t, c); }
  }

  // ----- a raw column that others have ----------------------------------------------------------

  /** What wrapping a raw column does (`GdfColumnCpp.Wrap`), whoever else has it. */
  function Wrapped(w: World, h: nat, raw: nat): World
    requires h in w.handles
  {
    var e := Emptied(w, h);
    e.(counter := e.counter.Registered(raw), handles := e.handles[h := Handle(Column(raw), false)])
  }

  /** Registering a column again does not count the new owner: the counts stay those of the owners if and only if
      nobody else owns the raw column or it was deregistered. */
  lemma WrapCountsIff(w: World, h: nat, raw: nat)
    requires Inv(w) && h in w.handles && w.handles[h].column != Column(raw)
    ensures CountsOwners(Wrapped(w, h, raw)) <==>
              Owners(w.handles, raw) == {} || (raw in w.counter.counts && w.counter.counts[raw] == 0)
  {
    var e, w' := Emptied(w, h), Wrapped(w, h, raw);
    EmptiedInv(w, h);
    OwnersChange(w.handles, h, EMPTY, raw);
    assert Owners(e.handles, raw) == Owners(w.handles, raw);
    forall c
      ensures |Owners(w'.handles, c)| == |Owners(e.handles, c)| + (if c == raw then 1 else 0)
    {
      OwnersCount(e.handles, h, Handle(Column(raw), false), c);
    }
    assert |Owners(e.handles, raw)| == 0 <==> Owners(e.handles, raw) == {};
    forall c | c != raw && c in w'.counter.counts && w'.counter.counts[c] != 0
      ensures w'.counter.counts[c] == |Owners(w'.handles, c)|
    {
      assert e.counter.counts[c] == |Owners(e.handles, c)|;
    }
  }

  /** A handle that has a column over IPC is no owner: when another handle wraps the same raw column, it is
      registered for that one, and giving up the first leaves it alone. */
  lemma IpcHandleLeavesColumn(w: World, g: nat, h: nat, c: nat)
    requires Inv(w) && g in w.handles && h in w.handles && w.handles[g] == Handle(Column(c), true)
    requires w.handles[h].column != Column(c)
    ensures var w' := Emptied(Wrapped(w, h, c), g);
            HasCount(w'.counter, c, 1) && c !in w'.counter.deallocated && Owns(w'.handles[h], c)
  {
    var w' := Wrapped(w, h, c);
    assert c !in w.counter.counts && c !in w.counter.deallocated;
    assert HasCount(w'.counter, c, 1) && w'.handles[g] == w.handles[g];
  }

  /** When all handles are gone, all that is left in the counter has been deregistered. */
  lemma NothingLeaks(worlds: seq<World>, actions: seq<Action>, t: nat, c: nat)
    requires IsRun(worlds, actions) && t < |worlds| && worlds[t].handles == map[]
    requires c in worlds[t].counter.counts
    ensures worlds[t].counter.counts[c] == 0
  {
    RunInv(worlds, actions, t);
    assert Owners(worlds[t].handles, c) == {};
  }
}
