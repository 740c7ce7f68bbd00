/**
 * Reference counting: the counting macros as steps over a heap of objects, slots
 * and owned temporaries, with deallocators that may run any code in between.
 */
module RefCounts {
  import opened Wrappers

  /** Who a slot belongs to: an object, or something outside the heap such as a static variable. */
  datatype Owner = Root | Field(obj: nat)

  /** One `PyObject *` variable in memory. */
  datatype Loc = Loc(owner: Owner, index: nat)

  /**
   * refcnt: the `ob_refcnt` of every object that is allocated and not yet freed.
   * slots: the non-NULL slots. temps: the references held by local variables of
   * all running code. dying: the objects whose deallocator has been entered and
   * has not returned. total: `_Py_RefTotal`.
   */
  datatype State = State(
    refcnt: map<nat, int>,
    slots: map<Loc, nat>,
    temps: multiset<nat>,
    dying: set<nat>,
    freed: set<nat>,
    total: int
  ) {

    /** `ob_refcnt`, read as 0 for what is not an object. */
    ghost function Count(r: nat): int {
      if r in refcnt then refcnt[r] else 0
    }

    /** The slots that hold a pointer to r. */
    ghost function PointersTo(r: nat): set<Loc> {
      set l | l in slots && slots[l] == r
    }

    ghost predicate NoDangling() {
      && (forall l :: l in slots ==> slots[l] in refcnt)
      && (forall r :: r in temps ==> r in refcnt)
      && (forall l :: l in slots && l.owner.Field? ==> l.owner.obj in refcnt)
    }

    /** Every count is the number of slots and temporaries that point at the object. */
    ghost predicate Counted() {
      forall r :: r in refcnt ==> refcnt[r] == |PointersTo(r)| + temps[r]
    }

    /** The deallocators that are running are those of the objects whose count is zero. */
    ghost predicate DyingAtZero() {
      forall r :: r in dying <==> (r in refcnt && refcnt[r] == 0)
    }

    ghost predicate Inv() {
      && NoDangling()
      && Counted()
      && DyingAtZero()
      && Totalled()
    }

    ghost predicate Totalled() {
      refcnt.Keys !! freed && total == Sum(refcnt)
    }
  }

  /** The sum of all counts. */
  ghost function Sum(m: map<nat, int>): int {
    if m == map[] then 0
    else
      var k :| k in m;
      m[k] + Sum(m - {k})
  }

  lemma {:induction false} SumRemove(m: map<nat, int>, k: nat)
    requires k in m
    ensures Sum(m) == m[k] + Sum(m - {k})
  {
    var c :| c in m && Sum(m) == m[c] + Sum(m - {c});
    if c != k {
      SumRemove(m - {c}, k);
      SumRemove(m - {k}, c);
      assert (m - {c}) - {k} == (m - {k}) - {c};
    }
  }

  lemma SumUpdate(m: map<nat, int>, k: nat, v: int)
    ensures Sum(m[k := v]) == Sum(m) + v - if k in m then m[k] else 0
  {
    var m' := m[k := v];
    SumRemove(m', k);
    if k in m {
      SumRemove(m, k);
      assert m' - {k} == m - {k};
    } else {
      assert m' - {k} == m;
    }
  }

  // ---------- the macros ----------

  ghost function IncrefOf(s: State, r: nat): State {
    s.(refcnt := s.refcnt[r := s.Count(r) + 1], temps := s.temps + multiset{r}, total := s.total + 1)
  }

  /** `_Py_DECREF` gives up one owned reference; at zero the deallocator is entered. */
  ghost function DecrefOf(s: State, r: nat): State {
    var n := s.Count(r) - 1;
    s.(refcnt := s.refcnt[r := n], temps := s.temps - multiset{r}, total := s.total - 1,
       dying := if n == 0 then s.dying + {r} else s.dying)
  }

  /** Reading the old pointer into a local variable and storing v (NULL if None) in its place. */
  ghost function Overwrite(s: State, l: Loc, v: Option<nat>): State {
    var old_ := if l in s.slots then multiset{s.slots[l]} else multiset{};
    s.(slots := if v.Some? then s.slots[l := v.value] else s.slots - {l},
       temps := (if v.Some? then s.temps - multiset{v.value} else s.temps) + old_)
  }

  /** `Py_CLEAR(l)`, `Py_SETREF(l, v)` and `Py_XSETREF(l, v)`: overwrite first, then give up the old reference. */
  ghost function ReplaceOf(s: State, l: Loc, v: Option<nat>): State {
    var s' := Overwrite(s, l, v);
    if l in s.slots then DecrefOf(s', s.slots[l]) else s'
  }

  /** The end of a deallocator: the memory is released. */
  ghost function FreeOf(s: State, r: nat): State {
    s.(refcnt := s.refcnt - {r}, dying := s.dying - {r}, freed := s.freed + {r})
  }

  ghost function NewOf(s: State, r: nat): State {
    s.(refcnt := s.refcnt[r := 1], temps := s.temps + multiset{r}, total := s.total + 1)
  }

  // ---------- the steps any running code can take ----------

  datatype Event =
    | New(r: nat)
    | Incref(r: nat)
    | Decref(r: nat)
    | Store(l: Loc, v: Option<nat>)
    | Free(r: nat)

  ghost predicate OwnerAlive(s: State, l: Loc) {
    l.owner.Field? ==> l.owner.obj in s.refcnt
  }

  /**
   * What well-behaved code may do at any moment, also while deallocators are
   * running: it can only increment an object it has a pointer to, only give up
   * references it owns, and only write to slots of objects that still exist.
   * The macros are a `Store` followed by a `Decref` of the old pointer.
   */
  ghost predicate Enabled(s: State, e: Event) {
    match e
    case New(r) => r !in s.refcnt && r !in s.freed
    case Incref(r) => r in s.temps || exists l :: l in s.slots && s.slots[l] == r
    case Decref(r) => r in s.temps
    case Store(l, v) => OwnerAlive(s, l) && (v.Some? ==> v.value in s.temps)
    case Free(r) => r in s.dying && forall l :: l in s.slots ==> l.owner != Field(r)
  }

  ghost function Apply(s: State, e: Event): State {
    match e
    case New(r) => NewOf(s, r)
    case Incref(r) => IncrefOf(s, r)
    case Decref(r) => DecrefOf(s, r)
    case Store(l, v) => Overwrite(s, l, v)
    case Free(r) => FreeOf(s, r)
  }

  // ---------- every step keeps the counts ----------

  lemma IncrefCounts(s: State, r: nat)
    requires s.Counted() && r in s.refcnt
    ensures IncrefOf(s, r).Counted()
  {
  }

  lemma IncrefDangling(s: State, r: nat)
    requires s.NoDangling() && r in s.refcnt
    ensures IncrefOf(s, r).NoDangling()
  {
  }

  lemma IncrefDying(s: State, r: nat)
    requires s.DyingAtZero() && r in s.refcnt && s.refcnt[r] > 0
    ensures IncrefOf(s, r).DyingAtZero()
  {
  }

  lemma IncrefTotals(s: State, r: nat)
    requires s.Totalled() && r in s.refcnt
    ensures IncrefOf(s, r).Totalled()
  {
    SumUpdate(s.refcnt, r, s.refcnt[r] + 1);
    hide Sum;
  }

  lemma IncrefKeeps(s: State, r: nat)
    requires s.Inv() && Enabled(s, Incref(r))
    ensures IncrefOf(s, r).Inv()
  {
    PointedIsCounted(s, r);
    IncrefCounts(s, r);
    IncrefDangling(s, r);
    IncrefDying(s, r);
    IncrefTotals(s, r);
    hide IncrefOf, State.Counted, State.DyingAtZero, State.NoDangling, State.Totalled;
  }

  /** A pointer anywhere makes the count positive. */
  lemma PointedIsCounted(s: State, r: nat)
    requires s.Inv()
    requires r in s.temps || exists l :: l in s.slots && s.slots[l] == r
    ensures r in s.refcnt && s.refcnt[r] > 0
  {
    if r !in s.temps {
      var l :| l in s.slots && s.slots[l] == r;
      assert l in s.PointersTo(r);
    }
  }

  lemma DecrefCounts(s: State, r: nat)
    requires s.Counted() && r in s.temps && r in s.refcnt
    ensures DecrefOf(s, r).Counted()
  {
  }

  lemma DecrefDying(s: State, r: nat)
    requires s.DyingAtZero() && r in s.refcnt && s.refcnt[r] > 0
    ensures DecrefOf(s, r).DyingAtZero()
  {
  }

  lemma DecrefDangling(s: State, r: nat)
    requires s.NoDangling() && r in s.refcnt
    ensures DecrefOf(s, r).NoDangling()
  {
  }

  lemma DecrefTotals(s: State, r: nat)
    requires s.Totalled() && r in s.refcnt
    ensures DecrefOf(s, r).Totalled()
  {
    SumUpdate(s.refcnt, r, s.refcnt[r] - 1);
    hide Sum;
  }

  lemma DecrefKeeps(s: State, r: nat)
    requires s.Inv() && r in s.temps
    ensures DecrefOf(s, r).Inv()
  {
    PointedIsCounted(s, r);
    DecrefCounts(s, r);
    DecrefDying(s, r);
    DecrefDangling(s, r);
    DecrefTotals(s, r);
    hide DecrefOf, State.Counted, State.DyingAtZero, State.NoDangling, State.Totalled;
  }

  lemma OverwritePointers(s: State, l: Loc, v: Option<nat>, r: nat)
    ensures |Overwrite(s, l, v).PointersTo(r)|
         == |s.PointersTo(r)| - (if l in s.slots && s.slots[l] == r then 1 else 0) + if v == Some(r) then 1 else 0
  {
    OverwrittenSet(s, l, v, r);
    var p := s.PointersTo(r);
    assert l in p <==> (l in s.slots && s.slots[l] == r);
    hide Overwrite, State.PointersTo;
  }

  lemma OverwrittenSet(s: State, l: Loc, v: Option<nat>, r: nat)
    ensures Overwrite(s, l, v).PointersTo(r) == s.PointersTo(r) - {l} + if v == Some(r) then {l} else {}
  {
  }

  lemma OverwriteTemps(s: State, l: Loc, v: Option<nat>, r: nat)
    requires v.Some? ==> v.value in s.temps
    ensures Overwrite(s, l, v).temps[r]
         == s.temps[r] + (if l in s.slots && s.slots[l] == r then 1 else 0) - if v == Some(r) then 1 else 0
  {
  }

  lemma OverwriteCounts(s: State, l: Loc, v: Option<nat>)
    requires s.Counted() && (v.Some? ==> v.value in s.temps)
    ensures Overwrite(s, l, v).Counted()
  {
    var s' := Overwrite(s, l, v);
    forall r | r in s'.refcnt
      ensures s'.refcnt[r] == |s'.PointersTo(r)| + s'.temps[r]
    {
      OverwritePointers(s, l, v, r);
      OverwriteTemps(s, l, v, r);
      hide State.PointersTo;
    }
  }

  lemma OverwriteDangling(s: State, l: Loc, v: Option<nat>)
    requires s.NoDangling() && Enabled(s, Store(l, v))
    ensures Overwrite(s, l, v).NoDangling()
  {
  }

  lemma OverwriteRest(s: State, l: Loc, v: Option<nat>)
    requires s.Totalled() && s.DyingAtZero()
    ensures Overwrite(s, l, v).Totalled() && Overwrite(s, l, v).DyingAtZero()
  {
  }

  /** The state between the two halves of a macro: the old pointer now lives in a local variable. */
  lemma OverwriteKeeps(s: State, l: Loc, v: Option<nat>)
    requires s.Inv() && Enabled(s, Store(l, v))
    ensures Overwrite(s, l, v).Inv()
  {
    OverwriteCounts(s, l, v);
    OverwriteDangling(s, l, v);
    OverwriteRest(s, l, v);
    hide Overwrite, State.Totalled, State.DyingAtZero, State.Counted, State.NoDangling;
  }

  lemma ReplaceKeeps(s: State, l: Loc, v: Option<nat>)
    requires s.Inv() && Enabled(s, Store(l, v))
    ensures ReplaceOf(s, l, v).Inv()
  {
    OverwriteKeeps(s, l, v);
    if l in s.slots {
      DecrefKeeps(Overwrite(s, l, v), s.slots[l]);
    }
  }

  lemma FreeKeeps(s: State, r: nat)
    requires s.Inv() && Enabled(s, Free(r))
    ensures FreeOf(s, r).Inv()
  {
    hide Sum;
    var s' := FreeOf(s, r);
    SumRemove(s.refcnt, r);
    DyingIsUnreferenced(s, r);
    forall q ensures s'.PointersTo(q) == s.PointersTo(q) {}
  }

  lemma NewKeeps(s: State, r: nat)
    requires s.Inv() && Enabled(s, New(r))
    ensures NewOf(s, r).Inv()
  {
    hide Sum;
    var s' := NewOf(s, r);
    SumUpdate(s.refcnt, r, 1);
    forall q ensures s'.PointersTo(q) == s.PointersTo(q) {}
    assert s.PointersTo(r) == {};
  }

  lemma StepKeeps(s: State, e: Event)
    requires s.Inv() && Enabled(s, e)
    ensures Apply(s, e).Inv()
  {
    match e
    case New(r) => NewKeeps(s, r);
    case Incref(r) => IncrefKeeps(s, r);
    case Decref(r) => DecrefKeeps(s, r);
    case Store(l, v) => OverwriteKeeps(s, l, v);
    case Free(r) => FreeKeeps(s, r);
  }

  /** While an object's deallocator runs, nothing anywhere points at the object. */
  lemma DyingIsUnreferenced(s: State, r: nat)
    requires s.Inv() && r in s.dying
    ensures r !in s.temps && forall l :: l in s.slots ==> s.slots[l] != r
  {
    assert |s.PointersTo(r)| == 0 && s.temps[r] == 0;
    forall l | l in s.slots ensures s.slots[l] != r {
      assert l !in s.PointersTo(r);
    }
  }

  // ---------- whole runs ----------

  const EMPTY: State := State(map[], map[], multiset{}, {}, {}, 0)

  /** The states of a run from the empty heap, under the given events. */
  ghost predicate IsRun(states: seq<State>, events: seq<Event>) {
    && |states| == |events| + 1
    && states[0] == EMPTY
    && forall i :: 0 <= i < |events| ==> Follows(states[i], events[i], states[i + 1])
  }

  ghost predicate Follows(s: State, e: Event, s': State) {
    Enabled(s, e) && s' == Apply(s, e)
  }

  /** Every state of every run is consistent, whatever code the deallocators run. */
  lemma {:induction false} RunsKeepCounts(states: seq<State>, events: seq<Event>, i: nat)
    requires IsRun(states, events) && i < |states|
    ensures states[i].Inv()
  {
    if i > 0 {
      RunsKeepCounts(states, events, i - 1);
      assert Follows(states[i - 1], events[i - 1], states[i]);
      StepKeeps(states[i - 1], events[i - 1]);
    }
  }

  /** Freed objects stay freed. */
  lemma {:induction false} FreedForever(states: seq<State>, events: seq<Event>, i: nat, j: nat)
    requires IsRun(states, events) && i <= j < |states|
    ensures states[i].freed <= states[j].freed
  {
    if i < j {
      FreedForever(states, events, i, j - 1);
      RunsKeepCounts(states, events, j - 1);
      assert Follows(states[j - 1], events[j - 1], states[j]);
    }
  }

  /** No object is freed twice in any run. */
  lemma NoDoubleFree(states: seq<State>, events: seq<Event>, i: nat, j: nat, r: nat)
    requires IsRun(states, events) && i < j < |events|
    requires events[i] == Free(r)
    ensures events[j] != Free(r)
  {
    RunsKeepCounts(states, events, i);
    assert Follows(states[i], events[i], states[i + 1]);
    FreedForever(states, events, i + 1, j);
    RunsKeepCounts(states, events, j);
    assert Follows(states[j], events[j], states[j + 1]);
  }

  // ---------- taking a reference and giving it up ----------

  lemma CountRestored(m: map<nat, int>, r: nat)
    requires r in m
    ensures m[r := m[r] + 1][r := m[r] + 1 - 1] == m
  {
  }

  lemma TempRestored(m: multiset<nat>, r: nat)
    ensures m + multiset{r} - multiset{r} == m
  {
  }

  /** Giving up the reference an increment has just given restores everything, and never enters a deallocator. */
  lemma IncrefThenDecref(s: State, r: nat)
    requires s.Inv() && Enabled(s, Incref(r))
    ensures var t := IncrefOf(s, r);
            && r in t.temps && t.refcnt == s.refcnt[r := s.refcnt[r] + 1]
            && DecrefOf(t, r) == s
  {
    PointedIsCounted(s, r);
    CountRestored(s.refcnt, r);
    TempRestored(s.temps, r);
    hide Sum, State.Inv, State.PointersTo;
  }

  // ---------- the order of the two halves matters ----------

  /** The order the header warns about: decrement while the slot still holds the pointer. */
  ghost function NaiveDecref(s: State, l: Loc): State
    requires l in s.slots
  {
    var r := s.slots[l];
    var n := s.Count(r) - 1;
    s.(refcnt := s.refcnt[r := n], total := s.total - 1, dying := if n == 0 then s.dying + {r} else s.dying)
  }

  /**
   * Decrementing first lets a deallocator start while a slot points at its object
   * exactly when the slot held the last reference; overwriting first never does.
   */
  lemma NaiveOrderExposes(s: State, l: Loc)
    requires s.Inv() && l in s.slots
    ensures (exists m :: m in NaiveDecref(s, l).slots && NaiveDecref(s, l).slots[m] in NaiveDecref(s, l).dying)
       <==> s.refcnt[s.slots[l]] == 1
    ensures forall m :: m in ReplaceOf(s, l, None).slots
              ==> ReplaceOf(s, l, None).slots[m] !in ReplaceOf(s, l, None).dying
  {
    var s' := NaiveDecref(s, l);
    assert s'.slots[l] in s'.dying || s.refcnt[s.slots[l]] != 1;
    forall m | m in s.slots ensures s.slots[m] !in s.dying {
      if s.slots[m] in s.dying { DyingIsUnreferenced(s, s.slots[m]); }
    }
    ReplaceKeeps(s, l, None);
    var t := ReplaceOf(s, l, None);
    forall m | m in t.slots ensures t.slots[m] !in t.dying {
      if t.slots[m] in t.dying { DyingIsUnreferenced(t, t.slots[m]); }
    }
  }

  // ---------- reachability ----------

  ghost predicate Rooted(s: State, r: nat) {
    r in s.temps || exists l :: l in s.slots && l.owner == Root && s.slots[l] == r
  }

  ghost predicate Edge(s: State, p: nat, r: nat) {
    exists l :: l in s.slots && l.owner == Field(p) && s.slots[l] == r
  }

  ghost predicate IsPath(s: State, path: seq<nat>, r: nat) {
    && path != []
    && Rooted(s, path[0])
    && path[|path| - 1] == r
    && forall i {:trigger path[i]} :: 0 < i < |path| ==> Edge(s, path[i - 1], path[i])
  }

  ghost predicate Reachable(s: State, r: nat) {
    exists path :: IsPath(s, path, r)
  }

  /** The objects can be numbered so that every pointer leads to a smaller number. */
  ghost predicate Numbers(s: State, rank: map<nat, nat>) {
    && s.refcnt.Keys <= rank.Keys
    && forall p, r :: p in s.refcnt && r in s.refcnt && Edge(s, p, r) ==> rank[r] < rank[p]
  }

  ghost predicate Acyclic(s: State) {
    exists rank :: Numbers(s, rank)
  }

  lemma RootedIsReachable(s: State, r: nat)
    ensures Rooted(s, r) ==> Reachable(s, r)
  {
    assert Rooted(s, r) ==> IsPath(s, [r], r);
  }

  lemma EdgeExtends(s: State, p: nat, r: nat)
    ensures Reachable(s, p) && Edge(s, p, r) ==> Reachable(s, r)
  {
    if Reachable(s, p) && Edge(s, p, r) {
      var path :| IsPath(s, path, p);
      assert IsPath(s, path + [r], r);
    }
  }

  /** A live object that cannot be reached is kept alive by another one that cannot be reached. */
  lemma LeakIsSelfSupporting(s: State, r: nat) returns (p: nat)
    requires s.Inv() && s.dying == {}
    requires r in s.refcnt && !Reachable(s, r)
    ensures p in s.refcnt && !Reachable(s, p) && Edge(s, p, r)
  {
    RootedIsReachable(s, r);
    assert s.refcnt[r] != 0;
    assert s.PointersTo(r) != {};
    var l :| l in s.PointersTo(r);
    p := l.owner.obj;
    EdgeExtends(s, p, r);
  }

  /** Without cycles nothing leaks. */
  lemma {:induction false} AcyclicIsReachable(s: State, rank: map<nat, nat>, bound: nat, r: nat)
    requires s.Inv() && s.dying == {} && Numbers(s, rank)
    requires forall q :: q in s.refcnt ==> rank[q] <= bound
    requires r in s.refcnt
    ensures Reachable(s, r)
    decreases bound - rank[r]
  {
    if !Reachable(s, r) {
      var p := LeakIsSelfSupporting(s, r);
      AcyclicIsReachable(s, rank, bound, p);
    }
  }

  lemma {:induction false} RankBound(rank: map<nat, nat>) returns (bound: nat)
    ensures forall q :: q in rank ==> rank[q] <= bound
    decreases |rank|
  {
    if rank == map[] {
      bound := 0;
    } else {
      var k :| k in rank;
      var b := RankBound(rank - {k});
      bound := if rank[k] > b then rank[k] else b;
      assert forall q :: q in rank ==> q == k || q in rank - {k};
    }
  }

  // ---------- the cascade ----------

  ghost function Restrict(slots: map<Loc, nat>, live: set<nat>): map<Loc, nat> {
    map l | l in slots && (l.owner.Field? ==> l.owner.obj in live) :: slots[l]
  }

  /**
   * t is s after a cascade: some objects are freed together with all their slots,
   * and everything else is as it was. The counts of t follow, since they count.
   */
  ghost predicate Cascade(s: State, t: State) {
    && t.refcnt.Keys <= s.refcnt.Keys
    && t.freed == s.freed + (s.refcnt.Keys - t.refcnt.Keys)
    && t.temps == s.temps
    && t.dying == s.dying
    && t.slots == Restrict(s.slots, t.refcnt.Keys)
  }

  lemma SameShape(s: State, s': State, t: State)
    requires Cascade(s, t)
    requires s'.refcnt.Keys == s.refcnt.Keys && s'.freed == s.freed && s'.temps == s.temps
    requires s'.dying == s.dying && s'.slots == s.slots
    ensures Cascade(s', t)
  {
  }

  /** A state with no pointer in a freed object is a cascade of itself. */
  lemma NothingFreed(s: State)
    requires s.NoDangling()
    ensures Cascade(s, s)
  {
  }

  lemma RestrictShrinks(slots: map<Loc, nat>, live: set<nat>)
    ensures |Restrict(slots, live)| <= |slots|
  {
    var d := Restrict(slots, live);
    assert d.Keys <= slots.Keys;
    SubsetSize(d.Keys, slots.Keys);
  }

  lemma {:induction false} SubsetSize<T>(a: set<T>, b: set<T>)
    requires a <= b
    ensures |a| <= |b|
  {
    assert b == a + (b - a);
  }

  lemma PathPrefix(s: State, path: seq<nat>, r: nat)
    requires IsPath(s, path, r) && |path| >= 2
    ensures IsPath(s, path[..|path| - 1], path[|path| - 2]) && Edge(s, path[|path| - 2], r)
  {
    hide Edge;
    var n := |path|;
    assert path[n - 1] == r;
  }

  /** What could be reached before survives. */
  lemma {:induction false} ReachableSurvives(s: State, t: State, path: seq<nat>, r: nat)
    requires Cascade(s, t) && t.NoDangling() && IsPath(s, path, r)
    ensures r in t.refcnt
    decreases |path|
  {
    hide Sum;
    var n := |path|;
    if n == 1 {
      if r !in s.temps {
        var l :| l in s.slots && l.owner == Root && s.slots[l] == r;
        assert l in t.slots;
      }
    } else {
      var p := path[n - 2];
      PathPrefix(s, path, r);
      ReachableSurvives(s, t, path[..n - 1], p);
      hide IsPath, Rooted;
      var l :| l in s.slots && l.owner == Field(p) && s.slots[l] == r;
      assert l in t.slots;
    }
  }

  lemma PathBefore(s: State, t: State, path: seq<nat>, r: nat)
    requires Cascade(s, t) && IsPath(t, path, r)
    ensures IsPath(s, path, r)
  {
  }

  /**
   * Garbage is collected completely: on a heap without cycles a cascade frees
   * exactly the objects that can no longer be reached. The reachable ones survive
   * on any heap.
   */
  lemma CascadeIsExact(s: State, t: State, r: nat)
    requires Cascade(s, t) && t.Inv() && t.dying == {}
    ensures Reachable(s, r) ==> r in t.refcnt
    ensures Acyclic(s) && r in t.refcnt ==> Reachable(s, r)
  {
    if Reachable(s, r) {
      var path :| IsPath(s, path, r);
      ReachableSurvives(s, t, path, r);
    }
    if Acyclic(s) && r in t.refcnt {
      StillReachable(s, t, r);
      var path :| IsPath(t, path, r);
      PathBefore(s, t, path, r);
    }
  }

  /**
   * t is what garbage collection by counting should leave of s: if no deallocator
   * is running and s has no cycles, exactly the objects that can be reached in s,
   * all of which can still be reached.
   */
  ghost predicate Collected(s: State, t: State) {
    s.dying == {} && Acyclic(s) ==>
      && (forall r :: r in t.refcnt <==> Reachable(s, r))
      && (forall r :: r in t.refcnt ==> Reachable(t, r))
  }

  lemma CascadeCollects(s: State, t: State)
    requires Cascade(s, t) && t.Inv()
    ensures Collected(s, t)
  {
    hide State.Inv, Acyclic, Reachable, Cascade;
    SameDying(s, t);
    if s.dying == {} && Acyclic(s) {
      forall r ensures (r in t.refcnt <==> Reachable(s, r)) && (r in t.refcnt ==> Reachable(t, r)) {
        CollectedAt(s, t, r);
      }
    }
  }

  lemma SameDying(s: State, t: State)
    requires Cascade(s, t)
    ensures t.dying == s.dying
  {
  }

  lemma CollectedAt(s: State, t: State, r: nat)
    requires Cascade(s, t) && t.Inv() && t.dying == {} && Acyclic(s)
    ensures r in t.refcnt <==> Reachable(s, r)
    ensures r in t.refcnt ==> Reachable(t, r)
  {
    CascadeIsExact(s, t, r);
    if r in t.refcnt {
      StillReachable(s, t, r);
    }
  }

  lemma StillReachable(s: State, t: State, r: nat)
    requires Cascade(s, t) && t.Inv() && t.dying == {} && Acyclic(s) && r in t.refcnt
    ensures Reachable(t, r)
  {
    var rank :| Numbers(s, rank);
    NumbersAfter(s, t, rank);
    var bound := RankBound(rank);
    AcyclicIsReachable(t, rank, bound, r);
  }

  lemma NumbersAfter(s: State, t: State, rank: map<nat, nat>)
    requires Cascade(s, t) && Numbers(s, rank)
    ensures Numbers(t, rank)
  {
  }

  // ---------- the interpreter's memory, updated in place ----------

  /** A decrement either is the whole story or enters one more deallocator. */
  lemma DecrefShape(s: State, r: nat)
    requires s.Inv() && r in s.temps
    ensures var t := DecrefOf(s, r);
            && r in s.refcnt
            && (s.refcnt[r] != 1 ==> Cascade(s.(temps := s.temps - multiset{r}), t))
            && (s.refcnt[r] == 1 ==> r in t.dying && |t.refcnt.Keys - t.dying| < |s.refcnt.Keys - s.dying|)
  {
    PointedIsCounted(s, r);
    var t := DecrefOf(s, r);
    if s.refcnt[r] != 1 {
      DecrefDangling(s, r);
      NothingFreed(t);
      SameShape(t, s.(temps := t.temps), t);
    } else {
      assert t.refcnt.Keys - t.dying == (s.refcnt.Keys - s.dying) - {r};
    }
  }

  /** Dropping the last reference and running the deallocator to its end, as one cascade. */
  lemma DeallocCascade(s: State, r: nat, t: State)
    requires s.Inv() && r in s.temps
    requires s.refcnt[r] == 1 && Cascade(DecrefOf(s, r).(dying := s.dying), t)
    ensures Cascade(s.(temps := s.temps - multiset{r}), t)
  {
  }

  /** Overwriting a slot and dropping its old pointer, as one cascade. */
  lemma ReplaceCascade(s: State, l: Loc, v: Option<nat>, t: State)
    requires l in s.slots
    requires var s' := Overwrite(s, l, v); Cascade(s'.(temps := s'.temps - multiset{s.slots[l]}), t)
    ensures Cascade(Replaced(s, l, v), t)
  {
    hide Sum;
    var s' := Overwrite(s, l, v);
    var gone := multiset{s.slots[l]};
    assert s'.temps - gone == Replaced(s, l, v).temps;
  }

  /** A NULL slot has no old pointer to drop. */
  lemma NullReplaced(s: State, l: Loc, v: Option<nat>)
    requires l !in s.slots
    ensures Overwrite(s, l, v).(temps := Overwrite(s, l, v).temps - multiset{}) == Replaced(s, l, v)
  {
    hide Sum;
    assert s.slots - {l} == s.slots;
    assert Overwrite(s, l, v).temps - multiset{} == Replaced(s, l, v).temps;
  }

  lemma SlotAfter(s: State, l: Loc, v: Option<nat>, t: State)
    requires Cascade(Replaced(s, l, v), t)
    ensures v.None? ==> l !in t.slots
    ensures v.Some? && OwnerAlive(t, l) ==> l in t.slots && t.slots[l] == v.value
  {
    hide Sum;
  }

  lemma WhatOverwriteDoes(s: State, l: Loc, v: Option<nat>)
    ensures var t := Overwrite(s, l, v);
            && t.refcnt == s.refcnt && t.total == s.total
            && t.slots == (if v.Some? then s.slots[l := v.value] else s.slots - {l})
            && t.temps == (if v.Some? then s.temps - multiset{v.value} else s.temps)
                          + (if l in s.slots then multiset{s.slots[l]} else multiset{})
            && t.dying == s.dying && t.freed == s.freed
            && (l in s.slots ==> s.slots[l] in t.temps)
  {
    hide Sum;
  }

  /** The heap with slot l overwritten by v, whose reference moves from a local variable into the slot. */
  ghost function Replaced(s: State, l: Loc, v: Option<nat>): State {
    if v.Some? then s.(slots := s.slots[l := v.value], temps := s.temps - multiset{v.value})
    else s.(slots := s.slots - {l})
  }

  /** A deallocator in progress: t is s after a cascade in which some slots of r have been cleared too. */
  ghost predicate Clearing(s: State, t: State, r: nat) {
    && t.refcnt.Keys <= s.refcnt.Keys
    && t.freed == s.freed + (s.refcnt.Keys - t.refcnt.Keys)
    && t.temps == s.temps
    && t.dying == s.dying
    && (forall l :: l in t.slots ==> l in s.slots && t.slots[l] == s.slots[l])
    && (forall l :: l in s.slots && l !in t.slots ==> l.owner == Field(r) || !OwnerAlive(t, l))
  }

  lemma ClearingBegins(s: State, r: nat)
    ensures Clearing(s, s, r)
  {
  }

  lemma ClearingShape(s: State, t: State, r: nat)
    requires Clearing(s, t, r)
    ensures t.dying == s.dying && |t.refcnt.Keys - t.dying| <= |s.refcnt.Keys - s.dying|
  {
    SubsetSize(t.refcnt.Keys - t.dying, s.refcnt.Keys - s.dying);
  }

  /** A deallocator may clear the slots of its object. */
  lemma DyingOwnerAlive(s: State, t: State, r: nat, l: Loc)
    requires Clearing(s, t, r) && t.Inv() && r in s.dying && l.owner == Field(r)
    ensures OwnerAlive(t, l)
    ensures t.dying == s.dying && |t.refcnt.Keys - t.dying| <= |s.refcnt.Keys - s.dying|
  {
    ClearingShape(s, t, r);
  }

  lemma ClearingStep(s: State, t: State, r: nat, l: Loc, u: State)
    requires Clearing(s, t, r) && l.owner == Field(r) && l in t.slots && Cascade(Replaced(t, l, None), u)
    ensures Clearing(s, u, r)
    ensures |u.slots| < |t.slots|
  {
    RestrictShrinks(t.slots - {l}, u.refcnt.Keys);
  }

  lemma ClearingDone(s: State, t: State, r: nat)
    requires Clearing(s, t, r) && t.Inv() && r in t.dying
    requires forall l :: l in t.slots ==> l.owner != Field(r)
    ensures Cascade(s.(dying := s.dying - {r}), FreeOf(t, r))
  {
    var s', u := s.(dying := s.dying - {r}), FreeOf(t, r);
    assert u.freed == s'.freed + (s'.refcnt.Keys - u.refcnt.Keys);
    assert u.slots == Restrict(s'.slots, u.refcnt.Keys);
  }

  /** `now` is the abstract state the three fields are part of. */
  class Memory {
    var refcnt: map<nat, int>
    var slots: map<Loc, nat>
    var total: int
    ghost var now: State
    ghost var states: seq<State>
    ghost var events: seq<Event>

    /** The current state ends a run, in which every method records each of its steps. */
    ghost predicate Valid()
      reads this
    {
      && now.refcnt == refcnt && now.slots == slots && now.total == total
      && IsRun(states, events) && states[|states| - 1] == now
    }

    /** The present state is what a cascade from s should leave. */
    lemma NowCollected(s: State)
      requires Valid() && Cascade(s, now)
      ensures Collected(s, now)
    {
      Consistent();
      CascadeCollects(s, now);
    }

    lemma Consistent()
      requires Valid()
      ensures now.Inv()
    {
      RunsKeepCounts(states, events, |states| - 1);
    }

    constructor ()
      ensures Valid() && now == EMPTY
    {
      refcnt, slots, total := map[], map[], 0;
      now, states, events := EMPTY, [EMPTY], [];
    }

    ghost method Record(e: Event, s: State)
      requires IsRun(states, events) && states[|states| - 1] == now
      requires Follows(now, e, s)
      requires s.refcnt == refcnt && s.slots == slots && s.total == total
      modifies this`now, this`states, this`events
      ensures Valid() && now == s && old(states) <= states
    {
      now := s;
      states, events := states + [s], events + [e];
    }

    method NewReference(r: nat)
      requires Valid() && r !in refcnt && r !in now.freed
      modifies this
      ensures Valid() && old(states) <= states && now == NewOf(old(now), r)
      ensures refcnt == old(refcnt)[r := 1] && slots == old(slots) && total == old(total) + 1
      ensures now.temps == old(now).temps + multiset{r} && now.dying == old(now).dying && now.freed == old(now).freed
    {
      total := total + 1;
      refcnt := refcnt[r := 1];
      Record(New(r), NewOf(now, r));
    }

    method Incref(r: nat)
      requires Valid() && (r in now.temps || exists l :: l in slots && slots[l] == r)
      modifies this
      ensures Valid() && old(states) <= states && now == IncrefOf(old(now), r)
      ensures r in old(refcnt) && refcnt == old(refcnt)[r := old(refcnt)[r] + 1]
      ensures slots == old(slots) && total == old(total) + 1
      ensures now.temps == old(now).temps + multiset{r} && now.dying == old(now).dying && now.freed == old(now).freed
    {
      Consistent();
      PointedIsCounted(now, r);
      total := total + 1;
      refcnt := refcnt[r := refcnt[r] + 1];
      Record(Event.Incref(r), IncrefOf(now, r));
    }

    /** The two counters of `_Py_DECREF`. */
    method Decrement(r: nat)
      requires Valid() && now.Inv() && r in now.temps
      modifies this
      ensures Valid() && old(states) <= states && now == DecrefOf(old(now), r)
      ensures r in old(refcnt) && refcnt == old(refcnt)[r := old(refcnt)[r] - 1]
      ensures slots == old(slots) && total == old(total) - 1
      ensures now.temps == old(now).temps - multiset{r} && now.freed == old(now).freed
      ensures now.dying == if old(refcnt)[r] == 1 then old(now).dying + {r} else old(now).dying
    {
      PointedIsCounted(now, r);
      ghost var t := DecrefOf(now, r);
      assert t.refcnt == refcnt[r := refcnt[r] - 1] && t.slots == slots && t.total == total - 1;
      assert Follows(now, Event.Decref(r), t);
      hide Sum, State.Inv, IsRun, Follows, DecrefOf;
      total := total - 1;
      refcnt := refcnt[r := refcnt[r] - 1];
      Record(Event.Decref(r), t);
    }

    method Decref(r: nat)
      requires Valid() && r in now.temps
      modifies this
      ensures Valid() && old(states) <= states
      ensures Cascade(old(now).(temps := old(now).temps - multiset{r}), now)
      decreases |now.refcnt.Keys - now.dying|, 0
    {
      Consistent();
      ghost var s := now;
      DecrefShape(s, r);
      Decrement(r);
      hide Sum, State.Inv, IsRun, Cascade;
      if refcnt[r] == 0 {
        assert s.refcnt[r] == 1;
        hide DecrefOf;
        Dealloc(r);
        DeallocCascade(s, r, now);
      } else {
        assert s.refcnt[r] != 1;
      }
    }

    /** `Py_INCREF` and `Py_DECREF` of the same reference in a row change nothing. */
    method IncrefAndDecref(r: nat)
      requires Valid() && (r in now.temps || exists l :: l in slots && slots[l] == r)
      modifies this
      ensures Valid() && old(states) <= states
      ensures refcnt == old(refcnt) && slots == old(slots) && total == old(total)
      ensures now.temps == old(now).temps && now.dying == old(now).dying && now.freed == old(now).freed
    {
      Consistent();
      PointedIsCounted(now, r);
      IncrefThenDecref(now, r);
      ghost var was := refcnt;
      Incref(r);
      Consistent();
      hide Sum, State.Inv, IsRun;
      assert refcnt[r] != 1;
      Decrement(r);
      if refcnt[r] == 0 {
        // `_Py_Dealloc` would be called here
        assert false;
      }
      assert refcnt == was;
    }

    /** `_Py_XINCREF` */
    method XIncref(r: Option<nat>)
      requires Valid() && (r.Some? ==> r.value in now.temps || exists l :: l in slots && slots[l] == r.value)
      modifies this
      ensures Valid() && old(states) <= states
      ensures r.None? ==> now == old(now)
      ensures r.Some? ==> r.value in old(refcnt) && refcnt == old(refcnt)[r.value := old(refcnt)[r.value] + 1]
      ensures r.Some? ==> slots == old(slots) && total == old(total) + 1
      ensures r.Some? ==>
                now.temps == old(now).temps + multiset{r.value} && now.dying == old(now).dying && now.freed == old(now).freed
    {
      if r.Some? {
        Incref(r.value);
      }
    }

    /** `_Py_XDECREF` */
    method XDecref(r: Option<nat>)
      requires Valid() && (r.Some? ==> r.value in now.temps)
      modifies this
      ensures Valid() && old(states) <= states
      ensures Cascade(old(now).(temps := old(now).temps - if r.Some? then multiset{r.value} else multiset{}), now)
    {
      if r.Some? {
        Decref(r.value);
      } else {
        Consistent();
        NothingFreed(now);
      }
    }

    /** The end of a deallocator. */
    method Release(r: nat)
      requires Valid() && now.Inv() && r in now.dying && forall l :: l in slots ==> l.owner != Field(r)
      modifies this
      ensures Valid() && old(states) <= states && now == FreeOf(old(now), r)
      ensures refcnt == old(refcnt) - {r} && slots == old(slots) && total == old(total) && now.temps == old(now).temps
      ensures now.dying == old(now).dying - {r} && now.freed == old(now).freed + {r}
    {
      refcnt := refcnt - {r};
      Record(Free(r), FreeOf(now, r));
    }

    /** A deallocator: clear every owned slot, in any order, then release the memory. */
    method Dealloc(r: nat)
      requires Valid() && r in now.dying
      modifies this
      ensures Valid() && old(states) <= states
      ensures Cascade(old(now).(dying := old(now).dying - {r}), now)
      ensures r in now.freed
      decreases |now.refcnt.Keys - now.dying|, 2
    {
      hide Sum, State.Inv, IsRun, Clearing, Cascade, Collected;
      ghost var s := now;
      ClearingBegins(s, r);
      while exists l :: l in slots && l.owner == Field(r)
        invariant Valid() && old(states) <= states
        invariant Clearing(s, now, r)
        decreases |slots|
      {
        var l :| l in slots && l.owner == Field(r);
        Consistent();
        ghost var t := now;
        DyingOwnerAlive(s, t, r, l);
        Clear(l);
        ClearingStep(s, t, r, l, now);
      }
      ClearingShape(s, now, r);
      Consistent();
      ClearingDone(s, now, r);
      Release(r);
    }

    /** `Py_CLEAR` */
    method Clear(l: Loc)
      requires Valid() && OwnerAlive(now, l)
      modifies this
      ensures Valid() && old(states) <= states
      ensures Cascade(Replaced(old(now), l, None), now) && Collected(Replaced(old(now), l, None), now)
      ensures l !in slots
      decreases |now.refcnt.Keys - now.dying|, 1
    {
      if l in slots {
        ghost var s := now;
        var tmp := slots[l];
        slots := slots - {l};
        Record(Store(l, None), Overwrite(now, l, None));
        Decref(tmp);
        ReplaceCascade(s, l, None, now);
      } else {
        Consistent();
        NothingFreed(now);
        assert slots - {l} == slots;
      }
      NowCollected(Replaced(old(now), l, None));
    }

    /** `Py_SETREF` (the slot is not NULL) and `Py_XSETREF`; the new pointer's reference moves into the slot. */
    method XSetRef(l: Loc, v: Option<nat>)
      requires Valid() && OwnerAlive(now, l) && (v.Some? ==> v.value in now.temps)
      modifies this
      ensures Valid() && old(states) <= states
      ensures Cascade(Replaced(old(now), l, v), now) && Collected(Replaced(old(now), l, v), now)
      ensures v.None? ==> l !in slots
      ensures v.Some? && OwnerAlive(now, l) ==> l in slots && slots[l] == v.value
    {
      hide Sum, State.Inv, IsRun, Cascade, Collected, Overwrite, Replaced, OwnerAlive;
      ghost var s := now;
      var tmp := StoreAt(l, v);
      XDecref(tmp);
      if tmp.Some? {
        ReplaceCascade(s, l, v, now);
      } else {
        NullReplaced(s, l, v);
      }
      NowCollected(Replaced(s, l, v));
      SlotAfter(s, l, v, now);
    }

    /** The first half of the macros: the old pointer is saved in a local variable and the slot overwritten. */
    method StoreAt(l: Loc, v: Option<nat>) returns (tmp: Option<nat>)
      requires Valid() && OwnerAlive(now, l) && (v.Some? ==> v.value in now.temps)
      modifies this
      ensures Valid() && old(states) <= states && now == Overwrite(old(now), l, v)
      ensures tmp == if l in old(slots) then Some(old(slots)[l]) else None
      ensures tmp.Some? ==> tmp.value in now.temps
      ensures refcnt == old(refcnt) && total == old(total) && now.dying == old(now).dying && now.freed == old(now).freed
      ensures now.temps == (if v.Some? then old(now).temps - multiset{v.value} else old(now).temps)
                           + (if l in old(slots) then multiset{old(slots)[l]} else multiset{})
      ensures slots == if v.Some? then old(slots)[l := v.value] else old(slots) - {l}
    {
      ghost var t := Overwrite(now, l, v);
      assert Follows(now, Store(l, v), t);
      WhatOverwriteDoes(now, l, v);
      hide Sum, IsRun, Overwrite, Follows;
      tmp := if l in slots then Some(slots[l]) else None;
      slots := if v.Some? then slots[l := v.value] else slots - {l};
      Record(Store(l, v), t);
    }
  }
}
