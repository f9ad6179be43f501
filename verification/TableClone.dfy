/**
 clone_page_directory (sys/kfork.c): a recursive copy of a table tree.
 Every copied table costs two frames, because i_virt_alloc takes a frame, abandons it
 and returns the next one.
 */
module TableClone {
  import opened Options
  import opened FrameSet
  import opened PageTables
  import opened PageMapping

  /** The frame i_virt_alloc returns: the second lowest free one. */
  ghost function Second(free: set<nat>): (f: nat)
    requires |free| >= 2
    ensures f in free && f != Lowest(free)
  {
    assert |free - {Lowest(free)}| >= 1;
    Lowest(free - {Lowest(free)})
  }

  /** No other free frame lies below it but the lowest, which i_virt_alloc abandons. */
  lemma SecondLowest(free: set<nat>)
    requires |free| >= 2
    ensures forall g :: g in free && g != Lowest(free) ==> Lowest(free) < Second(free) <= g
  {
    var rest := free - {Lowest(free)};
    assert IsLowest(free, Lowest(free));
    assert Second(free) in rest;
    forall g | g in free && g != Lowest(free) ensures Lowest(free) < Second(free) <= g {
      assert g in rest && IsLowest(rest, Second(free));
    }
  }

  /** What i_virt_alloc leaves free. */
  ghost function Rest(free: set<nat>): (r: set<nat>)
    requires |free| >= 2
    ensures r <= free && |r| == |free| - 2 && Second(free) !in r
  {
    free - {Lowest(free)} - {Second(free)}
  }

  ghost function NewTable(s: State, node: Node): State
    requires |s.free| >= 2
  {
    State(s.mem, Rest(s.free), s.tabs[Second(s.free) := node])
  }

  ghost function StoreEntry(s: State, n: nat, i: nat, w: Word): State {
    s.(mem := Put(s.mem, n, i, w))
  }

  /** The copy of table t of the given level, hung below `up` at entry `at`: the new state and the new table. */
  ghost function CloneTable(s: State, t: nat, level: nat, up: nat, at: nat): (r: Option<(State, nat)>)
    decreases level, ENTRIES + 2
  {
    if |s.free| < 2 then None
    else
      var n := Second(s.free);
      var s' :- CloneEntries(NewTable(s, Node(level, up, at)), t, n, level, 0);
      Some((s', n))
  }

  /** Copy the entries of t from i on into n. */
  ghost function CloneEntries(s: State, t: nat, n: nat, level: nat, i: nat): (r: Option<State>)
    decreases level, if i < ENTRIES then 1 + ENTRIES - i else 1
  {
    if i >= ENTRIES then Some(s)
    else
      var s1 :- CloneEntry(s, t, n, level, i);
      CloneEntries(s1, t, n, level, i + 1)
  }

  /** Copy entry i of t into n. */
  ghost function CloneEntry(s: State, t: nat, n: nat, level: nat, i: nat): (r: Option<State>)
    decreases level, 0
  {
    var e := Rd(s.mem, t, i);
    if !Present(e) then Some(s)
    else if level <= 1 then Some(StoreEntry(s, n, i, e))
    else
      var (s1, c) :- CloneTable(s, e.frame, level - 1, n, i);
      Some(StoreEntry(s1, n, i, Word(c, e.flags)))
  }

  // ---- What is kept ----

  /** Frames in use hold what they held. */
  ghost predicate UsedKept(s: State, s': State) {
    |s.mem| == |s'.mem| && forall f :: 0 <= f < |s.mem| && f !in s.free ==> s'.mem[f] == s.mem[f]
  }

  /** As UsedKept, but for the entries of n from i up to k. */
  ghost predicate UsedKeptBut(s: State, s': State, n: nat, i: nat, k: nat) {
    && |s.mem| == |s'.mem|
    && (forall f :: 0 <= f < |s.mem| && f !in s.free && f != n ==> s'.mem[f] == s.mem[f])
    && (forall j :: 0 <= j < i || k <= j ==> Rd(s'.mem, n, j) == Rd(s.mem, n, j))
  }

  /** t is a table to copy and n the table of the same level that receives the copy. */
  ghost predicate Copying(s: State, t: nat, n: nat, level: nat) {
    Inv(s) && IsTable(s, t, level) && IsTable(s, n, level) && t != n
  }

  ghost predicate Progress(s: State, s': State, t: nat, n: nat, level: nat, i: nat, k: nat) {
    Copying(s', t, n, level) && Grows(s, s') && UsedKeptBut(s, s', n, i, k)
  }

  lemma ProgressTrans(s: State, s1: State, s2: State, t: nat, n: nat, level: nat, i: nat, k: nat, l: nat)
    requires Copying(s, t, n, level) && i <= k <= l
    requires Progress(s, s1, t, n, level, i, k) && Progress(s1, s2, t, n, level, k, l)
    ensures Progress(s, s2, t, n, level, i, l)
  {
  }

  /** Storing an entry that points to data or to its own child. */
  lemma StoreEntryKeeps(s: State, t: nat, n: nat, level: nat, i: nat, w: Word)
    requires Copying(s, t, n, level) && i < ENTRIES
    requires level > 1 ==> w.frame in s.tabs && s.tabs[w.frame] == Node(level - 1, n, i)
    ensures Progress(s, StoreEntry(s, n, i, w), t, n, level, i, i + 1)
    ensures Rd(StoreEntry(s, n, i, w).mem, n, i) == w
  {
  }

  ghost predicate CloneFrom(s: State, t: nat, level: nat, up: nat) {
    Inv(s) && IsTable(s, t, level) && (level < 4 ==> up in s.tabs)
  }

  /** The new table is made from a frame that was free, and nothing in use has moved. */
  ghost predicate Cloned(s: State, s': State, n: nat, level: nat, up: nat, at: nat) {
    && Inv(s') && Grows(s, s') && UsedKept(s, s')
    && n in s.free && n in s'.tabs && s'.tabs[n] == Node(level, up, at)
  }

  lemma NewTableKeeps(s: State, t: nat, level: nat, up: nat, at: nat)
    requires CloneFrom(s, t, level, up) && |s.free| >= 2
    ensures var s1 := NewTable(s, Node(level, up, at));
            Copying(s1, t, Second(s.free), level) && Grows(s, s1)
  {
  }

  lemma {:induction false} CloneTableKeeps(s: State, t: nat, level: nat, up: nat, at: nat)
    requires CloneFrom(s, t, level, up) && CloneTable(s, t, level, up, at).Some?
    ensures var (s', n) := CloneTable(s, t, level, up, at).value; Cloned(s, s', n, level, up, at)
    decreases level, ENTRIES + 2
  {
    var s1 := NewTable(s, Node(level, up, at));
    NewTableKeeps(s, t, level, up, at);
    CloneEntriesKeeps(s1, t, Second(s.free), level, 0);
    GrowsTrans(s, s1, CloneEntries(s1, t, Second(s.free), level, 0).value);
  }

  lemma {:induction false} CloneEntriesKeeps(s: State, t: nat, n: nat, level: nat, i: nat)
    requires Copying(s, t, n, level) && i <= ENTRIES && CloneEntries(s, t, n, level, i).Some?
    ensures Progress(s, CloneEntries(s, t, n, level, i).value, t, n, level, i, ENTRIES)
    decreases level, if i < ENTRIES then 1 + ENTRIES - i else 1
  {
    if i < ENTRIES {
      CloneEntryKeeps(s, t, n, level, i);
      var s1 := CloneEntry(s, t, n, level, i).value;
      CloneEntriesKeeps(s1, t, n, level, i + 1);
      ProgressTrans(s, s1, CloneEntries(s1, t, n, level, i + 1).value, t, n, level, i, i + 1, ENTRIES);
    }
  }

  lemma {:induction false} CloneEntryKeeps(s: State, t: nat, n: nat, level: nat, i: nat)
    requires Copying(s, t, n, level) && i < ENTRIES && CloneEntry(s, t, n, level, i).Some?
    ensures Progress(s, CloneEntry(s, t, n, level, i).value, t, n, level, i, i + 1)
    decreases level, 0
  {
    var e := Rd(s.mem, t, i);
    if Present(e) && level > 1 {
      ChildIsTable(s, t, level, i);
      CloneTableKeeps(s, e.frame, level - 1, n, i);
      var (s1, c) := CloneTable(s, e.frame, level - 1, n, i).value;
      LinkCopy(s, s1, t, n, level, i, Word(c, e.flags));
    } else if Present(e) {
      StoreEntryKeeps(s, t, n, level, i, e);
    }
  }

  lemma LinkCopy(s: State, s1: State, t: nat, n: nat, level: nat, i: nat, w: Word)
    requires Copying(s, t, n, level) && i < ENTRIES && level > 1
    requires Cloned(s, s1, w.frame, level - 1, n, i)
    ensures Copying(s1, t, n, level)
    ensures Progress(s, StoreEntry(s1, n, i, w), t, n, level, i, i + 1)
    ensures Rd(StoreEntry(s1, n, i, w).mem, n, i) == w
  {
    assert s1.mem[n] == s.mem[n];
    StoreEntryKeeps(s1, t, n, level, i, w);
    assert Progress(s, s1, t, n, level, i, i);
    ProgressTrans(s, s1, StoreEntry(s1, n, i, w), t, n, level, i, i, i + 1);
  }

  // ---- The copy means what the original means ----

  /** Same translation and same flag bits at every level, for every page. */
  ghost predicate SameTree(m: Mem, t: nat, m': Mem, n: nat, level: nat) {
    forall v :: Walk(m', n, level, v) == Walk(m, t, level, v)
             && Trail(m', n, level, v) == Trail(m, t, level, v)
  }

  lemma SameTreeTrans(m: Mem, t: nat, m1: Mem, t1: nat, m': Mem, n: nat, level: nat)
    requires SameTree(m, t, m1, t1, level) && SameTree(m1, t1, m', n, level)
    ensures SameTree(m, t, m', n, level)
  {
    forall v
      ensures Walk(m', n, level, v) == Walk(m, t, level, v)
      ensures Trail(m', n, level, v) == Trail(m, t, level, v)
    {
      assert Walk(m1, t1, level, v) == Walk(m, t, level, v);
    }
  }

  ghost predicate TablesKept(s: State, s': State, level: nat) {
    |s.mem| == |s'.mem| && forall t :: t in s.tabs && s.tabs[t].level <= level && t < |s.mem| ==> s'.mem[t] == s.mem[t]
  }

  /** While n is being filled, the source and the tables below their level stay. */
  lemma OthersStay(s: State, s1: State, t: nat, n: nat, level: nat, i: nat, k: nat)
    requires Copying(s, t, n, level) && UsedKeptBut(s, s1, n, i, k)
    ensures TablesKept(s, s1, level - 1)
    ensures t < |s.mem| == |s1.mem| && s1.mem[t] == s.mem[t]
  {
  }

  /** A tree stays as it is while the tables of its levels are kept. */
  lemma SameTreeKept(s: State, s': State, x: nat, level: nat)
    requires Inv(s) && IsTable(s, x, level) && TablesKept(s, s', level)
    ensures SameTree(s.mem, x, s'.mem, x, level)
  {
    forall v
      ensures Walk(s'.mem, x, level, v) == Walk(s.mem, x, level, v)
      ensures Trail(s'.mem, x, level, v) == Trail(s.mem, x, level, v)
    {
      WalkFrame(s, s'.mem, x, level, v);
    }
  }

  /** Entry j of n copies entry j of t. */
  ghost predicate SameEntry(m: Mem, t: nat, m': Mem, n: nat, level: nat, j: nat) {
    var e, e' := Rd(m, t, j), Rd(m', n, j);
    && Present(e') == Present(e)
    && (Present(e) ==> e'.flags == e.flags)
    && (Present(e) && level == 1 ==> e' == e)
    && (Present(e) && level > 1 ==> SameTree(m, e.frame, m', e'.frame, level - 1))
  }

  lemma SameEntriesSameTree(m: Mem, t: nat, m': Mem, n: nat, level: nat)
    requires 1 <= level
    requires forall j :: 0 <= j < ENTRIES ==> SameEntry(m, t, m', n, level, j)
    ensures SameTree(m, t, m', n, level)
  {
    forall v
      ensures Walk(m', n, level, v) == Walk(m, t, level, v)
      ensures Trail(m', n, level, v) == Trail(m, t, level, v)
    {
      assert SameEntry(m, t, m', n, level, Index(level, v));
    }
  }

  lemma {:induction false} CloneTableSame(s: State, t: nat, level: nat, up: nat, at: nat)
    requires CloneFrom(s, t, level, up) && CloneTable(s, t, level, up, at).Some?
    ensures var (s', n) := CloneTable(s, t, level, up, at).value; SameTree(s.mem, t, s'.mem, n, level)
    decreases level, ENTRIES + 2
  {
    var s1 := NewTable(s, Node(level, up, at));
    var n := Second(s.free);
    NewTableKeeps(s, t, level, up, at);
    forall j | 0 <= j < ENTRIES
      ensures SameEntry(s.mem, t, CloneEntries(s1, t, n, level, 0).value.mem, n, level, j)
    {
      CloneEntriesSame(s1, t, n, level, 0, j);
    }
    SameEntriesSameTree(s.mem, t, CloneEntries(s1, t, n, level, 0).value.mem, n, level);
  }

  lemma {:induction false} CloneEntriesSame(s: State, t: nat, n: nat, level: nat, i: nat, j: nat)
    requires Copying(s, t, n, level) && i <= j < ENTRIES && CloneEntries(s, t, n, level, i).Some?
    requires Rd(s.mem, n, j) == ZERO
    ensures SameEntry(s.mem, t, CloneEntries(s, t, n, level, i).value.mem, n, level, j)
    decreases level, if i < ENTRIES then 1 + ENTRIES - i else 1
  {
    hide Inv, SameEntry, Grows, CloneEntry;
    var s1 := CloneEntry(s, t, n, level, i).value;
    var s' := CloneEntries(s1, t, n, level, i + 1).value;
    CloneEntryKeeps(s, t, n, level, i);
    CloneEntriesKeeps(s1, t, n, level, i + 1);
    if i == j {
      CloneEntrySame(s, t, n, level, i);
      EntryKept(s, s1, s', t, n, level, i);
    } else {
      CloneEntriesSame(s1, t, n, level, i + 1, j);
      SourceKept(s, s1, s', t, n, level, i, j);
    }
  }

  lemma {:induction false} CloneEntrySame(s: State, t: nat, n: nat, level: nat, i: nat)
    requires Copying(s, t, n, level) && i < ENTRIES && Rd(s.mem, n, i) == ZERO
    requires CloneEntry(s, t, n, level, i).Some?
    ensures SameEntry(s.mem, t, CloneEntry(s, t, n, level, i).value.mem, n, level, i)
    decreases level, 0
  {
    var e := Rd(s.mem, t, i);
    if Present(e) && level > 1 {
      ChildIsTable(s, t, level, i);
      CloneTableKeeps(s, e.frame, level - 1, n, i);
      CloneTableSame(s, e.frame, level - 1, n, i);
      var (s1, c) := CloneTable(s, e.frame, level - 1, n, i).value;
      LinkCopy(s, s1, t, n, level, i, Word(c, e.flags));
      LinkCopySame(s, s1, t, n, level, i, Word(c, e.flags));
    } else if Present(e) {
      StoreEntryKeeps(s, t, n, level, i, e);
    }
  }

  /** Linking a copied subtree completes the entry. */
  lemma LinkCopySame(s: State, s1: State, t: nat, n: nat, level: nat, i: nat, w: Word)
    requires Copying(s, t, n, level) && i < ENTRIES && level > 1 && Present(Rd(s.mem, t, i))
    requires Cloned(s, s1, w.frame, level - 1, n, i) && w.flags == Rd(s.mem, t, i).flags
    requires SameTree(s.mem, Rd(s.mem, t, i).frame, s1.mem, w.frame, level - 1)
    ensures SameEntry(s.mem, t, StoreEntry(s1, n, i, w).mem, n, level, i)
  {
    hide Inv, SameTree, UsedKept;
    LinkCopy(s, s1, t, n, level, i, w);
    var s2 := StoreEntry(s1, n, i, w);
    LinkedTable(s, s1, t, n, level, i, w);
    SameTreeKept(s1, s2, w.frame, level - 1);
    SameTreeTrans(s.mem, Rd(s.mem, t, i).frame, s1.mem, w.frame, s2.mem, w.frame, level - 1);
  }

  /** Linking touches no table below the level. */
  lemma LinkedTable(s: State, s1: State, t: nat, n: nat, level: nat, i: nat, w: Word)
    requires Copying(s1, t, n, level) && i < ENTRIES && level > 1 && Cloned(s, s1, w.frame, level - 1, n, i)
    ensures IsTable(s1, w.frame, level - 1) && TablesKept(s1, StoreEntry(s1, n, i, w), level - 1)
  {
  }

  /** An entry copied from s into s1 is still that copy in a later state s'. */
  lemma EntryKept(s: State, s1: State, s': State, t: nat, n: nat, level: nat, i: nat)
    requires Copying(s1, t, n, level) && i < ENTRIES
    requires SameEntry(s.mem, t, s1.mem, n, level, i)
    requires UsedKeptBut(s1, s', n, i + 1, ENTRIES)
    ensures SameEntry(s.mem, t, s'.mem, n, level, i)
  {
    var e1 := Rd(s1.mem, n, i);
    assert Rd(s'.mem, n, i) == e1;
    if Present(e1) && level > 1 {
      ChildIsTable(s1, n, level, i);
      SameTreeKept(s1, s', e1.frame, level - 1);
      SameTreeTrans(s.mem, Rd(s.mem, t, i).frame, s1.mem, e1.frame, s'.mem, e1.frame, level - 1);
    }
  }

  /** What s1 copies of t is what s holds there. */
  lemma SourceKept(s: State, s1: State, s': State, t: nat, n: nat, level: nat, i: nat, j: nat)
    requires Copying(s, t, n, level) && i < ENTRIES && j < ENTRIES
    requires UsedKeptBut(s, s1, n, i, i + 1)
    requires SameEntry(s1.mem, t, s'.mem, n, level, j)
    ensures SameEntry(s.mem, t, s'.mem, n, level, j)
  {
    hide Inv, Walk, Trail, SameTree, UsedKeptBut, TablesKept;
    OthersStay(s, s1, t, n, level, i, i + 1);
    var e := Rd(s.mem, t, j);
    assert Rd(s1.mem, t, j) == e;
    if Present(e) && level > 1 {
      ChildIsTable(s, t, level, j);
      SameTreeKept(s, s1, e.frame, level - 1);
      SameTreeTrans(s.mem, e.frame, s1.mem, e.frame, s'.mem, Rd(s'.mem, n, j).frame, level - 1);
    }
  }

  // ---- What it costs and where it lives ----

  /** Tables in the tree below t, t included. */
  function Count(m: Mem, t: nat, level: nat): nat
    decreases level, ENTRIES + 2
  {
    1 + CountFrom(m, t, level, 0)
  }

  function CountFrom(m: Mem, t: nat, level: nat, i: nat): nat
    decreases level, if i < ENTRIES then 1 + ENTRIES - i else 1
  {
    if i >= ENTRIES then 0 else CountAt(m, t, level, i) + CountFrom(m, t, level, i + 1)
  }

  /** Tables below entry i of t. */
  function CountAt(m: Mem, t: nat, level: nat, i: nat): nat
    decreases level, 0
  {
    var e := Rd(m, t, i);
    if level > 1 && Present(e) then Count(m, e.frame, level - 1) else 0
  }

  lemma {:induction false} CountFromSame(m: Mem, m': Mem, t: nat, level: nat, i: nat)
    requires forall j :: i <= j < ENTRIES ==> CountAt(m', t, level, j) == CountAt(m, t, level, j)
    ensures CountFrom(m', t, level, i) == CountFrom(m, t, level, i)
    decreases ENTRIES - i
  {
    if i < ENTRIES {
      CountFromSame(m, m', t, level, i + 1);
    }
  }

  /** The count depends on the tables below and nothing else. */
  lemma {:induction false} CountFrame(s: State, s': State, x: nat, level: nat, i: nat)
    requires Inv(s) && IsTable(s, x, level) && TablesKept(s, s', level - 1)
    requires x < |s.mem| == |s'.mem| && s'.mem[x] == s.mem[x]
    ensures CountFrom(s'.mem, x, level, i) == CountFrom(s.mem, x, level, i)
    decreases level, 1
  {
    forall j | i <= j < ENTRIES ensures CountAt(s'.mem, x, level, j) == CountAt(s.mem, x, level, j) {
      CountAtFrame(s, s', x, level, j);
    }
    CountFromSame(s.mem, s'.mem, x, level, i);
  }

  lemma {:induction false} CountAtFrame(s: State, s': State, x: nat, level: nat, i: nat)
    requires Inv(s) && IsTable(s, x, level) && i < ENTRIES && TablesKept(s, s', level - 1)
    requires x < |s.mem| == |s'.mem| && s'.mem[x] == s.mem[x]
    ensures CountAt(s'.mem, x, level, i) == CountAt(s.mem, x, level, i)
    decreases level, 0
  {
    var e := Rd(s.mem, x, i);
    assert Rd(s'.mem, x, i) == e;
    if level > 1 && Present(e) {
      ChildIsTable(s, x, level, i);
      CountFrame(s, s', e.frame, level - 1, 0);
    }
  }

  /** The clone succeeds exactly when two frames per table are free, and takes just those. */
  lemma {:induction false} CloneTableTakes(s: State, t: nat, level: nat, up: nat, at: nat)
    requires CloneFrom(s, t, level, up)
    ensures CloneTable(s, t, level, up, at).Some? <==> |s.free| >= 2 * Count(s.mem, t, level)
    ensures CloneTable(s, t, level, up, at).Some? ==>
              |CloneTable(s, t, level, up, at).value.0.free| == |s.free| - 2 * Count(s.mem, t, level)
    decreases level, ENTRIES + 2
  {
    if |s.free| >= 2 {
      NewTableKeeps(s, t, level, up, at);
      CloneEntriesTakes(NewTable(s, Node(level, up, at)), t, Second(s.free), level, 0);
    }
  }

  lemma {:induction false} CloneEntriesTakes(s: State, t: nat, n: nat, level: nat, i: nat)
    requires Copying(s, t, n, level) && i <= ENTRIES
    ensures CloneEntries(s, t, n, level, i).Some? <==> |s.free| >= 2 * CountFrom(s.mem, t, level, i)
    ensures CloneEntries(s, t, n, level, i).Some? ==>
              |CloneEntries(s, t, n, level, i).value.free| == |s.free| - 2 * CountFrom(s.mem, t, level, i)
    decreases level, if i < ENTRIES then 1 + ENTRIES - i else 1
  {
    hide Inv, CloneEntry, CountAt, UsedKeptBut, TablesKept;
    if i < ENTRIES {
      CloneEntryTakes(s, t, n, level, i);
      if CloneEntry(s, t, n, level, i).Some? {
        var s1 := CloneEntry(s, t, n, level, i).value;
        CloneEntryKeeps(s, t, n, level, i);
        CloneEntriesTakes(s1, t, n, level, i + 1);
        OthersStay(s, s1, t, n, level, i, i + 1);
        CountFrame(s, s1, t, level, i + 1);
      }
    }
  }

  lemma {:induction false} CloneEntryTakes(s: State, t: nat, n: nat, level: nat, i: nat)
    requires Copying(s, t, n, level) && i < ENTRIES
    ensures CloneEntry(s, t, n, level, i).Some? <==> |s.free| >= 2 * CountAt(s.mem, t, level, i)
    ensures CloneEntry(s, t, n, level, i).Some? ==>
              |CloneEntry(s, t, n, level, i).value.free| == |s.free| - 2 * CountAt(s.mem, t, level, i)
    decreases level, 0
  {
    if Present(Rd(s.mem, t, i)) && level > 1 {
      ChildIsTable(s, t, level, i);
      CloneTableTakes(s, Rd(s.mem, t, i).frame, level - 1, n, i);
    }
  }

  /** Every table of a tree whose root was free is a frame that was free. */
  lemma {:induction false} NewTreeFresh(s: State, s': State, n: nat, v: Vpn, level: nat)
    requires Inv(s) && Inv(s') && Grows(s, s') && n in s.free && IsRoot(s', n) && 1 <= level <= 4
    requires Reach(s'.mem, n, v, level).Some?
    ensures Reach(s'.mem, n, v, level).value in s.free
    decreases 4 - level
  {
    if level < 4 {
      NewTreeFresh(s, s', n, v, level + 1);
      var up := ReachDown(s', n, v, level);
    }
  }

  /** clone_page_directory(root, 4). */
  lemma CloneSpace(s: State, root: nat)
    requires Inv(s) && IsRoot(s, root)
    ensures CloneTable(s, root, 4, 0, 0).Some? <==> |s.free| >= 2 * Count(s.mem, root, 4)
    ensures CloneTable(s, root, 4, 0, 0).Some? ==>
              var (s', n) := CloneTable(s, root, 4, 0, 0).value;
              && Cloned(s, s', n, 4, 0, 0) && IsRoot(s', n)
              && SameTree(s.mem, root, s'.mem, n, 4)
              && (forall r :: IsRoot(s, r) ==> SameTree(s.mem, r, s'.mem, r, 4))
              && (forall v, level :: 1 <= level <= 4 && Reach(s'.mem, n, v, level).Some? ==>
                                       Reach(s'.mem, n, v, level).value in s.free)
              && |s'.free| == |s.free| - 2 * Count(s.mem, root, 4)
  {
    CloneTableTakes(s, root, 4, 0, 0);
    if CloneTable(s, root, 4, 0, 0).Some? {
      CloneTableKeeps(s, root, 4, 0, 0);
      CloneTableSame(s, root, 4, 0, 0);
      var (s', n) := CloneTable(s, root, 4, 0, 0).value;
      forall r | IsRoot(s, r) ensures SameTree(s.mem, r, s'.mem, r, 4) {
        SameTreeKept(s, s', r, 4);
      }
      forall v, level | 1 <= level <= 4 && Reach(s'.mem, n, v, level).Some?
        ensures Reach(s'.mem, n, v, level).value in s.free
      {
        NewTreeFresh(s, s', n, v, level);
      }
    }
  }
}
