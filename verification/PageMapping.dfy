/**
 Mapping one page (map_process_specific in sys/virt_mem.c), stated on physical memory.
 */
module PageMapping {
  import opened Options
  import opened FrameSet
  import opened PageTables

  /** Take the lowest free frame as a table and hang it at entry i of the table t of the given level. */
  ghost function AddTable(s: State, t: nat, level: nat, i: nat): State
    requires s.free != {} && level > 0
  {
    var n := Lowest(s.free);
    State(Put(s.mem, t, i, Word(n, RWU)), s.free - {n}, s.tabs[n := Node(level - 1, t, i)])
  }

  /** Map page v, walking down from table t of the given level and adding the tables that are missing. */
  ghost function MapFrom(s: State, t: nat, level: nat, v: Vpn, w: Word): (r: Option<State>)
    decreases level
  {
    var i := Index(level, v);
    var e := Rd(s.mem, t, i);
    if level <= 1 then Some(s.(mem := Put(s.mem, t, i, w)))
    else if Present(e) then MapFrom(s, e.frame, level - 1, v, w)
    else if s.free == {} then None
    else MapFrom(AddTable(s, t, level, i), Lowest(s.free), level - 1, v, w)
  }

  /** Tables missing on the walk of v. */
  function Missing(m: Mem, t: nat, level: nat, v: Vpn): (n: nat)
    ensures n < level || n == 0
    decreases level
  {
    var e := Rd(m, t, Index(level, v));
    if level <= 1 then 0
    else if Present(e) then Missing(m, e.frame, level - 1, v)
    else level - 1
  }

  /** s' only adds tables, taken from the free frames. */
  ghost predicate Grows(s: State, s': State) {
    && s'.free <= s.free
    && (forall t :: t in s.tabs ==> t in s'.tabs && s'.tabs[t] == s.tabs[t])
    && (forall t :: t in s'.tabs ==> t in s.tabs || (t in s.free && t !in s'.free))
  }

  lemma GrowsTrans(s: State, s1: State, s2: State)
    requires Grows(s, s1) && Grows(s1, s2)
    ensures Grows(s, s2)
  {
  }

  /** Frames that are no tables in s' hold what they held. */
  ghost predicate DataKept(s: State, s': State) {
    |s.mem| == |s'.mem| && forall f :: 0 <= f < |s.mem| && f !in s'.tabs ==> s'.mem[f] == s.mem[f]
  }

  // ---- A fresh empty table changes no walk ----

  ghost predicate CanAdd(s: State, t: nat, level: nat, i: nat) {
    Inv(s) && IsTable(s, t, level) && level > 1 && i < ENTRIES && s.free != {} && !Present(Rd(s.mem, t, i))
  }

  lemma AddTableKeeps(s: State, t: nat, level: nat, i: nat)
    requires CanAdd(s, t, level, i)
    ensures var s' := AddTable(s, t, level, i);
            && Inv(s') && Grows(s, s') && DataKept(s, s') && IsTable(s', Lowest(s.free), level - 1)
            && |s'.free| == |s.free| - 1
  {
    hide Present;
    PresentAdded(Lowest(s.free));
    var s' := AddTable(s, t, level, i);
    assert forall f, j: nat :: f in s.free ==> f != t && Rd(s'.mem, f, j) == Rd(s.mem, f, j);
    AddTableLinked(s, t, level, i);
  }

  lemma PresentAdded(n: nat)
    ensures Present(Word(n, RWU)) && !Present(ZERO)
  {
  }

  /** The new link points to the new table; the new table is empty; the others are as they were. */
  lemma AddTableLinked(s: State, t: nat, level: nat, i: nat)
    requires CanAdd(s, t, level, i)
    ensures Linked(AddTable(s, t, level, i).mem, AddTable(s, t, level, i).tabs)
  {
    hide Present;
    PresentAdded(Lowest(s.free));
  }

  lemma {:induction false} AddTableWalk(s: State, t: nat, tl: nat, i: nat, x: nat, level: nat, v: Vpn)
    requires CanAdd(s, t, tl, i) && IsTable(s, x, level)
    ensures Walk(AddTable(s, t, tl, i).mem, x, level, v) == Walk(s.mem, x, level, v)
    decreases level
  {
    var m' := AddTable(s, t, tl, i).mem;
    var j := Index(level, v);
    if x == t && j == i {
      assert Rd(m', Lowest(s.free), Index(level - 1, v)) == ZERO;
    } else if Present(Rd(s.mem, x, j)) && level > 1 {
      ChildIsTable(s, x, level, j);
      AddTableWalk(s, t, tl, i, Rd(s.mem, x, j).frame, level - 1, v);
    }
  }

  // ---- One leaf entry belongs to one page of one space ----

  /** Writing below a level leaves the tables reached at that level and above. */
  lemma {:induction false} ReachKept(s: State, t: nat, tl: nat, i: nat, w: Word, root: nat, v: Vpn, level: nat)
    requires Inv(s) && IsTable(s, t, tl) && i < ENTRIES && tl <= level <= 4 && IsRoot(s, root)
    ensures Reach(Put(s.mem, t, i, w), root, v, level) == Reach(s.mem, root, v, level)
    decreases 4 - level
  {
    if level < 4 {
      ReachKept(s, t, tl, i, w, root, v, level + 1);
      if Reach(s.mem, root, v, level + 1).Some? {
        ReachIsTable(s, root, v, level + 1);
      }
    }
  }

  /** t is the table of the given level on the walk of v. */
  ghost predicate OnWalk(s: State, root: nat, t: nat, level: nat, v: Vpn) {
    Inv(s) && IsRoot(s, root) && IsTable(s, t, level) && Reach(s.mem, root, v, level) == Some(t)
  }

  /** A table added on the walk of v is reached by it, and no walk notices. */
  lemma AddTableOnWalk(s: State, root: nat, t: nat, level: nat, v: Vpn, r: nat, u: Vpn)
    requires OnWalk(s, root, t, level, v) && CanAdd(s, t, level, Index(level, v)) && IsRoot(s, r)
    ensures var s1 := AddTable(s, t, level, Index(level, v));
            && OnWalk(s1, root, Lowest(s.free), level - 1, v) && IsRoot(s1, r)
            && Walk(s1.mem, r, 4, u) == Walk(s.mem, r, 4, u)
  {
    AddTableKeeps(s, t, level, Index(level, v));
    AddTableWalk(s, t, level, Index(level, v), r, 4, u);
    ReachKept(s, t, level, Index(level, v), Word(Lowest(s.free), RWU), root, v, level);
  }

  lemma ChildOnWalk(s: State, root: nat, t: nat, level: nat, v: Vpn)
    requires OnWalk(s, root, t, level, v) && level > 1 && Present(Rd(s.mem, t, Index(level, v)))
    ensures OnWalk(s, root, Rd(s.mem, t, Index(level, v)).frame, level - 1, v)
  {
    ChildIsTable(s, t, level, Index(level, v));
  }

  /** Writing a leaf entry changes the walk of the one page, in the one space, that reaches it. */
  lemma SetLeafWalk(s: State, root: nat, t: nat, v: Vpn, w: Word, r: nat, u: Vpn)
    requires Inv(s) && IsRoot(s, root) && Reach(s.mem, root, v, 1) == Some(t) && Present(w)
    requires IsRoot(s, r)
    ensures Walk(Put(s.mem, t, Index(1, v), w), r, 4, u)
         == if r == root && u == v then Some(w) else Walk(s.mem, r, 4, u)
  {
    ReachIsTable(s, root, v, 1);
    var m' := Put(s.mem, t, Index(1, v), w);
    ReachKept(s, t, 1, Index(1, v), w, r, u, 1);
    WalkReaches(s.mem, r, u, 1);
    WalkReaches(m', r, u, 1);
    if Reach(s.mem, r, u, 1) == Some(t) {
      TablesUnshared(s, r, u, root, v, 1);
      if Index(1, u) == Index(1, v) {
        SamePage(u, v);
      }
    }
  }

  // ---- Mapping a page ----

  lemma SetLeafKeeps(s: State, t: nat, i: nat, w: Word)
    requires Inv(s) && IsTable(s, t, 1) && i < ENTRIES
    ensures var s' := s.(mem := Put(s.mem, t, i, w)); Inv(s') && Grows(s, s') && DataKept(s, s')
  {
  }

  lemma {:induction false} MapFromKeeps(s: State, t: nat, level: nat, v: Vpn, w: Word)
    requires Inv(s) && IsTable(s, t, level) && MapFrom(s, t, level, v, w).Some?
    ensures var s' := MapFrom(s, t, level, v, w).value; Inv(s') && Grows(s, s') && DataKept(s, s')
    decreases level
  {
    hide Inv, AddTable;
    var i := Index(level, v);
    var e := Rd(s.mem, t, i);
    if level == 1 {
      SetLeafKeeps(s, t, i, w);
    } else if Present(e) {
      ChildIsTable(s, t, level, i);
      MapFromKeeps(s, e.frame, level - 1, v, w);
    } else {
      var s1 := AddTable(s, t, level, i);
      AddTableKeeps(s, t, level, i);
      MapFromKeeps(s1, Lowest(s.free), level - 1, v, w);
      GrowsTrans(s, s1, MapFrom(s1, Lowest(s.free), level - 1, v, w).value);
    }
  }

  /** Below a fresh table all the rest is missing. */
  lemma AddTableMissing(s: State, t: nat, level: nat, v: Vpn)
    requires CanAdd(s, t, level, Index(level, v))
    ensures Missing(AddTable(s, t, level, Index(level, v)).mem, Lowest(s.free), level - 1, v) == level - 2
  {
    assert Rd(AddTable(s, t, level, Index(level, v)).mem, Lowest(s.free), Index(level - 1, v)) == ZERO;
  }

  /** Mapping succeeds exactly when the missing tables can be had, and takes no other frame. */
  lemma {:induction false} MapFromTakes(s: State, t: nat, level: nat, v: Vpn, w: Word)
    requires Inv(s) && IsTable(s, t, level)
    ensures MapFrom(s, t, level, v, w).Some? <==> |s.free| >= Missing(s.mem, t, level, v)
    ensures MapFrom(s, t, level, v, w).Some? ==>
              |MapFrom(s, t, level, v, w).value.free| == |s.free| - Missing(s.mem, t, level, v)
    decreases level
  {
    hide Inv, AddTable;
    var i := Index(level, v);
    var e := Rd(s.mem, t, i);
    if level == 1 {
    } else if Present(e) {
      ChildIsTable(s, t, level, i);
      MapFromTakes(s, e.frame, level - 1, v, w);
    } else if s.free != {} {
      var s1 := AddTable(s, t, level, i);
      var n := Lowest(s.free);
      AddTableKeeps(s, t, level, i);
      AddTableMissing(s, t, level, v);
      MapFromTakes(s1, n, level - 1, v, w);
    }
  }

  lemma {:induction false} MapFromWalk(s: State, root: nat, t: nat, level: nat, v: Vpn, w: Word, r: nat, u: Vpn)
    requires OnWalk(s, root, t, level, v) && Present(w) && IsRoot(s, r)
    requires MapFrom(s, t, level, v, w).Some?
    ensures Walk(MapFrom(s, t, level, v, w).value.mem, r, 4, u)
         == if r == root && u == v then Some(w) else Walk(s.mem, r, 4, u)
    decreases level
  {
    hide Inv, AddTable, Walk;
    var e := Rd(s.mem, t, Index(level, v));
    if level == 1 {
      SetLeafWalk(s, root, t, v, w, r, u);
    } else if Present(e) {
      ChildOnWalk(s, root, t, level, v);
      MapFromWalk(s, root, e.frame, level - 1, v, w, r, u);
    } else {
      AddTableOnWalk(s, root, t, level, v, r, u);
      MapFromWalk(AddTable(s, t, level, Index(level, v)), root, Lowest(s.free), level - 1, v, w, r, u);
    }
  }

  /** Mapping a page as it is already mapped changes nothing. */
  lemma {:induction false} MapFromSame(s: State, t: nat, level: nat, v: Vpn, w: Word)
    requires 1 <= level && Walk(s.mem, t, level, v) == Some(w)
    ensures MapFrom(s, t, level, v, w) == Some(s)
    decreases level
  {
    var i := Index(level, v);
    if level == 1 {
      assert s.mem[t][i := w] == s.mem[t];
      assert Put(s.mem, t, i, w) == s.mem;
    } else {
      MapFromSame(s, Rd(s.mem, t, i).frame, level - 1, v, w);
    }
  }

  /** A page that is mapped misses no table. */
  lemma {:induction false} MappedMissesNothing(m: Mem, t: nat, level: nat, v: Vpn)
    requires Walk(m, t, level, v).Some?
    ensures Missing(m, t, level, v) == 0
    decreases level
  {
    if level > 1 {
      MappedMissesNothing(m, Rd(m, t, Index(level, v)).frame, level - 1, v);
    }
  }

  /** s' is s with page v of space `root` mapped by w, and no other page of any space changed. */
  ghost predicate Remapped(s: State, s': State, root: nat, v: Vpn, w: Word) {
    && Inv(s') && Grows(s, s') && DataKept(s, s')
    && forall r, u :: IsRoot(s, r) ==>
                        Walk(s'.mem, r, 4, u) == if r == root && u == v then Some(w) else Walk(s.mem, r, 4, u)
  }

  // ---- The flags of the entries on the way ----

  /** Mapping below a level leaves the tables above it. */
  lemma {:induction false} MapFromAbove(s: State, t: nat, level: nat, v: Vpn, w: Word, x: nat, i: nat)
    requires Inv(s) && IsTable(s, t, level) && MapFrom(s, t, level, v, w).Some? && x in s.tabs && s.tabs[x].level > level
    ensures Rd(MapFrom(s, t, level, v, w).value.mem, x, i) == Rd(s.mem, x, i)
    decreases level
  {
    hide Present;
    var j := Index(level, v);
    var e := Rd(s.mem, t, j);
    if level > 1 {
      if Present(e) {
        ChildIsTable(s, t, level, j);
        MapFromAbove(s, e.frame, level - 1, v, w, x, i);
      } else {
        AddTableKeeps(s, t, level, j);
        MapFromAbove(AddTable(s, t, level, j), Lowest(s.free), level - 1, v, w, x, i);
      }
    }
  }

  /** Entries that were there keep their flags; those added on the way, and the last, have PRESENT, WRITABLE and
      USER_MODE and no other bit. */
  lemma {:induction false} MapFromTrail(s: State, t: nat, level: nat, v: Vpn, f: nat)
    requires Inv(s) && IsTable(s, t, level) && MapFrom(s, t, level, v, Word(f, RWU)).Some?
    ensures var was, now := Trail(s.mem, t, level, v), Trail(MapFrom(s, t, level, v, Word(f, RWU)).value.mem, t, level, v);
            var kept := level - 1 - Missing(s.mem, t, level, v);
            && |now| == level && kept <= |was|
            && forall j :: 0 <= j < level ==> now[j] == if j < kept then was[j] else 7
    decreases level
  {
    hide Inv, AddTable;
    var w := Word(f, RWU);
    var i := Index(level, v);
    var e := Rd(s.mem, t, i);
    var s' := MapFrom(s, t, level, v, w).value;
    if level == 1 {
      LeafEntry(s, t, i, w);
    } else if Present(e) {
      ChildIsTable(s, t, level, i);
      MapFromTrail(s, e.frame, level - 1, v, f);
      MapFromAbove(s, e.frame, level - 1, v, w, t, i);
    } else {
      var s1 := AddTable(s, t, level, i);
      AddTableKeeps(s, t, level, i);
      AddedEntry(s, t, level, v);
      MapFromTrail(s1, Lowest(s.free), level - 1, v, f);
      MapFromAbove(s1, Lowest(s.free), level - 1, v, w, t, i);
      AddTableMissing(s, t, level, v);
    }
  }

  lemma LeafEntry(s: State, t: nat, i: nat, w: Word)
    requires Inv(s) && t in s.tabs && i < ENTRIES
    ensures Rd(Put(s.mem, t, i, w), t, i) == w
  {
  }

  lemma AddedEntry(s: State, t: nat, level: nat, v: Vpn)
    requires CanAdd(s, t, level, Index(level, v))
    ensures var s1 := AddTable(s, t, level, Index(level, v));
            && Rd(s1.mem, t, Index(level, v)) == Word(Lowest(s.free), RWU) && s1.tabs[t].level == level
            && Trail(s.mem, t, level, v) == [] && IsTable(s1, t, level)
  {
  }

  /** map_process_specific: the walk of the page ends in frame f, present, writable and open to users, and the
      entries of the tables that were missing are so as well. */
  lemma MapPageUsable(s: State, root: nat, v: Vpn, f: nat)
    requires Inv(s) && IsRoot(s, root) && MapFrom(s, root, 4, v, Word(f, RWU)).Some?
    ensures var s' := MapFrom(s, root, 4, v, Word(f, RWU)).value;
            var now := Trail(s'.mem, root, 4, v);
            && Walk(s'.mem, root, 4, v) == Some(Word(f, 7)) && Usable(Word(f, 7))
            && |now| == 4
            && forall j :: 3 - Missing(s.mem, root, 4, v) <= j < 4 ==> now[j] == 7
  {
    hide Inv, Walk, MapFrom, Trail;
    MapPage(s, root, v, Word(f, RWU));
    MapFromTrail(s, root, 4, v, f);
  }

  lemma MapPage(s: State, root: nat, v: Vpn, w: Word)
    requires Inv(s) && IsRoot(s, root) && Present(w)
    ensures MapFrom(s, root, 4, v, w).Some? <==> |s.free| >= Missing(s.mem, root, 4, v)
    ensures MapFrom(s, root, 4, v, w).Some? ==>
              var s' := MapFrom(s, root, 4, v, w).value;
              Remapped(s, s', root, v, w) && |s.free| - 3 <= |s'.free|
  {
    MapFromTakes(s, root, 4, v, w);
    if MapFrom(s, root, 4, v, w).Some? {
      MapFromKeeps(s, root, 4, v, w);
      forall r, u | IsRoot(s, r)
        ensures Walk(MapFrom(s, root, 4, v, w).value.mem, r, 4, u)
             == if r == root && u == v then Some(w) else Walk(s.mem, r, 4, u)
      {
        MapFromWalk(s, root, root, 4, v, w, r, u);
      }
    }
  }
}
