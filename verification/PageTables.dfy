/**
 Four-level page tables held in physical frames (sys/virt_mem.c).

 Physical memory is a sequence of frames of 512 words; a word is split into a frame
 number and its low twelve bits.  The tables of every address space form a forest:
 `State.tabs` records, for each frame that serves as a table, its level and the one
 entry that may point to it.  Everything else about the forest is local to entries.
 */
module PageTables {
  import opened Options

  const FRAMES: nat := 0x1_0000         // the direct map holds 2^28 bytes
  const LAST: nat := FRAMES - 1         // its page ends at 2^64
  const ENTRIES: nat := 512

  /** The low twelve bits of an entry. */
  type Flags = n: nat | n < 0x1000

  /** PRESENT | WRITABLE | USER_MODE */
  const RWU: Flags := 7

  datatype Word = Word(frame: nat, flags: Flags)

  const ZERO: Word := Word(0, 0)

  predicate Present(w: Word) {
    w.flags % 2 == 1
  }

  predicate Writable(w: Word) {
    w.flags / 2 % 2 == 1
  }

  predicate User(w: Word) {
    w.flags / 4 % 2 == 1
  }

  /** Present, writable and open to user programs. */
  predicate Usable(w: Word) {
    Present(w) && Writable(w) && User(w)
  }

  type Mem = seq<seq<Word>>

  ghost predicate MemOk(m: Mem) {
    |m| == FRAMES && forall f :: 0 <= f < FRAMES ==> |m[f]| == ENTRIES
  }

  function Rd(m: Mem, f: nat, i: nat): Word {
    if f < |m| && i < |m[f]| then m[f][i] else ZERO
  }

  /** Store one word; a store outside memory is lost. */
  function Put(m: Mem, f: nat, i: nat, w: Word): (m': Mem)
    ensures MemOk(m) ==> MemOk(m')
    ensures MemOk(m) && f < FRAMES && i < ENTRIES ==>
              forall g: nat, j: nat :: Rd(m', g, j) == if g == f && j == i then w else Rd(m, g, j)
    ensures |m'| == |m| && forall g :: 0 <= g < |m| && g != f ==> m'[g] == m[g]
  {
    if f < |m| && i < |m[f]| then m[f := m[f][i := w]] else m
  }

  type Ix = i: nat | i < ENTRIES

  /** A 36-bit page number as the four table indices it is made of. */
  datatype Vpn = Vpn(pml4: Ix, pdp: Ix, pd: Ix, pt: Ix)

  /** The index macros of include/virt_mem.h. */
  function Index(level: nat, v: Vpn): Ix {
    if level == 4 then v.pml4
    else if level == 3 then v.pdp
    else if level == 2 then v.pd
    else v.pt
  }

  /** The hardware walk from a table of the given level: the leaf entry, if every step is present. */
  function Walk(m: Mem, t: nat, level: nat, v: Vpn): Option<Word>
    decreases level
  {
    var e := Rd(m, t, Index(level, v));
    if !Present(e) then None
    else if level <= 1 then Some(e)
    else Walk(m, e.frame, level - 1, v)
  }

  /** The flag bits met on the way down, one per level. */
  function Trail(m: Mem, t: nat, level: nat, v: Vpn): seq<Flags>
    decreases level
  {
    var e := Rd(m, t, Index(level, v));
    if !Present(e) then []
    else if level <= 1 then [e.flags]
    else [e.flags] + Trail(m, e.frame, level - 1, v)
  }

  /** The walk as get_phy_addr takes it apart: one entry of each of four tables. */
  lemma WalkEntries(m: Mem, root: nat, v: Vpn)
    ensures var e4 := Rd(m, root, v.pml4);
            var e3 := Rd(m, e4.frame, v.pdp);
            var e2 := Rd(m, e3.frame, v.pd);
            var e1 := Rd(m, e2.frame, v.pt);
            && (Walk(m, root, 4, v).Some? <==> Present(e4) && Present(e3) && Present(e2) && Present(e1))
            && (Walk(m, root, 4, v).Some? ==>
                  Walk(m, root, 4, v) == Some(e1) && Trail(m, root, 4, v) == [e4.flags, e3.flags, e2.flags, e1.flags])
  {
    var e4 := Rd(m, root, v.pml4);
    var e3 := Rd(m, e4.frame, v.pdp);
    var e2 := Rd(m, e3.frame, v.pd);
    var e1 := Rd(m, e2.frame, v.pt);
    assert Walk(m, e2.frame, 1, v) == if Present(e1) then Some(e1) else None;
    assert Present(e1) ==> Trail(m, e2.frame, 1, v) == [e1.flags];
    assert Walk(m, e3.frame, 2, v) == if Present(e2) then Walk(m, e2.frame, 1, v) else None;
    assert Present(e2) ==> Trail(m, e3.frame, 2, v) == [e2.flags] + Trail(m, e2.frame, 1, v);
    assert Walk(m, e4.frame, 3, v) == if Present(e3) then Walk(m, e3.frame, 2, v) else None;
    assert Present(e3) ==> Trail(m, e4.frame, 3, v) == [e3.flags] + Trail(m, e3.frame, 2, v);
  }

  /** The table of the given level on the walk of v from the root. */
  function Reach(m: Mem, root: nat, v: Vpn, level: nat): Option<nat>
    decreases 4 - level
  {
    if level >= 4 then Some(root)
    else
      var up :- Reach(m, root, v, level + 1);
      var e := Rd(m, up, Index(level + 1, v));
      if Present(e) then Some(e.frame) else None
  }

  /** Where a table hangs: its level, and the entry that points to it. */
  datatype Node = Node(level: nat, parent: nat, index: nat)

  datatype State = State(mem: Mem, free: set<nat>, tabs: map<nat, Node>)

  ghost predicate IsTable(s: State, t: nat, level: nat) {
    t in s.tabs && s.tabs[t].level == level && 1 <= level <= 4
  }

  ghost predicate IsRoot(s: State, r: nat) {
    IsTable(s, r, 4)
  }

  /** Every present entry above the last level points to the table that records it as its parent. */
  ghost predicate Linked(m: Mem, tabs: map<nat, Node>) {
    forall t, i :: t in tabs && 0 <= i < ENTRIES && tabs[t].level > 1 && Present(Rd(m, t, i)) ==>
                     var c := Rd(m, t, i).frame;
                     c in tabs && tabs[c] == Node(tabs[t].level - 1, t, i)
  }

  ghost predicate Inv(s: State) {
    && MemOk(s.mem)
    && (forall f :: f in s.free ==> 0 < f < FRAMES && f !in s.tabs)
    && (forall f, i :: f in s.free && 0 <= i < ENTRIES ==> Rd(s.mem, f, i) == ZERO)
    && (forall t :: t in s.tabs ==> t < FRAMES && 1 <= s.tabs[t].level <= 4)
    && (forall t :: t in s.tabs && s.tabs[t].level < 4 ==> s.tabs[t].parent in s.tabs)
    && Linked(s.mem, s.tabs)
  }

  // ---- The tables form a forest ----

  lemma {:induction false} WalkReaches(m: Mem, root: nat, v: Vpn, level: nat)
    requires 1 <= level <= 4
    ensures Walk(m, root, 4, v)
         == match Reach(m, root, v, level) case None => None case Some(t) => Walk(m, t, level, v)
    decreases 4 - level
  {
    if level < 4 {
      WalkReaches(m, root, v, level + 1);
    }
  }

  /** The child behind a present entry. */
  lemma ChildIsTable(s: State, t: nat, level: nat, i: nat)
    requires Inv(s) && IsTable(s, t, level) && level > 1 && i < ENTRIES && Present(Rd(s.mem, t, i))
    ensures IsTable(s, Rd(s.mem, t, i).frame, level - 1)
    ensures s.tabs[Rd(s.mem, t, i).frame] == Node(level - 1, t, i)
  {
  }

  lemma {:induction false} ReachIsTable(s: State, root: nat, v: Vpn, level: nat)
    requires Inv(s) && IsRoot(s, root) && 1 <= level <= 4
    requires Reach(s.mem, root, v, level).Some?
    ensures IsTable(s, Reach(s.mem, root, v, level).value, level)
    decreases 4 - level
  {
    if level < 4 {
      ReachIsTable(s, root, v, level + 1);
      ChildIsTable(s, Reach(s.mem, root, v, level + 1).value, level + 1, Index(level + 1, v));
    }
  }

  /** The step from a reached table to the one below it. */
  lemma ReachDown(s: State, root: nat, v: Vpn, level: nat) returns (up: nat)
    requires Inv(s) && IsRoot(s, root) && 1 <= level < 4
    requires Reach(s.mem, root, v, level).Some?
    ensures Reach(s.mem, root, v, level + 1) == Some(up)
    ensures IsTable(s, Reach(s.mem, root, v, level).value, level)
    ensures s.tabs[Reach(s.mem, root, v, level).value] == Node(level, up, Index(level + 1, v))
  {
    up := Reach(s.mem, root, v, level + 1).value;
    ReachIsTable(s, root, v, level + 1);
    ChildIsTable(s, up, level + 1, Index(level + 1, v));
  }

  /** No table is shared: it is reached from one root only, and only by the pages it covers. */
  lemma {:induction false} TablesUnshared(s: State, r: nat, v: Vpn, r': nat, v': Vpn, level: nat)
    requires Inv(s) && IsRoot(s, r) && IsRoot(s, r') && 1 <= level <= 4
    requires Reach(s.mem, r, v, level).Some? && Reach(s.mem, r, v, level) == Reach(s.mem, r', v', level)
    ensures r == r' && forall k :: level < k <= 4 ==> Index(k, v) == Index(k, v')
    decreases 4 - level
  {
    if level < 4 {
      var up := ReachDown(s, r, v, level);
      var up' := ReachDown(s, r', v', level);
      TablesUnshared(s, r, v, r', v', level + 1);
    }
  }

  /** Four equal indices make the same page. */
  lemma SamePage(v: Vpn, v': Vpn)
    requires forall k :: 1 <= k <= 4 ==> Index(k, v) == Index(k, v')
    ensures v == v'
  {
    assert Index(1, v) == Index(1, v') && Index(2, v) == Index(2, v');
    assert Index(3, v) == Index(3, v') && Index(4, v) == Index(4, v');
  }

  // ---- Frames ----

  /** A walk reads the tables below its start and nothing else. */
  lemma {:induction false} WalkFrame(s: State, m': Mem, x: nat, level: nat, v: Vpn)
    requires Inv(s) && IsTable(s, x, level)
    requires forall t, i :: t in s.tabs && s.tabs[t].level <= level && 0 <= i < ENTRIES ==> Rd(m', t, i) == Rd(s.mem, t, i)
    ensures Walk(m', x, level, v) == Walk(s.mem, x, level, v)
    ensures Trail(m', x, level, v) == Trail(s.mem, x, level, v)
    decreases level
  {
    var e := Rd(s.mem, x, Index(level, v));
    assert Rd(m', x, Index(level, v)) == e;
    if Present(e) && level > 1 {
      ChildIsTable(s, x, level, Index(level, v));
      WalkFrame(s, m', e.frame, level - 1, v);
    }
  }
}
