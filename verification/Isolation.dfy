/**
 Address spaces kept apart.  A space is a root and the set of pages it has recorded as its
 own; this module says what it means for a family of spaces to be in order, and that
 giving one of them fresh pages, or adding one made by fork, keeps it so.
 */
module Isolation {
  import opened PageTables
  import opened ForkCopy
  import opened Addresses
  import opened AddressSpaces

  datatype Space = Space(root: nat, pages: set<Vpn>)

  /** The frame behind a page, 0 when there is none. */
  ghost function FrameAt(s: State, r: nat, v: Vpn): nat {
    match Walk(s.mem, r, 4, v) case None => 0 case Some(w) => w.frame
  }

  /** Direct map in place, own pages mapped to ordinary memory, and none of them in the way of the direct map. */
  ghost predicate SpaceOk(s: State, sp: Space) {
    && IsRoot(s, sp.root) && Direct(s, sp.root)
    && (forall v :: v in sp.pages ==> DataPage(s, sp.root, v))
    && (forall p :: p in s.free || p in s.tabs ==> DirectPage(p) !in sp.pages)
  }

  ghost predicate Owns(sps: seq<Space>, i: int, v: Vpn) {
    0 <= i < |sps| && v in sps[i].pages
  }

  ghost function FrameOf(s: State, sps: seq<Space>, i: int, v: Vpn): nat {
    if 0 <= i < |sps| then FrameAt(s, sps[i].root, v) else 0
  }

  /** No two recorded pages, of one space or of two, share a frame. */
  ghost predicate Private(s: State, sps: seq<Space>) {
    forall i, j, u, v :: Owns(sps, i, u) && Owns(sps, j, v) && (i != j || u != v) ==>
                           FrameOf(s, sps, i, u) != FrameOf(s, sps, j, v)
  }

  ghost predicate AllOk(s: State, sps: seq<Space>) {
    forall i :: 0 <= i < |sps| ==> SpaceOk(s, sps[i])
  }

  ghost predicate RootsDiffer(sps: seq<Space>) {
    forall i, j :: 0 <= i < |sps| && 0 <= j < |sps| && i != j ==> sps[i].root != sps[j].root
  }

  ghost predicate InOrder(s: State, sps: seq<Space>) {
    Inv(s) && AllOk(s, sps) && RootsDiffer(sps) && Private(s, sps)
  }

  // ---- Giving one space fresh pages ----

  /** Space x of sps' maps `pages` to frames free in s; what else it owns it owned before; the other spaces are the same. */
  ghost predicate Renewed(sps: seq<Space>, sps': seq<Space>, x: nat, pages: seq<Vpn>) {
    && |sps'| == |sps| && x < |sps|
    && sps'[x].root == sps[x].root
    && (forall v :: v in sps'[x].pages ==> v in pages || v in sps[x].pages)
    && (forall j :: 0 <= j < |sps| && j != x ==> sps'[j] == sps[j])
  }

  /** Page v of space j has the frame it had, and that frame was in use. */
  ghost predicate OldPage(s: State, s': State, sps: seq<Space>, sps': seq<Space>, j: int, v: Vpn) {
    && Owns(sps, j, v)
    && FrameOf(s', sps', j, v) == FrameOf(s, sps, j, v) && FrameOf(s, sps, j, v) !in s.free
  }

  /** Page v is one of the fresh ones of space x. */
  ghost predicate NewPage(s: State, s': State, sps': seq<Space>, x: int, pages: seq<Vpn>, j: int, v: Vpn) {
    j == x && v in pages && FrameOf(s', sps', j, v) in s.free
  }

  lemma PageKept(s: State, s': State, r: nat, pages: seq<Vpn>, sp: Space, v: Vpn)
    requires SpaceOk(s, sp) && v in sp.pages && OthersKept(s, s', r, pages) && (sp.root != r || v !in pages)
    ensures DataPage(s', sp.root, v) && FrameAt(s', sp.root, v) == FrameAt(s, sp.root, v)
    ensures FrameAt(s, sp.root, v) !in s.free
  {
    ContentsKept(s, s', r, pages, sp.root, v);
  }

  lemma PageFresh(s: State, s': State, r: nat, pages: seq<Vpn>, v: Vpn)
    requires FreshPages(s, s', r, pages) && v in pages
    ensures DataPage(s', r, v) && FrameAt(s', r, v) in s.free
  {
  }

  lemma OldOrNew(s: State, s': State, sps: seq<Space>, sps': seq<Space>, x: nat, pages: seq<Vpn>, j: int, v: Vpn)
    requires AllOk(s, sps) && RootsDiffer(sps) && Renewed(sps, sps', x, pages)
    requires OthersKept(s, s', sps[x].root, pages) && FreshPages(s, s', sps[x].root, pages)
    requires Owns(sps', j, v)
    ensures OldPage(s, s', sps, sps', j, v) || NewPage(s, s', sps', x, pages, j, v)
  {
    if j == x && v in pages {
      PageFresh(s, s', sps[x].root, pages, v);
    } else {
      PageKept(s, s', sps[x].root, pages, sps[j], v);
    }
  }

  lemma FramesApart(s: State, s': State, sps: seq<Space>, sps': seq<Space>, x: nat, pages: seq<Vpn>, i: int, u: Vpn, j: int, v: Vpn)
    requires Private(s, sps) && x < |sps'| && FreshPages(s, s', sps'[x].root, pages)
    requires OldPage(s, s', sps, sps', i, u) || NewPage(s, s', sps', x, pages, i, u)
    requires OldPage(s, s', sps, sps', j, v) || NewPage(s, s', sps', x, pages, j, v)
    requires i != j || u != v
    ensures FrameOf(s', sps', i, u) != FrameOf(s', sps', j, v)
  {
    if NewPage(s, s', sps', x, pages, i, u) && NewPage(s, s', sps', x, pages, j, v) {
      assert Walk(s'.mem, sps'[x].root, 4, u) != Walk(s'.mem, sps'[x].root, 4, v);
      PageFresh(s, s', sps'[x].root, pages, u);
      PageFresh(s, s', sps'[x].root, pages, v);
    }
  }

  lemma RenewedPrivate(s: State, s': State, sps: seq<Space>, sps': seq<Space>, x: nat, pages: seq<Vpn>)
    requires InOrder(s, sps) && Renewed(sps, sps', x, pages)
    requires OthersKept(s, s', sps[x].root, pages) && FreshPages(s, s', sps[x].root, pages)
    ensures Private(s', sps')
  {
    forall i, j, u, v | Owns(sps', i, u) && Owns(sps', j, v) && (i != j || u != v)
      ensures FrameOf(s', sps', i, u) != FrameOf(s', sps', j, v)
    {
      OldOrNew(s, s', sps, sps', x, pages, i, u);
      OldOrNew(s, s', sps, sps', x, pages, j, v);
      FramesApart(s, s', sps, sps', x, pages, i, u, j, v);
    }
  }

  lemma OtherOk(s: State, s': State, r: nat, pages: seq<Vpn>, sp: Space)
    requires SpaceOk(s, sp) && OthersKept(s, s', r, pages) && sp.root != r
    ensures SpaceOk(s', sp)
  {
    DirectKept(s, s', r, pages, sp.root);
    forall v | v in sp.pages ensures DataPage(s', sp.root, v) {
      PageKept(s, s', r, pages, sp, v);
    }
    forall p | p in s'.free || p in s'.tabs ensures DirectPage(p) !in sp.pages {
      assert p in s.free || p in s.tabs;
    }
  }

  lemma RenewedOk(s: State, s': State, pages: seq<Vpn>, sp: Space, sp': Space)
    requires SpaceOk(s, sp) && sp'.root == sp.root && (forall v :: v in sp'.pages ==> v in pages || v in sp.pages)
    requires OthersKept(s, s', sp.root, pages) && FreshPages(s, s', sp.root, pages) && AvoidsDirect(s', pages)
    ensures SpaceOk(s', sp')
  {
    DirectKept(s, s', sp.root, pages, sp.root);
    forall v | v in sp'.pages ensures DataPage(s', sp.root, v) {
      if v !in pages {
        PageKept(s, s', sp.root, pages, sp, v);
      }
    }
    forall p | p in s'.free || p in s'.tabs ensures DirectPage(p) !in sp'.pages {
      assert p in s.free || p in s.tabs;
    }
  }

  /** Giving one space fresh pages keeps the family in order. */
  lemma RenewedKeeps(s: State, s': State, sps: seq<Space>, sps': seq<Space>, x: nat, pages: seq<Vpn>)
    requires InOrder(s, sps) && Renewed(sps, sps', x, pages)
    requires OthersKept(s, s', sps[x].root, pages) && FreshPages(s, s', sps[x].root, pages) && AvoidsDirect(s', pages)
    ensures InOrder(s', sps')
  {
    RenewedPrivate(s, s', sps, sps', x, pages);
    forall j | 0 <= j < |sps'| ensures SpaceOk(s', sps'[j]) {
      if j == x {
        RenewedOk(s, s', pages, sps[x], sps'[x]);
      } else {
        OtherOk(s, s', sps[x].root, pages, sps[j]);
      }
    }
  }

  // ---- Adding a space ----

  lemma KeptIsOthersKept(s: State, s': State, r: nat, pages: seq<Vpn>)
    requires SpacesKept(s, s')
    ensures OthersKept(s, s', r, pages)
  {
  }

  /** The spaces that were there, after a fork. */
  lemma ForkedOthers(s: State, s': State, sps: seq<Space>, child: nat, pages: seq<Vpn>)
    requires InOrder(s, sps) && SpacesKept(s, s') && child in s.free
    ensures AllOk(s', sps) && forall j :: 0 <= j < |sps| ==> sps[j].root != child
  {
    KeptIsOthersKept(s, s', child, pages);
    forall j | 0 <= j < |sps| ensures SpaceOk(s', sps[j]) && sps[j].root != child {
      assert SpaceOk(s, sps[j]);
      OtherOk(s, s', child, pages, sps[j]);
    }
  }

  lemma ForkedOk(s: State, s': State, parent: nat, child: nat, pages: seq<Vpn>, sp: Space)
    requires SpacesKept(s, s') && Forked(s, s', parent, child, pages)
    requires Direct(s, parent) && AvoidsDirect(s, pages)
    requires sp.root == child && forall v :: v in sp.pages ==> v in pages
    ensures SpaceOk(s', sp)
  {
    ForkDirect(s, s', parent, child, pages);
    forall p | p in s'.free || p in s'.tabs ensures DirectPage(p) !in sp.pages {
      assert p in s.free || p in s.tabs;
    }
  }

  lemma AddedOldOrNew(s: State, s': State, sps: seq<Space>, sp: Space, pages: seq<Vpn>, j: int, v: Vpn)
    requires AllOk(s, sps) && SpacesKept(s, s') && FreshPages(s, s', sp.root, pages)
    requires forall u :: u in sp.pages ==> u in pages
    requires Owns(sps + [sp], j, v)
    ensures OldPage(s, s', sps, sps + [sp], j, v) || NewPage(s, s', sps + [sp], |sps|, pages, j, v)
  {
    if j == |sps| {
      PageFresh(s, s', sp.root, pages, v);
    } else {
      SpacesKeptData(s, s', sps[j].root, v);
      assert DataPage(s, sps[j].root, v);
    }
  }

  lemma AddedPrivate(s: State, s': State, sps: seq<Space>, sp: Space, pages: seq<Vpn>)
    requires AllOk(s, sps) && Private(s, sps) && SpacesKept(s, s') && FreshPages(s, s', sp.root, pages)
    requires forall v :: v in sp.pages ==> v in pages
    ensures Private(s', sps + [sp])
  {
    var sps' := sps + [sp];
    forall i, j, u, v | Owns(sps', i, u) && Owns(sps', j, v) && (i != j || u != v)
      ensures FrameOf(s', sps', i, u) != FrameOf(s', sps', j, v)
    {
      AddedOldOrNew(s, s', sps, sp, pages, i, u);
      AddedOldOrNew(s, s', sps, sp, pages, j, v);
      FramesApart(s, s', sps, sps', |sps|, pages, i, u, j, v);
    }
  }

  lemma AddedAllOk(s': State, sps: seq<Space>, sp: Space)
    requires AllOk(s', sps) && RootsDiffer(sps) && SpaceOk(s', sp)
    requires forall j :: 0 <= j < |sps| ==> sps[j].root != sp.root
    ensures AllOk(s', sps + [sp]) && RootsDiffer(sps + [sp])
  {
  }

  /** Adding the child of a fork keeps the family in order. */
  lemma AddedKeeps(s: State, s': State, sps: seq<Space>, parent: nat, sp: Space, pages: seq<Vpn>)
    requires InOrder(s, sps) && SpacesKept(s, s') && Forked(s, s', parent, sp.root, pages)
    requires Direct(s, parent) && AvoidsDirect(s, pages) && forall v :: v in sp.pages ==> v in pages
    ensures InOrder(s', sps + [sp])
  {
    ForkedOthers(s, s', sps, sp.root, pages);
    ForkedOk(s, s', parent, sp.root, pages, sp);
    AddedAllOk(s', sps, sp);
    AddedPrivate(s, s', sps, sp, pages);
  }

  // ---- Writing ordinary memory ----

  lemma SamePageTables(s: State, s': State, sps: seq<Space>)
    requires InOrder(s, sps) && Inv(s') && s'.free == s.free && s'.tabs == s.tabs
    requires forall r, u :: IsRoot(s, r) ==> Walk(s'.mem, r, 4, u) == Walk(s.mem, r, 4, u)
    ensures InOrder(s', sps)
  {
    hide Inv, Walk, FrameOf, SpaceOk;
    forall j | 0 <= j < |sps| ensures SpaceOk(s', sps[j]) {
      SameWalksOk(s, s', sps[j]);
    }
    forall i, j, u, v | Owns(sps, i, u) && Owns(sps, j, v) && (i != j || u != v)
      ensures FrameOf(s', sps, i, u) != FrameOf(s', sps, j, v)
    {
      SameFrame(s, s', sps, i, u);
      SameFrame(s, s', sps, j, v);
    }
  }

  lemma SameFrame(s: State, s': State, sps: seq<Space>, i: int, v: Vpn)
    requires AllOk(s, sps) && forall r, u :: IsRoot(s, r) ==> Walk(s'.mem, r, 4, u) == Walk(s.mem, r, 4, u)
    ensures FrameOf(s', sps, i, v) == FrameOf(s, sps, i, v)
  {
    hide Walk;
    if 0 <= i < |sps| {
      assert SpaceOk(s, sps[i]);
    }
  }

  lemma SameWalksOk(s: State, s': State, sp: Space)
    requires SpaceOk(s, sp) && s'.free == s.free && s'.tabs == s.tabs
    requires forall r, u :: IsRoot(s, r) ==> Walk(s'.mem, r, 4, u) == Walk(s.mem, r, 4, u)
    ensures SpaceOk(s', sp)
  {
    hide Walk;
  }
}
