/**
 The direct map: in every address space each free frame and each page-table frame is
 reached at its direct address.  The kernel touches tables through that map only, so
 everything it does to memory rests on this.
 */
module AddressSpaces {
  import opened Options
  import opened FrameSet
  import opened PageTables
  import opened PageMapping
  import opened TableClone
  import opened ForkCopy
  import opened Addresses

  /** Space r reaches every free frame and every table of every space at its direct address. */
  ghost predicate Direct(s: State, r: nat) {
    forall p :: p in s.free || p in s.tabs ==> Walk(s.mem, r, 4, DirectPage(p)) == Some(Word(p, RWU))
  }

  /** No page of the list is the direct address of a free frame or of a table. */
  ghost predicate AvoidsDirect(s: State, pages: seq<Vpn>) {
    forall p :: p in s.free || p in s.tabs ==> DirectPage(p) !in pages
  }

  /** The direct map outlives any mapping of pages that are not its own. */
  lemma DirectKept(s: State, s': State, r: nat, pages: seq<Vpn>, x: nat)
    requires OthersKept(s, s', r, pages) && IsRoot(s, x) && Direct(s, x)
    requires x == r ==> AvoidsDirect(s', pages)
    ensures Direct(s', x)
  {
    forall p | p in s'.free || p in s'.tabs
      ensures Walk(s'.mem, x, 4, DirectPage(p)) == Some(Word(p, RWU))
    {
      assert p in s.free || p in s.tabs;
    }
  }

  /** A fork hands the direct map on to the child. */
  lemma ForkDirect(s: State, s': State, parent: nat, child: nat, pages: seq<Vpn>)
    requires SpacesKept(s, s') && Forked(s, s', parent, child, pages)
    requires Direct(s, parent) && AvoidsDirect(s, pages)
    ensures Direct(s', child)
  {
    forall p | p in s'.free || p in s'.tabs
      ensures Walk(s'.mem, child, 4, DirectPage(p)) == Some(Word(p, RWU))
    {
      assert p in s.free || p in s.tabs;
    }
  }

  /** i_virt_alloc maps the frames it takes where they are mapped already: no translation
      changes and no further frame is taken. */
  lemma VirtAllocMapsNothing(s: State, r: nat, p: nat)
    requires Inv(s) && IsRoot(s, r) && Direct(s, r) && p in s.free
    ensures MapFrom(s.(free := s.free - {p}), r, 4, DirectPage(p), Word(p, RWU)) == Some(s.(free := s.free - {p}))
  {
    MapFromSame(s.(free := s.free - {p}), r, 4, DirectPage(p), Word(p, RWU));
  }

  /** After i_virt_alloc the frame returned is a fresh page at its direct address. */
  lemma Take2Fresh(s: State, r: nat)
    requires Inv(s) && IsRoot(s, r) && Direct(s, r) && |s.free| >= 2
    ensures SpacesKept(s, Take2(s)) && Direct(Take2(s), r)
    ensures FreshPages(s, Take2(s), r, [DirectPage(Second(s.free))])
    ensures AvoidsDirect(Take2(s), [DirectPage(Second(s.free))])
  {
    hide Walk, DirectPage;
    Take2Keeps(s);
    forall p | p in Take2(s).free || p in Take2(s).tabs ensures DirectPage(p) != DirectPage(Second(s.free)) {
      DirectPageInjective(p, Second(s.free));
    }
  }

  // ---- exec: map fresh frames at given pages ----

  /** page_alloc and map_process for each page. */
  ghost function MapFresh(s: State, r: nat, pages: seq<Vpn>): (o: Option<State>)
    decreases |pages|
  {
    if pages == [] then Some(s)
    else if s.free == {} then None
    else
      var f := Lowest(s.free);
      var s1 :- MapFrom(s.(free := s.free - {f}), r, 4, pages[0], Word(f, RWU));
      MapFresh(s1, r, pages[1..])
  }

  lemma MapFreshStep(s: State, r: nat, v: Vpn)
    requires Inv(s) && IsRoot(s, r) && s.free != {}
    requires MapFrom(s.(free := s.free - {Lowest(s.free)}), r, 4, v, Word(Lowest(s.free), RWU)).Some?
    ensures var s1 := MapFrom(s.(free := s.free - {Lowest(s.free)}), r, 4, v, Word(Lowest(s.free), RWU)).value;
            && OthersKept(s, s1, r, [v]) && Walk(s1.mem, r, 4, v) == Some(Word(Lowest(s.free), RWU))
            && DataPage(s1, r, v) && Inv(s1) && IsRoot(s1, r)
  {
    var f := Lowest(s.free);
    var s0 := s.(free := s.free - {f});
    assert Inv(s0) && Grows(s, s0);
    MapPage(s0, r, v, Word(f, RWU));
    TakenThenMapped(s, s0, MapFrom(s0, r, 4, v, Word(f, RWU)).value, r, v, f);
  }

  lemma TakenThenMapped(s: State, s0: State, s1: State, r: nat, v: Vpn, f: nat)
    requires Inv(s) && IsRoot(s, r) && f in s.free && s0 == s.(free := s.free - {f})
    requires Remapped(s0, s1, r, v, Word(f, RWU))
    ensures OthersKept(s, s1, r, [v]) && Walk(s1.mem, r, 4, v) == Some(Word(f, RWU)) && DataPage(s1, r, v)
  {
    assert Grows(s, s0);
    GrowsTrans(s, s0, s1);
    assert IsRoot(s0, r);
    assert forall u :: u in [v] <==> u == v;
    forall g | DataFrame(s, g) ensures PageAt(s1.mem, g) == PageAt(s.mem, g) {
      assert g !in s1.tabs;
    }
    forall x, u | IsRoot(s, x) && (x != r || u !in [v])
      ensures Walk(s1.mem, x, 4, u) == Walk(s.mem, x, 4, u)
    {
      assert IsRoot(s0, x);
    }
  }

  lemma NoneFresh(s: State, r: nat)
    ensures FreshPages(s, s, r, [])
  {
  }

  lemma {:induction false} MapFreshSpec(s: State, r: nat, pages: seq<Vpn>)
    requires Inv(s) && IsRoot(s, r) && MapFresh(s, r, pages).Some?
    ensures OthersKept(s, MapFresh(s, r, pages).value, r, pages)
    ensures FreshPages(s, MapFresh(s, r, pages).value, r, pages)
    decreases |pages|
  {
    hide OthersKept, MapFrom, Walk, FreshPages;
    if pages == [] {
      KeepNothing(s, r);
      NoneFresh(s, r);
    } else {
      var v, rest := pages[0], pages[1..];
      MapFreshStep(s, r, v);
      var s1 := MapFrom(s.(free := s.free - {Lowest(s.free)}), r, 4, v, Word(Lowest(s.free), RWU)).value;
      MapFreshSpec(s1, r, rest);
      var s' := MapFresh(s1, r, rest).value;
      OneFresh(s, s1, r, v);
      OthersTrans(s, s1, s', r, [v], rest);
      assert [v] + rest == pages;
      FreshMore(s, s1, s', r, [v], rest);
    }
  }

  // ---- Boot ----

  /** The first loop of identity_mapping: frames 0 to n - 1 at their direct addresses. */
  ghost function IdentityMap(s: State, root: nat, n: nat): (o: Option<State>) {
    if n == 0 then Some(s)
    else
      var s1 :- IdentityMap(s, root, n - 1);
      MapFrom(s1, root, 4, DirectPage(n - 1), Word(n - 1, RWU))
  }

  lemma {:induction false} IdentityMapKeeps(s: State, root: nat, n: nat)
    requires Inv(s) && IsRoot(s, root) && n <= FRAMES && IdentityMap(s, root, n).Some?
    ensures var s' := IdentityMap(s, root, n).value; Inv(s') && IsRoot(s', root) && Grows(s, s')
    decreases n
  {
    hide Inv, MapFrom, DirectPage, Walk, DataKept, Missing;
    if n > 0 {
      IdentityMapKeeps(s, root, n - 1);
      var s1 := IdentityMap(s, root, n - 1).value;
      MapPage(s1, root, DirectPage(n - 1), Word(n - 1, RWU));
      GrowsTrans(s, s1, IdentityMap(s, root, n).value);
    }
  }

  /** Once a frame cannot be mapped, the rest is not either. */
  lemma {:induction false} IdentityMapStops(s: State, root: nat, m: nat, n: nat)
    requires m <= n && IdentityMap(s, root, m).None?
    ensures IdentityMap(s, root, n).None?
    decreases n
  {
    hide MapFrom, DirectPage;
    if m < n {
      IdentityMapStops(s, root, m, n - 1);
    }
  }

  lemma {:induction false} IdentityMapped(s: State, root: nat, n: nat, p: nat)
    requires Inv(s) && IsRoot(s, root) && p < n <= FRAMES && IdentityMap(s, root, n).Some?
    ensures Walk(IdentityMap(s, root, n).value.mem, root, 4, DirectPage(p)) == Some(Word(p, RWU))
    decreases n
  {
    hide Inv, MapFrom, Walk, DirectPage;
    var s1 := IdentityMap(s, root, n - 1).value;
    IdentityMapKeeps(s, root, n - 1);
    MapPage(s1, root, DirectPage(n - 1), Word(n - 1, RWU));
    if p < n - 1 {
      IdentityMapped(s, root, n - 1, p);
      DirectPageInjective(p, n - 1);
    }
  }

  /** Identity mapping puts the direct map in place when it covers every frame that memory has to give. */
  lemma BootDirect(s: State, root: nat, n: nat)
    requires Inv(s) && IsRoot(s, root) && n <= FRAMES && IdentityMap(s, root, n).Some?
    requires forall p :: p in s.free || p in s.tabs ==> p < n
    ensures var s' := IdentityMap(s, root, n).value; Inv(s') && IsRoot(s', root) && Direct(s', root)
  {
    hide Inv, MapFrom, Walk, DirectPage, IdentityMap;
    IdentityMapKeeps(s, root, n);
    var s' := IdentityMap(s, root, n).value;
    forall p | p in s'.free || p in s'.tabs
      ensures Walk(s'.mem, root, 4, DirectPage(p)) == Some(Word(p, RWU))
    {
      assert p in s.free || p in s.tabs;
      IdentityMapped(s, root, n, p);
    }
  }

  /** The root table of map_kernel: one frame from page_alloc. */
  ghost function NewRoot(s: State): State
    requires s.free != {}
  {
    var n := Lowest(s.free);
    State(s.mem, s.free - {n}, s.tabs[n := Node(4, 0, 0)])
  }

  lemma NewRootKeeps(s: State)
    requires Inv(s) && s.free != {}
    ensures Inv(NewRoot(s)) && IsRoot(NewRoot(s), Lowest(s.free)) && Grows(s, NewRoot(s))
  {
  }
}
