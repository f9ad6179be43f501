/**
 The memory side of kfork (sys/kfork.c): clone the tables, then give the child its own
 copy of every page the parent has recorded in its memory areas.
 */
module ForkCopy {
  import opened Options
  import opened PageTables
  import opened PageMapping
  import opened TableClone

  // ---- Data frames ----

  function PageAt(m: Mem, f: nat): seq<Word> {
    if f < |m| then m[f] else []
  }

  /** i_virt_alloc: two frames leave the free set, the tables stay as they are. */
  ghost function Take2(s: State): State
    requires |s.free| >= 2
  {
    s.(free := Rest(s.free))
  }

  /** Overwrite a frame. */
  function SetPage(s: State, f: nat, page: seq<Word>): State {
    if f < |s.mem| then s.(mem := s.mem[f := page]) else s
  }

  /** f is ordinary memory: neither free nor a table. */
  ghost predicate DataFrame(s: State, f: nat) {
    f < FRAMES && f !in s.free && f !in s.tabs
  }

  /** Page v of space r is mapped to ordinary memory. */
  ghost predicate DataPage(s: State, r: nat, v: Vpn) {
    Walk(s.mem, r, 4, v).Some? && DataFrame(s, Walk(s.mem, r, 4, v).value.frame)
  }

  /** The contents of page v of space r. */
  function Contents(m: Mem, r: nat, v: Vpn): seq<Word> {
    match Walk(m, r, 4, v) case None => [] case Some(w) => PageAt(m, w.frame)
  }

  lemma SetPageKeeps(s: State, f: nat, page: seq<Word>)
    requires Inv(s) && DataFrame(s, f) && |page| == ENTRIES
    ensures Inv(SetPage(s, f, page))
  {
    assert forall g: nat, i: nat :: g != f ==> Rd(SetPage(s, f, page).mem, g, i) == Rd(s.mem, g, i);
  }

  /** Writing ordinary memory changes no walk. */
  lemma SetPageWalk(s: State, f: nat, page: seq<Word>, r: nat, u: Vpn)
    requires Inv(s) && DataFrame(s, f) && |page| == ENTRIES && IsRoot(s, r)
    ensures Walk(SetPage(s, f, page).mem, r, 4, u) == Walk(s.mem, r, 4, u)
  {
    WalkFrame(s, SetPage(s, f, page).mem, r, 4, u);
  }

  // ---- One page ----

  /** Copy page v of `parent` into a fresh frame of `child`. */
  ghost function ForkPage(s: State, parent: nat, child: nat, v: Vpn): (r: Option<State>) {
    if |s.free| < 2 then None
    else
      var f := Second(s.free);
      var s2 :- MapFrom(Take2(s), child, 4, v, Word(f, RWU));
      Some(SetPage(s2, f, Contents(s2.mem, parent, v)))
  }

  ghost function ForkPages(s: State, parent: nat, child: nat, pages: seq<Vpn>): (r: Option<State>)
    decreases |pages|
  {
    if pages == [] then Some(s)
    else
      var s1 :- ForkPage(s, parent, child, pages[0]);
      ForkPages(s1, parent, child, pages[1..])
  }

  /** The whole memory effect: the new state and the root of the child. */
  ghost function Fork(s: State, parent: nat, pages: seq<Vpn>): (r: Option<(State, nat)>) {
    var (s1, child) :- CloneTable(s, parent, 4, 0, 0);
    var s' :- ForkPages(s1, parent, child, pages);
    Some((s', child))
  }

  ghost predicate Forking(s: State, parent: nat, child: nat) {
    Inv(s) && IsRoot(s, parent) && IsRoot(s, child) && parent != child
  }

  /** Only the named pages of the child are mapped anew; memory in use is as it was. */
  ghost predicate OthersKept(s: State, s': State, child: nat, pages: seq<Vpn>) {
    && Inv(s') && Grows(s, s')
    && (forall r, u :: IsRoot(s, r) && (r != child || u !in pages) ==>
                         Walk(s'.mem, r, 4, u) == Walk(s.mem, r, 4, u))
    && (forall f :: DataFrame(s, f) ==> PageAt(s'.mem, f) == PageAt(s.mem, f))
  }

  /** Page v of the child is a copy, in a frame free in s, of page v of the parent. */
  ghost predicate Copied(s: State, s': State, parent: nat, child: nat, v: Vpn) {
    && Walk(s'.mem, child, 4, v).Some?
    && Walk(s'.mem, child, 4, v).value.flags == RWU
    && Walk(s'.mem, child, 4, v).value.frame in s.free
    && DataPage(s', child, v)
    && Contents(s'.mem, child, v) == Contents(s.mem, parent, v)
  }

  lemma Take2Keeps(s: State)
    requires Inv(s) && |s.free| >= 2
    ensures Inv(Take2(s)) && Grows(s, Take2(s))
  {
  }

  lemma RemappedOthers(s: State, s2: State, child: nat, v: Vpn, w: Word)
    requires Inv(s) && IsRoot(s, child) && |s.free| >= 2 && Remapped(Take2(s), s2, child, v, w)
    ensures OthersKept(s, s2, child, [v]) && DataFrame(s2, Second(s.free))
    ensures Walk(s2.mem, child, 4, v) == Some(w)
  {
    GrowsTrans(s, Take2(s), s2);
    assert IsRoot(Take2(s), child);
    forall f | DataFrame(s, f) ensures PageAt(s2.mem, f) == PageAt(s.mem, f) {
      assert f !in s2.tabs;
    }
    assert forall u :: u in [v] <==> u == v;
    forall r, u | IsRoot(s, r) && (r != child || u !in [v])
      ensures Walk(s2.mem, r, 4, u) == Walk(s.mem, r, 4, u)
    {
      assert IsRoot(Take2(s), r);
    }
  }

  lemma FilledOthers(s: State, s2: State, child: nat, pages: seq<Vpn>, f: nat, page: seq<Word>)
    requires Inv(s) && OthersKept(s, s2, child, pages) && f in s.free && DataFrame(s2, f) && |page| == ENTRIES
    ensures OthersKept(s, SetPage(s2, f, page), child, pages)
  {
    SetPageKeeps(s2, f, page);
    var s' := SetPage(s2, f, page);
    forall r, u | IsRoot(s, r) && (r != child || u !in pages)
      ensures Walk(s'.mem, r, 4, u) == Walk(s.mem, r, 4, u)
    {
      assert IsRoot(s2, r);
      SetPageWalk(s2, f, page, r, u);
    }
    forall g | DataFrame(s, g) ensures PageAt(s'.mem, g) == PageAt(s.mem, g) {
      assert g != f;
    }
  }

  /** A data page reads the same as long as its walk and its frame are kept. */
  lemma ContentsKept(s: State, s': State, child: nat, pages: seq<Vpn>, r: nat, v: Vpn)
    requires OthersKept(s, s', child, pages) && IsRoot(s, r) && DataPage(s, r, v)
    requires r != child || v !in pages
    ensures DataPage(s', r, v) && Contents(s'.mem, r, v) == Contents(s.mem, r, v)
  {
  }

  /** The copied page, once the fresh frame behind it is filled. */
  lemma FilledCopied(s: State, s2: State, parent: nat, child: nat, v: Vpn, f: nat)
    requires Inv(s) && Inv(s2) && IsRoot(s2, child) && DataPage(s, parent, v) && f in s.free && DataFrame(s2, f)
    requires Walk(s2.mem, child, 4, v) == Some(Word(f, RWU))
    ensures Copied(s, SetPage(s2, f, Contents(s.mem, parent, v)), parent, child, v)
  {
    SetPageWalk(s2, f, Contents(s.mem, parent, v), child, v);
  }

  /** The mapping half of ForkPage. */
  lemma ForkPageMaps(s: State, parent: nat, child: nat, v: Vpn) returns (s2: State)
    requires Forking(s, parent, child) && DataPage(s, parent, v) && ForkPage(s, parent, child, v).Some?
    ensures ForkPage(s, parent, child, v) == Some(SetPage(s2, Second(s.free), Contents(s.mem, parent, v)))
    ensures OthersKept(s, s2, child, [v]) && DataFrame(s2, Second(s.free))
    ensures Walk(s2.mem, child, 4, v) == Some(Word(Second(s.free), RWU))
  {
    var w := Word(Second(s.free), RWU);
    Take2Keeps(s);
    MapPage(Take2(s), child, v, w);
    s2 := MapFrom(Take2(s), child, 4, v, w).value;
    RemappedOthers(s, s2, child, v, w);
    ContentsKept(s, s2, child, [v], parent, v);
  }

  lemma ForkPageSpec(s: State, parent: nat, child: nat, v: Vpn)
    requires Forking(s, parent, child) && DataPage(s, parent, v) && ForkPage(s, parent, child, v).Some?
    ensures var s' := ForkPage(s, parent, child, v).value;
            OthersKept(s, s', child, [v]) && Copied(s, s', parent, child, v)
  {
    var s2 := ForkPageMaps(s, parent, child, v);
    var f, page := Second(s.free), Contents(s.mem, parent, v);
    assert |page| == ENTRIES;
    FilledOthers(s, s2, child, [v], f, page);
    FilledCopied(s, s2, parent, child, v, f);
  }

  // ---- All pages ----

  lemma OthersTrans(s: State, s1: State, s2: State, child: nat, p: seq<Vpn>, q: seq<Vpn>)
    requires OthersKept(s, s1, child, p) && OthersKept(s1, s2, child, q)
    ensures OthersKept(s, s2, child, p + q)
  {
    hide Walk, Inv;
    GrowsTrans(s, s1, s2);
    forall r, u | IsRoot(s, r) && (r != child || u !in p + q)
      ensures Walk(s2.mem, r, 4, u) == Walk(s.mem, r, 4, u)
    {
      assert r != child || (u !in p && u !in q);
      assert IsRoot(s1, r);
      assert Walk(s1.mem, r, 4, u) == Walk(s.mem, r, 4, u);
    }
    forall f | DataFrame(s, f) ensures PageAt(s2.mem, f) == PageAt(s.mem, f) {
      assert DataFrame(s1, f);
    }
  }

  ghost predicate AllData(s: State, r: nat, pages: seq<Vpn>) {
    forall v :: v in pages ==> DataPage(s, r, v)
  }

  /** One step of ForkPages, with everything the next one needs. */
  lemma ForkPagesStep(s: State, parent: nat, child: nat, pages: seq<Vpn>) returns (s1: State)
    requires Forking(s, parent, child) && AllData(s, parent, pages) && pages != []
    requires ForkPages(s, parent, child, pages).Some?
    ensures ForkPages(s1, parent, child, pages[1..]) == ForkPages(s, parent, child, pages)
    ensures Forking(s1, parent, child) && AllData(s1, parent, pages[1..])
    ensures OthersKept(s, s1, child, [pages[0]]) && Copied(s, s1, parent, child, pages[0])
  {
    assert pages[0] in pages;
    ForkPageSpec(s, parent, child, pages[0]);
    s1 := ForkPage(s, parent, child, pages[0]).value;
    forall v | v in pages[1..] ensures DataPage(s1, parent, v) {
      ContentsKept(s, s1, child, [pages[0]], parent, v);
    }
  }

  lemma KeepNothing(s: State, child: nat)
    requires Inv(s)
    ensures OthersKept(s, s, child, [])
  {
  }

  lemma {:induction false} ForkPagesKeep(s: State, parent: nat, child: nat, pages: seq<Vpn>)
    requires Forking(s, parent, child) && AllData(s, parent, pages)
    requires ForkPages(s, parent, child, pages).Some?
    ensures OthersKept(s, ForkPages(s, parent, child, pages).value, child, pages)
    decreases |pages|
  {
    hide AllData, Copied, ForkPage, OthersKept, Inv;
    if pages == [] {
      KeepNothing(s, child);
    } else {
      var s1 := ForkPagesStep(s, parent, child, pages);
      ForkPagesKeep(s1, parent, child, pages[1..]);
      OthersTrans(s, s1, ForkPages(s1, parent, child, pages[1..]).value, child, [pages[0]], pages[1..]);
      assert [pages[0]] + pages[1..] == pages;
    }
  }

  /** A copy survives the copying of other pages. */
  lemma CopiedLater(s: State, s1: State, s2: State, parent: nat, child: nat, v: Vpn, rest: seq<Vpn>)
    requires Copied(s, s1, parent, child, v) && OthersKept(s1, s2, child, rest) && IsRoot(s1, child) && v !in rest
    ensures Copied(s, s2, parent, child, v) && Walk(s2.mem, child, 4, v) == Walk(s1.mem, child, 4, v)
  {
    ContentsKept(s1, s2, child, rest, child, v);
  }

  /** A copy taken after other pages were copied is a copy of what the parent had before. */
  lemma CopiedEarlier(s: State, s1: State, s2: State, parent: nat, child: nat, v: Vpn, done: Vpn)
    requires Forking(s, parent, child) && DataPage(s, parent, v)
    requires OthersKept(s, s1, child, [done]) && Copied(s1, s2, parent, child, v)
    ensures Copied(s, s2, parent, child, v)
  {
    ContentsKept(s, s1, child, [done], parent, v);
  }

  lemma {:induction false} ForkPagesCopied(s: State, parent: nat, child: nat, pages: seq<Vpn>, v: Vpn)
    requires Forking(s, parent, child) && AllData(s, parent, pages) && v in pages
    requires ForkPages(s, parent, child, pages).Some?
    ensures Copied(s, ForkPages(s, parent, child, pages).value, parent, child, v)
    decreases |pages|
  {
    var s1 := ForkPagesStep(s, parent, child, pages);
    var s2 := ForkPages(s1, parent, child, pages[1..]).value;
    if v in pages[1..] {
      ForkPagesCopied(s1, parent, child, pages[1..], v);
      CopiedEarlier(s, s1, s2, parent, child, v, pages[0]);
    } else {
      assert v == pages[0];
      ForkPagesKeep(s1, parent, child, pages[1..]);
      CopiedLater(s, s1, s2, parent, child, v, pages[1..]);
    }
  }

  /** Different pages get different frames. */
  lemma {:induction false} ForkPagesApart(s: State, parent: nat, child: nat, pages: seq<Vpn>, u: Vpn, v: Vpn)
    requires Forking(s, parent, child) && AllData(s, parent, pages) && u in pages && v in pages && u != v
    requires ForkPages(s, parent, child, pages).Some?
    ensures var m' := ForkPages(s, parent, child, pages).value.mem;
            Walk(m', child, 4, u) != Walk(m', child, 4, v)
    decreases |pages|
  {
    var s1 := ForkPagesStep(s, parent, child, pages);
    if u in pages[1..] && v in pages[1..] {
      ForkPagesApart(s1, parent, child, pages[1..], u, v);
    } else if u in pages[1..] {
      FirstApart(s, s1, parent, child, pages, v, u);
    } else {
      FirstApart(s, s1, parent, child, pages, u, v);
    }
  }

  lemma FirstApart(s: State, s1: State, parent: nat, child: nat, pages: seq<Vpn>, first: Vpn, later: Vpn)
    requires pages != [] && first == pages[0] && first !in pages[1..] && later in pages[1..]
    requires Forking(s1, parent, child) && AllData(s1, parent, pages[1..])
    requires Copied(s, s1, parent, child, first) && ForkPages(s1, parent, child, pages[1..]).Some?
    ensures var m' := ForkPages(s1, parent, child, pages[1..]).value.mem;
            Walk(m', child, 4, first) != Walk(m', child, 4, later)
  {
    var s2 := ForkPages(s1, parent, child, pages[1..]).value;
    ForkPagesKeep(s1, parent, child, pages[1..]);
    CopiedLater(s, s1, s2, parent, child, first, pages[1..]);
    ForkPagesCopied(s1, parent, child, pages[1..], later);
  }

  // ---- The whole fork ----

  /** Page v is mapped in r, read-write for users, to a frame free in s and ordinary memory in s'. */
  ghost predicate FreshPage(s: State, s': State, r: nat, v: Vpn) {
    && DataPage(s', r, v)
    && Walk(s'.mem, r, 4, v).value.flags == RWU
    && Walk(s'.mem, r, 4, v).value.frame in s.free
  }

  /** Each of the pages is fresh and has its own frame. */
  ghost predicate FreshPages(s: State, s': State, r: nat, pages: seq<Vpn>) {
    && (forall v :: v in pages ==> FreshPage(s, s', r, v))
    && (forall u, v :: u in pages && v in pages && u != v ==> Walk(s'.mem, r, 4, u) != Walk(s'.mem, r, 4, v))
  }

  /** A fresh page is present, writable and open to users. */
  lemma FreshUsable(s: State, s': State, r: nat, pages: seq<Vpn>, v: Vpn)
    requires FreshPages(s, s', r, pages) && v in pages
    ensures Walk(s'.mem, r, 4, v).Some? && Walk(s'.mem, r, 4, v).value.flags == 7 && Usable(Walk(s'.mem, r, 4, v).value)
  {
    hide Walk;
    assert FreshPage(s, s', r, v);
  }

  lemma OneFresh(s: State, s': State, r: nat, v: Vpn)
    requires FreshPage(s, s', r, v)
    ensures FreshPages(s, s', r, [v])
  {
    assert forall u :: u in [v] <==> u == v;
  }

  /** Fresh pages followed by fresh pages: a page of both lists has its later frame. */
  lemma FreshMore(s: State, s1: State, s': State, r: nat, p: seq<Vpn>, q: seq<Vpn>)
    requires OthersKept(s, s1, r, p) && FreshPages(s, s1, r, p) && IsRoot(s1, r)
    requires OthersKept(s1, s', r, q) && FreshPages(s1, s', r, q)
    ensures FreshPages(s, s', r, p + q)
  {
    hide Walk, Inv;
    forall v | v in p + q
      ensures FreshPage(s, s', r, v)
      ensures v !in q ==> Walk(s'.mem, r, 4, v) == Walk(s1.mem, r, 4, v) && Walk(s'.mem, r, 4, v).value.frame !in s1.free
    {
      if v !in q {
        ContentsKept(s1, s', r, q, r, v);
      }
    }
  }

  /** No space of s sees a change, nor does memory in use. */
  ghost predicate SpacesKept(s: State, s': State) {
    && Inv(s') && Grows(s, s')
    && (forall r, u :: IsRoot(s, r) ==> Walk(s'.mem, r, 4, u) == Walk(s.mem, r, 4, u))
    && (forall f :: DataFrame(s, f) ==> PageAt(s'.mem, f) == PageAt(s.mem, f))
  }

  /** The child is a new space that has the pages as fresh copies and shares all the rest with its parent. */
  ghost predicate Forked(s: State, s': State, parent: nat, child: nat, pages: seq<Vpn>) {
    && child in s.free && IsRoot(s', child)
    && FreshPages(s, s', child, pages)
    && (forall v :: v in pages ==> Contents(s'.mem, child, v) == Contents(s.mem, parent, v))
    && (forall u :: u !in pages ==> Walk(s'.mem, child, 4, u) == Walk(s.mem, parent, 4, u))
  }

  lemma ClonedKept(s: State, parent: nat) returns (s1: State, child: nat)
    requires Inv(s) && IsRoot(s, parent) && CloneTable(s, parent, 4, 0, 0).Some?
    ensures CloneTable(s, parent, 4, 0, 0) == Some((s1, child))
    ensures SpacesKept(s, s1) && child in s.free && Forking(s1, parent, child)
    ensures SameTree(s.mem, parent, s1.mem, child, 4)
  {
    CloneSpace(s, parent);
    s1 := CloneTable(s, parent, 4, 0, 0).value.0;
    child := CloneTable(s, parent, 4, 0, 0).value.1;
    forall r, u | IsRoot(s, r) ensures Walk(s1.mem, r, 4, u) == Walk(s.mem, r, 4, u) {
      assert SameTree(s.mem, r, s1.mem, r, 4);
    }
  }

  lemma SpacesKeptData(s: State, s1: State, r: nat, v: Vpn)
    requires SpacesKept(s, s1) && IsRoot(s, r) && DataPage(s, r, v)
    ensures DataPage(s1, r, v) && Contents(s1.mem, r, v) == Contents(s.mem, r, v)
  {
  }

  lemma SpacesKeptTrans(s: State, s1: State, s2: State, child: nat, pages: seq<Vpn>)
    requires SpacesKept(s, s1) && OthersKept(s1, s2, child, pages) && child in s.free && Inv(s)
    ensures SpacesKept(s, s2)
  {
    GrowsTrans(s, s1, s2);
    forall r, u | IsRoot(s, r) ensures Walk(s2.mem, r, 4, u) == Walk(s.mem, r, 4, u) {
      assert IsRoot(s1, r) && r != child;
      assert Walk(s1.mem, r, 4, u) == Walk(s.mem, r, 4, u);
    }
    forall f | DataFrame(s, f) ensures PageAt(s2.mem, f) == PageAt(s.mem, f) {
      assert DataFrame(s1, f);
    }
  }

  /** ForkPages, as one statement. */
  lemma ForkPagesSpec(s: State, parent: nat, child: nat, pages: seq<Vpn>)
    requires Forking(s, parent, child) && AllData(s, parent, pages)
    requires ForkPages(s, parent, child, pages).Some?
    ensures var s' := ForkPages(s, parent, child, pages).value;
            && OthersKept(s, s', child, pages) && FreshPages(s, s', child, pages)
            && (forall v :: v in pages ==> Contents(s'.mem, child, v) == Contents(s.mem, parent, v))
  {
    var s' := ForkPages(s, parent, child, pages).value;
    ForkPagesKeep(s, parent, child, pages);
    forall v | v in pages ensures Copied(s, s', parent, child, v) {
      ForkPagesCopied(s, parent, child, pages, v);
    }
    forall u, v | u in pages && v in pages && u != v
      ensures Walk(s'.mem, child, 4, u) != Walk(s'.mem, child, 4, v)
    {
      ForkPagesApart(s, parent, child, pages, u, v);
    }
  }

  /** Fork copies and isolates. */
  lemma ForkSpec(s: State, parent: nat, pages: seq<Vpn>)
    requires Inv(s) && IsRoot(s, parent) && AllData(s, parent, pages) && Fork(s, parent, pages).Some?
    ensures var (s', child) := Fork(s, parent, pages).value;
            SpacesKept(s, s') && Forked(s, s', parent, child, pages)
  {
    var s1, child := ClonedKept(s, parent);
    forall v | v in pages ensures DataPage(s1, parent, v) && Contents(s1.mem, parent, v) == Contents(s.mem, parent, v) {
      SpacesKeptData(s, s1, parent, v);
    }
    ForkPagesSpec(s1, parent, child, pages);
    var s' := ForkPages(s1, parent, child, pages).value;
    SpacesKeptTrans(s, s1, s', child, pages);
    forall u | u !in pages ensures Walk(s'.mem, child, 4, u) == Walk(s.mem, parent, 4, u) {
      assert Walk(s1.mem, child, 4, u) == Walk(s.mem, parent, 4, u);
    }
  }

  // ---- What it costs ----

  ghost predicate AllMapped(s: State, r: nat, pages: seq<Vpn>) {
    forall v :: v in pages ==> Walk(s.mem, r, 4, v).Some?
  }

  lemma ForkPageTakes(s: State, parent: nat, child: nat, v: Vpn)
    requires Forking(s, parent, child) && DataPage(s, parent, v) && Walk(s.mem, child, 4, v).Some?
    ensures ForkPage(s, parent, child, v).Some? <==> |s.free| >= 2
    ensures ForkPage(s, parent, child, v).Some? ==> |ForkPage(s, parent, child, v).value.free| == |s.free| - 2
  {
    hide Inv, MapFrom, Walk, Missing, DataFrame;
    if |s.free| >= 2 {
      Take2Keeps(s);
      MapFromTakes(Take2(s), child, 4, v, Word(Second(s.free), RWU));
      MappedMissesNothing(s.mem, child, 4, v);
    }
  }

  lemma {:induction false} ForkPagesTakes(s: State, parent: nat, child: nat, pages: seq<Vpn>)
    requires Forking(s, parent, child) && AllData(s, parent, pages) && AllMapped(s, child, pages)
    ensures ForkPages(s, parent, child, pages).Some? <==> |s.free| >= 2 * |pages|
    ensures ForkPages(s, parent, child, pages).Some? ==>
              |ForkPages(s, parent, child, pages).value.free| == |s.free| - 2 * |pages|
    decreases |pages|
  {
    hide Inv, ForkPage, DataFrame, Walk;
    if pages != [] {
      var v, rest := pages[0], pages[1..];
      assert v in pages;
      ForkPageTakes(s, parent, child, v);
      if ForkPage(s, parent, child, v).Some? {
        ForkPageSpec(s, parent, child, v);
        var s1 := ForkPage(s, parent, child, v).value;
        forall u | u in rest ensures DataPage(s1, parent, u) && Walk(s1.mem, child, 4, u).Some? {
          ContentsKept(s, s1, child, [v], parent, u);
          assert u == v || u !in [v];
        }
        ForkPagesTakes(s1, parent, child, rest);
      }
    }
  }

  /** Fork succeeds exactly when two frames are free for every table and every recorded page. */
  lemma ForkTakes(s: State, parent: nat, pages: seq<Vpn>)
    requires Inv(s) && IsRoot(s, parent) && AllData(s, parent, pages)
    ensures Fork(s, parent, pages).Some? <==> |s.free| >= 2 * Count(s.mem, parent, 4) + 2 * |pages|
    ensures Fork(s, parent, pages).Some? ==>
              |Fork(s, parent, pages).value.0.free| == |s.free| - 2 * Count(s.mem, parent, 4) - 2 * |pages|
  {
    CloneTableTakes(s, parent, 4, 0, 0);
    if CloneTable(s, parent, 4, 0, 0).Some? {
      var s1, child := ClonedKept(s, parent);
      forall v | v in pages ensures DataPage(s1, parent, v) && Walk(s1.mem, child, 4, v).Some? {
        SpacesKeptData(s, s1, parent, v);
        assert Walk(s1.mem, child, 4, v) == Walk(s.mem, parent, 4, v);
      }
      ForkPagesTakes(s1, parent, child, pages);
    }
  }
}
