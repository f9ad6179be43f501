/**
 Loading the segments of an executable (map_exe_format in sys/read_tarfs.c): fresh pages are
 mapped for each segment and its bytes are copied from the file, one by one, through the
 page tables.
 */
module ElfLoad {
  import opened Options
  import opened FrameSet
  import opened PageTables
  import opened PageMapping
  import opened ForkCopy
  import opened Addresses
  import opened AddressSpaces
  import opened Areas
  import opened Bytes

  /** struct Exe_Segment: where the segment is in the file and in memory. */
  datatype Segment = Segment(offset: nat, vaddr: nat, size: nat)

  const CANONICAL: nat := 0x1_0000_0000_0000     // 2^48

  function Floor(a: nat): nat {
    a / PAGE * PAGE
  }

  /** [least_start, max_end) */
  function Rounded(g: Segment): Area {
    if g.size == 0 then Area(0, 0) else Area(Floor(g.vaddr), Floor(g.vaddr + g.size) + PAGE)
  }

  function SegPages(g: Segment): seq<Vpn> {
    PagesFrom(Rounded(g).start, Rounded(g).end)
  }

  /** The byte at virtual address a. */
  function ByteAt(m: Mem, r: nat, a: nat): Option<Byte> {
    if Walk(m, r, 4, PageOf(a)).None? then None else Some(PageByte(Contents(m, r, PageOf(a)), a % PAGE))
  }

  /** Store a byte at virtual address a. */
  function PutByte(s: State, r: nat, a: nat, x: Byte): State {
    match Walk(s.mem, r, 4, PageOf(a))
    case None => s
    case Some(w) => SetPage(s, w.frame, WithByte(PageAt(s.mem, w.frame), a % PAGE, x))
  }

  /** The byte at an address: byte a % 4096 of the frame that the address walks to. */
  lemma ByteAtIs(m: Mem, r: nat, a: nat)
    ensures ByteAt(m, r, a) ==
            match Walk(m, r, 4, PageOf(a)) case None => None case Some(w) => Some(if w.frame < |m| then PageByte(m[w.frame], a % 4096) else 0)
  {
    hide Walk, PageOf;
  }

  /** The copying loop: the first n bytes of the segment. */
  function CopyBytes(s: State, r: nat, g: Segment, disk: seq<Byte>, n: nat): State
    requires g.offset + n <= |disk|
  {
    if n == 0 then s else PutByte(CopyBytes(s, r, g, disk, n - 1), r, g.vaddr + n - 1, disk[g.offset + n - 1])
  }

  ghost function LoadSegment(s: State, r: nat, g: Segment, disk: seq<Byte>): Option<State>
    requires g.offset + g.size <= |disk|
  {
    var s1 :- MapFresh(s, r, SegPages(g));
    Some(CopyBytes(s1, r, g, disk, g.size))
  }

  ghost predicate InFile(gs: seq<Segment>, disk: seq<Byte>) {
    forall i :: 0 <= i < |gs| ==> gs[i].offset + gs[i].size <= |disk|
  }

  ghost function LoadAll(s: State, r: nat, gs: seq<Segment>, disk: seq<Byte>): Option<State>
    requires InFile(gs, disk)
    decreases |gs|
  {
    if gs == [] then Some(s)
    else
      var s1 :- LoadAll(s, r, gs[..|gs| - 1], disk);
      LoadSegment(s1, r, gs[|gs| - 1], disk)
  }

  // ---- Addresses ----

  lemma OnPage(start: nat, a: nat)
    requires start % PAGE == 0 && start <= a < start + PAGE
    ensures PageOf(a) == PageOf(start)
  {
    hide PageOf;
    PageOfNumber(a, start);
    assert a / PAGE == start / PAGE;
  }

  /** Below 2^48 a page number determines the page. */
  lemma SameNumber(a: nat, b: nat)
    requires a < CANONICAL && b < CANONICAL && PageOf(a) == PageOf(b)
    ensures a / PAGE == b / PAGE
  {
    hide PageOf;
    PageOfNumber(a, b);
  }

  lemma {:induction false} InPages(start: nat, end: nat, a: nat)
    requires start % PAGE == 0 && start <= a < end
    ensures PageOf(a) in PagesFrom(start, end)
    decreases end - start
  {
    hide PageOf;
    if a < start + PAGE {
      OnPage(start, a);
    } else {
      InPages(start + PAGE, end, a);
    }
  }

  /** Every byte of a segment lies on one of its pages. */
  lemma SegmentCovered(g: Segment, a: nat)
    requires g.vaddr <= a < g.vaddr + g.size
    ensures PageOf(a) in SegPages(g)
  {
    hide PageOf;
    InPages(Rounded(g).start, Rounded(g).end, a);
  }

  lemma {:induction false} PageInRange(start: nat, end: nat, v: Vpn) returns (a: nat)
    requires v in PagesFrom(start, end) && start % PAGE == 0
    ensures start <= a < end && PageOf(a) == v && a % PAGE == 0
    decreases end - start
  {
    hide PageOf;
    if v == PageOf(start) {
      a := start;
    } else {
      a := PageInRange(start + PAGE, end, v);
    }
  }

  ghost predicate Apart(g: Segment, h: Segment) {
    && Rounded(g).end <= CANONICAL && Rounded(h).end <= CANONICAL
    && (Rounded(g).end <= Rounded(h).start || Rounded(h).end <= Rounded(g).start || g.size == 0 || h.size == 0)
  }

  lemma RoundedAligned(g: Segment)
    ensures Rounded(g).start % PAGE == 0 && (g.size == 0 ==> SegPages(g) == [])
  {
  }

  /** Segments whose rounded ranges do not overlap share no page. */
  lemma RoundedApart(g: Segment, h: Segment, v: Vpn)
    requires Apart(g, h) && v in SegPages(g)
    ensures v !in SegPages(h)
  {
    hide PageOf, PagesFrom, Rounded;
    RoundedAligned(g);
    RoundedAligned(h);
    if v in SegPages(h) {
      var a := PageInRange(Rounded(g).start, Rounded(g).end, v);
      var b := PageInRange(Rounded(h).start, Rounded(h).end, v);
      SameNumber(a, b);
    }
  }

  /** Rounding: the pages of a segment are exactly those of its bytes and of the address right behind them. */
  lemma SegPagesExact(g: Segment, v: Vpn)
    requires g.size > 0
    ensures v in SegPages(g) <==> exists a :: g.vaddr <= a <= g.vaddr + g.size && PageOf(a) == v
  {
    hide PageOf, PagesFrom;
    var start, end := Rounded(g).start, Rounded(g).end;
    RoundedAligned(g);
    if v in SegPages(g) {
      var a := PageInRange(start, end, v);
      if a < g.vaddr {
        OnPage(a, g.vaddr);
        assert PageOf(g.vaddr) == v;
      } else {
        assert a <= g.vaddr + g.size;
      }
    }
    if a :| g.vaddr <= a <= g.vaddr + g.size && PageOf(a) == v {
      InPages(start, end, a);
    }
  }

  lemma {:induction false} PageCount(start: nat, end: nat)
    requires start % PAGE == 0 && end % PAGE == 0 && start <= end
    ensures |PagesFrom(start, end)| == end / PAGE - start / PAGE
    decreases end - start
  {
    hide PageOf;
    if start < end {
      PageCount(start + PAGE, end);
    }
  }

  /** How many they are, and the area that is recorded for them. */
  lemma SegPageCount(g: Segment)
    ensures |SegPages(g)| == if g.size == 0 then 0 else (g.vaddr + g.size) / 4096 - g.vaddr / 4096 + 1
    ensures g.size > 0 ==> Rounded(g).start == g.vaddr / 4096 * 4096 && Rounded(g).end == (g.vaddr + g.size) / 4096 * 4096 + 4096
  {
    hide PageOf;
    PageCount(Rounded(g).start, Rounded(g).end);
  }

  // ---- One segment ----

  /** The pages are mapped to fresh frames, and nothing else of s has changed. */
  ghost predicate Loading(s: State, s': State, r: nat, pages: seq<Vpn>) {
    Inv(s) && IsRoot(s, r) && OthersKept(s, s', r, pages) && FreshPages(s, s', r, pages)
  }

  lemma LoadedRoot(s: State, s': State, r: nat, pages: seq<Vpn>)
    requires Loading(s, s', r, pages)
    ensures Inv(s') && IsRoot(s', r)
  {
  }

  /** The frame that a byte of a fresh page is in. */
  lemma FreshFrame(s: State, s': State, r: nat, pages: seq<Vpn>, v: Vpn) returns (f: nat)
    requires Loading(s, s', r, pages) && v in pages
    ensures Walk(s'.mem, r, 4, v) == Some(Word(f, RWU)) && f in s.free && DataFrame(s', f) && f < |s'.mem| && |s'.mem[f]| == ENTRIES
  {
    hide Walk;
    assert FreshPage(s, s', r, v);
    f := Walk(s'.mem, r, 4, v).value.frame;
  }

  lemma WithByteLength(page: seq<Word>, o: nat, x: Byte)
    ensures |WithByte(page, o, x)| == |page|
  {
  }

  /** Storing a byte in a fresh page moves no page and leaves what was in use. */
  lemma PutByteKeeps(s: State, s': State, r: nat, pages: seq<Vpn>, a: nat, x: Byte)
    requires Loading(s, s', r, pages) && PageOf(a) in pages
    ensures Loading(s, PutByte(s', r, a, x), r, pages)
  {
    hide Walk, Inv, PageOf, WithByte;
    var f := FreshFrame(s, s', r, pages, PageOf(a));
    var page := WithByte(s'.mem[f], a % PAGE, x);
    WithByteLength(s'.mem[f], a % PAGE, x);
    LoadedRoot(s, s', r, pages);
    FilledOthers(s, s', r, pages, f, page);
    forall u ensures Walk(SetPage(s', f, page).mem, r, 4, u) == Walk(s'.mem, r, 4, u) {
      SetPageWalk(s', f, page, r, u);
    }
    FreshSame(s, s', SetPage(s', f, page), r, pages);
  }

  lemma FreshSame(s: State, s1: State, s2: State, r: nat, pages: seq<Vpn>)
    requires FreshPages(s, s1, r, pages) && s2.free == s1.free && s2.tabs == s1.tabs
    requires forall u :: Walk(s2.mem, r, 4, u) == Walk(s1.mem, r, 4, u)
    ensures FreshPages(s, s2, r, pages)
  {
    hide Walk;
    forall v | v in pages ensures FreshPage(s, s2, r, v) {
      assert FreshPage(s, s1, r, v);
    }
  }

  /** A byte stored is read back, and no other byte of the fresh pages changes. */
  lemma PutByteReads(s: State, s': State, r: nat, pages: seq<Vpn>, a: nat, x: Byte, b: nat)
    requires Loading(s, s', r, pages) && PageOf(a) in pages && PageOf(b) in pages && a < CANONICAL && b < CANONICAL
    ensures ByteAt(PutByte(s', r, a, x).mem, r, b) == if b == a then Some(x) else ByteAt(s'.mem, r, b)
  {
    hide Walk, Inv, PageOf, WithByte, PageByte, FreshPages, OthersKept;
    var f := FreshFrame(s, s', r, pages, PageOf(a));
    var g := FreshFrame(s, s', r, pages, PageOf(b));
    var page := WithByte(s'.mem[f], a % PAGE, x);
    WithByteLength(s'.mem[f], a % PAGE, x);
    LoadedRoot(s, s', r, pages);
    SetPageWalk(s', f, page, r, PageOf(b));
    if PageOf(a) == PageOf(b) {
      SameNumber(a, b);
      ByteWritten(s'.mem[f], a % PAGE, x, b % PAGE);
    } else {
      FramesApart(s, s', r, pages, PageOf(a), PageOf(b));
    }
  }

  lemma FramesApart(s: State, s': State, r: nat, pages: seq<Vpn>, u: Vpn, v: Vpn)
    requires FreshPages(s, s', r, pages) && u in pages && v in pages && u != v
    ensures Walk(s'.mem, r, 4, u) != Walk(s'.mem, r, 4, v)
  {
  }

  lemma {:induction false} CopyKeeps(s: State, s1: State, r: nat, g: Segment, disk: seq<Byte>, n: nat)
    requires g.offset + n <= |disk| && n <= g.size && Loading(s, s1, r, SegPages(g))
    ensures Loading(s, CopyBytes(s1, r, g, disk, n), r, SegPages(g))
    decreases n
  {
    hide Loading, SegPages, PutByte, PageOf;
    if n > 0 {
      CopyKeeps(s, s1, r, g, disk, n - 1);
      SegmentCovered(g, g.vaddr + n - 1);
      PutByteKeeps(s, CopyBytes(s1, r, g, disk, n - 1), r, SegPages(g), g.vaddr + n - 1, disk[g.offset + n - 1]);
    }
  }

  /** After n steps of the copying loop the first n bytes are in place. */
  lemma {:induction false} CopyPuts(s: State, s1: State, r: nat, g: Segment, disk: seq<Byte>, n: nat, k: nat)
    requires g.offset + n <= |disk| && k < n <= g.size && Rounded(g).end <= CANONICAL && Loading(s, s1, r, SegPages(g))
    ensures ByteAt(CopyBytes(s1, r, g, disk, n).mem, r, g.vaddr + k) == Some(disk[g.offset + k])
    decreases n
  {
    hide Loading, SegPages, PutByte, PageOf, ByteAt, Rounded;
    var a, b := g.vaddr + n - 1, g.vaddr + k;
    CopyKeeps(s, s1, r, g, disk, n - 1);
    SegmentCovered(g, a);
    SegmentCovered(g, b);
    SegmentBelow(g, a);
    SegmentBelow(g, b);
    PutByteReads(s, CopyBytes(s1, r, g, disk, n - 1), r, SegPages(g), a, disk[g.offset + n - 1], b);
    if k < n - 1 {
      CopyPuts(s, s1, r, g, disk, n - 1, k);
    }
  }

  lemma SegmentBelow(g: Segment, a: nat)
    requires Rounded(g).end <= CANONICAL && g.vaddr <= a < g.vaddr + g.size
    ensures a < CANONICAL
  {
  }

  /** Byte k of the segment is mapped, to ordinary memory, and is the byte of the file. */
  ghost predicate HasByte(s: State, r: nat, g: Segment, disk: seq<Byte>, k: nat)
    requires g.offset + g.size <= |disk| && k < g.size
  {
    DataPage(s, r, PageOf(g.vaddr + k)) && ByteAt(s.mem, r, g.vaddr + k) == Some(disk[g.offset + k])
  }

  /** Loading a segment gives its pages fresh frames and changes nothing else; wherever it lies. */
  lemma LoadSegmentKeeps(s: State, r: nat, g: Segment, disk: seq<Byte>)
    requires Inv(s) && IsRoot(s, r) && g.offset + g.size <= |disk| && LoadSegment(s, r, g, disk).Some?
    ensures Loading(s, LoadSegment(s, r, g, disk).value, r, SegPages(g))
  {
    hide Inv, OthersKept, FreshPages, MapFresh, SegPages, CopyBytes;
    MapFreshSpec(s, r, SegPages(g));
    CopyKeeps(s, MapFresh(s, r, SegPages(g)).value, r, g, disk, g.size);
  }

  /** And every byte of it is in place. */
  lemma LoadSegmentSpec(s: State, r: nat, g: Segment, disk: seq<Byte>, k: nat)
    requires Inv(s) && IsRoot(s, r) && g.offset + g.size <= |disk| && Rounded(g).end <= CANONICAL && k < g.size
    requires LoadSegment(s, r, g, disk).Some?
    ensures HasByte(LoadSegment(s, r, g, disk).value, r, g, disk, k)
  {
    hide Inv, OthersKept, FreshPages, MapFresh, SegPages, CopyBytes, ByteAt, PageOf, Rounded, Walk;
    LoadSegmentKeeps(s, r, g, disk);
    MapFreshSpec(s, r, SegPages(g));
    CopyPuts(s, MapFresh(s, r, SegPages(g)).value, r, g, disk, g.size, k);
    SegmentCovered(g, g.vaddr + k);
    var f := FreshFrame(s, LoadSegment(s, r, g, disk).value, r, SegPages(g), PageOf(g.vaddr + k));
  }

  // ---- All segments ----

  /** Loading another segment leaves the bytes of a loaded one. */
  lemma ByteKept(s: State, r: nat, g: Segment, h: Segment, disk: seq<Byte>, k: nat)
    requires Inv(s) && IsRoot(s, r) && g.offset + g.size <= |disk| && h.offset + h.size <= |disk| && k < g.size
    requires Apart(g, h) && HasByte(s, r, g, disk, k) && LoadSegment(s, r, h, disk).Some?
    ensures HasByte(LoadSegment(s, r, h, disk).value, r, g, disk, k)
  {
    hide PageOf, Walk, Inv, LoadSegment, SegPages, Apart, FreshPages, PageByte;
    LoadSegmentKeeps(s, r, h, disk);
    SegmentCovered(g, g.vaddr + k);
    RoundedApart(g, h, PageOf(g.vaddr + k));
    ContentsKept(s, LoadSegment(s, r, h, disk).value, r, SegPages(h), r, PageOf(g.vaddr + k));
  }

  ghost predicate AllApart(gs: seq<Segment>) {
    && (forall i :: 0 <= i < |gs| ==> Rounded(gs[i]).end <= CANONICAL)
    && (forall i, j :: 0 <= i < j < |gs| ==> Apart(gs[i], gs[j]))
  }

  /** The pages of all the segments. */
  function AllPages(gs: seq<Segment>): seq<Vpn> {
    if gs == [] then [] else AllPages(gs[..|gs| - 1]) + SegPages(gs[|gs| - 1])
  }

  /** The pages of all the segments, counted. */
  function PageTotal(gs: seq<Segment>): nat {
    if gs == [] then 0
    else
      var g := gs[|gs| - 1];
      PageTotal(gs[..|gs| - 1]) + if g.size == 0 then 0 else (g.vaddr + g.size) / 4096 - g.vaddr / 4096 + 1
  }

  lemma {:induction false} AllPagesCount(gs: seq<Segment>)
    ensures |AllPages(gs)| == PageTotal(gs)
    decreases |gs|
  {
    hide SegPages;
    if gs != [] {
      AllPagesCount(gs[..|gs| - 1]);
      SegPageCount(gs[|gs| - 1]);
    }
  }

  /** Mapping fresh pages takes a frame for each, and at most three more for tables. */
  lemma {:induction false} MapFreshTakes(s: State, r: nat, pages: seq<Vpn>)
    requires Inv(s) && IsRoot(s, r) && MapFresh(s, r, pages).Some?
    ensures |s.free| - 4 * |pages| <= |MapFresh(s, r, pages).value.free| <= |s.free| - |pages|
    decreases |pages|
  {
    hide Inv, MapFrom, Walk;
    if pages != [] {
      MapFreshStep(s, r, pages[0]);
      FreshStepTakes(s, r, pages[0]);
      MapFreshTakes(MapFrom(s.(free := s.free - {Lowest(s.free)}), r, 4, pages[0], Word(Lowest(s.free), RWU)).value, r, pages[1..]);
    }
  }

  lemma FreshStepTakes(s: State, r: nat, v: Vpn)
    requires Inv(s) && IsRoot(s, r) && s.free != {}
    requires MapFrom(s.(free := s.free - {Lowest(s.free)}), r, 4, v, Word(Lowest(s.free), RWU)).Some?
    ensures var s1 := MapFrom(s.(free := s.free - {Lowest(s.free)}), r, 4, v, Word(Lowest(s.free), RWU)).value;
            |s.free| - 4 <= |s1.free| <= |s.free| - 1
  {
    hide MapFrom, Walk, Missing;
    var s0 := s.(free := s.free - {Lowest(s.free)});
    assert |s0.free| == |s.free| - 1;
    assert IsRoot(s0, r);
    MapFromTakes(s0, r, 4, v, Word(Lowest(s.free), RWU));
    FewMissing(s0.mem, r, v);
  }

  lemma FewMissing(m: Mem, r: nat, v: Vpn)
    ensures 0 <= Missing(m, r, 4, v) <= 3
  {
  }

  lemma {:induction false} CopyTakesNothing(s: State, r: nat, g: Segment, disk: seq<Byte>, n: nat)
    requires g.offset + n <= |disk|
    ensures CopyBytes(s, r, g, disk, n).free == s.free
    decreases n
  {
    hide Walk, PageOf, WithByte;
    if n > 0 {
      CopyTakesNothing(s, r, g, disk, n - 1);
    }
  }

  /** Loading takes a frame for every page, and at most three more for tables. */
  lemma {:induction false} LoadAllTakes(s: State, r: nat, gs: seq<Segment>, disk: seq<Byte>)
    requires Inv(s) && IsRoot(s, r) && InFile(gs, disk) && LoadAll(s, r, gs, disk).Some?
    ensures |s.free| - 4 * PageTotal(gs) <= |LoadAll(s, r, gs, disk).value.free| <= |s.free| - PageTotal(gs)
    decreases |gs|
  {
    hide Inv, MapFresh, CopyBytes, SegPages, Loading;
    if gs != [] {
      var n := |gs| - 1;
      LoadAllTakes(s, r, gs[..n], disk);
      LoadAllKeeps(s, r, gs[..n], disk);
      var s1 := LoadAll(s, r, gs[..n], disk).value;
      LoadedRoot(s, s1, r, AllPages(gs[..n]));
      SegPageCount(gs[n]);
      MapFreshTakes(s1, r, SegPages(gs[n]));
      CopyTakesNothing(MapFresh(s1, r, SegPages(gs[n])).value, r, gs[n], disk, gs[n].size);
    }
  }

  /** Loading any segments, overlapping or not, gives their pages fresh frames and changes nothing else. */
  lemma {:induction false} LoadAllKeeps(s: State, r: nat, gs: seq<Segment>, disk: seq<Byte>)
    requires Inv(s) && IsRoot(s, r) && InFile(gs, disk) && LoadAll(s, r, gs, disk).Some?
    ensures Loading(s, LoadAll(s, r, gs, disk).value, r, AllPages(gs))
    decreases |gs|
  {
    hide Inv, OthersKept, FreshPages, LoadSegment, SegPages;
    if gs == [] {
      KeepNothing(s, r);
      NoneFresh(s, r);
    } else {
      var n := |gs| - 1;
      LoadAllKeeps(s, r, gs[..n], disk);
      var s1 := LoadAll(s, r, gs[..n], disk).value;
      LoadedRoot(s, s1, r, AllPages(gs[..n]));
      LoadSegmentKeeps(s1, r, gs[n], disk);
      var s2 := LoadSegment(s1, r, gs[n], disk).value;
      OthersTrans(s, s1, s2, r, AllPages(gs[..n]), SegPages(gs[n]));
      FreshMore(s, s1, s2, r, AllPages(gs[..n]), SegPages(gs[n]));
    }
  }

  /** Every byte of every segment is mapped and is the byte of the file; later segments disturb no earlier one. */
  lemma {:induction false} LoadAllSpec(s: State, r: nat, gs: seq<Segment>, disk: seq<Byte>, i: nat, k: nat)
    requires Inv(s) && IsRoot(s, r) && InFile(gs, disk) && AllApart(gs) && LoadAll(s, r, gs, disk).Some?
    requires i < |gs| && k < gs[i].size
    ensures HasByte(LoadAll(s, r, gs, disk).value, r, gs[i], disk, k)
    decreases |gs|
  {
    hide Inv, Apart, HasByte, LoadSegment, Loading, Rounded;
    var n := |gs| - 1;
    LoadAllKeeps(s, r, gs[..n], disk);
    var s1 := LoadAll(s, r, gs[..n], disk).value;
    LoadedRoot(s, s1, r, AllPages(gs[..n]));
    if i == n {
      LoadSegmentSpec(s1, r, gs[n], disk, k);
    } else {
      assert gs[..n][i] == gs[i];
      LoadAllSpec(s, r, gs[..n], disk, i, k);
      ByteKept(s1, r, gs[i], gs[n], disk, k);
    }
  }

  /** Exec, then fork: whichever pages are recorded, the child reads the file's bytes too. */
  lemma ForkedBytes(s: State, r: nat, gs: seq<Segment>, disk: seq<Byte>, pages: seq<Vpn>, i: nat, k: nat)
    requires Inv(s) && IsRoot(s, r) && InFile(gs, disk) && AllApart(gs) && LoadAll(s, r, gs, disk).Some?
    requires i < |gs| && k < gs[i].size
    requires AllData(LoadAll(s, r, gs, disk).value, r, pages) && Fork(LoadAll(s, r, gs, disk).value, r, pages).Some?
    ensures var (s', child) := Fork(LoadAll(s, r, gs, disk).value, r, pages).value;
            ByteAt(s'.mem, child, gs[i].vaddr + k) == ByteAt(s'.mem, r, gs[i].vaddr + k) == Some(disk[gs[i].offset + k])
  {
    hide Inv, LoadAll, AllApart, PageOf, Fork, Loading, AllData;
    LoadAllKeeps(s, r, gs, disk);
    LoadAllSpec(s, r, gs, disk, i, k);
    LoadedRoot(s, LoadAll(s, r, gs, disk).value, r, AllPages(gs));
    SameBytes(LoadAll(s, r, gs, disk).value, r, pages, gs[i].vaddr + k);
  }

  /** After a fork, parent and child read at every address of ordinary memory what the parent read before. */
  lemma SameBytes(s: State, r: nat, pages: seq<Vpn>, a: nat)
    requires Inv(s) && IsRoot(s, r) && AllData(s, r, pages) && Fork(s, r, pages).Some? && DataPage(s, r, PageOf(a))
    ensures var (s', child) := Fork(s, r, pages).value;
            ByteAt(s'.mem, child, a) == ByteAt(s.mem, r, a) && ByteAt(s'.mem, r, a) == ByteAt(s.mem, r, a)
  {
    hide Inv, Walk, PageOf, Fork, PageByte, AllData;
    ForkSpec(s, r, pages);
    var (s', child) := Fork(s, r, pages).value;
    SpacesKeptData(s, s', r, PageOf(a));
    if PageOf(a) in pages {
      assert FreshPage(s, s', child, PageOf(a));
    }
  }
}
