/**
 Open files (sys_open, sys_read and sys_close in sys/syscall.c): descriptors on the archive,
 read in chunks up to the first NUL byte.
 */
module Files {
  import opened Options
  import opened Archive

  const DESCRIPTORS: nat := 100
  const SEARCHED: nat := 10       // sys_read looks for the descriptor in the first ten records

  /** struct fdRecord */
  datatype Fd = Fd(fd: int, start: nat, curPtr: nat, fileSize: nat, eof: bool)

  // ---- Reading in chunks ----

  /** What is left to read at p. */
  function Rest(b: seq<int>, p: nat): seq<int> {
    CStr(b, p)
  }

  function Min(a: int, b: int): int {
    if a < b then a else b
  }

  /** The bytes one read of n returns. */
  function Chunk(b: seq<int>, f: Fd, n: int): seq<int> {
    if f.eof || n <= 0 then [] else Rest(b, f.curPtr)[..Min(n, |Rest(b, f.curPtr)|)]
  }

  /** The record after the read: the end of file is noticed when the byte after the last one read is NUL. */
  function AfterRead(b: seq<int>, f: Fd, n: int): Fd {
    var k := |Chunk(b, f, n)|;
    if k == 0 then f else f.(curPtr := f.curPtr + k, eof := k == |Rest(b, f.curPtr)|)
  }

  lemma {:induction false} RestByte(b: seq<int>, p: nat, i: nat)
    requires i < |Rest(b, p)|
    ensures p + i < |b| && b[p + i] == Rest(b, p)[i] && b[p + i] != 0
    decreases i
  {
    if i > 0 {
      RestByte(b, p + 1, i - 1);
      assert p + 1 + (i - 1) == p + i && Rest(b, p)[i] == Rest(b, p + 1)[i - 1];
    }
  }

  lemma {:induction false} RestSuffix(b: seq<int>, p: nat, k: nat)
    requires k <= |Rest(b, p)|
    ensures Rest(b, p + k) == Rest(b, p)[k..]
    decreases k
  {
    if k > 0 {
      RestSuffix(b, p + 1, k - 1);
      assert p + 1 + (k - 1) == p + k && Rest(b, p)[1..] == Rest(b, p + 1);
    }
  }

  lemma RestAfter(b: seq<int>, p: nat, k: nat)
    requires k <= |Rest(b, p)|
    ensures Rest(b, p + k) == Rest(b, p)[k..]
    ensures p + |Rest(b, p)| <= |b| || Rest(b, p) == []
    ensures forall i :: 0 <= i < k ==> b[p + i] == Rest(b, p)[i] && b[p + i] != 0
  {
    hide Rest;
    RestSuffix(b, p, k);
    if Rest(b, p) != [] {
      RestBound(b, p);
    }
    forall i | 0 <= i < k ensures b[p + i] == Rest(b, p)[i] && b[p + i] != 0 {
      RestByte(b, p, i);
    }
  }

  lemma {:induction false} RestBound(b: seq<int>, p: nat)
    requires Rest(b, p) != []
    ensures p + |Rest(b, p)| <= |b|
    decreases |b| - p
  {
    if Rest(b, p + 1) != [] {
      RestBound(b, p + 1);
    }
  }

  /** The chunks of successive reads. */
  function Chunks(b: seq<int>, f: Fd, ns: seq<int>): seq<int>
    decreases |ns|
  {
    if ns == [] then [] else Chunk(b, f, ns[0]) + Chunks(b, AfterRead(b, f, ns[0]), ns[1..])
  }

  /** The record after successive reads. */
  function AfterReads(b: seq<int>, f: Fd, ns: seq<int>): Fd
    decreases |ns|
  {
    if ns == [] then f else AfterReads(b, AfterRead(b, f, ns[0]), ns[1..])
  }

  function Total(ns: seq<int>): int {
    if ns == [] then 0 else ns[0] + Total(ns[1..])
  }

  /** At the end of file nothing is left. */
  ghost predicate FdOk(b: seq<int>, f: Fd) {
    f.eof ==> Rest(b, f.curPtr) == []
  }

  lemma AfterReadOk(b: seq<int>, f: Fd, n: int)
    requires FdOk(b, f)
    ensures FdOk(b, AfterRead(b, f, n))
    ensures n > 0 ==> |Chunk(b, f, n)| == Min(n, |Rest(b, f.curPtr)|)
    ensures Rest(b, f.curPtr) == Chunk(b, f, n) + Rest(b, AfterRead(b, f, n).curPtr)
  {
    hide CStr;
    RestAfter(b, f.curPtr, |Chunk(b, f, n)|);
  }

  /** Reads of positive sizes return the string in order: each returns as much as was asked for or is left,
      and together they return the first Total(ns) bytes of it. */
  lemma {:induction false} ChunksConcatenate(b: seq<int>, f: Fd, ns: seq<int>)
    requires FdOk(b, f) && forall i :: 0 <= i < |ns| ==> ns[i] > 0
    ensures Total(ns) >= 0
    ensures Chunks(b, f, ns) == Rest(b, f.curPtr)[..Min(Total(ns), |Rest(b, f.curPtr)|)]
    ensures Rest(b, f.curPtr) == Chunks(b, f, ns) + Rest(b, AfterReads(b, f, ns).curPtr) && FdOk(b, AfterReads(b, f, ns))
    decreases |ns|
  {
    hide Rest, Chunk, AfterRead;
    if ns != [] {
      AfterReadOk(b, f, ns[0]);
      ChunksConcatenate(b, AfterRead(b, f, ns[0]), ns[1..]);
    }
  }

  /** Once everything is read, every later read returns nothing. */
  lemma ReadsEnd(b: seq<int>, f: Fd, ns: seq<int>, n: int)
    requires FdOk(b, f) && (forall i :: 0 <= i < |ns| ==> ns[i] > 0) && Total(ns) >= |Rest(b, f.curPtr)|
    ensures Chunks(b, f, ns) == Rest(b, f.curPtr) && Chunk(b, AfterReads(b, f, ns), n) == []
  {
    hide CStr;
    ChunksConcatenate(b, f, ns);
  }

  // ---- What a file reads as ----

  /** The string at a file's data is its content exactly when the content has no NUL byte and something ends
      it: padding, or the end of the entries. */
  lemma FileReadsAsContent(es: Entries, z: nat, k: nat)
    requires k < |es| && z > 0
    ensures Rest(Image(es, z), Off(es, k) + BLOCK) == es[k].content <==>
            NulFree(es[k].content) && (|es[k].content| % BLOCK != 0 || k + 1 == |es|)
  {
    hide CStr, Bytes, Block, SizeAt;
    var b, c := Image(es, z), es[k].content;
    var p := Off(es, k) + BLOCK;
    HeaderAt(es, z, k);
    ByteAfter(es, z, k);
    assert forall i :: 0 <= i < |c| ==> b[p + i] == c[i];
    if NulFree(c) && b[p + |c|] == 0 {
      CStrIs(b, p, c);
    } else if Rest(b, p) == c {
      RestAfter(b, p, |c|);
      RestEnds(b, p);
    }
  }

  lemma {:induction false} RestEnds(b: seq<int>, p: nat)
    ensures p + |Rest(b, p)| < |b| ==> b[p + |Rest(b, p)|] == 0
    decreases |b| - p
  {
    if p < |b| && b[p] != 0 {
      RestEnds(b, p + 1);
    }
  }

  /** The byte after a file's data: NUL from the padding or from the tail, or else the next entry's name. */
  lemma ByteAfter(es: Entries, z: nat, k: nat)
    requires k < |es| && z > 0
    ensures var p := Off(es, k) + BLOCK + |es[k].content|;
            p < |Image(es, z)| && (Image(es, z)[p] == 0 <==> |es[k].content| % BLOCK != 0 || k + 1 == |es|)
  {
    hide CStr, Bytes, Block, SizeAt;
    var b, e := Image(es, z), es[k];
    assert EntryOk(e);
    var p := Off(es, k) + BLOCK + |e.content|;
    NoBytes(es);
    BytesLonger(es, k);
    BlockFields(e, 0);
    if |e.content| % BLOCK != 0 {
      BytesAt(es, k, BLOCK + |e.content|);
    } else if k + 1 == |es| {
      assert p == |Bytes(es)|;
    } else {
      assert EntryOk(es[k + 1]);
      BlockFields(es[k + 1], 0);
      BytesAt(es, k + 1, 0);
    }
  }

  // ---- Descriptors ----

  /** The record that sys_read uses: the first of ten with the descriptor, or else the eleventh. */
  function RecordOf(fds: seq<Fd>, fd: int, i: nat): (r: nat)
    requires |fds| == DESCRIPTORS
    ensures i <= SEARCHED ==> i <= r <= SEARCHED && (r < SEARCHED ==> fds[r].fd == fd) && forall j :: i <= j < r ==> fds[j].fd != fd
    decreases SEARCHED - i
  {
    if i >= SEARCHED || fds[i].fd == fd then i else RecordOf(fds, fd, i + 1)
  }

  /** Every record names itself or was never used, as the first three are not, and knows when it is at the end. */
  ghost predicate FdsOk(b: seq<int>, fds: seq<Fd>) {
    |fds| == DESCRIPTORS && forall i :: 0 <= i < |fds| ==> ((i >= 3 && fds[i].fd == i) || fds[i].fd == 0) && FdOk(b, fds[i])
  }

  /** A descriptor reads through its own record exactly when it is at most 10; higher ones all use record 10. */
  lemma OwnRecord(b: seq<int>, fds: seq<Fd>, fd: nat)
    requires FdsOk(b, fds) && 3 <= fd < DESCRIPTORS && fds[fd].fd == fd
    ensures RecordOf(fds, fd, 0) == fd <==> fd <= SEARCHED
    ensures fd > SEARCHED ==> RecordOf(fds, fd, 0) == SEARCHED
  {
    hide RecordOf;
  }

  /** The lowest descriptor from i on that is not allocated. */
  function FreeFd(used: seq<bool>, i: nat): (r: nat)
    ensures i <= r && (r < |used| ==> !used[r]) && forall j :: i <= j < r && j < |used| ==> used[j]
    decreases |used| - i
  {
    if i >= |used| || !used[i] then i else FreeFd(used, i + 1)
  }

  // ---- The descriptor table over runs of calls ----

  datatype Table = Table(fds: seq<Fd>, used: seq<bool>, open: seq<bool>)

  /** The records are in order, and an open descriptor from 3 on has its own. */
  ghost predicate TableOk(b: seq<int>, t: Table) {
    && FdsOk(b, t.fds) && |t.used| == DESCRIPTORS && |t.open| == DESCRIPTORS
    && forall i :: 3 <= i < DESCRIPTORS && t.open[i] ==> t.fds[i].fd == i
  }

  /** sys_open, once the file is found: the lowest free descriptor. */
  function Opened(t: Table, file: Option<Found>): (int, Table) {
    var fd: int := FreeFd(t.used, 3);
    if file.Some? && fd < |t.fds| && fd < |t.used| && fd < |t.open| then
      (fd, Table(t.fds[fd := Fd(fd, file.value.start, file.value.start, file.value.size, false)], t.used[fd := true], t.open[fd := true]))
    else (-1, t)
  }

  /** sys_read: the bytes, and the record it finds advanced. */
  function ReadFrom(b: seq<int>, t: Table, fd: int, n: int): (seq<int>, Table)
    requires |t.fds| == DESCRIPTORS
  {
    if !(0 <= fd < |t.open|) || !t.open[fd] then ([], t)
    else
      var i := RecordOf(t.fds, fd, 0);
      (Chunk(b, t.fds[i], n), t.(fds := t.fds[i := AfterRead(b, t.fds[i], n)]))
  }

  function Closed(t: Table, fd: int): Table {
    if 0 <= fd < |t.used| && fd < |t.open| then t.(used := t.used[fd := false], open := t.open[fd := false]) else t
  }

  datatype Call = OpenCall(name: seq<int>) | ReadCall(fd: int, n: int) | CloseCall(fd: int)

  /** One call: the bytes a read returns, and the table. */
  function Called(es: Entries, z: nat, t: Table, c: Call): (seq<int>, Table)
    requires |t.fds| == DESCRIPTORS
  {
    match c
    case OpenCall(name) => ([], Opened(t, Target(es, z, name)).1)
    case ReadCall(fd, n) => ReadFrom(Image(es, z), t, fd, n)
    case CloseCall(fd) => ([], Closed(t, fd))
  }

  lemma CalledOk(es: Entries, z: nat, t: Table, c: Call)
    requires TableOk(Image(es, z), t)
    ensures TableOk(Image(es, z), Called(es, z, t, c).1)
  {
    hide Image, Target, Rest, RecordOf, FreeFd, Chunk, FdOk, AfterRead;
    var b := Image(es, z);
    if c.ReadCall? {
      var i := RecordOf(t.fds, c.fd, 0);
      AfterReadOk(b, t.fds[i], c.n);
      AfterReadKeeps(b, t.fds[i], c.n);
    }
    var fd := FreeFd(t.used, 3);
    FreshFdOk(b, fd);
  }

  lemma AfterReadKeeps(b: seq<int>, f: Fd, n: int)
    ensures AfterRead(b, f, n).fd == f.fd
  {
  }

  lemma AtEnd(b: seq<int>, f: Fd, n: int)
    requires f.eof
    ensures Chunk(b, f, n) == [] && AfterRead(b, f, n) == f
  {
  }

  lemma FreshFdOk(b: seq<int>, fd: int)
    ensures forall start, size :: FdOk(b, Fd(fd, start, start, size, false))
  {
  }

  /** What the reads of descriptor fd return in a run of calls. */
  function Received(es: Entries, z: nat, t: Table, calls: seq<Call>, fd: int): seq<int>
    requires |t.fds| == DESCRIPTORS
    decreases |calls|
  {
    if calls == [] then []
    else
      var (chunk, t') := Called(es, z, t, calls[0]);
      if |t'.fds| != DESCRIPTORS then []
      else (if calls[0].ReadCall? && calls[0].fd == fd then chunk else []) + Received(es, z, t', calls[1..], fd)
  }

  /** The sizes that those reads ask for. */
  function Sizes(calls: seq<Call>, fd: int): seq<int> {
    if calls == [] then []
    else (if calls[0].ReadCall? && calls[0].fd == fd then [calls[0].n] else []) + Sizes(calls[1..], fd)
  }

  /** The descriptor is open on record f of its own. */
  ghost predicate OpenOn(t: Table, fd: int, f: Fd) {
    && 3 <= fd < |t.fds| && fd < |t.used| && fd < |t.open| && t.used[fd] && t.open[fd] && t.fds[fd] == f && f.fd == fd
  }

  /** The call is no read of another descriptor that uses record 10 as well: 1, 2 and those above 10 do. */
  predicate Harmless(fd: int, c: Call) {
    fd == SEARCHED && c.ReadCall? && c.fd != fd ==> c.fd <= 0 || 3 <= c.fd < SEARCHED || c.fd >= DESCRIPTORS
  }

  /** Such a call, if it is no read or close of the descriptor itself, leaves it. */
  lemma OtherCall(es: Entries, z: nat, t: Table, c: Call, fd: int, f: Fd)
    requires TableOk(Image(es, z), t) && OpenOn(t, fd, f) && fd <= SEARCHED && c != CloseCall(fd) && !(c.ReadCall? && c.fd == fd)
    requires Harmless(fd, c)
    ensures OpenOn(Called(es, z, t, c).1, fd, f)
  {
    hide Image, Target, FdOk, Rest, Chunk, AfterRead, RecordOf, FreeFd;
    if c.ReadCall? && 0 <= c.fd < DESCRIPTORS && t.open[c.fd] {
      OtherRecord(Image(es, z), t, c.fd, fd);
    }
  }

  /** An open descriptor that is harmless to fd reads through another record. */
  lemma OtherRecord(b: seq<int>, t: Table, other: nat, fd: int)
    requires TableOk(b, t) && other < DESCRIPTORS && t.open[other] && other != fd && 3 <= fd <= SEARCHED && t.fds[fd].fd == fd
    requires Harmless(fd, ReadCall(other, 0))
    ensures RecordOf(t.fds, other, 0) != fd
  {
    hide RecordOf, FdOk;
    var r := RecordOf(t.fds, other, 0);
    if fd == SEARCHED {
      assert t.fds[other].fd == other;
      assert r <= other;
    }
  }

  lemma OwnRead(es: Entries, z: nat, t: Table, n: int, fd: int, f: Fd)
    requires TableOk(Image(es, z), t) && OpenOn(t, fd, f) && fd <= SEARCHED
    ensures var b := Image(es, z);
            var (chunk, t') := Called(es, z, t, ReadCall(fd, n));
            chunk == Chunk(b, f, n) && OpenOn(t', fd, AfterRead(b, f, n))
  {
    hide Image, FdOk, Rest, Chunk, AfterRead, RecordOf;
    OwnRecord(Image(es, z), t.fds, fd);
    AfterReadKeeps(Image(es, z), f, n);
  }

  /** No call of the run closes the descriptor or disturbs its record. */
  ghost predicate Undisturbed(calls: seq<Call>, fd: int) {
    forall c :: c in calls ==> c != CloseCall(fd) && Harmless(fd, c)
  }

  /** Whatever else is called in between, the reads of a descriptor up to 10 see its own record only; for
      descriptor 10, as long as no other reader of record 10 comes in between. */
  lemma {:induction false} ReadsAlone(es: Entries, z: nat, t: Table, calls: seq<Call>, fd: int, f: Fd)
    requires TableOk(Image(es, z), t) && OpenOn(t, fd, f) && fd <= SEARCHED && Undisturbed(calls, fd)
    ensures Received(es, z, t, calls, fd) == Chunks(Image(es, z), f, Sizes(calls, fd))
    decreases |calls|
  {
    hide Image, Called, TableOk, OpenOn, Chunk, AfterRead, Harmless;
    TableSize(Image(es, z), t);
    if calls != [] {
      var c := calls[0];
      var t' := Called(es, z, t, c).1;
      CalledOk(es, z, t, c);
      TableSize(Image(es, z), t');
      assert c in calls && forall x :: x in calls[1..] ==> x in calls;
      if c.ReadCall? && c.fd == fd {
        OwnRead(es, z, t, c.n, fd, f);
        ReadsAlone(es, z, t', calls[1..], fd, AfterRead(Image(es, z), f, c.n));
        assert ([c.n] + Sizes(calls[1..], fd))[1..] == Sizes(calls[1..], fd);
      } else {
        OtherCall(es, z, t, c, fd, f);
        ReadsAlone(es, z, t', calls[1..], fd, f);
        assert Received(es, z, t, calls, fd) == Received(es, z, t', calls[1..], fd);
        assert Sizes(calls, fd) == Sizes(calls[1..], fd);
      }
    }
  }

  lemma TableSize(b: seq<int>, t: Table)
    requires TableOk(b, t)
    ensures |t.fds| == DESCRIPTORS
  {
  }

  lemma {:induction false} SizesPositive(calls: seq<Call>, fd: int)
    requires forall i :: 0 <= i < |calls| && calls[i].ReadCall? && calls[i].fd == fd ==> calls[i].n > 0
    ensures forall i :: 0 <= i < |Sizes(calls, fd)| ==> Sizes(calls, fd)[i] > 0
    decreases |calls|
  {
    if calls != [] {
      SizesPositive(calls[1..], fd);
    }
  }

  lemma OpenedOn(t: Table, file: Found)
    requires |t.fds| == |t.used| == |t.open| == DESCRIPTORS && FreeFd(t.used, 3) < DESCRIPTORS
    ensures var fd := FreeFd(t.used, 3);
            Opened(t, Some(file)).0 == fd && OpenOn(Opened(t, Some(file)).1, fd, Fd(fd, file.start, file.start, file.size, false))
  {
    hide FreeFd;
  }

  /** Open a file and read it: if the descriptor is at most 10 and its record is not disturbed, the content has no
      NUL byte and something ends it, the reads return the content in order, as far as was asked for, in every
      interleaving with other calls. */
  lemma OpenThenRead(es: Entries, z: nat, t: Table, k: nat, calls: seq<Call>)
    requires TableOk(Image(es, z), t) && z > 0 && k < |es| && es[k].name != [] && FirstNamed(es, es[k].name, 0) == Some(k)
    requires NulFree(es[k].content) && (|es[k].content| % BLOCK != 0 || k + 1 == |es|)
    requires var fd := FreeFd(t.used, 3); fd <= SEARCHED && Undisturbed(calls, fd)
    requires var fd := FreeFd(t.used, 3);
             forall i :: 0 <= i < |calls| && calls[i].ReadCall? && calls[i].fd == fd ==> calls[i].n > 0
    ensures var (fd, t1) := Opened(t, Target(es, z, es[k].name));
            var total := Total(Sizes(calls, fd));
            && fd == FreeFd(t.used, 3) && |t1.fds| == DESCRIPTORS && total >= 0
            && Received(es, z, t1, calls, fd) == es[k].content[..Min(total, |es[k].content|)]
  {
    hide Image, Received, Sizes, Total, Chunks, Rest, FreeFd, Opened, TableOk, FdOk, Undisturbed;
    var b, content := Image(es, z), es[k].content;
    var fd := FreeFd(t.used, 3);
    var file := Found(Off(es, k) + BLOCK, |content|);
    var f := Fd(fd, file.start, file.start, file.size, false);
    TableLengths(b, t);
    OpenedOn(t, file);
    var t1 := Opened(t, Some(file)).1;
    CalledOk(es, z, t, OpenCall(es[k].name));
    TableLengths(b, t1);
    ReadsAlone(es, z, t1, calls, fd, f);
    SizesPositive(calls, fd);
    FreshFdOk(b, fd);
    ChunksConcatenate(b, f, Sizes(calls, fd));
    FileReadsAsContent(es, z, k);
  }

  lemma TableLengths(b: seq<int>, t: Table)
    requires TableOk(b, t)
    ensures |t.fds| == |t.used| == |t.open| == DESCRIPTORS
  {
  }

  // ---- Open and close ----

  /** What open returns: the lowest descriptor from 3 on that is not allocated, with a record of its own at the start
      of the file; -1, and nothing changed, exactly when there is no such file or no such descriptor. */
  lemma OpenReturns(es: Entries, z: nat, t: Table, name: seq<int>)
    requires TableOk(Image(es, z), t) && name != []
    ensures var (ret, t') := Opened(t, Target(es, z, name));
            && (ret == -1 <==> (forall k :: 0 <= k < |es| ==> es[k].name != name) || (forall fd :: 3 <= fd < 100 ==> t.used[fd]))
            && (ret == -1 ==> t' == t)
            && (ret != -1 ==>
                  && 3 <= ret < 100 && !t.used[ret] && (forall fd :: 3 <= fd < ret ==> t.used[fd])
                  && exists k :: 0 <= k < |es| && es[k].name == name && (forall j :: 0 <= j < k ==> es[j].name != name)
                                 && OpenOn(t', ret, Fd(ret, Off(es, k) + 512, Off(es, k) + 512, |es[k].content|, false)))
  {
    hide Image, FdOk, FreeFd, Off;
    var r := FirstNamed(es, name, 0);
    if r.Some? {
      assert es[r.value].name == name;
    }
  }

  /** The descriptors that a call leaves alone are as they were. */
  ghost predicate SameOn(t: Table, t': Table, fd: int) {
    0 <= fd < DESCRIPTORS && |t.fds| == |t.used| == |t.open| == DESCRIPTORS == |t'.fds| == |t'.used| == |t'.open|
    && t'.fds[fd] == t.fds[fd] && t'.used[fd] == t.used[fd] && t'.open[fd] == t.open[fd]
  }

  /** close frees its descriptor and touches no other. */
  lemma CloseFrees(es: Entries, z: nat, t: Table, fd: int)
    requires TableOk(Image(es, z), t) && 0 <= fd < 100
    ensures var t' := Called(es, z, t, CloseCall(fd)).1;
            && TableOk(Image(es, z), t') && !t'.used[fd] && !t'.open[fd] && t'.fds == t.fds
            && forall other :: 0 <= other < 100 && other != fd ==> SameOn(t, t', other)
  {
    hide Image, FdOk;
  }

  /** After a close the next open of a file that exists gives that descriptor, or a lower one. */
  lemma CloseThenOpen(es: Entries, z: nat, t: Table, fd: int, name: seq<int>)
    requires TableOk(Image(es, z), t) && 3 <= fd < 100 && name != [] && FirstNamed(es, name, 0).Some?
    ensures 3 <= Opened(Called(es, z, t, CloseCall(fd)).1, Target(es, z, name)).0 <= fd
  {
    hide Image, FdOk, FreeFd;
    CloseFrees(es, z, t, fd);
  }

  /** A read of a descriptor that is not open returns nothing and changes nothing. */
  lemma ClosedRead(es: Entries, z: nat, t: Table, fd: int, n: int)
    requires TableOk(Image(es, z), t) && 0 <= fd < 100 && !t.open[fd]
    ensures Called(es, z, t, ReadCall(fd, n)) == ([], t)
  {
    hide Image, FdOk;
  }

  /** No open of the run returns the descriptor. */
  ghost predicate NotReopened(es: Entries, z: nat, t: Table, calls: seq<Call>, fd: int)
    requires |t.fds| == DESCRIPTORS
    decreases |calls|
  {
    calls == [] ||
    (&& (calls[0].OpenCall? ==> Opened(t, Target(es, z, calls[0].name)).0 != fd)
     && var t' := Called(es, z, t, calls[0]).1;
        |t'.fds| == DESCRIPTORS && NotReopened(es, z, t', calls[1..], fd))
  }

  lemma StaysClosed(es: Entries, z: nat, t: Table, c: Call, fd: int)
    requires TableOk(Image(es, z), t) && 0 <= fd < 100 && !t.open[fd] && (c.OpenCall? ==> Opened(t, Target(es, z, c.name)).0 != fd)
    ensures var t' := Called(es, z, t, c).1; TableOk(Image(es, z), t') && !t'.open[fd]
  {
    hide Image, FdOk, FreeFd, RecordOf, Chunk, AfterRead, Target;
    CalledOk(es, z, t, c);
  }

  /** Until the descriptor is opened again its reads return nothing, whatever else is called. */
  lemma {:induction false} ClosedReads(es: Entries, z: nat, t: Table, calls: seq<Call>, fd: int)
    requires TableOk(Image(es, z), t) && 0 <= fd < 100 && !t.open[fd] && NotReopened(es, z, t, calls, fd)
    ensures Received(es, z, t, calls, fd) == []
    decreases |calls|
  {
    hide Image, Called, TableOk, Opened;
    TableLengths(Image(es, z), t);
    if calls != [] {
      var c := calls[0];
      StaysClosed(es, z, t, c, fd);
      TableLengths(Image(es, z), Called(es, z, t, c).1);
      ClosedReads(es, z, Called(es, z, t, c).1, calls[1..], fd);
      if c.ReadCall? && c.fd == fd {
        ClosedRead(es, z, t, fd, c.n);
      }
    }
  }

  /** A read that asks for nothing returns nothing and changes nothing. */
  lemma EmptyRead(b: seq<int>, f: Fd, n: int)
    requires n <= 0
    ensures Chunk(b, f, n) == [] && AfterRead(b, f, n) == f
  {
  }

  /** The end of the file is noted with the last byte read, and stays noted. */
  lemma EndNoted(b: seq<int>, f: Fd, n: int)
    requires FdOk(b, f)
    ensures AfterRead(b, f, n).eof <==> f.eof || (n > 0 && Rest(b, f.curPtr) != [] && n >= |Rest(b, f.curPtr)|)
    ensures AfterRead(b, f, n).curPtr == f.curPtr + |Chunk(b, f, n)|
  {
    hide CStr;
  }

  /** A read of an open descriptor touches one record, and of that only the place and the end. */
  lemma ReadTouches(es: Entries, z: nat, t: Table, fd: int, n: int)
    requires TableOk(Image(es, z), t) && 0 <= fd < 100 && t.open[fd]
    ensures var t' := Called(es, z, t, ReadCall(fd, n)).1;
            && t'.used == t.used && t'.open == t.open && |t'.fds| == 100
            && forall i :: 0 <= i < 100 ==>
                 var f, f' := t.fds[i], t'.fds[i];
                 && f'.fd == f.fd && f'.start == f.start && f'.fileSize == f.fileSize
                 && (i != RecordOf(t.fds, fd, 0) ==> f' == f)
  {
    hide Image, FdOk, RecordOf, Chunk, Rest;
  }

  /** And any other reader does disturb descriptor 10: it takes the bytes of record 10 and advances it. */
  lemma TenIsShared(es: Entries, z: nat, t: Table, c: Call)
    requires TableOk(Image(es, z), t) && c.ReadCall? && !Harmless(SEARCHED, c) && t.open[c.fd]
    ensures Called(es, z, t, c) ==
            (Chunk(Image(es, z), t.fds[10], c.n), t.(fds := t.fds[10 := AfterRead(Image(es, z), t.fds[10], c.n)]))
  {
    hide Image, FdOk, Rest, Chunk, AfterRead, RecordOf;
  }

  class FileTable {
    const archive: seq<int>
    const fds: array<Fd>                // fdArr
    const used: array<bool>             // fdAllocArray
    const open: array<bool>             // current_task->open_files

    ghost predicate Valid()
      reads this, fds, used, open
    {
      used != open && TableOk(archive, Tab())
    }

    constructor (archive: seq<int>)
      ensures Valid() && this.archive == archive && fresh(fds) && fresh(used) && fresh(open)
    {
      this.archive := archive;
      fds := new Fd[DESCRIPTORS](_ => Fd(0, 0, 0, 0, false));
      used := new bool[DESCRIPTORS](_ => false);
      open := new bool[DESCRIPTORS](i => i < 3);
    }

    ghost function Tab(): Table
      reads fds, used, open
    {
      Table(fds[..], used[..], open[..])
    }

    /** sys_open: the lowest free descriptor, on the first file with the name after the leading slash. */
    method Open(fname: seq<int>, ghost es: Entries, ghost z: nat) returns (ret: int)
      requires Valid() && archive == Image(es, z) && |fname| > 0
      modifies fds, used, open
      ensures Valid() && (ret, Tab()) == Opened(old(Tab()), Target(es, z, fname[1..]))
    {
      hide CStr, Bytes, Image;
      var r := Lookup(archive, fname[1..], es, z);
      ret := -1;
      if r.Some? {
        var i := 3;
        while i <= 99
          invariant 3 <= i <= 100 && FreeFd(used[..], 3) == FreeFd(used[..], i)
        {
          if !used[i] {
            used[i] := true;
            fds[i] := Fd(i, r.value.start, r.value.start, r.value.size, false);
            open[i] := true;
            assert fds[..] == old(fds[..])[i := Fd(i, r.value.start, r.value.start, r.value.size, false)];
            return i;
          }
          i := i + 1;
        }
      }
    }

    /** The search of sys_read for the record of the descriptor. */
    method FindRecord(fd: int) returns (i: nat)
      requires fds.Length == DESCRIPTORS
      ensures i == RecordOf(fds[..], fd, 0)
    {
      i := 0;
      while i < SEARCHED && fds[i].fd != fd
        invariant i <= SEARCHED && RecordOf(fds[..], fd, 0) == RecordOf(fds[..], fd, i)
      {
        i := i + 1;
      }
    }

    /** sys_read: at most n bytes, up to the next NUL byte. */
    method Read(fd: int, n: int) returns (chunk: seq<int>)
      requires Valid() && -1 <= fd < DESCRIPTORS
      modifies fds
      ensures Valid() && (chunk, Tab()) == ReadFrom(archive, old(Tab()), fd, n)
    {
      hide Rest, RecordOf, FdOk, Chunk, AfterRead;
      chunk := [];
      if fd == -1 || !open[fd] {
        return;
      }
      var i := FindRecord(fd);
      ghost var was := fds[..];
      assert FdOk(archive, was[i]);
      if i < SEARCHED && fds[i].eof {
        AtEnd(archive, was[i], n);
        assert was[i := was[i]] == was;
        return;
      }
      AfterReadOk(archive, was[i], n);
      AfterReadKeeps(archive, was[i], n);
      chunk := CopyOut(i, n);
    }

    /** The copying loop of sys_read, on record i. */
    method CopyOut(i: nat, n: int) returns (chunk: seq<int>)
      requires i < fds.Length && FdOk(archive, fds[i])
      modifies fds
      ensures chunk == Chunk(archive, old(fds[i]), n) && fds[..] == old(fds[..])[i := AfterRead(archive, old(fds[i]), n)]
    {
      hide CStr, Rest, Chunk, FdOk;
      ghost var f, was := fds[i], fds[..];
      ghost var rest := Rest(archive, f.curPtr);
      ghost var now := f;
      chunk := [];
      assert was[i := now] == was && rest[..0] == [];
      while |chunk| < n && fds[i].curPtr < |archive| && archive[fds[i].curPtr] != 0
        invariant |chunk| <= |rest| && (n >= 0 ==> |chunk| <= n) && (n <= 0 ==> chunk == []) && chunk == rest[..|chunk|]
        invariant now == if chunk == [] then f else f.(curPtr := f.curPtr + |chunk|, eof := |chunk| == |rest|)
        invariant fds[..] == was[i := now]
        decreases |rest| - |chunk|
      {
        assert fds[i] == fds[..][i] == now;
        ghost var c := |chunk|;
        NextByte(archive, f.curPtr, c);
        var p := fds[i].curPtr;
        StillOpen(archive, f, c);
        chunk := chunk + [archive[p]];
        assert chunk == rest[..c + 1];
        fds[i] := fds[i].(curPtr := p + 1);
        if p + 1 >= |archive| || archive[p + 1] == 0 {
          fds[i] := fds[i].(eof := true);
        }
        now := f.(curPtr := p + 1, eof := c + 1 == |rest|);
        assert fds[i] == now;
        assert fds[..] == was[i := now];
      }
      assert fds[i] == fds[..][i] == now;
      ReadStops(archive, f, chunk, n);
    }

    /** sys_close */
    method Close(fd: nat) returns (ret: int)
      requires Valid() && fd < DESCRIPTORS
      modifies used, open
      ensures Valid() && ret == 1 && Tab() == Closed(old(Tab()), fd)
    {
      open[fd] := false;
      used[fd] := false;
      ret := 1;
    }
  }

  /** One more byte of the string, and whether it is the last. */
  lemma NextByte(b: seq<int>, p: nat, c: nat)
    requires c <= |Rest(b, p)| && p + c < |b| && b[p + c] != 0
    ensures c < |Rest(b, p)| && b[p + c] == Rest(b, p)[c]
    ensures c + 1 == |Rest(b, p)| <==> p + c + 1 >= |b| || b[p + c + 1] == 0
  {
    RestAfter(b, p, c);
    assert Rest(b, p + c) != [];
    RestAfter(b, p, c + 1);
  }

  lemma StillOpen(b: seq<int>, f: Fd, c: nat)
    requires FdOk(b, f) && c < |Rest(b, f.curPtr)|
    ensures !f.eof
  {
  }

  lemma ReadStops(b: seq<int>, f: Fd, chunk: seq<int>, n: int)
    requires |chunk| <= |Rest(b, f.curPtr)| && (n >= 0 ==> |chunk| <= n) && chunk == Rest(b, f.curPtr)[..|chunk|] && FdOk(b, f)
    requires n <= |chunk| || f.curPtr + |chunk| >= |b| || b[f.curPtr + |chunk|] == 0
    requires n <= 0 ==> chunk == []
    ensures chunk == Chunk(b, f, n)
  {
    RestAfter(b, f.curPtr, |chunk|);
  }
}
