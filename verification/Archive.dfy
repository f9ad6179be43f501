/**
 The in-memory ustar archive (the ustar Interchange Format of IEEE Std 1003.1-2008): a
 serialiser for lists of entries, and the scan with which the kernel finds files
 (get_elf_file in sys/read_tarfs.c, sys_open in sys/syscall.c).
 */
module Archive {
  import opened Options
  import opened Octal

  const BLOCK: nat := 512
  const SIZE_FIELD: nat := 124
  const INT_LIMIT: nat := 0x8000_0000

  /** An entry; mid holds the mode, uid and gid fields and tail everything after the size field. */
  datatype Entry = Entry(name: seq<int>, mid: seq<int>, digits: seq<int>, tail: seq<int>, content: seq<int>)

  predicate NulFree(s: seq<int>) {
    forall i :: 0 <= i < |s| ==> s[i] != 0
  }

  /** The name is terminated, and the digits of the size are its octal form and fit in an int read in base ten. */
  predicate EntryOk(e: Entry) {
    && 0 < |e.name| < 100 && NulFree(e.name) && |e.mid| == 24 && |e.tail| == 376
    && |e.digits| < 12 && IsOctal(e.digits) && OctVal(e.digits) == |e.content| && DecVal(e.digits) < INT_LIMIT
  }

  type Entries = es: seq<Entry> | forall i :: 0 <= i < |es| ==> EntryOk(es[i]) witness []

  function Zeros(n: nat): (z: seq<int>)
    ensures |z| == n && forall i :: 0 <= i < n ==> z[i] == 0
  {
    seq(n, _ => 0)
  }

  function Ascii(ds: seq<int>): (s: seq<int>)
    ensures |s| == |ds| && forall i :: 0 <= i < |s| ==> s[i] == 48 + ds[i]
  {
    seq(|ds|, i requires 0 <= i < |ds| => 48 + ds[i])
  }

  /** Bytes from the end of n bytes of data to the next block. */
  function Pad(n: nat): nat {
    if n % BLOCK != 0 then BLOCK - n % BLOCK else 0
  }

  function Header(e: Entry): seq<int>
    requires EntryOk(e)
  {
    e.name + Zeros(100 - |e.name|) + e.mid + Ascii(e.digits) + Zeros(12 - |e.digits|) + e.tail
  }

  function Block(e: Entry): seq<int>
    requires EntryOk(e)
  {
    Header(e) + e.content + Zeros(Pad(|e.content|))
  }

  function Bytes(es: Entries): seq<int> {
    if es == [] then [] else Bytes(es[..|es| - 1]) + Block(es[|es| - 1])
  }

  /** The archive: the entries and `z` empty blocks. */
  function Image(es: Entries, z: nat): seq<int> {
    Bytes(es) + Zeros(BLOCK * z)
  }

  /** The offset of the k-th header. */
  function Off(es: Entries, k: nat): nat
    requires k <= |es|
  {
    |Bytes(es[..k])|
  }

  // ---- Reading ----

  /** The C string at p. */
  function CStr(b: seq<int>, p: nat): seq<int>
    decreases |b| - p
  {
    if p >= |b| || b[p] == 0 then [] else [b[p]] + CStr(b, p + 1)
  }

  /** The digits at p, read in base ten up to the terminator. */
  function ReadDec(b: seq<int>, p: nat, acc: int): int
    decreases |b| - p
  {
    if p >= |b| || b[p] == 0 then acc else ReadDec(b, p + 1, acc * 10 + (b[p] - 48))
  }

  /** The size in the header at p, as the kernel computes it. */
  function SizeAt(b: seq<int>, p: nat): nat {
    var n := ReadDec(b, p + SIZE_FIELD, 0);
    if n < 0 then 0 else OctOf(n)
  }

  /** The header after the one at p. */
  function Next(b: seq<int>, p: nat): nat {
    p + BLOCK + SizeAt(b, p) + Pad(SizeAt(b, p))
  }

  lemma {:induction false} CStrIs(b: seq<int>, p: nat, s: seq<int>)
    requires NulFree(s) && p + |s| < |b| && b[p + |s|] == 0 && forall i :: 0 <= i < |s| ==> b[p + i] == s[i]
    ensures CStr(b, p) == s
    decreases |s|
  {
    if s != [] {
      assert b[p + 0] == s[0];
      forall i | 0 <= i < |s[1..]| ensures b[p + 1 + i] == s[1..][i] {
        assert b[p + (i + 1)] == s[i + 1];
      }
      CStrIs(b, p + 1, s[1..]);
    }
  }

  lemma {:induction false} ReadDecIs(b: seq<int>, p: nat, ds: seq<int>, i: nat)
    requires IsOctal(ds) && i <= |ds| && p + |ds| < |b| && b[p + |ds|] == 0
    requires forall j :: 0 <= j < |ds| ==> b[p + j] == 48 + ds[j]
    ensures ReadDec(b, p + i, DecVal(ds[..i])) == DecVal(ds)
    decreases |ds| - i
  {
    if i == |ds| {
      assert ds[..i] == ds;
    } else {
      assert ds[..i + 1][..i] == ds[..i];
      assert b[p + i] == 48 + ds[i];
      ReadDecIs(b, p, ds, i + 1);
    }
  }

  // ---- The layout ----

  lemma OffNext(es: Entries, k: nat)
    requires k < |es|
    ensures Off(es, k + 1) == Off(es, k) + |Block(es[k])|
  {
    hide Block, EntryOk;
    assert es[..k + 1][..k] == es[..k];
  }

  lemma {:induction false} BytesLonger(es: Entries, k: nat)
    requires k <= |es|
    ensures Off(es, k) <= |Bytes(es)|
    ensures k < |es| ==> Off(es, k + 1) == Off(es, k) + |Block(es[k])| <= |Bytes(es)|
    decreases |es| - k
  {
    hide Block, EntryOk, Off;
    if k < |es| {
      OffNext(es, k);
      BytesLonger(es, k + 1);
    } else {
      NoBytes(es);
    }
  }

  lemma {:induction false} BytesAt(es: Entries, k: nat, i: nat)
    requires k < |es| && i < |Block(es[k])|
    ensures Off(es, k) + i < |Bytes(es)| && Bytes(es)[Off(es, k) + i] == Block(es[k])[i]
    decreases |es|
  {
    hide Block;
    var n := |es| - 1;
    BytesLonger(es, k);
    if k < n {
      assert es[..n][..k] == es[..k];
      BytesAt(es[..n], k, i);
    }
  }

  /** The fields of a block. */
  lemma BlockFields(e: Entry, i: nat)
    requires EntryOk(e)
    ensures |Block(e)| == BLOCK + |e.content| + Pad(|e.content|)
    ensures i < |e.name| ==> Block(e)[i] == e.name[i]
    ensures Block(e)[|e.name|] == 0
    ensures i < |e.digits| ==> Block(e)[SIZE_FIELD + i] == 48 + e.digits[i]
    ensures Block(e)[SIZE_FIELD + |e.digits|] == 0
    ensures i < |e.content| ==> Block(e)[BLOCK + i] == e.content[i]
    ensures i < Pad(|e.content|) ==> Block(e)[BLOCK + |e.content| + i] == 0
  {
  }

  /** What the scan reads at the k-th header. */
  lemma HeaderAt(es: Entries, z: nat, k: nat)
    requires k < |es|
    ensures var b, p := Image(es, z), Off(es, k);
            && CStr(b, p) == es[k].name && SizeAt(b, p) == |es[k].content| < 0x8000_0000 && Next(b, p) == Off(es, k + 1)
            && p + BLOCK + |es[k].content| <= |b| && b[p + BLOCK..p + BLOCK + |es[k].content|] == es[k].content
  {
    hide Block, Bytes, CStr, ReadDec, DecVal, OctVal, OctOf;
    var b, p, e := Image(es, z), Off(es, k), es[k];
    assert EntryOk(e);
    BytesLonger(es, k);
    forall i: nat ensures i < |Block(e)| ==> p + i < |b| && b[p + i] == Block(e)[i] {
      if i < |Block(e)| {
        BytesAt(es, k, i);
      }
    }
    BlockFields(e, 0);
    forall i | 0 <= i < |e.name| ensures b[p + i] == e.name[i] {
      BlockFields(e, i);
    }
    CStrIs(b, p, e.name);
    forall i | 0 <= i < |e.digits| ensures b[p + SIZE_FIELD + i] == 48 + e.digits[i] {
      BlockFields(e, i);
      assert b[p + (SIZE_FIELD + i)] == Block(e)[SIZE_FIELD + i];
    }
    assert b[p + (SIZE_FIELD + |e.digits|)] == 0;
    SizeIs(b, p, e.digits);
    OctAtMostDec(e.digits);
    forall i | 0 <= i < |e.content| ensures b[p + BLOCK + i] == e.content[i] {
      BlockFields(e, i);
      assert b[p + (BLOCK + i)] == Block(e)[BLOCK + i];
    }
  }

  lemma SizeIs(b: seq<int>, p: nat, ds: seq<int>)
    requires IsOctal(ds) && p + SIZE_FIELD + |ds| < |b| && b[p + SIZE_FIELD + |ds|] == 0
    requires forall j :: 0 <= j < |ds| ==> b[p + SIZE_FIELD + j] == 48 + ds[j]
    ensures SizeAt(b, p) == OctVal(ds)
  {
    hide ReadDec, OctOf, OctVal;
    assert ds[..0] == [];
    assert DecVal(ds[..0]) == 0;
    ReadDecIs(b, p + SIZE_FIELD, ds, 0);
    OctOfDecVal(ds);
  }

  /** What the scan reads in the m-th empty block at the end. */
  lemma EmptyAt(es: Entries, z: nat, m: nat)
    requires m < z
    ensures var b, p := Image(es, z), |Bytes(es)| + BLOCK * m;
            p < |b| && CStr(b, p) == [] && SizeAt(b, p) == 0 && Next(b, p) == p + BLOCK
  {
    hide Bytes;
    var b, p := Image(es, z), |Bytes(es)| + BLOCK * m;
    assert b[p] == 0 && b[p + SIZE_FIELD] == 0;
  }

  /** The k-th header the scan comes to. */
  function Visit(b: seq<int>, k: nat): nat {
    if k == 0 then 0 else Next(b, Visit(b, k - 1))
  }

  /** Archive round trip: the scan visits exactly the header offsets, in order, each at least a block further. */
  lemma {:induction false} ScanVisits(es: Entries, z: nat, k: nat)
    requires k <= |es|
    ensures Visit(Image(es, z), k) == Off(es, k)
    ensures k > 0 ==> Off(es, k) >= Off(es, k - 1) + BLOCK
    decreases k
  {
    hide Bytes, Image, CStr, SizeAt;
    if k == 0 {
      NoBytes(es);
    } else {
      ScanVisits(es, z, k - 1);
      HeaderAt(es, z, k - 1);
    }
  }

  lemma NoBytes(es: Entries)
    ensures Off(es, 0) == 0 && Off(es, |es|) == |Bytes(es)|
  {
    assert es[..0] == [];
    assert es[..|es|] == es;
  }

  /** The format: headers lie on multiples of 512; the name starts a header and its size field is at byte 124, both
      ended by a NUL; the data follow the header, and the next header comes after as many blocks as the data need. */
  lemma Layout(es: Entries, z: nat, k: nat)
    requires k < |es|
    ensures var b, p := Image(es, z), Off(es, k);
            && |b| == Off(es, |es|) + 512 * z && p % 512 == 0
            && Off(es, k + 1) == p + 512 + (|es[k].content| + 511) / 512 * 512 <= |b|
            && |es[k].name| < 100 && |es[k].digits| < 12
            && (forall i :: 0 <= i < |es[k].name| ==> b[p + i] == es[k].name[i]) && b[p + |es[k].name|] == 0
            && (forall i :: 0 <= i < |es[k].digits| ==> b[p + 124 + i] == 48 + es[k].digits[i]) && b[p + 124 + |es[k].digits|] == 0
            && (forall i :: 0 <= i < |es[k].content| ==> b[p + 512 + i] == es[k].content[i])
  {
    hide Block, Bytes, DecVal, OctVal;
    var b, p, e := Image(es, z), Off(es, k), es[k];
    assert EntryOk(e);
    NoBytes(es);
    BytesLonger(es, k);
    OffAligned(es, k);
    BlockFields(e, 0);
    forall i: nat | i < |Block(e)| ensures p + i < |b| && b[p + i] == Block(e)[i] {
      BytesAt(es, k, i);
    }
    forall i | 0 <= i < |e.name| ensures b[p + i] == e.name[i] {
      BlockFields(e, i);
    }
    forall i | 0 <= i < |e.digits| ensures b[p + 124 + i] == 48 + e.digits[i] {
      BlockFields(e, i);
      assert b[p + (124 + i)] == Block(e)[124 + i];
    }
    assert b[p + (124 + |e.digits|)] == Block(e)[124 + |e.digits|];
    forall i | 0 <= i < |e.content| ensures b[p + 512 + i] == e.content[i] {
      BlockFields(e, i);
      assert b[p + (512 + i)] == Block(e)[512 + i];
    }
  }

  lemma {:induction false} OffAligned(es: Entries, k: nat)
    requires k <= |es|
    ensures Off(es, k) % 512 == 0
    decreases k
  {
    hide Block, Bytes;
    NoBytes(es);
    if k > 0 {
      OffAligned(es, k - 1);
      BytesLonger(es, k - 1);
      assert EntryOk(es[k - 1]);
      BlockFields(es[k - 1], 0);
    }
  }

  /** The first entry from k on with the name. */
  function FirstNamed(es: Entries, name: seq<int>, k: nat): (r: Option<nat>)
    ensures r.Some? ==> k <= r.value < |es| && es[r.value].name == name && forall j :: k <= j < r.value ==> es[j].name != name
    ensures r.None? ==> forall j :: k <= j < |es| ==> es[j].name != name
    decreases |es| - k
  {
    if k >= |es| then None else if es[k].name == name then Some(k) else FirstNamed(es, name, k + 1)
  }

  // ---- The code ----

  /** strcmp: zero exactly for equal strings. */
  method Strcmp(s: seq<int>, t: seq<int>) returns (r: int)
    ensures r == 0 <==> s == t
  {
    if |s| != |t| {
      return |s| - |t|;
    }
    var i := 0;
    while i < |s|
      invariant i <= |s| && s[..i] == t[..i]
    {
      if s[i] != t[i] {
        return s[i] - t[i];
      }
      i := i + 1;
    }
    return 0;
  }

  /** The size loop, and the conversion. */
  method ReadSize(b: seq<int>, p: nat) returns (size: nat)
    requires ReadDec(b, p + SIZE_FIELD, 0) >= 0
    ensures size == SizeAt(b, p)
  {
    var n, i := 0, p + SIZE_FIELD;
    while i < |b| && b[i] != 0
      invariant ReadDec(b, i, n) == ReadDec(b, p + SIZE_FIELD, 0)
      decreases |b| - i
    {
      n := n * 10 + (b[i] - 48);
      i := i + 1;
    }
    size := OctalDecimal(n);
  }

  /** Where a file's data is. */
  datatype Found = Found(start: nat, size: nat)

  /** Where the data of the first entry with the name is. */
  function Target(es: Entries, z: nat, name: seq<int>): Option<Found> {
    match FirstNamed(es, name, 0)
    case Some(k) => Some(Found(Off(es, k) + BLOCK, |es[k].content|))
    case None => if name == [] && z > 0 then Some(Found(|Bytes(es)| + BLOCK, 0)) else None
  }

  /** The lookup of sys_open and get_elf_file: the first entry with the name, its data and its true size; the
      empty name finds the first empty block. */
  method Lookup(b: seq<int>, name: seq<int>, ghost es: Entries, ghost z: nat) returns (r: Option<Found>)
    requires b == Image(es, z)
    ensures r == Target(es, z, name)
    ensures r.Some? && name != [] ==>
              r.value.start + r.value.size <= |b| && b[r.value.start..r.value.start + r.value.size] == es[FirstNamed(es, name, 0).value].content
  {
    hide Bytes, Image, CStr, SizeAt, ReadDec;
    var start := 0;
    ghost var k := 0;
    NoBytes(es);
    assert InTail(es, z, |Bytes(es)| + BLOCK * 0);
    while start < |b|
      invariant FirstNamed(es, name, 0) == FirstNamed(es, name, k)
      invariant k <= |es| && if k < |es| then start == Off(es, k) else InTail(es, z, start)
      invariant k == |es| && name == [] ==> start == |Bytes(es)|
      decreases |b| - start
    {
      Standing(es, z, k, start);
      var c := Strcmp(CStr(b, start), name);
      var size := ReadSize(b, start);
      if c == 0 {
        return Some(Found(start + BLOCK, size));
      }
      var offset := 0;
      if size % BLOCK != 0 {
        offset := BLOCK - size % BLOCK;
      }
      start := start + BLOCK + size + offset;
      if k < |es| {
        k := k + 1;
      }
    }
    LookupEnds(es, z, k, start);
    return None;
  }

  /** The scan stands past the entries, on a block boundary of the tail. */
  ghost predicate InTail(es: Entries, z: nat, p: nat) {
    exists m: nat :: m <= z && p == |Bytes(es)| + BLOCK * m
  }

  /** What the scan finds where it stands. */
  lemma Standing(es: Entries, z: nat, k: nat, p: nat)
    requires k <= |es| && p < |Image(es, z)| && if k < |es| then p == Off(es, k) else InTail(es, z, p)
    ensures var b := Image(es, z);
            && ReadDec(b, p + SIZE_FIELD, 0) >= 0
            && Next(b, p) == p + BLOCK + SizeAt(b, p) + Pad(SizeAt(b, p))
            && (if k < |es| then
                  && CStr(b, p) == es[k].name && SizeAt(b, p) == |es[k].content|
                  && p + BLOCK + |es[k].content| <= |b| && b[p + BLOCK..p + BLOCK + |es[k].content|] == es[k].content
                  && (if k + 1 < |es| then Next(b, p) == Off(es, k + 1) else InTail(es, z, Next(b, p)))
                else CStr(b, p) == [] && SizeAt(b, p) == 0 && z > 0 && InTail(es, z, Next(b, p)))
            && (k + 1 == |es| ==> Next(b, p) == |Bytes(es)|)
  {
    hide Bytes, CStr, SizeAt, ReadDec;
    NoBytes(es);
    if k < |es| {
      HeaderAt(es, z, k);
      DigitsAt(es, z, k);
      assert k + 1 == |es| ==> Next(Image(es, z), p) == |Bytes(es)| + BLOCK * 0;
    } else {
      var m: nat :| m <= z && p == |Bytes(es)| + BLOCK * m;
      assert m < z;
      EmptyAt(es, z, m);
      EmptyDigits(es, z, m);
      assert Next(Image(es, z), p) == |Bytes(es)| + BLOCK * (m + 1);
    }
  }

  lemma EmptyDigits(es: Entries, z: nat, m: nat)
    requires m < z
    ensures ReadDec(Image(es, z), |Bytes(es)| + BLOCK * m + SIZE_FIELD, 0) == 0
  {
    hide Bytes;
    assert Image(es, z)[|Bytes(es)| + BLOCK * m + SIZE_FIELD] == 0;
  }

  /** The digits at the k-th header, read in base ten, fit in an int. */
  lemma DigitsAt(es: Entries, z: nat, k: nat)
    requires k < |es|
    ensures 0 <= ReadDec(Image(es, z), Off(es, k) + SIZE_FIELD, 0) < INT_LIMIT
  {
    hide Block, Bytes, ReadDec;
    var b, p, e := Image(es, z), Off(es, k), es[k];
    assert EntryOk(e);
    forall i: nat ensures i < |Block(e)| ==> p + i < |b| && b[p + i] == Block(e)[i] {
      if i < |Block(e)| {
        BytesAt(es, k, i);
      }
    }
    BlockFields(e, 0);
    forall i | 0 <= i < |e.digits| ensures b[p + SIZE_FIELD + i] == 48 + e.digits[i] {
      BlockFields(e, i);
      assert b[p + (SIZE_FIELD + i)] == Block(e)[SIZE_FIELD + i];
    }
    assert b[p + (SIZE_FIELD + |e.digits|)] == 0;
    assert e.digits[..0] == [];
    assert DecVal(e.digits[..0]) == 0;
    ReadDecIs(b, p + SIZE_FIELD, e.digits, 0);
  }

  lemma LookupEnds(es: Entries, z: nat, k: nat, p: nat)
    requires k <= |es| && p >= |Image(es, z)| && if k < |es| then p == Off(es, k) else InTail(es, z, p)
    ensures k == |es| && (p == |Bytes(es)| ==> z == 0)
  {
    hide Bytes;
    if k < |es| {
      HeaderAt(es, z, k);
    }
  }
}
