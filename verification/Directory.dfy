/**
 Directory listing (sys_opendir and sys_readdir in sys/syscall.c, getFileName, fetchName and
 getRootSubdirectories in sys/files.c, contains in sys/string.c).
 */
module Directory {
  import opened Options
  import opened Archive
  import opened Files

  const SLASH: int := 47
  const DOT: seq<int> := [46]

  predicate HasPrefix(s: seq<int>, d: seq<int>) {
    |d| <= |s| && s[..|d|] == d
  }

  /** The first path component. */
  function Component(s: seq<int>): seq<int> {
    if s == [] || s[0] == SLASH then [] else [s[0]] + Component(s[1..])
  }

  /** Entry k lies below directory d. */
  predicate Under(es: Entries, d: seq<int>, k: nat) {
    k < |es| && HasPrefix(es[k].name, d)
  }

  /** The immediate child of d that entry k is, or lies below. */
  function ChildName(es: Entries, d: seq<int>, k: nat): seq<int>
    requires Under(es, d, k)
  {
    Component(es[k].name[|d|..])
  }

  /** getFileName on entries: the next name that differs from prev, and the entry after it. */
  function NextName(es: Entries, d: seq<int>, k: nat, prev: seq<int>): Option<(seq<int>, nat)>
    decreases |es| - k
  {
    if !Under(es, d, k) then None
    else if ChildName(es, d, k) != prev then Some((ChildName(es, d, k), k + 1))
    else NextName(es, d, k + 1, prev)
  }

  lemma {:induction false} NextNameMoves(es: Entries, d: seq<int>, k: nat, prev: seq<int>)
    ensures var r := NextName(es, d, k, prev); r.Some? ==> k < r.value.1 <= |es|
    decreases |es| - k
  {
    if Under(es, d, k) && ChildName(es, d, k) == prev {
      NextNameMoves(es, d, k + 1, prev);
    }
  }

  /** All names that repeated calls return, from entry k on, after prev. */
  function Listing(es: Entries, d: seq<int>, k: nat, prev: seq<int>): seq<seq<int>>
    decreases |es| - k
  {
    NextNameMoves(es, d, k, prev);
    match NextName(es, d, k, prev)
    case None => []
    case Some((name, k')) => [name] + Listing(es, d, k', name)
  }

  // ---- The listing is the children ----

  /** The run of entries from k up to n lies below d, and entry n does not. */
  ghost predicate Range(es: Entries, d: seq<int>, k: nat, n: nat) {
    k <= n <= |es| && (forall i :: k <= i < n ==> Under(es, d, i)) && !Under(es, d, n)
  }

  /** The entries of each child are together, as in a preorder archive. */
  ghost predicate Grouped(es: Entries, d: seq<int>, k: nat, n: nat)
    requires Range(es, d, k, n)
  {
    forall i, j, l :: k <= i < j < l < n && ChildName(es, d, i) == ChildName(es, d, l) ==> ChildName(es, d, j) == ChildName(es, d, i)
  }

  /** One call: it skips the entries of prev and stops at the first of another child. */
  lemma {:induction false} NextNameSpec(es: Entries, d: seq<int>, k: nat, n: nat, prev: seq<int>)
    requires Range(es, d, k, n)
    ensures match NextName(es, d, k, prev)
            case None => forall i :: k <= i < n ==> ChildName(es, d, i) == prev
            case Some((name, k')) =>
              && k < k' <= n && Under(es, d, k' - 1) && name == ChildName(es, d, k' - 1) && name != prev
              && forall i :: k <= i < k' - 1 ==> ChildName(es, d, i) == prev
    decreases n - k
  {
    if k < n && ChildName(es, d, k) == prev {
      NextNameSpec(es, d, k + 1, n, prev);
    }
  }

  /** Some entry from k up to n belongs to child c. */
  ghost predicate HasEntry(es: Entries, d: seq<int>, k: nat, n: nat, c: seq<int>)
    requires Range(es, d, k, n)
  {
    exists i :: k <= i < n && ChildName(es, d, i) == c
  }

  /** Every child from entry k on is listed, except that prev is not listed again at the start; and only
      children are listed. */
  lemma {:induction false} ListingComplete(es: Entries, d: seq<int>, k: nat, n: nat, prev: seq<int>, c: seq<int>)
    requires Range(es, d, k, n)
    ensures c in Listing(es, d, k, prev) ==> HasEntry(es, d, k, n, c)
    ensures HasEntry(es, d, k, n, c) ==> c == prev || c in Listing(es, d, k, prev)
    decreases n - k
  {
    hide ChildName, NextName;
    NextNameSpec(es, d, k, n, prev);
    var r := NextName(es, d, k, prev);
    if r.Some? {
      var (name, k') := r.value;
      ListingComplete(es, d, k', n, name, c);
      EntryBetween(es, d, k, k', n, prev, name, c);
    }
  }

  /** The entries of c are those after k', or c is the name at k' - 1, or the one skipped before it. */
  lemma EntryBetween(es: Entries, d: seq<int>, k: nat, k': nat, n: nat, prev: seq<int>, name: seq<int>, c: seq<int>)
    requires Range(es, d, k, n) && k < k' <= n && name == ChildName(es, d, k' - 1)
    requires forall i :: k <= i < k' - 1 ==> ChildName(es, d, i) == prev
    ensures HasEntry(es, d, k', n, c) || c == name ==> HasEntry(es, d, k, n, c)
    ensures HasEntry(es, d, k, n, c) ==> HasEntry(es, d, k', n, c) || c == name || c == prev
  {
    hide ChildName;
  }

  /** A name just listed is not listed again. */
  lemma NotAgain(es: Entries, d: seq<int>, k: nat, n: nat, name: seq<int>, k': nat)
    requires Range(es, d, k, n) && Grouped(es, d, k, n) && k < k' <= n && ChildName(es, d, k' - 1) == name
    ensures name !in Listing(es, d, k', name)
  {
    var r := NextName(es, d, k', name);
    NextNameSpec(es, d, k', n, name);
    if r.Some? {
      var (other, m) := r.value;
      ListingComplete(es, d, m, n, other, name);
    }
  }

  predicate Distinct(names: seq<seq<int>>) {
    forall i, j :: 0 <= i < j < |names| ==> names[i] != names[j]
  }

  lemma {:induction false} ListingDistinct(es: Entries, d: seq<int>, k: nat, n: nat, prev: seq<int>)
    requires Range(es, d, k, n) && Grouped(es, d, k, n)
    ensures Distinct(Listing(es, d, k, prev))
    decreases n - k
  {
    NextNameSpec(es, d, k, n, prev);
    var r := NextName(es, d, k, prev);
    if r.Some? {
      var (name, k') := r.value;
      ListingDistinct(es, d, k', n, name);
      NotAgain(es, d, k, n, name, k');
    }
  }

  /** An entry before k, from k0 on, belongs to the same child as entry k. */
  predicate Seen(es: Entries, d: seq<int>, k0: nat, k: nat)
    requires k < |es| && forall i :: k0 <= i <= k ==> Under(es, d, i)
  {
    k0 <= k && exists i :: k0 <= i < k && ChildName(es, d, i) == ChildName(es, d, k)
  }

  /** The children of d in archive order: the name of each entry whose child was not seen before. */
  function Children(es: Entries, d: seq<int>, k0: nat, k: nat, n: nat): seq<seq<int>>
    requires k0 <= k && Range(es, d, k0, n)
    decreases n - k
  {
    if k >= n then []
    else if Seen(es, d, k0, k) then Children(es, d, k0, k + 1, n)
    else [ChildName(es, d, k)] + Children(es, d, k0, k + 1, n)
  }

  /** The name the code remembers when it stands at entry k; `first` before the first entry. */
  function Before(es: Entries, d: seq<int>, k0: nat, k: nat, first: seq<int>): seq<int>
    requires k0 <= k && forall i :: k0 <= i < k ==> Under(es, d, i)
  {
    if k == k0 then first else ChildName(es, d, k - 1)
  }

  lemma ListingStep(es: Entries, d: seq<int>, k: nat, prev: seq<int>)
    requires Under(es, d, k)
    ensures Listing(es, d, k, prev) ==
            if ChildName(es, d, k) == prev then Listing(es, d, k + 1, prev) else [ChildName(es, d, k)] + Listing(es, d, k + 1, ChildName(es, d, k))
  {
  }

  /** Comparing with the previous name only is enough in a preorder archive, and gives archive order. */
  lemma {:induction false} ListingInOrder(es: Entries, d: seq<int>, k0: nat, k: nat, n: nat, first: seq<int>)
    requires k0 <= k <= n && Range(es, d, k0, n) && Grouped(es, d, k0, n)
    requires forall i :: k0 <= i < n ==> ChildName(es, d, i) != first
    ensures Listing(es, d, k, Before(es, d, k0, k, first)) == Children(es, d, k0, k, n)
    decreases n - k
  {
    hide Listing, ChildName;
    if k < n {
      ListingInOrder(es, d, k0, k + 1, n, first);
      ListingStep(es, d, k, Before(es, d, k0, k, first));
      assert Seen(es, d, k0, k) <==> ChildName(es, d, k) == Before(es, d, k0, k, first);
    } else {
      ListingEnds(es, d, k, Before(es, d, k0, k, first));
    }
  }

  lemma ListingEnds(es: Entries, d: seq<int>, k: nat, prev: seq<int>)
    requires !Under(es, d, k)
    ensures Listing(es, d, k, prev) == []
  {
  }

  /** The names listed after `first`, which is "." below the root and nothing at the root, are those of the run of
      entries, each exactly once, in archive order. */
  lemma ListingIsChildren(es: Entries, d: seq<int>, k: nat, n: nat, first: seq<int>)
    requires Range(es, d, k, n) && Grouped(es, d, k, n)
    requires forall i :: k <= i < n ==> ChildName(es, d, i) != first
    ensures Listing(es, d, k, first) == Children(es, d, k, k, n) && Distinct(Listing(es, d, k, first))
    ensures forall c :: c in Listing(es, d, k, first) <==> HasEntry(es, d, k, n, c)
  {
    hide Listing, Children;
    ListingInOrder(es, d, k, k, n, first);
    ListingDistinct(es, d, k, n, first);
    forall c ensures c in Listing(es, d, k, first) <==> HasEntry(es, d, k, n, c) {
      ListingComplete(es, d, k, n, first, c);
    }
  }

  // ---- The code ----

  /** contains: whether t is a prefix of s. */
  method Contains(s: seq<int>, t: seq<int>) returns (r: bool)
    ensures r == HasPrefix(s, t)
  {
    var i := 0;
    while i < |s| && i < |t|
      invariant i <= |s| && i <= |t| && s[..i] == t[..i]
    {
      if s[i] != t[i] {
        return false;
      }
      i := i + 1;
    }
    return i == |t|;
  }

  /** fetchName: the component after the first `skip` bytes. */
  method FetchName(s: seq<int>, skip: nat) returns (buff: seq<int>)
    requires skip <= |s|
    ensures buff == Component(s[skip..])
  {
    buff := [];
    var i := skip;
    while i < |s| && s[i] != SLASH
      invariant skip <= i <= |s| && Component(s[skip..]) == buff + Component(s[i..])
    {
      assert s[i..][1..] == s[i + 1..];
      buff := buff + [s[i]];
      i := i + 1;
    }
    assert Component(s[i..]) == [];
  }

  /** What readdir returns and leaves, on entries. */
  datatype Cursor = Cursor(k: nat, prev: seq<int>, eof: bool)

  /** One readdir: ".", then the names, then the empty name for ever. */
  function Readdir(es: Entries, d: seq<int>, c: Cursor): (seq<int>, Cursor) {
    if c.eof then ([], c)
    else if c.prev == [] then (DOT, c.(prev := DOT))
    else
      match NextName(es, d, c.k, c.prev)
      case Some((name, k')) => (name, c.(k := k', prev := name))
      case None => ([], c.(eof := true))
  }

  /** The names of n successive calls. */
  function Names(es: Entries, d: seq<int>, c: Cursor, n: nat): seq<seq<int>>
    decreases n
  {
    if n == 0 then [] else [Readdir(es, d, c).0] + Names(es, d, Readdir(es, d, c).1, n - 1)
  }

  function Empties(n: nat): seq<seq<int>> {
    seq(n, _ => [])
  }

  lemma {:induction false} NamesAfterEnd(es: Entries, d: seq<int>, c: Cursor, j: nat)
    requires c.eof
    ensures Names(es, d, c, j) == Empties(j)
    decreases j
  {
    if j > 0 {
      NamesAfterEnd(es, d, c, j - 1);
      assert [[]] + Empties(j - 1) == Empties(j);
    }
  }

  /** The calls return the listing, and then the empty name for ever. */
  lemma {:induction false} NamesAreListing(es: Entries, d: seq<int>, c: Cursor, n: nat, j: nat)
    requires !c.eof && c.prev != [] && Range(es, d, c.k, n) && forall i :: c.k <= i < n ==> ChildName(es, d, i) != []
    ensures Names(es, d, c, |Listing(es, d, c.k, c.prev)| + j) == Listing(es, d, c.k, c.prev) + Empties(j)
    decreases n - c.k
  {
    NextNameSpec(es, d, c.k, n, c.prev);
    var r := NextName(es, d, c.k, c.prev);
    if r.Some? {
      var (name, k') := r.value;
      NamesAreListing(es, d, c.(k := k', prev := name), n, j);
    } else if j > 0 {
      NamesAfterEnd(es, d, c.(eof := true), j - 1);
      assert [[]] + Empties(j - 1) == Empties(j);
    }
  }

  /** The calls list the run of entries behind entry `at`. */
  lemma RunListed(es: Entries, d: seq<int>, at: nat, n: nat, j: nat)
    requires at < |es| && Range(es, d, at + 1, n) && Grouped(es, d, at + 1, n)
    requires forall i :: at < i < n ==> ChildName(es, d, i) != [] && ChildName(es, d, i) != DOT
    ensures var list := Children(es, d, at + 1, at + 1, n);
            && Names(es, d, Cursor(at + 1, [], false), 1 + |list| + j) == [DOT] + list + Empties(j)
            && Distinct(list)
            && forall x :: x in list <==> HasEntry(es, d, at + 1, n, x)
  {
    hide Listing, Empties, Children, Names, ChildName, Grouped, Distinct;
    ListingIsChildren(es, d, at + 1, n, DOT);
    NamesAreListing(es, d, Cursor(at + 1, DOT, false), n, j);
    DotFirst(es, d, at + 1, |Listing(es, d, at + 1, DOT)| + j);
  }

  lemma DotFirst(es: Entries, d: seq<int>, k: nat, m: nat)
    ensures Names(es, d, Cursor(k, [], false), 1 + m) == [DOT] + Names(es, d, Cursor(k, DOT, false), m)
  {
  }

  // ---- The root directory ----

  const ROOT: seq<int> := [SLASH]

  /** Where a listing of the root stands: entry k, or after the entries the m-th empty block. */
  datatype RootCursor = RootCursor(k: nat, m: nat, prev: seq<int>, eof: bool)

  function RootPos(es: Entries, k: nat, m: nat): nat
    requires k <= |es|
  {
    Off(es, k) + BLOCK * m
  }

  /** One readdir of the root: the names, and then the empty name for ever.  The first empty block reads as one
      more, empty name. */
  function ReadRootdir(es: Entries, z: nat, c: RootCursor): (seq<int>, RootCursor) {
    if c.eof then ([], c)
    else
      match NextName(es, [], c.k, c.prev)
      case Some((name, k')) => (name, c.(k := k', prev := name))
      case None =>
        if c.prev != [] && c.m < z then ([], RootCursor(|es|, c.m + 1, [], false)) else ([], RootCursor(|es|, z, c.prev, true))
  }

  /** The names of n successive calls. */
  function RootNames(es: Entries, z: nat, c: RootCursor, n: nat): seq<seq<int>>
    decreases n
  {
    if n == 0 then [] else [ReadRootdir(es, z, c).0] + RootNames(es, z, ReadRootdir(es, z, c).1, n - 1)
  }

  /** Past the entries only empty names come. */
  lemma {:induction false} RootAfterEnd(es: Entries, z: nat, c: RootCursor, j: nat)
    requires c.k >= |es| || c.eof
    ensures RootNames(es, z, c, j) == Empties(j)
    decreases j
  {
    if j > 0 {
      RootAfterEnd(es, z, ReadRootdir(es, z, c).1, j - 1);
      assert [[]] + Empties(j - 1) == Empties(j);
    }
  }

  lemma {:induction false} RootNamesAreListing(es: Entries, z: nat, c: RootCursor, j: nat)
    requires !c.eof && c.k <= |es|
    ensures RootNames(es, z, c, |Listing(es, [], c.k, c.prev)| + j) == Listing(es, [], c.k, c.prev) + Empties(j)
    decreases |es| - c.k
  {
    NextNameMoves(es, [], c.k, c.prev);
    var r := NextName(es, [], c.k, c.prev);
    if r.Some? {
      var (name, k') := r.value;
      RootNamesAreListing(es, z, c.(k := k', prev := name), j);
    } else if j > 0 {
      RootAfterEnd(es, z, ReadRootdir(es, z, c).1, j - 1);
      assert [[]] + Empties(j - 1) == Empties(j);
    }
  }

  // ---- Preorder archives ----

  predicate EndsInSlash(p: seq<int>) {
    p != [] && p[|p| - 1] == SLASH
  }

  /** The entries below any directory are together. */
  ghost predicate Together(es: Entries) {
    forall p, i, j, l :: 0 <= i < j < l < |es| && EndsInSlash(p) && Under(es, p, i) && Under(es, p, l) ==> Under(es, p, j)
  }

  /** No name occurs twice, nor as a file and as a directory. */
  ghost predicate NamesApart(es: Entries) {
    forall i, l :: 0 <= i < |es| && 0 <= l < |es| && i != l ==>
                     es[l].name != es[i].name && !HasPrefix(es[l].name, es[i].name + [SLASH])
  }

  /** A directory comes before what is below it. */
  ghost predicate ParentsFirst(es: Entries) {
    forall i, l :: 0 <= i < |es| && 0 <= l < |es| && i != l && EndsInSlash(es[i].name) && HasPrefix(es[l].name, es[i].name) ==> i < l
  }

  /** The archive as tar writes a tree: each directory, then everything below it. */
  ghost predicate Preorder(es: Entries) {
    Together(es) && NamesApart(es) && ParentsFirst(es)
  }

  /** A path is its first component, or continues with a slash. */
  lemma {:induction false} ComponentOf(s: seq<int>)
    ensures HasPrefix(s, Component(s)) && SLASH !in Component(s)
    ensures s == Component(s) || HasPrefix(s, Component(s) + [SLASH])
    decreases |s|
  {
    if s != [] && s[0] != SLASH {
      ComponentOf(s[1..]);
      assert s == [s[0]] + s[1..];
    }
  }

  lemma {:induction false} ComponentIs(s: seq<int>, c: seq<int>)
    requires SLASH !in c && HasPrefix(s, c + [SLASH])
    ensures Component(s) == c
    decreases |c|
  {
    assert s[|c|] == (c + [SLASH])[|c|] == SLASH;
    if c != [] {
      assert s[0] == (c + [SLASH])[0] == c[0];
      assert (c + [SLASH])[1..] == c[1..] + [SLASH];
      assert s[1..][..|c|] == s[..|c| + 1][1..];
      ComponentIs(s[1..], c[1..]);
    }
  }

  /** Entry i belongs to child c of d: it is the file d c, or lies below the directory d c /. */
  lemma ChildForms(es: Entries, d: seq<int>, i: nat)
    requires Under(es, d, i)
    ensures var c := ChildName(es, d, i);
            SLASH !in c && (es[i].name == d + c || HasPrefix(es[i].name, d + c + [SLASH]))
  {
    var name, c := es[i].name, ChildName(es, d, i);
    var rest := name[|d|..];
    ComponentOf(rest);
    assert name == d + rest;
    if rest != c {
      assert name[..|d| + |c| + 1] == d + rest[..|c| + 1];
    }
  }

  lemma BelowChild(es: Entries, d: seq<int>, c: seq<int>, i: nat)
    requires SLASH !in c && Under(es, d + c + [SLASH], i)
    ensures Under(es, d, i) && ChildName(es, d, i) == c
  {
    var name, p := es[i].name, d + c + [SLASH];
    assert name[..|d|] == p[..|d|] == d;
    assert name[|d|..][..|c| + 1] == p[|d|..] == c + [SLASH];
    ComponentIs(name[|d|..], c);
  }

  /** In a preorder archive the entries of each child are together, for any directory. */
  lemma ChildrenTogether(es: Entries, d: seq<int>, i: nat, j: nat, l: nat)
    requires Preorder(es) && i < j < l && Under(es, d, i) && Under(es, d, l) && ChildName(es, d, i) == ChildName(es, d, l)
    ensures Under(es, d, j) && ChildName(es, d, j) == ChildName(es, d, i)
  {
    hide ChildName;
    var c := ChildName(es, d, i);
    ChildForms(es, d, i);
    ChildForms(es, d, l);
    assert (d + c) + [SLASH] == d + c + [SLASH];
    assert Under(es, d + c + [SLASH], i) && Under(es, d + c + [SLASH], l);
    assert EndsInSlash(d + c + [SLASH]);
    assert Under(es, d + c + [SLASH], j);
    BelowChild(es, d, c, j);
  }

  lemma PreorderGroups(es: Entries, d: seq<int>, k: nat, n: nat)
    requires Preorder(es) && Range(es, d, k, n)
    ensures Grouped(es, d, k, n)
  {
    hide Preorder, ChildName;
    forall i, j, l | k <= i < j < l < n && ChildName(es, d, i) == ChildName(es, d, l)
      ensures ChildName(es, d, j) == ChildName(es, d, i)
    {
      ChildrenTogether(es, d, i, j, l);
    }
  }

  /** The end of the run of entries below d from k on. */
  function RunEnd(es: Entries, d: seq<int>, k: nat): (n: nat)
    requires k <= |es|
    ensures Range(es, d, k, n)
    decreases |es| - k
  {
    if Under(es, d, k) then RunEnd(es, d, k + 1) else k
  }

  /** x is the name of an immediate child of d, whose own entry is `at`, anywhere in the archive. */
  ghost predicate IsChildOf(es: Entries, d: seq<int>, at: int, x: seq<int>) {
    exists i :: 0 <= i < |es| && i != at && Under(es, d, i) && ChildName(es, d, i) == x
  }

  /** In a preorder archive everything below d is in the run behind its own entry. */
  lemma AllInRun(es: Entries, d: seq<int>, at: nat, i: nat)
    requires Preorder(es) && EndsInSlash(d) && at < |es| && es[at].name == d && Under(es, d, i)
    ensures at <= i < RunEnd(es, d, at + 1)
  {
    hide RunEnd;
    var n := RunEnd(es, d, at + 1);
    if i != at {
      assert at < i;
    }
    assert Under(es, d, at);
    assert i > n ==> Under(es, d, n);
  }

  /** opendir on a directory below the root and repeated readdir: opendir stands behind the directory's own entry;
      the calls return ".", then each immediate child exactly once in archive order, then the end of the directory
      for ever. */
  lemma WholeListing(es: Entries, z: nat, path: seq<int>, at: nat, j: nat)
    requires Preorder(es) && |path| > 1 && EndsInSlash(path) && FirstNamed(es, path[1..], 0) == Some(at) && es[at].content == []
    requires forall i :: Under(es, path[1..], i) && i != at ==> ChildName(es, path[1..], i) != [] && ChildName(es, path[1..], i) != DOT
    ensures DirStart(es, z, path) == Some(Off(es, at + 1))
    ensures var d := path[1..];
            var list := Children(es, d, at + 1, at + 1, RunEnd(es, d, at + 1));
            && Names(es, d, Cursor(at + 1, [], false), 1 + |list| + j) == [DOT] + list + Empties(j)
            && Distinct(list)
            && forall x :: x in list <==> IsChildOf(es, d, at, x)
  {
    hide Preorder, ChildName, Children, Names, Empties, Distinct, DirStart, Off, Grouped;
    var d := path[1..];
    var n := RunEnd(es, d, at + 1);
    DirAfterHeader(es, z, path, at);
    PreorderGroups(es, d, at + 1, n);
    RunListed(es, d, at, n, j);
    forall x ensures HasEntry(es, d, at + 1, n, x) <==> IsChildOf(es, d, at, x) {
      if IsChildOf(es, d, at, x) {
        var i :| 0 <= i < |es| && i != at && Under(es, d, i) && ChildName(es, d, i) == x;
        AllInRun(es, d, at, i);
      }
    }
  }

  /** opendir on "/", then repeated readdir: each top-level name exactly once in archive order, then the end of the
      directory for ever. */
  lemma RootListing(es: Entries, z: nat, j: nat)
    requires Preorder(es) && forall i :: Under(es, [], i) ==> ChildName(es, [], i) != []
    ensures DirStart(es, z, ROOT) == Some(0) && Range(es, [], 0, |es|)
    ensures var list := Children(es, [], 0, 0, |es|);
            && RootNames(es, z, RootCursor(0, 0, [], false), |list| + j) == list + Empties(j)
            && Distinct(list)
            && forall x :: x in list <==> IsChildOf(es, [], -1, x)
  {
    hide Preorder, Listing, Empties, Children, RootNames, ChildName, Grouped, Distinct;
    AllUnderRoot(es);
    PreorderGroups(es, [], 0, |es|);
    ListingIsChildren(es, [], 0, |es|, []);
    RootNamesAreListing(es, z, RootCursor(0, 0, [], false), j);
  }

  /** Every entry lies below the root. */
  lemma AllUnderRoot(es: Entries)
    ensures Range(es, [], 0, |es|)
  {
  }

  /** The DIR record a process holds. */
  class Dir {
    var fd: nat
    var path: seq<int>            // with the leading slash
    var curPos: nat
    var prev: seq<int>

    constructor ()
    {
      fd, path, curPos, prev := 0, [], 0, [];
    }
  }

  class DirTable {
    const archive: seq<int>
    const used: array<bool>       // dirDesc
    const open: array<bool>       // current_task->open_directories
    const eof: array<bool>        // eofDirectory of dirIntArr

    ghost predicate Valid()
      reads this
    {
      used.Length == open.Length == eof.Length == DESCRIPTORS && used != open && used != eof && open != eof
    }

    constructor (archive: seq<int>)
      ensures Valid() && this.archive == archive && fresh(used) && fresh(open) && fresh(eof)
      ensures forall i :: 0 <= i < DESCRIPTORS ==> !used[i] && !open[i]
    {
      this.archive := archive;
      used := new bool[DESCRIPTORS](_ => false);
      open := new bool[DESCRIPTORS](_ => false);
      eof := new bool[DESCRIPTORS](_ => false);
    }

    /** sys_opendir: the lowest free descriptor, standing right after the header of the first entry with that
        name, or for "/" at the start of the archive. */
    method OpenDir(path: seq<int>, dir: Dir, ghost es: Entries, ghost z: nat) returns (x: int)
      requires Valid() && archive == Image(es, z) && |path| > 0
      modifies used, open, eof, dir
      ensures var start, fd := DirStart(es, z, path), FreeFd(old(used[..]), 3);
              if start.Some? && fd < DESCRIPTORS then
                && x == fd && used[..] == old(used[..])[fd := true] && open[..] == old(open[..])[fd := true]
                && eof[..] == old(eof[..])[fd := false] && dir.fd == fd && dir.path == path && dir.prev == [] && dir.curPos == start.value
              else
                x == -1 && used[..] == old(used[..]) && open[..] == old(open[..]) && eof[..] == old(eof[..]) && unchanged(dir)
    {
      hide Bytes, Image, Block, CStr, SizeAt, Target;
      if path == ROOT {
        x := TakeDescriptor(path, dir, 0);
        if x != -1 {
          return;
        }
      }
      var r := Lookup(archive, path[1..], es, z);
      x := -1;
      if r.Some? {
        x := TakeDescriptor(path, dir, r.value.start);
      }
    }

    /** The loop over the descriptors. */
    method TakeDescriptor(path: seq<int>, dir: Dir, start: nat) returns (x: int)
      requires Valid()
      modifies used, open, eof, dir
      ensures var fd := FreeFd(old(used[..]), 3);
              if fd < DESCRIPTORS then
                && x == fd && used[..] == old(used[..])[fd := true] && open[..] == old(open[..])[fd := true]
                && eof[..] == old(eof[..])[fd := false] && dir.fd == fd && dir.path == path && dir.prev == [] && dir.curPos == start
              else
                x == -1 && used[..] == old(used[..]) && open[..] == old(open[..]) && eof[..] == old(eof[..]) && unchanged(dir)
    {
      var i := 3;
      while i <= 99
        invariant 3 <= i <= 100 && FreeFd(used[..], 3) == FreeFd(used[..], i)
      {
        if !used[i] {
          used[i], open[i], eof[i] := true, true, false;
          dir.fd, dir.path, dir.curPos, dir.prev := i, path, start, [];
          return i;
        }
        i := i + 1;
      }
      x := -1;
    }

    /** sys_readdir and getRootSubdirectories, on the root. */
    method ReadRoot(dir: Dir, ghost es: Entries, ghost z: nat, ghost c: RootCursor) returns (buff: seq<int>, ghost c': RootCursor)
      requires Valid() && archive == Image(es, z) && dir.path == ROOT && dir.fd < DESCRIPTORS
      requires c.k <= |es| && c.m <= z && (c.k < |es| ==> c.m == 0)
      requires dir.curPos == RootPos(es, c.k, c.m) && dir.prev == c.prev && eof[dir.fd] == c.eof
      modifies dir`curPos, dir`prev, eof
      ensures (buff, c') == if open[dir.fd] then ReadRootdir(es, z, c) else ([], c)
      ensures c'.k <= |es| && c'.m <= z && (c'.k < |es| ==> c'.m == 0)
      ensures dir.curPos == RootPos(es, c'.k, c'.m) && dir.prev == c'.prev && eof[..] == old(eof[..])[dir.fd := c'.eof]
    {
      hide Bytes, Image, CStr, SizeAt, ReadDec, Component, NextName;
      c', buff := c, [];
      if !open[dir.fd] || eof[dir.fd] {
        return;
      }
      while dir.curPos < |archive|
        invariant c'.k <= |es| && c'.m <= z && (c'.k < |es| ==> c'.m == 0) && !c'.eof && c'.prev == c.prev
        invariant dir.curPos == RootPos(es, c'.k, c'.m) && dir.prev == c.prev && eof[..] == old(eof[..])
        invariant ReadRootdir(es, z, c) == ReadRootdir(es, z, c')
        decreases |es| - c'.k + z - c'.m
      {
        RootStep(es, z, c');
        var name := CStr(archive, dir.curPos);
        buff := FetchName(name, 0);
        var size := ReadSize(archive, dir.curPos);
        var offset := 0;
        if size % BLOCK != 0 {
          offset := BLOCK - size % BLOCK;
        }
        dir.curPos := dir.curPos + BLOCK + size + offset;
        c' := if c'.k < |es| then c'.(k := c'.k + 1) else c'.(m := c'.m + 1);
        if buff != dir.prev {
          dir.prev := buff;
          c' := c'.(prev := buff);
          return;
        }
      }
      RootEnds(es, z, c');
      buff := [];
      eof[dir.fd] := true;
      c' := c'.(eof := true);
    }

    /** sys_readdir and getFileName, below the root. */
    method ReadDir(dir: Dir, ghost es: Entries, ghost z: nat, ghost k: nat) returns (buff: seq<int>, ghost k': nat)
      requires Valid() && archive == Image(es, z) && z > 0 && |dir.path| > 1 && k <= |es| && dir.curPos == Off(es, k)
      requires dir.fd < DESCRIPTORS
      modifies dir`curPos, dir`prev, eof
      ensures k' <= |es| && dir.curPos == Off(es, k') && eof[..] == old(eof[..])[dir.fd := eof[dir.fd]]
      ensures if !open[dir.fd] then buff == [] && k' == k && dir.prev == old(dir.prev) && eof[dir.fd] == old(eof[dir.fd])
              else
                var (name, c) := Readdir(es, dir.path[1..], Cursor(k, old(dir.prev), old(eof[dir.fd])));
                buff == name && dir.prev == c.prev && eof[dir.fd] == c.eof && (!c.eof ==> k' == c.k)
    {
      hide Bytes, Image, CStr, SizeAt, ReadDec, Component, NextName;
      k' := k;
      buff := [];
      if !open[dir.fd] || eof[dir.fd] {
        return;
      }
      if dir.prev == [] {
        dir.prev := DOT;
        return DOT, k';
      }
      var d := dir.path[1..];
      ghost var was := dir.prev;
      while true
        invariant k' <= |es| && dir.curPos == Off(es, k') && dir.prev == was && eof[..] == old(eof[..])
        invariant NextName(es, d, k, was) == NextName(es, d, k', was)
        decreases |es| - k'
      {
        HeaderOrEnd(es, z, k');
        NextNameStep(es, d, k', was);
        var name := CStr(archive, dir.curPos);
        var below := Contains(name, d);
        if !below {
          eof[dir.fd] := true;
          return [], k';
        }
        buff := FetchName(name, |d|);
        var size := ReadSize(archive, dir.curPos);
        var offset := 0;
        if size % BLOCK != 0 {
          offset := BLOCK - size % BLOCK;
        }
        dir.curPos := dir.curPos + BLOCK + size + offset;
        k' := k' + 1;
        if buff != dir.prev {
          dir.prev := buff;
          return;
        }
      }
    }
  }

  /** Where opendir stands: at the start for the root, else at the data of the entry with the name. */
  function DirStart(es: Entries, z: nat, path: seq<int>): Option<nat>
    requires |path| > 0
  {
    if path == ROOT then Some(0)
    else match Target(es, z, path[1..]) case None => None case Some(f) => Some(f.start)
  }

  /** Below the root opendir finds the directory exactly when some entry has its name. */
  lemma DirFound(es: Entries, z: nat, path: seq<int>)
    requires |path| > 1
    ensures DirStart(es, z, path).None? <==> forall k :: 0 <= k < |es| ==> es[k].name != path[1..]
    ensures DirStart(es, z, path).Some? ==>
              exists k :: 0 <= k < |es| && es[k].name == path[1..] && (forall j :: 0 <= j < k ==> es[j].name != path[1..])
                          && DirStart(es, z, path) == Some(Off(es, k) + 512)
  {
    hide Off, EntryOk, FirstNamed;
    var r := FirstNamed(es, path[1..], 0);
    if r.Some? {
      assert es[r.value].name == path[1..];
    }
  }

  /** What a listing of the root reads where it stands, and what one round of the loop makes of it. */
  lemma RootStep(es: Entries, z: nat, c: RootCursor)
    requires c.k <= |es| && c.m <= z && (c.k < |es| ==> c.m == 0) && !c.eof && RootPos(es, c.k, c.m) < |Image(es, z)|
    ensures var b, p := Image(es, z), RootPos(es, c.k, c.m);
            && ReadDec(b, p + SIZE_FIELD, 0) >= 0
            && (c.k < |es| ==> Next(b, p) == RootPos(es, c.k + 1, 0)) && (c.k == |es| ==> c.m < z && Next(b, p) == RootPos(es, c.k, c.m + 1))
    ensures var name := Component(CStr(Image(es, z), RootPos(es, c.k, c.m))[0..]);
            var c1 := if c.k < |es| then c.(k := c.k + 1) else c.(m := c.m + 1);
            ReadRootdir(es, z, c) == if name != c.prev then (name, c1.(prev := name)) else ReadRootdir(es, z, c1)
  {
    hide Bytes, CStr, SizeAt, ReadDec, Image, NextName;
    NoBytes(es);
    NextNameStep(es, [], c.k, c.prev);
    if c.k < |es| {
      HeaderAt(es, z, c.k);
      DigitsAt(es, z, c.k);
    } else {
      ImageSize(es, z);
      EmptyAt(es, z, c.m);
      EmptyDigits(es, z, c.m);
      NextNameStep(es, [], c.k + 1, c.prev);
    }
  }

  lemma RootEnds(es: Entries, z: nat, c: RootCursor)
    requires c.k <= |es| && c.m <= z && (c.k < |es| ==> c.m == 0) && !c.eof && RootPos(es, c.k, c.m) >= |Image(es, z)|
    ensures c.k == |es| && c.m == z && ReadRootdir(es, z, c) == ([], c.(eof := true))
  {
    hide Bytes, NextName, Image;
    NoBytes(es);
    ImageSize(es, z);
    BytesLonger(es, c.k);
    NextNameStep(es, [], c.k, c.prev);
  }

  lemma ImageSize(es: Entries, z: nat)
    ensures |Image(es, z)| == |Bytes(es)| + BLOCK * z
  {
  }

  /** A directory entry has no data: right after its header comes the next entry. */
  lemma DirAfterHeader(es: Entries, z: nat, path: seq<int>, k: nat)
    requires |path| > 1 && FirstNamed(es, path[1..], 0) == Some(k) && es[k].content == []
    ensures DirStart(es, z, path) == Some(Off(es, k + 1))
  {
    hide Bytes, CStr, SizeAt;
    HeaderAt(es, z, k);
  }

  lemma NextNameStep(es: Entries, d: seq<int>, k: nat, prev: seq<int>)
    ensures !Under(es, d, k) ==> NextName(es, d, k, prev) == None
    ensures Under(es, d, k) ==>
              NextName(es, d, k, prev) == if ChildName(es, d, k) != prev then Some((ChildName(es, d, k), k + 1)) else NextName(es, d, k + 1, prev)
  {
  }

  /** At a header the scan reads the entry; after the last it reads an empty name. */
  lemma HeaderOrEnd(es: Entries, z: nat, k: nat)
    requires k <= |es| && z > 0
    ensures var b, p := Image(es, z), Off(es, k);
            && ReadDec(b, p + SIZE_FIELD, 0) >= 0
            && (k < |es| ==> CStr(b, p) == es[k].name && Next(b, p) == Off(es, k + 1))
            && (k == |es| ==> CStr(b, p) == [])
  {
    hide Bytes, CStr, SizeAt, ReadDec;
    NoBytes(es);
    if k < |es| {
      HeaderAt(es, z, k);
      DigitsAt(es, z, k);
    } else {
      EmptyAt(es, z, 0);
      EmptyDigits(es, z, 0);
    }
  }
}
