/** The scoped symbol table: a chained hash table whose buckets are lists of entries, newest first.
    The hash function and the table size come from headers outside this model, so the table is
    built from any `hash` that maps every name into the bucket range. */
module SymTab {
  import opened Tree

  /** One bucket-list record. `tnode` is the index of the declaring node. */
  datatype Entry = Entry(
    name: string,
    scope: int,
    memloc: int,
    typ: ExpType,
    arraySize: int,
    paramnum: int,
    tnode: int,
    lines: seq<int>)

  /** Position of the first entry named `name`, or |b| when there is none. */
  function FindName(b: seq<Entry>, name: string): (k: nat)
    ensures k <= |b|
    ensures forall j :: 0 <= j < k ==> b[j].name != name
    ensures k < |b| ==> b[k].name == name
  {
    if b == [] then 0
    else if b[0].name == name then 0
    else 1 + FindName(b[1..], name)
  }

  /** Position of the first entry that has the name OR the scope, or |b| when there is none.
      This is where the scans of st_insert and st_advanced_lookup stop. */
  function FindNameOrScope(b: seq<Entry>, name: string, scope: int): (k: nat)
    ensures k <= |b|
    ensures forall j :: 0 <= j < k ==> b[j].name != name && b[j].scope != scope
    ensures k < |b| ==> b[k].name == name || b[k].scope == scope
  {
    if b == [] then 0
    else if b[0].name == name || b[0].scope == scope then 0
    else 1 + FindNameOrScope(b[1..], name, scope)
  }

  /** Length of the longest prefix of `b` whose entries are all deeper than `s`. */
  function DeeperPrefix(b: seq<Entry>, s: int): (k: nat)
    ensures k <= |b|
    ensures forall j :: 0 <= j < k ==> b[j].scope > s
    ensures k < |b| ==> b[k].scope <= s
  {
    if b == [] || b[0].scope <= s then 0 else 1 + DeeperPrefix(b[1..], s)
  }

  /** What st_delete leaves of one bucket. */
  function Strip(b: seq<Entry>, s: int): seq<Entry> {
    b[DeeperPrefix(b, s)..]
  }

  /** The table after the first `n` buckets were stripped. */
  function StripAll(tab: seq<seq<Entry>>, s: int, n: nat): (r: seq<seq<Entry>>)
    ensures |r| == |tab|
    ensures forall i :: 0 <= i < |tab| ==> r[i] == if i < n then Strip(tab[i], s) else tab[i]
  {
    seq(|tab|, i requires 0 <= i < |tab| => if i < n then Strip(tab[i], s) else tab[i])
  }

  /** Stripping no bucket leaves the table as it was. */
  lemma StripNone(tab: seq<seq<Entry>>, s: int)
    ensures StripAll(tab, s, 0) == tab
  {
    assert forall i :: 0 <= i < |tab| ==> StripAll(tab, s, 0)[i] == tab[i];
  }

  /** Stripping bucket `i` extends StripAll over the first `i` buckets to the first `i + 1`. */
  lemma StripAllStep(tab: seq<seq<Entry>>, s: int, i: nat)
    requires i < |tab|
    ensures StripAll(tab, s, i)[i] == tab[i]
    ensures StripAll(tab, s, i)[i := Strip(tab[i], s)] == StripAll(tab, s, i + 1)
  {
    var a, b := StripAll(tab, s, i)[i := Strip(tab[i], s)], StripAll(tab, s, i + 1);
    forall j | 0 <= j < |tab| ensures a[j] == b[j] {
      if j != i {
        assert a[j] == StripAll(tab, s, i)[j];
      }
    }
  }

  /** The entries st_delete releases from the first `n` buckets, bucket 0 first, each bucket head first. */
  function Released(tab: seq<seq<Entry>>, s: int, n: nat): (r: seq<Entry>)
    requires n <= |tab|
    ensures forall e :: e in r ==> e.scope > s && exists i :: 0 <= i < n && e in tab[i]
  {
    if n == 0 then [] else Released(tab, s, n - 1) + tab[n - 1][..DeeperPrefix(tab[n - 1], s)]
  }

  /** The memory location st_lookup reports for `name` in its bucket. */
  function LookupIn(b: seq<Entry>, name: string): (loc: int)
    ensures (forall j :: 0 <= j < |b| ==> b[j].name != name) ==> loc == -1
    ensures loc != -1 ==> exists j :: 0 <= j < |b| && b[j].name == name && b[j].memloc == loc
  {
    var k := FindName(b, name);
    if k < |b| then b[k].memloc else -1
  }

  /** The entry st_type_lookup returns: the one st_lookup reads, or None for NULL. */
  function TypeLookupIn(b: seq<Entry>, name: string): (r: Option<Entry>)
    ensures r.Some? <==> exists k :: 0 <= k < |b| && b[k].name == name
    ensures r.Some? ==> r.value.name == name && LookupIn(b, name) == r.value.memloc
    ensures r.None? ==> LookupIn(b, name) == -1
    ensures r.Some? ==> FindName(b, name) < |b| && r.value == b[FindName(b, name)]
  {
    var k := FindName(b, name);
    if k < |b| then Some(b[k]) else None
  }

  /** The memory location st_advanced_lookup reports in its bucket. */
  function AdvancedLookupIn(b: seq<Entry>, name: string, scope: int): (loc: int)
    ensures (forall j :: 0 <= j < |b| ==> b[j].name != name && b[j].scope != scope) ==> loc == -1
    ensures loc != -1 ==> exists j :: 0 <= j < |b| && (b[j].name == name || b[j].scope == scope) && b[j].memloc == loc
  {
    var k := FindNameOrScope(b, name, scope);
    if k < |b| then b[k].memloc else -1
  }

  /** The record st_insert creates for node `t`: a function or variable declaration takes the type of
      its type child, any other node its own type; the parameter count starts as "not a function". */
  function NewEntry(nodes: seq<Node>, t: int, loc: int): (e: Entry)
    requires 0 <= t < |nodes| && |nodes[t].child| == 3
    requires nodes[t].kind in {Decl(FunK), Decl(VarK)} ==> 0 <= nodes[t].child[0] < |nodes|
    ensures e.name == nodes[t].name && e.scope == nodes[t].scope && e.memloc == loc
    ensures e.lines == [nodes[t].lineno] && e.paramnum == -1 && e.tnode == t
    ensures e.arraySize == nodes[t].arraySize
    ensures e.typ == if nodes[t].kind in {Decl(FunK), Decl(VarK)} then nodes[nodes[t].child[0]].typ
                     else nodes[t].typ
  {
    var n := nodes[t];
    var ty := if n.kind == Decl(FunK) || n.kind == Decl(VarK) then nodes[n.child[0]].typ else n.typ;
    Entry(n.name, n.scope, loc, ty, n.arraySize, -1, t, [n.lineno])
  }

  /** The new contents of bucket `b` after st_insert of a node with this name, scope and line:
      `added` goes in front when the scan finds nothing, otherwise the line is appended to the entry
      the scan stopped at. */
  function InsertBucket(b: seq<Entry>, name: string, scope: int, added: Entry, lineno: int): (r: seq<Entry>)
    ensures (forall j :: 0 <= j < |b| ==> b[j].name != name && b[j].scope != scope) ==> r == [added] + b
    ensures (exists j :: 0 <= j < |b| && (b[j].name == name || b[j].scope == scope)) ==>
      |r| == |b| && forall j :: 0 <= j < |b| ==> r[j].memloc == b[j].memloc && r[j].name == b[j].name && r[j].scope == b[j].scope
  {
    var k := FindNameOrScope(b, name, scope);
    if k == |b| then [added] + b else b[k := b[k].(lines := b[k].lines + [lineno])]
  }

  /** The tree after st_insert created an entry for `t`: for a function declaration, every return
      statement on the sibling chain under child[2] carries the function's name. */
  function NamedReturns(nodes: seq<Node>, t: int): (r: seq<Node>)
    requires 0 <= t < |nodes| && Linked(Skeleton(nodes))
    ensures Skeleton(r) == Skeleton(nodes) && ScopesOf(r) == ScopesOf(nodes)
    ensures forall j :: 0 <= j < |nodes| ==> r[j] == nodes[j] || (nodes[j].kind == Stmt(ReturnK) && r[j] == nodes[j].(name := nodes[t].name))
    ensures nodes[t].kind != Decl(FunK) ==> r == nodes
  {
    if nodes[t].kind == Decl(FunK)
    then
      RenameKeepsShape(nodes, Chain(Skeleton(nodes), nodes[t].child[2]), nodes[t].name);
      RenameReturns(nodes, Chain(Skeleton(nodes), nodes[t].child[2]), nodes[t].name)
    else nodes
  }

  /** The return statements among the nodes `cs` renamed to `fname`; every other node as it was. */
  function RenameReturns(nodes: seq<Node>, cs: seq<int>, fname: string): (r: seq<Node>)
    ensures |r| == |nodes|
    ensures forall j :: 0 <= j < |nodes| ==>
      r[j] == if j in cs && nodes[j].kind == Stmt(ReturnK) then nodes[j].(name := fname) else nodes[j]
  {
    seq(|nodes|, j requires 0 <= j < |nodes| =>
      if j in cs && nodes[j].kind == Stmt(ReturnK) then nodes[j].(name := fname) else nodes[j])
  }

  /** Renaming a chain is renaming its head, then the rest. */
  lemma RenameHead(nodes: seq<Node>, s: int, rest: seq<int>, fname: string)
    requires 0 <= s < |nodes| && s !in rest
    ensures RenameReturns(nodes, [s] + rest, fname) ==
      RenameReturns(nodes[s := if nodes[s].kind == Stmt(ReturnK) then nodes[s].(name := fname) else nodes[s]], rest, fname)
  {
  }

  /** Renaming return statements changes neither the links nor the scopes of the tree. */
  lemma RenameKeepsShape(nodes: seq<Node>, cs: seq<int>, fname: string)
    ensures Skeleton(RenameReturns(nodes, cs, fname)) == Skeleton(nodes)
    ensures ScopesOf(RenameReturns(nodes, cs, fname)) == ScopesOf(nodes)
  {
    var r := RenameReturns(nodes, cs, fname);
    assert forall j :: 0 <= j < |nodes| ==> Skeleton(r)[j] == Skeleton(nodes)[j];
    assert forall j :: 0 <= j < |nodes| ==> ScopesOf(r)[j] == ScopesOf(nodes)[j];
  }

  // ---- Properties of insertion ----

  /** When no entry of the bucket has the name or the scope, st_insert pushes the new entry on the
      head and leaves the rest of the bucket as it was; st_lookup then reads the new entry. */
  lemma InsertAbsent(b: seq<Entry>, name: string, scope: int, added: Entry, lineno: int)
    requires forall j :: 0 <= j < |b| ==> b[j].name != name && b[j].scope != scope
    requires added.name == name
    ensures InsertBucket(b, name, scope, added, lineno) == [added] + b
    ensures LookupIn(InsertBucket(b, name, scope, added, lineno), name) == added.memloc
  {
    assert FindNameOrScope(b, name, scope) == |b|;
  }

  /** When the scan stops at entry k, st_insert appends the line to that entry only: its memory
      location and all its other fields stay, and the bucket keeps its length and order. */
  lemma InsertFound(b: seq<Entry>, name: string, scope: int, added: Entry, lineno: int, k: nat)
    requires k < |b| && (b[k].name == name || b[k].scope == scope)
    requires forall j :: 0 <= j < k ==> b[j].name != name && b[j].scope != scope
    ensures var r := InsertBucket(b, name, scope, added, lineno);
      && |r| == |b|
      && r[k].lines == b[k].lines + [lineno]
      && r[k].memloc == b[k].memloc && r[k].name == b[k].name && r[k].scope == b[k].scope
      && r[k].typ == b[k].typ && r[k].arraySize == b[k].arraySize && r[k].paramnum == b[k].paramnum
      && r[k].tnode == b[k].tnode
      && (forall j :: 0 <= j < |b| && j != k ==> r[j] == b[j])
  {
    FindNameOrScopeIs(b, name, scope, k);
  }

  /** The first position satisfying the scan condition is the one FindNameOrScope returns. */
  lemma {:induction false} FindNameOrScopeIs(b: seq<Entry>, name: string, scope: int, k: nat)
    requires k < |b| && (b[k].name == name || b[k].scope == scope)
    requires forall j :: 0 <= j < k ==> b[j].name != name && b[j].scope != scope
    ensures FindNameOrScope(b, name, scope) == k
  {
    if k > 0 {
      FindNameOrScopeIs(b[1..], name, scope, k - 1);
    }
  }

  /** The first position holding `name` is the one FindName returns. */
  lemma {:induction false} FindNameIs(b: seq<Entry>, name: string, k: nat)
    requires k < |b| && b[k].name == name
    requires forall j :: 0 <= j < k ==> b[j].name != name
    ensures FindName(b, name) == k
  {
    if k > 0 {
      FindNameIs(b[1..], name, k - 1);
    }
  }

  /** The scan of st_insert stops at the first entry of the same scope even when its name differs:
      a second name of the same scope in the same bucket only adds a line to the first one. */
  lemma InsertSameScopeOtherName(e: Entry, name: string, added: Entry, lineno: int)
    requires e.name != name
    ensures InsertBucket([e], name, e.scope, added, lineno) == [e.(lines := e.lines + [lineno])]
  {
  }

  // ---- Properties of the lookups ----

  /** st_lookup reports -1 when no entry has the name; otherwise the location of the most recent
      (first) entry with that name. */
  lemma LookupMeaning(b: seq<Entry>, name: string)
    ensures (forall j :: 0 <= j < |b| ==> b[j].name != name) ==> LookupIn(b, name) == -1
    ensures forall k :: 0 <= k < |b| && b[k].name == name && (forall j :: 0 <= j < k ==> b[j].name != name)
                ==> LookupIn(b, name) == b[k].memloc
  {
    forall k | 0 <= k < |b| && b[k].name == name && (forall j :: 0 <= j < k ==> b[j].name != name) {
      FindNameIs(b, name, k);
    }
  }

  /** st_advanced_lookup reports -1 when no entry has the name or the scope, and otherwise the
      location of the first entry that has either. When no location in the bucket is -1, the
      result is -1 exactly when no entry matches. */
  lemma AdvancedLookupMeaning(b: seq<Entry>, name: string, scope: int)
    ensures (forall j :: 0 <= j < |b| ==> b[j].name != name && b[j].scope != scope)
      ==> AdvancedLookupIn(b, name, scope) == -1
    ensures forall k :: 0 <= k < |b| && (b[k].name == name || b[k].scope == scope)
                && (forall j :: 0 <= j < k ==> b[j].name != name && b[j].scope != scope)
                ==> AdvancedLookupIn(b, name, scope) == b[k].memloc
    ensures (forall j :: 0 <= j < |b| ==> b[j].memloc != -1) ==>
      (AdvancedLookupIn(b, name, scope) == -1 <==>
       forall j :: 0 <= j < |b| ==> b[j].name != name && b[j].scope != scope)
  {
    forall k | 0 <= k < |b| && (b[k].name == name || b[k].scope == scope)
      && (forall j :: 0 <= j < k ==> b[j].name != name && b[j].scope != scope) {
      FindNameOrScopeIs(b, name, scope, k);
    }
  }

  /** Without that proviso the "not found" answer is ambiguous: an entry stored at location -1
      is reported exactly like a missing one. */
  lemma AdvancedLookupAmbiguous(e: Entry)
    requires e.memloc == -1
    ensures AdvancedLookupIn([e], e.name, e.scope) == -1
    ensures LookupIn([e], e.name) == -1
  {
  }

  // ---- Properties of scope teardown ----

  /** st_delete keeps a suffix of each bucket: what it drops all lies deeper than `s`, what it keeps
      is in the old order, and the bucket no longer starts with an entry deeper than `s`. */
  lemma StripMeaning(b: seq<Entry>, s: int)
    ensures b == b[..DeeperPrefix(b, s)] + Strip(b, s)
    ensures forall e :: e in b[..DeeperPrefix(b, s)] ==> e.scope > s
    ensures Strip(b, s) == [] || Strip(b, s)[0].scope <= s
  {
  }

  /** A second st_delete with the same scope changes no bucket. */
  lemma DeleteIdempotent(tab: seq<seq<Entry>>, s: int)
    ensures StripAll(StripAll(tab, s, |tab|), s, |tab|) == StripAll(tab, s, |tab|)
  {
    var once := StripAll(tab, s, |tab|);
    forall i | 0 <= i < |tab| ensures Strip(once[i], s) == once[i] {
      StripHeadShallow(tab[i], s);
    }
  }

  /** ... and releases nothing. */
  lemma DeleteAgainReleasesNothing(tab: seq<seq<Entry>>, s: int, n: nat)
    requires n <= |tab|
    ensures Released(StripAll(tab, s, |tab|), s, n) == []
  {
    var st := StripAll(tab, s, |tab|);
    forall i | 0 <= i < n ensures DeeperPrefix(st[i], s) == 0 {
      StripHeadShallow(tab[i], s);
    }
    NothingDeeper(st, s, n);
  }

  /** When no bucket starts with a deeper entry, st_delete releases nothing. */
  lemma {:induction false} NothingDeeper(tab: seq<seq<Entry>>, s: int, n: nat)
    requires n <= |tab|
    requires forall i :: 0 <= i < n ==> DeeperPrefix(tab[i], s) == 0
    ensures Released(tab, s, n) == []
  {
    if n > 0 {
      NothingDeeper(tab, s, n - 1);
    }
  }

  /** A stripped bucket has nothing left to strip. */
  lemma StripHeadShallow(b: seq<Entry>, s: int)
    ensures DeeperPrefix(Strip(b, s), s) == 0
  {
    var r := Strip(b, s);
    if r != [] {
      assert r[0].scope <= s;
    }
  }

  /** When a bucket is ordered innermost-scope first, st_delete removes exactly its entries that
      are deeper than `s`. */
  lemma StripSorted(b: seq<Entry>, s: int)
    requires forall i, j :: 0 <= i < j < |b| ==> b[i].scope >= b[j].scope
    ensures forall e :: e in Strip(b, s) ==> e.scope <= s
    ensures forall e :: e in b && e.scope <= s ==> e in Strip(b, s)
  {
    var k := DeeperPrefix(b, s);
    forall e | e in Strip(b, s) ensures e.scope <= s {
      var i :| k <= i < |b| && b[i] == e;
      assert b[k].scope <= s;
    }
    forall e | e in b && e.scope <= s ensures e in Strip(b, s) {
      var i :| 0 <= i < |b| && b[i] == e;
      assert i >= k;
      assert Strip(b, s)[i - k] == e;
    }
  }

  /** Out of that order st_delete can leave a deeper entry behind: one sitting after an entry at or
      above `s` stays in the table. */
  lemma StripKeepsHidden(a: Entry, b: Entry, s: int)
    requires a.scope <= s < b.scope
    ensures Strip([a, b], s) == [a, b] && b.scope > s
  {
  }

  /** The symbol table object: SIZE buckets and the hash that selects one. */
  class SymTable {
    const hash: string -> nat
    const buckets: array<seq<Entry>>

    ghost predicate Valid() {
      forall name :: hash(name) < buckets.Length
    }

    constructor (h: string -> nat, size: nat)
      requires forall name :: h(name) < size
      ensures Valid() && hash == h && fresh(buckets) && buckets.Length == size
      ensures forall i :: 0 <= i < size ==> buckets[i] == []
    {
      hash := h;
      buckets := new seq<Entry>[size](_ => []);
    }

    /** st_insert: scans bucket hash(name) for the first entry with the node's name or scope; without
        one, a new entry for the node goes to the head of the bucket (and a function's return
        statements receive its name); with one, only the node's line number is appended to it. */
    method Insert(nodes: array<Node>, t: int, loc: int)
      requires Valid()
      requires 0 <= t < nodes.Length && Linked(Skeleton(nodes[..]))
      requires nodes[t].kind in {Decl(FunK), Decl(VarK)} ==> nodes[t].child[0] != Null
      modifies buckets, nodes
      ensures var n := old(nodes[t]);
        var b := old(buckets[hash(n.name)]);
        buckets[..] == old(buckets[..])[hash(n.name) :=
          InsertBucket(b, n.name, n.scope, NewEntry(old(nodes[..]), t, loc), n.lineno)]
      ensures var n := old(nodes[t]);
        nodes[..] == if FindNameOrScope(old(buckets[hash(n.name)]), n.name, n.scope) == |old(buckets[hash(n.name)])|
                     then NamedReturns(old(nodes[..]), t) else old(nodes[..])
    {
      var n := nodes[t];
      var h := hash(n.name);
      var b := buckets[h];
      var k := 0;
      while k < |b| && b[k].name != n.name && b[k].scope != n.scope
        invariant k <= |b|
        invariant forall j :: 0 <= j < k ==> b[j].name != n.name && b[j].scope != n.scope
      {
        k := k + 1;
      }
      assert k == FindNameOrScope(b, n.name, n.scope);
      if k == |b| {
        var e := NewEntry(nodes[..], t, loc);
        if n.kind == Decl(FunK) {
          RenameChain(nodes, n.child[2], n.name);
        }
        buckets[h] := [e] + b;
      } else {
        buckets[h] := b[k := b[k].(lines := b[k].lines + [n.lineno])];
      }
    }

    /** The loop of st_insert that copies a function's name into the return statements of the
        sibling chain starting at `s0`. */
    static method RenameChain(nodes: array<Node>, s0: int, fname: string)
      requires Linked(Skeleton(nodes[..])) && IsRef(nodes.Length, s0)
      modifies nodes
      ensures nodes[..] == RenameReturns(old(nodes[..]), Chain(Skeleton(old(nodes[..])), s0), fname)
    {
      ghost var sk := Skeleton(nodes[..]);
      var s := s0;
      while s != Null
        invariant IsRef(nodes.Length, s)
        invariant Skeleton(nodes[..]) == sk
        invariant RenameReturns(nodes[..], Chain(sk, s), fname) == RenameReturns(old(nodes[..]), Chain(sk, s0), fname)
        decreases if s == Null then 0 else nodes.Length - s
      {
        ghost var before := nodes[..];
        var n := if nodes[s].kind == Stmt(ReturnK) then nodes[s].(name := fname) else nodes[s];
        ChainAfter(sk, sk[s].sibling, s);
        assert Chain(sk, s) == [s] + Chain(sk, sk[s].sibling);
        RenameHead(before, s, Chain(sk, sk[s].sibling), fname);
        SkeletonUpdate(before, s, n);
        nodes[s] := n;
        s := n.sibling;
      }
      assert RenameReturns(nodes[..], [], fname) == nodes[..];
    }

    /** st_delete: pops, from the front of every bucket, the entries deeper than `scope`, and returns
        them in the order they are released. */
    method Delete(scope: int) returns (released: seq<Entry>)
      modifies buckets
      ensures buckets[..] == StripAll(old(buckets[..]), scope, buckets.Length)
      ensures released == Released(old(buckets[..]), scope, buckets.Length)
    {
      ghost var o := buckets[..];
      StripNone(o, scope);
      released := [];
      var i := 0;
      while i < buckets.Length
        invariant 0 <= i <= buckets.Length
        invariant buckets[..] == StripAll(o, scope, i)
        invariant released == Released(o, scope, i)
      {
        var popped := StripNext(o, i, scope);
        released := released + popped;
        i := i + 1;
      }
    }

    /** One turn of st_delete's outer loop: bucket `i` is stripped, and its deeper head entries are what leaves. */
    method StripNext(ghost o: seq<seq<Entry>>, i: nat, scope: int) returns (popped: seq<Entry>)
      requires i < buckets.Length == |o| && buckets[..] == StripAll(o, scope, i)
      modifies buckets
      ensures buckets[..] == StripAll(o, scope, i + 1)
      ensures Released(o, scope, i + 1) == Released(o, scope, i) + popped
    {
      StripAllStep(o, scope, i);
      popped := PopDeeper(i, scope);
    }

    /** The inner loop of st_delete: unlinks the head of bucket `i` while it is deeper than `scope`. */
    method PopDeeper(i: nat, scope: int) returns (popped: seq<Entry>)
      requires i < buckets.Length
      modifies buckets
      ensures buckets[..] == old(buckets[..])[i := Strip(old(buckets[i]), scope)]
      ensures popped == old(buckets[i])[..DeeperPrefix(old(buckets[i]), scope)]
    {
      ghost var b := buckets[i];
      popped := [];
      while buckets[i] != [] && buckets[i][0].scope > scope
        invariant |popped| <= DeeperPrefix(b, scope)
        invariant buckets[..] == old(buckets[..])[i := b[|popped|..]]
        invariant popped == b[..|popped|]
        decreases |buckets[i]|
      {
        popped := popped + [buckets[i][0]];
        buckets[i] := buckets[i][1..];
      }
    }

    /** st_lookup: the memory location of the first entry named `name` in its bucket, or -1. */
    method Lookup(name: string) returns (loc: int)
      requires Valid()
      ensures loc == LookupIn(buckets[hash(name)], name)
    {
      var b := buckets[hash(name)];
      var k := 0;
      while k < |b| && b[k].name != name
        invariant k <= |b|
        invariant forall j :: 0 <= j < k ==> b[j].name != name
      {
        k := k + 1;
      }
      assert k == FindName(b, name);
      loc := if k == |b| then -1 else b[k].memloc;
    }

    /** st_advanced_lookup: the memory location of the first entry with the name or the scope, or -1. */
    method AdvancedLookup(name: string, scope: int) returns (loc: int)
      requires Valid()
      ensures loc == AdvancedLookupIn(buckets[hash(name)], name, scope)
    {
      var b := buckets[hash(name)];
      var k := 0;
      while k < |b| && b[k].name != name && b[k].scope != scope
        invariant k <= |b|
        invariant forall j :: 0 <= j < k ==> b[j].name != name && b[j].scope != scope
      {
        k := k + 1;
      }
      assert k == FindNameOrScope(b, name, scope);
      loc := if k == |b| then -1 else b[k].memloc;
    }

    /** st_type_lookup: the position, in bucket hash(name), of the entry st_lookup reads; None for NULL. */
    method TypeLookup(name: string) returns (r: Option<nat>)
      requires Valid()
      ensures var b := buckets[hash(name)];
        r == if FindName(b, name) < |b| then Some(FindName(b, name)) else None
    {
      var b := buckets[hash(name)];
      var k := 0;
      while k < |b| && b[k].name != name
        invariant k <= |b|
        invariant forall j :: 0 <= j < k ==> b[j].name != name
      {
        k := k + 1;
      }
      assert k == FindName(b, name);
      r := if k == |b| then None else Some(k);
    }

    /** Writes the type and parameter count of entry `k` of bucket `h` (checkNode's `l->type = ...`,
        `l->paramnum = ...` through the record st_type_lookup returned). */
    method SetSignature(h: nat, k: nat, typ: ExpType, paramnum: int)
      requires h < buckets.Length && k < |buckets[h]|
      modifies buckets
      ensures buckets[..] == old(buckets[..])[h := old(buckets[h])[k := old(buckets[h][k]).(typ := typ, paramnum := paramnum)]]
    {
      buckets[h] := buckets[h][k := buckets[h][k].(typ := typ, paramnum := paramnum)];
    }
  }
}
