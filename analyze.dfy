/** The semantic-analysis pass: the scope walk, the binder (insertNode) and the checker (checkNode)
    over the arena tree and the symbol table, with C's globals `depth`, `location` and `Error` as
    fields of one analyzer object. */
module Analyze {
  import opened Tree
  import opened SymTab
  import opened Rules
  import opened Walk
  import opened Effects

  // Regroups a concatenation so that it matches the grouping TraceOf uses.
  lemma TraceRegroup(o: seq<Event>, e: Event, kids: seq<Event>, rest: seq<Event>)
    ensures o + [e] + kids + rest == o + ([e] + kids + rest)
  {
  }

  // Regroups a concatenation so that it matches the grouping of Finish's steps.
  lemma FinishRegroup(o: seq<Event>, t: int, rest: seq<Event>)
    ensures o + [Retreat(t)] + [Post(t)] + rest == o + ([Retreat(t), Post(t)] + rest)
  {
  }

  // Regroups a concatenation so that an appended trace matches its ensures.
  lemma TraceAppend(o: seq<Event>, a: seq<Event>, b: seq<Event>)
    ensures o + a + b == o + (a + b)
  {
  }

  /** The analyzer state: the tree, the table, C's globals, and the record of typeError calls. */
  class Analyzer {
    const nodes: array<Node>
    const tab: SymTable
    /** The deepest scope entered and not yet left (C's global `depth`). */
    var depth: int
    /** The next memory location to hand out (C's static `location`). */
    var location: int
    /** C's global `Error`. */
    var error: bool
    /** The (line, message) records of every typeError call, oldest first. */
    var diags: seq<Diag>
    /** The value of `Error` when analysis started. */
    ghost const startError: bool
    /** The kinds and links of the tree, which the analysis never changes. */
    ghost const shape: seq<Skel>
    /** The hook calls traverse has made, in order. */
    ghost var trace: seq<Event>

    ghost predicate Valid()
      reads this, nodes, tab.buckets
    {
      && tab.Valid()
      && Skeleton(nodes[..]) == shape
      && WellFormed(shape)
      && EntriesIn(tab.buckets[..], nodes.Length)
      && (error <==> startError || diags != [])
    }

    /** The analyzer's state as a value. */
    ghost function Now(): State
      reads this, nodes, tab.buckets
    {
      State(nodes[..], tab.buckets[..], depth, location, diags)
    }

    constructor (nodes: array<Node>, tab: SymTable, depth: int, error: bool)
      requires tab.Valid() && WellFormed(Skeleton(nodes[..])) && EntriesIn(tab.buckets[..], nodes.Length)
      ensures Valid() && this.nodes == nodes && this.tab == tab && shape == Skeleton(nodes[..])
      ensures this.depth == depth && location == 0 && this.error == error && diags == [] && trace == []
    {
      this.nodes := nodes;
      this.tab := tab;
      this.depth := depth;
      location := 0;
      this.error := error;
      diags := [];
      startError := error;
      shape := Skeleton(nodes[..]);
      trace := [];
    }

    /** typeError: records the message at the node's line and raises Error. */
    method TypeError(t: int, msg: string)
      requires Valid() && 0 <= t < nodes.Length
      modifies this
      ensures Valid() && error
      ensures diags == old(diags) + [Diag(nodes[t].lineno, msg)]
      ensures depth == old(depth) && location == old(location) && trace == old(trace)
    {
      diags := diags + [Diag(nodes[t].lineno, msg)];
      error := true;
    }

    /** Files the report of an outcome at the node it names. */
    method File(t: int, r: Option<Report>)
      requires Valid() && 0 <= t < nodes.Length && Fileable(nodes[..], t, r)
      modifies this
      ensures Valid() && (r.Some? ==> error)
      ensures diags == old(diags) + ReportDiags(nodes[..], t, r)
      ensures depth == old(depth) && location == old(location) && trace == old(trace)
    {
      assert shape[t] == SkelOf(nodes[t]);
      match r
      case None =>
      case Some(rep) =>
        TypeError(ReportNode(nodes[..], t, rep.at), rep.msg);
    }

    /** The write `x->scope = v` of traverse. */
    method SetScope(x: int, v: int)
      requires Valid() && 0 <= x < nodes.Length
      modifies nodes
      ensures Valid()
      ensures nodes[..] == old(nodes[..])[x := old(nodes[x]).(scope := v)]
      ensures ScopesOf(nodes[..]) == ScopesOf(old(nodes[..]))[x := v]
    {
      SkeletonUpdate(nodes[..], x, nodes[x].(scope := v));
      nodes[x] := nodes[x].(scope := v);
      assert forall j :: 0 <= j < nodes.Length ==> ScopesOf(nodes[..])[j] == ScopesOf(old(nodes[..]))[x := v][j];
    }

    /** The write `x->scope = from->scope + bump` of traverse's child loop and sibling step. */
    method ScopeWrite(x: int, from: int, bump: int)
      requires Valid() && 0 <= x < nodes.Length && 0 <= from < nodes.Length
      modifies this, nodes
      ensures Valid() && trace == old(trace) + [Scope(x, from, bump)]
      ensures Now() == ScopeEffect(old(Now()), x, from, bump)
      ensures ScopesOf(nodes[..]) == ScopesOf(old(nodes[..]))[x := old(nodes[from].scope) + bump]
    {
      SetScope(x, nodes[from].scope + bump);
      trace := trace + [Scope(x, from, bump)];
    }

    /** deleteProc: on retreating to a node shallower than `depth`, every entry deeper than the node's
        scope leaves the table and `depth` drops to that scope; otherwise nothing changes. */
    method DeleteProc(t: int)
      requires Valid() && IsRef(nodes.Length, t)
      modifies this, tab.buckets
      ensures Valid() && trace == old(trace) + [Retreat(t)]
      ensures Now() == if t == Null then old(Now()) else DeleteEffect(old(Now()), t)
      ensures t != Null ==> depth <= nodes[t].scope
    {
      trace := trace + [Retreat(t)];
      if t != Null && nodes[t].scope < depth {
        EntriesStrip(tab.buckets[..], nodes[t].scope, nodes.Length);
        var released := tab.Delete(nodes[t].scope);
        depth := nodes[t].scope;
      }
    }

    /** nullProc: the pre-order hook of typeCheck; its body is the same as deleteProc's. */
    method NullProc(t: int)
      requires Valid() && IsRef(nodes.Length, t)
      modifies this, tab.buckets
      ensures Valid() && trace == old(trace)
      ensures Now() == if t == Null then old(Now()) else DeleteEffect(old(Now()), t)
      ensures t != Null ==> depth <= nodes[t].scope
    {
      if t != Null && nodes[t].scope < depth {
        EntriesStrip(tab.buckets[..], nodes[t].scope, nodes.Length);
        var released := tab.Delete(nodes[t].scope);
        depth := nodes[t].scope;
      }
    }

    /** insertNode: an identifier use the table knows gets its line recorded; a declaration whose
        name and scope are both new to its bucket is inserted at `location`, which then goes up by
        one; a redeclaration makes `location` go down by one; nothing else changes. */
    method InsertNode(t: int)
      requires Valid() && 0 <= t < nodes.Length
      modifies this, nodes, tab.buckets
      ensures Valid()
      ensures trace == old(trace)
      ensures ScopesOf(nodes[..]) == ScopesOf(old(nodes[..]))
      ensures Now() == InsertEffect(old(Now()), tab.hash, t)
    {
      assert shape[t] == SkelOf(nodes[t]);
      if nodes[t].kind == Exp(IdK) {
        BindUse(t);
      } else if nodes[t].kind.Decl? && nodes[t].arraySize >= 0 {
        BindDecl(t);
      }
    }

    /** insertNode on an identifier use: st_insert records the line when st_lookup finds the name. */
    method BindUse(t: int)
      requires Valid() && 0 <= t < nodes.Length && nodes[t].kind == Exp(IdK)
      modifies nodes, tab.buckets
      ensures Valid()
      ensures trace == old(trace)
      ensures ScopesOf(nodes[..]) == ScopesOf(old(nodes[..]))
      ensures Now() == InsertEffect(old(Now()), tab.hash, t)
    {
      assert shape[t] == SkelOf(nodes[t]);
      var n := nodes[t];
      ghost var s0 := Now();
      ghost var h := tab.hash(n.name);
      ghost var b := s0.buckets[h];
      var loc := tab.Lookup(n.name);
      if loc != -1 {
        ghost var r := s0.(buckets := s0.buckets[h := InsertBucket(b, n.name, n.scope, NewEntry(s0.nodes, t, 0), n.lineno)]);
        assert InsertEffect(s0, tab.hash, t) == r;
        Enter(t, 0);
        assert Now() == r;
      }
    }

    /** insertNode on a declaration: inserted at `location`, which goes up by one, when
        st_advanced_lookup finds neither its name nor its scope; otherwise `location` goes down by one. */
    method BindDecl(t: int)
      requires Valid() && 0 <= t < nodes.Length && nodes[t].kind.Decl? && nodes[t].arraySize >= 0
      modifies this, nodes, tab.buckets
      ensures Valid()
      ensures trace == old(trace)
      ensures ScopesOf(nodes[..]) == ScopesOf(old(nodes[..]))
      ensures Now() == InsertEffect(old(Now()), tab.hash, t)
    {
      assert shape[t] == SkelOf(nodes[t]);
      var n := nodes[t];
      ghost var s0 := Now();
      ghost var h := tab.hash(n.name);
      ghost var b := s0.buckets[h];
      var loc := tab.AdvancedLookup(n.name, n.scope);
      if loc == -1 {
        ghost var r := s0.(nodes := if FindNameOrScope(b, n.name, n.scope) == |b| then NamedReturns(s0.nodes, t) else s0.nodes,
                           buckets := s0.buckets[h := InsertBucket(b, n.name, n.scope, NewEntry(s0.nodes, t, s0.location), n.lineno)],
                           location := s0.location + 1);
        assert InsertEffect(s0, tab.hash, t) == r;
        Enter(t, location);
        location := location + 1;
        assert Now() == r;
      } else {
        location := location - 1;
      }
    }

    /** st_insert called from insertNode: the table and the return nodes change as st_insert says,
        and the analyzer's invariant is kept. */
    method Enter(t: int, loc: int)
      requires Valid() && 0 <= t < nodes.Length
      modifies nodes, tab.buckets
      ensures Valid()
      ensures ScopesOf(nodes[..]) == ScopesOf(old(nodes[..]))
      ensures var n := old(nodes[t]);
        var h := tab.hash(n.name);
        var b := old(tab.buckets[h]);
        && tab.buckets[..] == old(tab.buckets[..])[h := InsertBucket(b, n.name, n.scope, NewEntry(old(nodes[..]), t, loc), n.lineno)]
        && nodes[..] == if FindNameOrScope(b, n.name, n.scope) == |b| then NamedReturns(old(nodes[..]), t) else old(nodes[..])
    {
      assert shape[t] == SkelOf(nodes[t]);
      var n := nodes[t];
      EntriesInsert(tab.buckets[..], tab.hash(n.name), n.name, n.scope, NewEntry(nodes[..], t, loc), n.lineno, nodes.Length);
      if n.kind == Decl(FunK) {
        RenameKeepsShape(nodes[..], Chain(shape, n.child[2]), n.name);
      }
      tab.Insert(nodes, t, loc);
    }

    /** A write of node `x` that leaves its kind, links and scope alone. */
    method SetNode(x: int, n: Node)
      requires Valid() && 0 <= x < nodes.Length && SkelOf(n) == SkelOf(nodes[x]) && n.scope == nodes[x].scope
      modifies nodes
      ensures Valid() && nodes[..] == old(nodes[..])[x := n]
      ensures ScopesOf(nodes[..]) == ScopesOf(old(nodes[..]))
    {
      SkeletonUpdate(nodes[..], x, n);
      ScopesUpdate(nodes[..], x, n);
      nodes[x] := n;
    }

    /** st_type_lookup, read through: the entry for `name`, or None for NULL. */
    method Symbol(name: string) returns (e: Option<Entry>)
      requires Valid()
      ensures e == TypeLookupIn(tab.buckets[tab.hash(name)], name)
    {
      var r := tab.TypeLookup(name);
      e := if r.Some? then Some(tab.buckets[tab.hash(name)][r.value]) else None;
    }

    /** Files an outcome's report through typeError and, when it says so, types the node Integer. */
    method Apply(t: int, out: Outcome)
      requires Valid() && 0 <= t < nodes.Length && Fileable(nodes[..], t, out.report)
      modifies this, nodes
      ensures Valid() && depth == old(depth) && location == old(location) && trace == old(trace)
      ensures diags == old(diags) + ReportDiags(old(nodes[..]), t, out.report)
      ensures nodes[..] == Typed(old(nodes[..]), t, out)
      ensures ScopesOf(nodes[..]) == ScopesOf(old(nodes[..]))
    {
      File(t, out.report);
      if out.typesInteger {
        SetNode(t, nodes[t].(typ := Integer));
      }
    }

    // ---- checkNode, one node kind at a time ----

    /** varK: the declaration takes the type of its type child. */
    method CheckVar(t: int)
      requires Valid() && 0 <= t < nodes.Length && nodes[t].kind == Decl(VarK)
      modifies nodes
      ensures Valid()
      ensures ScopesOf(nodes[..]) == ScopesOf(old(nodes[..]))
      ensures Now() == VarEffect(old(Now()), t)
      ensures WritesOnly(old(nodes[..]), nodes[..], t)
    {
      assert shape[t] == SkelOf(nodes[t]);
      var n := nodes[t];
      if n.child[0] != Null {
        SetNode(t, n.(typ := nodes[n.child[0]].typ));
      }
    }

    /** paramK: a parameter whose array size is not -1 takes the type of its type child. */
    method CheckParam(t: int)
      requires Valid() && 0 <= t < nodes.Length && nodes[t].kind == Decl(ParamK)
      modifies nodes
      ensures Valid()
      ensures ScopesOf(nodes[..]) == ScopesOf(old(nodes[..]))
      ensures Now() == ParamEffect(old(Now()), t)
      ensures WritesOnly(old(nodes[..]), nodes[..], t)
    {
      assert shape[t] == SkelOf(nodes[t]);
      var n := nodes[t];
      if n.arraySize != -1 && n.child[0] != Null {
        SetNode(t, n.(typ := nodes[n.child[0]].typ));
      }
    }

    /** The parameter loop of funK: counts the chain from `s0` and reports every Void parameter
        after the first. */
    method CheckParams(s0: int) returns (count: nat)
      requires Valid() && IsRef(nodes.Length, s0)
      modifies this
      ensures Valid() && depth == old(depth) && location == old(location) && trace == old(trace)
      ensures count == |Chain(shape, s0)|
      ensures diags == old(diags) + VoidParamDiags(nodes[..], Chain(shape, s0), true)
    {
      ghost var ns := nodes[..];
      ghost var sk := shape;
      var s := s0;
      count := 0;
      while s != Null
        invariant Valid() && IsRef(nodes.Length, s)
        invariant depth == old(depth) && location == old(location) && trace == old(trace)
        invariant count + |Chain(sk, s)| == |Chain(sk, s0)|
        invariant diags + VoidParamDiags(ns, Chain(sk, s), count == 0) == old(diags) + VoidParamDiags(ns, Chain(sk, s0), true)
        decreases if s == Null then 0 else nodes.Length - s
      {
        var first := count == 0;
        VoidStep(ns, sk, diags, s, first);
        s := CheckParamAt(s, first);
        count := count + 1;
      }
    }

    /** One turn of the parameter loop: reports parameter `s` when it is Void and not first, and steps. */
    method CheckParamAt(s: int, first: bool) returns (s': int)
      requires Valid() && 0 <= s < nodes.Length
      modifies this
      ensures Valid() && depth == old(depth) && location == old(location) && trace == old(trace)
      ensures diags == old(diags) + VoidDiag(nodes[..], s, first)
      ensures s' == shape[s].sibling
    {
      assert shape[s] == SkelOf(nodes[s]);
      if !first && nodes[s].typ == Void {
        TypeError(s, VoidParamMsg);
      }
      s' := nodes[s].sibling;
    }

    /** funK: `main` must come last and take no parameter; otherwise the declaration and its symbol
        get the type of the type child and the length of the parameter chain, and every Void
        parameter after the first is reported. */
    method CheckFun(t: int)
      requires Valid() && 0 <= t < nodes.Length && nodes[t].kind == Decl(FunK)
      modifies this, nodes, tab.buckets
      ensures Valid() && trace == old(trace)
      ensures ScopesOf(nodes[..]) == ScopesOf(old(nodes[..]))
      ensures Now() == FunEffect(old(Now()), tab.hash, t)
      ensures WritesOnly(old(nodes[..]), nodes[..], t)
    {
      assert shape[t] == SkelOf(nodes[t]);
      var n := nodes[t];
      var m := MainCheck(n.name, n.sibling != Null, nodes[n.child[1]].typ);
      if m.Some? {
        TypeError(t, m.value);
      } else {
        // The loop reads only the parameter nodes, so the writes to t and to its symbol can follow it.
        var ty := if n.child[0] != Null then nodes[n.child[0]].typ else n.typ;
        var r := tab.TypeLookup(n.name);
        var count := CheckParams(n.child[1]);
        if r.Some? {
          EntriesSign(tab.buckets[..], tab.hash(n.name), r.value, ty, count, nodes.Length);
          tab.SetSignature(tab.hash(n.name), r.value, ty, count);
        }
        SetNode(t, n.(typ := ty, paramnum := count));
      }
    }

    /** IdK: an array passed whole takes the declared size, a scalar used with a subscript is
        reported, an array's subscript must be a non-negative constant or an Integer, and the
        subscript value of a non-array use is recorded. */
    method CheckId(t: int)
      requires Valid() && 0 <= t < nodes.Length && nodes[t].kind == Exp(IdK)
      modifies this, nodes
      ensures Valid() && trace == old(trace)
      ensures ScopesOf(nodes[..]) == ScopesOf(old(nodes[..]))
      ensures Now() == IdEffect(old(Now()), tab.hash, t)
      ensures WritesOnly(old(nodes[..]), nodes[..], t)
    {
      assert shape[t] == SkelOf(nodes[t]);
      var n := nodes[t];
      var e := Symbol(n.name);
      if e.Some? {
        var sub := if n.child[0] == Null then None else Some(nodes[n.child[0]]);
        match IdCheck(n.arraySize, e.value.arraySize, sub)
        case Adopt(size) => SetNode(t, n.(arraySize := size));
        case Complain(msg) => TypeError(t, msg);
        case SetIndex(v) => SetNode(t, n.(idx := v));
        case Leave =>
      }
    }

    /** CalcK: Integer operands make the node Integer and fold the operator into attr.val; other
        operands are reported and leave the node as it was. A missing operator child is skipped. */
    method CheckCalc(t: int)
      requires Valid() && 0 <= t < nodes.Length && nodes[t].kind == Exp(CalcK)
      modifies this, nodes
      ensures Valid() && trace == old(trace)
      ensures ScopesOf(nodes[..]) == ScopesOf(old(nodes[..]))
      ensures Now() == CalcEffect(old(Now()), t)
      ensures WritesOnly(old(nodes[..]), nodes[..], t)
    {
      assert shape[t] == SkelOf(nodes[t]);
      var n := nodes[t];
      var a, b := nodes[n.child[0]], nodes[n.child[2]];
      var out := CalcOutcome(a.typ, b.typ);
      if out.report.Some? {
        TypeError(t, out.report.value.msg);
      } else if n.child[1] != Null {
        var f := Fold(nodes[n.child[1]].op, a.val, b.val);
        SetNode(t, n.(typ := Integer, val := if f.Some? then f.value else n.val));
      }
    }

    /** IfK: the condition's folded value must be 0 or 1. */
    method CheckIf(t: int)
      requires Valid() && 0 <= t < nodes.Length && nodes[t].kind == Stmt(IfK)
      modifies this, nodes
      ensures Valid() && trace == old(trace)
      ensures ScopesOf(nodes[..]) == ScopesOf(old(nodes[..]))
      ensures Now() == IfEffect(old(Now()), t)
      ensures WritesOnly(old(nodes[..]), nodes[..], t)
    {
      assert shape[t] == SkelOf(nodes[t]);
      Apply(t, IfOutcome(nodes[nodes[t].child[0]]));
    }

    /** WhileK: the condition must be Integer, and then the loop is typed Integer. A report that
        would be filed at a missing body is skipped. */
    method CheckWhile(t: int)
      requires Valid() && 0 <= t < nodes.Length && nodes[t].kind == Stmt(WhileK)
      modifies this, nodes
      ensures Valid() && trace == old(trace)
      ensures ScopesOf(nodes[..]) == ScopesOf(old(nodes[..]))
      ensures Now() == WhileEffect(old(Now()), t)
      ensures WritesOnly(old(nodes[..]), nodes[..], t)
    {
      assert shape[t] == SkelOf(nodes[t]);
      var out := WhileOutcome(nodes[nodes[t].child[0]]);
      if out.report.None? || nodes[t].child[1] != Null {
        Apply(t, out);
      }
    }

    /** AssignK: looks up both sides (the right side only when it is not a constant) and applies
        the assignment rules. */
    method CheckAssign(t: int)
      requires Valid() && 0 <= t < nodes.Length && nodes[t].kind == Stmt(AssignK)
      modifies this, nodes
      ensures Valid() && trace == old(trace)
      ensures ScopesOf(nodes[..]) == ScopesOf(old(nodes[..]))
      ensures Now() == AssignEffect(old(Now()), tab.hash, t)
      ensures WritesOnly(old(nodes[..]), nodes[..], t)
    {
      assert shape[t] == SkelOf(nodes[t]);
      var n := nodes[t];
      var lhs, rhs := nodes[n.child[0]], nodes[n.child[1]];
      var l := Symbol(lhs.name);
      var r := None;
      if rhs.kind != Exp(ConstK) {
        r := Symbol(rhs.name);
      }
      ghost var s0 := old(Now());
      var out := AssignOutcome(l, r, lhs, rhs);
      assert AssignEffect(s0, tab.hash, t) == OutcomeEffect(s0, t, out);
      Apply(t, out);
    }

    /** ReturnK: a bare return is reported; a returned call needs a known Integer function; any
        other returned value must not be Void; a return with a value is typed Integer. */
    method CheckReturn(t: int)
      requires Valid() && 0 <= t < nodes.Length && nodes[t].kind == Stmt(ReturnK)
      modifies this, nodes
      ensures Valid() && trace == old(trace)
      ensures ScopesOf(nodes[..]) == ScopesOf(old(nodes[..]))
      ensures Now() == ReturnEffect(old(Now()), tab.hash, t)
      ensures WritesOnly(old(nodes[..]), nodes[..], t)
    {
      var out := ReturnDecision(t);
      Apply(t, out);
    }

    /** What the ReturnK check decides at `t`: its returned value, and for a returned call the
        callee's symbol, judged by ReturnOutcome. */
    method ReturnDecision(t: int) returns (out: Outcome)
      requires Valid() && 0 <= t < nodes.Length && nodes[t].kind == Stmt(ReturnK)
      ensures Fileable(nodes[..], t, out.report)
      ensures ReturnEffect(Now(), tab.hash, t) == OutcomeEffect(Now(), t, out)
    {
      assert shape[t] == SkelOf(nodes[t]);
      var n := nodes[t];
      var value := if n.child[0] == Null then None else Some(nodes[n.child[0]]);
      var callee := None;
      if value.Some? && value.value.kind == Stmt(CallK) {
        callee := Symbol(value.value.name);
      }
      out := ReturnOutcome(value, callee);
    }

    /** The counting loop of CallK: the length of the argument chain from `s0`. */
    method CountChain(s0: int) returns (count: nat)
      requires Valid() && IsRef(nodes.Length, s0)
      ensures count == |Chain(shape, s0)|
    {
      ghost var sk := shape;
      var s := s0;
      count := 0;
      while s != Null
        invariant IsRef(nodes.Length, s)
        invariant count + |Chain(sk, s)| == |Chain(sk, s0)|
        decreases if s == Null then 0 else nodes.Length - s
      {
        count := count + 1;
        s := nodes[s].sibling;
      }
    }

    /** The comparison loop of CallK: walks the arguments from `s0` and the parameters from `p0`
        side by side; once the parameters run out, every further argument is unknown. */
    method CheckArgs(s0: int, p0: int)
      requires Valid() && IsRef(nodes.Length, s0) && IsRef(nodes.Length, p0)
      modifies this
      ensures Valid() && depth == old(depth) && location == old(location) && trace == old(trace)
      ensures diags == old(diags) + PairDiags(nodes[..], Chain(shape, s0), Chain(shape, p0))
    {
      ghost var ns := nodes[..];
      ghost var sk := shape;
      var s, p := s0, p0;
      while s != Null
        invariant Valid() && IsRef(nodes.Length, s) && IsRef(nodes.Length, p)
        invariant depth == old(depth) && location == old(location) && trace == old(trace)
        invariant diags + PairDiags(ns, Chain(sk, s), Chain(sk, p)) == old(diags) + PairDiags(ns, Chain(sk, s0), Chain(sk, p0))
        decreases if s == Null then 0 else nodes.Length - s
      {
        PairStep(ns, sk, diags, s, p);
        s, p := CheckArg(s, p);
      }
    }

    /** One turn of the comparison loop: checks argument `s` against parameter `p`, and steps both. */
    method CheckArg(s: int, p: int) returns (s': int, p': int)
      requires Valid() && 0 <= s < nodes.Length && IsRef(nodes.Length, p)
      modifies this
      ensures Valid() && depth == old(depth) && location == old(location) && trace == old(trace)
      ensures diags == old(diags) + ArgDiag(nodes[..], s, p)
      ensures s' == shape[s].sibling
      ensures p' == if p == Null then Null else shape[p].sibling
    {
      var m := ArgCheck(nodes[s], if p == Null then None else Some(nodes[p]));
      if m.Some? {
        TypeError(s, m.value);
      }
      s' := nodes[s].sibling;
      p' := if p == Null then Null else nodes[p].sibling;
    }

    /** CallK: the callee must be known and be a function; without arguments it must take none,
        with arguments their number must equal its parameter count, and then every argument is
        compared with the parameter at its position. */
    method CheckCall(t: int)
      requires Valid() && 0 <= t < nodes.Length && nodes[t].kind == Stmt(CallK)
      modifies this
      ensures Valid() && trace == old(trace)
      ensures Now() == CallEffect(old(Now()), tab.hash, t)
    {
      ghost var sk := shape;
      assert sk[t] == SkelOf(nodes[t]);
      var n := nodes[t];
      var l := Symbol(n.name);
      ghost var s0 := Now();
      if l.None? {
        TypeError(t, "unknown function name");
      } else if l.value.paramnum == -1 {
        TypeError(t, "is not function name");
      } else if n.child[0] == Null {
        if l.value.paramnum != 0 {
          TypeError(t, "arguments not match");
        }
      } else {
        var i := CountChain(n.child[0]);
        if l.value.paramnum == i {
          var tn := l.value.tnode;
          assert sk[tn] == SkelOf(nodes[tn]);
          var p := if nodes[tn].child[1] != Null then nodes[tn].child[1] else tn;
          CheckArgs(n.child[0], p);
        } else {
          TypeError(t, "arguments not match2");
        }
      }
      assert diags == s0.diags + CallDiags(s0.nodes, t, l);
    }

    /** checkNode: the post-order check of one node, by its kind. It writes only that node and
        the symbol table, and only appends to the reports. */
    method CheckNode(t: int)
      requires Valid() && 0 <= t < nodes.Length
      modifies this, nodes, tab.buckets
      ensures Valid() && trace == old(trace)
      ensures ScopesOf(nodes[..]) == ScopesOf(old(nodes[..]))
      ensures Now() == CheckEffect(old(Now()), tab.hash, t)
      ensures WritesOnly(old(nodes[..]), nodes[..], t) && old(diags) <= diags
    {
      match nodes[t].kind
      case Decl(_) => CheckDecl(t);
      case Exp(_) => CheckExp(t);
      case Stmt(_) => CheckStmt(t);
    }

    /** checkNode on a declaration. */
    method CheckDecl(t: int)
      requires Valid() && 0 <= t < nodes.Length && nodes[t].kind.Decl?
      modifies this, nodes, tab.buckets
      ensures Valid() && trace == old(trace)
      ensures ScopesOf(nodes[..]) == ScopesOf(old(nodes[..]))
      ensures Now() == CheckEffect(old(Now()), tab.hash, t)
      ensures WritesOnly(old(nodes[..]), nodes[..], t) && old(diags) <= diags
    {
      match nodes[t].kind.decl
      case VarK => CheckVar(t);
      case FunK => CheckFun(t);
      case ParamK => CheckParam(t);
    }

    /** checkNode on an expression: only identifiers and calculations are checked. */
    method CheckExp(t: int)
      requires Valid() && 0 <= t < nodes.Length && nodes[t].kind.Exp?
      modifies this, nodes, tab.buckets
      ensures Valid() && trace == old(trace)
      ensures ScopesOf(nodes[..]) == ScopesOf(old(nodes[..]))
      ensures Now() == CheckEffect(old(Now()), tab.hash, t)
      ensures WritesOnly(old(nodes[..]), nodes[..], t) && old(diags) <= diags
    {
      match nodes[t].kind.exp
      case IdK => CheckId(t);
      case CalcK => CheckCalc(t);
      case _ =>
    }

    /** checkNode on a statement: blocks are not checked. */
    method CheckStmt(t: int)
      requires Valid() && 0 <= t < nodes.Length && nodes[t].kind.Stmt?
      modifies this, nodes, tab.buckets
      ensures Valid() && trace == old(trace)
      ensures ScopesOf(nodes[..]) == ScopesOf(old(nodes[..]))
      ensures Now() == CheckEffect(old(Now()), tab.hash, t)
      ensures WritesOnly(old(nodes[..]), nodes[..], t) && old(diags) <= diags
    {
      match nodes[t].kind.stmt
      case IfK => CheckIf(t);
      case AssignK => CheckAssign(t);
      case WhileK => CheckWhile(t);
      case ReturnK => CheckReturn(t);
      case CallK => CheckCall(t);
      case CompoundK =>
    }

    /** Calls the hook a visitor stands for, as traverse's preProc (`pre`) or postProc. */
    method Visit(v: Visitor, t: int, pre: bool)
      requires Valid() && 0 <= t < nodes.Length
      modifies this, nodes, tab.buckets
      ensures Valid() && trace == old(trace) + [if pre then Pre(t) else Post(t)]
      ensures ScopesOf(nodes[..]) == ScopesOf(old(nodes[..]))
      ensures Now() == Hook(old(Now()), tab.hash, v, t)
      ensures old(diags) <= diags && depth <= old(depth)
    {
      ghost var s0 := Now();
      assert Ready(s0, tab.hash, t);
      trace := trace + [if pre then Pre(t) else Post(t)];
      match v
      case Binder =>
        InsertNode(t);
        InsertFrame(s0, tab.hash, t);
      case Checker =>
        CheckNode(t);
        CheckFrame(s0, tab.hash, t);
      case NullVisit => NullProc(t);
    }

    /** traverse: raises depth to the node's scope, calls `pre`, walks the present children in
        order (writing each one's scope first), calls deleteProc and `post`, then gives the sibling
        the node's scope and walks on. Its steps are TraceOf of the tree as it was, the state it
        leaves is the Run of those steps, and the scopes it leaves are AssignScopes. */
    method Traverse(t: int, pre: Visitor, post: Visitor)
      requires Valid() && IsRef(nodes.Length, t)
      modifies this, nodes, tab.buckets
      ensures Valid()
      ensures ScopesOf(nodes[..]) == AssignScopes(shape, ScopesOf(old(nodes[..])), t)
      ensures trace == old(trace) + TraceOf(shape, t)
      ensures Now() == Run(old(Now()), tab.hash, pre, post, TraceOf(shape, t))
      ensures old(diags) <= diags
      ensures t != Null ==> depth <= nodes[t].scope
      decreases if t == Null then 0 else nodes.Length - t, 6
    {
      if t != Null {
        ghost var sk := shape;
        ghost var s0 := Now();
        Open(t, pre, post);
        ghost var d := diags;
        VisitChildren(t, pre, post);
        PrefixTrans(old(diags), d, diags);
        d := diags;
        Finish(t, pre, post);
        PrefixTrans(old(diags), d, diags);
        RunWalk(s0, tab.hash, pre, post, Pre(t), TraceKids(sk, t, 3), [Retreat(t), Post(t)] + SiblingTrace(sk, t));
        TraceRegroup(old(trace), Pre(t), TraceKids(sk, t, 3), [Retreat(t), Post(t)] + SiblingTrace(sk, t));
      }
    }

    /** The first statements of traverse: `depth` rises to the node's scope, then `pre` runs at `t`. */
    method Open(t: int, pre: Visitor, post: Visitor)
      requires Valid() && 0 <= t < nodes.Length
      modifies this, nodes, tab.buckets
      ensures Valid() && trace == old(trace) + [Pre(t)]
      ensures ScopesOf(nodes[..]) == ScopesOf(old(nodes[..]))
      ensures Now() == Step(old(Now()), tab.hash, pre, post, Pre(t))
      ensures old(diags) <= diags
    {
      ghost var s0 := Now();
      assert Ready(s0, tab.hash, t);
      if nodes[t].scope > depth {
        depth := nodes[t].scope;
      }
      assert Now() == Raise(s0, t);
      Visit(pre, t, true);
    }

    /** The rest of traverse after the child loop: deleteProc and `post` at `t`, then the sibling. */
    method Finish(t: int, pre: Visitor, post: Visitor)
      requires Valid() && 0 <= t < nodes.Length
      modifies this, nodes, tab.buckets
      ensures Valid()
      ensures var sk, sc, sib := shape, ScopesOf(old(nodes[..])), old(nodes[t].sibling);
        ScopesOf(nodes[..]) == if sib == Null then sc else AssignScopes(sk, sc[sib := sc[t]], sib)
      ensures trace == old(trace) + ([Retreat(t), Post(t)] + SiblingTrace(shape, t))
      ensures Now() == Run(old(Now()), tab.hash, pre, post, [Retreat(t), Post(t)] + SiblingTrace(shape, t))
      ensures old(diags) <= diags
      ensures depth <= nodes[t].scope
      decreases nodes.Length - t, 5
    {
      ghost var sk := shape;
      ghost var s0 := Now();
      DeleteProc(t);
      ghost var s1 := Now();
      assert s1 == Step(s0, tab.hash, pre, post, Retreat(t));
      assert Ready(s1, tab.hash, t);
      Visit(post, t, false);
      ghost var s2 := Now();
      assert s2 == Step(s1, tab.hash, pre, post, Post(t));
      ghost var d := diags;
      WalkSibling(t, pre, post);
      PrefixTrans(old(diags), d, diags);
      RunFinish(s0, tab.hash, pre, post, t, SiblingTrace(sk, t));
      FinishRegroup(old(trace), t, SiblingTrace(sk, t));
    }

    /** The last statements of traverse: a present sibling gets the node's scope, and is walked. */
    method WalkSibling(t: int, pre: Visitor, post: Visitor)
      requires Valid() && 0 <= t < nodes.Length
      modifies this, nodes, tab.buckets
      ensures Valid()
      ensures var sk, sc, sib := shape, ScopesOf(old(nodes[..])), shape[t].sibling;
        ScopesOf(nodes[..]) == if sib == Null then sc else AssignScopes(sk, sc[sib := sc[t]], sib)
      ensures trace == old(trace) + SiblingTrace(shape, t)
      ensures Now() == Run(old(Now()), tab.hash, pre, post, SiblingTrace(shape, t))
      ensures old(diags) <= diags
      ensures nodes[t].scope == old(nodes[t].scope)
      ensures if shape[t].sibling == Null then depth == old(depth) else depth <= nodes[t].scope
      decreases nodes.Length - t, 3
    {
      ghost var sk := shape;
      assert sk[t] == SkelOf(nodes[t]);
      var sib := nodes[t].sibling;
      if sib != Null {
        ghost var s0 := Now();
        ScopeWrite(sib, t, 0);
        ghost var s1 := Now();
        assert s1 == Step(s0, tab.hash, pre, post, Scope(sib, t, 0));
        Traverse(sib, pre, post);
        RunCons(s0, tab.hash, pre, post, Scope(sib, t, 0), TraceOf(sk, sib));
        TraceAppend(old(trace), [Scope(sib, t, 0)], TraceOf(sk, sib));
      }
    }

    /** traverse's child loop at `t`: the three child slots in order. */
    method VisitChildren(t: int, pre: Visitor, post: Visitor)
      requires Valid() && 0 <= t < nodes.Length
      modifies this, nodes, tab.buckets
      ensures Valid()
      ensures ScopesOf(nodes[..]) == ChildrenDone(shape, ScopesOf(old(nodes[..])), t, 3)
      ensures trace == old(trace) + TraceKids(shape, t, 3)
      ensures Now() == Run(old(Now()), tab.hash, pre, post, TraceKids(shape, t, 3))
      ensures old(diags) <= diags
      decreases nodes.Length - t, 4
    {
      ghost var sk := shape;
      ghost var sc := ScopesOf(nodes[..]);
      ghost var s0 := Now();
      var i := 0;
      while i < 3
        invariant 0 <= i <= 3 && Valid()
        invariant Skeleton(nodes[..]) == sk
        invariant ScopesOf(nodes[..]) == ChildrenDone(sk, sc, t, i)
        invariant trace == old(trace) + TraceKids(sk, t, i)
        invariant Now() == Run(s0, tab.hash, pre, post, TraceKids(sk, t, i))
        invariant old(diags) <= diags
      {
        ghost var d := diags;
        ghost var si := Now();
        VisitChild(t, i, pre, post);
        PrefixTrans(old(diags), d, diags);
        RunAppend(s0, tab.hash, pre, post, TraceKids(sk, t, i), KidTrace(sk, t, i));
        TraceAppend(old(trace), TraceKids(sk, t, i), KidTrace(sk, t, i));
        i := i + 1;
      }
    }

    /** One turn of traverse's child loop: a present child gets its scope written, then is walked. */
    method VisitChild(t: int, i: nat, pre: Visitor, post: Visitor)
      requires Valid() && 0 <= t < nodes.Length && i < 3
      modifies this, nodes, tab.buckets
      ensures Valid()
      ensures ScopesOf(nodes[..]) == ChildStep(shape, ScopesOf(old(nodes[..])), t, i)
      ensures trace == old(trace) + KidTrace(shape, t, i)
      ensures Now() == Run(old(Now()), tab.hash, pre, post, KidTrace(shape, t, i))
      ensures old(diags) <= diags
      decreases nodes.Length - t, i, 1
    {
      ghost var sk := shape;
      ghost var sc := ScopesOf(nodes[..]);
      assert sk[t] == SkelOf(nodes[t]);
      var c := nodes[t].child[i];
      if c != Null {
        Descend(t, i, pre, post);
      } else {
        assert ChildStep(sk, sc, t, i) == sc && KidTrace(sk, t, i) == [];
      }
    }

    /** The body of one turn of the child loop when child `i` is present: its scope write, then
        the walk of the child. */
    method Descend(t: int, i: nat, pre: Visitor, post: Visitor)
      requires Valid() && 0 <= t < nodes.Length && i < 3 && shape[t].child[i] != Null
      modifies this, nodes, tab.buckets
      ensures Valid()
      ensures ScopesOf(nodes[..]) == ChildStep(shape, ScopesOf(old(nodes[..])), t, i)
      ensures trace == old(trace) + KidTrace(shape, t, i)
      ensures Now() == Run(old(Now()), tab.hash, pre, post, KidTrace(shape, t, i))
      ensures old(diags) <= diags
      decreases nodes.Length - t, i, 0
    {
      ghost var sk := shape;
      assert sk[t] == SkelOf(nodes[t]);
      var c := nodes[t].child[i];
      ghost var s0 := Now();
      ghost var w := Scope(ScopeTarget(sk[t].kind, sk[t].child, i), t, Bump(sk[t].kind));
      ghost var sc0 := ScopesOf(nodes[..]);
      ghost var sc1 := sc0[w.node := sc0[t] + w.bump];
      assert sc1 == ScopesOf(old(nodes[..]))[w.node := ScopesOf(old(nodes[..]))[t] + w.bump];
      ChildScopeWrite(t, i);
      assert ScopesOf(nodes[..]) == sc1;
      ghost var s1 := Now();
      assert s1 == Step(s0, tab.hash, pre, post, w);
      Traverse(c, pre, post);
      assert ScopesOf(nodes[..]) == AssignScopes(sk, sc1, c);
      assert c == shape[t].child[i];
      assert w == Scope(ScopeTarget(shape[t].kind, shape[t].child, i), t, Bump(shape[t].kind));
      RunCons(s0, tab.hash, pre, post, w, TraceOf(sk, c));
      TraceAppend(old(trace), [w], TraceOf(sk, c));
      assert KidTrace(sk, t, i) == [w] + TraceOf(sk, c);
      assert ChildStep(sk, sc0, t, i) == AssignScopes(sk, sc1, c);
    }

    /** The scope write of the child loop before descending into slot `i`: a block's child, or a
        function's parameter child, goes one deeper than the node; any other child gets its scope. */
    method ChildScopeWrite(t: int, i: nat)
      requires Valid() && 0 <= t < nodes.Length && i < 3 && nodes[t].child[i] != Null
      modifies this, nodes
      ensures var sc, x, bump := ScopesOf(old(nodes[..])), ScopeTarget(shape[t].kind, shape[t].child, i), Bump(shape[t].kind);
        && 0 <= x < nodes.Length
        && Valid() && trace == old(trace) + [Scope(x, t, bump)]
        && Now() == ScopeEffect(old(Now()), x, t, bump)
        && ScopesOf(nodes[..]) == sc[x := sc[t] + bump]
    {
      assert shape[t] == SkelOf(nodes[t]);
      if nodes[t].kind == Stmt(CompoundK) {
        ScopeWrite(nodes[t].child[i], t, 1);
      } else if nodes[t].kind == Decl(FunK) {
        ScopeWrite(nodes[t].child[1], t, 1);
      } else {
        ScopeWrite(nodes[t].child[i], t, 0);
      }
    }

    /** buildSymtab: the root gets scope 0, then one walk binds in pre-order and checks in post-order. */
    method BuildSymtab(root: int)
      requires Valid() && 0 <= root < nodes.Length
      modifies this, nodes, tab.buckets
      ensures Valid() && old(diags) <= diags
      ensures ScopesOf(nodes[..]) == AssignScopes(shape, ScopesOf(old(nodes[..]))[root := 0], root)
      ensures nodes[root].scope == 0 && depth <= 0
      ensures trace == old(trace) + TraceOf(shape, root)
      ensures var s := old(Now());
        Now() == Run(s.(nodes := s.nodes[root := s.nodes[root].(scope := 0)]), tab.hash, Binder, Checker, TraceOf(shape, root))
    {
      SetScope(root, 0);
      Traverse(root, Binder, Checker);
      SiblingScope(shape, ScopesOf(old(nodes[..]))[root := 0], root);
    }

    /** typeCheck: a second walk with nullProc before and checkNode after every node. */
    method TypeCheck(root: int)
      requires Valid() && IsRef(nodes.Length, root)
      modifies this, nodes, tab.buckets
      ensures Valid() && old(diags) <= diags
      ensures ScopesOf(nodes[..]) == AssignScopes(shape, ScopesOf(old(nodes[..])), root)
      ensures trace == old(trace) + TraceOf(shape, root)
      ensures Now() == Run(old(Now()), tab.hash, NullVisit, Checker, TraceOf(shape, root))
      ensures root != Null ==> depth <= nodes[root].scope
    {
      Traverse(root, NullVisit, Checker);
    }
  }
}
