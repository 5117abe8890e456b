/** What traverse does to the tree, as functions over the node skeletons: the scope values it writes
    and the order in which it calls its hooks. */
module Walk {
  import opened Tree

  /** The hooks traverse is given; C passes them as function pointers. */
  datatype Visitor = Binder | Checker | NullVisit

  /** One step of a walk: a call of the pre-order hook, of deleteProc or of the post-order hook,
      or the write `node->scope = from->scope + bump` that traverse makes before descending. */
  datatype Event = Pre(node: int) | Retreat(node: int) | Post(node: int) | Scope(node: int, from: int, bump: int)

  /** The node whose scope traverse writes before descending into child slot `i` of a node
      of kind `k`: a function declaration always writes its parameter child. */
  function ScopeTarget(k: Kind, child: seq<int>, i: nat): int
    requires |child| == 3 && i < 3
  {
    if k == Decl(FunK) then child[1] else child[i]
  }

  /** How much deeper than its parent that node is put: one under a block or a function. */
  function Bump(k: Kind): int {
    if k == Stmt(CompoundK) || k == Decl(FunK) then 1 else 0
  }

  /** The scopes after traverse(t), starting from the scopes `sc`: `t` and every node before it
      keep their scope. */
  function AssignScopes(sk: seq<Skel>, sc: seq<int>, t: int): (r: seq<int>)
    requires WellFormed(sk) && |sc| == |sk| && IsRef(|sk|, t)
    ensures |r| == |sc|
    ensures t == Null ==> r == sc
    ensures forall j :: 0 <= j <= t ==> r[j] == sc[j]
    decreases if t == Null then 0 else |sk| - t, 5
  {
    if t == Null then sc
    else
      var s3 := ChildrenDone(sk, sc, t, 3);
      var sib := sk[t].sibling;
      if sib == Null then s3 else AssignScopes(sk, s3[sib := s3[t]], sib)
  }

  /** The scopes after the first `i` iterations of traverse's child loop at `t`. */
  function ChildrenDone(sk: seq<Skel>, sc: seq<int>, t: int, i: nat): (r: seq<int>)
    requires WellFormed(sk) && |sc| == |sk| && 0 <= t < |sk| && i <= 3
    ensures |r| == |sc|
    ensures forall j :: 0 <= j <= t ==> r[j] == sc[j]
    decreases |sk| - t, i + 1
  {
    if i == 0 then sc else ChildStep(sk, ChildrenDone(sk, sc, t, i - 1), t, i - 1)
  }

  /** Iteration `i` of the child loop: a present child gets a scope written (see ScopeTarget) and
      is traversed. */
  function ChildStep(sk: seq<Skel>, sc: seq<int>, t: int, i: nat): (r: seq<int>)
    requires WellFormed(sk) && |sc| == |sk| && 0 <= t < |sk| && i < 3
    ensures |r| == |sc|
    ensures forall j :: 0 <= j <= t ==> r[j] == sc[j]
    decreases |sk| - t, i + 1
  {
    var c := sk[t].child[i];
    if c == Null then sc
    else
      var target := ScopeTarget(sk[t].kind, sk[t].child, i);
      AssignScopes(sk, sc[target := sc[t] + Bump(sk[t].kind)], c)
  }

  /** The steps of traverse(t), in order: every event names `t` or a node after it. */
  function TraceOf(sk: seq<Skel>, t: int): (r: seq<Event>)
    requires WellFormed(sk) && IsRef(|sk|, t)
    ensures forall e :: e in r ==> t <= e.node < |sk|
    decreases if t == Null then 0 else |sk| - t, 5
  {
    if t == Null then []
    else [Pre(t)] + TraceKids(sk, t, 3) + ([Retreat(t), Post(t)] + SiblingTrace(sk, t))
  }

  /** The steps of the first `i` iterations of the child loop at `t`. */
  function TraceKids(sk: seq<Skel>, t: int, i: nat): (r: seq<Event>)
    requires WellFormed(sk) && 0 <= t < |sk| && i <= 3
    ensures forall e :: e in r ==> t < e.node < |sk|
    decreases |sk| - t, i + 1
  {
    if i == 0 then [] else TraceKids(sk, t, i - 1) + KidTrace(sk, t, i - 1)
  }

  /** Iteration `i` of the child loop: for a present child, the scope write, then its walk. */
  function KidTrace(sk: seq<Skel>, t: int, i: nat): (r: seq<Event>)
    requires WellFormed(sk) && 0 <= t < |sk| && i < 3
    ensures forall e :: e in r ==> t < e.node < |sk|
    decreases |sk| - t, i + 1
  {
    var c := sk[t].child[i];
    if c == Null then []
    else [Scope(ScopeTarget(sk[t].kind, sk[t].child, i), t, Bump(sk[t].kind))] + TraceOf(sk, c)
  }

  /** The end of traverse(t): for a present sibling, the write of t's scope into it, then its walk. */
  function SiblingTrace(sk: seq<Skel>, t: int): (r: seq<Event>)
    requires WellFormed(sk) && 0 <= t < |sk|
    ensures forall e :: e in r ==> t < e.node < |sk|
    decreases |sk| - t, 4
  {
    var sib := sk[t].sibling;
    if sib == Null then [] else [Scope(sib, t, 0)] + TraceOf(sk, sib)
  }

  // ---- Where the scopes go ----

  /** The scope rule for one child slot: a present child of a block gets the parent's scope + 1,
      the parameter child of a function gets the parent's scope + 1, any other child of a
      non-function gets the parent's scope, and the return-type and body children of a function
      keep the scope they had. */
  lemma ChildScope(sk: seq<Skel>, sc: seq<int>, t: int, i: nat)
    requires WellFormed(sk) && |sc| == |sk| && 0 <= t < |sk| && i < 3
    requires sk[t].child[i] != Null
    ensures var c, r := sk[t].child[i], ChildStep(sk, sc, t, i);
      && (sk[t].kind == Stmt(CompoundK) ==> r[c] == sc[t] + 1)
      && (sk[t].kind == Decl(FunK) && i == 1 ==> r[c] == sc[t] + 1)
      && (sk[t].kind != Stmt(CompoundK) && sk[t].kind != Decl(FunK) ==> r[c] == sc[t])
      && (sk[t].kind == Decl(FunK) && c != sk[t].child[1] ==> r[c] == sc[c])
  {
  }

  /** The child loop leaves the node's own scope alone, and the sibling gets that scope. */
  lemma SiblingScope(sk: seq<Skel>, sc: seq<int>, t: int)
    requires WellFormed(sk) && |sc| == |sk| && 0 <= t < |sk|
    ensures AssignScopes(sk, sc, t)[t] == sc[t]
    ensures sk[t].sibling != Null ==> AssignScopes(sk, sc, t)[sk[t].sibling] == sc[t]
  {
  }

  // ---- The order of the hook calls ----

  /** Every deleteProc(x) in `tr` is followed at once by postProc(x). */
  predicate Paired(tr: seq<Event>) {
    forall k :: 0 <= k < |tr| && tr[k].Retreat? ==> k + 1 < |tr| && tr[k + 1] == Post(tr[k].node)
  }

  lemma PairedAppend(a: seq<Event>, b: seq<Event>)
    requires Paired(a) && Paired(b)
    ensures Paired(a + b)
  {
    forall k | 0 <= k < |a + b| && (a + b)[k].Retreat?
      ensures k + 1 < |a + b| && (a + b)[k + 1] == Post((a + b)[k].node)
    {
      if k < |a| {
        assert (a + b)[k] == a[k];
        assert (a + b)[k + 1] == a[k + 1];
      } else {
        assert (a + b)[k] == b[k - |a|];
        assert (a + b)[k + 1] == b[k + 1 - |a|];
      }
    }
  }

  /** traverse(t) starts with preProc(t), and every deleteProc(x) it makes is followed at once by
      postProc(x). */
  lemma {:induction false} TracePaired(sk: seq<Skel>, t: int)
    requires WellFormed(sk) && IsRef(|sk|, t)
    ensures Paired(TraceOf(sk, t))
    ensures t != Null ==> TraceOf(sk, t)[0] == Pre(t)
    decreases if t == Null then 0 else |sk| - t, 5
  {
    if t != Null {
      KidsPaired(sk, t, 3);
      SiblingPaired(sk, t);
      var ends: seq<Event> := [Retreat(t), Post(t)];
      assert Paired(ends);
      PairedAppend(ends, SiblingTrace(sk, t));
      var front: seq<Event> := [Pre(t)];
      PairedAppend(front, TraceKids(sk, t, 3));
      PairedAppend(front + TraceKids(sk, t, 3), ends + SiblingTrace(sk, t));
    }
  }

  lemma {:induction false} KidsPaired(sk: seq<Skel>, t: int, i: nat)
    requires WellFormed(sk) && 0 <= t < |sk| && i <= 3
    ensures Paired(TraceKids(sk, t, i))
    decreases |sk| - t, i + 1
  {
    if i > 0 {
      KidsPaired(sk, t, i - 1);
      var c := sk[t].child[i - 1];
      if c != Null {
        TracePaired(sk, c);
        var w: seq<Event> := [Scope(ScopeTarget(sk[t].kind, sk[t].child, i - 1), t, Bump(sk[t].kind))];
        PairedAppend(w, TraceOf(sk, c));
      }
      PairedAppend(TraceKids(sk, t, i - 1), KidTrace(sk, t, i - 1));
    }
  }

  lemma {:induction false} SiblingPaired(sk: seq<Skel>, t: int)
    requires WellFormed(sk) && 0 <= t < |sk|
    ensures Paired(SiblingTrace(sk, t))
    decreases |sk| - t, 4
  {
    var sib := sk[t].sibling;
    if sib != Null {
      TracePaired(sk, sib);
      var w: seq<Event> := [Scope(sib, t, 0)];
      PairedAppend(w, TraceOf(sk, sib));
    }
  }
}
