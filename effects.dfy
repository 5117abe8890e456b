/** The semantic-analysis pass on values: what typeError records, what each hook of traverse
    (insertNode, checkNode, deleteProc and nullProc) and each scope write of traverse does to the
    analyzer's state, and the state a whole walk leaves, one step of its trace at a time. */
module Effects {
  import opened Tree
  import opened SymTab
  import opened Rules
  import opened Walk

  /** Every entry of the table refers to a node of the arena. */
  ghost predicate EntriesIn(tab: seq<seq<Entry>>, n: int) {
    forall h, k :: 0 <= h < |tab| && 0 <= k < |tab[h]| ==> 0 <= tab[h][k].tnode < n
  }

  /** st_delete keeps only entries it had, so they still refer to nodes of the arena. */
  lemma EntriesStrip(tab: seq<seq<Entry>>, s: int, n: int)
    requires EntriesIn(tab, n)
    ensures EntriesIn(StripAll(tab, s, |tab|), n)
  {
    var r: seq<seq<Entry>> := StripAll(tab, s, |tab|);
    forall h: int, k: int | 0 <= h < |r| && 0 <= k < |r[h]| ensures 0 <= r[h][k].tnode < n {
      var d := DeeperPrefix(tab[h], s);
      assert r[h][k] == tab[h][d + k];
    }
  }

  /** st_insert adds only an entry for a node of the arena. */
  lemma EntriesInsert(tab: seq<seq<Entry>>, h: int, name: string, scope: int, added: Entry, lineno: int, n: int)
    requires EntriesIn(tab, n) && 0 <= h < |tab| && 0 <= added.tnode < n
    ensures EntriesIn(tab[h := InsertBucket(tab[h], name, scope, added, lineno)], n)
  {
    var r: seq<seq<Entry>> := tab[h := InsertBucket(tab[h], name, scope, added, lineno)];
    forall g: int, k: int | 0 <= g < |r| && 0 <= k < |r[g]| ensures 0 <= r[g][k].tnode < n {
      if g == h && FindNameOrScope(tab[h], name, scope) == |tab[h]| && k > 0 {
        assert r[g][k] == tab[h][k - 1];
      }
    }
  }

  /** The node a report is filed at. */
  function ReportNode(nodes: seq<Node>, t: int, at: At): int
    requires 0 <= t < |nodes| && |nodes[t].child| == 3
    requires at.AtChild? ==> at.k < 3
  {
    match at
    case AtNode => t
    case AtChild(k) => nodes[t].child[k]
  }

  /** A report can be filed: a report at a child names a present child. */
  predicate Fileable(nodes: seq<Node>, t: int, r: Option<Report>)
    requires 0 <= t < |nodes| && |nodes[t].child| == 3
  {
    r.Some? && r.value.at.AtChild? ==> r.value.at.k < 3 && nodes[t].child[r.value.at.k] != Null
  }

  /** What typeError records for a report: the line of the node it is filed at, and the message. */
  function ReportDiags(nodes: seq<Node>, t: int, r: Option<Report>): (d: seq<Diag>)
    requires Linked(Skeleton(nodes)) && 0 <= t < |nodes| && Fileable(nodes, t, r)
    ensures |d| == if r.Some? then 1 else 0
  {
    match r
    case None => []
    case Some(rep) =>
      var x := ReportNode(nodes, t, rep.at);
      assert Skeleton(nodes)[t] == SkelOf(nodes[t]);
      [Diag(nodes[x].lineno, rep.msg)]
  }

  // ---- The parameter loop of a function declaration ----

  const VoidParamMsg := "Void parameter error"

  /** The reports of the parameter loop over the chain `cs`: "Void parameter error" at every Void
      parameter except one in first position. */
  function VoidParamDiags(nodes: seq<Node>, cs: seq<int>, first: bool): (d: seq<Diag>)
    requires forall k :: 0 <= k < |cs| ==> 0 <= cs[k] < |nodes|
    ensures |d| <= |cs|
    ensures forall k :: 0 <= k < |d| ==> d[k].msg == VoidParamMsg && VoidLine(nodes, cs, if first then 1 else 0, d[k].lineno)
  {
    if cs == [] then []
    else
      var rest := VoidParamDiags(nodes, cs[1..], false);
      VoidShiftExists(nodes, cs, rest);
      (if !first && nodes[cs[0]].typ == Void then [Diag(nodes[cs[0]].lineno, VoidParamMsg)] else [])
      + rest
  }

  /** The reports of the loop from the second parameter on, indexed from the first. */
  /** Some Void parameter of the chain `cs`, at position `lo` or later, is on line `line`. */
  predicate VoidLine(nodes: seq<Node>, cs: seq<int>, lo: int, line: int)
    requires forall k :: 0 <= k < |cs| ==> 0 <= cs[k] < |nodes|
  {
    exists j :: 0 <= j < |cs| && lo <= j && nodes[cs[j]].typ == Void && line == nodes[cs[j]].lineno
  }

  /** A Void parameter of the chain after its first element is one of the chain from position 1 on. */
  lemma VoidShiftExists(nodes: seq<Node>, cs: seq<int>, rest: seq<Diag>)
    requires cs != []
    requires forall k :: 0 <= k < |cs| ==> 0 <= cs[k] < |nodes|
    requires forall k :: 0 <= k < |rest| ==> VoidLine(nodes, cs[1..], 0, rest[k].lineno)
    ensures forall k :: 0 <= k < |rest| ==> VoidLine(nodes, cs, 1, rest[k].lineno)
  {
    forall k | 0 <= k < |rest| ensures VoidLine(nodes, cs, 1, rest[k].lineno) {
      var j :| 0 <= j < |cs| - 1 && nodes[cs[1..][j]].typ == Void && rest[k].lineno == nodes[cs[1..][j]].lineno;
      assert cs[1..][j] == cs[j + 1];
    }
  }

  /** The report for the parameter at `s`. */
  function VoidDiag(nodes: seq<Node>, s: int, first: bool): seq<Diag>
    requires 0 <= s < |nodes|
  {
    if !first && nodes[s].typ == Void then [Diag(nodes[s].lineno, VoidParamMsg)] else []
  }

  /** One turn of the parameter loop: the report for the first parameter, then the rest of the chain. */
  lemma VoidStep(nodes: seq<Node>, sk: seq<Skel>, done: seq<Diag>, s: int, first: bool)
    requires |sk| == |nodes| && Linked(sk) && 0 <= s < |sk|
    ensures done + VoidParamDiags(nodes, Chain(sk, s), first) ==
      (done + VoidDiag(nodes, s, first)) + VoidParamDiags(nodes, Chain(sk, sk[s].sibling), false)
  {
    VoidUnfold(nodes, sk, s, first);
    Regroup(done, VoidDiag(nodes, s, first), VoidParamDiags(nodes, Chain(sk, sk[s].sibling), false));
  }

  lemma VoidUnfold(nodes: seq<Node>, sk: seq<Skel>, s: int, first: bool)
    requires |sk| == |nodes| && Linked(sk) && 0 <= s < |sk|
    ensures VoidParamDiags(nodes, Chain(sk, s), first) ==
      VoidDiag(nodes, s, first) + VoidParamDiags(nodes, Chain(sk, sk[s].sibling), false)
  {
    var cs := Chain(sk, s);
    assert cs == [s] + Chain(sk, sk[s].sibling) && cs[1..] == Chain(sk, sk[s].sibling);
  }

  /** The parameter loop reports nothing exactly when no parameter after the first is Void, and
      otherwise "Void parameter error" once for each Void parameter after the first, in chain
      order, on that parameter's line. */
  lemma VoidParamsExact(nodes: seq<Node>, cs: seq<int>, first: bool)
    requires forall k :: 0 <= k < |cs| ==> 0 <= cs[k] < |nodes|
    ensures var d := VoidParamDiags(nodes, cs, first);
      && (d == [] <==> forall j :: (if first then 1 else 0) <= j < |cs| ==> nodes[cs[j]].typ != Void)
      && (forall k :: 0 <= k < |d| ==> d[k].msg == VoidParamMsg)
      && |d| <= |cs|
    ensures VoidParamDiags(nodes, cs, first) == VoidReports(nodes, cs, VoidMarked(nodes, cs, first, 0))
    // the reported positions, increasing, are exactly the Void parameters after the first,
    // and report k is on the line of the k-th of them
    ensures var d, js := VoidParamDiags(nodes, cs, first), VoidMarked(nodes, cs, first, 0);
      && Increasing(js)
      && (forall j :: 0 <= j < |cs| ==> (VoidAt(nodes, cs, first, j) <==> j in js))
      && |d| == |js|
      && (forall k :: 0 <= k < |d| ==> d[k] == Diag(nodes[cs[js[k]]].lineno, VoidParamMsg))
  {
    VoidParamsEmpty(nodes, cs, first);
    VoidFrom(nodes, cs, first, 0);
    assert cs[0..] == cs;
    VoidMarkedMeaning(nodes, cs, first, 0);
  }

  /** The parameter loop reports nothing exactly when no parameter after the first is Void; every
      report it files is "Void parameter error". */
  lemma {:induction false} VoidParamsEmpty(nodes: seq<Node>, cs: seq<int>, first: bool)
    requires forall k :: 0 <= k < |cs| ==> 0 <= cs[k] < |nodes|
    ensures var d := VoidParamDiags(nodes, cs, first);
      d == [] <==> forall j :: (if first then 1 else 0) <= j < |cs| ==> nodes[cs[j]].typ != Void
  {
    if cs != [] {
      VoidParamsEmpty(nodes, cs[1..], false);
      var d := VoidParamDiags(nodes, cs, first);
      var rest := VoidParamDiags(nodes, cs[1..], false);
      if d == [] {
        forall j | (if first then 1 else 0) <= j < |cs| ensures nodes[cs[j]].typ != Void {
          if j > 0 {
            assert cs[1..][j - 1] == cs[j];
          }
        }
      }
      if forall j :: (if first then 1 else 0) <= j < |cs| ==> nodes[cs[j]].typ != Void {
        forall j | 0 <= j < |cs| - 1 ensures nodes[cs[1..][j]].typ != Void {
          assert cs[1..][j] == cs[j + 1];
        }
      }
    }
  }

  /** The parameter loop reports position `j` of the chain `cs`: a Void parameter, except in
      first position. */
  predicate VoidAt(nodes: seq<Node>, cs: seq<int>, first: bool, j: int)
    requires forall k :: 0 <= k < |cs| ==> 0 <= cs[k] < |nodes|
    requires 0 <= j < |cs|
  {
    !(first && j == 0) && nodes[cs[j]].typ == Void
  }

  /** The positions from `i` on that the parameter loop reports. */
  function VoidMarked(nodes: seq<Node>, cs: seq<int>, first: bool, i: nat): (js: seq<nat>)
    requires forall k :: 0 <= k < |cs| ==> 0 <= cs[k] < |nodes|
    ensures forall k :: 0 <= k < |js| ==> i <= js[k] < |cs| && VoidAt(nodes, cs, first, js[k])
    decreases |cs| - i
  {
    if i >= |cs| then [] else (if VoidAt(nodes, cs, first, i) then [i] else []) + VoidMarked(nodes, cs, first, i + 1)
  }

  /** VoidMarked lists every reported position from `i` on, each once, in increasing order. */
  lemma {:induction false} VoidMarkedMeaning(nodes: seq<Node>, cs: seq<int>, first: bool, i: nat)
    requires forall k :: 0 <= k < |cs| ==> 0 <= cs[k] < |nodes|
    ensures var js := VoidMarked(nodes, cs, first, i);
      && Increasing(js)
      && (forall j :: i <= j < |cs| ==> (VoidAt(nodes, cs, first, j) <==> j in js))
  {
    VoidMarkedSorted(nodes, cs, first, i);
    VoidMarkedHas(nodes, cs, first, i);
  }

  /** The positions VoidMarked lists increase strictly. */
  lemma {:induction false} VoidMarkedSorted(nodes: seq<Node>, cs: seq<int>, first: bool, i: nat)
    requires forall k :: 0 <= k < |cs| ==> 0 <= cs[k] < |nodes|
    ensures Increasing(VoidMarked(nodes, cs, first, i))
    decreases |cs| - i
  {
    if i < |cs| {
      VoidMarkedSorted(nodes, cs, first, i + 1);
      var rest := VoidMarked(nodes, cs, first, i + 1);
      PrependSorted(i, VoidAt(nodes, cs, first, i), rest);
      assert VoidMarked(nodes, cs, first, i) == (if VoidAt(nodes, cs, first, i) then [i] else []) + rest;
    }
  }

  /** VoidMarked lists exactly the reported positions from `i` on. */
  lemma {:induction false} VoidMarkedHas(nodes: seq<Node>, cs: seq<int>, first: bool, i: nat)
    requires forall k :: 0 <= k < |cs| ==> 0 <= cs[k] < |nodes|
    ensures forall j :: i <= j < |cs| ==> (VoidAt(nodes, cs, first, j) <==> j in VoidMarked(nodes, cs, first, i))
    decreases |cs| - i
  {
    if i < |cs| {
      VoidMarkedHas(nodes, cs, first, i + 1);
      var rest := VoidMarked(nodes, cs, first, i + 1);
      PrependHas(i, VoidAt(nodes, cs, first, i), rest);
      assert VoidMarked(nodes, cs, first, i) == (if VoidAt(nodes, cs, first, i) then [i] else []) + rest;
    }
  }

  /** Each position is smaller than the next. */
  predicate Increasing(js: seq<nat>) {
    forall k :: 0 <= k < |js| - 1 ==> js[k] < js[k + 1]
  }

  /** Putting a position in front of increasing later ones keeps them increasing. */
  lemma PrependSorted(i: nat, b: bool, rest: seq<nat>)
    requires forall k :: 0 <= k < |rest| ==> i < rest[k]
    requires Increasing(rest)
    ensures Increasing((if b then [i] else []) + rest)
  {
    var js := (if b then [i] else []) + rest;
    if b {
      forall k | 0 <= k < |js| - 1 ensures js[k] < js[k + 1] {
        if k > 0 {
          assert js[k] == rest[k - 1] && js[k + 1] == rest[k];
        } else {
          assert js[1] == rest[0];
        }
      }
    }
  }

  /** Putting a position in front of later ones adds only that position. */
  lemma PrependHas(i: nat, b: bool, rest: seq<nat>)
    requires forall k :: 0 <= k < |rest| ==> i < rest[k]
    ensures forall j :: j in (if b then [i] else []) + rest <==> (b && j == i) || j in rest
    ensures i !in rest
  {
  }

  /** The parameter reports at the positions `js` of the chain, in that order. */
  function VoidReports(nodes: seq<Node>, cs: seq<int>, js: seq<nat>): (d: seq<Diag>)
    requires forall k :: 0 <= k < |cs| ==> 0 <= cs[k] < |nodes|
    requires forall k :: 0 <= k < |js| ==> js[k] < |cs|
    ensures |d| == |js|
    ensures forall k :: 0 <= k < |d| ==> d[k] == Diag(nodes[cs[js[k]]].lineno, VoidParamMsg)
  {
    if js == [] then [] else [Diag(nodes[cs[js[0]]].lineno, VoidParamMsg)] + VoidReports(nodes, cs, js[1..])
  }

  /** The loop from position `i` of the chain reports the marked positions from `i` on. */
  lemma {:induction false} VoidFrom(nodes: seq<Node>, cs: seq<int>, first: bool, i: nat)
    requires forall k :: 0 <= k < |cs| ==> 0 <= cs[k] < |nodes|
    requires i <= |cs|
    ensures VoidParamDiags(nodes, cs[i..], first && i == 0) == VoidReports(nodes, cs, VoidMarked(nodes, cs, first, i))
    decreases |cs| - i
  {
    if i < |cs| {
      VoidShift(nodes, cs, first, i);
      VoidFrom(nodes, cs, first, i + 1);
      VoidReportsStep(nodes, cs, first, i);
    } else {
      assert cs[i..] == [];
    }
  }

  /** The reports at the marked positions from `i` on: the one at `i` when it is marked, then the rest. */
  lemma VoidReportsStep(nodes: seq<Node>, cs: seq<int>, first: bool, i: nat)
    requires forall k :: 0 <= k < |cs| ==> 0 <= cs[k] < |nodes|
    requires i < |cs|
    ensures VoidReports(nodes, cs, VoidMarked(nodes, cs, first, i)) ==
      (if VoidAt(nodes, cs, first, i) then [Diag(nodes[cs[i]].lineno, VoidParamMsg)] else []) +
      VoidReports(nodes, cs, VoidMarked(nodes, cs, first, i + 1))
  {
    var rj := VoidMarked(nodes, cs, first, i + 1);
    if VoidAt(nodes, cs, first, i) {
      assert ([i] + rj)[1..] == rj;
    }
  }

  /** The loop at position `i` of the chain: that parameter's report, then the rest. */
  lemma VoidShift(nodes: seq<Node>, cs: seq<int>, first: bool, i: nat)
    requires forall k :: 0 <= k < |cs| ==> 0 <= cs[k] < |nodes|
    requires i < |cs|
    ensures VoidParamDiags(nodes, cs[i..], first && i == 0) ==
      (if VoidAt(nodes, cs, first, i) then [Diag(nodes[cs[i]].lineno, VoidParamMsg)] else []) +
      VoidParamDiags(nodes, cs[i + 1..], false)
  {
    assert cs[i..][1..] == cs[i + 1..] && cs[i..][0] == cs[i];
  }

  // ---- The argument loop of a call ----

  /** The reports of the argument loop: each argument of `args` checked against the parameter at
      the same position of `params`, or reported as unknown once the parameters have run out. */
  function PairDiags(nodes: seq<Node>, args: seq<int>, params: seq<int>): (d: seq<Diag>)
    requires forall k :: 0 <= k < |args| ==> 0 <= args[k] < |nodes|
    requires forall k :: 0 <= k < |params| ==> 0 <= params[k] < |nodes|
    ensures |d| <= |args|
    ensures forall k :: 0 <= k < |d| ==>
      exists j :: 0 <= j < |args| && d[k].lineno == nodes[args[j]].lineno &&
        ArgCheck(nodes[args[j]], if j < |params| then Some(nodes[params[j]]) else None) == Some(d[k].msg)
  {
    if args == [] then []
    else
      var m := ArgCheck(nodes[args[0]], if params == [] then None else Some(nodes[params[0]]));
      var ps := if params == [] then [] else params[1..];
      var rest := PairDiags(nodes, args[1..], ps);
      PairShift(nodes, args, params, rest);
      (if m.Some? then [Diag(nodes[args[0]].lineno, m.value)] else []) + rest
  }

  /** The reports of the walk from the second argument on, indexed from the first. */
  lemma PairShift(nodes: seq<Node>, args: seq<int>, params: seq<int>, rest: seq<Diag>)
    requires args != []
    requires forall k :: 0 <= k < |args| ==> 0 <= args[k] < |nodes|
    requires forall k :: 0 <= k < |params| ==> 0 <= params[k] < |nodes|
    requires var ps := if params == [] then [] else params[1..];
      forall k :: 0 <= k < |rest| ==>
        exists j :: 0 <= j < |args| - 1 && rest[k].lineno == nodes[args[1..][j]].lineno &&
          ArgCheck(nodes[args[1..][j]], if j < |ps| then Some(nodes[ps[j]]) else None) == Some(rest[k].msg)
    ensures forall k :: 0 <= k < |rest| ==>
      exists j :: 1 <= j < |args| && rest[k].lineno == nodes[args[j]].lineno &&
        ArgCheck(nodes[args[j]], if j < |params| then Some(nodes[params[j]]) else None) == Some(rest[k].msg)
  {
    var ps := if params == [] then [] else params[1..];
    forall k | 0 <= k < |rest|
      ensures
        exists j :: 1 <= j < |args| && rest[k].lineno == nodes[args[j]].lineno &&
          ArgCheck(nodes[args[j]], if j < |params| then Some(nodes[params[j]]) else None) == Some(rest[k].msg)
    {
      var j :| 0 <= j < |args| - 1 && rest[k].lineno == nodes[args[1..][j]].lineno &&
        ArgCheck(nodes[args[1..][j]], if j < |ps| then Some(nodes[ps[j]]) else None) == Some(rest[k].msg);
      assert args[1..][j] == args[j + 1];
      assert j < |ps| ==> ps[j] == params[j + 1];
      assert (j < |ps|) == (j + 1 < |params|);
    }
  }

  /** The argument loop reports nothing exactly when there are no more arguments than parameters
      and every argument matches the parameter at its position; otherwise it files one report for
      each failing argument, in chain order, with the message ArgCheck gives it. */
  lemma PairDiagsExact(nodes: seq<Node>, args: seq<int>, params: seq<int>)
    requires forall k :: 0 <= k < |args| ==> 0 <= args[k] < |nodes|
    requires forall k :: 0 <= k < |params| ==> 0 <= params[k] < |nodes|
    ensures PairDiags(nodes, args, params) == [] <==>
      |args| <= |params| && forall j :: 0 <= j < |args| ==> ArgCheck(nodes[args[j]], Some(nodes[params[j]])).None?
    ensures |PairDiags(nodes, args, params)| <= |args|
    ensures PairDiags(nodes, args, params) == PairReports(nodes, args, params, PairMarked(nodes, args, params, 0))
    // the reported positions, increasing, are exactly the failing arguments, and report k is on
    // the line of the k-th of them with the message ArgCheck gives it
    ensures var d, js := PairDiags(nodes, args, params), PairMarked(nodes, args, params, 0);
      && Increasing(js)
      && (forall j :: 0 <= j < |args| ==> (ArgMsg(nodes, args, params, j).Some? <==> j in js))
      && |d| == |js|
      && (forall k :: 0 <= k < |d| ==> d[k] == Diag(nodes[args[js[k]]].lineno, ArgMsg(nodes, args, params, js[k]).value))
  {
    PairDiagsEmpty(nodes, args, params);
    PairFrom(nodes, args, params, 0);
    assert args[0..] == args && Drop(params, 0) == params;
    PairMarkedMeaning(nodes, args, params, 0);
  }

  /** The argument loop reports nothing exactly when every argument has a matching parameter. */
  lemma {:induction false} PairDiagsEmpty(nodes: seq<Node>, args: seq<int>, params: seq<int>)
    requires forall k :: 0 <= k < |args| ==> 0 <= args[k] < |nodes|
    requires forall k :: 0 <= k < |params| ==> 0 <= params[k] < |nodes|
    ensures PairDiags(nodes, args, params) == [] <==>
      |args| <= |params| && forall j :: 0 <= j < |args| ==> ArgCheck(nodes[args[j]], Some(nodes[params[j]])).None?
  {
    if args != [] {
      var ps := if params == [] then [] else params[1..];
      PairDiagsEmpty(nodes, args[1..], ps);
      if params != [] {
        var m := ArgCheck(nodes[args[0]], Some(nodes[params[0]]));
        if PairDiags(nodes, args, params) == [] {
          forall j | 0 <= j < |args| ensures ArgCheck(nodes[args[j]], Some(nodes[params[j]])).None? {
            if j > 0 {
              assert args[1..][j - 1] == args[j] && ps[j - 1] == params[j];
            }
          }
        }
        if |args| <= |params| && forall j :: 0 <= j < |args| ==> ArgCheck(nodes[args[j]], Some(nodes[params[j]])).None? {
          forall j | 0 <= j < |args| - 1 ensures ArgCheck(nodes[args[1..][j]], Some(nodes[ps[j]])).None? {
            assert args[1..][j] == args[j + 1] && ps[j] == params[j + 1];
          }
        }
      }
    }
  }

  /** What ArgCheck says of argument `j` against the parameter at the same position, or against
      none once the parameters have run out. */
  function ArgMsg(nodes: seq<Node>, args: seq<int>, params: seq<int>, j: int): Option<string>
    requires forall k :: 0 <= k < |args| ==> 0 <= args[k] < |nodes|
    requires forall k :: 0 <= k < |params| ==> 0 <= params[k] < |nodes|
    requires 0 <= j < |args|
  {
    ArgCheck(nodes[args[j]], if j < |params| then Some(nodes[params[j]]) else None)
  }

  /** The positions from `i` on of the arguments the argument loop reports. */
  function PairMarked(nodes: seq<Node>, args: seq<int>, params: seq<int>, i: nat): (js: seq<nat>)
    requires forall k :: 0 <= k < |args| ==> 0 <= args[k] < |nodes|
    requires forall k :: 0 <= k < |params| ==> 0 <= params[k] < |nodes|
    ensures forall k :: 0 <= k < |js| ==> i <= js[k] < |args| && ArgMsg(nodes, args, params, js[k]).Some?
    decreases |args| - i
  {
    if i >= |args| then []
    else (if ArgMsg(nodes, args, params, i).Some? then [i] else []) + PairMarked(nodes, args, params, i + 1)
  }

  /** PairMarked lists every failing argument from `i` on, each once, in increasing order. */
  lemma {:induction false} PairMarkedMeaning(nodes: seq<Node>, args: seq<int>, params: seq<int>, i: nat)
    requires forall k :: 0 <= k < |args| ==> 0 <= args[k] < |nodes|
    requires forall k :: 0 <= k < |params| ==> 0 <= params[k] < |nodes|
    ensures var js := PairMarked(nodes, args, params, i);
      && Increasing(js)
      && (forall j :: i <= j < |args| ==> (ArgMsg(nodes, args, params, j).Some? <==> j in js))
  {
    PairMarkedSorted(nodes, args, params, i);
    PairMarkedHas(nodes, args, params, i);
  }

  /** The positions PairMarked lists increase strictly. */
  lemma {:induction false} PairMarkedSorted(nodes: seq<Node>, args: seq<int>, params: seq<int>, i: nat)
    requires forall k :: 0 <= k < |args| ==> 0 <= args[k] < |nodes|
    requires forall k :: 0 <= k < |params| ==> 0 <= params[k] < |nodes|
    ensures Increasing(PairMarked(nodes, args, params, i))
    decreases |args| - i
  {
    if i < |args| {
      PairMarkedSorted(nodes, args, params, i + 1);
      var rest := PairMarked(nodes, args, params, i + 1);
      PrependSorted(i, ArgMsg(nodes, args, params, i).Some?, rest);
      assert PairMarked(nodes, args, params, i) == (if ArgMsg(nodes, args, params, i).Some? then [i] else []) + rest;
    }
  }

  /** PairMarked lists exactly the failing arguments from `i` on. */
  lemma {:induction false} PairMarkedHas(nodes: seq<Node>, args: seq<int>, params: seq<int>, i: nat)
    requires forall k :: 0 <= k < |args| ==> 0 <= args[k] < |nodes|
    requires forall k :: 0 <= k < |params| ==> 0 <= params[k] < |nodes|
    ensures forall j :: i <= j < |args| ==> (ArgMsg(nodes, args, params, j).Some? <==> j in PairMarked(nodes, args, params, i))
    decreases |args| - i
  {
    if i < |args| {
      PairMarkedHas(nodes, args, params, i + 1);
      var rest := PairMarked(nodes, args, params, i + 1);
      PrependHas(i, ArgMsg(nodes, args, params, i).Some?, rest);
      assert PairMarked(nodes, args, params, i) == (if ArgMsg(nodes, args, params, i).Some? then [i] else []) + rest;
    }
  }


  /** The parameters from position `i` on; none once they have run out. */
  function Drop(params: seq<int>, i: nat): seq<int> {
    if i < |params| then params[i..] else []
  }

  /** The argument reports at the positions `js` of the chain, in that order, each with the
      message ArgCheck gives. */
  function PairReports(nodes: seq<Node>, args: seq<int>, params: seq<int>, js: seq<nat>): (d: seq<Diag>)
    requires forall k :: 0 <= k < |args| ==> 0 <= args[k] < |nodes|
    requires forall k :: 0 <= k < |params| ==> 0 <= params[k] < |nodes|
    requires forall k :: 0 <= k < |js| ==> js[k] < |args| && ArgMsg(nodes, args, params, js[k]).Some?
    ensures |d| == |js|
    ensures forall k :: 0 <= k < |d| ==>
      d[k] == Diag(nodes[args[js[k]]].lineno, ArgMsg(nodes, args, params, js[k]).value)
  {
    if js == [] then []
    else [Diag(nodes[args[js[0]]].lineno, ArgMsg(nodes, args, params, js[0]).value)] + PairReports(nodes, args, params, js[1..])
  }

  /** The loop from position `i` of both chains reports the failing arguments from `i` on. */
  lemma {:induction false} PairFrom(nodes: seq<Node>, args: seq<int>, params: seq<int>, i: nat)
    requires forall k :: 0 <= k < |args| ==> 0 <= args[k] < |nodes|
    requires forall k :: 0 <= k < |params| ==> 0 <= params[k] < |nodes|
    requires i <= |args|
    ensures PairDiags(nodes, args[i..], Drop(params, i)) == PairReports(nodes, args, params, PairMarked(nodes, args, params, i))
    decreases |args| - i
  {
    if i < |args| {
      PairShift2(nodes, args, params, i);
      PairFrom(nodes, args, params, i + 1);
      PairReportsStep(nodes, args, params, i);
    } else {
      assert args[i..] == [];
    }
  }

  /** The reports at the failing positions from `i` on: the one at `i` when it fails, then the rest. */
  lemma PairReportsStep(nodes: seq<Node>, args: seq<int>, params: seq<int>, i: nat)
    requires forall k :: 0 <= k < |args| ==> 0 <= args[k] < |nodes|
    requires forall k :: 0 <= k < |params| ==> 0 <= params[k] < |nodes|
    requires i < |args|
    ensures var m := ArgMsg(nodes, args, params, i);
      PairReports(nodes, args, params, PairMarked(nodes, args, params, i)) ==
        (if m.Some? then [Diag(nodes[args[i]].lineno, m.value)] else []) +
        PairReports(nodes, args, params, PairMarked(nodes, args, params, i + 1))
  {
    var rj := PairMarked(nodes, args, params, i + 1);
    if ArgMsg(nodes, args, params, i).Some? {
      assert ([i] + rj)[1..] == rj;
    }
  }

  /** The loop at position `i` of both chains: that argument's report, then the rest. */
  lemma PairShift2(nodes: seq<Node>, args: seq<int>, params: seq<int>, i: nat)
    requires forall k :: 0 <= k < |args| ==> 0 <= args[k] < |nodes|
    requires forall k :: 0 <= k < |params| ==> 0 <= params[k] < |nodes|
    requires i < |args|
    ensures var m := ArgMsg(nodes, args, params, i);
      PairDiags(nodes, args[i..], Drop(params, i)) ==
        (if m.Some? then [Diag(nodes[args[i]].lineno, m.value)] else []) +
        PairDiags(nodes, args[i + 1..], Drop(params, i + 1))
  {
    var ps := Drop(params, i);
    assert args[i..][1..] == args[i + 1..] && args[i..][0] == args[i];
    assert (if ps == [] then [] else ps[1..]) == Drop(params, i + 1);
    assert ps != [] ==> ps[0] == params[i];
  }

  /** The report for one argument against the parameter at `p` (Null when the chain ran out). */
  function ArgDiag(nodes: seq<Node>, s: int, p: int): seq<Diag>
    requires 0 <= s < |nodes| && IsRef(|nodes|, p)
  {
    var m := ArgCheck(nodes[s], if p == Null then None else Some(nodes[p]));
    if m.Some? then [Diag(nodes[s].lineno, m.value)] else []
  }

  /** One turn of the argument loop: the report for the first argument, then the rest of both chains. */
  lemma PairStep(nodes: seq<Node>, sk: seq<Skel>, done: seq<Diag>, s: int, p: int)
    requires |sk| == |nodes| && Linked(sk) && 0 <= s < |sk| && IsRef(|sk|, p)
    ensures done + PairDiags(nodes, Chain(sk, s), Chain(sk, p)) ==
      (done + ArgDiag(nodes, s, p)) + PairDiags(nodes, Chain(sk, sk[s].sibling), Chain(sk, if p == Null then Null else sk[p].sibling))
  {
    var p' := if p == Null then Null else sk[p].sibling;
    PairUnfold(nodes, sk, s, p);
    Regroup(done, ArgDiag(nodes, s, p), PairDiags(nodes, Chain(sk, sk[s].sibling), Chain(sk, p')));
  }

  lemma PairUnfold(nodes: seq<Node>, sk: seq<Skel>, s: int, p: int)
    requires |sk| == |nodes| && Linked(sk) && 0 <= s < |sk| && IsRef(|sk|, p)
    ensures PairDiags(nodes, Chain(sk, s), Chain(sk, p)) ==
      ArgDiag(nodes, s, p) + PairDiags(nodes, Chain(sk, sk[s].sibling), Chain(sk, if p == Null then Null else sk[p].sibling))
  {
    var args := Chain(sk, s);
    assert args == [s] + Chain(sk, sk[s].sibling) && args[1..] == Chain(sk, sk[s].sibling);
    if p != Null {
      var params := Chain(sk, p);
      assert params == [p] + Chain(sk, sk[p].sibling) && params[1..] == Chain(sk, sk[p].sibling);
    }
  }

  // Regroups a concatenation of reports so that it matches the grouping of a callee's ensures.
  lemma Regroup(a: seq<Diag>, b: seq<Diag>, c: seq<Diag>)
    ensures (a + b) + c == a + (b + c)
  {
  }

  // States prefix transitivity once, to match the chained "reports only grow" ensures.
  lemma PrefixTrans(a: seq<Diag>, b: seq<Diag>, c: seq<Diag>)
    requires a <= b && b <= c
    ensures a <= c
  {
    assert c[..|a|] == b[..|a|];
  }

  /** Where the argument loop starts on the callee's side: the parameter child of the declaring node,
      or that node itself when it has none. */
  function FirstParam(nodes: seq<Node>, tn: int): int
    requires 0 <= tn < |nodes| && |nodes[tn].child| == 3
  {
    if nodes[tn].child[1] != Null then nodes[tn].child[1] else tn
  }

  /** The reports of the CallK check at `t`, given the symbol st_type_lookup returns for its name. */
  function CallDiags(nodes: seq<Node>, t: int, callee: Option<Entry>): (d: seq<Diag>)
    requires Linked(Skeleton(nodes)) && 0 <= t < |nodes|
    requires callee.Some? ==> 0 <= callee.value.tnode < |nodes|
    ensures var args := Chain(Skeleton(nodes), nodes[t].child[0]);
      && (|d| <= 1 || |d| <= |args|)
      && forall k :: 0 <= k < |d| ==>
           d[k].lineno == nodes[t].lineno || exists j :: 0 <= j < |args| && d[k].lineno == nodes[args[j]].lineno
  {
    var sk := Skeleton(nodes);
    assert sk[t] == SkelOf(nodes[t]);
    var args := Chain(sk, nodes[t].child[0]);
    match CallHead(callee, |args|)
    case CallReport(msg) => [Diag(nodes[t].lineno, msg)]
    case CallFine => []
    case CompareArgs =>
      var tn := callee.value.tnode;
      assert sk[tn] == SkelOf(nodes[tn]);
      PairDiags(nodes, args, Chain(sk, FirstParam(nodes, tn)))
  }

  /** A call is accepted without a report exactly when its callee is a known function whose parameter
      count is the number of arguments and, when there are arguments, every one of them matches
      the parameter at its position. */
  lemma CallDiagsExact(nodes: seq<Node>, t: int, callee: Option<Entry>)
    requires Linked(Skeleton(nodes)) && 0 <= t < |nodes|
    requires callee.Some? ==> 0 <= callee.value.tnode < |nodes|
    ensures var sk := Skeleton(nodes);
      var args := Chain(sk, nodes[t].child[0]);
      CallDiags(nodes, t, callee) == [] <==>
        && callee.Some? && callee.value.paramnum == |args|
        && (args != [] ==>
              var params := Chain(sk, FirstParam(nodes, callee.value.tnode));
              |args| <= |params| && forall j :: 0 <= j < |args| ==> ArgCheck(nodes[args[j]], Some(nodes[params[j]])).None?)
  {
    var sk := Skeleton(nodes);
    assert sk[t] == SkelOf(nodes[t]);
    var args := Chain(sk, nodes[t].child[0]);
    if callee.Some? && callee.value.paramnum == |args| && args != [] {
      var tn := callee.value.tnode;
      assert sk[tn] == SkelOf(nodes[tn]);
      PairDiagsExact(nodes, args, Chain(sk, FirstParam(nodes, tn)));
    }
  }

  /** The whole report list of the CallK check: the one report CallHead names, nothing for a call
      without arguments that expects none, or one report per failing argument, in order. */
  lemma {:induction false} CallDiagsAll(nodes: seq<Node>, t: int, callee: Option<Entry>)
    requires Linked(Skeleton(nodes)) && 0 <= t < |nodes|
    requires callee.Some? ==> 0 <= callee.value.tnode < |nodes|
    ensures var sk := Skeleton(nodes);
      var args := Chain(sk, nodes[t].child[0]);
      var d := CallDiags(nodes, t, callee);
      match CallHead(callee, |args|)
      case CallReport(msg) => d == [Diag(nodes[t].lineno, msg)]
      case CallFine => d == []
      case CompareArgs =>
        var params := Chain(sk, FirstParam(nodes, callee.value.tnode));
        d == PairReports(nodes, args, params, PairMarked(nodes, args, params, 0))
  {
    var sk := Skeleton(nodes);
    assert sk[t] == SkelOf(nodes[t]);
    var args := Chain(sk, nodes[t].child[0]);
    if CallHead(callee, |args|) == CompareArgs {
      var tn := callee.value.tnode;
      assert sk[tn] == SkelOf(nodes[tn]);
      PairDiagsExact(nodes, args, Chain(sk, FirstParam(nodes, tn)));
    }
  }

  /** checkNode changes only the types and parameter counts of entries, so they keep their nodes. */
  lemma EntriesSign(tab: seq<seq<Entry>>, h: int, k: int, typ: ExpType, paramnum: int, n: int)
    requires EntriesIn(tab, n) && 0 <= h < |tab| && 0 <= k < |tab[h]|
    ensures EntriesIn(tab[h := tab[h][k := tab[h][k].(typ := typ, paramnum := paramnum)]], n)
  {
  }

  /** What checkNode may do to the nodes: write node `t`, keeping its name, and no other node. */
  predicate WritesOnly(before: seq<Node>, after: seq<Node>, t: int) {
    && |after| == |before| && 0 <= t < |before|
    && after[t].name == before[t].name
    && forall j :: 0 <= j < |before| && j != t ==> after[j] == before[j]
  }

  /** The tree after an outcome typed its node Integer, or as it was. */
  function Typed(nodes: seq<Node>, t: int, out: Outcome): (r: seq<Node>)
    requires 0 <= t < |nodes|
    ensures |r| == |nodes| && r[t].typ == (if out.typesInteger then Integer else nodes[t].typ)
    ensures forall j :: 0 <= j < |nodes| && j != t ==> r[j] == nodes[j]
  {
    if out.typesInteger then nodes[t := nodes[t].(typ := Integer)] else nodes
  }

  // ---- The analyzer's state and what each step does to it ----

  /** The state the analysis works on: the tree, the table's buckets, C's globals `depth` and
      `location`, and the records of every typeError call. */
  datatype State = State(nodes: seq<Node>, buckets: seq<seq<Entry>>, depth: int, location: int, diags: seq<Diag>)

  /** The tree has its links and the children the analyzer dereferences, and every entry of the
      table names one of its nodes. */
  ghost predicate Sound(s: State) {
    WellFormed(Skeleton(s.nodes)) && EntriesIn(s.buckets, |s.nodes|)
  }

  /** A hook can run at `t`: the state is sound, `t` is a node, and `hash` fits the table. */
  ghost predicate Ready(s: State, hash: string -> nat, t: int) {
    Sound(s) && 0 <= t < |s.nodes| && forall name :: hash(name) < |s.buckets|
  }

  /** varK: the declaration takes the type of its type child. */
  function VarEffect(s: State, t: int): State
    requires Sound(s) && 0 <= t < |s.nodes| && s.nodes[t].kind == Decl(VarK)
  {
    assert Skeleton(s.nodes)[t] == SkelOf(s.nodes[t]);
    var n := s.nodes[t];
    s.(nodes := s.nodes[t := n.(typ := s.nodes[n.child[0]].typ)])
  }

  /** paramK: a parameter whose array size is not -1 takes the type of its type child. */
  function ParamEffect(s: State, t: int): State
    requires Sound(s) && 0 <= t < |s.nodes| && s.nodes[t].kind == Decl(ParamK)
  {
    assert Skeleton(s.nodes)[t] == SkelOf(s.nodes[t]);
    var n := s.nodes[t];
    if n.arraySize != -1 && n.child[0] != Null then s.(nodes := s.nodes[t := n.(typ := s.nodes[n.child[0]].typ)])
    else s
  }

  /** funK: a misplaced `main` or one with a parameter is reported and nothing else happens;
      otherwise the declaration and the first entry with its name get the type of the type child
      and the length of the parameter chain, and every Void parameter after the first is reported. */
  function FunEffect(s: State, hash: string -> nat, t: int): State
    requires Ready(s, hash, t) && s.nodes[t].kind == Decl(FunK)
  {
    var sk := Skeleton(s.nodes);
    assert sk[t] == SkelOf(s.nodes[t]);
    var n := s.nodes[t];
    var params := Chain(sk, n.child[1]);
    var h := hash(n.name);
    var b := s.buckets[h];
    var k := FindName(b, n.name);
    var ty := s.nodes[n.child[0]].typ;
    match MainCheck(n.name, n.sibling != Null, s.nodes[n.child[1]].typ)
    case Some(msg) => s.(diags := s.diags + [Diag(n.lineno, msg)])
    case None =>
      s.(nodes := s.nodes[t := n.(typ := ty, paramnum := |params|)],
         buckets := if k < |b| then s.buckets[h := b[k := b[k].(typ := ty, paramnum := |params|)]] else s.buckets,
         diags := s.diags + VoidParamDiags(s.nodes, params, true))
  }

  /** IdK: nothing happens for a name the table does not know; otherwise IdCheck decides, over the
      node's array size, its symbol's and its subscript child. */
  function IdEffect(s: State, hash: string -> nat, t: int): State
    requires Ready(s, hash, t) && s.nodes[t].kind == Exp(IdK)
  {
    assert Skeleton(s.nodes)[t] == SkelOf(s.nodes[t]);
    var n := s.nodes[t];
    var sub := if n.child[0] == Null then None else Some(s.nodes[n.child[0]]);
    match TypeLookupIn(s.buckets[hash(n.name)], n.name)
    case None => s
    case Some(l) =>
      match IdCheck(n.arraySize, l.arraySize, sub)
      case Adopt(size) => s.(nodes := s.nodes[t := n.(arraySize := size)])
      case Complain(msg) => s.(diags := s.diags + [Diag(n.lineno, msg)])
      case SetIndex(v) => s.(nodes := s.nodes[t := n.(idx := v)])
      case Leave => s
  }

  /** CalcK: non-Integer operands are reported at the node; Integer operands make it Integer and
      fold the operator into its value. The operator child is read only then; without one the
      dereference is undefined and the model changes nothing. */
  function CalcEffect(s: State, t: int): State
    requires Sound(s) && 0 <= t < |s.nodes| && s.nodes[t].kind == Exp(CalcK)
  {
    assert Skeleton(s.nodes)[t] == SkelOf(s.nodes[t]);
    var n := s.nodes[t];
    var a, b := s.nodes[n.child[0]], s.nodes[n.child[2]];
    var out := CalcOutcome(a.typ, b.typ);
    if out.report.Some? then s.(diags := s.diags + [Diag(n.lineno, out.report.value.msg)])
    else if n.child[1] == Null then s
    else
      var f := Fold(s.nodes[n.child[1]].op, a.val, b.val);
      s.(nodes := s.nodes[t := n.(typ := Integer, val := if f.Some? then f.value else n.val)])
  }

  /** A statement check's outcome applied: its report filed, and the node typed Integer when it says so. */
  function OutcomeEffect(s: State, t: int, out: Outcome): State
    requires Sound(s) && 0 <= t < |s.nodes| && Fileable(s.nodes, t, out.report)
  {
    s.(nodes := Typed(s.nodes, t, out), diags := s.diags + ReportDiags(s.nodes, t, out.report))
  }

  /** IfK: the IfOutcome of the condition child. */
  function IfEffect(s: State, t: int): State
    requires Sound(s) && 0 <= t < |s.nodes| && s.nodes[t].kind == Stmt(IfK)
  {
    assert Skeleton(s.nodes)[t] == SkelOf(s.nodes[t]);
    OutcomeEffect(s, t, IfOutcome(s.nodes[s.nodes[t].child[0]]))
  }

  /** WhileK: the WhileOutcome of the condition child. The body is read only to file the report;
      without a body that dereference is undefined and the model changes nothing. */
  function WhileEffect(s: State, t: int): State
    requires Sound(s) && 0 <= t < |s.nodes| && s.nodes[t].kind == Stmt(WhileK)
  {
    assert Skeleton(s.nodes)[t] == SkelOf(s.nodes[t]);
    var out := WhileOutcome(s.nodes[s.nodes[t].child[0]]);
    if out.report.Some? && s.nodes[t].child[1] == Null then s
    else OutcomeEffect(s, t, out)
  }

  /** AssignK: the AssignOutcome of the symbols of both sides; a constant right side is not looked up. */
  function AssignEffect(s: State, hash: string -> nat, t: int): State
    requires Ready(s, hash, t) && s.nodes[t].kind == Stmt(AssignK)
  {
    assert Skeleton(s.nodes)[t] == SkelOf(s.nodes[t]);
    var n := s.nodes[t];
    var lhs, rhs := s.nodes[n.child[0]], s.nodes[n.child[1]];
    var l := TypeLookupIn(s.buckets[hash(lhs.name)], lhs.name);
    var r := if rhs.kind != Exp(ConstK) then TypeLookupIn(s.buckets[hash(rhs.name)], rhs.name) else None;
    OutcomeEffect(s, t, AssignOutcome(l, r, lhs, rhs))
  }

  /** ReturnK: the ReturnOutcome of the returned value and, for a returned call, its callee's symbol. */
  function ReturnEffect(s: State, hash: string -> nat, t: int): State
    requires Ready(s, hash, t) && s.nodes[t].kind == Stmt(ReturnK)
  {
    assert Skeleton(s.nodes)[t] == SkelOf(s.nodes[t]);
    var n := s.nodes[t];
    var value := if n.child[0] == Null then None else Some(s.nodes[n.child[0]]);
    var callee := if value.Some? && value.value.kind == Stmt(CallK)
                  then TypeLookupIn(s.buckets[hash(value.value.name)], value.value.name) else None;
    OutcomeEffect(s, t, ReturnOutcome(value, callee))
  }

  /** CallK: the CallDiags of the callee's symbol are reported; nothing else changes. */
  function CallEffect(s: State, hash: string -> nat, t: int): State
    requires Ready(s, hash, t) && s.nodes[t].kind == Stmt(CallK)
  {
    var n := s.nodes[t];
    s.(diags := s.diags + CallDiags(s.nodes, t, TypeLookupIn(s.buckets[hash(n.name)], n.name)))
  }

  /** checkNode: the check of the node's kind; blocks and the other expressions are not checked. */
  function CheckEffect(s: State, hash: string -> nat, t: int): State
    requires Ready(s, hash, t)
  {
    match s.nodes[t].kind
    case Decl(VarK) => VarEffect(s, t)
    case Decl(FunK) => FunEffect(s, hash, t)
    case Decl(ParamK) => ParamEffect(s, t)
    case Exp(IdK) => IdEffect(s, hash, t)
    case Exp(CalcK) => CalcEffect(s, t)
    case Exp(_) => s
    case Stmt(IfK) => IfEffect(s, t)
    case Stmt(WhileK) => WhileEffect(s, t)
    case Stmt(AssignK) => AssignEffect(s, hash, t)
    case Stmt(ReturnK) => ReturnEffect(s, hash, t)
    case Stmt(CallK) => CallEffect(s, hash, t)
    case Stmt(CompoundK) => s
  }

  /** checkNode keeps `depth`, `location` and the number of buckets, only appends reports, and
      writes no node but `t`, whose name it keeps. */
  lemma CheckFrame(s: State, hash: string -> nat, t: int)
    requires Ready(s, hash, t)
    ensures var r := CheckEffect(s, hash, t);
      && r.depth == s.depth && r.location == s.location && |r.buckets| == |s.buckets|
      && s.diags <= r.diags && WritesOnly(s.nodes, r.nodes, t)
  {
    match s.nodes[t].kind
    case Decl(_) => DeclFrame(s, hash, t);
    case Exp(_) =>
    case Stmt(_) => StmtFrame(s, hash, t);
  }

  lemma DeclFrame(s: State, hash: string -> nat, t: int)
    requires Ready(s, hash, t) && s.nodes[t].kind.Decl?
    ensures var r := CheckEffect(s, hash, t);
      && r.depth == s.depth && r.location == s.location && |r.buckets| == |s.buckets|
      && s.diags <= r.diags && WritesOnly(s.nodes, r.nodes, t)
  {
  }

  lemma StmtFrame(s: State, hash: string -> nat, t: int)
    requires Ready(s, hash, t) && s.nodes[t].kind.Stmt?
    ensures var r := CheckEffect(s, hash, t);
      && r.depth == s.depth && r.location == s.location && |r.buckets| == |s.buckets|
      && s.diags <= r.diags && WritesOnly(s.nodes, r.nodes, t)
  {
  }

  /** insertNode keeps `depth` and the reports. */
  lemma InsertFrame(s: State, hash: string -> nat, t: int)
    requires Ready(s, hash, t)
    ensures var r := InsertEffect(s, hash, t);
      r.depth == s.depth && r.diags == s.diags
  {
  }

  /** insertNode: an identifier use whose name st_lookup finds goes through st_insert (with
      location 0); a declaration with a non-negative array size goes through st_insert at
      `location`, which then goes up by one, unless st_advanced_lookup finds its name or its
      scope, and then `location` goes down by one; nothing else changes. */
  function InsertEffect(s: State, hash: string -> nat, t: int): State
    requires Ready(s, hash, t)
  {
    assert Skeleton(s.nodes)[t] == SkelOf(s.nodes[t]);
    var n := s.nodes[t];
    var h := hash(n.name);
    var b := s.buckets[h];
    if n.kind == Exp(IdK) then
      if LookupIn(b, n.name) == -1 then s
      else s.(buckets := s.buckets[h := InsertBucket(b, n.name, n.scope, NewEntry(s.nodes, t, 0), n.lineno)])
    else if n.kind.Decl? && n.arraySize >= 0 then
      if AdvancedLookupIn(b, n.name, n.scope) == -1 then
        s.(nodes := if FindNameOrScope(b, n.name, n.scope) == |b| then NamedReturns(s.nodes, t) else s.nodes,
           buckets := s.buckets[h := InsertBucket(b, n.name, n.scope, NewEntry(s.nodes, t, s.location), n.lineno)],
           location := s.location + 1)
      else s.(location := s.location - 1)
    else s
  }

  /** deleteProc, and nullProc, whose body is the same: retreating to a node shallower than
      `depth` strips every bucket of its entries deeper than the node's scope, and `depth` drops
      to that scope; otherwise nothing changes. */
  function DeleteEffect(s: State, t: int): State
    requires 0 <= t < |s.nodes|
  {
    var sc := s.nodes[t].scope;
    if sc < s.depth then s.(buckets := StripAll(s.buckets, sc, |s.buckets|), depth := sc) else s
  }

  /** traverse's first statement: `depth` rises to the node's scope when that is deeper. */
  function Raise(s: State, t: int): State
    requires 0 <= t < |s.nodes|
  {
    if s.nodes[t].scope > s.depth then s.(depth := s.nodes[t].scope) else s
  }

  /** The write `x->scope = from->scope + bump`. */
  function ScopeEffect(s: State, x: int, from: int, bump: int): State
    requires 0 <= x < |s.nodes| && 0 <= from < |s.nodes|
  {
    s.(nodes := s.nodes[x := s.nodes[x].(scope := s.nodes[from].scope + bump)])
  }

  /** The hook a visitor stands for. */
  function Hook(s: State, hash: string -> nat, v: Visitor, t: int): State
    requires Ready(s, hash, t)
  {
    match v
    case Binder => InsertEffect(s, hash, t)
    case Checker => CheckEffect(s, hash, t)
    case NullVisit => DeleteEffect(s, t)
  }

  /** One step of a walk with hooks `pre` and `post`; a step at a node that is not there, or in a
      state that is not sound, changes nothing. */
  ghost function Step(s: State, hash: string -> nat, pre: Visitor, post: Visitor, e: Event): State {
    match e
    case Pre(t) => if Ready(s, hash, t) then Hook(Raise(s, t), hash, pre, t) else s
    case Retreat(t) => if 0 <= t < |s.nodes| then DeleteEffect(s, t) else s
    case Post(t) => if Ready(s, hash, t) then Hook(s, hash, post, t) else s
    case Scope(x, from, bump) => if 0 <= x < |s.nodes| && 0 <= from < |s.nodes| then ScopeEffect(s, x, from, bump) else s
  }

  /** The state the steps `es` leave, taken in order from `s`. */
  ghost function Run(s: State, hash: string -> nat, pre: Visitor, post: Visitor, es: seq<Event>): State
    decreases |es|
  {
    if es == [] then s else Run(Step(s, hash, pre, post, es[0]), hash, pre, post, es[1..])
  }

  /** Running two traces one after the other is running their concatenation. */
  lemma {:induction false} RunAppend(s: State, hash: string -> nat, pre: Visitor, post: Visitor, a: seq<Event>, b: seq<Event>)
    ensures Run(s, hash, pre, post, a + b) == Run(Run(s, hash, pre, post, a), hash, pre, post, b)
    decreases |a|
  {
    if a != [] {
      assert (a + b)[0] == a[0] && (a + b)[1..] == a[1..] + b;
      RunAppend(Step(s, hash, pre, post, a[0]), hash, pre, post, a[1..], b);
    } else {
      assert a + b == b;
    }
  }

  /** Running `[e] + es` is one step, then the rest. */
  lemma RunCons(s: State, hash: string -> nat, pre: Visitor, post: Visitor, e: Event, es: seq<Event>)
    ensures Run(s, hash, pre, post, [e] + es) == Run(Step(s, hash, pre, post, e), hash, pre, post, es)
  {
    assert ([e] + es)[0] == e && ([e] + es)[1..] == es;
  }

  lemma RunOne(s: State, hash: string -> nat, pre: Visitor, post: Visitor, e: Event)
    ensures Run(s, hash, pre, post, [e]) == Step(s, hash, pre, post, e)
  {
    assert [e][1..] == [];
  }

  /** traverse(t) in three parts: the pre-order step, the child loop, and the rest. */
  lemma RunWalk(s: State, hash: string -> nat, pre: Visitor, post: Visitor, e: Event, kids: seq<Event>, rest: seq<Event>)
    ensures Run(s, hash, pre, post, [e] + kids + rest) ==
      Run(Run(Step(s, hash, pre, post, e), hash, pre, post, kids), hash, pre, post, rest)
  {
    RunAppend(s, hash, pre, post, [e] + kids, rest);
    RunCons(s, hash, pre, post, e, kids);
  }

  /** The end of traverse(t): deleteProc, then postProc, then the sibling's steps. */
  lemma RunFinish(s: State, hash: string -> nat, pre: Visitor, post: Visitor, t: int, rest: seq<Event>)
    ensures Run(s, hash, pre, post, [Retreat(t), Post(t)] + rest) ==
      Run(Step(Step(s, hash, pre, post, Retreat(t)), hash, pre, post, Post(t)), hash, pre, post, rest)
  {
    assert [Retreat(t), Post(t)] + rest == [Retreat(t)] + ([Post(t)] + rest);
    RunCons(s, hash, pre, post, Retreat(t), [Post(t)] + rest);
    RunCons(Step(s, hash, pre, post, Retreat(t)), hash, pre, post, Post(t), rest);
  }
}
