/** The syntax tree the analyzer decorates, held in an arena.
    Nodes are records in an array and refer to each other by index; `Null` (-1) is the empty
    reference. A link always points to a larger index, which ranks the tree for termination. */
module Tree {

  datatype ExpType = Void | Integer

  datatype DeclKind = VarK | FunK | ParamK
  datatype StmtKind = CompoundK | IfK | WhileK | AssignK | ReturnK | CallK
  datatype ExpKind = OpK | ConstK | IdK | TypeK | CalcK

  /** The node kind together with its subkind (C's `nodekind` plus the `kind` union). */
  datatype Kind = Decl(decl: DeclKind) | Stmt(stmt: StmtKind) | Exp(exp: ExpKind)

  /** Operator tokens; `OtherOp` stands for every token the folder does not evaluate. */
  datatype Op = Plus | Minus | Mul | Div | Leq | Les | Big | Beq | Eq | Neq | OtherOp

  const Null: int := -1

  datatype Option<T> = None | Some(value: T)

  /** One tree node. The `attr` union of the C record is split into the plain fields
      `name`, `val`, `op` and `idx`. `child` has the three slots of MAXCHILDREN. */
  datatype Node = Node(
    kind: Kind,
    child: seq<int>,
    sibling: int,
    lineno: int,
    scope: int,
    typ: ExpType,
    arraySize: int,
    paramnum: int,
    name: string,
    val: int,
    op: Op,
    idx: int)

  /** The part of a node the analyzer never writes: its kind and its links. */
  datatype Skel = Skel(kind: Kind, child: seq<int>, sibling: int)

  function SkelOf(n: Node): Skel {
    Skel(n.kind, n.child, n.sibling)
  }

  function Skeleton(nodes: seq<Node>): (sk: seq<Skel>)
    ensures |sk| == |nodes|
    ensures forall i :: 0 <= i < |nodes| ==> sk[i] == SkelOf(nodes[i])
  {
    seq(|nodes|, i requires 0 <= i < |nodes| => SkelOf(nodes[i]))
  }

  function ScopesOf(nodes: seq<Node>): (sc: seq<int>)
    ensures |sc| == |nodes|
    ensures forall i :: 0 <= i < |nodes| ==> sc[i] == nodes[i].scope
  {
    seq(|nodes|, i requires 0 <= i < |nodes| => nodes[i].scope)
  }

  /** Writing a node whose kind and links are unchanged keeps the skeleton. */
  lemma SkeletonUpdate(nodes: seq<Node>, j: int, n: Node)
    requires 0 <= j < |nodes| && SkelOf(n) == SkelOf(nodes[j])
    ensures Skeleton(nodes[j := n]) == Skeleton(nodes)
  {
    assert forall i :: 0 <= i < |nodes| ==> Skeleton(nodes[j := n])[i] == Skeleton(nodes)[i];
  }

  /** Writing a node whose scope is unchanged keeps the scope projection. */
  lemma ScopesUpdate(nodes: seq<Node>, j: int, n: Node)
    requires 0 <= j < |nodes| && n.scope == nodes[j].scope
    ensures ScopesOf(nodes[j := n]) == ScopesOf(nodes)
  {
    assert forall i :: 0 <= i < |nodes| ==> ScopesOf(nodes[j := n])[i] == ScopesOf(nodes)[i];
  }

  /** A reference is either Null or the index of a node. */
  predicate IsRef(n: int, x: int) {
    x == Null || 0 <= x < n
  }

  /** Every node has three child slots, and every link points forward in the arena. */
  predicate Linked(sk: seq<Skel>) {
    forall i :: 0 <= i < |sk| ==>
      && |sk[i].child| == 3
      && (forall k :: 0 <= k < 3 ==> sk[i].child[k] == Null || i < sk[i].child[k] < |sk|)
      && (sk[i].sibling == Null || i < sk[i].sibling < |sk|)
  }

  /** True when the child is present. */
  predicate Has(sk: seq<Skel>, i: int, k: int)
    requires 0 <= i < |sk| && 0 <= k < |sk[i].child|
  {
    sk[i].child[k] != Null
  }

  /** The children the analyzer dereferences without testing them for NULL. */
  predicate Shaped(sk: seq<Skel>)
    requires Linked(sk)
  {
    forall i :: 0 <= i < |sk| ==>
      match sk[i].kind
      case Decl(d) => d != ParamK ==> Has(sk, i, 0) && (d == FunK ==> Has(sk, i, 1))
      case Exp(e) => e == CalcK ==> Has(sk, i, 0) && Has(sk, i, 2)
      case Stmt(s) =>
        && (s == AssignK ==> Has(sk, i, 0) && Has(sk, i, 1))
        && (s == IfK ==> Has(sk, i, 0))
        && (s == WhileK ==> Has(sk, i, 0))
  }

  predicate WellFormed(sk: seq<Skel>) {
    Linked(sk) && Shaped(sk)
  }

  /** The sibling chain that starts at `x`, in order. */
  function Chain(sk: seq<Skel>, x: int): (c: seq<int>)
    requires Linked(sk) && IsRef(|sk|, x)
    ensures x == Null <==> c == []
    ensures c != [] ==> c[0] == x
    ensures forall k :: 0 <= k < |c| ==> 0 <= c[k] < |sk|
    decreases if x == Null then 0 else |sk| - x
  {
    if x == Null then [] else [x] + Chain(sk, sk[x].sibling)
  }

  /** A chain that starts after `x` does not contain `x`. */
  lemma {:induction false} ChainAfter(sk: seq<Skel>, s: int, x: int)
    requires Linked(sk) && IsRef(|sk|, s) && (s == Null || x < s)
    ensures x !in Chain(sk, s)
    decreases if s == Null then 0 else |sk| - s
  {
    if s != Null {
      ChainAfter(sk, sk[s].sibling, x);
    }
  }
}
