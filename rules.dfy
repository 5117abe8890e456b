/** The per-node decisions of the type checker, as pure functions: what checkNode reports, where,
    and what it writes, given the fields it reads. */
module Rules {
  import opened Tree
  import opened SymTab

  /** Where a report is filed: at the node itself or at one of its children. */
  datatype At = AtNode | AtChild(k: nat)

  datatype Report = Report(at: At, msg: string)

  /** One record handed to typeError: the line of the node reported at, and the message. */
  datatype Diag = Diag(lineno: int, msg: string)

  /** The report a check files (if any), and whether it sets the node's type to Integer. */
  datatype Outcome = Outcome(report: Option<Report>, typesInteger: bool)

  // ---- Constant folding of CalcK ----

  function Abs(x: int): nat {
    if x < 0 then -x else x
  }

  /** C's integer division: the quotient truncated toward zero. */
  function TruncDiv(a: int, b: int): (q: int)
    requires b != 0
    ensures var r := a - b * q; Abs(r) < Abs(b) && (r == 0 || (r > 0 <==> a > 0))
  {
    var m := Abs(a) / Abs(b);
    var q := if (a < 0) == (b < 0) then m else -m;
    DivBounds(a, b, m, q);
    q
  }

  lemma DivBounds(a: int, b: int, m: int, q: int)
    requires b != 0 && m == Abs(a) / Abs(b) && q == if (a < 0) == (b < 0) then m else -m
    ensures var r := a - b * q; Abs(r) < Abs(b) && (r == 0 || (r > 0 <==> a > 0))
  {
    EuclidOnMagnitudes(Abs(a), Abs(b), m);
    ProductSign(a, b, m, q);
    RemainderSign(a, Abs(b), Abs(b) * m, Abs(a) - Abs(b) * m, b * q);
  }

  lemma EuclidOnMagnitudes(A: nat, B: nat, m: int)
    requires B > 0 && m == A / B
    ensures 0 <= B * m && 0 <= A - B * m < B
  {
  }

  /** With q the truncated quotient, b * q is |b| * m carrying the sign of a. */
  lemma ProductSign(a: int, b: int, m: int, q: int)
    requires b != 0 && q == if (a < 0) == (b < 0) then m else -m
    ensures b * q == if a >= 0 then Abs(b) * m else -(Abs(b) * m)
  {
    if b < 0 {
      if a >= 0 {
        NegTimesNeg(Abs(b), m);
      } else {
        NegTimes(Abs(b), m);
      }
    } else if a < 0 {
      TimesNeg(Abs(b), m);
    }
  }

  /** |a| = p + rem with 0 <= rem < B; taking p away from a with a's sign leaves a remainder
      smaller than B that has a's sign or is zero. */
  lemma RemainderSign(a: int, B: int, p: int, rem: int, bq: int)
    requires 0 <= p && Abs(a) == p + rem && 0 <= rem < B && bq == if a >= 0 then p else -p
    ensures var r := a - bq; Abs(r) < B && (r == 0 || (r > 0 <==> a > 0))
  {
  }

  lemma NegTimesNeg(x: int, y: int)
    ensures (-x) * (-y) == x * y
  {
  }

  lemma TimesNeg(x: int, y: int)
    ensures x * (-y) == -(x * y)
  {
  }

  lemma NegTimes(x: int, y: int)
    ensures (-x) * y == -(x * y)
  {
  }

  /** The relation a relational operator tests. */
  predicate Holds(op: Op, a: int, b: int)
    requires op in {Leq, Les, Big, Beq, Eq, Neq}
  {
    match op
    case Leq => a <= b
    case Les => a < b
    case Big => a > b
    case Beq => a >= b
    case Eq => a == b
    case Neq => a != b
  }

  /** The value checkNode stores in attr.val of a CalcK node whose operands are both Integer, or
      None when attr.val keeps its value (an operator outside the ten, or a division by zero). */
  function Fold(op: Op, a: int, b: int): (r: Option<int>)
    ensures r.None? <==> op == OtherOp || (op == Div && b == 0)
    ensures op in {Leq, Les, Big, Beq, Eq, Neq} ==> r == Some(if Holds(op, a, b) then 1 else 0)
    ensures op == Plus ==> r == Some(a + b)
    ensures op == Minus ==> r == Some(a - b)
    ensures op == Mul ==> r == Some(a * b)
    ensures op == Div && b != 0 ==> r == Some(TruncDiv(a, b))
    ensures op == Div && b != 0 ==> var rem := a - b * r.value; Abs(rem) < Abs(b) && (rem == 0 || (rem > 0 <==> a > 0))
  {
    match op
    case Leq => Some(if a <= b then 1 else 0)
    case Les => Some(if a < b then 1 else 0)
    case Big => Some(if a > b then 1 else 0)
    case Beq => Some(if a >= b then 1 else 0)
    case Eq => Some(if a == b then 1 else 0)
    case Neq => Some(if a != b then 1 else 0)
    case Plus => Some(a + b)
    case Minus => Some(a - b)
    case Mul => Some(a * b)
    case Div => if b == 0 then None else Some(TruncDiv(a, b))
    case OtherOp => None
  }

  /** Relational folds are 0/1 and agree with each other: < and >= are complementary, as are
      > and <=, == and !=; a < b folds like b > a. */
  lemma FoldRelations(a: int, b: int)
    ensures Fold(Les, a, b).value + Fold(Beq, a, b).value == 1
    ensures Fold(Big, a, b).value + Fold(Leq, a, b).value == 1
    ensures Fold(Eq, a, b).value + Fold(Neq, a, b).value == 1
    ensures Fold(Les, a, b) == Fold(Big, b, a) && Fold(Leq, a, b) == Fold(Beq, b, a)
    ensures Fold(Eq, a, b) == Fold(Eq, b, a)
  {
  }

  /** Folding (2 op 3) for each of the ten operators. */
  lemma FoldTwoThree()
    ensures Fold(Plus, 2, 3) == Some(5) && Fold(Minus, 2, 3) == Some(-1)
    ensures Fold(Mul, 2, 3) == Some(6) && Fold(Div, 2, 3) == Some(0)
    ensures Fold(Les, 2, 3) == Some(1) && Fold(Leq, 2, 3) == Some(1)
    ensures Fold(Big, 2, 3) == Some(0) && Fold(Beq, 2, 3) == Some(0)
    ensures Fold(Eq, 2, 3) == Some(0) && Fold(Neq, 2, 3) == Some(1)
  {
  }

  /** Division truncates toward zero, as in C: -7 / 2 is -3, where Dafny's own division gives -4. */
  lemma FoldDivTruncates()
    ensures Fold(Div, -7, 2) == Some(-3) && Fold(Div, 7, -2) == Some(-3) && Fold(Div, -7, -2) == Some(3)
  {
    assert Abs(-7) / Abs(2) == 3;
  }

  /** The CalcK check: both operands must be Integer, otherwise it reports at the node and leaves
      its type; with Integer operands the node becomes Integer. */
  function CalcOutcome(left: ExpType, right: ExpType): (o: Outcome)
    ensures o.typesInteger <==> o.report.None?
    ensures o.report.Some? <==> left != Integer || right != Integer
    ensures o.report.Some? ==> o.report.value == Report(AtNode, "Op applied to non-integer")
  {
    if left != Integer || right != Integer then Outcome(Some(Report(AtNode, "Op applied to non-integer")), false)
    else Outcome(None, true)
  }

  // ---- Identifier uses ----

  /** What checkNode does at an IdK node, given the node's array-size annotation, the declared
      array size of its symbol, and its subscript child (None when the child is NULL). */
  datatype IdAction = Adopt(size: int) | Complain(msg: string) | SetIndex(v: int) | Leave

  function IdCheck(useSize: int, declSize: int, sub: Option<Node>): (a: IdAction)
    // an array passed by name takes on the declared size
    ensures a.Adopt? <==> useSize == 0 && declSize > 0
    ensures a.Adopt? ==> a.size == declSize
    // a scalar used with a subscript
    ensures a == Complain("Wrong type!") <==> useSize > 0 && declSize == 0
    // an array used with a subscript: a negative constant index or a non-Integer index
    ensures a == Complain("Negative Subscript Error") <==>
      useSize != 0 && declSize > 0 && sub.Some? && sub.value.kind == Exp(ConstK) && sub.value.val < 0
    ensures a == Complain("Array Index Type Error") <==>
      useSize != 0 && declSize > 0 && sub.Some? && sub.value.kind != Exp(ConstK) && sub.value.typ != Integer
    // a subscripted use of a non-array symbol records the subscript's value
    ensures a.SetIndex? <==> useSize != 0 && declSize <= 0 && !(useSize > 0 && declSize == 0) && sub.Some?
    ensures a.SetIndex? ==> a.v == sub.value.val
    // no other message is ever given
    ensures a.Complain? ==> a.msg in {"Wrong type!", "Negative Subscript Error", "Array Index Type Error"}
  {
    if useSize == 0 && declSize > 0 then Adopt(declSize)
    else if useSize > 0 && declSize == 0 then Complain("Wrong type!")
    else if declSize > 0 then
      (match sub
       case None => Leave
       case Some(c) =>
         if c.kind == Exp(ConstK) then (if c.val < 0 then Complain("Negative Subscript Error") else Leave)
         else if c.typ != Integer then Complain("Array Index Type Error")
         else Leave)
    else if useSize == 0 then Leave
    else
      (match sub
       case None => Leave
       case Some(c) => SetIndex(c.val))
  }

  // ---- Assignment ----

  /** The index of an array access lies outside [0, the node's array size]. */
  predicate OutOfRange(n: Node) {
    n.idx > n.arraySize || n.idx < 0
  }

  const OutOfRangeMsg := "out of array index range"

  /** The AssignK check over the symbols of the left and right sides (None when a lookup found
      nothing or, for a constant right side, was not made) and the two child nodes. */
  function AssignOutcome(l: Option<Entry>, r: Option<Entry>, lhs: Node, rhs: Node): (o: Outcome)
    ensures o.typesInteger ==> o.report.None?
    ensures o.report.Some? ==> o.report.value.at in {AtChild(0), AtChild(1)}
    ensures l.None? ==> o == Outcome(Some(Report(AtChild(0), "invalid assignment")), false)
    ensures l.Some? && r.None? ==>
      o == Outcome(if rhs.typ != Integer then Some(Report(AtChild(1), "invalid assignment2")) else None, false)
    ensures l.Some? && r.Some? ==> (o.typesInteger <==> o.report.None?)
    // two scalars: the left side must be Integer, then the right side
    ensures l.Some? && r.Some? && l.value.arraySize == 0 && r.value.arraySize == 0 ==>
      && (o.report.None? <==> l.value.typ == Integer && r.value.typ == Integer)
      && (l.value.typ != Integer ==> o.report == Some(Report(AtChild(0), "not integer")))
      && (l.value.typ == Integer && r.value.typ != Integer ==> o.report == Some(Report(AtChild(1), "not integer2")))
    // an array target and a scalar source: only the target's index is range-checked
    ensures l.Some? && r.Some? && l.value.arraySize > 0 && r.value.arraySize == 0 ==>
      o == if OutOfRange(lhs) then Outcome(Some(Report(AtChild(0), OutOfRangeMsg)), false) else Outcome(None, true)
    // a scalar target and an array source: only the source's index is range-checked
    ensures l.Some? && r.Some? && l.value.arraySize == 0 && r.value.arraySize > 0 ==>
      o == if OutOfRange(rhs) then Outcome(Some(Report(AtChild(1), OutOfRangeMsg)), false) else Outcome(None, true)
    // any other pair with a nonzero size: the source's index is checked first, then the target's
    ensures l.Some? && r.Some? && (l.value.arraySize != 0 || r.value.arraySize != 0) &&
            !(l.value.arraySize > 0 && r.value.arraySize == 0) && !(l.value.arraySize == 0 && r.value.arraySize > 0) ==>
      o == if OutOfRange(rhs) then Outcome(Some(Report(AtChild(1), OutOfRangeMsg)), false)
           else if OutOfRange(lhs) then Outcome(Some(Report(AtChild(0), OutOfRangeMsg)), false)
           else Outcome(None, true)
  {
    match l
    case None => Outcome(Some(Report(AtChild(0), "invalid assignment")), false)
    case Some(le) =>
      match r
      case None =>
        if rhs.typ != Integer then Outcome(Some(Report(AtChild(1), "invalid assignment2")), false)
        else Outcome(None, false)
      case Some(re) =>
        if le.arraySize == 0 && re.arraySize == 0 then
          if le.typ != Integer then Outcome(Some(Report(AtChild(0), "not integer")), false)
          else if re.typ != Integer then Outcome(Some(Report(AtChild(1), "not integer2")), false)
          else Outcome(None, true)
        else if le.arraySize > 0 && re.arraySize == 0 then
          if OutOfRange(lhs) then Outcome(Some(Report(AtChild(0), OutOfRangeMsg)), false)
          else Outcome(None, true)
        else if le.arraySize == 0 && re.arraySize > 0 then
          if OutOfRange(rhs) then Outcome(Some(Report(AtChild(1), OutOfRangeMsg)), false)
          else Outcome(None, true)
        else if OutOfRange(rhs) then Outcome(Some(Report(AtChild(1), OutOfRangeMsg)), false)
        else if OutOfRange(lhs) then Outcome(Some(Report(AtChild(0), OutOfRangeMsg)), false)
        else Outcome(None, true)
  }

  /** With both sides resolved and an array involved, the range error is filed exactly when an
      array side's index is outside [0, its node's array size] (the right side is tested first when
      both are arrays); an index equal to the array size passes. */
  lemma AssignRange(le: Entry, re: Entry, lhs: Node, rhs: Node)
    requires le.arraySize != 0 || re.arraySize != 0
    ensures var o := AssignOutcome(Some(le), Some(re), lhs, rhs);
      && (le.arraySize > 0 && re.arraySize == 0 ==>
            (o.report == Some(Report(AtChild(0), OutOfRangeMsg)) <==> OutOfRange(lhs)))
      && (le.arraySize == 0 && re.arraySize > 0 ==>
            (o.report == Some(Report(AtChild(1), OutOfRangeMsg)) <==> OutOfRange(rhs)))
      && (le.arraySize != 0 && re.arraySize != 0 ==>
            (o.report.Some? <==> OutOfRange(lhs) || OutOfRange(rhs))
            && (OutOfRange(rhs) ==> o.report == Some(Report(AtChild(1), OutOfRangeMsg)))
            && (!OutOfRange(rhs) && OutOfRange(lhs) ==> o.report == Some(Report(AtChild(0), OutOfRangeMsg))))
      // an index in range files nothing and types the assignment Integer
      && (le.arraySize > 0 && re.arraySize == 0 && !OutOfRange(lhs) ==> o == Outcome(None, true))
      && (le.arraySize == 0 && re.arraySize > 0 && !OutOfRange(rhs) ==> o == Outcome(None, true))
      && (le.arraySize != 0 && re.arraySize != 0 && !OutOfRange(lhs) && !OutOfRange(rhs) ==> o == Outcome(None, true))
      // every report in these cases is the range message
      && (o.report.Some? ==> o.report.value.msg == OutOfRangeMsg)
      && (o.report.None? <==> o.typesInteger)
  {
  }

  /** The boundary case: index == array size is accepted and the assignment is typed. */
  lemma AssignIndexAtSize(le: Entry, re: Entry, lhs: Node, rhs: Node)
    requires le.arraySize > 0 && re.arraySize == 0 && lhs.arraySize >= 0 && lhs.idx == lhs.arraySize
    ensures AssignOutcome(Some(le), Some(re), lhs, rhs) == Outcome(None, true)
  {
  }

  // ---- Conditions and returns ----

  /** IfK tests the folded value of its condition, which must be 0 or 1. */
  function IfOutcome(cond: Node): (o: Outcome)
    ensures !o.typesInteger
    ensures o.report.Some? <==> cond.val != 0 && cond.val != 1
    ensures o.report.Some? ==> o.report.value == Report(AtChild(0), "if test is not Boolean")
  {
    if cond.val != 0 && cond.val != 1 then Outcome(Some(Report(AtChild(0), "if test is not Boolean")), false)
    else Outcome(None, false)
  }

  /** WhileK needs an Integer condition; the report is filed at the body (child 1). */
  function WhileOutcome(cond: Node): (o: Outcome)
    ensures o.typesInteger <==> cond.typ == Integer
    ensures o.report.Some? <==> cond.typ != Integer
    ensures o.report.Some? ==> o.report.value == Report(AtChild(1), "repeat test is not Boolean")
  {
    if cond.typ != Integer then Outcome(Some(Report(AtChild(1), "repeat test is not Boolean")), false)
    else Outcome(None, true)
  }

  /** ReturnK: a bare return is always reported; a return with a value types the node Integer, and
      a returned call needs a known Integer callee, any other returned value a non-Void type. */
  function ReturnOutcome(value: Option<Node>, callee: Option<Entry>): (o: Outcome)
    ensures o.typesInteger <==> value.Some?
    ensures o.report.Some? && o.report.value.at != AtNode ==> value.Some? && o.report.value.at == AtChild(0)
    ensures value.None? ==> o.report == Some(Report(AtNode,
      "Function declaration has no return, but there is return stmt in function definition"))
    ensures value.Some? && value.value.kind == Stmt(CallK) ==>
      o.report == (if callee.None? then Some(Report(AtNode, "unknown function name"))
                   else if callee.value.typ != Integer then Some(Report(AtNode, "return type error2"))
                   else None)
    ensures value.Some? && value.value.kind != Stmt(CallK) ==>
      o.report == if value.value.typ == Void then Some(Report(AtChild(0), "return type error")) else None
  {
    match value
    case None =>
      Outcome(Some(Report(AtNode, "Function declaration has no return, but there is return stmt in function definition")), false)
    case Some(v) =>
      if v.kind == Stmt(CallK) then
        (match callee
         case None => Outcome(Some(Report(AtNode, "unknown function name")), true)
         case Some(e) => Outcome(if e.typ != Integer then Some(Report(AtNode, "return type error2")) else None, true))
      else Outcome(if v.typ == Void then Some(Report(AtChild(0), "return type error")) else None, true)
  }

  // ---- Function declarations and calls ----

  /** The `main` placement rules: `main` must have no sibling after it, and its parameter node
      must be Void. The first violated rule is the report; checking of that node stops there. */
  function MainCheck(name: string, hasSibling: bool, paramType: ExpType): (m: Option<string>)
    ensures name != "main" ==> m.None?
    ensures name == "main" && hasSibling ==> m == Some("main is not last function")
    ensures name == "main" && !hasSibling ==> (m.Some? <==> paramType != Void)
    ensures m.Some? && !hasSibling ==> m.value == "main has parameter"
  {
    if name != "main" then None
    else if hasSibling then Some("main is not last function")
    else if paramType != Void then Some("main has parameter")
    else None
  }

  /** What a CallK check decides before looking at the arguments one by one. */
  datatype CallStep = CallReport(msg: string) | CompareArgs | CallFine

  function CallHead(callee: Option<Entry>, argc: nat): (c: CallStep)
    ensures callee.None? ==> c == CallReport("unknown function name")
    ensures callee.Some? && callee.value.paramnum == -1 ==> c == CallReport("is not function name")
    ensures callee.Some? && callee.value.paramnum != -1 ==>
      (c == CallReport("arguments not match") <==> argc == 0 && callee.value.paramnum != 0)
      && (c == CallReport("arguments not match2") <==> argc != 0 && callee.value.paramnum != argc)
      && (c == CompareArgs <==> argc != 0 && callee.value.paramnum == argc)
      && (c == CallFine <==> argc == 0 && callee.value.paramnum == 0)
  {
    match callee
    case None => CallReport("unknown function name")
    case Some(e) =>
      if e.paramnum == -1 then CallReport("is not function name")
      else if argc == 0 then (if e.paramnum == 0 then CallFine else CallReport("arguments not match"))
      else if e.paramnum == argc then CompareArgs
      else CallReport("arguments not match2")
  }

  /** One argument against the parameter at its position (None when the parameter chain has run
      out): type first, then array-to-scalar, then scalar-to-array. */
  function ArgCheck(arg: Node, param: Option<Node>): (m: Option<string>)
    ensures param.None? ==> m == Some("unknown argument")
    ensures param.Some? ==>
      (m.None? <==> arg.typ == param.value.typ
                    && !(arg.arraySize > 0 && param.value.arraySize == 0)
                    && !(arg.arraySize == 0 && param.value.arraySize > 0))
    ensures param.Some? && arg.typ != param.value.typ ==> m == Some("argument type is not matched")
    ensures param.Some? && arg.typ == param.value.typ && arg.arraySize > 0 && param.value.arraySize == 0 ==>
      m == Some("argument type is not matched(array to var)")
    ensures param.Some? && arg.typ == param.value.typ && arg.arraySize == 0 && param.value.arraySize > 0 ==>
      m == Some("argument type is not matched(var to array)")
  {
    match param
    case None => Some("unknown argument")
    case Some(p) =>
      if arg.typ != p.typ then Some("argument type is not matched")
      else if arg.arraySize > 0 && p.arraySize == 0 then Some("argument type is not matched(array to var)")
      else if arg.arraySize == 0 && p.arraySize > 0 then Some("argument type is not matched(var to array)")
      else None
  }
}
