# Semantic analysis of the C-minus compiler, modelled in Dafny

This project models the semantic-analysis phase of a small C-minus compiler. The phase has two parts:

- the scoped symbol table of `symtab.c`;
- the binder, checker and constant folder of `analyze.c`.

Each operation is a method proved against a function on values: a bucket function for each table operation, and a state function for each hook of the analysis. The walk `traverse` is proved to make its hook calls and scope writes in the order a trace function gives. The state it leaves is proved to be those steps' effects applied one after the other. The properties proved about the functions themselves are listed under "Model".

## The parts

- **Tree** (`tree.dfy`). The syntax tree is an arena, a Dafny `array<Node>`.
  - A node refers to its three children and its sibling by index; `Null` (-1) stands for C's NULL.
  - Every link points to a larger index (`Linked`), which gives the recursions their measure.
  - The C record's `attr` union becomes four plain fields: `name`, `val`, `op` and `idx`.
  - `Shaped` names the children the analyzer dereferences without a NULL test.
  - `Chain` is the sibling list that starts at a node.
- **SymTab** (`symtab.dfy`). The symbol table is a class over an array of buckets. Each bucket is a sequence of entries, newest first.
  - Each operation of `symtab.c` is a method. A function over the bucket sequences specifies each method:
    - `FindName` is the scan of `st_lookup` and `st_type_lookup`;
    - `FindNameOrScope` is the scan of `st_insert` and `st_advanced_lookup`;
    - `InsertBucket` is what `st_insert` makes of a bucket;
    - `DeeperPrefix` and `StripAll` are what `st_delete` unlinks.
  - Lemmas state what those scans mean, including three quirks of the code, all kept as written:
    - The insert scan stops at the first entry that has the name *or* the scope (`InsertSameScopeOtherName`). `insertNode` passes an identifier use to `st_insert` whenever `st_lookup` knows the name (analyze.c:103-110). The use's line can then land on an entry of another name that has the use's scope. A declaration reaches `st_insert` only after `st_advanced_lookup` answered -1 (analyze.c:118-119, symtab.c:120-127), so normally no entry has its name or its scope.
    - `st_delete` unlinks only the deeper entries at the front of each bucket. On a bucket ordered innermost first it removes every entry deeper than the scope (`StripSorted`). In other orders a deeper entry behind a shallower one stays (`StripKeepsHidden`).
    - `insertNode` moves `location` down on a redeclaration, so an entry can be stored at location -1. `st_advanced_lookup` then cannot tell it from a missing name (`AdvancedLookupAmbiguous`).
- **Rules** (`rules.dfy`). Some per-node decisions of `checkNode` are pure functions: `Fold`, `CalcOutcome`, `IdCheck`, `AssignOutcome`, `IfOutcome`, `WhileOutcome`, `ReturnOutcome`, `MainCheck`, `CallHead` and `ArgCheck`. Each takes the fields the node and its symbols supply. It returns the report (message, and the node it is filed at) and the typing.
  - `Fold` is the constant folder. Its division `TruncDiv` truncates toward zero, as C does.
  - The varK and paramK cases and the parameter loop of funK have no function here. Their state functions are in Effects.
- **Walk** (`walk.dfy`). Functions over the node skeletons say what `traverse` does:
  - `AssignScopes` gives the scope values it writes;
  - `TraceOf` gives its steps in order. A step is a `preProc` call, a `deleteProc` call, a `postProc` call, or a scope write.
- **Effects** (`effects.dfy`). The analyzer's state as a value: the tree, the buckets, `depth`, `location` and the reports.
  - One function per hook and node kind says what that call does to the state: `InsertEffect`, `CheckEffect`, `DeleteEffect`, `ScopeEffect` and the per-kind functions that `CheckEffect` selects.
  - `Run` applies the effects of a trace one step after the other.
- **Analyze** (`analyze.dfy`). The class `Analyzer` holds the tree and the table, plus three C globals as fields: `depth`, `location` and `Error`.
  - `diags` is the record of every `typeError` call, each a (line, message) pair.
  - The ghost field `shape` is the skeleton of the tree, which the analysis never changes.
  - The ghost field `trace` is the list of steps made so far. The method that performs a step appends it: the hook call of `Visit`, the `deleteProc` call, or the scope write.
  - Every hook method leaves the state that its Effects function gives. `Traverse` leaves `Run` of its old state over `TraceOf`, and extends `trace` by `TraceOf`.
  - `Error` is set exactly when it was set at the start or a report was filed.

Where the compiler's documented behaviour and its code differ, the model follows the code:

- an `if` condition is tested on its folded value (0 or 1), not on its type;
- an identifier use that the table does not know is not reported as an error;
- only a scalar used as an array is reported, not an array used as a scalar;
- the table is not emptied when the top-level traversal returns; only scopes deeper than the retreat point are stripped;
- a redeclaration is not reported through `typeError`: insertNode only prints a message and lowers `location` (analyze.c:120-122), so `Error` stays unset and no report is filed.

## Model

| member | source | states |
|---|---|---|
| Tree.Chain | analyze.c:194-208 | the sibling walk from a node: empty exactly at NULL, starts at the node, and visits only nodes of the arena |
| SymTab.FindName | symtab.c:112-113 | the scan of st_lookup stops at the first entry named `name`: no entry before it has the name, and the bucket length means none has |
| SymTab.FindNameOrScope | symtab.c:27-28 | the scan of st_insert stops at the first entry with the name or the scope, and passes only entries with neither |
| SymTab.DeeperPrefix | symtab.c:85 | the inner loop of st_delete unlinks exactly the leading entries deeper than the scope, and stops at the first that is not |
| SymTab.Strip | symtab.c:85-101 | definition of what st_delete leaves of one bucket, which StripAll, PopDeeper and StripMeaning are stated over: the bucket without its deeper prefix |
| SymTab.StripAll | symtab.c:81-102 | after the outer loop has reached bucket `n`, the buckets before `n` are stripped and the rest are untouched |
| SymTab.Released | symtab.c:81-102 | every entry st_delete releases from the first `n` buckets lies deeper than the scope and comes from one of those buckets |
| SymTab.LookupIn | symtab.c:109-116 | st_lookup gives -1 when no entry has the name; any other answer is the location of an entry with the name |
| SymTab.TypeLookupIn | symtab.c:129-141 | st_type_lookup returns an entry exactly when the bucket has the name; it is the first entry with the name and has the memory location st_lookup reports; NULL corresponds to st_lookup's -1 |
| SymTab.AdvancedLookupIn | symtab.c:120-127 | st_advanced_lookup gives -1 when no entry has the name or the scope; any other answer is the location of an entry with the name or the scope |
| SymTab.NewEntry | symtab.c:30-66 | the record st_insert creates carries the node's name, scope, line, array size and node; its location is the one given; its parameter count is -1; its type comes from the type child for function and variable declarations, and from the node itself otherwise |
| SymTab.InsertBucket | symtab.c:21-74 | with no entry of the name or the scope the new record goes in front; otherwise the bucket keeps its length, and every entry its location, name and scope |
| SymTab.NamedReturns | symtab.c:43-54 | after st_insert of a function declaration the only changed nodes are return statements, which now carry the function's name; links and scopes are kept; for any other node the tree is unchanged |
| SymTab.RenameReturns | symtab.c:43-54 | every return statement of the walked chain gets the function's name; every other node is unchanged |
| SymTab.RenameKeepsShape | symtab.c:43-54 | renaming return statements changes neither the links nor the scopes of the tree |
| SymTab.InsertAbsent | symtab.c:30-66 | with no entry of the same name or scope, a new entry is pushed on the bucket head, and st_lookup then finds its location |
| SymTab.InsertFound | symtab.c:67-73 | when the scan stops at an entry, only that entry changes: the line is appended to its lines, and name, scope and location stay |
| SymTab.FindNameOrScopeIs | symtab.c:27-28 | any first position meeting the scan condition is the one the scan returns |
| SymTab.FindNameIs | symtab.c:112-113 | any first position holding the name is the one the lookup scan returns |
| SymTab.InsertSameScopeOtherName | symtab.c:27-28 | an entry of the same scope but another name stops the insert scan, and the new line lands on it |
| SymTab.LookupMeaning | symtab.c:109-116 | st_lookup gives -1 when no entry has the name, and otherwise the location of the newest entry with the name |
| SymTab.AdvancedLookupMeaning | symtab.c:120-127 | st_advanced_lookup gives -1 when no entry has the name or the scope, otherwise the location of the first such entry; -1 means "absent" only when no location is -1 |
| SymTab.AdvancedLookupAmbiguous | symtab.c:120-127 | an entry stored at location -1 makes both lookups answer -1, as if the name were absent |
| SymTab.StripMeaning | symtab.c:85-101 | a bucket is the unlinked prefix followed by what remains; the prefix lies deeper than the scope and the remainder starts at or above it |
| SymTab.DeleteIdempotent | symtab.c:76-104 | a second st_delete with the same scope leaves every bucket as the first left it |
| SymTab.DeleteAgainReleasesNothing | symtab.c:76-104 | a second st_delete with the same scope releases no entry |
| SymTab.NothingDeeper | symtab.c:81-102 | when no bucket starts with a deeper entry, st_delete releases nothing |
| SymTab.StripHeadShallow | symtab.c:85-101 | a stripped bucket does not start with an entry deeper than the scope |
| SymTab.StripSorted | symtab.c:76-104 | on a bucket ordered innermost first, st_delete keeps exactly the entries at or above the scope |
| SymTab.StripKeepsHidden | symtab.c:85-101 | an entry deeper than the scope that sits behind one at or above it stays in the bucket |
| SymTab.SymTable.Insert | symtab.c:21-74 | st_insert: the bucket of the name becomes InsertBucket of it; for a new function entry the return statements under its body carry its name, and otherwise the tree is unchanged |
| SymTab.SymTable.RenameChain | symtab.c:43-54 | the renaming loop leaves the tree as RenameReturns over the chain |
| SymTab.SymTable.Delete | symtab.c:76-104 | st_delete: the buckets become StripAll of the old buckets, and the released entries are the unlinked prefixes, bucket by bucket |
| SymTab.SymTable.StripNext | symtab.c:81-102 | one turn of the outer loop extends the stripped part by one bucket and the released list by that bucket's prefix |
| SymTab.SymTable.PopDeeper | symtab.c:85-101 | the inner loop strips bucket `i` only, and pops exactly its deeper prefix |
| SymTab.SymTable.Lookup | symtab.c:109-116 | st_lookup returns the location LookupIn gives for the name's bucket |
| SymTab.SymTable.AdvancedLookup | symtab.c:120-127 | st_advanced_lookup returns the location AdvancedLookupIn gives for the name's bucket |
| SymTab.SymTable.TypeLookup | symtab.c:129-141 | st_type_lookup yields the position FindName gives when the name is present, and NULL (None) otherwise |
| SymTab.SymTable.SetSignature | analyze.c:186-211 | the writes `l->type` and `l->paramnum` change that one entry's type and parameter count, and nothing else |
| Rules.TruncDiv | analyze.c:331-333 | C's division truncates toward zero: the remainder is smaller than the divisor in magnitude and has the sign of the dividend |
| Rules.DivBounds | analyze.c:331-333 | the quotient built from the magnitudes satisfies the truncated-division remainder law |
| Rules.Fold | analyze.c:273-334 | the folded value is 0/1 for the six relations, sum, difference and product for + - *, and absent for other operators or a division by zero; a division gives a quotient whose remainder is smaller than the divisor in magnitude and is zero or has the dividend's sign |
| Rules.FoldRelations | analyze.c:273-322 | < and >=, > and <=, == and != fold to complementary values; a < b folds like b > a, and == is symmetric |
| Rules.FoldTwoThree | analyze.c:273-334 | folding 2 op 3 gives 5, -1, 6, 0, 1, 1, 0, 0, 0, 1 for the ten operators |
| Rules.FoldDivTruncates | analyze.c:331-333 | -7/2 and 7/-2 fold to -3, and -7/-2 to 3, as in C and unlike Euclidean division |
| Rules.CalcOutcome | analyze.c:267-273 | a report is filed exactly when an operand is not Integer, and the node is typed Integer exactly when none is |
| Rules.IdCheck | analyze.c:238-264 | an array passed whole adopts the declared size; a scalar used with a subscript gives "Wrong type!"; a negative constant index, or a non-Integer index of an array, gives its message; a subscripted non-array records the subscript value; each exactly when its condition holds, and no other message is given |
| Rules.AssignOutcome | analyze.c:352-411 | an unknown target is reported at the left child; an unresolved source is reported only when it is not Integer; with two scalar symbols nothing is reported exactly when both are Integer, else "not integer" at the left child or "not integer2" at the right child; with both resolved the assignment is typed exactly when nothing is reported; every report is filed at a child |
| Rules.AssignRange | analyze.c:383-409 | with an array side, the range error is filed exactly when an array side's index is outside [0, its size]; the right side is tested first |
| Rules.AssignIndexAtSize | analyze.c:383-389 | an index equal to the array size passes the range test and the assignment is typed Integer |
| Rules.IfOutcome | analyze.c:345-349 | a report at the condition exactly when its folded value is neither 0 nor 1; the statement is never typed |
| Rules.WhileOutcome | analyze.c:412-420 | a report at the body exactly when the condition is not Integer, and the loop is typed Integer exactly when it is |
| Rules.ReturnOutcome | analyze.c:421-448 | a bare return is always reported; a return with a value is typed Integer; a returned call needs a known callee of Integer type; another returned value gives "return type error" at that value exactly when it is Void |
| Rules.MainCheck | analyze.c:169-180 | only `main` is checked: with a sibling after it, "main is not last function"; otherwise "main has parameter" exactly when its parameter is not Void |
| Rules.CallHead | analyze.c:450-523 | unknown callee, not a function, no argument where parameters are declared, and a count mismatch each give their message exactly under their condition; equal nonzero counts go on to the argument comparison |
| Rules.ArgCheck | analyze.c:499-515 | no parameter left gives "unknown argument"; with a parameter the argument passes exactly when the types agree and it is neither array-to-scalar nor scalar-to-array, and the first failing test names the message |
| Walk.AssignScopes | analyze.c:33-65 | traverse(t) writes no scope at t or at any node before it in the arena, and nothing at NULL |
| Walk.ScopeTarget | analyze.c:47-55 | definition ChildScopeWrite is proved against: the node written before descending into a child, which is the parameter child for a function declaration |
| Walk.Bump | analyze.c:47-55 | definition ChildScopeWrite is proved against: one under a block or a function declaration, zero otherwise |
| Walk.ChildrenDone | analyze.c:44-58 | the child loop at t writes no scope at t or before it |
| Walk.ChildStep | analyze.c:46-56 | one turn of the child loop writes no scope at t or before it |
| Walk.ChildScope | analyze.c:46-56 | children of a block get the parent's scope + 1, so does a function's parameter child, children of other nodes get the parent's scope, and a function's other children keep theirs |
| Walk.SiblingScope | analyze.c:62 | traverse leaves a node's own scope alone, and its sibling gets that scope |
| Walk.TraceOf | analyze.c:33-65 | every step of traverse(t) is at t or at a later node of the arena |
| Walk.TraceKids | analyze.c:44-58 | every step of the child loop at t is at a node after t |
| Walk.KidTrace | analyze.c:46-56 | every step of one turn of the child loop is at a node after t |
| Walk.SiblingTrace | analyze.c:62-63 | every step of the walk on the sibling is at a node after t |
| Walk.TracePaired | analyze.c:43-63 | traverse(t) starts with preProc(t), and every deleteProc(x) it makes is followed at once by postProc(x) |
| Walk.KidsPaired | analyze.c:44-58 | in the child loop every deleteProc(x) is followed at once by postProc(x) |
| Walk.SiblingPaired | analyze.c:62-63 | in the walk on the sibling every deleteProc(x) is followed at once by postProc(x) |
| Effects.EntriesStrip | symtab.c:76-104 | after st_delete every entry still refers to a node of the tree |
| Effects.EntriesInsert | symtab.c:21-74 | after st_insert of a tree node every entry still refers to a node of the tree |
| Effects.EntriesSign | analyze.c:186-211 | setting an entry's type and parameter count keeps every entry referring to a node of the tree |
| Effects.Typed | analyze.c:379 | an outcome that types its node Integer writes that node's type and no other node; otherwise the tree is unchanged |
| Effects.ReportDiags | analyze.c:144-147 | an outcome produces one typeError record when it has a report and none otherwise |
| Effects.VoidParamDiags | analyze.c:194-208 | each record is "Void parameter error" at the line of a Void parameter that is not the first, with at most one record per parameter; its exact list is stated by VoidParamsExact |
| Effects.VoidParamsExact | analyze.c:194-208 | the parameter loop reports nothing exactly when no parameter after the first is Void; its records are exactly one per Void parameter after the first, in chain order: the positions VoidMarked lists are increasing, a position is listed exactly when its parameter fails, and record k is "Void parameter error" at the line of the k-th listed parameter |
| Effects.VoidParamsEmpty | analyze.c:194-208 | the parameter loop files no report exactly when no parameter after the first is Void |
| Effects.VoidMarked | analyze.c:196-199 | the positions from `i` on whose parameter the loop reports: each is in range and names a Void parameter that is not the first |
| Effects.VoidMarkedMeaning | analyze.c:196-199 | the listed positions are strictly increasing, and a position from `i` on is listed exactly when the loop reports its parameter |
| Effects.VoidReports | analyze.c:196-199 | one "Void parameter error" record per listed position, at that parameter's line, in order |
| Effects.PairDiags | analyze.c:481-518 | each record is at an argument's line with the message ArgCheck gives it against the parameter at its position (or none left), with at most one record per argument; its exact list is stated by PairDiagsExact |
| Effects.PairDiagsExact | analyze.c:481-518 | the argument loop reports nothing exactly when there are no more arguments than parameters and each argument matches the parameter at its position; its records are exactly one per failing argument, in chain order: the positions PairMarked lists are increasing, a position is listed exactly when ArgCheck fails there, and record k is at the line of the k-th listed argument with the message ArgCheck gives it |
| Effects.PairDiagsEmpty | analyze.c:481-518 | the argument loop files no report exactly when no argument fails ArgCheck against the parameter at its position |
| Effects.PairMarked | analyze.c:499-517 | the positions from `i` on whose argument the loop reports: each is in range and fails ArgCheck |
| Effects.PairMarkedMeaning | analyze.c:499-517 | the listed positions are strictly increasing, and a position from `i` on is listed exactly when ArgCheck fails there |
| Effects.PairReports | analyze.c:499-517 | one record per listed position, at that argument's line with the message ArgCheck gives it, in order |
| Effects.CallDiags | analyze.c:449-526 | the CallK check gives one record or at most one per argument, each at the line of the call or of one of its arguments; its exact list is stated by CallDiagsAll |
| Effects.CallDiagsExact | analyze.c:449-526 | a call is accepted without a report exactly when its callee is a known function whose parameter count is the number of arguments and, with arguments, each matches the parameter at its position |
| Effects.CallDiagsAll | analyze.c:449-526 | the CallK check files exactly CallHead's message at the call's line when the head fails, nothing when there are no arguments and none is expected, and otherwise exactly one record per failing argument, as PairDiagsExact lists them |
| Effects.CheckFrame | analyze.c:152-535 | checkNode keeps `depth`, `location` and the number of buckets, only appends reports, and writes no node other than its own, whose name it keeps |
| Effects.InsertFrame | analyze.c:97-128 | insertNode keeps `depth` and files no report |
| Effects.DeclFrame | analyze.c:161-224 | the declaration cases keep `depth`, `location` and the number of buckets, only append reports, and write no node but their own |
| Effects.StmtFrame | analyze.c:339-530 | the statement cases keep `depth`, `location` and the number of buckets, only append reports, and write no node but their own |
| Effects.InsertEffect | analyze.c:97-128 | definition of insertNode's effect on the state, which InsertNode, BindUse and BindDecl are proved against: a known identifier use goes through st_insert with location 0; a declaration with a non-negative array size is inserted at `location`, which rises by one, when st_advanced_lookup answers -1, and otherwise only `location` drops by one |
| Effects.DeleteEffect | analyze.c:15-25 | definition of deleteProc's effect, which DeleteProc and NullProc are proved against: a node shallower than `depth` strips the deeper entries of every bucket and lowers `depth` to its scope; otherwise nothing changes |
| Effects.Raise | analyze.c:39 | definition of traverse's first statement, which Open is proved against: `depth` rises to the node's scope when that is deeper |
| Effects.ScopeEffect | analyze.c:47-62 | definition of a scope write, which ScopeWrite is proved against: exactly one node gets another node's scope plus the bump |
| Effects.CheckEffect | analyze.c:152-535 | definition of checkNode's effect, which CheckNode, CheckDecl, CheckExp and CheckStmt are proved against: the per-kind effect of the node's kind, and no change for blocks, constants and the other expressions |
| Effects.VarEffect | analyze.c:163-167 | definition CheckVar is proved against: the declaration takes its type child's type |
| Effects.ParamEffect | analyze.c:215-222 | definition CheckParam is proved against: a parameter whose array size is not -1 takes its type child's type |
| Effects.FunEffect | analyze.c:168-214 | definition CheckFun is proved against: a MainCheck message is filed alone; otherwise the node and the first entry of its name get the type child's type and the parameter count, and VoidParamDiags is filed |
| Effects.IdEffect | analyze.c:237-265 | definition CheckId is proved against: nothing for an unknown name, otherwise the IdCheck action on the node |
| Effects.CalcEffect | analyze.c:266-336 | definition CheckCalc is proved against: a CalcOutcome report at the node, or the node typed Integer with the folded value; a missing operator child changes nothing |
| Effects.IfEffect | analyze.c:345-349 | definition CheckIf is proved against: the IfOutcome of the condition is filed |
| Effects.WhileEffect | analyze.c:412-420 | definition CheckWhile is proved against: the WhileOutcome of the condition is filed and applied; a report that would be filed at a missing body changes nothing |
| Effects.AssignEffect | analyze.c:350-411 | definition CheckAssign is proved against: the AssignOutcome of both sides' symbols, the right one looked up only when it is not a constant |
| Effects.ReturnEffect | analyze.c:421-448 | definition CheckReturn and ReturnDecision are proved against: the ReturnOutcome of the value and, for a returned call, its callee's symbol |
| Effects.CallEffect | analyze.c:449-526 | definition CheckCall is proved against: the CallDiags of the callee's symbol are filed and nothing else changes |
| Effects.Hook | analyze.c:43-60 | definition Visit is proved against: the effect of insertNode, checkNode or nullProc, as the visitor says |
| Effects.Step | analyze.c:33-65 | definition of one step of a walk: Raise then the pre hook, the deleteProc effect, the post hook, or a scope write |
| Effects.Run | analyze.c:33-65 | definition Traverse, Finish, BuildSymtab and TypeCheck are proved against: the state the steps of a trace leave, taken in order |
| Effects.RunAppend | analyze.c:33-65 | running two traces one after the other is running their concatenation, so the walk's parts compose |
| Analyze.Analyzer.constructor | analyze.c:14 | the analysis starts with `location` 0, no reports and no steps, keeping the given depth and Error |
| Analyze.Analyzer.TypeError | analyze.c:144-147 | typeError appends (line of the node, message) to the reports and sets Error |
| Analyze.Analyzer.File | analyze.c:144-147 | an outcome's report is recorded at the line of the node it names, and sets Error |
| Analyze.Analyzer.SetScope | analyze.c:541 | the write `x->scope = v` changes exactly that node's scope |
| Analyze.Analyzer.ScopeWrite | analyze.c:47-62 | the write `x->scope = from->scope + bump` leaves ScopeEffect of the state, changes only that node's scope, and adds the write to the trace |
| Analyze.Analyzer.DeleteProc | analyze.c:15-25 | on retreat to a node shallower than `depth`, the table becomes StripAll at the node's scope and `depth` drops to it; otherwise nothing changes; afterwards `depth` is at most the node's scope; the call is added to the trace |
| Analyze.Analyzer.NullProc | analyze.c:82-91 | the same state change as deleteProc: strip the deeper scopes and lower `depth`, or change nothing |
| Analyze.Analyzer.InsertNode | analyze.c:97-128 | the state after insertNode is InsertEffect of the state before: a known identifier use gets its line recorded through st_insert; a declaration whose name and scope st_advanced_lookup does not find is inserted at `location`, which goes up by one; otherwise `location` goes down by one; other nodes change nothing |
| Analyze.Analyzer.BindUse | analyze.c:102-111 | an identifier use: st_insert with location 0 when st_lookup finds the name, and nothing otherwise |
| Analyze.Analyzer.BindDecl | analyze.c:116-124 | a declaration with a non-negative array size: inserted at `location`, which goes up by one, when st_advanced_lookup answers -1; otherwise only `location` goes down by one |
| Analyze.Analyzer.Enter | analyze.c:110-119 | the st_insert calls of insertNode change the table and the return nodes as Insert states, and keep every entry pointing into the tree |
| Analyze.Analyzer.SetNode | analyze.c:152-535 | a write to one node that keeps its links and its scope changes that node only, keeps the scopes and keeps the tree well formed |
| Analyze.Analyzer.Symbol | analyze.c:238 | the entry checkNode reads through st_type_lookup is TypeLookupIn of the name's bucket |
| Analyze.Analyzer.Apply | analyze.c:144-147 | an outcome is filed through typeError and types the node Integer exactly when it says so |
| Analyze.Analyzer.CheckVar | analyze.c:163-167 | the state after the varK case is VarEffect: the declaration takes its type child's type, and nothing else changes |
| Analyze.Analyzer.CheckParam | analyze.c:215-222 | the state after the paramK case is ParamEffect: a parameter whose array size is not -1 takes its type child's type, and otherwise nothing changes |
| Analyze.Analyzer.CheckParams | analyze.c:194-211 | the parameter loop counts the chain and files exactly the reports of VoidParamDiags over it |
| Analyze.Analyzer.CheckParamAt | analyze.c:196-207 | one turn: a Void parameter other than the first is reported, and the walk moves to the sibling |
| Analyze.Analyzer.CheckFun | analyze.c:168-214 | the state after the funK case is FunEffect: a misplaced `main` is reported and nothing else happens; otherwise the node and its symbol get the type child's type and the chain length as parameter count, and the Void parameters after the first are reported |
| Analyze.Analyzer.CheckId | analyze.c:237-265 | the state after the IdK case is IdEffect: the node adopts the declared size, is reported, records the index, or is left, as IdCheck says |
| Analyze.Analyzer.CheckCalc | analyze.c:266-336 | the state after the CalcK case is CalcEffect: Integer operands type the node Integer and give it the folded value; otherwise it is reported and left as it was; a missing operator child changes nothing |
| Analyze.Analyzer.CheckIf | analyze.c:345-349 | the state after the IfK case is IfEffect: the report of IfOutcome is filed and no node is written |
| Analyze.Analyzer.CheckWhile | analyze.c:412-420 | the state after the WhileK case is WhileEffect: the report of WhileOutcome is filed and the loop is typed as it says; a report that would be filed at a missing body changes nothing |
| Analyze.Analyzer.CheckAssign | analyze.c:350-411 | the state after the AssignK case is AssignEffect: both sides are looked up, the right only when it is not a constant, and AssignOutcome decides the report and the typing |
| Analyze.Analyzer.CheckReturn | analyze.c:421-448 | the state after the ReturnK case is ReturnEffect: the value, and for a returned call its callee, decide the report and the typing as ReturnOutcome says |
| Analyze.Analyzer.ReturnDecision | analyze.c:421-448 | the lookups of the ReturnK case yield an outcome that can be filed and whose effect is ReturnEffect of the state |
| Analyze.Analyzer.CountChain | analyze.c:470-474 | the counting loop returns the length of the argument chain |
| Analyze.Analyzer.CheckArgs | analyze.c:476-518 | the comparison loop files exactly the reports of PairDiags over the argument and parameter chains |
| Analyze.Analyzer.CheckArg | analyze.c:499-517 | one turn: the argument is checked against the parameter by ArgCheck, and both walks step to their siblings |
| Analyze.Analyzer.CheckCall | analyze.c:449-526 | the state after the CallK case is CallEffect: exactly the CallDiags of the callee st_type_lookup finds are filed, and nothing else changes |
| Analyze.Analyzer.CheckNode | analyze.c:152-535 | the state after checkNode is CheckEffect of the state before: the check of the node's kind, with blocks, constants and operators not checked; it writes only its own node, keeping its name and scope, and only appends reports |
| Analyze.Analyzer.CheckDecl | analyze.c:161-224 | the declaration cases leave CheckEffect of the state, write only their own node and only append reports |
| Analyze.Analyzer.CheckExp | analyze.c:225-338 | the expression cases leave CheckEffect of the state, write only their own node and only append reports |
| Analyze.Analyzer.CheckStmt | analyze.c:339-530 | the statement cases leave CheckEffect of the state, write only their own node and only append reports |
| Analyze.Analyzer.Visit | analyze.c:43-60 | a call of preProc or postProc leaves Hook of the state: InsertEffect for insertNode, CheckEffect for checkNode, DeleteEffect for nullProc; it adds the call to the trace, keeps the scopes, only appends reports and never raises `depth` |
| Analyze.Analyzer.Traverse | analyze.c:33-65 | traverse extends the trace by TraceOf of the tree and leaves Run of the old state over those steps; the scopes come out as AssignScopes; reports only grow; afterwards `depth` is at most the node's scope |
| Analyze.Analyzer.Open | analyze.c:39-43 | `depth` rises to the node's scope, then preProc runs: the state is the Pre step of the old one |
| Analyze.Analyzer.Finish | analyze.c:59-63 | deleteProc and postProc at t, then the walk on the sibling: the trace grows by those steps and the state is their Run; afterwards `depth` is at most t's scope |
| Analyze.Analyzer.WalkSibling | analyze.c:62-63 | a present sibling gets t's scope and is traversed: trace and state as SiblingTrace gives; t's own scope is kept |
| Analyze.Analyzer.VisitChildren | analyze.c:44-58 | the child loop leaves the scopes as ChildrenDone gives them, extends the trace by TraceKids, and leaves the Run of those steps |
| Analyze.Analyzer.VisitChild | analyze.c:46-56 | one turn of the child loop: trace, state and scopes as KidTrace and ChildStep give; an absent child changes nothing |
| Analyze.Analyzer.Descend | analyze.c:47-56 | a present child has its scope written as the rule says and is traversed: the scopes are ChildStep, the trace grows by KidTrace, and the state is the Run of those steps |
| Analyze.Analyzer.ChildScopeWrite | analyze.c:47-55 | the scope write before descending: the target is the child, or a function's parameter child; it gets the node's scope, plus one under a block or a function |
| Analyze.Analyzer.BuildSymtab | analyze.c:539-548 | the root gets scope 0, then one walk binds before and checks after every node: the state is the Run of TraceOf with insertNode and checkNode as hooks; the scopes come out as AssignScopes from that start; afterwards `depth` is at most 0 |
| Analyze.Analyzer.TypeCheck | analyze.c:552-554 | a second walk with nullProc before and checkNode after every node: the state is the Run of TraceOf with those hooks, and scopes and trace are as the Walk functions say; afterwards `depth` is at most the root's scope |

## Left out

- Output: all printing is left out. This covers the listing lines of `st_delete`, the debugging `printf` calls, `printSymTab` (symtab.c:147-168) and the listing at analyze.c:542-547. Printing changes no state the analysis reads.
- Memory: `malloc`, `free` and string copying are modelled as values. A renamed return statement holds the function's name as a value.
- The hash function and the table size are defined in headers that are not part of this model. The table takes any hash that maps into its bucket range.
- Line lists: the walk to the tail of an entry's line list is modelled as appending to a sequence.
- Integers are unbounded. C's `int` overflow in `location`, in folded values and in the parameter counts is not modelled.
- VoidParamDiags: its own ensures only justify each record and bound their number. That every Void parameter after the first gets exactly one record, in chain order, is proved about it by VoidParamsExact.
- PairDiags: its own ensures only justify each record and bound their number. That every failing argument gets exactly one record, in chain order, is proved about it by PairDiagsExact.
- CallDiags: its own ensures only place each record. The exact list, with its messages, is proved about it by CallDiagsAll.
- Rules.Fold: a division by zero is undefined in C. The model leaves `attr.val` unchanged there.
- Commented-out code is left out. This covers analyze.c:40-42, 67-76, 133-142 and 482-498, and symtab.c:170-194.
- Analyze.Analyzer.constructor: the start value of the `depth` global is declared in a header that is not part of this model, so it is a constructor parameter.
- Tree.Node: the `attr` union is split into separate fields. The union reads `t->child[1]->kind.stmt != ConstK` (analyze.c:354) and `t->child[0]->kind.stmt == CallK` (analyze.c:428) are modelled as comparisons of the whole node kind.
- Tree.Shaped: the children that `checkNode` and `traverse` dereference without a test are required present. This makes the funK branches for a missing child[0] or child[1] (analyze.c:183, 190-193) unreachable in the model. `traverse` dereferences child[1] of any function that has a child (analyze.c:51). Children that are read only inside a test are not required: the body of a while loop (analyze.c:413-414) and the operator child of an expression (analyze.c:274).
- NULL dereferences under a lookup or a missing child make C's behaviour undefined. The model turns each into "no effect":
  - Analyze.Analyzer.CheckFun: when `st_type_lookup` finds no entry for the function (analyze.c:187-188), the symbol write is skipped. The model also writes the node and the symbol after the parameter loop instead of before; the loop reads only the parameter nodes, so the outcome is the same.
  - Analyze.Analyzer.CheckId: when `st_type_lookup` finds no entry (analyze.c:238), nothing happens. When an array's subscript child is NULL (analyze.c:247-252), nothing happens. When the subscript child of a non-array use is NULL (analyze.c:262), nothing happens.
  - Analyze.Analyzer.CheckParam: when the type child is NULL (analyze.c:217), the node is left as it was.
  - Analyze.Analyzer.CheckWhile: when the condition is not Integer and the body is NULL (analyze.c:414), nothing happens.
  - Analyze.Analyzer.CheckCalc: when both operands are Integer and the operator child is NULL (analyze.c:274), nothing happens.
  - Analyze.Analyzer.CheckArg: after "unknown argument", the parameter walk stays at NULL. C evaluates `p->sibling` there (analyze.c:517).
- Analyze.Analyzer.BuildSymtab: the contract does not state that the table is empty afterwards, because the code does not ensure it. See StripSorted and StripKeepsHidden for when a retreat removes every deeper entry.
