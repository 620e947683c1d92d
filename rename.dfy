/** The front end's variable-renaming pass: every declared variable and
    parameter gets a fresh name `original$N`, and every use of a variable is
    rewritten to the fresh name of the innermost declaration in scope.
    Scopes are a stack of maps from original to fresh names; functions and
    block statements push one scope on entry and pop it on exit. */
module Preprocessor {

  /** The parts of the syntax tree the pass looks at.  `Null` stands for an
      absent child (a call without a parameter, an `if` without `else`). */
  datatype Node =
    | Null
    | Prog(func: Node)
    | Func(param: Node, body: Node)
    | Stmt(stmt: Statement)
    | Var(name: string)
    | Cnst(value: int)
    | UExpr(expr: Node)
    | BExpr(lhs: Node, rhs: Node)
    | RExpr(lhs: Node, rhs: Node)
    | ReadCall
    | Extern

  datatype Statement =
    | Decl(name: string)
    | Asgn(target: Node, source: Node)
    | Call(arg: Node)
    | Ret(result: Node)
    | If(cond: Node, thenBody: Node, elseBody: Node)
    | While(guard: Node, loopBody: Node)
    | Block(list: seq<Node>)

  // ---------------------------------------------------------------------------
  // Fresh names

  function DigitChar(d: nat): (c: char)
    requires d < 10
    ensures '0' <= c <= '9'
  {
    (48 + d) as char
  }

  /** The decimal numeral of `n`, as `std::to_string` writes it. */
  function Decimal(n: nat): (r: string)
    ensures |r| >= 1
    ensures forall i :: 0 <= i < |r| ==> '0' <= r[i] <= '9'
  {
    if n < 10 then [DigitChar(n)] else Decimal(n / 10) + [DigitChar(n % 10)]
  }

  /** The number a string of digits denotes. */
  function ParseDecimal(s: string): nat {
    if s == [] then 0
    else
      var d := s[|s| - 1] as int - 48;
      ParseDecimal(s[..|s| - 1]) * 10 + (if 0 <= d then d else 0)
  }

  lemma {:induction false} DecimalRoundTrip(n: nat)
    ensures ParseDecimal(Decimal(n)) == n
  {
    if n >= 10 {
      DecimalRoundTrip(n / 10);
      var s := Decimal(n);
      assert s[..|s| - 1] == Decimal(n / 10);
    }
  }

  lemma {:induction false} DecimalInjective(m: nat, n: nat)
    requires Decimal(m) == Decimal(n)
    ensures m == n
  {
    DecimalRoundTrip(m);
    DecimalRoundTrip(n);
  }

  /** The characters after the last `$` of `s` (all of `s` if it has none). */
  function AfterLastDollar(s: string): string {
    if s == [] then []
    else if s[|s| - 1] == '$' then []
    else AfterLastDollar(s[..|s| - 1]) + [s[|s| - 1]]
  }

  /** A fresh name gives back its counter: the base may hold `$` signs of
      its own, but the numeral after the added one holds none. */
  lemma {:induction false} AfterLastDollarOfName(base: string, d: string)
    requires forall i :: 0 <= i < |d| ==> d[i] != '$'
    ensures AfterLastDollar(base + "$" + d) == d
    decreases |d|
  {
    var s := base + "$" + d;
    if d == [] {
      assert s[|s| - 1] == '$';
    } else {
      var front := d[..|d| - 1];
      assert s[..|s| - 1] == base + "$" + front;
      AfterLastDollarOfName(base, front);
      assert front + [d[|d| - 1]] == d;
    }
  }

  /** The fresh name for `base` when the counter stands at `k`. */
  function FreshName(base: string, k: nat): string {
    base + "$" + Decimal(k)
  }

  /** A fresh name determines the counter it was made from. */
  lemma {:induction false} FreshNameCounter(a: string, m: nat, b: string, n: nat)
    requires FreshName(a, m) == FreshName(b, n)
    ensures m == n
  {
    FreshNameSuffix(a, m);
    FreshNameSuffix(b, n);
  }

  /** The text after the last `$` of a fresh name is the counter's numeral,
      and reads back as the counter. */
  lemma {:induction false} FreshNameSuffix(base: string, k: nat)
    ensures AfterLastDollar(FreshName(base, k)) == Decimal(k)
    ensures ParseDecimal(AfterLastDollar(FreshName(base, k))) == k
  {
    var d := Decimal(k);
    assert forall c :: 0 <= c < |d| ==> d[c] != '$';
    AfterLastDollarOfName(base, d);
    DecimalRoundTrip(k);
  }

  /** The names a run of declarations gets from the counter starting at `k`:
      each original name with the counter as it stands at that declaration. */
  function Fresh(names: seq<string>, k: nat): (r: seq<string>)
    ensures |r| == |names|
  {
    if names == [] then [] else [FreshName(names[0], k)] + Fresh(names[1..], k + 1)
  }

  /** The `i`-th fresh name carries the counter `k + i`. */
  lemma {:induction false} FreshAt(names: seq<string>, k: nat, i: nat)
    requires i < |names|
    ensures Fresh(names, k)[i] == FreshName(names[i], k + i)
  {
    if i > 0 {
      FreshAt(names[1..], k + 1, i - 1);
    }
  }

  lemma {:induction false} FreshAppend(a: seq<string>, b: seq<string>, k: nat)
    ensures Fresh(a + b, k) == Fresh(a, k) + Fresh(b, k + |a|)
  {
    if a == [] {
      assert a + b == b;
    } else {
      assert (a + b)[1..] == a[1..] + b;
      FreshAppend(a[1..], b, k + 1);
    }
  }

  /** Names issued from one counter never repeat, whatever their bases. */
  lemma {:induction false} FreshDistinct(names: seq<string>, k: nat, i: nat, j: nat)
    requires i < |names| && j < |names| && i != j
    ensures Fresh(names, k)[i] != Fresh(names, k)[j]
  {
    FreshAt(names, k, i);
    FreshAt(names, k, j);
    if Fresh(names, k)[i] == Fresh(names, k)[j] {
      FreshNameCounter(names[i], k + i, names[j], k + j);
    }
  }

  // ---------------------------------------------------------------------------
  // Scopes

  /** The binding of `name` in the innermost scope that has one; `""` when
      no scope does. */
  function Lookup(scopes: seq<map<string, string>>, name: string): string {
    if scopes == [] then ""
    else if name in scopes[|scopes| - 1] then scopes[|scopes| - 1][name]
    else Lookup(scopes[..|scopes| - 1], name)
  }

  /** Lookup finds the binding of the innermost scope holding the name ... */
  lemma {:induction false} LookupInnermost(scopes: seq<map<string, string>>, name: string, j: nat)
    requires j < |scopes| && name in scopes[j]
    requires forall k :: j < k < |scopes| ==> name !in scopes[k]
    ensures Lookup(scopes, name) == scopes[j][name]
    decreases |scopes|
  {
    if j < |scopes| - 1 {
      var front := scopes[..|scopes| - 1];
      LookupInnermost(front, name, j);
    }
  }

  /** ... and the empty string when none holds it. */
  lemma {:induction false} LookupUnbound(scopes: seq<map<string, string>>, name: string)
    requires forall k :: 0 <= k < |scopes| ==> name !in scopes[k]
    ensures Lookup(scopes, name) == ""
    decreases |scopes|
  {
    if scopes != [] {
      LookupUnbound(scopes[..|scopes| - 1], name);
    }
  }

  /** Renaming a subtree from a non-empty stack leaves its depth and every
      scope but the innermost alone; from an empty stack it leaves at most
      the one scope a declaration creates. */
  predicate Balanced(before: seq<map<string, string>>, after: seq<map<string, string>>) {
    (|before| > 0 ==> |after| == |before| && after[..|after| - 1] == before[..|before| - 1]) &&
    (|before| == 0 ==> |after| <= 1)
  }

  // ---------------------------------------------------------------------------
  // What the walk declares and keeps

  /** The declared names of a subtree in walk order: declarations, and the
      parameter of a function when it is a variable. */
  function DeclNames(n: Node): seq<string> {
    match n
    case Null => []
    case Prog(func) => DeclNames(func)
    case Func(param, body) => (if param.Var? then [param.name] else DeclNames(param)) + DeclNames(body)
    case Stmt(s) => DeclNamesStmt(s)
    case Var(_) => []
    case Cnst(_) => []
    case UExpr(e) => DeclNames(e)
    case BExpr(l, r) => DeclNames(l) + DeclNames(r)
    case RExpr(l, r) => DeclNames(l) + DeclNames(r)
    case ReadCall => []
    case Extern => []
  }

  function DeclNamesStmt(s: Statement): seq<string> {
    match s
    case Decl(x) => [x]
    case Asgn(t, v) => DeclNames(t) + DeclNames(v)
    case Call(a) => DeclNames(a)
    case Ret(e) => DeclNames(e)
    case If(c, t, e) => DeclNames(c) + DeclNames(t) + DeclNames(e)
    case While(g, b) => DeclNames(g) + DeclNames(b)
    case Block(l) => DeclNamesList(l)
  }

  function DeclNamesList(l: seq<Node>): seq<string> {
    if l == [] then [] else DeclNamesList(l[..|l| - 1]) + DeclNames(l[|l| - 1])
  }

  /** The tree with every variable and declaration name blanked: what the
      pass must not change. */
  function Skeleton(n: Node): Node {
    match n
    case Null => Null
    case Prog(func) => Prog(Skeleton(func))
    case Func(param, body) => Func(Skeleton(param), Skeleton(body))
    case Stmt(s) => Stmt(SkeletonStmt(s))
    case Var(_) => Var("")
    case Cnst(v) => Cnst(v)
    case UExpr(e) => UExpr(Skeleton(e))
    case BExpr(l, r) => BExpr(Skeleton(l), Skeleton(r))
    case RExpr(l, r) => RExpr(Skeleton(l), Skeleton(r))
    case ReadCall => ReadCall
    case Extern => Extern
  }

  function SkeletonStmt(s: Statement): Statement {
    match s
    case Decl(_) => Decl("")
    case Asgn(t, v) => Asgn(Skeleton(t), Skeleton(v))
    case Call(a) => Call(Skeleton(a))
    case Ret(e) => Ret(Skeleton(e))
    case If(c, t, e) => If(Skeleton(c), Skeleton(t), Skeleton(e))
    case While(g, b) => While(Skeleton(g), Skeleton(b))
    case Block(l) => Block(SkeletonList(l))
  }

  function SkeletonList(l: seq<Node>): seq<Node> {
    if l == [] then [] else SkeletonList(l[..|l| - 1]) + [Skeleton(l[|l| - 1])]
  }

  // ---------------------------------------------------------------------------
  // The pass, as functions of the scope stack and the counter

  /** The pass's global state: the scope stack and the next counter value. */
  datatype State = State(scopes: seq<map<string, string>>, next: nat)

  function Enter(st: State): State {
    State(st.scopes + [map[]], st.next)
  }

  function Exit(st: State): State {
    if st.scopes == [] then st else State(st.scopes[..|st.scopes| - 1], st.next)
  }

  /** A declaration of `original`: its fresh name, bound in the innermost
      scope (created when the stack is empty), and the counter moved on. */
  function Declare(st: State, original: string): (string, State) {
    var u := FreshName(original, st.next);
    var base := if st.scopes == [] then [map[]] else st.scopes;
    (u, State(base[..|base| - 1] + [base[|base| - 1][original := u]], st.next + 1))
  }

  /** What renaming a subtree yields and leaves behind, by node kind. */
  function RenamedNode(n: Node, st: State): (Node, State)
    decreases n, 3
  {
    match n
    case Prog(func) =>
      var (f, st1) := RenamedNode(func, st);
      (Prog(f), st1)
    case Func(_, _) => RenamedFunction(n, st)
    case Stmt(_) => RenamedStatement(n, st)
    case Var(name) =>
      var u := Lookup(st.scopes, name);
      (if u == "" then n else Var(u), st)
    case UExpr(e) =>
      var (e', st1) := RenamedNode(e, st);
      (UExpr(e'), st1)
    case BExpr(lhs, rhs) =>
      var (l, st1) := RenamedNode(lhs, st);
      var (r, st2) := RenamedNode(rhs, st1);
      (BExpr(l, r), st2)
    case RExpr(lhs, rhs) =>
      var (l, st1) := RenamedNode(lhs, st);
      var (r, st2) := RenamedNode(rhs, st1);
      (RExpr(l, r), st2)
    case _ => (n, st)
  }

  /** A function: its parameter is declared (or renamed, when it is not a
      variable) and its body renamed in a scope of their own. */
  function RenamedFunction(n: Node, st: State): (Node, State)
    requires n.Func?
    decreases n, 2
  {
    var st1 := Enter(st);
    var (p, st2) :=
      if n.param.Var? then
        var (u, s) := Declare(st1, n.param.name);
        (Var(u), s)
      else if n.param.Null? then (n.param, st1)
      else RenamedNode(n.param, st1);
    var (b, st3) := RenamedStmtList(n.body, st2);
    (Func(p, b), Exit(st3))
  }

  /** A statement, by kind; anything else is left as it is. */
  function RenamedStatement(n: Node, st: State): (Node, State)
    decreases n, 1
  {
    if !n.Stmt? then (n, st)
    else
      match n.stmt
      case Decl(name) =>
        var (u, st1) := Declare(st, name);
        (Stmt(Decl(u)), st1)
      case Asgn(target, source) =>
        var (t, st1) := RenamedNode(target, st);
        var (v, st2) := RenamedNode(source, st1);
        (Stmt(Asgn(t, v)), st2)
      case Call(arg) =>
        if arg.Null? then (n, st)
        else
          var (a, st1) := RenamedNode(arg, st);
          (Stmt(Call(a)), st1)
      case Ret(result) =>
        var (e, st1) := RenamedNode(result, st);
        (Stmt(Ret(e)), st1)
      case If(cond, thenBody, elseBody) =>
        var (c, st1) := RenamedNode(cond, st);
        var (t, st2) := RenamedNode(thenBody, st1);
        var (e, st3) := if elseBody.Null? then (elseBody, st2) else RenamedNode(elseBody, st2);
        (Stmt(If(c, t, e)), st3)
      case While(guard, loopBody) =>
        var (g, st1) := RenamedNode(guard, st);
        var (b, st2) := RenamedNode(loopBody, st1);
        (Stmt(While(g, b)), st2)
      case Block(_) =>
        var (r, st1) := RenamedStmtList(n, Enter(st));
        (r, Exit(st1))
  }

  /** The statements of a block statement in order, in the current scope;
      any other node on its own. */
  function RenamedStmtList(n: Node, st: State): (Node, State)
    decreases n, if n.Stmt? && n.stmt.Block? then 0 else 4
  {
    if n.Null? then (n, st)
    else if !(n.Stmt? && n.stmt.Block?) then RenamedNode(n, st)
    else
      var (out, st1) := RenamedList(n.stmt.list, st);
      (Stmt(Block(out)), st1)
  }

  function RenamedList(l: seq<Node>, st: State): (seq<Node>, State)
    decreases l, 5
  {
    if l == [] then ([], st)
    else
      var (out, st1) := RenamedList(l[..|l| - 1], st);
      var (c, st2) := RenamedNode(l[|l| - 1], st1);
      (out + [c], st2)
  }

  /** The renamed program: the tree renamed from an empty stack and a zero
      counter. */
  function RenamedProgram(root: Node): Node {
    RenamedNode(root, State([], 0)).0
  }

  // ---------------------------------------------------------------------------
  // Counter and declared names

  /** Renaming consumes one counter value per declaration, and the `i`-th
      declaration of the result is the `i`-th of the input with the counter
      it found. */
  lemma {:induction false} NodeNames(n: Node, st: State)
    ensures var (r, st') := RenamedNode(n, st);
            st'.next == st.next + |DeclNames(n)| && DeclNames(r) == Fresh(DeclNames(n), st.next)
    decreases n, 3
  {
    match n
    case Prog(func) =>
      NodeNames(func, st);
    case Func(_, _) =>
      FunctionNames(n, st);
    case Stmt(_) =>
      StatementNames(n, st);
    case Var(_) =>
    case UExpr(e) =>
      NodeNames(e, st);
    case BExpr(lhs, rhs) =>
      PairNames(n, lhs, rhs, st);
    case RExpr(lhs, rhs) =>
      PairNames(n, lhs, rhs, st);
    case _ =>
  }

  lemma {:induction false} PairNames(parent: Node, a: Node, b: Node, st: State)
    requires a < parent && b < parent
    ensures var (x, st1) := RenamedNode(a, st);
            var (y, st2) := RenamedNode(b, st1);
            st2.next == st.next + |DeclNames(a) + DeclNames(b)| &&
            DeclNames(x) + DeclNames(y) == Fresh(DeclNames(a) + DeclNames(b), st.next)
    decreases parent, 0
  {
    NodeNames(a, st);
    NodeNames(b, RenamedNode(a, st).1);
    FreshAppend(DeclNames(a), DeclNames(b), st.next);
  }
  lemma {:induction false} FunctionNames(n: Node, st: State)
    requires n.Func?
    ensures var (r, st') := RenamedFunction(n, st);
            st'.next == st.next + |DeclNames(n)| && DeclNames(r) == Fresh(DeclNames(n), st.next)
    decreases n, 2
  {
    var st1 := Enter(st);
    if n.param.Var? {
      var (u, st2) := Declare(st1, n.param.name);
      var (b, st3) := RenamedStmtList(n.body, st2);
      assert RenamedFunction(n, st) == (Func(Var(u), b), Exit(st3));
      StmtListNames(n.body, st2);
      assert Fresh([n.param.name], st.next) == [u];
      FreshAppend([n.param.name], DeclNames(n.body), st.next);
    } else if n.param.Null? {
      var (b, st3) := RenamedStmtList(n.body, st1);
      assert RenamedFunction(n, st) == (Func(n.param, b), Exit(st3));
      StmtListNames(n.body, st1);
      assert DeclNames(n) == DeclNames(n.body);
    } else {
      var (p, st2) := RenamedNode(n.param, st1);
      var (b, st3) := RenamedStmtList(n.body, st2);
      assert RenamedFunction(n, st) == (Func(p, b), Exit(st3));
      NodeShape(n.param, st1);
      assert !p.Var?;
      NodeNames(n.param, st1);
      StmtListNames(n.body, st2);
      FreshAppend(DeclNames(n.param), DeclNames(n.body), st.next);
    }
  }

  lemma {:induction false} StatementNames(n: Node, st: State)
    requires n.Stmt?
    ensures var (r, st') := RenamedStatement(n, st);
            st'.next == st.next + |DeclNames(n)| && DeclNames(r) == Fresh(DeclNames(n), st.next)
    decreases n, 1
  {
    match n.stmt
    case Decl(name) =>
      assert Fresh([name], st.next) == [FreshName(name, st.next)];
    case Asgn(target, source) =>
      PairNames(n, target, source, st);
    case Call(arg) =>
      NodeNames(arg, st);
    case Ret(result) =>
      NodeNames(result, st);
    case If(_, _, _) =>
      IfNames(n, st);
    case While(guard, loopBody) =>
      PairNames(n, guard, loopBody, st);
    case Block(_) =>
      StmtListNames(n, Enter(st));
  }

  lemma {:induction false} IfNames(n: Node, st: State)
    requires n.Stmt? && n.stmt.If?
    ensures var (r, st') := RenamedStatement(n, st);
            st'.next == st.next + |DeclNames(n)| && DeclNames(r) == Fresh(DeclNames(n), st.next)
    decreases n, 0
  {
    var If(cond, thenBody, elseBody) := n.stmt;
    var (c, st1) := RenamedNode(cond, st);
    var (t, st2) := RenamedNode(thenBody, st1);
    NodeNames(cond, st);
    NodeNames(thenBody, st1);
    NodeNames(elseBody, st2);
    FreshAppend(DeclNames(cond), DeclNames(thenBody), st.next);
    FreshAppend(DeclNames(cond) + DeclNames(thenBody), DeclNames(elseBody), st.next);
  }

  lemma {:induction false} StmtListNames(n: Node, st: State)
    ensures var (r, st') := RenamedStmtList(n, st);
            st'.next == st.next + |DeclNames(n)| && DeclNames(r) == Fresh(DeclNames(n), st.next)
    decreases n, if n.Stmt? && n.stmt.Block? then 0 else 4
  {
    if n.Null? {
    } else if !(n.Stmt? && n.stmt.Block?) {
      NodeNames(n, st);
    } else {
      ListNames(n.stmt.list, st);
    }
  }

  lemma {:induction false} ListNames(l: seq<Node>, st: State)
    ensures var (out, st') := RenamedList(l, st);
            st'.next == st.next + |DeclNamesList(l)| && DeclNamesList(out) == Fresh(DeclNamesList(l), st.next)
    decreases l, 5
  {
    if l != [] {
      var front := l[..|l| - 1];
      ListNames(front, st);
      var (out, st1) := RenamedList(front, st);
      NodeNames(l[|l| - 1], st1);
      var (c, st2) := RenamedNode(l[|l| - 1], st1);
      assert (out + [c])[..|out|] == out;
      FreshAppend(DeclNamesList(front), DeclNames(l[|l| - 1]), st.next);
    }
  }

  // ---------------------------------------------------------------------------
  // Shape

  /** Renaming changes names and nothing else. */
  lemma {:induction false} NodeShape(n: Node, st: State)
    ensures Skeleton(RenamedNode(n, st).0) == Skeleton(n)
    decreases n, 3
  {
    match n
    case Prog(func) =>
      NodeShape(func, st);
    case Func(_, _) =>
      FunctionShape(n, st);
    case Stmt(_) =>
      StatementShape(n, st);
    case Var(_) =>
    case UExpr(e) =>
      NodeShape(e, st);
    case BExpr(lhs, rhs) =>
      NodeShape(lhs, st);
      NodeShape(rhs, RenamedNode(lhs, st).1);
    case RExpr(lhs, rhs) =>
      NodeShape(lhs, st);
      NodeShape(rhs, RenamedNode(lhs, st).1);
    case _ =>
  }

  lemma {:induction false} FunctionShape(n: Node, st: State)
    requires n.Func?
    ensures Skeleton(RenamedFunction(n, st).0) == Skeleton(n)
    decreases n, 2
  {
    var st1 := Enter(st);
    if n.param.Var? {
      StmtListShape(n.body, Declare(st1, n.param.name).1);
    } else if n.param.Null? {
      StmtListShape(n.body, st1);
    } else {
      NodeShape(n.param, st1);
      StmtListShape(n.body, RenamedNode(n.param, st1).1);
    }
  }

  lemma {:induction false} StatementShape(n: Node, st: State)
    ensures Skeleton(RenamedStatement(n, st).0) == Skeleton(n)
    decreases n, 1
  {
    if n.Stmt? {
      match n.stmt
      case Decl(_) =>
      case Asgn(target, source) =>
        NodeShape(target, st);
        NodeShape(source, RenamedNode(target, st).1);
      case Call(arg) =>
        NodeShape(arg, st);
      case Ret(result) =>
        NodeShape(result, st);
      case If(cond, thenBody, elseBody) =>
        var st1 := RenamedNode(cond, st).1;
        NodeShape(cond, st);
        NodeShape(thenBody, st1);
        NodeShape(elseBody, RenamedNode(thenBody, st1).1);
      case While(guard, loopBody) =>
        NodeShape(guard, st);
        NodeShape(loopBody, RenamedNode(guard, st).1);
      case Block(_) =>
        StmtListShape(n, Enter(st));
    }
  }

  lemma {:induction false} StmtListShape(n: Node, st: State)
    ensures Skeleton(RenamedStmtList(n, st).0) == Skeleton(n)
    decreases n, if n.Stmt? && n.stmt.Block? then 0 else 4
  {
    if n.Null? {
    } else if !(n.Stmt? && n.stmt.Block?) {
      NodeShape(n, st);
    } else {
      ListShape(n.stmt.list, st);
    }
  }

  lemma {:induction false} ListShape(l: seq<Node>, st: State)
    ensures SkeletonList(RenamedList(l, st).0) == SkeletonList(l)
    decreases l, 5
  {
    if l != [] {
      var front := l[..|l| - 1];
      ListShape(front, st);
      var (out, st1) := RenamedList(front, st);
      NodeShape(l[|l| - 1], st1);
      var (c, st2) := RenamedNode(l[|l| - 1], st1);
      assert (out + [c])[..|out|] == out;
    }
  }

  // ---------------------------------------------------------------------------
  // Scopes are restored

  lemma {:induction false} BalancedTrans(a: seq<map<string, string>>, b: seq<map<string, string>>, c: seq<map<string, string>>)
    requires Balanced(a, b) && Balanced(b, c)
    ensures Balanced(a, c)
  {
    if |a| > 0 {
      assert c[..|c| - 1] == b[..|b| - 1];
    }
  }

  /** Renaming a subtree touches only the innermost scope, and a function
      leaves the stack exactly as it found it. */
  lemma {:induction false} NodeScopes(n: Node, st: State)
    ensures Balanced(st.scopes, RenamedNode(n, st).1.scopes)
    ensures n.Func? ==> RenamedNode(n, st).1.scopes == st.scopes
    decreases n, 3
  {
    match n
    case Prog(func) =>
      NodeScopes(func, st);
    case Func(_, _) =>
      FunctionScopes(n, st);
    case Stmt(_) =>
      StatementScopes(n, st);
    case Var(_) =>
    case UExpr(e) =>
      NodeScopes(e, st);
    case BExpr(lhs, rhs) =>
      PairScopes(n, lhs, rhs, st);
    case RExpr(lhs, rhs) =>
      PairScopes(n, lhs, rhs, st);
    case _ =>
  }

  lemma {:induction false} PairScopes(parent: Node, a: Node, b: Node, st: State)
    requires a < parent && b < parent
    ensures Balanced(st.scopes, RenamedNode(b, RenamedNode(a, st).1).1.scopes)
    decreases parent, 0
  {
    var st1 := RenamedNode(a, st).1;
    NodeScopes(a, st);
    NodeScopes(b, st1);
    BalancedTrans(st.scopes, st1.scopes, RenamedNode(b, st1).1.scopes);
  }

  lemma {:induction false} FunctionScopes(n: Node, st: State)
    requires n.Func?
    ensures RenamedFunction(n, st).1.scopes == st.scopes
    decreases n, 2
  {
    var st1 := Enter(st);
    var st2 := if n.param.Var? then Declare(st1, n.param.name).1
               else if n.param.Null? then st1
               else RenamedNode(n.param, st1).1;
    if !n.param.Var? && !n.param.Null? {
      NodeScopes(n.param, st1);
    }
    var st3 := RenamedStmtList(n.body, st2).1;
    StmtListScopes(n.body, st2);
    BalancedTrans(st1.scopes, st2.scopes, st3.scopes);
    assert RenamedFunction(n, st).1 == Exit(st3);
    assert st3.scopes[..|st3.scopes| - 1] == st1.scopes[..|st1.scopes| - 1] == st.scopes;
  }

  lemma {:induction false} StatementScopes(n: Node, st: State)
    ensures Balanced(st.scopes, RenamedStatement(n, st).1.scopes)
    ensures n.Stmt? && n.stmt.Block? ==> RenamedStatement(n, st).1.scopes == st.scopes
    decreases n, 1
  {
    if n.Stmt? {
      match n.stmt
      case Decl(_) =>
      case Asgn(target, source) =>
        PairScopes(n, target, source, st);
      case Call(arg) =>
        NodeScopes(arg, st);
      case Ret(result) =>
        NodeScopes(result, st);
      case If(cond, thenBody, elseBody) =>
        PairScopes(n, cond, thenBody, st);
        var st2 := RenamedNode(thenBody, RenamedNode(cond, st).1).1;
        NodeScopes(elseBody, st2);
        BalancedTrans(st.scopes, st2.scopes, RenamedNode(elseBody, st2).1.scopes);
      case While(guard, loopBody) =>
        PairScopes(n, guard, loopBody, st);
      case Block(_) =>
        var st1 := Enter(st);
        var st2 := RenamedStmtList(n, st1).1;
        StmtListScopes(n, st1);
        assert st2.scopes[..|st2.scopes| - 1] == st1.scopes[..|st1.scopes| - 1] == st.scopes;
    }
  }

  lemma {:induction false} StmtListScopes(n: Node, st: State)
    ensures Balanced(st.scopes, RenamedStmtList(n, st).1.scopes)
    decreases n, if n.Stmt? && n.stmt.Block? then 0 else 4
  {
    if n.Null? {
    } else if !(n.Stmt? && n.stmt.Block?) {
      NodeScopes(n, st);
    } else {
      ListScopes(n.stmt.list, st);
    }
  }

  lemma {:induction false} ListScopes(l: seq<Node>, st: State)
    ensures Balanced(st.scopes, RenamedList(l, st).1.scopes)
    decreases l, 5
  {
    if l != [] {
      var front := l[..|l| - 1];
      ListScopes(front, st);
      var st1 := RenamedList(front, st).1;
      NodeScopes(l[|l| - 1], st1);
      BalancedTrans(st.scopes, st1.scopes, RenamedNode(l[|l| - 1], st1).1.scopes);
    }
  }

  // ---------------------------------------------------------------------------
  // The whole pass

  /** Renaming a program keeps its shape, gives its `i`-th declaration the
      suffix `$i`, and so never gives two declarations the same name. */
  lemma {:induction false} RenamedProgramUnique(root: Node)
    ensures Skeleton(RenamedProgram(root)) == Skeleton(root)
    ensures DeclNames(RenamedProgram(root)) == Fresh(DeclNames(root), 0)
    ensures forall i, j :: 0 <= i < j < |DeclNames(RenamedProgram(root))| ==>
              DeclNames(RenamedProgram(root))[i] != DeclNames(RenamedProgram(root))[j]
  {
    NodeShape(root, State([], 0));
    NodeNames(root, State([], 0));
    var names := DeclNames(RenamedProgram(root));
    forall i, j | 0 <= i < j < |names| ensures names[i] != names[j] {
      FreshDistinct(DeclNames(root), 0, i, j);
    }
  }

  /** The state of one renaming pass: the scope stack and the counter of
      fresh names. */
  class Renamer {
    var scopes: seq<map<string, string>>
    var uniqueId: nat

    constructor ()
      ensures scopes == [] && uniqueId == 0
    {
      scopes := [];
      uniqueId := 0;
    }

    function Current(): State
      reads this
    {
      State(scopes, uniqueId)
    }

    /** Pushes an empty scope. */
    method EnterScope()
      modifies this
      ensures scopes == old(scopes) + [map[]] && uniqueId == old(uniqueId)
      ensures Current() == Enter(old(Current()))
    {
      scopes := scopes + [map[]];
    }

    /** Pops the innermost scope; an empty stack stays empty. */
    method ExitScope()
      modifies this
      ensures old(scopes) == [] ==> scopes == []
      ensures old(scopes) != [] ==> scopes == old(scopes)[..|old(scopes)| - 1]
      ensures uniqueId == old(uniqueId)
      ensures Current() == Exit(old(Current()))
    {
      if scopes != [] {
        scopes := scopes[..|scopes| - 1];
      }
    }

    /** `original$N` for the current counter `N`, which then moves on. */
    method MakeUniqueName(original: string) returns (u: string)
      modifies this
      ensures u == FreshName(original, old(uniqueId))
      ensures uniqueId == old(uniqueId) + 1 && scopes == old(scopes)
    {
      u := FreshName(original, uniqueId);
      uniqueId := uniqueId + 1;
    }

    /** Binds `original` to a fresh name in the innermost scope, creating a
        scope first when there is none; an earlier binding of the same name
        in that scope is overwritten.  Lookups of `original` now find the
        fresh name. */
    method DeclareUnique(original: string) returns (u: string)
      modifies this
      ensures (u, Current()) == Declare(old(Current()), original)
      ensures Lookup(scopes, original) == u
    {
      if scopes == [] {
        EnterScope();
      }
      u := MakeUniqueName(original);
      scopes := scopes[..|scopes| - 1] + [scopes[|scopes| - 1][original := u]];
    }

    /** Looks `name` up from the innermost scope outwards. */
    method ResolveUnique(name: string) returns (u: string)
      ensures u == Lookup(scopes, name)
    {
      var i := |scopes|;
      assert scopes[..i] == scopes;
      while i > 0
        invariant 0 <= i <= |scopes|
        invariant Lookup(scopes, name) == Lookup(scopes[..i], name)
      {
        assert scopes[..i][..i - 1] == scopes[..i - 1];
        i := i - 1;
        if name in scopes[i] {
          return scopes[i][name];
        }
      }
      return "";
    }

    /** Renames a subtree by node kind. */
    method RenameNode(n: Node) returns (r: Node)
      modifies this
      decreases n, 3
      ensures (r, Current()) == RenamedNode(n, old(Current()))
    {
      match n
      case Prog(func) =>
        var f := RenameNode(func);
        r := Prog(f);
      case Func(_, _) =>
        r := RenameFunction(n);
      case Stmt(_) =>
        r := RenameStatement(n);
      case Var(name) =>
        var u := ResolveUnique(name);
        r := if u == "" then n else Var(u);
      case UExpr(e) =>
        var e' := RenameNode(e);
        r := UExpr(e');
      case BExpr(lhs, rhs) =>
        var l := RenameNode(lhs);
        var rr := RenameNode(rhs);
        r := BExpr(l, rr);
      case RExpr(lhs, rhs) =>
        var l := RenameNode(lhs);
        var rr := RenameNode(rhs);
        r := RExpr(l, rr);
      case _ =>
        r := n;
    }

    /** Renames a function: a scope is pushed for its parameter and the top
        level of its body, and popped afterwards. */
    method RenameFunction(n: Node) returns (r: Node)
      requires n.Func?
      modifies this
      decreases n, 2
      ensures (r, Current()) == RenamedFunction(n, old(Current()))
    {
      EnterScope();
      var p := n.param;
      if n.param.Var? {
        var u := DeclareUnique(n.param.name);
        p := Var(u);
      } else if !n.param.Null? {
        p := RenameNode(n.param);
      }
      var b := RenameStmtList(n.body);
      ExitScope();
      r := Func(p, b);
    }

    /** Renames a statement by kind.  A declaration takes a fresh name; a
        block statement pushes a scope for its list and pops it afterwards. */
    method RenameStatement(n: Node) returns (r: Node)
      modifies this
      decreases n, 1
      ensures (r, Current()) == RenamedStatement(n, old(Current()))
    {
      if !n.Stmt? {
        return n;
      }
      match n.stmt
      case Decl(name) =>
        var u := DeclareUnique(name);
        r := Stmt(Decl(u));
      case Asgn(target, source) =>
        var t := RenameNode(target);
        var s := RenameNode(source);
        r := Stmt(Asgn(t, s));
      case Call(arg) =>
        r := n;
        if !arg.Null? {
          var a := RenameNode(arg);
          r := Stmt(Call(a));
        }
      case Ret(result) =>
        var e := RenameNode(result);
        r := Stmt(Ret(e));
      case If(cond, thenBody, elseBody) =>
        var c := RenameNode(cond);
        var t := RenameNode(thenBody);
        var e := elseBody;
        if !elseBody.Null? {
          e := RenameNode(elseBody);
        }
        r := Stmt(If(c, t, e));
      case While(guard, loopBody) =>
        var g := RenameNode(guard);
        var b := RenameNode(loopBody);
        r := Stmt(While(g, b));
      case Block(_) =>
        EnterScope();
        r := RenameStmtList(n);
        ExitScope();
    }

    /** Renames the statements of a block statement in order, in the current
        scope; any other node is renamed on its own. */
    method RenameStmtList(n: Node) returns (r: Node)
      modifies this
      decreases n, if n.Stmt? && n.stmt.Block? then 0 else 4
      ensures (r, Current()) == RenamedStmtList(n, old(Current()))
    {
      if n.Null? {
        return n;
      }
      if !(n.Stmt? && n.stmt.Block?) {
        r := RenameNode(n);
        return;
      }
      var list := n.stmt.list;
      var out: seq<Node> := [];
      for i := 0 to |list|
        invariant (out, Current()) == RenamedList(list[..i], old(Current()))
      {
        var c := RenameNode(list[i]);
        assert list[..i + 1][..i] == list[..i];
        out := out + [c];
      }
      assert list[..|list|] == list;
      r := Stmt(Block(out));
    }

    /** The whole pass: resets the stack and the counter, renames the tree,
        and empties the stack again. */
    method RenameVariablesUnique(root: Node) returns (r: Node)
      modifies this
      ensures r == RenamedProgram(root)
      ensures scopes == [] && uniqueId == |DeclNames(root)|
    {
      scopes := [];
      uniqueId := 0;
      r := RenameNode(root);
      NodeNames(root, State([], 0));
      scopes := [];
    }
  }
}
