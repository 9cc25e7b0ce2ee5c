/**
 Values of bool and tristate symbols in tools/kconfiglib.py, computed from
 scratch: the meaning that the cached values must have.

 A symbol's definition refers to other symbols in prompt conditions, defaults,
 selects (revDep), implies (weakRevDep) and dependencies (directDep).  The
 reads of an evaluation are the symbols it really looks at: both operators and
 the search for a default stop early.
 */
module Kconfig {

  type Sym = nat

  datatype Option<T> = None | Some(value: T)

  /** A symbol that is only referred to has no type. */
  datatype Kind = Bool | Tristate | Unknown

  datatype Relation = Equal | Unequal | Less | LessEqual | Greater | GreaterEqual

  /**
   A Word is a compared symbol without type: a constant, or a symbol that nothing defines.  It stands for its name,
   or for the number that int() makes of the name.
   */
  datatype Expr =
    | Const(v: int)
    | Ref(s: Sym)
    | And(a: Expr, b: Expr)
    | Or(a: Expr, b: Expr)
    | Not(a: Expr)
    | Cmp(op: Relation, a: Expr, b: Expr)
    | Word(sym: Option<Sym>, name: string, num: Option<int>)

  datatype Def = Def(kind: Kind, prompts: seq<Expr>, defaults: seq<(Expr, Expr)>,
                     revDep: Expr, weakRevDep: Expr, directDep: Expr)

  /** The symbols, the MODULES symbol, and a rank that witnesses the absence of dependency loops. */
  datatype Config = Config(defs: map<Sym, Def>, modules: Sym, rank: Sym -> nat)

  type Values = Sym -> int
  type Users = map<Sym, int>

  function Min(x: int, y: int): int {
    if x < y then x else y
  }

  function Max(x: int, y: int): int {
    if x > y then x else y
  }

  predicate Holds(op: Relation, x: int, y: int) {
    match op
    case Equal => x == y
    case Unequal => x != y
    case Less => x < y
    case LessEqual => x <= y
    case Greater => x > y
    case GreaterEqual => x >= y
  }

  /** _strcmp */
  function Compared(x: string, y: string): int {
    if x == [] then (if y == [] then 0 else -1)
    else if y == [] then 1
    else if x[0] != y[0] then (if x[0] < y[0] then -1 else 1)
    else Compared(x[1..], y[1..])
  }

  /** TRI_TO_STR */
  function TriText(x: int): string {
    if x == 0 then "n" else if x == 1 then "m" else "y"
  }

  /** _sym_to_num; None if the symbol does not parse as a number. */
  function NumberOf(e: Expr, x: int): Option<int> {
    if e.Word? then e.num else Some(x)
  }

  function TextOf(e: Expr, x: int): string {
    if e.Word? then e.name else TriText(x)
  }

  /** A relation between operands whose values are x and y: of numbers if both are, of texts otherwise. */
  function Related(op: Relation, a: Expr, x: int, b: Expr, y: int): bool {
    var m, n := NumberOf(a, x), NumberOf(b, y);
    Holds(op, if m.Some? && n.Some? then m.value - n.value else Compared(TextOf(a, x), TextOf(b, y)), 0)
  }

  // ---------------------------------------------------------------- expressions

  /** What an expression means, without any short cut. */
  function Eval(e: Expr, v: Values): int {
    match e
    case Const(c) => c
    case Ref(s) => v(s)
    case And(a, b) => Min(Eval(a, v), Eval(b, v))
    case Or(a, b) => Max(Eval(a, v), Eval(b, v))
    case Not(a) => 2 - Eval(a, v)
    case Cmp(op, a, b) => if Related(op, a, Eval(a, v), b, Eval(b, v)) then 2 else 0
    case Word(_, _, _) => 0
  }

  /** The symbols that expr_value looks at, given its short circuits. */
  function Reads(e: Expr, v: Values): set<Sym> {
    match e
    case Const(_) => {}
    case Ref(s) => {s}
    case And(a, b) => Reads(a, v) + if Eval(a, v) == 0 then {} else Reads(b, v)
    case Or(a, b) => Reads(a, v) + if Eval(a, v) == 2 then {} else Reads(b, v)
    case Not(a) => Reads(a, v)
    case Cmp(_, a, b) => Reads(a, v) + Reads(b, v)
    case Word(_, _, _) => {}
  }

  /** All symbols that appear in an expression. */
  function Refs(e: Expr): set<Sym> {
    match e
    case Const(_) => {}
    case Ref(s) => {s}
    case And(a, b) => Refs(a) + Refs(b)
    case Or(a, b) => Refs(a) + Refs(b)
    case Not(a) => Refs(a)
    case Cmp(_, a, b) => Refs(a) + Refs(b)
    case Word(s, _, _) => if s.Some? then {s.value} else {}
  }

  /** Tristate constants only. */
  predicate Proper(e: Expr) {
    match e
    case Const(c) => 0 <= c <= 2
    case Ref(_) => true
    case And(a, b) => Proper(a) && Proper(b)
    case Or(a, b) => Proper(a) && Proper(b)
    case Not(a) => Proper(a)
    case Cmp(_, a, b) => Proper(a) && Proper(b)
    case Word(_, _, _) => true
  }

  ghost predicate InRange(v: Values) {
    forall s :: 0 <= v(s) <= 2
  }

  lemma EvalRange(e: Expr, v: Values)
    requires Proper(e) && InRange(v)
    ensures 0 <= Eval(e, v) <= 2
  {
  }

  lemma ReadsAreRefs(e: Expr, v: Values)
    ensures Reads(e, v) <= Refs(e)
  {
  }

  /** Two valuations that agree on what an evaluation reads give the same result by the same reads. */
  lemma {:induction false} EvalLocal(e: Expr, v: Values, w: Values)
    requires Proper(e) && InRange(v) && InRange(w)
    requires forall s :: s in Reads(e, v) ==> v(s) == w(s)
    ensures Eval(e, v) == Eval(e, w) && Reads(e, v) == Reads(e, w)
  {
    match e
    case Const(_) =>
    case Ref(_) => assert e.s in Reads(e, v);
    case And(a, b) =>
      EvalLocal(a, v, w);
      EvalRange(b, v);
      EvalRange(b, w);
      if Eval(a, v) != 0 {
        EvalLocal(b, v, w);
      }
    case Or(a, b) =>
      EvalLocal(a, v, w);
      EvalRange(b, v);
      EvalRange(b, w);
      if Eval(a, v) != 2 {
        EvalLocal(b, v, w);
      }
    case Not(a) => EvalLocal(a, v, w);
    case Cmp(_, a, b) =>
      EvalLocal(a, v, w);
      EvalLocal(b, v, w);
    case Word(_, _, _) =>
  }

  // ---------------------------------------------------------------- visibility

  /** The loop of _visibility over the prompts. */
  function PromptVal(ps: seq<Expr>, v: Values): int {
    if ps == [] then 0 else Max(PromptVal(ps[..|ps| - 1], v), Eval(ps[|ps| - 1], v))
  }

  function PromptReads(ps: seq<Expr>, v: Values): set<Sym> {
    if ps == [] then {} else PromptReads(ps[..|ps| - 1], v) + Reads(ps[|ps| - 1], v)
  }

  /** Symbol.type is TRISTATE, which takes MODULES to be enabled. */
  predicate IsTristate(c: Config, d: Def, v: Values) {
    d.kind.Tristate? && v(c.modules) != 0
  }

  function TypeReads(c: Config, d: Def): set<Sym> {
    if d.kind.Tristate? then {c.modules} else {}
  }

  /** _visibility: m is promoted to y unless the symbol is a tristate. */
  function Visible(c: Config, d: Def, v: Values): int {
    var p := PromptVal(d.prompts, v);
    if p == 1 && !IsTristate(c, d, v) then 2 else p
  }

  function VisReads(c: Config, d: Def, v: Values): set<Sym> {
    PromptReads(d.prompts, v) + if PromptVal(d.prompts, v) == 1 then TypeReads(c, d) else {}
  }

  // ---------------------------------------------------------------- values

  /** The first default whose condition is not n. */
  function DefaultVal(ds: seq<(Expr, Expr)>, v: Values): int {
    if ds == [] then 0
    else if Eval(ds[0].1, v) != 0 then Min(Eval(ds[0].0, v), Eval(ds[0].1, v))
    else DefaultVal(ds[1..], v)
  }

  function DefaultReads(ds: seq<(Expr, Expr)>, v: Values): set<Sym> {
    if ds == [] then {}
    else Reads(ds[0].1, v) + if Eval(ds[0].1, v) != 0 then Reads(ds[0].0, v) else DefaultReads(ds[1..], v)
  }

  /** The user value if there is one that counts, else defaults and implies. */
  function Chosen(d: Def, vis: int, user: Option<int>, v: Values): int {
    if vis != 0 && user.Some? then Min(user.value, vis)
    else
      var val := DefaultVal(d.defaults, v);
      if Eval(d.weakRevDep, v) != 0 && Eval(d.directDep, v) != 0 then Max(Eval(d.weakRevDep, v), val) else val
  }

  function ChosenReads(d: Def, vis: int, user: Option<int>, v: Values): set<Sym> {
    if vis != 0 && user.Some? then {}
    else DefaultReads(d.defaults, v) + Reads(d.weakRevDep, v)
         + if Eval(d.weakRevDep, v) != 0 then Reads(d.directDep, v) else {}
  }

  /** The value with selects applied. */
  function Raised(d: Def, vis: int, user: Option<int>, v: Values): int {
    var val := Chosen(d, vis, user, v);
    if Eval(d.revDep, v) != 0 then Max(Eval(d.revDep, v), val) else val
  }

  function RaisedReads(d: Def, vis: int, user: Option<int>, v: Values): set<Sym> {
    ChosenReads(d, vis, user, v) + Reads(d.revDep, v)
    + if Eval(d.revDep, v) != 0 then Reads(d.directDep, v) else {}
  }

  /** Symbol.tri_value of a symbol that is not in a choice. */
  function Value(c: Config, d: Def, user: Option<int>, v: Values): int {
    var val := Raised(d, Visible(c, d, v), user, v);
    if d.kind.Unknown? then 0
    else if val == 1 && (!IsTristate(c, d, v) || Eval(d.weakRevDep, v) == 2) then 2 else val
  }

  function ValueReads(c: Config, d: Def, user: Option<int>, v: Values): set<Sym> {
    if d.kind.Unknown? then {}
    else
      VisReads(c, d, v) + RaisedReads(d, Visible(c, d, v), user, v)
      + if Raised(d, Visible(c, d, v), user, v) == 1
        then TypeReads(c, d) + (if IsTristate(c, d, v) then Reads(d.weakRevDep, v) else {}) else {}
  }

  // ---------------------------------------------------------------- configurations

  /** Every expression of a definition. */
  function Exprs(d: Def): set<Expr> {
    (set e | e in d.prompts) + (set p | p in d.defaults :: p.0) + (set p | p in d.defaults :: p.1)
    + {d.revDep, d.weakRevDep, d.directDep}
  }

  /** d is referred to by some expression of the definition: what _build_dep records. */
  ghost predicate DependsOn(d: Def, s: Sym) {
    exists e :: e in Exprs(d) && s in Refs(e)
  }

  /**
   Every symbol that is referred to has an entry, of an unknown kind and without expressions if nothing defines it.
   Symbols of an unknown kind are compared as words, and no others.
   */
  ghost predicate WellFormed(c: Config) {
    && (forall s, e :: s in c.defs && e in Exprs(c.defs[s]) ==> Proper(e))
    && (forall s, e :: s in c.defs && e in Exprs(c.defs[s]) ==> Worded(c, e))
    && (forall s, x :: s in c.defs && DependsOn(c.defs[s], x) ==> x in c.defs && c.rank(x) < c.rank(s))
    && (forall s :: s in c.defs && c.defs[s].kind.Tristate? ==>
          c.modules in c.defs && c.rank(c.modules) < c.rank(s))
  }

  /** In comparisons the symbols without type, and only these, are words. */
  predicate Worded(c: Config, e: Expr) {
    match e
    case And(a, b) => Worded(c, a) && Worded(c, b)
    case Or(a, b) => Worded(c, a) && Worded(c, b)
    case Not(a) => Worded(c, a)
    case Cmp(_, a, b) => Operand(c, a) && Operand(c, b)
    case _ => true
  }

  predicate Operand(c: Config, e: Expr) {
    match e
    case Const(_) => true
    case Ref(s) => s in c.defs && !c.defs[s].kind.Unknown?
    case Word(s, _, _) => s.Some? ==> s.value in c.defs && c.defs[s.value].kind.Unknown?
    case _ => false
  }

  ghost predicate ProperDef(d: Def) {
    forall e :: e in Exprs(d) ==> Proper(e)
  }

  function UserOf(users: Users, s: Sym): Option<int> {
    if s in users then Some(users[s]) else None
  }

  ghost predicate ValidUsers(users: Users) {
    forall s :: s in users ==> 0 <= users[s] <= 2
  }

  // ---------------------------------------------------------------- locality

  lemma {:induction false} PromptLocal(ps: seq<Expr>, v: Values, w: Values)
    requires InRange(v) && InRange(w) && (forall e :: e in ps ==> Proper(e))
    requires forall s :: s in PromptReads(ps, v) ==> v(s) == w(s)
    ensures PromptVal(ps, v) == PromptVal(ps, w) && PromptReads(ps, v) == PromptReads(ps, w)
  {
    if ps != [] {
      PromptLocal(ps[..|ps| - 1], v, w);
      EvalLocal(ps[|ps| - 1], v, w);
    }
  }

  lemma {:induction false} DefaultLocal(ds: seq<(Expr, Expr)>, v: Values, w: Values)
    requires InRange(v) && InRange(w) && (forall p :: p in ds ==> Proper(p.0) && Proper(p.1))
    requires forall s :: s in DefaultReads(ds, v) ==> v(s) == w(s)
    ensures DefaultVal(ds, v) == DefaultVal(ds, w) && DefaultReads(ds, v) == DefaultReads(ds, w)
  {
    if ds != [] {
      assert ds[0] in ds;
      EvalLocal(ds[0].1, v, w);
      if Eval(ds[0].1, v) != 0 {
        EvalLocal(ds[0].0, v, w);
      } else {
        DefaultLocal(ds[1..], v, w);
      }
    }
  }

  lemma ProperParts(d: Def)
    requires ProperDef(d)
    ensures forall e :: e in d.prompts ==> Proper(e)
    ensures forall p :: p in d.defaults ==> Proper(p.0) && Proper(p.1)
    ensures Proper(d.revDep) && Proper(d.weakRevDep) && Proper(d.directDep)
  {
    forall p | p in d.defaults ensures Proper(p.0) && Proper(p.1) {
      assert p.0 in Exprs(d) && p.1 in Exprs(d);
    }
    assert forall e :: e in d.prompts ==> e in Exprs(d);
    assert d.revDep in Exprs(d) && d.weakRevDep in Exprs(d) && d.directDep in Exprs(d);
  }

  lemma VisLocal(c: Config, d: Def, v: Values, w: Values)
    requires ProperDef(d) && InRange(v) && InRange(w)
    requires forall s :: s in VisReads(c, d, v) ==> v(s) == w(s)
    ensures Visible(c, d, v) == Visible(c, d, w) && VisReads(c, d, v) == VisReads(c, d, w)
  {
    ProperParts(d);
    PromptLocal(d.prompts, v, w);
  }

  lemma ChosenLocal(d: Def, vis: int, user: Option<int>, v: Values, w: Values)
    requires ProperDef(d) && InRange(v) && InRange(w)
    requires forall s :: s in ChosenReads(d, vis, user, v) ==> v(s) == w(s)
    ensures Chosen(d, vis, user, v) == Chosen(d, vis, user, w)
    ensures ChosenReads(d, vis, user, v) == ChosenReads(d, vis, user, w)
  {
    ProperParts(d);
    if vis == 0 || user.None? {
      DefaultLocal(d.defaults, v, w);
      EvalLocal(d.weakRevDep, v, w);
      if Eval(d.weakRevDep, v) != 0 {
        EvalLocal(d.directDep, v, w);
      }
    }
  }

  lemma RaisedLocal(d: Def, vis: int, user: Option<int>, v: Values, w: Values)
    requires ProperDef(d) && InRange(v) && InRange(w)
    requires forall s :: s in RaisedReads(d, vis, user, v) ==> v(s) == w(s)
    ensures Raised(d, vis, user, v) == Raised(d, vis, user, w)
    ensures RaisedReads(d, vis, user, v) == RaisedReads(d, vis, user, w)
  {
    ProperParts(d);
    ChosenLocal(d, vis, user, v, w);
    EvalLocal(d.revDep, v, w);
    if Eval(d.revDep, v) != 0 {
      EvalLocal(d.directDep, v, w);
    }
  }

  /** A symbol's value depends on the symbols its evaluation reads, and on nothing else. */
  lemma ValueLocal(c: Config, d: Def, user: Option<int>, v: Values, w: Values)
    requires ProperDef(d) && InRange(v) && InRange(w)
    requires forall s :: s in ValueReads(c, d, user, v) ==> v(s) == w(s)
    ensures Value(c, d, user, v) == Value(c, d, user, w)
    ensures ValueReads(c, d, user, v) == ValueReads(c, d, user, w)
  {
    hide Raised, RaisedReads, Visible, VisReads, InRange, ProperDef;
    if d.kind.Unknown? {
      return;
    }
    VisLocal(c, d, v, w);
    RaisedLocal(d, Visible(c, d, v), user, v, w);
    if Raised(d, Visible(c, d, v), user, v) == 1 && d.kind.Tristate? {
      assert c.modules in TypeReads(c, d);
      if IsTristate(c, d, v) {
        ProperParts(d);
        EvalLocal(d.weakRevDep, v, w);
      }
    }
  }

  // ---------------------------------------------------------------- ranges

  lemma {:induction false} PromptRange(ps: seq<Expr>, v: Values)
    requires InRange(v) && (forall e :: e in ps ==> Proper(e))
    ensures 0 <= PromptVal(ps, v) <= 2
  {
    if ps != [] {
      PromptRange(ps[..|ps| - 1], v);
      EvalRange(ps[|ps| - 1], v);
    }
  }

  lemma {:induction false} DefaultRange(ds: seq<(Expr, Expr)>, v: Values)
    requires InRange(v) && (forall p :: p in ds ==> Proper(p.0) && Proper(p.1))
    ensures 0 <= DefaultVal(ds, v) <= 2
  {
    if ds != [] {
      assert ds[0] in ds;
      EvalRange(ds[0].0, v);
      EvalRange(ds[0].1, v);
      DefaultRange(ds[1..], v);
    }
  }

  lemma ValueRange(c: Config, d: Def, user: Option<int>, v: Values)
    requires ProperDef(d) && InRange(v) && (user.Some? ==> 0 <= user.value <= 2)
    ensures 0 <= Value(c, d, user, v) <= 2 && 0 <= Visible(c, d, v) <= 2
  {
    ProperParts(d);
    PromptRange(d.prompts, v);
    DefaultRange(d.defaults, v);
    EvalRange(d.revDep, v);
    EvalRange(d.weakRevDep, v);
  }

  // ---------------------------------------------------------------- reads are static references

  lemma {:induction false} PromptReadsIn(ps: seq<Expr>, v: Values, x: Sym)
    requires x in PromptReads(ps, v)
    ensures exists e :: e in ps && x in Refs(e)
  {
    var last := ps[|ps| - 1];
    ReadsAreRefs(last, v);
    if x !in Reads(last, v) {
      PromptReadsIn(ps[..|ps| - 1], v, x);
    }
  }

  lemma {:induction false} DefaultReadsIn(ds: seq<(Expr, Expr)>, v: Values, x: Sym)
    requires x in DefaultReads(ds, v)
    ensures exists p :: p in ds && (x in Refs(p.0) || x in Refs(p.1))
  {
    ReadsAreRefs(ds[0].0, v);
    ReadsAreRefs(ds[0].1, v);
    if x in Reads(ds[0].1, v) || (Eval(ds[0].1, v) != 0 && x in Reads(ds[0].0, v)) {
      assert ds[0] in ds;
    } else {
      DefaultReadsIn(ds[1..], v, x);
    }
  }

  /** What visibility reads is recorded as a dependency, or is MODULES read by a tristate. */
  lemma VisReadsStatic(c: Config, d: Def, v: Values, x: Sym)
    requires x in VisReads(c, d, v)
    ensures DependsOn(d, x) || (d.kind.Tristate? && x == c.modules)
  {
    if x in PromptReads(d.prompts, v) {
      PromptReadsIn(d.prompts, v, x);
      var e :| e in d.prompts && x in Refs(e);
      assert e in Exprs(d);
    }
  }

  /** What a value reads is recorded as a dependency, or is MODULES read by a tristate. */
  lemma ValueReadsStatic(c: Config, d: Def, user: Option<int>, v: Values, x: Sym)
    requires x in ValueReads(c, d, user, v)
    ensures !d.kind.Unknown? && (DependsOn(d, x) || (d.kind.Tristate? && x == c.modules))
  {
    ReadsAreRefs(d.revDep, v);
    ReadsAreRefs(d.weakRevDep, v);
    ReadsAreRefs(d.directDep, v);
    assert d.revDep in Exprs(d) && d.weakRevDep in Exprs(d) && d.directDep in Exprs(d);
    if x in VisReads(c, d, v) {
      VisReadsStatic(c, d, v, x);
    } else if x in DefaultReads(d.defaults, v) {
      DefaultReadsIn(d.defaults, v, x);
      var p :| p in d.defaults && (x in Refs(p.0) || x in Refs(p.1));
      assert p.0 in Exprs(d) && p.1 in Exprs(d);
    }
  }

  // ---------------------------------------------------------------- evaluation from scratch

  /** The value of symbol s, recomputed from the definitions and the user values alone. */
  ghost function Fresh(c: Config, users: Users, s: Sym): int
    requires s in c.defs
    decreases c.rank(s), 1
  {
    Value(c, c.defs[s], UserOf(users, s), Below(c, users, c.rank(s)))
  }

  ghost function Below(c: Config, users: Users, n: nat): Values
    decreases n, 0
  {
    (x: Sym) => if x in c.defs && c.rank(x) < n then Fresh(c, users, x) else 0
  }

  /** All values at once. */
  ghost function All(c: Config, users: Users): Values {
    (x: Sym) => if x in c.defs then Fresh(c, users, x) else 0
  }

  lemma {:induction false} FreshRange(c: Config, users: Users, s: Sym)
    requires WellFormed(c) && ValidUsers(users) && s in c.defs
    ensures 0 <= Fresh(c, users, s) <= 2 && InRange(Below(c, users, c.rank(s)))
    decreases c.rank(s)
  {
    forall x ensures 0 <= Below(c, users, c.rank(s))(x) <= 2 {
      if x in c.defs && c.rank(x) < c.rank(s) {
        FreshRange(c, users, x);
      }
    }
    ValueRange(c, c.defs[s], UserOf(users, s), Below(c, users, c.rank(s)));
  }

  lemma AllRange(c: Config, users: Users)
    requires WellFormed(c) && ValidUsers(users)
    ensures InRange(All(c, users))
  {
    forall x ensures 0 <= All(c, users)(x) <= 2 {
      if x in c.defs {
        FreshRange(c, users, x);
      }
    }
  }

  /** The values of all symbols solve the equations of all symbols. */
  lemma FreshEquation(c: Config, users: Users, s: Sym)
    requires WellFormed(c) && ValidUsers(users) && s in c.defs
    ensures Fresh(c, users, s) == Value(c, c.defs[s], UserOf(users, s), All(c, users))
  {
    var d, v, w := c.defs[s], Below(c, users, c.rank(s)), All(c, users);
    FreshRange(c, users, s);
    AllRange(c, users);
    forall x | x in ValueReads(c, d, UserOf(users, s), v) ensures v(x) == w(x) {
      ValueReadsStatic(c, d, UserOf(users, s), v, x);
    }
    ValueLocal(c, d, UserOf(users, s), v, w);
  }

  // ---------------------------------------------------------------- a change that a set of symbols does not see

  /** r is closed under what its values read and holds no symbol whose user value changed. */
  ghost predicate Untouched(c: Config, users: Users, users': Users, r: set<Sym>) {
    && r <= c.defs.Keys
    && (forall s :: s in r ==> UserOf(users, s) == UserOf(users', s))
    && (forall s :: s in r ==> ValueReads(c, c.defs[s], UserOf(users, s), All(c, users)) <= r)
  }

  /** Then no value in r changes. */
  lemma {:induction false} UntouchedValue(c: Config, users: Users, users': Users, r: set<Sym>, s: Sym)
    requires WellFormed(c) && ValidUsers(users) && ValidUsers(users') && Untouched(c, users, users', r) && s in r
    ensures Fresh(c, users', s) == Fresh(c, users, s)
    decreases c.rank(s)
  {
    var d, u, v, w := c.defs[s], UserOf(users, s), All(c, users), All(c, users');
    AllRange(c, users);
    AllRange(c, users');
    forall x | x in ValueReads(c, d, u, v) ensures v(x) == w(x) {
      ValueReadsStatic(c, d, u, v, x);
      UntouchedValue(c, users, users', r, x);
    }
    ValueLocal(c, d, u, v, w);
    FreshEquation(c, users, s);
    FreshEquation(c, users', s);
  }

  /** A user value of a symbol without a prompt has no effect on any value. */
  lemma {:induction false} PromptlessValue(c: Config, users: Users, users': Users, x: Sym, s: Sym)
    requires WellFormed(c) && ValidUsers(users) && ValidUsers(users') && s in c.defs
    requires x in c.defs ==> c.defs[x].prompts == []
    requires forall y :: y != x ==> UserOf(users, y) == UserOf(users', y)
    ensures Fresh(c, users', s) == Fresh(c, users, s)
    decreases c.rank(s)
  {
    var d, u, v, w := c.defs[s], UserOf(users', s), All(c, users), All(c, users');
    AllRange(c, users);
    AllRange(c, users');
    forall y | y in ValueReads(c, d, u, v) ensures v(y) == w(y) {
      ValueReadsStatic(c, d, u, v, y);
      PromptlessValue(c, users, users', x, y);
    }
    ValueLocal(c, d, u, v, w);
    FreshEquation(c, users, s);
    FreshEquation(c, users', s);
  }

  // ---------------------------------------------------------------- what a value is, whatever way it is computed

  /** y is what a prompt of the symbol evaluates to. */
  ghost predicate Prompted(d: Def, v: Values, y: int) {
    exists e :: e in d.prompts && Eval(e, v) == y
  }

  /** A bool, or a tristate in a configuration without modules. */
  predicate ActsAsBool(c: Config, d: Def, v: Values) {
    d.kind.Bool? || d.kind.Unknown? || v(c.modules) <= 0
  }

  /** The visibility is the greatest value of a prompt; an m is a y unless the symbol is a tristate. */
  lemma VisibilityIs(c: Config, d: Def, v: Values)
    requires ProperDef(d) && InRange(v)
    ensures var vis := Visible(c, d, v);
            && (forall e :: e in d.prompts ==> Eval(e, v) <= vis)
            && (vis == 0 || Prompted(d, v, vis) || (vis == 2 && Prompted(d, v, 1) && ActsAsBool(c, d, v)))
            && (ActsAsBool(c, d, v) ==> vis != 1)
  {
    ProperParts(d);
    PromptGreatest(d.prompts, v);
    assert 0 <= v(c.modules);
  }

  lemma {:induction false} PromptGreatest(ps: seq<Expr>, v: Values)
    requires InRange(v) && forall e :: e in ps ==> Proper(e)
    ensures forall e :: e in ps ==> Eval(e, v) <= PromptVal(ps, v)
    ensures PromptVal(ps, v) == 0 || exists e :: e in ps && Eval(e, v) == PromptVal(ps, v)
    ensures 0 <= PromptVal(ps, v) <= 2
  {
    if ps != [] {
      var rest, last := ps[..|ps| - 1], ps[|ps| - 1];
      assert ps == rest + [last];
      PromptGreatest(rest, v);
      EvalRange(last, v);
    }
  }

  /** The first default whose condition is not n gives y. */
  ghost predicate DefaultIs(d: Def, v: Values, y: int) {
    exists k :: && 0 <= k < |d.defaults| && Eval(d.defaults[k].1, v) != 0
                && (forall i :: 0 <= i < k ==> Eval(d.defaults[i].1, v) == 0)
                && y == Min(Eval(d.defaults[k].0, v), Eval(d.defaults[k].1, v))
  }

  /** The user value counts. */
  ghost predicate Counts(d: Def, users: Users, s: Sym, v: Values) {
    s in users && exists e :: e in d.prompts && Eval(e, v) != 0
  }

  /**
   Where a value can come from: a select; a user value that counts, as far as the symbol is visible; or, if none
   counts, the first default that holds, and an imply if the dependencies of the symbol hold.
   */
  ghost predicate Source(c: Config, users: Users, s: Sym, v: Values, y: int)
    requires s in c.defs
  {
    var d := c.defs[s];
    || y == Eval(d.revDep, v)
    || (Counts(d, users, s, v) && y == Min(users[s], Visible(c, d, v)))
    || (!Counts(d, users, s, v) && DefaultIs(d, v, y))
    || (!Counts(d, users, s, v) && Eval(d.directDep, v) != 0 && y == Eval(d.weakRevDep, v))
  }

  /** An m must be a y: for a bool, and for a symbol that is implied by y. */
  predicate Promoted(c: Config, d: Def, v: Values) {
    ActsAsBool(c, d, v) || Eval(d.weakRevDep, v) == 2
  }

  /**
   Every symbol with a type has the greatest value that one of its sources gives it, except that an m that must be a
   y is one.  A symbol without a type is n.
   */
  lemma FreshIs(c: Config, users: Users, s: Sym)
    requires WellFormed(c) && ValidUsers(users) && s in c.defs
    ensures var x, d, v := Fresh(c, users, s), c.defs[s], All(c, users);
            if d.kind.Unknown? then x == 0
            else
              && (forall y :: Source(c, users, s, v, y) ==> y <= x)
              && (Source(c, users, s, v, x) || (x == 2 && Source(c, users, s, v, 1) && Promoted(c, d, v)))
              && (Promoted(c, d, v) ==> x != 1)
  {
    hide WellFormed, Fresh, All, InRange, Source, Eval, Visible, ActsAsBool;
    FreshEquation(c, users, s);
    AllRange(c, users);
    DefProper(c, s);
    if !c.defs[s].kind.Unknown? {
      ValueIs(c, users, s, All(c, users));
    }
  }

  lemma DefProper(c: Config, s: Sym)
    requires WellFormed(c) && s in c.defs
    ensures ProperDef(c.defs[s])
  {
  }

  lemma {:induction false} DefaultFirst(ds: seq<(Expr, Expr)>, v: Values)
    ensures var y := DefaultVal(ds, v);
            if forall i :: 0 <= i < |ds| ==> Eval(ds[i].1, v) == 0 then y == 0
            else exists k :: && 0 <= k < |ds| && Eval(ds[k].1, v) != 0
                             && (forall i :: 0 <= i < k ==> Eval(ds[i].1, v) == 0)
                             && y == Min(Eval(ds[k].0, v), Eval(ds[k].1, v))
  {
    hide Eval;
    if ds != [] && Eval(ds[0].1, v) == 0 {
      var rest := ds[1..];
      DefaultFirst(rest, v);
      assert forall i :: 0 <= i < |rest| ==> rest[i] == ds[i + 1];
      if exists i :: 0 <= i < |ds| && Eval(ds[i].1, v) != 0 {
        var k :| && 0 <= k < |rest| && Eval(rest[k].1, v) != 0
                 && (forall i :: 0 <= i < k ==> Eval(rest[i].1, v) == 0)
                 && DefaultVal(rest, v) == Min(Eval(rest[k].0, v), Eval(rest[k].1, v));
        assert forall i :: 0 < i < k + 1 ==> ds[i] == rest[i - 1];
        assert ds[k + 1] == rest[k];
      }
    }
  }

  lemma DefaultUnique(d: Def, v: Values, y: int)
    requires DefaultIs(d, v, y)
    ensures y == DefaultVal(d.defaults, v)
  {
    hide Eval, DefaultVal;
    DefaultFirst(d.defaults, v);
    var k :| && 0 <= k < |d.defaults| && Eval(d.defaults[k].1, v) != 0
             && (forall i :: 0 <= i < k ==> Eval(d.defaults[i].1, v) == 0)
             && y == Min(Eval(d.defaults[k].0, v), Eval(d.defaults[k].1, v));
  }

  lemma CountsIs(c: Config, d: Def, users: Users, s: Sym, v: Values)
    requires ProperDef(d) && InRange(v)
    ensures Counts(d, users, s, v) <==> s in users && Visible(c, d, v) != 0
  {
    hide Visible, Eval;
    ProperParts(d);
    VisibilityIs(c, d, v);
    forall e | e in d.prompts ensures 0 <= Eval(e, v) {
      EvalRange(e, v);
    }
  }

  lemma ValueIs(c: Config, users: Users, s: Sym, v: Values)
    requires s in c.defs && ProperDef(c.defs[s]) && InRange(v) && !c.defs[s].kind.Unknown? && ValidUsers(users)
    ensures var x, d := Value(c, c.defs[s], UserOf(users, s), v), c.defs[s];
            && (forall y :: Source(c, users, s, v, y) ==> y <= x)
            && (Source(c, users, s, v, x) || (x == 2 && Source(c, users, s, v, 1) && Promoted(c, d, v)))
            && (Promoted(c, d, v) ==> x != 1)
  {
    hide Eval, DefaultVal, Visible, DefaultIs, Counts;
    var d, user := c.defs[s], UserOf(users, s);
    assert 0 <= v(c.modules);
    var val := Raised(d, Visible(c, d, v), user, v);
    ProperParts(d);
    CountsIs(c, d, users, s, v);
    ValueRange(c, d, user, v);
    EvalRange(d.revDep, v);
    EvalRange(d.weakRevDep, v);
    EvalRange(d.directDep, v);
    DefaultRange(d.defaults, v);
    NoDefault(d, v);
    forall y | Source(c, users, s, v, y) ensures y <= val {
      if DefaultIs(d, v, y) {
        DefaultUnique(d, v, y);
      }
    }
    assert Source(c, users, s, v, val) || val == 0;
    assert val == 0 ==> Source(c, users, s, v, 0);
  }

  /** The default value is that of a default, or n. */
  lemma NoDefault(d: Def, v: Values)
    ensures DefaultIs(d, v, DefaultVal(d.defaults, v)) || DefaultVal(d.defaults, v) == 0
  {
    hide Eval, DefaultVal;
    DefaultFirst(d.defaults, v);
  }

  // ---------------------------------------------------------------- what an expression means

  /** Conjunction and disjunction are the greatest lower and the least upper bound, and negation exchanges them. */
  lemma ExpressionLaws(a: Expr, b: Expr, v: Values, x: int)
    ensures x <= Eval(And(a, b), v) <==> x <= Eval(a, v) && x <= Eval(b, v)
    ensures Eval(Or(a, b), v) <= x <==> Eval(a, v) <= x && Eval(b, v) <= x
    ensures Eval(Not(And(a, b)), v) == Eval(Or(Not(a), Not(b)), v)
    ensures Eval(Not(Not(a)), v) == Eval(a, v) && (Eval(a, v) == 0 <==> Eval(Not(a), v) == 2)
  {
  }

  lemma {:induction false} ComparedLaws(x: string, y: string)
    ensures Compared(x, y) == 0 <==> x == y
    ensures Compared(y, x) == -Compared(x, y) && -1 <= Compared(x, y) <= 1
  {
    if x != [] && y != [] {
      ComparedLaws(x[1..], y[1..]);
      assert x == [x[0]] + x[1..] && y == [y[0]] + y[1..];
    }
  }

  /** The relations are those of one order, and comparing two typed symbols compares their values. */
  lemma RelationLaws(a: Expr, b: Expr, v: Values)
    ensures Eval(Cmp(Unequal, a, b), v) == 2 - Eval(Cmp(Equal, a, b), v)
    ensures Eval(Cmp(GreaterEqual, a, b), v) == 2 - Eval(Cmp(Less, a, b), v)
    ensures Eval(Cmp(LessEqual, a, b), v) == Eval(Or(Cmp(Less, a, b), Cmp(Equal, a, b)), v)
    ensures Eval(Cmp(Greater, a, b), v) == Eval(Cmp(Less, b, a), v)
    ensures !a.Word? && !b.Word? ==>
              && (Eval(Cmp(Equal, a, b), v) == 2 <==> Eval(a, v) == Eval(b, v))
              && (Eval(Cmp(Less, a, b), v) == 2 <==> Eval(a, v) < Eval(b, v))
  {
    ComparedLaws(TextOf(a, Eval(a, v)), TextOf(b, Eval(b, v)));
  }
}
