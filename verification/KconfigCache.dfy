/**
 The value cache of tools/kconfiglib.py: lazily computed visibilities and
 values, and their invalidation when a user value changes.

 The cache is right when every cached number is the one that evaluation from
 scratch gives.  It stays right although evaluation stops early, and although
 invalidation stops at symbols without a cached visibility, because whatever
 a cached number was computed from is cached itself.
 */
module KconfigCache {

  import opened Kconfig

  ghost predicate VisOk(c: Config, v: Values, vis: map<Sym, int>, read: set<Sym>) {
    forall s :: s in vis ==>
      s in c.defs && vis[s] == Visible(c, c.defs[s], v) && VisReads(c, c.defs[s], v) <= read
  }

  ghost predicate TriOk(c: Config, users: Users, v: Values, tri: map<Sym, int>) {
    forall s :: s in tri ==>
      s in c.defs && tri[s] == v(s) && ValueReads(c, c.defs[s], UserOf(users, s), v) <= tri.Keys
  }

  /** A value is cached together with the visibility, except that of a symbol without a type. */
  ghost predicate Together(c: Config, vis: map<Sym, int>, tri: map<Sym, int>) {
    forall s :: s in tri ==> s in vis || (s in c.defs && c.defs[s].kind.Unknown?)
  }

  /** Every cached number is right, and everything it was computed from is cached. */
  ghost predicate CacheOk(c: Config, users: Users, vis: map<Sym, int>, tri: map<Sym, int>) {
    && Together(c, vis, tri)
    && VisOk(c, All(c, users), vis, tri.Keys)
    && TriOk(c, users, All(c, users), tri)
  }

  /** The dependents sets: s is recorded under every symbol that its definition mentions. */
  ghost predicate DepsOk(c: Config, deps: map<Sym, set<Sym>>) {
    forall s, x :: s in c.defs && DependsOn(c.defs[s], x) ==> x in deps && s in deps[x]
  }

  /** No symbol of `gone` has a dependent with a cached visibility. */
  ghost predicate Cut(c: Config, deps: map<Sym, set<Sym>>, vis: map<Sym, int>, gone: set<Sym>) {
    forall x :: x in gone ==>
      && (x in deps ==> deps[x] !! vis.Keys)
      && (x == c.modules ==> vis == map[])
  }

  /** The entries of m that are left form a part of m. */
  ghost predicate Part(m': map<Sym, int>, m: map<Sym, int>) {
    m'.Keys <= m.Keys && forall s :: s in m' ==> m'[s] == m[s]
  }

  /** Invalidation from x on took both numbers of the same symbols, or all there were. */
  ghost predicate Cleared(vis: map<Sym, int>, tri: map<Sym, int>, vis': map<Sym, int>, tri': map<Sym, int>, x: Sym) {
    && Part(vis', vis) && Part(tri', tri) && x !in vis' && x !in tri' && tri'.Keys !! vis.Keys - vis'.Keys
    && ((vis' == map[] && tri' == map[]) || forall y :: y in tri && y !in tri' ==> y == x || y in vis.Keys - vis'.Keys)
  }

  // ---------------------------------------------------------------- what is left after invalidation

  /** What a symbol that is still cached was computed from is still cached. */
  lemma StillCached(c: Config, deps: map<Sym, set<Sym>>, vis': map<Sym, int>, gone: set<Sym>, s: Sym, y: Sym)
    requires WellFormed(c) && DepsOk(c, deps) && Cut(c, deps, vis', gone) && s in vis' && s in c.defs
    requires DependsOn(c.defs[s], y) || (c.defs[s].kind.Tristate? && y == c.modules)
    ensures y !in gone
  {
    if DependsOn(c.defs[s], y) {
      assert y in deps && s in deps[y];
    } else {
      assert vis' != map[];
    }
  }

  /**
   After the user value of x has changed and the cache has been cut at x and at everything that
   was invalidated, what is left of the cache is right for the new user values.
   */
  lemma CacheAfterCut(c: Config, deps: map<Sym, set<Sym>>, users: Users, users': Users, x: Sym,
                      vis: map<Sym, int>, tri: map<Sym, int>, vis': map<Sym, int>, tri': map<Sym, int>)
    requires WellFormed(c) && DepsOk(c, deps) && ValidUsers(users) && ValidUsers(users')
    requires CacheOk(c, users, vis, tri)
    requires forall y :: y != x ==> UserOf(users, y) == UserOf(users', y)
    requires Cleared(vis, tri, vis', tri', x)
    requires Cut(c, deps, vis', vis.Keys - vis'.Keys + {x})
    ensures CacheOk(c, users', vis', tri')
  {
    hide ValueReads, VisReads, Visible, Fresh, DependsOn, InRange;
    var v, w := All(c, users), All(c, users');
    AllRange(c, users);
    AllRange(c, users');
    forall s, y | s in tri' && y in ValueReads(c, c.defs[s], UserOf(users, s), v) ensures y in tri' {
      ValueReadsStatic(c, c.defs[s], UserOf(users, s), v, y);
      StillCached(c, deps, vis', vis.Keys - vis'.Keys + {x}, s, y);
    }
    assert Untouched(c, users, users', tri'.Keys);
    forall s | s in tri' ensures v(s) == w(s) {
      UntouchedValue(c, users, users', tri'.Keys, s);
    }
    TriAfter(c, users', v, w, tri, tri');
    forall s, y | s in vis' && y in VisReads(c, c.defs[s], v) ensures y in tri' {
      VisReadsStatic(c, c.defs[s], v, y);
      StillCached(c, deps, vis', vis.Keys - vis'.Keys + {x}, s, y);
    }
    VisAfter(c, v, w, vis, vis', tri'.Keys);
  }

  lemma TriAfter(c: Config, users': Users, v: Values, w: Values, tri: map<Sym, int>, tri': map<Sym, int>)
    requires WellFormed(c) && InRange(v) && InRange(w) && Part(tri', tri)
    requires forall s :: s in tri ==> s in c.defs && tri[s] == v(s)
    requires forall s :: s in tri' ==> v(s) == w(s)
    requires forall s, y :: s in tri' && y in ValueReads(c, c.defs[s], UserOf(users', s), v) ==> y in tri'
    ensures TriOk(c, users', w, tri')
  {
    forall s | s in tri' ensures ValueReads(c, c.defs[s], UserOf(users', s), w) <= tri'.Keys {
      ValueLocal(c, c.defs[s], UserOf(users', s), v, w);
    }
  }

  lemma VisAfter(c: Config, v: Values, w: Values, vis: map<Sym, int>, vis': map<Sym, int>, read: set<Sym>)
    requires WellFormed(c) && InRange(v) && InRange(w) && Part(vis', vis)
    requires forall s :: s in vis ==> s in c.defs && vis[s] == Visible(c, c.defs[s], v)
    requires forall s :: s in read ==> v(s) == w(s)
    requires forall s, y :: s in vis' && y in VisReads(c, c.defs[s], v) ==> y in read
    ensures VisOk(c, w, vis', read)
  {
    forall s | s in vis' ensures vis'[s] == Visible(c, c.defs[s], w) && VisReads(c, c.defs[s], w) <= read {
      VisLocal(c, c.defs[s], v, w);
    }
  }

  /** A change of the user value of a symbol without a prompt leaves the whole cache right. */
  lemma CacheAfterPromptless(c: Config, users: Users, users': Users, x: Sym, vis: map<Sym, int>, tri: map<Sym, int>)
    requires WellFormed(c) && ValidUsers(users) && ValidUsers(users') && CacheOk(c, users, vis, tri)
    requires x in c.defs ==> c.defs[x].prompts == []
    requires forall y :: y != x ==> UserOf(users, y) == UserOf(users', y)
    ensures CacheOk(c, users', vis, tri)
  {
    var v, w := All(c, users), All(c, users');
    AllRange(c, users);
    AllRange(c, users');
    forall s ensures v(s) == w(s) {
      if s in c.defs {
        PromptlessValue(c, users, users', x, s);
      }
    }
    VisAfter(c, v, w, vis, vis, tri.Keys);
    forall s, y | s in tri && y in ValueReads(c, c.defs[s], UserOf(users', s), v) ensures y in tri {
      if s == x {
        UserIsIgnored(c, c.defs[s], UserOf(users, s), UserOf(users', s), v);
      }
    }
    TriAfter(c, users', v, w, tri, tri);
  }

  lemma UserIsIgnored(c: Config, d: Def, user: Option<int>, user': Option<int>, v: Values)
    requires d.prompts == []
    ensures ValueReads(c, d, user, v) == ValueReads(c, d, user', v)
  {
  }

  // ---------------------------------------------------------------- adding one entry to the cache

  lemma AddVis(c: Config, users: Users, vis: map<Sym, int>, tri: map<Sym, int>, s: Sym, r: int)
    requires CacheOk(c, users, vis, tri) && s in c.defs
    requires r == Visible(c, c.defs[s], All(c, users)) && VisReads(c, c.defs[s], All(c, users)) <= tri.Keys
    ensures CacheOk(c, users, vis[s := r], tri)
  {
    hide Visible, VisReads, ValueReads, All;
  }

  lemma AddTri(c: Config, users: Users, vis: map<Sym, int>, tri: map<Sym, int>, s: Sym, r: int)
    requires WellFormed(c) && ValidUsers(users) && CacheOk(c, users, vis, tri) && s in c.defs
    requires s in vis || c.defs[s].kind.Unknown?
    requires r == Value(c, c.defs[s], UserOf(users, s), All(c, users))
    requires ValueReads(c, c.defs[s], UserOf(users, s), All(c, users)) <= tri.Keys
    ensures CacheOk(c, users, vis, tri[s := r]) && r == Fresh(c, users, s) == All(c, users)(s)
  {
    hide Visible, VisReads, Value, ValueReads, Fresh;
    FreshEquation(c, users, s);
    assert All(c, users)(s) == r;
  }

  /** What is found in the cache. */
  lemma Lookup(c: Config, users: Users, vis: map<Sym, int>, tri: map<Sym, int>, s: Sym)
    requires CacheOk(c, users, vis, tri)
    ensures s in tri ==> s in c.defs && tri[s] == Fresh(c, users, s) == All(c, users)(s)
    ensures s in vis ==> s in c.defs && vis[s] == Visible(c, c.defs[s], All(c, users))
    ensures s in vis ==> VisReads(c, c.defs[s], All(c, users)) <= tri.Keys
  {
    hide Visible, VisReads, Value, ValueReads, Fresh;
  }

  /** The expressions of a definition refer to symbols of lower rank. */
  lemma LowerRank(c: Config, s: Sym, e: Expr)
    requires WellFormed(c) && s in c.defs && e in Exprs(c.defs[s])
    ensures Proper(e) && forall x :: x in Refs(e) ==> x in c.defs && c.rank(x) < c.rank(s)
  {
    hide Exprs, Refs, Proper;
    forall x | x in Refs(e) ensures x in c.defs && c.rank(x) < c.rank(s) {
      assert DependsOn(c.defs[s], x);
    }
  }

  // ---------------------------------------------------------------- the dependents sets

  ghost predicate Recorded(deps: map<Sym, set<Sym>>, x: Sym, s: Sym) {
    x in deps && s in deps[x]
  }

  /** _make_depend_on */
  method MakeDependOn(deps: map<Sym, set<Sym>>, s: Sym, e: Expr) returns (r: map<Sym, set<Sym>>)
    ensures forall x, y :: Recorded(r, x, y) <==> Recorded(deps, x, y) || (y == s && x in Refs(e))
    decreases e
  {
    match e
    case Const(_) => r := deps;
    case Ref(x) => r := deps[x := (if x in deps then deps[x] else {}) + {s}];
    case And(a, b) =>
      r := MakeDependOn(deps, s, a);
      r := MakeDependOn(r, s, b);
    case Or(a, b) =>
      r := MakeDependOn(deps, s, a);
      r := MakeDependOn(r, s, b);
    case Not(a) => r := MakeDependOn(deps, s, a);
    case Cmp(_, a, b) =>
      r := MakeDependOn(deps, s, a);
      r := MakeDependOn(r, s, b);
    case Word(x, _, _) =>
      r := if x.None? then deps else deps[x.value := (if x.value in deps then deps[x.value] else {}) + {s}];
  }

  /** The part of _build_dep for one symbol */
  method BuildDepOf(deps: map<Sym, set<Sym>>, s: Sym, d: Def) returns (r: map<Sym, set<Sym>>)
    ensures forall x, y :: Recorded(r, x, y) <==> Recorded(deps, x, y) || (y == s && DependsOn(d, x))
  {
    hide Refs, Recorded;
    r := deps;
    ghost var seen: set<Expr> := {};
    for i := 0 to |d.prompts|
      invariant seen == set e | e in d.prompts[..i]
      invariant forall x, y :: Recorded(r, x, y) <==> Recorded(deps, x, y) || (y == s && Mentions(seen, x))
    {
      r := MakeDependOn(r, s, d.prompts[i]);
      assert d.prompts[..i + 1] == d.prompts[..i] + [d.prompts[i]];
      seen := seen + {d.prompts[i]};
    }
    assert d.prompts[..|d.prompts|] == d.prompts;
    ghost var base := seen;
    for i := 0 to |d.defaults|
      invariant seen == base + (set p | p in d.defaults[..i] :: p.0) + (set p | p in d.defaults[..i] :: p.1)
      invariant forall x, y :: Recorded(r, x, y) <==> Recorded(deps, x, y) || (y == s && Mentions(seen, x))
    {
      r := MakeDependOn(r, s, d.defaults[i].0);
      r := MakeDependOn(r, s, d.defaults[i].1);
      assert d.defaults[..i + 1] == d.defaults[..i] + [d.defaults[i]];
      seen := seen + {d.defaults[i].0, d.defaults[i].1};
    }
    assert d.defaults[..|d.defaults|] == d.defaults;
    r := MakeDependOn(r, s, d.revDep);
    r := MakeDependOn(r, s, d.weakRevDep);
    r := MakeDependOn(r, s, d.directDep);
    seen := seen + {d.revDep, d.weakRevDep, d.directDep};
    assert seen == Exprs(d);
  }

  ghost predicate Mentions(es: set<Expr>, x: Sym) {
    exists e :: e in es && x in Refs(e)
  }

  /** _build_dep: exactly the static references are recorded. */
  method BuildDep(c: Config) returns (deps: map<Sym, set<Sym>>)
    ensures DepsOk(c, deps)
    ensures forall x, s :: Recorded(deps, x, s) <==> s in c.defs && DependsOn(c.defs[s], x)
  {
    hide DependsOn;
    deps := map[];
    var todo := c.defs.Keys;
    while todo != {}
      invariant todo <= c.defs.Keys
      invariant forall x, s :: Recorded(deps, x, s) <==> s in c.defs && s !in todo && DependsOn(c.defs[s], x)
      decreases todo
    {
      var s :| s in todo;
      deps := BuildDepOf(deps, s, c.defs[s]);
      todo := todo - {s};
    }
  }

  class Kconf {
    const cfg: Config
    var users: Users
    var vis: map<Sym, int>
    var tri: map<Sym, int>
    var dependents: map<Sym, set<Sym>>

    ghost predicate Valid()
      reads this
    {
      WellFormed(cfg) && DepsOk(cfg, dependents) && ValidUsers(users) && CacheOk(cfg, users, vis, tri)
    }

    /** Evaluation only adds to the cache. */
    twostate predicate Grew()
      reads this
    {
      old(tri.Keys) <= tri.Keys && old(vis.Keys) <= vis.Keys
    }

    /** The symbols of a rank below n. */
    ghost function Lower(n: nat): set<Sym> {
      set x | x in cfg.defs && cfg.rank(x) < n
    }

    /** The values of all symbols, recomputed from scratch. */
    ghost function V(): Values
      reads this
    {
      All(cfg, users)
    }

    /** A parsed configuration, without user values and with an empty cache. */
    constructor (c: Config)
      requires WellFormed(c)
      ensures Valid() && cfg == c && users == map[] && vis == map[] && tri == map[]
    {
      cfg := c;
      users, vis, tri := map[], map[], map[];
      var deps := BuildDep(c);
      dependents := deps;
    }

    /** expr_value */
    method ExprValue(e: Expr, ghost n: nat) returns (r: int)
      requires Valid() && Proper(e) && Refs(e) <= Lower(n)
      modifies this`vis, this`tri
      ensures Valid() && Grew() && r == Eval(e, V()) && Reads(e, V()) <= tri.Keys && 0 <= r <= 2
      decreases n, 0, e, 1
    {
      hide WellFormed, DepsOk, CacheOk, ValidUsers, All, InRange;
      AllRange(cfg, users);
      EvalRange(e, V());
      match e
      case Const(v) => r := v;
      case Ref(s) =>
        assert s in Refs(e);
        r := TriValue(s);
      case And(a, b) => r := AndValue(a, b, n, e);
      case Or(a, b) => r := OrValue(a, b, n, e);
      case Not(a) =>
        r := ExprValue(a, n);
        r := 2 - r;
      case Cmp(op, a, b) =>
        var v1 := ExprValue(a, n);
        var v2 := ExprValue(b, n);
        r := if Related(op, a, v1, b, v2) then 2 else 0;
      case Word(_, _, _) => r := 0;
    }

    /** The short-circuiting conjunction of expr_value */
    method AndValue(a: Expr, b: Expr, ghost n: nat, ghost e: Expr) returns (r: int)
      requires Valid() && Proper(e) && Refs(e) <= Lower(n) && e == And(a, b)
      modifies this`vis, this`tri
      ensures Valid() && Grew() && r == Eval(e, V()) && Reads(e, V()) <= tri.Keys
      decreases n, 0, e, 0
    {
      hide WellFormed, DepsOk, CacheOk, ValidUsers, All, InRange;
      AllRange(cfg, users);
      EvalRange(b, V());
      var v1 := ExprValue(a, n);
      if v1 == 0 {
        return 0;
      }
      var v2 := ExprValue(b, n);
      r := Min(v1, v2);
    }

    /** The short-circuiting disjunction of expr_value */
    method OrValue(a: Expr, b: Expr, ghost n: nat, ghost e: Expr) returns (r: int)
      requires Valid() && Proper(e) && Refs(e) <= Lower(n) && e == Or(a, b)
      modifies this`vis, this`tri
      ensures Valid() && Grew() && r == Eval(e, V()) && Reads(e, V()) <= tri.Keys
      decreases n, 0, e, 0
    {
      hide WellFormed, DepsOk, CacheOk, ValidUsers, All, InRange;
      AllRange(cfg, users);
      EvalRange(b, V());
      var v1 := ExprValue(a, n);
      if v1 == 2 {
        return 2;
      }
      var v2 := ExprValue(b, n);
      r := Max(v1, v2);
    }

    /** Symbol.visibility */
    method Visibility(s: Sym) returns (r: int)
      requires Valid() && s in cfg.defs
      modifies this`vis, this`tri
      ensures Valid() && Grew() && s in vis
      ensures r == Visible(cfg, cfg.defs[s], V()) && VisReads(cfg, cfg.defs[s], V()) <= tri.Keys
      decreases cfg.rank(s), 1
    {
      hide WellFormed, DepsOk, CacheOk, ValidUsers, All;
      Lookup(cfg, users, vis, tri, s);
      if s in vis {
        return vis[s];
      }
      var d := cfg.defs[s];
      r := 0;
      for i := 0 to |d.prompts|
        invariant Valid() && Grew() && V() == old(V())
        invariant r == PromptVal(d.prompts[..i], V()) && PromptReads(d.prompts[..i], V()) <= tri.Keys
      {
        assert d.prompts[..i + 1][..i] == d.prompts[..i];
        assert d.prompts[i] in Exprs(d);
        LowerRank(cfg, s, d.prompts[i]);
        var p := ExprValue(d.prompts[i], cfg.rank(s));
        r := Max(r, p);
      }
      assert d.prompts[..|d.prompts|] == d.prompts;
      if r == 1 {
        var tristate := TypeIsTristate(s);
        if !tristate {
          r := 2;
        }
      }
      AddVis(cfg, users, vis, tri, s, r);
      vis := vis[s := r];
    }

    /** Symbol.type is TRISTATE */
    method TypeIsTristate(s: Sym) returns (b: bool)
      requires Valid() && s in cfg.defs
      modifies this`vis, this`tri
      ensures Valid() && Grew() && b == IsTristate(cfg, cfg.defs[s], V()) && TypeReads(cfg, cfg.defs[s]) <= tri.Keys
      decreases cfg.rank(s), 0
    {
      if cfg.defs[s].kind.Tristate? {
        var m := TriValue(cfg.modules);
        b := m != 0;
      } else {
        b := false;
      }
    }

    /** The search for a default in Symbol.tri_value */
    method DefaultValue(s: Sym) returns (r: int)
      requires Valid() && s in cfg.defs
      modifies this`vis, this`tri
      ensures Valid() && Grew() && r == DefaultVal(cfg.defs[s].defaults, V())
      ensures DefaultReads(cfg.defs[s].defaults, V()) <= tri.Keys
      decreases cfg.rank(s), 0
    {
      hide WellFormed, DepsOk, CacheOk, ValidUsers, All;
      var ds := cfg.defs[s].defaults;
      for i := 0 to |ds|
        invariant Valid() && Grew() && V() == old(V())
        invariant DefaultVal(ds, V()) == DefaultVal(ds[i..], V())
        invariant DefaultReads(ds, V()) <= tri.Keys + DefaultReads(ds[i..], V())
      {
        assert ds[i..][0] == ds[i] && ds[i..][1..] == ds[i + 1..];
        assert ds[i].0 in Exprs(cfg.defs[s]) && ds[i].1 in Exprs(cfg.defs[s]);
        LowerRank(cfg, s, ds[i].0);
        LowerRank(cfg, s, ds[i].1);
        var cond := ExprValue(ds[i].1, cfg.rank(s));
        if cond != 0 {
          var val := ExprValue(ds[i].0, cfg.rank(s));
          return Min(val, cond);
        }
      }
      r := 0;
    }

    /** The value before selects are applied */
    method ChosenValue(s: Sym, vi: int) returns (r: int)
      requires Valid() && s in cfg.defs
      modifies this`vis, this`tri
      ensures Valid() && Grew() && r == Chosen(cfg.defs[s], vi, UserOf(users, s), V())
      ensures ChosenReads(cfg.defs[s], vi, UserOf(users, s), V()) <= tri.Keys
      decreases cfg.rank(s), 1
    {
      hide WellFormed, DepsOk, CacheOk, ValidUsers, All;
      var d := cfg.defs[s];
      if vi != 0 && s in users {
        return Min(users[s], vi);
      }
      r := DefaultValue(s);
      LowerRank(cfg, s, d.weakRevDep);
      LowerRank(cfg, s, d.directDep);
      var w := ExprValue(d.weakRevDep, cfg.rank(s));
      if w != 0 {
        var dd := ExprValue(d.directDep, cfg.rank(s));
        if dd != 0 {
          r := Max(w, r);
        }
      }
    }

    /** The value with selects applied; the direct dependencies are looked at for the sake of a warning. */
    method RaisedValue(s: Sym, vi: int) returns (r: int)
      requires Valid() && s in cfg.defs
      modifies this`vis, this`tri
      ensures Valid() && Grew() && r == Raised(cfg.defs[s], vi, UserOf(users, s), V())
      ensures RaisedReads(cfg.defs[s], vi, UserOf(users, s), V()) <= tri.Keys
      decreases cfg.rank(s), 2
    {
      hide WellFormed, DepsOk, CacheOk, ValidUsers, All, Chosen, ChosenReads;
      var d := cfg.defs[s];
      LowerRank(cfg, s, d.revDep);
      LowerRank(cfg, s, d.directDep);
      r := ChosenValue(s, vi);
      var rev := ExprValue(d.revDep, cfg.rank(s));
      if rev != 0 {
        var dd := ExprValue(d.directDep, cfg.rank(s));
        r := Max(rev, r);
      }
    }

    /** Symbol.tri_value: the cached value, or the value computed and cached. */
    method TriValue(s: Sym) returns (r: int)
      requires Valid() && s in cfg.defs
      modifies this`vis, this`tri
      ensures Valid() && Grew() && s in tri && r == Fresh(cfg, users, s) == V()(s)
      decreases cfg.rank(s), 3
    {
      hide WellFormed, DepsOk, CacheOk, ValidUsers, All, Fresh, Visible, VisReads, Raised, RaisedReads;
      Lookup(cfg, users, vis, tri, s);
      if s in tri {
        return tri[s];
      }
      var d := cfg.defs[s];
      if d.kind.Unknown? {
        AddTri(cfg, users, vis, tri, s, 0);
        tri := tri[s := 0];
        return 0;
      }
      LowerRank(cfg, s, d.weakRevDep);
      var vi := Visibility(s);
      r := RaisedValue(s, vi);
      if r == 1 {
        var tristate := TypeIsTristate(s);
        if !tristate {
          r := 2;
        } else {
          var w := ExprValue(d.weakRevDep, cfg.rank(s));
          if w == 2 {
            r := 2;
          }
        }
      }
      AddTri(cfg, users, vis, tri, s, r);
      tri := tri[s := r];
    }

    /** Symbol._rec_invalidate: it stops at dependents without a cached visibility. */
    method RecInvalidate(s: Sym)
      modifies this`vis, this`tri
      ensures Cleared(old(vis), old(tri), vis, tri, s) && Cut(cfg, dependents, vis, old(vis.Keys) - vis.Keys + {s})
      decreases vis.Keys - {s}
    {
      if s == cfg.modules {
        vis, tri := map[], map[];
        return;
      }
      vis, tri := vis - {s}, tri - {s};
      var todo := if s in dependents then dependents[s] else {};
      while todo != {}
        invariant Cleared(old(vis), old(tri), vis, tri, s)
        invariant s in dependents ==> todo <= dependents[s] && dependents[s] - todo !! vis.Keys
        invariant Cut(cfg, dependents, vis, old(vis.Keys) - vis.Keys - {s})
        decreases todo
      {
        var item :| item in todo;
        if item in vis {
          ghost var mid := vis;
          Smaller(old(vis), vis, s, item);
          RecInvalidate(item);
          CutJoin(cfg, dependents, old(vis), mid, vis, s, item);
        }
        todo := todo - {item};
      }
      CutLast(cfg, dependents, old(vis), vis, s);
    }

    /** Symbol._rec_invalidate_if_has_prompt, after the user value of s has changed. */
    method InvalidateIfHasPrompt(s: Sym, ghost before: Users)
      requires s in cfg.defs && WellFormed(cfg) && DepsOk(cfg, dependents)
      requires ValidUsers(before) && ValidUsers(users) && CacheOk(cfg, before, vis, tri)
      requires forall y :: y != s ==> UserOf(before, y) == UserOf(users, y)
      modifies this`vis, this`tri
      ensures Valid()
    {
      hide WellFormed, DepsOk, ValidUsers, VisOk, TriOk, UserOf;
      if cfg.defs[s].prompts != [] {
        ghost var vis0, tri0 := vis, tri;
        RecInvalidate(s);
        CacheAfterCut(cfg, dependents, before, users, s, vis0, tri0, vis, tri);
      } else {
        CacheAfterPromptless(cfg, before, users, s, vis, tri);
      }
    }

    /** Symbol.set_value; false if the value does not suit the type. */
    method SetValue(s: Sym, value: int) returns (ok: bool)
      requires Valid() && s in cfg.defs
      modifies this`users, this`vis, this`tri
      ensures Valid()
      ensures ok <==> UserOf(old(users), s) == Some(value) || Suits(cfg.defs[s].kind, value)
      ensures users == if ok then old(users)[s := value] else old(users)
    {
      hide WellFormed, DepsOk, CacheOk;
      if s in users && users[s] == value {
        assert users == users[s := value];
        return true;
      }
      if !Suits(cfg.defs[s].kind, value) {
        return false;
      }
      ghost var before := users;
      users := users[s := value];
      InvalidateIfHasPrompt(s, before);
      return true;
    }

    /** Symbol.unset_value */
    method UnsetValue(s: Sym)
      requires Valid() && s in cfg.defs
      modifies this`users, this`vis, this`tri
      ensures Valid() && users == old(users) - {s}
    {
      hide WellFormed, DepsOk, CacheOk;
      if s in users {
        ghost var before := users;
        users := users - {s};
        InvalidateIfHasPrompt(s, before);
      }
    }
  }

  /** The values that Symbol.set_value accepts. */
  predicate Suits(kind: Kind, value: int) {
    match kind
    case Bool => value == 0 || value == 2
    case Tristate => value == 0 || value == 1 || value == 2
    case Unknown => false
  }

  /** A user value is accepted exactly if it is a value that a symbol of this kind can have. */
  lemma SuitsIs(kind: Kind, value: int)
    ensures Suits(kind, value) <==> !kind.Unknown? && 0 <= value <= 2 && (value == 1 ==> kind.Tristate?)
  {
  }

  /** An accepted value of a symbol that is fully visible and not selected is the value of the symbol. */
  lemma AcceptedCounts(c: Config, users: Users, s: Sym, value: int)
    requires WellFormed(c) && ValidUsers(users) && s in c.defs && Suits(c.defs[s].kind, value)
    requires var d, v := c.defs[s], All(c, users[s := value]);
             && Visible(c, d, v) == 2 && Eval(d.revDep, v) == 0 && !(value == 1 && Promoted(c, d, v))
    ensures Fresh(c, users[s := value], s) == value
  {
    hide WellFormed, Fresh, All, Eval, Visible, InRange, DefaultIs, Promoted, Counts, ProperDef;
    var users' := users[s := value];
    var d, v := c.defs[s], All(c, users');
    SuitsIs(d.kind, value);
    FreshIs(c, users', s);
    AllRange(c, users');
    DefProper(c, s);
    CountsIs(c, d, users', s, v);
    assert Source(c, users', s, v, value);
  }

  lemma Smaller(vis0: map<Sym, int>, vis: map<Sym, int>, s: Sym, item: Sym)
    requires s !in vis && item in vis && Part(vis, vis0)
    ensures vis.Keys - {item} < vis0.Keys - {s}
  {
    assert item in vis0.Keys - {s} && item !in vis.Keys - {item};
  }

  lemma CutLast(c: Config, deps: map<Sym, set<Sym>>, vis0: map<Sym, int>, vis: map<Sym, int>, s: Sym)
    requires Cut(c, deps, vis, vis0.Keys - vis.Keys - {s}) && s != c.modules
    requires s in deps ==> deps[s] !! vis.Keys
    ensures Cut(c, deps, vis, vis0.Keys - vis.Keys + {s})
  {
    forall x | x in vis0.Keys - vis.Keys + {s}
      ensures (x in deps ==> deps[x] !! vis.Keys) && (x == c.modules ==> vis == map[])
    {
      assert x == s || x in vis0.Keys - vis.Keys - {s};
    }
  }

  lemma CutJoin(c: Config, deps: map<Sym, set<Sym>>, vis0: map<Sym, int>, mid: map<Sym, int>, vis: map<Sym, int>,
                s: Sym, item: Sym)
    requires Part(mid, vis0) && Part(vis, mid)
    requires Cut(c, deps, mid, vis0.Keys - mid.Keys - {s}) && Cut(c, deps, vis, mid.Keys - vis.Keys + {item})
    ensures Cut(c, deps, vis, vis0.Keys - vis.Keys - {s})
  {
    forall x | x in vis0.Keys - vis.Keys - {s}
      ensures (x in deps ==> deps[x] !! vis.Keys) && (x == c.modules ==> vis == map[])
    {
      assert x in vis0.Keys - mid.Keys - {s} || x in mid.Keys - vis.Keys + {item};
    }
  }

  // ---------------------------------------------------------------- whole sessions

  /** What a client can do with a symbol. */
  datatype Call = ReadValue(s: Sym) | ReadVisibility(s: Sym) | SetUser(s: Sym, value: int) | UnsetUser(s: Sym)

  function After(c: Config, users: Users, op: Call): Users
    requires op.s in c.defs
  {
    match op
    case SetUser(s, value) =>
      if UserOf(users, s) == Some(value) || Suits(c.defs[s].kind, value) then users[s := value] else users
    case UnsetUser(s) => users - {s}
    case _ => users
  }

  ghost predicate Defined(c: Config, calls: seq<Call>) {
    forall i :: 0 <= i < |calls| ==> calls[i].s in c.defs
  }

  /** What one call shows to the client, computed from scratch. */
  ghost function Seen(c: Config, users: Users, op: Call): seq<int>
    requires op.s in c.defs
  {
    match op
    case ReadValue(s) => [Fresh(c, users, s)]
    case ReadVisibility(s) => [Visible(c, c.defs[s], All(c, users))]
    case _ => []
  }

  /** What a client sees if nothing is ever cached. */
  ghost function Uncached(c: Config, users: Users, calls: seq<Call>): seq<int>
    requires Defined(c, calls)
    decreases |calls|
  {
    if calls == [] then []
    else Seen(c, users, calls[0]) + Uncached(c, After(c, users, calls[0]), calls[1..])
  }

  method Do(k: Kconf, op: Call) returns (out: seq<int>)
    requires k.Valid() && op.s in k.cfg.defs
    modifies k
    ensures k.Valid() && k.users == After(k.cfg, old(k.users), op) && out == Seen(k.cfg, old(k.users), op)
    ensures k.dependents == old(k.dependents)
  {
    hide WellFormed, CacheOk, DepsOk, ValidUsers, Fresh, All, Visible;
    out := [];
    match op
    case ReadValue(s) =>
      var r := k.TriValue(s);
      out := [r];
    case ReadVisibility(s) =>
      var r := k.Visibility(s);
      out := [r];
    case SetUser(s, value) =>
      var ok := k.SetValue(s, value);
    case UnsetUser(s) =>
      k.UnsetValue(s);
  }

  /** For every session, the cache is invisible: all reads give the values computed from scratch. */
  method Session(c: Config, calls: seq<Call>) returns (log: seq<int>)
    requires WellFormed(c) && Defined(c, calls)
    ensures log == Uncached(c, map[], calls)
  {
    hide WellFormed, CacheOk, DepsOk, ValidUsers, Seen, After;
    var k := new Kconf(c);
    log := [];
    for i := 0 to |calls|
      invariant fresh(k) && k.Valid() && k.cfg == c
      invariant log + Uncached(c, k.users, calls[i..]) == Uncached(c, map[], calls)
    {
      assert calls[i..][0] == calls[i] && calls[i..][1..] == calls[i + 1..];
      var out := Do(k, calls[i]);
      log := log + out;
    }
    assert calls[|calls|..] == [];
  }
}
