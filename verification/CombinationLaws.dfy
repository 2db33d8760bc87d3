/** Which rule sets are monotone, and which settle in one pass: exact conditions on the rules. */
module CombinationLaws {
  import opened Entities
  import opened Combination

  // ----- entities of fresh types -----

  ghost predicate Shorter(ts: set<PdType>, n: nat) { forall t <- ts :: |t| <= n }

  lemma {:induction false} LengthBound(ts: set<PdType>) returns (n: nat)
    ensures Shorter(ts, n)
  {
    if ts == {} {
      n := 0;
    } else {
      var t :| t in ts;
      n := LengthBound(ts - {t});
      n := if n < |t| then |t| else n;
    }
  }

  function FreshType(n: nat, i: nat): PdType { seq(n + i + 1, _ => 'A') }

  function OfType(t: PdType): Entity { Entity(t, Span(0, 1), 1.0, [], "") }

  /** Entities of `m` types that are all longer than `n`. */
  function FreshEntities(n: nat, m: nat): seq<Entity> {
    if m == 0 then [] else FreshEntities(n, m - 1) + [OfType(FreshType(n, m - 1))]
  }

  lemma TypesAppend(es: seq<Entity>, e: Entity)
    ensures TypesOf(es + [e]) == TypesOf(es) + {e.pdType}
  {
    forall t ensures t in TypesOf(es + [e]) <==> t in TypesOf(es) + {e.pdType} {
      if t in TypesOf(es) {
        var x :| x in es && x.pdType == t;
        assert x in es + [e];
      }
      if t == e.pdType { assert e in es + [e]; }
    }
  }

  lemma {:induction false} FreshDistinct(n: nat, m: nat)
    ensures |TypesOf(FreshEntities(n, m))| == m
    ensures forall t <- TypesOf(FreshEntities(n, m)) :: n < |t| <= n + m
  {
    if m > 0 {
      var es, e := FreshEntities(n, m - 1), OfType(FreshType(n, m - 1));
      FreshDistinct(n, m - 1);
      TypesAppend(es, e);
    }
  }

  // ----- monotone rules -----

  ghost predicate Monotone(rs: Rules) {
    forall es, larger | Within(es, larger) :: Within(Applied(rs, es), Applied(rs, larger))
  }

  /** More entities never drop one that stayed, for all inputs, iff at most one distinct type
      is asked for or each always-masked type meets its own rule alone. */
  lemma MonotoneIff(rs: Rules)
    ensures Monotone(rs) <==> AlwaysMet(rs)
  {
    hide Within, Applied;
    if AlwaysMet(rs) {
      forall es, larger | Within(es, larger) ensures Within(Applied(rs, es), Applied(rs, larger)) {
        ApplyMonotone(rs, es, larger);
      }
    } else {
      var t :| t in rs.always && t in rs.rules && !MetAlone(t, rs.rules[t]);
      var es, larger := DroppedInCompany(rs, t);
      assert !Within(Applied(rs, es), Applied(rs, larger));
    }
  }

  /** The entity of type `t` stays by itself, and is dropped beside entities of fresh types. */
  lemma DroppedInCompany(rs: Rules, t: PdType) returns (es: seq<Entity>, larger: seq<Entity>)
    requires rs.minDistinct > 1 && t in rs.always && t in rs.rules && !MetAlone(t, rs.rules[t])
    ensures Within(es, larger) && !Within(Applied(rs, es), Applied(rs, larger))
  {
    var r, x := rs.rules[t], OfType(t);
    var n := LengthBound(r.requiresAny + r.requiresAll);
    var more := FreshEntities(n, rs.minDistinct);
    es, larger := [x], more + [x];
    FreshDistinct(n, rs.minDistinct);
    TypesAppend(more, x);
    SubsetSize(TypesOf(more), TypesOf(larger));
    assert TypesOf(es) == {t} && |{t}| == 1;
    NotMet(x, r, more, n);
    hide Satisfied;
    KeptExact(rs, es, es);
    KeptExact(rs, larger, larger);
    assert x in Applied(rs, es) && x !in Applied(rs, larger);
  }

  lemma NotMet(x: Entity, r: Rule, more: seq<Entity>, n: nat)
    requires !MetAlone(x.pdType, r) && Shorter(r.requiresAny + r.requiresAll, n)
    requires forall t <- TypesOf(more) :: n < |t|
    ensures !Satisfied(x, r, more + [x])
  {
    forall t | t in r.requiresAny + r.requiresAll && t != x.pdType ensures !InReach(x, t, more + [x], r) {
      forall o | o in more + [x] ensures o.pdType != t {
        if o in more { assert o.pdType in TypesOf(more); }
      }
    }
  }

  // ----- rules without windows look at types only -----

  ghost predicate DocumentScope(rs: Rules) { forall t <- rs.rules :: !rs.rules[t].window }

  /** A rule is met among the types `ts`. */
  predicate MetAmong(r: Rule, ts: set<PdType>) {
    (r.requiresAny == {} || r.requiresAny * ts != {}) && r.requiresAll <= ts
  }

  predicate FewTypes(rs: Rules, ts: set<PdType>) { 0 < rs.minDistinct && |ts| < rs.minDistinct }

  /** The types that stay among the types `ts`. */
  ghost function KeptTypes(rs: Rules, ts: set<PdType>): set<PdType> {
    if FewTypes(rs, ts) then ts * rs.always else set t <- ts | t in rs.rules ==> MetAmong(rs.rules[t], ts)
  }

  lemma SatisfiedByTypes(e: Entity, r: Rule, es: seq<Entity>)
    requires !r.window
    ensures Satisfied(e, r, es) <==> MetAmong(r, TypesOf(es))
  {
    forall t ensures InReach(e, t, es, r) <==> t in TypesOf(es) {}
    hide TypesOf, InReach;
    var ts := TypesOf(es);
    forall t ensures t in r.requiresAny * ts <==> t in r.requiresAny && InReach(e, t, es, r) {}
  }

  lemma AppliedByTypes(rs: Rules, es: seq<Entity>)
    requires DocumentScope(rs)
    ensures forall e :: e in Applied(rs, es) <==> e in es && e.pdType in KeptTypes(rs, TypesOf(es))
    ensures TypesOf(Applied(rs, es)) == KeptTypes(rs, TypesOf(es))
  {
    hide Satisfied, MetAmong;
    KeptExact(rs, es, es);
    var ts := TypesOf(es);
    forall e | e in es ensures Keeps(rs, es, e) <==> e.pdType in KeptTypes(rs, ts) {
      assert e.pdType in ts;
      if e.pdType in rs.rules { SatisfiedByTypes(e, rs.rules[e.pdType], es); }
    }
    hide Applied, Keeps;
    forall t ensures t in TypesOf(Applied(rs, es)) <==> t in KeptTypes(rs, ts) {
      if t in KeptTypes(rs, ts) {
        var e :| e in es && e.pdType == t;
        assert e in Applied(rs, es);
      }
    }
  }

  /** A set of types as entities. */
  lemma {:induction false} EntitiesOfTypes(ts: set<PdType>) returns (es: seq<Entity>)
    ensures TypesOf(es) == ts
  {
    if ts == {} {
      es := [];
    } else {
      var t :| t in ts;
      es := EntitiesOfTypes(ts - {t});
      TypesAppend(es, OfType(t));
      es := es + [OfType(t)];
      assert ts == ts - {t} + {t};
    }
  }

  ghost predicate Idempotent(rs: Rules) { forall es :: Applied(rs, Applied(rs, es)) == Applied(rs, es) }

  ghost predicate TypesSettle(rs: Rules, ts: set<PdType>) {
    KeptTypes(rs, KeptTypes(rs, ts)) == KeptTypes(rs, ts)
  }

  lemma SettlesByTypes(rs: Rules, es: seq<Entity>)
    requires DocumentScope(rs)
    ensures Applied(rs, Applied(rs, es)) == Applied(rs, es) <==> TypesSettle(rs, TypesOf(es))
  {
    hide KeptTypes, TypesOf;
    var once := Applied(rs, es);
    AppliedByTypes(rs, es);
    AppliedByTypes(rs, once);
    if TypesSettle(rs, TypesOf(es)) {
      forall e | e in once ensures Keeps(rs, once, e) {
        KeptExact(rs, once, once);
        assert e in Applied(rs, once);
      }
      KeptAll(rs, once, once);
    }
  }

  lemma IdempotentByTypes(rs: Rules)
    requires DocumentScope(rs)
    ensures Idempotent(rs) <==> forall ts :: TypesSettle(rs, ts)
  {
    hide TypesSettle, Applied, DocumentScope;
    if Idempotent(rs) {
      forall ts ensures TypesSettle(rs, ts) {
        var es := EntitiesOfTypes(ts);
        SettlesByTypes(rs, es);
      }
    }
    if forall ts :: TypesSettle(rs, ts) {
      forall es ensures Applied(rs, Applied(rs, es)) == Applied(rs, es) { SettlesByTypes(rs, es); }
    }
  }

  // ----- when one pass settles -----

  ghost predicate AllMetAlone(rs: Rules) { forall t <- rs.rules :: MetAlone(t, rs.rules[t]) }

  /** The least sets of types in which type `t` meets its rule: itself, what it requires in
      full, and one of those of which it requires any. */
  function LeastTypes(rs: Rules, t: PdType): set<set<PdType>>
    requires t in rs.rules
  {
    var r := rs.rules[t];
    if r.requiresAny == {} then {{t} + r.requiresAll} else set a <- r.requiresAny :: {t} + r.requiresAll + {a}
  }

  /** Among each of these the rule of `t` is still met by the types that stay. */
  ghost predicate Closed(rs: Rules) {
    forall t <- rs.rules, ts | ts in LeastTypes(rs, t) :: MetAmong(rs.rules[t], KeptTypes(rs, ts))
  }

  lemma LeastMet(rs: Rules, t: PdType, ts: set<PdType>)
    requires t in rs.rules && ts in LeastTypes(rs, t)
    ensures t in ts && MetAmong(rs.rules[t], ts)
  {
    var r := rs.rules[t];
    if r.requiresAny != {} {
      var a :| a in r.requiresAny && ts == {t} + r.requiresAll + {a};
      assert a in r.requiresAny * ts;
    }
  }

  lemma LeastInside(rs: Rules, t: PdType, ts: set<PdType>) returns (least: set<PdType>)
    requires t in rs.rules && t in ts && MetAmong(rs.rules[t], ts)
    ensures least in LeastTypes(rs, t) && least <= ts
  {
    var r := rs.rules[t];
    if r.requiresAny == {} {
      least := {t} + r.requiresAll;
    } else {
      var a :| a in r.requiresAny * ts;
      least := {t} + r.requiresAll + {a};
    }
  }

  lemma MetGrows(r: Rule, ts: set<PdType>, larger: set<PdType>)
    requires ts <= larger && MetAmong(r, ts)
    ensures MetAmong(r, larger)
  {
    if r.requiresAny != {} {
      var a :| a in r.requiresAny * ts;
      assert a in r.requiresAny * larger;
    }
  }

  /** If at most one type is asked for, more types keep more. */
  lemma KeptGrows(rs: Rules, ts: set<PdType>, larger: set<PdType>)
    requires rs.minDistinct <= 1 && ts <= larger
    ensures KeptTypes(rs, ts) <= KeptTypes(rs, larger)
  {
    hide MetAmong;
    SubsetSize(ts, larger);
    if ts == {} {
    } else {
      forall t | t in KeptTypes(rs, ts) ensures t in KeptTypes(rs, larger) {
        assert !FewTypes(rs, ts) && !FewTypes(rs, larger) by { NotFew(rs, t, ts); }
        if t in rs.rules { MetGrows(rs.rules[t], ts, larger); }
      }
    }
  }

  lemma NotFew(rs: Rules, t: PdType, ts: set<PdType>)
    requires rs.minDistinct <= 1 && t in ts
    ensures !FewTypes(rs, ts)
  {
    SubsetSize({t}, ts);
  }

  lemma ClosedSettles(rs: Rules, ts: set<PdType>)
    requires rs.minDistinct <= 1 && Closed(rs)
    ensures TypesSettle(rs, ts)
  {
    hide MetAmong, LeastTypes;
    var once := KeptTypes(rs, ts);
    forall t | t in once ensures t in KeptTypes(rs, once) {
      NotFew(rs, t, once);
      if t in rs.rules {
        assert MetAmong(rs.rules[t], ts) by { NotFew(rs, t, ts); }
        var least := LeastInside(rs, t, ts);
        KeptGrows(rs, least, ts);
        MetGrows(rs.rules[t], KeptTypes(rs, least), once);
      }
    }
  }

  lemma SettlesClosed(rs: Rules)
    requires rs.minDistinct <= 1 && forall ts :: TypesSettle(rs, ts)
    ensures Closed(rs)
  {
    hide MetAmong, LeastTypes, TypesSettle;
    forall t <- rs.rules, ts | ts in LeastTypes(rs, t) ensures MetAmong(rs.rules[t], KeptTypes(rs, ts)) {
      LeastMet(rs, t, ts);
      NotFew(rs, t, ts);
      assert TypesSettle(rs, ts);
      SettledMet(rs, t, ts);
    }
  }

  lemma SettledMet(rs: Rules, t: PdType, ts: set<PdType>)
    requires rs.minDistinct <= 1 && t in rs.rules && t in KeptTypes(rs, ts) && TypesSettle(rs, ts)
    ensures MetAmong(rs.rules[t], KeptTypes(rs, ts))
  {
    hide MetAmong;
    NotFew(rs, t, KeptTypes(rs, ts));
  }

  lemma AloneMetAmong(t: PdType, r: Rule, ts: set<PdType>)
    requires t in ts && MetAlone(t, r)
    ensures MetAmong(r, ts)
  {
    if r.requiresAny != {} { assert t in r.requiresAny * ts; }
  }

  lemma MetAloneSettles(rs: Rules, ts: set<PdType>)
    requires AllMetAlone(rs)
    ensures TypesSettle(rs, ts)
  {
    hide MetAmong, MetAlone;
    if FewTypes(rs, ts) {
      SubsetSize(ts * rs.always, ts);
      assert ts * rs.always * rs.always == ts * rs.always;
    } else {
      forall t | t in ts && t in rs.rules ensures MetAmong(rs.rules[t], ts) { AloneMetAmong(t, rs.rules[t], ts); }
      assert KeptTypes(rs, ts) == ts;
    }
  }

  /** With just enough distinct types, dropping one leaves too few. */
  lemma DroppedThenFew(rs: Rules, t: PdType) returns (ts: set<PdType>)
    requires rs.minDistinct > 1 && t in rs.rules && !MetAlone(t, rs.rules[t])
    ensures !TypesSettle(rs, ts)
  {
    var r := rs.rules[t];
    var n := LengthBound({t} + rs.rules.Keys + rs.always + r.requiresAny + r.requiresAll);
    var m := rs.minDistinct - 1;
    FreshDistinct(n, m);
    var others := TypesOf(FreshEntities(n, m));
    ts := others + {t};
    assert |ts| == |others| + 1;
    assert r.requiresAny * ts == r.requiresAny * {t};
    assert !MetAmong(r, ts);
    assert KeptTypes(rs, ts) == others;
    assert others * rs.always == {};
    assert others != {};
  }

  /** Without windows, applying the rules a second time never changes anything iff at most one
      distinct type is asked for and the rules are closed, or every ruled type meets its rule
      alone. */
  lemma IdempotentIff(rs: Rules)
    requires DocumentScope(rs)
    ensures Idempotent(rs) <==> (rs.minDistinct <= 1 && Closed(rs)) || AllMetAlone(rs)
  {
    hide TypesSettle, Closed, Idempotent, MetAlone;
    IdempotentByTypes(rs);
    if rs.minDistinct <= 1 {
      if Closed(rs) {
        forall ts ensures TypesSettle(rs, ts) { ClosedSettles(rs, ts); }
      }
      if forall ts :: TypesSettle(rs, ts) { SettlesClosed(rs); }
    } else if !AllMetAlone(rs) {
      var t :| t in rs.rules && !MetAlone(t, rs.rules[t]);
      var ts := DroppedThenFew(rs, t);
    }
    if AllMetAlone(rs) {
      forall ts ensures TypesSettle(rs, ts) { MetAloneSettles(rs, ts); }
    }
  }
}
