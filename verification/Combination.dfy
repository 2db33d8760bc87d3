/** Rules of joint occurrence: which entities stay, given which others are there. */
module Combination {
  import opened Entities

  datatype Rule = Rule(requiresAny: set<PdType>, requiresAll: set<PdType>, window: bool, windowChars: nat)

  datatype Rules = Rules(rules: map<PdType, Rule>, minDistinct: nat, always: set<PdType>)

  function TypesOf(es: seq<Entity>): set<PdType> { set e | e in es :: e.pdType }

  predicate Near(a: Entity, b: Entity, chars: nat) {
    (if a.span.start >= b.span.start then a.span.start - b.span.start else b.span.start - a.span.start) <= chars
  }

  /** Is some entity of type `t` in reach of `e`? */
  predicate InReach(e: Entity, t: PdType, es: seq<Entity>, r: Rule) {
    exists o <- es :: o.pdType == t && (r.window ==> Near(e, o, r.windowChars))
  }

  predicate Satisfied(e: Entity, r: Rule, es: seq<Entity>) {
    && (r.requiresAny == {} || exists t <- r.requiresAny :: InReach(e, t, es, r))
    && forall t <- r.requiresAll :: InReach(e, t, es, r)
  }

  predicate TooFew(rs: Rules, es: seq<Entity>) { 0 < rs.minDistinct && |TypesOf(es)| < rs.minDistinct }

  /** Does `e` stay among `es`? */
  predicate Keeps(rs: Rules, es: seq<Entity>, e: Entity) {
    if TooFew(rs, es) then e.pdType in rs.always
    else e.pdType in rs.rules ==> Satisfied(e, rs.rules[e.pdType], es)
  }

  /** The entities of `es` that stay among `all`, in order. */
  function Kept(rs: Rules, all: seq<Entity>, es: seq<Entity>): seq<Entity> {
    if es == [] then [] else (if Keeps(rs, all, es[0]) then [es[0]] else []) + Kept(rs, all, es[1..])
  }

  function Applied(rs: Rules, es: seq<Entity>): seq<Entity> { Kept(rs, es, es) }

  /** The in-place filters of `apply`. */
  method Apply(rs: Rules, entities: seq<Entity>) returns (kept: seq<Entity>)
    ensures kept == Applied(rs, entities)
  {
    hide Satisfied, TooFew, Applied;
    AppliedIs(rs, entities);
    assert entities[0..] == entities;
    var tooFew := TooFew(rs, entities);
    kept := [];
    for i := 0 to |entities|
      invariant kept + Kept(rs, entities, entities[i..]) == Applied(rs, entities)
    {
      var e := entities[i];
      KeptStep(rs, entities, i, kept);
      if tooFew {
        if e.pdType in rs.always { kept := kept + [e]; }
      } else if e.pdType !in rs.rules {
        kept := kept + [e];
      } else if Satisfied(e, rs.rules[e.pdType], entities) {
        kept := kept + [e];
      }
    }
    assert entities[|entities|..] == [];
  }

  lemma AppliedIs(rs: Rules, es: seq<Entity>)
    ensures Applied(rs, es) == Kept(rs, es, es)
  {}

  lemma KeptStep(rs: Rules, es: seq<Entity>, i: nat, done: seq<Entity>)
    requires i < |es|
    ensures done + Kept(rs, es, es[i..]) ==
      (if Keeps(rs, es, es[i]) then done + [es[i]] else done) + Kept(rs, es, es[i + 1..])
  {
    hide Keeps;
    assert es[i..][0] == es[i] && es[i..][1..] == es[i + 1..];
  }

  lemma {:induction false} KeptExact(rs: Rules, all: seq<Entity>, es: seq<Entity>)
    ensures forall e :: e in Kept(rs, all, es) <==> e in es && Keeps(rs, all, e)
  {
    hide Keeps;
    if es != [] {
      KeptExact(rs, all, es[1..]);
      assert forall e :: e in es <==> e == es[0] || e in es[1..];
    }
  }

  /** `o` is in reach of `e` for the rule: anywhere, or within its window of starts. */
  predicate Beside(e: Entity, o: Entity, r: Rule) {
    r.window ==> o.span.start <= e.span.start + r.windowChars && e.span.start <= o.span.start + r.windowChars
  }

  /** An entity stays iff, if there are fewer distinct types than asked for, its type is always
      masked, and otherwise its type's rule, if it has one, finds what it requires in reach. */
  lemma StaysIff(rs: Rules, es: seq<Entity>, e: Entity)
    ensures e in Applied(rs, es) <==>
      e in es &&
      if |set x | x in es :: x.pdType| < rs.minDistinct then e.pdType in rs.always
      else e.pdType in rs.rules ==>
        var r := rs.rules[e.pdType];
        && (r.requiresAny == {} || exists o <- es :: o.pdType in r.requiresAny && Beside(e, o, r))
        && forall t <- r.requiresAll :: exists o <- es :: o.pdType == t && Beside(e, o, r)
  {
    KeptExact(rs, es, es);
    if e.pdType in rs.rules {
      var r := rs.rules[e.pdType];
      forall t ensures InReach(e, t, es, r) <==> exists o <- es :: o.pdType == t && Beside(e, o, r) {}
      if exists o <- es :: o.pdType in r.requiresAny && Beside(e, o, r) {
        var o :| o in es && o.pdType in r.requiresAny && Beside(e, o, r);
        assert InReach(e, o.pdType, es, r);
      }
    }
  }

  ghost predicate Within(es: seq<Entity>, larger: seq<Entity>) { forall e <- es :: e in larger }

  lemma SubsetSize<T>(a: set<T>, b: set<T>)
    requires a <= b
    ensures |a| <= |b|
  {
    assert b == a + (b - a);
  }

  lemma TooFewShrinks(rs: Rules, es: seq<Entity>, larger: seq<Entity>)
    requires Within(es, larger) && TooFew(rs, larger)
    ensures TooFew(rs, es)
  {
    SubsetSize(TypesOf(es), TypesOf(larger));
  }

  lemma SatisfiedGrows(e: Entity, r: Rule, es: seq<Entity>, larger: seq<Entity>)
    requires Within(es, larger) && Satisfied(e, r, es)
    ensures Satisfied(e, r, larger)
  {
    hide Near;
    forall t | InReach(e, t, es, r) ensures InReach(e, t, larger, r) {}
  }

  lemma TooFewMeans(rs: Rules, es: seq<Entity>, e: Entity)
    requires TooFew(rs, es) && e in es
    ensures rs.minDistinct > 1
  {
    assert e.pdType in TypesOf(es);
  }

  /** An entity of type `t` meets the rule `r` whatever else is there. */
  predicate MetAlone(t: PdType, r: Rule) { (r.requiresAny == {} || t in r.requiresAny) && r.requiresAll <= {t} }

  /** At most one distinct type is asked for, or no always-masked type needs another one. */
  ghost predicate AlwaysMet(rs: Rules) {
    rs.minDistinct <= 1 || forall t <- rs.always :: t in rs.rules ==> MetAlone(t, rs.rules[t])
  }

  lemma AloneSatisfied(e: Entity, r: Rule, es: seq<Entity>)
    requires e in es && MetAlone(e.pdType, r)
    ensures Satisfied(e, r, es)
  {
    assert InReach(e, e.pdType, es, r);
  }

  /** With more entities around, none that stayed is dropped. */
  lemma ApplyMonotone(rs: Rules, es: seq<Entity>, larger: seq<Entity>)
    requires AlwaysMet(rs) && Within(es, larger)
    ensures Within(Applied(rs, es), Applied(rs, larger))
  {
    hide TooFew, Satisfied;
    KeptExact(rs, es, es);
    KeptExact(rs, larger, larger);
    forall e <- Applied(rs, es) ensures e in Applied(rs, larger) {
      if TooFew(rs, larger) {
        TooFewShrinks(rs, es, larger);
      } else if e.pdType in rs.rules {
        if TooFew(rs, es) {
          TooFewMeans(rs, es, e);
          AloneSatisfied(e, rs.rules[e.pdType], larger);
        } else {
          SatisfiedGrows(e, rs.rules[e.pdType], es, larger);
        }
      }
    }
  }

  /** An always-masked type with a rule can be kept alone and dropped in company. */
  lemma AlwaysWithRuleNotMonotone()
    ensures var x := Entity("X", Span(0, 1), 1.0, [], "");
      var z := Entity("Z", Span(2, 3), 1.0, [], "");
      var rs := Rules(map["X" := Rule({"Y"}, {}, false, 0)], 2, {"X"});
      x in Applied(rs, [x]) && x !in Applied(rs, [x, z])
  {
    var x := Entity("X", Span(0, 1), 1.0, [], "");
    var z := Entity("Z", Span(2, 3), 1.0, [], "");
    var rs := Rules(map["X" := Rule({"Y"}, {}, false, 0)], 2, {"X"});
    assert TypesOf([x]) == {"X"};
    assert "X" in TypesOf([x, z]) && "Z" in TypesOf([x, z]) by { assert x in [x, z] && z in [x, z]; }
    SubsetSize({"X", "Z"}, TypesOf([x, z]));
    KeptExact(rs, [x], [x]);
    KeptExact(rs, [x, z], [x, z]);
    assert !Satisfied(x, rs.rules["X"], [x, z]);
  }

  /** What rules ask for is not itself subject to a rule. */
  ghost predicate RequiredUnruled(rs: Rules) {
    forall t <- rs.rules :: forall u <- rs.rules[t].requiresAny + rs.rules[t].requiresAll :: u !in rs.rules
  }

  lemma SatisfiedAmongKept(rs: Rules, e: Entity, es: seq<Entity>)
    requires RequiredUnruled(rs) && !TooFew(rs, es) && e.pdType in rs.rules
    requires Satisfied(e, rs.rules[e.pdType], es)
    ensures Satisfied(e, rs.rules[e.pdType], Applied(rs, es))
  {
    hide Near, TooFew;
    var r := rs.rules[e.pdType];
    KeptExact(rs, es, es);
    forall t | t in r.requiresAny + r.requiresAll && InReach(e, t, es, r) ensures InReach(e, t, Applied(rs, es), r) {
      var o :| o in es && o.pdType == t && (r.window ==> Near(e, o, r.windowChars));
      assert o in Applied(rs, es);
    }
    hide Applied;
    if r.requiresAny != {} {
      var t :| t in r.requiresAny && InReach(e, t, es, r);
      assert InReach(e, t, Applied(rs, es), r);
    }
  }

  lemma {:induction false} KeptAll(rs: Rules, all: seq<Entity>, es: seq<Entity>)
    requires forall e <- es :: Keeps(rs, all, e)
    ensures Kept(rs, all, es) == es
  {
    hide Keeps;
    if es != [] {
      KeptAll(rs, all, es[1..]);
      assert es == [es[0]] + es[1..];
    }
  }

  /** Applying the rules twice changes nothing more, if no required type has a rule and at
      most one distinct type is asked for. */
  lemma ApplyIdempotent(rs: Rules, es: seq<Entity>)
    requires RequiredUnruled(rs) && rs.minDistinct <= 1
    ensures Applied(rs, Applied(rs, es)) == Applied(rs, es)
  {
    hide Satisfied, RequiredUnruled, Near;
    var once := Applied(rs, es);
    KeptExact(rs, es, es);
    if once != [] {
      assert once[0].pdType in TypesOf(once) by { assert once[0] in once; }
      assert once[0].pdType in TypesOf(es) by { assert once[0] in once; }
      assert !TooFew(rs, once) && !TooFew(rs, es) by {
        SubsetSize({once[0].pdType}, TypesOf(once));
        SubsetSize({once[0].pdType}, TypesOf(es));
      }
      hide TooFew;
      forall e <- once ensures Keeps(rs, once, e) {
        if e.pdType in rs.rules { SatisfiedAmongKept(rs, e, es); }
      }
      KeptAll(rs, once, once);
    }
  }

  lemma KeptTwo(rs: Rules, all: seq<Entity>, x: Entity, y: Entity)
    ensures Kept(rs, all, [x, y]) == (if Keeps(rs, all, x) then [x] else []) + (if Keeps(rs, all, y) then [y] else [])
    ensures Kept(rs, all, [x]) == if Keeps(rs, all, x) then [x] else []
  {
    hide Keeps;
    assert [x, y][1..] == [y] && [y][1..] == [] && [x][1..] == [];
    assert Kept(rs, all, [y]) == if Keeps(rs, all, y) then [y] else [];
  }

  /** A rule that asks for a ruled type is not settled in one pass: X needs Y, Y needs Z;
      the first pass drops only Y, the second then drops X. */
  lemma ChainedRulesNotIdempotent()
    ensures var x := Entity("X", Span(0, 1), 1.0, [], "");
      var y := Entity("Y", Span(2, 3), 1.0, [], "");
      var rs := Rules(map["X" := Rule({}, {"Y"}, false, 0), "Y" := Rule({}, {"Z"}, false, 0)], 0, {});
      Applied(rs, [x, y]) == [x] && Applied(rs, [x]) == []
  {
    var x := Entity("X", Span(0, 1), 1.0, [], "");
    var y := Entity("Y", Span(2, 3), 1.0, [], "");
    var rs := Rules(map["X" := Rule({}, {"Y"}, false, 0), "Y" := Rule({}, {"Z"}, false, 0)], 0, {});
    assert InReach(x, "Y", [x, y], rs.rules["X"]) by { assert y in [x, y]; }
    assert !InReach(y, "Z", [x, y], rs.rules["Y"]) && !InReach(x, "Y", [x], rs.rules["X"]);
    assert Keeps(rs, [x, y], x) && !Keeps(rs, [x, y], y) && !Keeps(rs, [x], x);
    KeptTwo(rs, [x, y], x, y);
    KeptTwo(rs, [x], x, y);
  }
}
