/** Layered policy resolution and its precomputed cache. Types are a set: the source
    collects them from hash maps in no particular order. */
module PolicyLayers {
  import opened Text
  import opened Entities
  import opened Masking

  datatype TypeMask = TypeMask(mask: Option<string>, mode: Option<string>, disabled: Option<bool>) {
    predicate Off() { disabled == Some(true) }
  }

  type TypeMap = map<PdType, TypeMask>

  datatype Profile = Profile(types: TypeMap, demask: Option<bool>)

  datatype Route = Route(
    id: string, systems: seq<string>, profileOverride: Option<string>, typesOverride: TypeMap,
    responseDemask: bool, action: Option<string>)

  datatype RouteOverride = RouteOverride(types: TypeMap, demask: Option<bool>)

  datatype SystemConfig = SystemConfig(
    enabled: bool, profile: string, demask: bool, overrides: Option<Profile>,
    routeOverrides: map<string, RouteOverride>)

  datatype Config = Config(
    systems: map<string, SystemConfig>, profiles: map<string, Profile>, defaultProfile: string,
    routes: seq<Route>, defaultAction: string)

  datatype Action = Bypass | Block | Mask

  datatype Effective = Effective(
    action: Action, demask: bool, types: set<PdType>, kinds: map<PdType, MaskKind>, components: bool)

  datatype PolicyError = UnknownSystem | SystemDisabled | RouteForbidden

  datatype Result = Ok(policy: Effective) | Err(error: PolicyError)

  const ADDRESS_PARTS: set<PdType> :=
    {"ADDR_COUNTRY", "ADDR_INDEX", "ADDR_REGION", "ADDR_CITY", "ADDR_STREET", "ADDR_HOUSE", "ADDR_FLAT"}

  function KindOf(m: TypeMask): MaskKind {
    if m.mask == Some("redact") then Redact
    else if m.mask == Some("partial") then Partial
    else if m.mask == Some("token") then Token
    else if m.mask == Some("synthetic") then Synthetic
    else if m.mask == Some("hash") then Hash
    else Placeholder
  }

  function Or<T>(a: Option<T>, b: Option<T>): Option<T> { if a.Some? then a else b }

  // ----- layers -----

  function FindRoute(routes: seq<Route>, id: string): Option<Route> {
    if routes == [] then None else if routes[0].id == id then Some(routes[0]) else FindRoute(routes[1..], id)
  }

  function RouteOf(c: Config, routeId: Option<string>): Option<Route> {
    if routeId.None? then None else FindRoute(c.routes, routeId.value)
  }

  /** A system's overrides: a disabled type is taken out of the profile. */
  function Merge(base: TypeMap, over: TypeMap): TypeMap {
    map t | t in base.Keys + over.Keys && !(t in over && over[t].Off()) :: if t in over then over[t] else base[t]
  }

  /** The map loop of `deep_merge_profile`. */
  method MergeTypes(base: TypeMap, over: TypeMap) returns (r: TypeMap)
    ensures r == Merge(base, over)
  {
    r := base;
    var todo := over.Keys;
    while todo != {}
      invariant todo <= over.Keys
      invariant forall t :: t in r <==> if t in over.Keys - todo then !over[t].Off() else t in base
      invariant forall t <- r :: r[t] == if t in over.Keys - todo then over[t] else base[t]
      decreases todo
    {
      var t :| t in todo;
      if over[t].Off() { r := r - {t}; } else { r := r[t := over[t]]; }
      todo := todo - {t};
    }
  }

  function ProfileName(c: Config, s: SystemConfig, route: Option<Route>): string {
    if route.Some? && route.value.profileOverride.Some? then route.value.profileOverride.value
    else if s.profile != "" then s.profile
    else c.defaultProfile
  }

  function BaseProfile(c: Config, s: SystemConfig, route: Option<Route>): Profile {
    var name := ProfileName(c, s, route);
    if name in c.profiles then c.profiles[name] else Profile(map[], None)
  }

  function RouteLayer(route: Option<Route>): TypeMap { if route.Some? then route.value.typesOverride else map[] }

  function RouteOverrideOf(s: SystemConfig, routeId: Option<string>): RouteOverride {
    if routeId.Some? && routeId.value in s.routeOverrides then s.routeOverrides[routeId.value]
    else RouteOverride(map[], None)
  }

  function SystemLayer(s: SystemConfig): Profile {
    if s.overrides.Some? then s.overrides.value else Profile(map[], None)
  }

  function MergedTypes(c: Config, s: SystemConfig, routeId: Option<string>): TypeMap {
    var route := RouteOf(c, routeId);
    Merge(BaseProfile(c, s, route).types, SystemLayer(s).types) + RouteLayer(route) + RouteOverrideOf(s, routeId).types
  }

  // ----- the effective policy -----

  function EnableAddressParts(e: Effective): Effective {
    if !e.components || ADDRESS !in e.types then e
    else
      var kind := if ADDRESS in e.kinds then e.kinds[ADDRESS] else Placeholder;
      e.(types := e.types + ADDRESS_PARTS,
         kinds := map t | t in e.kinds.Keys + ADDRESS_PARTS :: if t in e.kinds then e.kinds[t] else kind)
  }

  const ADDRESS_PART_LIST: seq<PdType> :=
    ["ADDR_COUNTRY", "ADDR_INDEX", "ADDR_REGION", "ADDR_CITY", "ADDR_STREET", "ADDR_HOUSE", "ADDR_FLAT"]

  function SetOf(ts: seq<PdType>): set<PdType> { set t | t in ts }

  lemma PartsListed()
    ensures SetOf(ADDRESS_PART_LIST) == ADDRESS_PARTS
  {}

  lemma SetOfStep(ts: seq<PdType>, i: nat)
    requires i < |ts|
    ensures SetOf(ts[..i + 1]) == SetOf(ts[..i]) + {ts[i]}
  {
    assert ts[..i + 1] == ts[..i] + [ts[i]];
  }

  lemma SetOfEnds(ts: seq<PdType>)
    ensures SetOf(ts[..0]) == {} && ts[..|ts|] == ts
  {}

  /** The loop over the address parts. */
  method AddParts(types: set<PdType>, kinds: map<PdType, MaskKind>, parts: seq<PdType>, kind: MaskKind)
    returns (ts: set<PdType>, ks: map<PdType, MaskKind>)
    ensures ts == types + SetOf(parts)
    ensures ks == map t | t in kinds.Keys + SetOf(parts) :: if t in kinds then kinds[t] else kind
  {
    hide SetOf;
    ts, ks := types, kinds;
    SetOfEnds(parts);
    for i := 0 to |parts|
      invariant ts == types + SetOf(parts[..i])
      invariant ks == map t | t in kinds.Keys + SetOf(parts[..i]) :: if t in kinds then kinds[t] else kind
    {
      var t := parts[i];
      SetOfStep(parts, i);
      if t !in ts { ts := ts + {t}; }
      if t !in ks { ks := ks[t := kind]; }
    }
  }

  method EnableAddressComponents(e: Effective) returns (r: Effective)
    ensures r == EnableAddressParts(e)
  {
    if !e.components || ADDRESS !in e.types { return e; }
    var kind := if ADDRESS in e.kinds then e.kinds[ADDRESS] else Placeholder;
    PartsListed();
    var types, kinds := AddParts(e.types, e.kinds, ADDRESS_PART_LIST, kind);
    r := e.(types := types, kinds := kinds);
  }

  function ActionOf(s: string): Action {
    if s == "bypass" then Bypass else if s == "block" then Block else Mask
  }

  /** The types among `ts` that are not disabled. */
  function OnTypes(types: TypeMap, ts: set<PdType>): set<PdType> { set t | t in ts && t in types && !types[t].Off() }

  function KindsOf(types: TypeMap, on: set<PdType>): map<PdType, MaskKind> {
    map t | t in on && t in types :: KindOf(types[t])
  }

  predicate AskParts(types: TypeMap, on: set<PdType>) {
    exists t <- on :: t in types && types[t].mode == Some("components")
  }

  function BuildEffective(types: TypeMap, demask: bool, action: string): Effective {
    var on := OnTypes(types, types.Keys);
    EnableAddressParts(Effective(ActionOf(action), demask, on, KindsOf(types, on), AskParts(types, on)))
  }

  lemma OnTypesStep(types: TypeMap, done: set<PdType>, t: PdType)
    requires t in types
    ensures OnTypes(types, done + {t}) == OnTypes(types, done) + if types[t].Off() then {} else {t}
  {}

  lemma KindsStep(types: TypeMap, on: set<PdType>, t: PdType)
    requires t in types
    ensures KindsOf(types, on + {t}) == KindsOf(types, on)[t := KindOf(types[t])]
    ensures AskParts(types, on + {t}) <==> AskParts(types, on) || types[t].mode == Some("components")
  {
    hide KindOf;
    if types[t].mode == Some("components") { assert t in on + {t}; }
  }

  lemma NoTypes(types: TypeMap)
    ensures OnTypes(types, {}) == {} && KindsOf(types, {}) == map[] && !AskParts(types, {})
  {}

  /** The loop over a profile's types. */
  method BuildPolicy(types: TypeMap, demask: bool, action: string) returns (r: Effective)
    ensures r == BuildEffective(types, demask, action)
  {
    hide KindOf, EnableAddressParts, OnTypes, KindsOf, AskParts;
    var on: set<PdType>, kinds: map<PdType, MaskKind>, components := {}, map[], false;
    var todo := types.Keys;
    ghost var done: set<PdType> := {};
    NoTypes(types);
    while todo != {}
      invariant todo !! done && todo + done == types.Keys
      invariant on == OnTypes(types, done) && kinds == KindsOf(types, on) && components == AskParts(types, on)
      decreases todo
    {
      var t :| t in todo;
      OnTypesStep(types, done, t);
      todo, done := todo - {t}, done + {t};
      if types[t].Off() { continue; }
      KindsStep(types, on, t);
      on := on + {t};
      kinds := kinds[t := KindOf(types[t])];
      if types[t].mode == Some("components") { components := true; }
    }
    r := EnableAddressComponents(Effective(ActionOf(action), demask, on, kinds, components));
  }

  function Resolve(c: Config, system: string, routeId: Option<string>): Result {
    if system !in c.systems then Err(UnknownSystem)
    else
      var s := c.systems[system];
      var route := RouteOf(c, routeId);
      if !s.enabled then Err(SystemDisabled)
      else if route.Some? && route.value.systems != [] && system !in route.value.systems then Err(RouteForbidden)
      else
        var profileDemask := Or(RouteOverrideOf(s, routeId).demask,
                                Or(SystemLayer(s).demask, BaseProfile(c, s, route).demask));
        var demask := (route.Some? ==> route.value.responseDemask) && s.demask && profileDemask != Some(false);
        var action := if route.Some? && route.value.action.Some? then route.value.action.value else c.defaultAction;
        Ok(BuildEffective(MergedTypes(c, s, routeId), demask, action))
  }

  method ResolvePolicy(c: Config, system: string, routeId: Option<string>) returns (r: Result)
    ensures r == Resolve(c, system, routeId)
  {
    hide Merge, BuildEffective, RouteOf, BaseProfile;
    if system !in c.systems { return Err(UnknownSystem); }
    var s := c.systems[system];
    if !s.enabled { return Err(SystemDisabled); }
    var route := RouteOf(c, routeId);
    if route.Some? && route.value.systems != [] && system !in route.value.systems { return Err(RouteForbidden); }
    var p := BaseProfile(c, s, route);
    if s.overrides.Some? {
      var merged := MergeTypes(p.types, s.overrides.value.types);
      p := Profile(merged, Or(s.overrides.value.demask, p.demask));
    }
    MergeNothing(BaseProfile(c, s, route).types);
    if route.Some? { p := p.(types := p.types + route.value.typesOverride); }
    if routeId.Some? && routeId.value in s.routeOverrides {
      var ro := s.routeOverrides[routeId.value];
      p := Profile(p.types + ro.types, Or(ro.demask, p.demask));
    }
    assert p.types == MergedTypes(c, s, routeId);
    var routeDemask := if route.Some? then route.value.responseDemask else true;
    var demask := routeDemask && s.demask && p.demask != Some(false);
    var action := if route.Some? && route.value.action.Some? then route.value.action.value else c.defaultAction;
    var policy := BuildPolicy(p.types, demask, action);
    r := Ok(policy);
  }

  lemma MergeNothing(base: TypeMap)
    ensures Merge(base, map[]) == base
  {}

  // ----- the most specific layer decides -----

  /** The layers of a request, most specific first. */
  function Layers(c: Config, s: SystemConfig, routeId: Option<string>): seq<TypeMap> {
    var route := RouteOf(c, routeId);
    [RouteOverrideOf(s, routeId).types, RouteLayer(route), SystemLayer(s).types, BaseProfile(c, s, route).types]
  }

  /** What the first layer that mentions `t` says about it. */
  function Decision(layers: seq<TypeMap>, t: PdType): Option<TypeMask> {
    if layers == [] then None
    else if t in layers[0] then Some(layers[0][t])
    else Decision(layers[1..], t)
  }

  function DecisionFor(c: Config, s: SystemConfig, routeId: Option<string>, t: PdType): Option<TypeMask> {
    Decision(Layers(c, s, routeId), t)
  }

  predicate On(d: Option<TypeMask>) { d.Some? && d.value.disabled != Some(true) }

  predicate AsksParts(d: Option<TypeMask>) { On(d) && d.value.mode == Some("components") }

  lemma DecisionOfFour(a: TypeMap, b: TypeMap, d: TypeMap, e: TypeMap, t: PdType)
    ensures Decision([a, b, d, e], t) ==
      if t in a then Some(a[t]) else if t in b then Some(b[t]) else if t in d then Some(d[t])
      else if t in e then Some(e[t]) else None
  {
    assert [a, b, d, e][1..] == [b, d, e] && [b, d, e][1..] == [d, e] && [d, e][1..] == [e] && [e][1..] == [];
    assert Decision([e], t) == if t in e then Some(e[t]) else None;
    assert Decision([d, e], t) == if t in d then Some(d[t]) else Decision([e], t);
    assert Decision([b, d, e], t) == if t in b then Some(b[t]) else Decision([d, e], t);
  }

  lemma MergedIsDecision(c: Config, s: SystemConfig, routeId: Option<string>, t: PdType)
    ensures var merged := MergedTypes(c, s, routeId);
      var d := DecisionFor(c, s, routeId, t);
      && (t in merged && !merged[t].Off() <==> On(d))
      && (On(d) ==> merged[t] == d.value)
  {
    hide RouteOf, BaseProfile, SystemLayer, RouteLayer, RouteOverrideOf;
    var route := RouteOf(c, routeId);
    DecisionOfFour(
      RouteOverrideOf(s, routeId).types, RouteLayer(route), SystemLayer(s).types, BaseProfile(c, s, route).types, t);
  }

  /** Policy layering: a type is effective iff the most specific layer that mentions it does
      not disable it, and is masked as that layer says. The parts of an address are also
      effective, even if disabled, whenever some effective type asks for components and
      ADDRESS is effective; they are then masked like ADDRESS. */
  lemma MostSpecificLayerDecides(c: Config, system: string, routeId: Option<string>, t: PdType)
    requires Resolve(c, system, routeId).Ok?
    ensures var s := c.systems[system];
      var d, address := DecisionFor(c, s, routeId, t), DecisionFor(c, s, routeId, "ADDRESS");
      var p := Resolve(c, system, routeId).policy;
      var split := p.components && On(address);
      var part := t in {"ADDR_COUNTRY", "ADDR_INDEX", "ADDR_REGION", "ADDR_CITY", "ADDR_STREET", "ADDR_HOUSE",
                        "ADDR_FLAT"};
      && (t in p.types <==> On(d) || (part && split))
      && (On(d) ==> t in p.kinds && p.kinds[t] == KindOf(d.value))
      && (!On(d) && part && split ==> t in p.kinds && p.kinds[t] == KindOf(address.value))
      && (p.components <==> exists u :: AsksParts(DecisionFor(c, s, routeId, u)))
  {
    hide DecisionFor, MergedTypes, KindOf, RouteOf;
    var s := c.systems[system];
    var merged := MergedTypes(c, s, routeId);
    var p := Resolve(c, system, routeId).policy;
    MergedIsDecision(c, s, routeId, t);
    MergedIsDecision(c, s, routeId, ADDRESS);
    if p.components {
      var u :| u in merged && !merged[u].Off() && merged[u].mode == Some("components");
      MergedIsDecision(c, s, routeId, u);
      assert AsksParts(DecisionFor(c, s, routeId, u));
    }
    forall u | AsksParts(DecisionFor(c, s, routeId, u)) ensures p.components {
      MergedIsDecision(c, s, routeId, u);
    }
  }

  // ----- what the layers are -----

  /** The first route with the given id stands at `i`. */
  predicate FirstAt(routes: seq<Route>, id: string, i: nat) {
    i < |routes| && routes[i].id == id && forall j | 0 <= j < i :: routes[j].id != id
  }

  /** `r` is the first route with the requested id, if a route is requested and there is one. */
  ghost predicate IsRoute(c: Config, routeId: Option<string>, r: Option<Route>) {
    match r
    case Some(route) => routeId.Some? && exists i: nat :: FirstAt(c.routes, routeId.value, i) && c.routes[i] == route
    case None => routeId.None? || forall i | 0 <= i < |c.routes| :: c.routes[i].id != routeId.value
  }

  lemma {:induction false} FirstRoute(routes: seq<Route>, id: string)
    ensures forall i: nat :: FirstAt(routes, id, i) ==> FindRoute(routes, id) == Some(routes[i])
    ensures (forall i | 0 <= i < |routes| :: routes[i].id != id) ==> FindRoute(routes, id) == None
  {
    if routes != [] && routes[0].id != id {
      FirstRoute(routes[1..], id);
      assert forall j | 0 < j < |routes| :: routes[j] == routes[1..][j - 1];
      forall i: nat | FirstAt(routes, id, i) ensures FindRoute(routes, id) == Some(routes[i]) {
        assert FirstAt(routes[1..], id, i - 1);
      }
    }
  }

  lemma RouteIs(c: Config, routeId: Option<string>, r: Option<Route>)
    requires IsRoute(c, routeId, r)
    ensures RouteOf(c, routeId) == r
  {
    if routeId.Some? { FirstRoute(c.routes, routeId.value); }
  }

  /** The layers, most specific first: the system's override for the route, the route's own
      types, the system's overrides, and the profile, which is the route's, else the system's,
      else the default one. */
  lemma LayersAre(c: Config, s: SystemConfig, routeId: Option<string>, r: Option<Route>, t: PdType)
    requires IsRoute(c, routeId, r)
    ensures var d := DecisionFor(c, s, routeId, t);
      var name := if r.Some? && r.value.profileOverride.Some? then r.value.profileOverride.value
                  else if s.profile != "" then s.profile else c.defaultProfile;
      if routeId.Some? && routeId.value in s.routeOverrides && t in s.routeOverrides[routeId.value].types then
        d == Some(s.routeOverrides[routeId.value].types[t])
      else if r.Some? && t in r.value.typesOverride then d == Some(r.value.typesOverride[t])
      else if s.overrides.Some? && t in s.overrides.value.types then d == Some(s.overrides.value.types[t])
      else if name in c.profiles && t in c.profiles[name].types then d == Some(c.profiles[name].types[t])
      else d == None
  {
    RouteIs(c, routeId, r);
    hide RouteOf, IsRoute, Decision;
    DecisionOfFour(
      RouteOverrideOf(s, routeId).types, RouteLayer(r), SystemLayer(s).types, BaseProfile(c, s, r).types, t);
  }

  /** Who is refused, and for what reason; and when answers may be demasked and what is done with
      a request: the most specific of the settings decides. */
  lemma ResolveAnswers(c: Config, system: string, routeId: Option<string>, r: Option<Route>)
    requires IsRoute(c, routeId, r)
    ensures var res := Resolve(c, system, routeId);
      && (system !in c.systems ==> res == Err(UnknownSystem))
      && (system in c.systems ==>
            var s := c.systems[system];
            var forbidden := r.Some? && r.value.systems != [] && system !in r.value.systems;
            && (!s.enabled ==> res == Err(SystemDisabled))
            && (s.enabled && forbidden ==> res == Err(RouteForbidden))
            && (s.enabled && !forbidden ==>
                  && res.Ok?
                  && (res.policy.demask <==>
                        s.demask && (r.Some? ==> r.value.responseDemask) && ProfileDemasks(c, s, routeId, r))
                  && var action := if r.Some? && r.value.action.Some? then r.value.action.value else c.defaultAction;
                  && (action == "bypass" ==> res.policy.action == Bypass)
                  && (action == "block" ==> res.policy.action == Block)
                  && (action !in {"bypass", "block"} ==> res.policy.action == Mask)))
  {
    RouteIs(c, routeId, r);
    hide RouteOf, IsRoute, MergedTypes, OnTypes, KindsOf, AskParts;
  }

  /** The first of the route's override, the system's overrides and the profile that says
      whether to demask does not forbid it. */
  predicate ProfileDemasks(c: Config, s: SystemConfig, routeId: Option<string>, r: Option<Route>) {
    var name := if r.Some? && r.value.profileOverride.Some? then r.value.profileOverride.value
                else if s.profile != "" then s.profile else c.defaultProfile;
    if routeId.Some? && routeId.value in s.routeOverrides && s.routeOverrides[routeId.value].demask.Some? then
      s.routeOverrides[routeId.value].demask.value
    else if s.overrides.Some? && s.overrides.value.demask.Some? then s.overrides.value.demask.value
    else name in c.profiles && c.profiles[name].demask.Some? ==> c.profiles[name].demask.value
  }

  // ----- masks by their names in the configuration -----

  /** What a value of an effective type is shown as and whether it is recorded, from the mask's
      name in the deciding layer alone. `n` is the number of the value in its session. */
  lemma MaskedAsConfigured(c: Config, system: string, routeId: Option<string>, t: PdType, m: Maskers,
                           canonical: string, original: string, st: Numbers)
    requires Resolve(c, system, routeId).Ok?
    requires On(DecisionFor(c, c.systems[system], routeId, t))
    requires m.format == "[{label}_{n}]" && '{' !in m.LabelOf(t)
    ensures var name := DecisionFor(c, c.systems[system], routeId, t).value.mask;
      var p := Resolve(c, system, routeId).policy;
      t in p.types && t in p.kinds &&
      var out := MaskValue(m, p.kinds[t], (t, canonical), original, st).0;
      var n := Next(st, (t, canonical)).1;
      && (name == Some("redact") ==> AllStars(out.replacement, |original|) && out.key == None)
      && (name == Some("partial") ==>
            DigitsStarred(original, out.replacement, m.keepLast) && out.key == Some(t + "_p" + Decimal(n)))
      && (name == Some("token") ==>
            out.replacement == "tok_" + t + "_" + m.token(t + "|" + canonical) && out.key == Some(out.replacement))
      && (name == Some("synthetic") ==>
            out.replacement == m.synthetic(t, canonical) && out.key == Some(t + "_s" + Decimal(n)))
      && (name == Some("hash") ==> out.replacement == "sha256:" + m.hash(canonical) && out.key == None)
      && (name !in {Some("redact"), Some("partial"), Some("token"), Some("synthetic"), Some("hash")} ==>
            var tag := if t in m.labels then m.labels[t] else t;
            out.replacement == "[" + tag + "_" + Decimal(n) + "]" && out.key == Some(tag + "_" + Decimal(n)))
  {
    MostSpecificLayerDecides(c, system, routeId, t);
    hide Resolve, DecisionFor, MaskValue, Next, Decimal, AllStars, DigitsStarred;
    MaskShows(m, Resolve(c, system, routeId).policy.kinds[t], t, canonical, original, st);
  }

  lemma MaskShows(m: Maskers, kind: MaskKind, t: PdType, canonical: string, original: string, st: Numbers)
    requires m.format == "[{label}_{n}]" && '{' !in m.LabelOf(t)
    ensures var out := MaskValue(m, kind, (t, canonical), original, st).0;
      var n := Next(st, (t, canonical)).1;
      match kind
      case Redact => AllStars(out.replacement, |original|) && out.key == None
      case Partial => DigitsStarred(original, out.replacement, m.keepLast) && out.key == Some(t + "_p" + Decimal(n))
      case Token =>
        out.replacement == "tok_" + t + "_" + m.token(t + "|" + canonical) && out.key == Some(out.replacement)
      case Synthetic => out.replacement == m.synthetic(t, canonical) && out.key == Some(t + "_s" + Decimal(n))
      case Hash => out.replacement == "sha256:" + m.hash(canonical) && out.key == None
      case Placeholder =>
        var tag := if t in m.labels then m.labels[t] else t;
        out.replacement == "[" + tag + "_" + Decimal(n) + "]" && out.key == Some(tag + "_" + Decimal(n))
  {
    hide Next, PlaceholderText, Decimal;
    DefaultPlaceholder(m, t, Next(st, (t, canonical)).1);
  }

  predicate AllStars(s: string, n: nat) { |s| == n && forall i | 0 <= i < n :: s[i] == '*' }

  /** The digits before the last `keep` characters are stars; everything else is as it was. */
  predicate DigitsStarred(s: string, r: string, keep: nat) {
    |r| == |s| && forall i | 0 <= i < |s| :: r[i] == if '0' <= s[i] <= '9' && i + keep < |s| then '*' else s[i]
  }

  /** Outside the address parts the layers alone decide. */
  lemma LayersDecideOutsideAddress(c: Config, system: string, routeId: Option<string>, t: PdType)
    requires Resolve(c, system, routeId).Ok? && t !in ADDRESS_PARTS
    ensures t in Resolve(c, system, routeId).policy.types <==> On(DecisionFor(c, c.systems[system], routeId, t))
  {
    hide DecisionFor, Resolve;
    MostSpecificLayerDecides(c, system, routeId, t);
  }

  // ----- the cache -----

  type CacheKey = (string, Option<string>)

  datatype Compiled = Compiled(config: Config, policies: map<CacheKey, Effective>)

  /** Every cached policy is what direct resolution gives. */
  ghost predicate Faithful(c: Compiled) {
    forall k <- c.policies :: Resolve(c.config, k.0, k.1) == Ok(c.policies[k])
  }

  /** The precomputation over all systems, without a route and with each route. */
  method Compile(c: Config) returns (r: Compiled)
    ensures r.config == c && Faithful(r)
    ensures forall s <- c.systems.Keys :: Covered(c, r.policies, s, |c.routes|)
  {
    hide Resolve;
    var policies: map<CacheKey, Effective> := map[];
    var todo := c.systems.Keys;
    while todo != {}
      invariant todo <= c.systems.Keys
      invariant Faithful(Compiled(c, policies))
      invariant forall s <- c.systems.Keys - todo :: Covered(c, policies, s, |c.routes|)
      decreases todo
    {
      var s :| s in todo;
      policies := Cached(c, policies, s, None);
      for i := 0 to |c.routes|
        invariant Faithful(Compiled(c, policies))
        invariant Covered(c, policies, s, i)
        invariant forall s <- c.systems.Keys - todo :: Covered(c, policies, s, |c.routes|)
      {
        policies := Cached(c, policies, s, Some(c.routes[i].id));
      }
      todo := todo - {s};
    }
    r := Compiled(c, policies);
  }

  /** The policies of `s` without a route and for the first `n` routes are cached. */
  ghost predicate Covered(c: Config, policies: map<CacheKey, Effective>, s: string, n: nat)
    requires n <= |c.routes|
  {
    && (Resolve(c, s, None).Ok? ==> (s, None) in policies)
    && forall i | 0 <= i < n :: Resolve(c, s, Some(c.routes[i].id)).Ok? ==> (s, Some(c.routes[i].id)) in policies
  }

  function Cached(c: Config, policies: map<CacheKey, Effective>, s: string, r: Option<string>)
    : map<CacheKey, Effective>
  {
    match Resolve(c, s, r)
    case Ok(p) => policies[(s, r) := p]
    case Err(_) => policies
  }

  class PolicyResolver {
    var current: Compiled

    ghost predicate Valid()
      reads this
    { Faithful(current) }

    constructor (c: Compiled)
      requires Faithful(c)
      ensures Valid() && current == c
    {
      current := c;
    }

    /** Hot reload. */
    method Swap(c: Compiled)
      requires Faithful(c)
      modifies this
      ensures Valid() && current == c
    {
      current := c;
    }

    /** The cached lookup gives what direct resolution on the installed config gives, for
        every system and route, known or not. */
    method ResolveCached(system: string, routeId: Option<string>) returns (r: Result)
      requires Valid()
      ensures r == Resolve(current.config, system, routeId)
    {
      hide Resolve;
      var key := (system, routeId);
      if key in current.policies { return Ok(current.policies[key]); }
      r := ResolvePolicy(current.config, system, routeId);
    }
  }
}
