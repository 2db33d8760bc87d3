/** `GuardService` over its vault: masking, the one-endpoint `payload_id` contract and
    demasking, under any interleaving of systems, evictions and vault faults.
    Encryption is ideal: a sealed mapping opens only for its session and system. */
module Session {
  import opened Text
  import opened Scanner
  import opened Entities
  import opened Masking
  import opened Pipeline
  import opened Demask
  import opened RoundTrip
  import opened Lines
  import opened Interlacing
  import opened Inversion
  import opened SharedMapping

  datatype Sealed = Sealed(session: string, system: string, mapping: Mapping) {
    function Open(s: string, sys: string): Option<Mapping> {
      if s == session && sys == system then Some(mapping) else None
    }
  }

  datatype Config = Config(stateless: bool, deleteAfterDemask: bool, classes: Classes)

  /** What the policy says about sessions. */
  datatype Rights = Rights(demask: bool, failWithoutNer: bool)

  /** What the pipeline made of a text, and whether its NER stage failed. */
  datatype Line = Line(text: string, entries: seq<Entry>, nerFailed: bool)

  datatype Error = NerUnavailable | VaultDown | DemaskDisabled | ContextMissing | SessionNotFound | CannotDecrypt

  datatype MaskReply = MaskReply(text: string, context: Option<Sealed>)

  datatype Reply =
    | Masked(mask: MaskReply)
    | Repeated(text: string)
    | Restored(text: string, restored: nat)
    | Demasked(result: DemaskResult)
    | Failed(error: Error)
    | Silent
  {
    function Text(): string {
      match this
      case Masked(m) => m.text
      case Repeated(t) => t
      case Restored(t, _) => t
      case Demasked(r) => r.text
      case _ => ""
    }
  }

  type Vault = map<string, Sealed>

  // ----- the requests as functions of the vault -----

  function MaskStep(c: Config, v: Vault, r: Rights, system: string, text: string, session: string, line: Line,
                    dryRun: bool, putOk: bool): (Vault, Reply)
  {
    if dryRun then (v, Masked(MaskReply(text, None)))
    else if line.nerFailed && r.failWithoutNer then (v, Failed(NerUnavailable))
    else
      var sealed := Sealed(session, system, Mapping(line.entries, text, line.text));
      if !r.demask then (v, Masked(MaskReply(line.text, None)))
      else if c.stateless then (v, Masked(MaskReply(line.text, Some(sealed))))
      else if !putOk then (v, Failed(VaultDown))
      else (v[session := sealed], Masked(MaskReply(line.text, None)))
  }

  /** A failing vault, a missing entry and an entry of another system all count as unknown. */
  function Lookup(c: Config, v: Vault, system: string, session: string, getOk: bool): Option<Mapping> {
    if c.stateless || !getOk || session !in v then None else v[session].Open(session, system)
  }

  function TzStep(c: Config, v: Vault, r: Rights, system: string, id: string, payload: string, line: Line,
                  getOk: bool, putOk: bool): (Vault, Reply)
  {
    var known := if r.demask then Lookup(c, v, system, id, getOk) else None;
    match known
    case None => MaskStep(c, v, r, system, payload, id, line, false, putOk)
    case Some(m) =>
      if payload == m.original then (v, Repeated(m.masked))
      else if payload == m.masked then (v, Restored(m.original, |m.entries|))
      else var d := Demask.Demasked(c.classes, payload, m); (v, Restored(d.text, d.restored))
  }

  /** Why a demask call cannot get at its mapping, if it cannot. */
  function MappingProblem(c: Config, v: Vault, system: string, session: string, context: Option<Sealed>, getOk: bool)
    : Option<Error>
  {
    if c.stateless then
      if context.None? then Some(ContextMissing)
      else if context.value.Open(session, system).None? then Some(CannotDecrypt)
      else None
    else if !getOk then Some(VaultDown)
    else if session !in v then Some(SessionNotFound)
    else if v[session].Open(session, system).None? then Some(CannotDecrypt)
    else None
  }

  function DemaskStep(c: Config, v: Vault, r: Rights, system: string, text: string, session: string,
                      context: Option<Sealed>, getOk: bool, deleteOk: bool): (Vault, Reply)
  {
    if !r.demask then (v, Failed(DemaskDisabled))
    else
      var problem := MappingProblem(c, v, system, session, context, getOk);
      if problem.Some? then (v, Failed(problem.value))
      else
        var m := if c.stateless then context.value.mapping else v[session].mapping;
        var reply := Demasked(Demask.Demasked(c.classes, text, m));
        (if c.deleteAfterDemask && !c.stateless && deleteOk then v - {session} else v, reply)
  }

  // ----- the service -----

  class GuardService {
    const config: Config
    var vault: Vault

    constructor (c: Config)
      ensures config == c && vault == map[]
    {
      config, vault := c, map[];
    }

    method MaskRequest(r: Rights, system: string, text: string, session: string, line: Line, dryRun: bool, putOk: bool)
      returns (reply: Reply)
      modifies this
      ensures (vault, reply) == MaskStep(config, old(vault), r, system, text, session, line, dryRun, putOk)
    {
      if dryRun { return Masked(MaskReply(text, None)); }
      if line.nerFailed && r.failWithoutNer { return Failed(NerUnavailable); }
      var mapping := Mapping(line.entries, text, line.text);
      var context := None;
      if r.demask {
        var enc := Sealed(session, system, mapping);
        if config.stateless {
          context := Some(enc);
        } else if putOk {
          vault := vault[session := enc];
        } else {
          return Failed(VaultDown);
        }
      }
      reply := Masked(MaskReply(line.text, context));
    }

    method ProcessTz(r: Rights, system: string, id: string, payload: string, line: Line, getOk: bool, putOk: bool)
      returns (reply: Reply)
      modifies this
      ensures (vault, reply) == TzStep(config, old(vault), r, system, id, payload, line, getOk, putOk)
    {
      if r.demask {
        var known := Lookup(config, vault, system, id, getOk);
        if known.Some? {
          var mapping := known.value;
          if payload == mapping.original { return Repeated(mapping.masked); }
          if payload == mapping.masked { return Restored(mapping.original, |mapping.entries|); }
          var res := DemaskText(config.classes, payload, mapping);
          return Restored(res.text, res.restored);
        }
      }
      reply := MaskRequest(r, system, payload, id, line, false, putOk);
    }

    method DemaskRequest(r: Rights, system: string, text: string, session: string, context: Option<Sealed>,
                         getOk: bool, deleteOk: bool) returns (reply: Reply)
      modifies this
      ensures (vault, reply) == DemaskStep(config, old(vault), r, system, text, session, context, getOk, deleteOk)
    {
      if !r.demask { return Failed(DemaskDisabled); }
      var enc: Sealed;
      if config.stateless {
        if context.None? { return Failed(ContextMissing); }
        enc := context.value;
      } else {
        if !getOk { return Failed(VaultDown); }
        if session !in vault { return Failed(SessionNotFound); }
        enc := vault[session];
      }
      var plain := enc.Open(session, system);
      if plain.None? { return Failed(CannotDecrypt); }
      var res := DemaskText(config.classes, text, plain.value);
      if config.deleteAfterDemask && !config.stateless && deleteOk {
        vault := vault - {session};
      }
      reply := Demasked(res);
    }
  }

  // ----- what each call answers and writes -----

  /** The mapping of a masking call, sealed for its session and system. */
  function SealedBy(e: Event): Sealed
    requires e.MaskCall? || e.TzCall?
  { Sealed(e.id, e.system, Mapping(e.line.entries, e.payload, e.line.text)) }

  /** A mask call never answers its text but on a dry run, which writes nothing. Otherwise it
      answers the pipeline's line, or fails, for one of two reasons; a context is returned iff
      the mode is stateless and demasking is allowed, and the vault is written iff the mode is
      stateful and demasking is allowed. */
  lemma MaskCallAnswers(c: Config, v: Vault, e: Event)
    requires e.MaskCall?
    ensures var (v', reply) := Step(c, v, e);
      var nerDown := e.line.nerFailed && e.rights.failWithoutNer;
      var stores := e.rights.demask && !c.stateless;
      && (e.dryRun ==> v' == v && reply == Masked(MaskReply(e.payload, None)))
      && (!e.dryRun ==>
            && (reply.Masked? <==> !nerDown && (stores ==> e.putOk))
            && (reply.Masked? ==> reply.mask.text == e.line.text)
            && (reply.Masked? ==> (reply.mask.context.Some? <==> c.stateless && e.rights.demask))
            && (!reply.Masked? ==> reply == Failed(if nerDown then NerUnavailable else VaultDown))
            && v' == if reply.Masked? && stores then v[e.id := SealedBy(e)] else v)
  {}

  /** A returned context opens for its own session and system, to this call's mapping, and for
      no other. */
  lemma ContextOpens(c: Config, v: Vault, e: Event, session: string, system: string)
    requires e.MaskCall? && Step(c, v, e).1.Masked? && Step(c, v, e).1.mask.context.Some?
    ensures Step(c, v, e).1.mask.context.value.Open(session, system) ==
      if session == e.id && system == e.system then Some(Mapping(e.line.entries, e.payload, e.line.text)) else None
  {}

  /** The one-endpoint call answers from a mapping iff demasking is allowed and the vault can be
      read and holds one for this id and system, and then writes nothing; otherwise it is a
      mask call. */
  lemma TzCallAnswers(c: Config, v: Vault, e: Event)
    requires e.TzCall?
    ensures var (v', reply) := Step(c, v, e);
      var known := e.rights.demask && !c.stateless && e.getOk && e.id in v
        && v[e.id].session == e.id && v[e.id].system == e.system;
      && (known ==>
            var m := v[e.id].mapping;
            && v' == v
            && (e.payload == m.original ==> reply == Repeated(m.masked))
            && (e.payload != m.original && e.payload == m.masked ==> reply == Restored(m.original, |m.entries|))
            && (e.payload != m.original && e.payload != m.masked ==>
                  var d := Demask.Demasked(c.classes, e.payload, m);
                  reply == Restored(d.text, d.restored)))
      && (!known ==>
            (v', reply) == Step(c, v, MaskCall(e.rights, e.system, e.id, e.payload, e.line, false, e.putOk)))
  {
    hide Demask.Demasked;
  }

  /** A demask call demasks, or fails for the first reason that applies; only in stateful mode
      does it touch the vault, and only to delete its own entry after demasking. */
  lemma DemaskCallAnswers(c: Config, v: Vault, e: Event)
    requires e.DemaskCall?
    ensures var (v', reply) := Step(c, v, e);
      && (!e.rights.demask ==> reply == Failed(DemaskDisabled))
      && (e.rights.demask && c.stateless ==>
            && (e.context.None? ==> reply == Failed(ContextMissing))
            && (e.context.Some? ==>
                  var x := e.context.value;
                  reply == if x.session == e.id && x.system == e.system
                           then Demasked(Demask.Demasked(c.classes, e.payload, x.mapping)) else Failed(CannotDecrypt)))
      && (e.rights.demask && !c.stateless ==>
            && (!e.getOk ==> reply == Failed(VaultDown))
            && (e.getOk && e.id !in v ==> reply == Failed(SessionNotFound))
            && (e.getOk && e.id in v ==>
                  var x := v[e.id];
                  reply == if x.session == e.id && x.system == e.system
                           then Demasked(Demask.Demasked(c.classes, e.payload, x.mapping)) else Failed(CannotDecrypt)))
      && v' == if reply.Demasked? && !c.stateless && c.deleteAfterDemask && e.deleteOk then v - {e.id} else v
  {
    hide Demask.Demasked;
  }

  /** So a session can be demasked once if entries are deleted afterwards, and again otherwise. */
  lemma DemaskedOnce(c: Config, v: Vault, first: Event, again: Event)
    requires !c.stateless && first.DemaskCall? && again.DemaskCall? && Step(c, v, first).1.Demasked?
    requires again.id == first.id && again.system == first.system && again.rights.demask && again.getOk
    ensures var reply := Step(c, Step(c, v, first).0, again).1;
      if c.deleteAfterDemask && first.deleteOk then reply == Failed(SessionNotFound) else reply.Demasked?
  {
    hide Demask.Demasked;
    DemaskCallAnswers(c, v, first);
    DemaskCallAnswers(c, Step(c, v, first).0, again);
  }

  /** An evicted session is unknown. */
  lemma EvictedUnknown(c: Config, v: Vault, id: string, e: Event)
    requires !c.stateless && e.DemaskCall? && e.id == id && e.rights.demask && e.getOk
    ensures Step(c, Step(c, v, Evict(id)).0, e).1 == Failed(SessionNotFound)
  {
    hide Demask.Demasked;
  }

  // ----- runs -----

  datatype Event =
    | TzCall(rights: Rights, system: string, id: string, payload: string, line: Line, getOk: bool, putOk: bool)
    | MaskCall(rights: Rights, system: string, id: string, payload: string, line: Line, dryRun: bool, putOk: bool)
    | DemaskCall(rights: Rights, system: string, id: string, payload: string, context: Option<Sealed>,
                 getOk: bool, deleteOk: bool)
    | Evict(id: string)

  function Step(c: Config, v: Vault, e: Event): (Vault, Reply) {
    match e
    case TzCall(r, s, id, p, line, getOk, putOk) => TzStep(c, v, r, s, id, p, line, getOk, putOk)
    case MaskCall(r, s, id, p, line, dry, putOk) => MaskStep(c, v, r, s, p, id, line, dry, putOk)
    case DemaskCall(r, s, id, p, ctx, getOk, delOk) => DemaskStep(c, v, r, s, p, id, ctx, getOk, delOk)
    case Evict(id) => (v - {id}, Silent)
  }

  function Run(c: Config, v: Vault, es: seq<Event>): Vault
    decreases |es|
  {
    if es == [] then v else Run(c, Step(c, v, es[0]).0, es[1..])
  }

  /** Every event that can take the entry `id` of `system` away: eviction, its deletion
      by a demask call of the system itself, a direct mask call under the id, another
      system's call under the id, or the system's own call while the vault cannot be
      read. A healthy call of the system itself is not among them. */
  predicate Threatens(c: Config, e: Event, system: string, id: string) {
    e.id == id &&
    match e
    case Evict(_) => true
    case DemaskCall(r, s, _, _, _, _, deleteOk) => c.deleteAfterDemask && deleteOk && r.demask && s == system
    case MaskCall(r, _, _, _, line, dry, putOk) => !dry && r.demask && putOk && !(line.nerFailed && r.failWithoutNer)
    case TzCall(r, s, _, _, line, getOk, putOk) =>
      r.demask && putOk && !(line.nerFailed && r.failWithoutNer) && (s != system || !getOk)
  }

  lemma StepKeeps(c: Config, v: Vault, e: Event, system: string, id: string)
    requires !c.stateless && id in v && v[id].session == id && v[id].system == system
    requires !Threatens(c, e, system, id)
    ensures var v' := Step(c, v, e).0;
      id in v' && v'[id] == v[id]
  {
    hide Demask.Demasked;
  }

  lemma {:induction false} RunKeeps(c: Config, v: Vault, es: seq<Event>, system: string, id: string)
    requires !c.stateless && id in v && v[id].session == id && v[id].system == system
    requires forall i | 0 <= i < |es| :: !Threatens(c, es[i], system, id)
    ensures var v' := Run(c, v, es);
      id in v' && v'[id] == v[id]
    decreases |es|
  {
    hide Step, Threatens;
    if es != [] {
      StepKeeps(c, v, es[0], system, id);
      RunKeeps(c, Step(c, v, es[0]).0, es[1..], system, id);
    }
  }

  /** The contract of one `payload_id`: after a call that masked `payload`, and whatever
      happens to other ids, until an event threatens the entry, the same payload gets
      the same answer, that answer gets exactly the payload back, and neither call
      writes to the vault. Nothing is asked of the masking itself. */
  lemma PayloadContract(c: Config, v0: Vault, first: Event, es: seq<Event>, again: Event, back: Event)
    requires !c.stateless && first.TzCall? && first.rights.demask && Step(c, v0, first).1.Masked?
    requires forall i | 0 <= i < |es| :: !Threatens(c, es[i], first.system, first.id)
    requires again.TzCall? && again.rights.demask && again.getOk && again.system == first.system && again.id == first.id
    requires again.payload == first.payload
    requires back.TzCall? && back.rights.demask && back.getOk && back.system == first.system && back.id == first.id
    requires back.payload == Step(c, v0, first).1.Text()
    ensures var v := Run(c, Step(c, v0, first).0, es);
      && Step(c, v, again).1.Text() == Step(c, v0, first).1.Text() && Step(c, v, again).0 == v
      && Step(c, v, back).1.Text() == first.payload && Step(c, v, back).0 == v
  {
    hide Run, Threatens, Demask.Demasked;
    RunKeeps(c, Step(c, v0, first).0, es, first.system, first.id);
  }

  // ----- where stored mappings come from -----

  /** Event `e` makes `id` hold a mapping sealed by its own system from its own payload. */
  ghost predicate Stores(c: Config, v: Vault, e: Event, id: string, sealed: Sealed) {
    && (e.TzCall? || e.MaskCall?) && e.id == id && id == sealed.session && e.system == sealed.system
    && sealed.mapping == Mapping(e.line.entries, e.payload, e.line.text)
    && Step(c, v, e).1.Masked? && Step(c, v, e).0 == v[id := sealed]
  }

  ghost predicate StoredBefore(c: Config, es: seq<Event>, id: string, sealed: Sealed) {
    exists j :: 0 <= j < |es| && Stores(c, Run(c, map[], es[..j]), es[j], id, sealed)
  }

  ghost predicate Sourced(c: Config, es: seq<Event>, v: Vault) {
    forall id <- v :: StoredBefore(c, es, id, v[id])
  }

  lemma StepSources(c: Config, v: Vault, e: Event, id: string)
    ensures var v' := Step(c, v, e).0;
      id in v' ==> (id in v && v'[id] == v[id]) || Stores(c, v, e, id, v'[id])
  {
    hide Demask.Demasked;
  }

  lemma {:induction false} RunAppend(c: Config, v: Vault, es: seq<Event>, e: Event)
    ensures Run(c, v, es + [e]) == Step(c, Run(c, v, es), e).0
    decreases |es|
  {
    hide Step;
    if es == [] {
      assert (es + [e])[1..] == [];
    } else {
      assert (es + [e])[1..] == es[1..] + [e];
      RunAppend(c, Step(c, v, es[0]).0, es[1..], e);
    }
  }

  lemma StoredStays(c: Config, es: seq<Event>, e: Event, id: string, sealed: Sealed)
    requires StoredBefore(c, es, id, sealed)
    ensures StoredBefore(c, es + [e], id, sealed)
  {
    hide Stores, Run;
    var j :| 0 <= j < |es| && Stores(c, Run(c, map[], es[..j]), es[j], id, sealed);
    assert (es + [e])[..j] == es[..j] && (es + [e])[j] == es[j];
  }

  lemma {:induction false} RunSourced(c: Config, es: seq<Event>)
    ensures Sourced(c, es, Run(c, map[], es))
    decreases |es|
  {
    hide Stores, Step, StoredBefore;
    if es != [] {
      var n := |es| - 1;
      var e := es[n];
      var v := Run(c, map[], es[..n]);
      assert es == es[..n] + [e];
      RunSourced(c, es[..n]);
      RunAppend(c, map[], es[..n], e);
      forall id <- Run(c, map[], es) ensures StoredBefore(c, es, id, Run(c, map[], es)[id]) {
        StepSources(c, v, e, id);
        var sealed := Run(c, map[], es)[id];
        if id in v && sealed == v[id] {
          StoredStays(c, es[..n], e, id, sealed);
        } else {
          StoredLast(c, es, id, sealed);
        }
      }
    }
  }

  lemma StoredLast(c: Config, es: seq<Event>, id: string, sealed: Sealed)
    requires es != [] && Stores(c, Run(c, map[], es[..|es| - 1]), es[|es| - 1], id, sealed)
    ensures StoredBefore(c, es, id, sealed)
  {
    hide Stores, Run;
  }

  /** Isolation: over any run of any systems, whatever a system is told about a stored
      session comes from a mapping that this system itself stored under that id, made
      from its own payload. */
  lemma RepliesAreOwn(c: Config, es: seq<Event>, e: Event)
    requires !c.stateless && (e.TzCall? || e.DemaskCall?)
    requires var reply := Step(c, Run(c, map[], es), e).1;
      reply.Repeated? || reply.Restored? || reply.Demasked?
    ensures exists sealed ::
      && StoredBefore(c, es, e.id, sealed) && sealed.system == e.system && sealed.session == e.id
      && IsAnswer(c, e, Step(c, Run(c, map[], es), e).1, sealed.mapping)
  {
    hide Stores, Run, StoredBefore, Demask.Demasked;
    var v := Run(c, map[], es);
    RunSourced(c, es);
    assert StoredBefore(c, es, e.id, v[e.id]);
    assert v[e.id].Open(e.id, e.system).Some?;
  }

  /** The reply is what the mapping `m` gives for the payload. */
  predicate IsAnswer(c: Config, e: Event, reply: Reply, m: Mapping)
    requires e.TzCall? || e.DemaskCall?
  {
    match reply
    case Repeated(t) => e.payload == m.original && t == m.masked
    case Restored(t, n) =>
      if e.payload == m.masked then t == m.original && n == |m.entries|
      else t == Demask.Demasked(c.classes, e.payload, m).text && n == Demask.Demasked(c.classes, e.payload, m).restored
    case Demasked(d) => d == Demask.Demasked(c.classes, e.payload, m)
    case _ => false
  }

  // ----- consequences -----

  /** A mask call that succeeds in storing its mapping. */
  predicate StoringMask(e: Event, id: string) {
    && e.MaskCall? && e.id == id && !e.dryRun && e.rights.demask && e.putOk
    && !(e.line.nerFailed && e.rights.failWithoutNer)
  }

  /** A session holds one text: of several masked under one id the last one stays, and
      the mappings of the others are gone. */
  lemma {:induction false} LastMaskWins(c: Config, v: Vault, es: seq<Event>, id: string)
    requires !c.stateless && es != []
    requires forall i | 0 <= i < |es| :: StoringMask(es[i], id)
    ensures var last := es[|es| - 1];
      StoringMask(last, id) &&
      Run(c, v, es) == v[id := Sealed(id, last.system, Mapping(last.line.entries, last.payload, last.line.text))]
    decreases |es|
  {
    var v1 := Step(c, v, es[0]).0;
    if |es| == 1 {
      assert es[1..] == [];
    } else {
      LastMaskWins(c, v1, es[1..], id);
    }
  }

  /** The call's line is what the pipeline makes of its payload and the entities `es`. */
  ghost predicate FromPipeline(u: Setup, p: Policy, es: seq<Entity>, e: Event) {
    && e.MaskCall? && AllInText(Selected(p, es), e.payload)
    && var s := MaskedLine(u, p, e.payload, es);
    e.line.text == MaskedText(s.pieces) + s.tail && e.line.entries == EntriesOf(s.pieces)
  }

  /** Demasking through the service inverts masking through it, whatever happened to
      other sessions in between; values without a record are shown as their masks. */
  lemma ServiceRoundTrip(c: Config, v0: Vault, u: Setup, p: Policy, es: seq<Entity>,
                         mask: Event, between: seq<Event>, demask: Event)
    requires !c.stateless && mask.MaskCall? && !mask.dryRun && mask.rights.demask && Step(c, v0, mask).1.Masked?
    requires FromPipeline(u, p, es, mask) && Scannable(u, p) && StarKinds(p)
    requires var s := MaskedLine(u, p, mask.payload, es);
      && NoAccidentalKey(c.classes, s) && SameSpelling(EntriesOf(s.pieces)) && NoPlaceholderIn(ShownLine(s), s.pieces)
      && (NoStars(s) || MasksAtHome(s))
    requires forall i | 0 <= i < |between| :: !Threatens(c, between[i], mask.system, mask.id)
    requires demask.DemaskCall? && demask.system == mask.system && demask.id == mask.id && demask.rights.demask
      && demask.getOk
    requires demask.payload == mask.line.text
    ensures var back := Step(c, Run(c, Step(c, v0, mask).0, between), demask).1.Text();
      back == ShownLine(MaskedLine(u, p, mask.payload, es)) && (FullyRecorded(p) ==> back == mask.payload)
  {
    hide Run, Threatens, Step, Demask.Demasked, MaskedLine, NoAccidentalKey, SameSpelling, Scannable, StarKinds,
      EntriesOf, MaskedText, NoStars, MasksAtHome, NoPlaceholderIn, ShownLine, FullyRecorded;
    var v1 := Step(c, v0, mask).0;
    MaskStores(c, v0, mask);
    RunKeeps(c, v1, between, mask.system, mask.id);
    DemaskReads(c, Run(c, v1, between), demask, v1[mask.id].mapping);
    MixedRoundTrip(c.classes, u, p, mask.payload, es);
  }

  lemma MaskStores(c: Config, v: Vault, e: Event)
    requires !c.stateless && e.MaskCall? && !e.dryRun && e.rights.demask && Step(c, v, e).1.Masked?
    ensures var v' := Step(c, v, e).0;
      e.id in v' && v'[e.id] == Sealed(e.id, e.system, Mapping(e.line.entries, e.payload, e.line.text))
  {}

  lemma DemaskReads(c: Config, v: Vault, e: Event, m: Mapping)
    requires !c.stateless && e.DemaskCall? && e.rights.demask && e.getOk
    requires e.id in v && v[e.id] == Sealed(e.id, e.system, m)
    ensures Step(c, v, e).1.Text() == Demask.Demasked(c.classes, e.payload, m).text
  {
    hide Demask.Demasked;
  }

  // ----- several strings under one session -----

  /** What an earlier string of a session comes back as: its placeholders get what the last
      string of the session filed under their keys, and all else stays. Its placeholder values
      come back iff each of its keys was filed there with the same original (wherever one can
      see the ends of the values); with a key missing there they never do, and with all alike
      they always do. If the string files placeholders only, that is all of it. */
  lemma EarlierStringBackIff(c: Config, v: Vault, calls: seq<Event>, i: nat, u: Setup, p: Policy,
                             es1: seq<Entity>, es2: seq<Entity>, demask: Event)
    requires !c.stateless && i < |calls| && demask.DemaskCall? && demask.rights.demask && demask.getOk
    requires forall j | 0 <= j < |calls| :: StoringMask(calls[j], demask.id)
    requires FromPipeline(u, p, es1, calls[i]) && FromPipeline(u, p, es2, calls[|calls| - 1])
    requires calls[|calls| - 1].system == demask.system && demask.payload == calls[i].line.text
    requires var s, s2 := MaskedLine(u, p, calls[i].payload, es1), MaskedLine(u, p, calls[|calls| - 1].payload, es2);
      var tb := TableOf(EntriesOf(s2.pieces));
      && BracketFreeLine(s) && BracketFreeLine(s2)
      && NoForeignKey(c.classes, s, tb) && NoForeignMask(AnsweredText(s.pieces, tb) + s.tail, s2.pieces)
    ensures var s, tb := MaskedLine(u, p, calls[i].payload, es1), TableOf(calls[|calls| - 1].line.entries);
      var back := Step(c, Run(c, v, calls), demask).1.Text();
      && back == AnsweredText(s.pieces, tb) + s.tail
      && (FiledAlike(s.pieces, tb) ==> back == PlainLine(s))
      && (back == PlainLine(s) ==> AllKnown(s.pieces, tb))
      && (EndsSeen(Gaps(s.pieces), Answers(s.pieces, tb), Plains(s.pieces), s.tail) ==>
            (back == PlainLine(s) <==> FiledAlike(s.pieces, tb)))
      && (NoneFiled(s.pieces) ==> PlainLine(s) == ShownLine(s))
      && (Scannable(u, p) && FullyRecorded(p) ==> ShownLine(s) == calls[i].payload)
  {
    hide Run, Step, Demask.Demasked, MaskedLine, EntriesOf, TableOf, MaskedText, AnsweredText, FiledAlike, AllKnown,
      EndsSeen, Gaps, Answers, Plains, PlainLine, ShownLine, NoForeignKey, NoForeignMask, BracketFreeLine, Scannable,
      FullyRecorded, NoneFiled, Selected, AllInText, WellMasked;
    var last := calls[|calls| - 1];
    var s1, s2 := MaskedLine(u, p, calls[i].payload, es1), MaskedLine(u, p, last.payload, es2);
    if Scannable(u, p) { LineWellMasked(u, p, calls[i].payload, es1); }
    if NoneFiled(s1.pieces) { PlainIsShown(s1); }
    OtherLineDemasked(c.classes, s1, last.payload, s2);
    OtherLineIff(c.classes, s1, last.payload, s2);
    LastMaskWins(c, v, calls, demask.id);
    DemaskReads(c, Run(c, v, calls), demask, MappingOf(last.payload, s2));
  }

  lemma NothingOutside(k: Classes, s: Spliced, tb: Table)
    requires |s.pieces| == 1 && IsPlaceholder(s.pieces[0]) && s.pieces[0].gap == "" && s.tail == ""
    ensures NoForeignKey(k, s, tb)
  {
    hide IsPlaceholder, Known, Hits;
    StretchesCons("", s.pieces, s.tail);
    assert s.pieces[1..] == [] && "" + s.pieces[0].gap == "" && "" + s.tail == "";
    assert Stretches("", s.pieces, s.tail) == ["", ""];
    EmptyKnown(k, tb);
    NoneKnown(k, ["", ""], tb);
  }

  lemma EmptyKnown(k: Classes, tb: Table)
    ensures Known("", Hits(k, "", 0), tb) == 0
  {}

  /** A string that is one value of type `t` from end to end. */
  function Whole(t: PdType, x: string): Entity { Entity(t, Span(0, |x|), 1.0, [], "") }

  /** What such a string files: one record, under its type's first key. */
  lemma WholeLine(u: Setup, p: Policy, t: PdType, x: string)
    requires !p.components && t in p.types && p.KindOf(t) == Placeholder && Scannable(u, p)
    ensures AllInText(Selected(p, [Whole(t, x)]), x)
    ensures var s, key := MaskedLine(u, p, x, [Whole(t, x)]), u.maskers.LabelOf(t) + "_" + Decimal(1);
      && |s.pieces| == 1 && IsPlaceholder(s.pieces[0]) && s.pieces[0].gap == "" && s.tail == ""
      && s.pieces[0].original == x && s.pieces[0].out.key == Some(key)
      && TableOf(EntriesOf(s.pieces)) == map[key := x]
  {
    OnePlaceholderLine(u, p, x, Whole(t, x));
    hide MaskedLine, Selected, Scannable, Decimal, IsLabel, Bracketed;
    var s := MaskedLine(u, p, x, [Whole(t, x)]);
    assert s.pieces == [s.pieces[0]] && IsPlaceholderOf(s.pieces[0], u.maskers.LabelOf(t), 1);
    OneTable(s.pieces[0]);
  }

  lemma WholeBracketFree(s: Spliced, x: string)
    requires |s.pieces| == 1 && IsPlaceholder(s.pieces[0]) && s.pieces[0].gap == "" && s.tail == ""
    requires s.pieces[0].original == x && '[' !in x
    ensures BracketFreeLine(s) && forall text :: NoForeignMask(text, s.pieces)
  {
    PlaceholderKeyed(s.pieces[0]);
    hide IsPlaceholder, Absent;
    assert s.pieces[1..] == [] && ShownText(s.pieces[1..]) == "";
  }

  /** Two strings masked under one session: each is one value of the same type, so both are
      masked to the type's first placeholder, and the first comes back as the second. */
  lemma SharedSessionMixesValues(c: Config, v: Vault, u: Setup, p: Policy, t: PdType,
                                 first: Event, second: Event, demask: Event)
    requires !c.stateless && demask.DemaskCall? && demask.rights.demask && demask.getOk
    requires StoringMask(first, demask.id) && StoringMask(second, demask.id) && second.system == demask.system
    requires Scannable(u, p) && !p.components && t in p.types && p.KindOf(t) == Placeholder
    requires FromPipeline(u, p, [Whole(t, first.payload)], first) && '[' !in first.payload
    requires FromPipeline(u, p, [Whole(t, second.payload)], second) && '[' !in second.payload
    requires demask.payload == first.line.text
    ensures Step(c, Run(c, v, [first, second]), demask).1.Text() == second.payload
  {
    hide Run, Step, MaskedLine, NoForeignKey, TableOf, EntriesOf, AnsweredText, Scannable, BracketFreeLine, FiledAlike,
      NoForeignMask, FullyRecorded, EndsSeen, AllKnown, Gaps, Answers, Plains, PlainLine, ShownLine, Reply.Text,
      Selected, AllInText, IsPlaceholder, MaskedText, Decimal, NoneFiled;
    var es1, es2 := [Whole(t, first.payload)], [Whole(t, second.payload)];
    var s1, s2 := MaskedLine(u, p, first.payload, es1), MaskedLine(u, p, second.payload, es2);
    WholeLine(u, p, t, first.payload);
    WholeLine(u, p, t, second.payload);
    WholeBracketFree(s1, first.payload);
    WholeBracketFree(s2, second.payload);
    var tb := TableOf(EntriesOf(s2.pieces));
    NothingOutside(c.classes, s1, tb);
    OneAnswer(s1, tb);
    var calls := [first, second];
    assert calls[0] == first && calls[1] == second;
    EarlierStringBackIff(c, v, calls, 0, u, p, es1, es2, demask);
  }

  lemma OneAnswer(s: Spliced, tb: Table)
    requires |s.pieces| == 1 && s.pieces[0].gap == "" && s.tail == ""
    ensures AnsweredText(s.pieces, tb) + s.tail == Answer(s.pieces[0], tb)
  {
    hide Answer;
    var ps := s.pieces;
    AnsweredCons(ps, tb, "", "");
    NothingAnswered(tb);
    assert ps[1..] == [];
    assert "" + AnsweredText(ps, tb) + "" == AnsweredText(ps, tb);
    assert "" + "" + Answer(ps[0], tb) + ("" + "") == Answer(ps[0], tb);
  }
}
