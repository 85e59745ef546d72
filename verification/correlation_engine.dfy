/**
 * The correlation engine: the rules of the enabled groups, the contexts their
 * parts declare (at most one per context class), the variable store, and the
 * fixed order in which `process` runs replacements, context updates and
 * extractors on a recorded sample.
 *
 * Context states, what a context does on `update` and `reset`, what a rule
 * part does to the variable store, and the regular-expression matcher are not
 * visible here; they are taken as function parameters.
 */
module CorrelationEngine {
  import opened Wrappers
  import opened Sequences
  import opened JavaStrings
  import opened Samples
  import opened Rules

  /** An initialised `CorrelationContext`: its class and its state. */
  datatype Context<S> = Context(kind: Kind, state: S)

  /**
   * The engine: initialised contexts in creation order, the variable store,
   * the active rules and the enabled flag.
   */
  datatype Engine<S> = Engine(contexts: seq<Context<S>>, vars: map<string, string>, rules: seq<Rule>, enabled: bool)

  /** The classes of a context list, in order. */
  function Kinds<S>(cs: seq<Context<S>>): (r: seq<Kind>)
    ensures |r| == |cs|
    ensures forall i :: 0 <= i < |cs| ==> r[i] == cs[i].kind
  {
    seq(|cs|, i requires 0 <= i < |cs| => cs[i].kind)
  }

  /** The engine's invariant: at most one initialised context per class. */
  predicate OnePerKind<S>(cs: seq<Context<S>>) {
    Distinct(Kinds(cs))
  }

  // ---------------------------------------------------------------------
  // Context registry (getSupportedContext, updateCorrelationContext)
  // ---------------------------------------------------------------------

  /** The first context of class `k`, if any. */
  function FindKind<S>(cs: seq<Context<S>>, k: Kind): (r: Option<nat>)
    ensures r.Some? ==> r.value < |cs| && cs[r.value].kind == k
    ensures r.Some? ==> forall j :: 0 <= j < r.value ==> cs[j].kind != k
    ensures r.None? ==> forall j :: 0 <= j < |cs| ==> cs[j].kind != k
    decreases |cs|
  {
    if |cs| == 0 then None
    else if cs[0].kind == k then Some(0)
    else
      match FindKind(cs[1..], k)
      case None => None
      case Some(i) => Some(i + 1)
  }

  /**
   * The context of class `k`: the first existing one, or else a new one from
   * the registry appended to the list. Returns the new list and the position.
   */
  function GetSupportedContext<S>(cs: seq<Context<S>>, k: Kind, registry: Kind -> S): (r: (seq<Context<S>>, nat))
    ensures r.1 < |r.0| && r.0[r.1].kind == k
    ensures forall j :: 0 <= j < r.1 ==> r.0[j].kind != k
    ensures |cs| <= |r.0| && r.0[..|cs|] == cs
    ensures |r.0| != |cs| <==> (forall j :: 0 <= j < |cs| ==> cs[j].kind != k)
    ensures |r.0| != |cs| ==> r.0 == cs + [Context(k, registry(k))]
    ensures OnePerKind(cs) ==> OnePerKind(r.0)
  {
    match FindKind(cs, k)
    case Some(i) => (cs, i)
    case None =>
      var cs' := cs + [Context(k, registry(k))];
      assert Kinds(cs') == Kinds(cs) + [k];
      (cs', |cs|)
  }

  /** The context class a possibly absent rule part declares. */
  function Declared(p: Option<Part>): Option<Kind> {
    if p.Some? then p.value.kind else None
  }

  /**
   * `after` is `before` with a context of the declared class from `cs`
   * attached; a part that is absent or declares no class is left as it was.
   */
  predicate Attached<S>(cs: seq<Context<S>>, before: Option<Part>, after: Option<Part>) {
    match before
    case None => after.None?
    case Some(p) =>
      if p.kind.None? then after == before
      else
        && after.Some? && after.value.id == p.id && after.value.kind == p.kind
        && after.value.context.Some? && after.value.context.value < |cs|
        && cs[after.value.context.value].kind == p.kind.value
  }

  /** Growing the context list keeps every attachment valid. */
  lemma AttachedGrows<S>(cs: seq<Context<S>>, cs': seq<Context<S>>, before: Option<Part>, after: Option<Part>)
    requires Attached(cs, before, after)
    requires |cs| <= |cs'| && cs'[..|cs|] == cs
    ensures Attached(cs', before, after)
  {
    if before.Some? && before.value.kind.Some? {
      assert cs'[after.value.context.value] == cs[after.value.context.value];
    }
  }

  /** Attaches the context a rule part declares, creating it when needed. */
  function UpdateCorrelationContext<S>(cs: seq<Context<S>>, part: Option<Part>, registry: Kind -> S)
    : (r: (seq<Context<S>>, Option<Part>))
    ensures Attached(r.0, part, r.1)
    ensures |cs| <= |r.0| <= |cs| + 1 && r.0[..|cs|] == cs
    ensures |r.0| != |cs| ==> Declared(part) == Some(r.0[|cs|].kind)
    ensures Declared(part).Some? ==> Declared(part).value in Kinds(r.0)
    ensures OnePerKind(cs) ==> OnePerKind(r.0)
  {
    if part.Some? && part.value.kind.Some? then
      var (cs', i) := GetSupportedContext(cs, part.value.kind.value, registry);
      assert Kinds(cs')[i] == part.value.kind.value;
      (cs', Some(part.value.(context := Some(i))))
    else (cs, part)
  }

  // ---------------------------------------------------------------------
  // setCorrelationRules
  // ---------------------------------------------------------------------

  /** `after` is the rule `before` with the contexts of its parts attached from `cs`. */
  predicate AttachedRule<S>(cs: seq<Context<S>>, before: Rule, after: Rule) {
    && after.refName == before.refName
    && after.enabled == before.enabled
    && Attached(cs, before.extractor, after.extractor)
    && Attached(cs, before.replacement, after.replacement)
  }

  /** The context classes the parts of `rules` declare, extractor before replacement, in rule order. */
  function DeclaredKinds(rules: seq<Rule>): seq<Kind>
    decreases |rules|
  {
    if |rules| == 0 then []
    else
      var ex := Declared(rules[0].extractor);
      var rp := Declared(rules[0].replacement);
      (if ex.Some? then [ex.value] else []) + (if rp.Some? then [rp.value] else []) +
      DeclaredKinds(rules[1..])
  }

  /** Attaches contexts to one rule: its extractor first, then its replacement. */
  function AttachRule<S>(cs: seq<Context<S>>, rule: Rule, registry: Kind -> S): (r: (seq<Context<S>>, Rule))
    ensures AttachedRule(r.0, rule, r.1)
    ensures |cs| <= |r.0| && r.0[..|cs|] == cs
    ensures OnePerKind(cs) ==> OnePerKind(r.0)
  {
    var (cs1, ex) := UpdateCorrelationContext(cs, rule.extractor, registry);
    var (cs2, rp) := UpdateCorrelationContext(cs1, rule.replacement, registry);
    AttachedGrows(cs1, cs2, rule.extractor, ex);
    (cs2, rule.(extractor := ex, replacement := rp))
  }

  /** Attaches contexts to every rule, in order, threading the context list. */
  function AttachAll<S>(cs: seq<Context<S>>, rules: seq<Rule>, registry: Kind -> S): (r: (seq<Context<S>>, seq<Rule>))
    ensures |r.1| == |rules|
    ensures |cs| <= |r.0| && r.0[..|cs|] == cs
    ensures OnePerKind(cs) ==> OnePerKind(r.0)
    decreases |rules|
  {
    if |rules| == 0 then (cs, [])
    else
      var (cs1, rule) := AttachRule(cs, rules[0], registry);
      var (cs2, rest) := AttachAll(cs1, rules[1..], registry);
      assert cs2[..|cs|] == cs1[..|cs|];
      (cs2, [rule] + rest)
  }

  /** Every rule keeps its name and flag and gets the contexts its parts declare. */
  lemma AttachAllAttaches<S>(cs: seq<Context<S>>, rules: seq<Rule>, registry: Kind -> S)
    ensures forall i :: 0 <= i < |rules| ==>
              AttachedRule(AttachAll(cs, rules, registry).0, rules[i], AttachAll(cs, rules, registry).1[i])
  {
    forall i | 0 <= i < |rules|
      ensures AttachedRule(AttachAll(cs, rules, registry).0, rules[i], AttachAll(cs, rules, registry).1[i])
    {
      AttachAllAt(cs, rules, registry, i);
    }
  }

  lemma {:induction false} AttachAllAt<S>(cs: seq<Context<S>>, rules: seq<Rule>, registry: Kind -> S, i: nat)
    requires i < |rules|
    ensures AttachedRule(AttachAll(cs, rules, registry).0, rules[i], AttachAll(cs, rules, registry).1[i])
    decreases |rules|
  {
    var (cs1, rule) := AttachRule(cs, rules[0], registry);
    var (cs2, rest) := AttachAll(cs1, rules[1..], registry);
    assert AttachAll(cs, rules, registry) == (cs2, [rule] + rest);
    if i == 0 {
      AttachedGrows(cs1, cs2, rules[0].extractor, rule.extractor);
      AttachedGrows(cs1, cs2, rules[0].replacement, rule.replacement);
    } else {
      AttachAllAt(cs1, rules[1..], registry, i - 1);
      assert rules[1..][i - 1] == rules[i];
      assert ([rule] + rest)[i] == rest[i - 1];
    }
  }

  /** The contexts afterwards are exactly those before plus one per newly declared class. */
  lemma {:induction false} AttachAllKinds<S>(cs: seq<Context<S>>, rules: seq<Rule>, registry: Kind -> S, k: Kind)
    ensures k in Kinds(AttachAll(cs, rules, registry).0) <==> k in Kinds(cs) || k in DeclaredKinds(rules)
    decreases |rules|
  {
    if |rules| > 0 {
      var (cs1, ex) := UpdateCorrelationContext(cs, rules[0].extractor, registry);
      var (cs2, rp) := UpdateCorrelationContext(cs1, rules[0].replacement, registry);
      assert AttachRule(cs, rules[0], registry).0 == cs2;
      AttachAllKinds(cs2, rules[1..], registry, k);
      UpdateKinds(cs, rules[0].extractor, registry, k);
      UpdateKinds(cs1, rules[0].replacement, registry, k);
    }
  }

  /** One attachment adds at most the declared class to the classes present. */
  lemma UpdateKinds<S>(cs: seq<Context<S>>, part: Option<Part>, registry: Kind -> S, k: Kind)
    ensures k in Kinds(UpdateCorrelationContext(cs, part, registry).0) <==>
              k in Kinds(cs) || Declared(part) == Some(k)
  {
    var r := UpdateCorrelationContext(cs, part, registry).0;
    if |r| != |cs| {
      assert Kinds(r) == Kinds(cs) + [r[|cs|].kind];
    } else {
      assert r == cs;
    }
  }

  /**
   * `setCorrelationRules`: the previous rules are discarded; the new rules are
   * those of the enabled groups, in order, each with the contexts its parts
   * declare attached. Contexts are only ever added.
   */
  function SetCorrelationRules<S>(e: Engine<S>, groups: seq<Group>, registry: Kind -> S): (r: Engine<S>)
    ensures |r.rules| == |EnabledRules(groups)|
    ensures forall i :: 0 <= i < |r.rules| ==> AttachedRule(r.contexts, EnabledRules(groups)[i], r.rules[i])
    ensures |e.contexts| <= |r.contexts| && r.contexts[..|e.contexts|] == e.contexts
    ensures OnePerKind(e.contexts) ==> OnePerKind(r.contexts)
    ensures r.vars == e.vars && r.enabled == e.enabled
  {
    var flat := EnabledRules(groups);
    var (cs, rules) := AttachAll(e.contexts, flat, registry);
    AttachAllAttaches(e.contexts, flat, registry);
    e.(contexts := cs, rules := rules)
  }

  /** A context is created for exactly the classes that enabled rules declare and that were missing. */
  lemma SetCorrelationRulesKinds<S>(e: Engine<S>, groups: seq<Group>, registry: Kind -> S, k: Kind)
    ensures k in Kinds(SetCorrelationRules(e, groups, registry).contexts) <==>
              k in Kinds(e.contexts) || k in DeclaredKinds(EnabledRules(groups))
  {
    AttachAllKinds(e.contexts, EnabledRules(groups), registry, k);
  }

  // ---------------------------------------------------------------------
  // reset
  // ---------------------------------------------------------------------

  /**
   * `reset`: a fresh, empty variable store and every context reset in place;
   * rules, flag and the list of contexts are kept.
   */
  function Reset<S>(e: Engine<S>, reset: S -> S): (r: Engine<S>)
    ensures r.vars == map[] && r.rules == e.rules && r.enabled == e.enabled
    ensures Kinds(r.contexts) == Kinds(e.contexts)
    ensures forall i :: 0 <= i < |e.contexts| ==> r.contexts[i].state == reset(e.contexts[i].state)
  {
    var cs := seq(|e.contexts|, i requires 0 <= i < |e.contexts| => e.contexts[i].(state := reset(e.contexts[i].state)));
    e.(vars := map[], contexts := cs)
  }

  /** Resetting twice is resetting once, when each context's reset is idempotent. */
  lemma ResetIdempotent<S>(e: Engine<S>, reset: S -> S)
    requires forall s :: reset(reset(s)) == reset(s)
    ensures Reset(Reset(e, reset), reset) == Reset(e, reset)
  {
    var once := Reset(e, reset);
    var twice := Reset(once, reset);
    assert Kinds(twice.contexts) == Kinds(once.contexts);
    forall i | 0 <= i < |once.contexts|
      ensures twice.contexts[i] == once.contexts[i]
    {
      assert Kinds(twice.contexts)[i] == Kinds(once.contexts)[i];
    }
  }

  // ---------------------------------------------------------------------
  // isContentTypeAllowed
  // ---------------------------------------------------------------------

  /**
   * Every pattern matches the content type. The first malformed pattern
   * (`None`) or the first non-match stops the scan with `false`.
   */
  function AllMatch(patterns: seq<string>, contentType: string, matcher: (string, string) -> Option<bool>): (r: bool)
    ensures r <==> forall i :: 0 <= i < |patterns| ==> matcher(patterns[i], contentType) == Some(true)
    decreases |patterns|
  {
    if |patterns| == 0 then true
    else if matcher(patterns[0], contentType) != Some(true) then false
    else
      var rest := AllMatch(patterns[1..], contentType, matcher);
      assert forall i :: 1 <= i < |patterns| ==> patterns[i] == patterns[1..][i - 1];
      rest
  }

  /**
   * The response filter: open when there is no filter or no content type,
   * closed on a malformed pattern; otherwise every comma-separated pattern
   * must match.
   */
  function ContentTypeAllowed(result: SampleResult, filter: Option<string>, matcher: (string, string) -> Option<bool>)
    : (r: bool)
    ensures filter.None? || filter.value == "" ==> r
    ensures result.contentType.None? || result.contentType.value == "" ==> r
    ensures filter.Some? && filter.value != "" && result.contentType.Some? && result.contentType.value != "" ==>
              (r <==> forall i :: 0 <= i < |Split(filter.value, ",")| ==>
                        matcher(Split(filter.value, ",")[i], result.contentType.value) == Some(true))
  {
    if filter.None? || filter.value == "" then true
    else if result.contentType.None? || result.contentType.value == "" then true
    else AllMatch(Split(filter.value, ","), result.contentType.value, matcher)
  }

  // ---------------------------------------------------------------------
  // process
  // ---------------------------------------------------------------------

  /** What `process` runs: a rule's replacement, a context's update, a rule's extractor. */
  datatype Event = Replace(rule: nat) | Update(context: nat) | Extract(rule: nat)

  datatype Role = ReplacementRole | ExtractorRole

  /** The rule takes part in the given phase: it is enabled and has that part. */
  predicate Active(r: Rule, role: Role) {
    r.enabled && (if role == ReplacementRole then r.replacement.Some? else r.extractor.Some?)
  }

  /** Positions of the rules active in `role`, increasing. */
  function Positions(rules: seq<Rule>, role: Role): (r: seq<nat>)
    ensures forall k :: 0 <= k < |r| ==> r[k] < |rules| && Active(rules[r[k]], role)
    ensures forall a, b :: 0 <= a < b < |r| ==> r[a] < r[b]
    decreases |rules|
  {
    if |rules| == 0 then []
    else
      var init := Positions(rules[..|rules| - 1], role);
      init + (if Active(rules[|rules| - 1], role) then [|rules| - 1] else [])
  }

  /** Every active rule is listed. */
  lemma {:induction false} PositionsComplete(rules: seq<Rule>, role: Role, i: nat)
    requires i < |rules| && Active(rules[i], role)
    ensures i in Positions(rules, role)
    decreases |rules|
  {
    if i < |rules| - 1 {
      assert rules[..|rules| - 1][i] == rules[i];
      PositionsComplete(rules[..|rules| - 1], role, i);
    }
  }

  function RuleEvents(ps: seq<nat>, role: Role): (r: seq<Event>)
    ensures |r| == |ps|
  {
    seq(|ps|, k requires 0 <= k < |ps| => Tag(role, ps[k]))
  }

  function UpdateEvents(n: nat): (r: seq<Event>)
    ensures |r| == n
  {
    seq(n, k requires 0 <= k < n => Update(k))
  }

  /**
   * The events of one `process` call: none when disabled; otherwise the
   * replacements, then one update per context, then (only when the content
   * type passes the filter) the extractors.
   */
  function Trace<S>(e: Engine<S>, result: SampleResult, filter: Option<string>, matcher: (string, string) -> Option<bool>)
    : seq<Event>
  {
    if !e.enabled then []
    else
      RuleEvents(Positions(e.rules, ReplacementRole), ReplacementRole) + UpdateEvents(|e.contexts|) +
      (if ContentTypeAllowed(result, filter, matcher)
       then RuleEvents(Positions(e.rules, ExtractorRole), ExtractorRole) else [])
  }

  /** One event's effect: an update changes its context's state, a rule part changes the variable store. */
  function Perform1<S>(e: Engine<S>, ev: Event, result: SampleResult,
                       act: (Event, map<string, string>) -> map<string, string>, update: (S, SampleResult) -> S)
    : (r: Engine<S>)
    ensures r.rules == e.rules && r.enabled == e.enabled && Kinds(r.contexts) == Kinds(e.contexts)
  {
    match ev
    case Update(k) =>
      if k < |e.contexts| then
        var cs := e.contexts[k := e.contexts[k].(state := update(e.contexts[k].state, result))];
        assert forall j :: 0 <= j < |cs| ==> cs[j].kind == e.contexts[j].kind;
        e.(contexts := cs)
      else e
    case _ => e.(vars := act(ev, e.vars))
  }

  /** The events' effects, in order. */
  function Perform<S>(e: Engine<S>, trace: seq<Event>, result: SampleResult,
                      act: (Event, map<string, string>) -> map<string, string>, update: (S, SampleResult) -> S)
    : (r: Engine<S>)
    ensures r.rules == e.rules && r.enabled == e.enabled && Kinds(r.contexts) == Kinds(e.contexts)
    decreases |trace|
  {
    if |trace| == 0 then e
    else Perform(Perform1(e, trace[0], result, act, update), trace[1..], result, act, update)
  }

  datatype Outcome<S> = Outcome(sampler: Sampler, trace: seq<Event>, engine: Engine<S>)

  /**
   * `process`: an unsuccessful result marks the sampler "ORIGINALLY FAILED"
   * before the enabled flag is looked at; a disabled engine then does nothing.
   */
  function Process<S>(e: Engine<S>, sampler: Sampler, result: SampleResult, filter: Option<string>,
                      matcher: (string, string) -> Option<bool>,
                      act: (Event, map<string, string>) -> map<string, string>, update: (S, SampleResult) -> S)
    : (r: Outcome<S>)
    ensures !result.successful ==> r.sampler == sampler.(comment := "ORIGINALLY FAILED")
    ensures result.successful ==> r.sampler == sampler
    ensures !e.enabled ==> r.trace == [] && r.engine == e
    ensures r.engine.rules == e.rules && r.engine.enabled == e.enabled
    ensures Kinds(r.engine.contexts) == Kinds(e.contexts)
  {
    var s := if !result.successful then sampler.(comment := FailedComment) else sampler;
    var t := Trace(e, result, filter, matcher);
    Outcome(s, t, Perform(e, t, result, act, update))
  }

  const FailedComment: string := "ORIGINALLY FAILED"

  /** The phase of an event: replacements, then updates, then extractors. */
  function Phase(ev: Event): nat {
    match ev
    case Replace(_) => 0
    case Update(_) => 1
    case Extract(_) => 2
  }

  function Target(ev: Event): nat {
    match ev
    case Replace(i) => i
    case Update(k) => k
    case Extract(i) => i
  }

  /** The event of a rule in a phase. */
  function Tag(role: Role, i: nat): Event {
    if role == ReplacementRole then Replace(i) else Extract(i)
  }

  /** A rule's event is listed exactly when the rule's position is. */
  lemma RuleEventsMember(ps: seq<nat>, role: Role, i: nat)
    ensures Tag(role, i) in RuleEvents(ps, role) <==> i in ps
    ensures forall k :: 0 <= k < |ps| ==> RuleEvents(ps, role)[k] == Tag(role, ps[k])
  {
    var t := RuleEvents(ps, role);
    if i in ps {
      var k :| 0 <= k < |ps| && ps[k] == i;
      assert t[k] == Tag(role, i);
    }
  }

  /** The events of an enabled engine, split into its three phases. */
  lemma TraceParts<S>(e: Engine<S>, result: SampleResult, filter: Option<string>,
                      matcher: (string, string) -> Option<bool>)
    requires e.enabled
    ensures var x := if ContentTypeAllowed(result, filter, matcher)
                     then RuleEvents(Positions(e.rules, ExtractorRole), ExtractorRole) else [];
      Trace(e, result, filter, matcher) ==
        RuleEvents(Positions(e.rules, ReplacementRole), ReplacementRole) + UpdateEvents(|e.contexts|) + x
  {
  }

  /** An enabled engine runs the replacement of exactly the enabled rules that have one. */
  lemma TraceReplaces<S>(e: Engine<S>, result: SampleResult, filter: Option<string>,
                           matcher: (string, string) -> Option<bool>, i: nat)
    requires e.enabled
    ensures Replace(i) in Trace(e, result, filter, matcher) <==> i < |e.rules| && Active(e.rules[i], ReplacementRole)
  {
    var rp := Positions(e.rules, ReplacementRole);
    var ex := Positions(e.rules, ExtractorRole);
    var a := RuleEvents(rp, ReplacementRole);
    var u := UpdateEvents(|e.contexts|);
    var x := if ContentTypeAllowed(result, filter, matcher) then RuleEvents(ex, ExtractorRole) else [];
    TraceParts(e, result, filter, matcher);
    RuleEventsMember(rp, ReplacementRole, i);
    RuleEventsMember(ex, ExtractorRole, i);
    assert Replace(i) !in u;
    assert Replace(i) !in x;
    if i < |e.rules| && Active(e.rules[i], ReplacementRole) {
      PositionsComplete(e.rules, ReplacementRole, i);
    }
  }

  /** An enabled engine runs the update of every initialised context. */
  lemma TraceUpdates<S>(e: Engine<S>, result: SampleResult, filter: Option<string>,
                          matcher: (string, string) -> Option<bool>, i: nat)
    requires e.enabled
    ensures Update(i) in Trace(e, result, filter, matcher) <==> i < |e.contexts|
  {
    var rp := Positions(e.rules, ReplacementRole);
    var ex := Positions(e.rules, ExtractorRole);
    var a := RuleEvents(rp, ReplacementRole);
    var u := UpdateEvents(|e.contexts|);
    var x := if ContentTypeAllowed(result, filter, matcher) then RuleEvents(ex, ExtractorRole) else [];
    TraceParts(e, result, filter, matcher);
    RuleEventsMember(rp, ReplacementRole, i);
    RuleEventsMember(ex, ExtractorRole, i);
    assert Update(i) !in a;
    assert Update(i) !in x;
    if i < |e.contexts| {
      assert u[i] == Update(i);
    }
  }

  /**
   * An enabled engine runs the extractor of exactly the enabled rules that
   * have one, and only when the content type passes the filter.
   */
  lemma TraceExtracts<S>(e: Engine<S>, result: SampleResult, filter: Option<string>,
                           matcher: (string, string) -> Option<bool>, i: nat)
    requires e.enabled
    ensures Extract(i) in Trace(e, result, filter, matcher) <==>
              ContentTypeAllowed(result, filter, matcher) && i < |e.rules| && Active(e.rules[i], ExtractorRole)
  {
    var rp := Positions(e.rules, ReplacementRole);
    var ex := Positions(e.rules, ExtractorRole);
    var a := RuleEvents(rp, ReplacementRole);
    var u := UpdateEvents(|e.contexts|);
    var x := if ContentTypeAllowed(result, filter, matcher) then RuleEvents(ex, ExtractorRole) else [];
    TraceParts(e, result, filter, matcher);
    RuleEventsMember(rp, ReplacementRole, i);
    RuleEventsMember(ex, ExtractorRole, i);
    assert Extract(i) !in a;
    assert Extract(i) !in u;
    if i < |e.rules| && Active(e.rules[i], ExtractorRole) {
      PositionsComplete(e.rules, ExtractorRole, i);
    }
  }

  /** Every event of `s` is in phase `ph`, and targets strictly increase along `s`. */
  predicate Phased(s: seq<Event>, ph: nat) {
    && (forall k :: 0 <= k < |s| ==> Phase(s[k]) == ph)
    && (forall k, l :: 0 <= k < l < |s| ==> Target(s[k]) < Target(s[l]))
  }

  lemma RuleEventsPhased(ps: seq<nat>, role: Role)
    requires forall a, b :: 0 <= a < b < |ps| ==> ps[a] < ps[b]
    ensures Phased(RuleEvents(ps, role), if role == ReplacementRole then 0 else 2)
  {
  }

  lemma UpdateEventsPhased(n: nat)
    ensures Phased(UpdateEvents(n), 1)
  {
  }

  /** Three phased blocks in phase order give a trace whose phases never go back. */
  lemma ConcatOrder(a: seq<Event>, u: seq<Event>, x: seq<Event>, p: nat, q: nat)
    requires Phased(a, 0) && Phased(u, 1) && Phased(x, 2)
    requires p < q < |a + u + x|
    ensures var t := a + u + x;
      Phase(t[p]) < Phase(t[q]) || (Phase(t[p]) == Phase(t[q]) && Target(t[p]) < Target(t[q]))
  {
    var t := a + u + x;
    if q < |a| {
      assert t[p] == a[p] && t[q] == a[q];
    } else if q < |a| + |u| {
      assert t[q] == u[q - |a|];
      if p >= |a| {
        assert t[p] == u[p - |a|];
      } else {
        assert t[p] == a[p];
      }
    } else {
      assert t[q] == x[q - |a| - |u|];
      if p >= |a| + |u| {
        assert t[p] == x[p - |a| - |u|];
      } else if p >= |a| {
        assert t[p] == u[p - |a|];
      } else {
        assert t[p] == a[p];
      }
    }
  }

  /** Phases never go backwards, and within a phase targets strictly increase (so nothing runs twice). */
  lemma TraceOrder<S>(e: Engine<S>, result: SampleResult, filter: Option<string>,
                      matcher: (string, string) -> Option<bool>, p: nat, q: nat)
    requires e.enabled
    requires p < q < |Trace(e, result, filter, matcher)|
    ensures var t := Trace(e, result, filter, matcher);
      Phase(t[p]) < Phase(t[q]) || (Phase(t[p]) == Phase(t[q]) && Target(t[p]) < Target(t[q]))
  {
    var rp := Positions(e.rules, ReplacementRole);
    var ex := Positions(e.rules, ExtractorRole);
    var a := RuleEvents(rp, ReplacementRole);
    var u := UpdateEvents(|e.contexts|);
    var x := if ContentTypeAllowed(result, filter, matcher) then RuleEvents(ex, ExtractorRole) else [];
    TraceParts(e, result, filter, matcher);
    RuleEventsPhased(rp, ReplacementRole);
    RuleEventsPhased(ex, ExtractorRole);
    UpdateEventsPhased(|e.contexts|);
    ConcatOrder(a, u, x, p, q);
  }

  /** Running two traces one after the other is running their concatenation. */
  lemma {:induction false} PerformAppend<S>(e: Engine<S>, a: seq<Event>, b: seq<Event>, result: SampleResult,
                                            act: (Event, map<string, string>) -> map<string, string>,
                                            update: (S, SampleResult) -> S)
    ensures Perform(e, a + b, result, act, update) ==
            Perform(Perform(e, a, result, act, update), b, result, act, update)
    decreases |a|
  {
    if |a| == 0 {
      assert a + b == b;
    } else {
      assert (a + b)[0] == a[0] && (a + b)[1..] == a[1..] + b;
      PerformAppend(Perform1(e, a[0], result, act, update), a[1..], b, result, act, update);
    }
  }

  /** Rule-part events never touch the contexts. */
  lemma {:induction false} PerformWithoutUpdates<S>(e: Engine<S>, t: seq<Event>, result: SampleResult,
                                                    act: (Event, map<string, string>) -> map<string, string>,
                                                    update: (S, SampleResult) -> S)
    requires forall k :: 0 <= k < |t| ==> !t[k].Update?
    ensures Perform(e, t, result, act, update).contexts == e.contexts
    decreases |t|
  {
    if |t| > 0 {
      PerformWithoutUpdates(Perform1(e, t[0], result, act, update), t[1..], result, act, update);
    }
  }

  /** The update phase updates each of the first `n` contexts once and leaves the rest alone. */
  lemma {:induction false} PerformUpdates<S>(e: Engine<S>, n: nat, result: SampleResult,
                                             act: (Event, map<string, string>) -> map<string, string>,
                                             update: (S, SampleResult) -> S)
    requires n <= |e.contexts|
    ensures var cs := Perform(e, UpdateEvents(n), result, act, update).contexts;
      |cs| == |e.contexts| &&
      forall k :: 0 <= k < |cs| ==>
        cs[k].kind == e.contexts[k].kind &&
        cs[k].state == if k < n then update(e.contexts[k].state, result) else e.contexts[k].state
    decreases n
  {
    if n > 0 {
      assert UpdateEvents(n) == UpdateEvents(n - 1) + [Update(n - 1)];
      PerformAppend(e, UpdateEvents(n - 1), [Update(n - 1)], result, act, update);
      PerformUpdates(e, n - 1, result, act, update);
      var mid := Perform(e, UpdateEvents(n - 1), result, act, update);
      assert Kinds(mid.contexts)[n - 1] == Kinds(e.contexts)[n - 1];
      assert Perform(mid, [Update(n - 1)], result, act, update) == Perform1(mid, Update(n - 1), result, act, update);
    }
  }

  /** Rule-part events around one update per context: every context is updated once. */
  lemma {:induction false} PerformPhases<S>(e: Engine<S>, a: seq<Event>, x: seq<Event>, result: SampleResult,
                                            act: (Event, map<string, string>) -> map<string, string>,
                                            update: (S, SampleResult) -> S)
    requires forall k :: 0 <= k < |a| ==> !a[k].Update?
    requires forall k :: 0 <= k < |x| ==> !x[k].Update?
    ensures var cs := Perform(e, a + UpdateEvents(|e.contexts|) + x, result, act, update).contexts;
      |cs| == |e.contexts| &&
      forall k :: 0 <= k < |cs| ==> cs[k] == Context(e.contexts[k].kind, update(e.contexts[k].state, result))
  {
    var u := UpdateEvents(|e.contexts|);
    PerformAppend(e, a + u, x, result, act, update);
    PerformAppend(e, a, u, result, act, update);
    var e1 := Perform(e, a, result, act, update);
    PerformWithoutUpdates(e, a, result, act, update);
    PerformUpdates(e1, |e.contexts|, result, act, update);
    var e2 := Perform(e1, u, result, act, update);
    PerformWithoutUpdates(e2, x, result, act, update);
  }

  /** An enabled engine's `process` updates every initialised context exactly once. */
  lemma ProcessUpdatesContexts<S>(e: Engine<S>, sampler: Sampler, result: SampleResult, filter: Option<string>,
                                  matcher: (string, string) -> Option<bool>,
                                  act: (Event, map<string, string>) -> map<string, string>,
                                  update: (S, SampleResult) -> S)
    requires e.enabled
    ensures var cs := Process(e, sampler, result, filter, matcher, act, update).engine.contexts;
      |cs| == |e.contexts| &&
      forall k :: 0 <= k < |cs| ==> cs[k] == Context(e.contexts[k].kind, update(e.contexts[k].state, result))
  {
    var rp := Positions(e.rules, ReplacementRole);
    var ex := Positions(e.rules, ExtractorRole);
    var a := RuleEvents(rp, ReplacementRole);
    var x := if ContentTypeAllowed(result, filter, matcher) then RuleEvents(ex, ExtractorRole) else [];
    TraceParts(e, result, filter, matcher);
    RuleEventsPhased(rp, ReplacementRole);
    RuleEventsPhased(ex, ExtractorRole);
    PerformPhases(e, a, x, result, act, update);
  }
}
