/**
 * Correlation rules as the engine and the template merge see them: rule
 * parts that may declare a context class, rules that hold an extractor and a
 * replacement, and the named groups that hold rules.
 */
module Rules {
  import opened Wrappers

  /** A context class (a `CorrelationContext` subclass), identified by a number. */
  type Kind = nat

  /**
   * An extractor or a replacement. `kind` is the context class it declares
   * (possibly none); `context` is the initialised context attached to it,
   * as a position in the engine's list of contexts.
   */
  datatype Part = Part(id: nat, kind: Option<Kind>, context: Option<nat>)

  datatype Rule = Rule(refName: string, enabled: bool, extractor: Option<Part>, replacement: Option<Part>)

  datatype Group = Group(id: string, enabled: bool, rules: seq<Rule>)

  /** The rules of the enabled groups, in group order and then in rule order. */
  function EnabledRules(groups: seq<Group>): (r: seq<Rule>)
    ensures |groups| == 0 ==> r == []
    ensures forall x :: x in r ==> exists g :: g in groups && g.enabled && x in g.rules
    decreases |groups|
  {
    if |groups| == 0 then []
    else
      var last := groups[|groups| - 1];
      var init := EnabledRules(groups[..|groups| - 1]);
      assert forall g :: g in groups[..|groups| - 1] ==> g in groups;
      init + (if last.enabled then last.rules else [])
  }

  /** Flattening distributes over concatenation of group lists. */
  lemma {:induction false} EnabledRulesAppend(a: seq<Group>, b: seq<Group>)
    ensures EnabledRules(a + b) == EnabledRules(a) + EnabledRules(b)
    decreases |b|
  {
    if |b| == 0 {
      assert a + b == a;
    } else {
      var b' := b[..|b| - 1];
      assert (a + b)[..|a + b| - 1] == a + b';
      assert (a + b)[|a + b| - 1] == b[|b| - 1];
      EnabledRulesAppend(a, b');
    }
  }

  /** A disabled group contributes nothing; an enabled one contributes all its rules, in order. */
  lemma EnabledRulesSingle(g: Group)
    ensures EnabledRules([g]) == if g.enabled then g.rules else []
  {
    assert [g][..0] == [];
  }

  /** Every rule of every enabled group is kept. */
  lemma {:induction false} EnabledRulesComplete(groups: seq<Group>, i: nat, x: Rule)
    requires i < |groups| && groups[i].enabled && x in groups[i].rules
    ensures x in EnabledRules(groups)
    decreases |groups|
  {
    var init := groups[..|groups| - 1];
    if i < |groups| - 1 {
      assert init[i] == groups[i];
      EnabledRulesComplete(init, i, x);
    }
  }

  /** The identifiers of the groups, in order. */
  function Ids(groups: seq<Group>): (r: seq<string>)
    ensures |r| == |groups|
    ensures forall i :: 0 <= i < |groups| ==> r[i] == groups[i].id
  {
    seq(|groups|, i requires 0 <= i < |groups| => groups[i].id)
  }
}
