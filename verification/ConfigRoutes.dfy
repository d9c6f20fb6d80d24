/**
 Configuration validation against route resolution: what a configuration that validates
 guarantees to the code that resolves its routes. Checks of single fields are parameters.
 */
module ConfigRoutes {
  import opened Wrappers

  datatype Outbound = Outbound(tag: string, settings: string)

  datatype Action = Direct | Block | ToOutbound(tag: string)

  datatype Rule = Rule(targets: seq<string>, action: Action, outbound: Option<Outbound>)

  datatype Inbound = Inbound(tag: string, settings: string, routes: seq<Rule>)

  datatype Config = Config(instanceId: string, inbounds: seq<Inbound>, outbounds: seq<Outbound>,
                           routes: seq<Rule>, dns: string, policy: string)

  /** The checks of single fields. */
  datatype Checks = Checks(instance: string -> bool, inbound: Inbound -> bool, outbound: Outbound -> bool,
                           targets: seq<string> -> bool, dns: string -> bool, policy: string -> bool)

  datatype Invalid =
    | BadInstance | NoInbound | BadInbound | DuplicateInbound
    | DuplicateOutbound | BadOutbound | BadDns | BadTargets | TagMismatch | NotConfigured | BadPolicy

  // ---------- Resolution ----------

  /** The first configured outbound with the tag. */
  function Find(outbounds: seq<Outbound>, tag: string): (r: Option<Outbound>)
    ensures r.Some? ==> r.value in outbounds && r.value.tag == tag
    ensures r.None? ==> forall o | o in outbounds :: o.tag != tag
  {
    if outbounds == [] then None
    else if outbounds[0].tag == tag then Some(outbounds[0])
    else Find(outbounds[1..], tag)
  }

  function Resolved(c: Config, rule: Rule): Rule {
    if rule.outbound.None? && rule.action.ToOutbound? then
      rule.(outbound := Find(c.outbounds, rule.action.tag))
    else rule
  }

  function ResolvedAll(c: Config, rules: seq<Rule>): seq<Rule> {
    seq(|rules|, i requires 0 <= i < |rules| => Resolved(c, rules[i]))
  }

  function ResolvedInboundRoutes(c: Config, inbound: Inbound): seq<Rule> {
    ResolvedAll(c, c.routes + inbound.routes)
  }

  // ---------- Validation ----------

  ghost predicate DistinctInbounds(xs: seq<Inbound>) {
    forall i, j | 0 <= i < j < |xs| :: xs[i].tag != xs[j].tag
  }

  ghost predicate DistinctOutbounds(xs: seq<Outbound>) {
    forall i, j | 0 <= i < j < |xs| :: xs[i].tag != xs[j].tag
  }

  /** A rule that sends traffic to an outbound can say which one, and that one is sound. */
  ghost predicate RuleOk(c: Config, rule: Rule, k: Checks) {
    && k.targets(rule.targets)
    && (rule.action.ToOutbound? ==>
          if rule.outbound.Some? then rule.outbound.value.tag == rule.action.tag && k.outbound(rule.outbound.value)
          else exists o :: o in c.outbounds && o.tag == rule.action.tag)
  }

  ghost predicate RulesOk(c: Config, rules: seq<Rule>, k: Checks) {
    forall i | 0 <= i < |rules| :: RuleOk(c, rules[i], k)
  }

  ghost predicate OutboundsOk(c: Config, k: Checks) {
    DistinctOutbounds(c.outbounds) && forall i | 0 <= i < |c.outbounds| :: k.outbound(c.outbounds[i])
  }

  ghost predicate InboundsOk(c: Config, k: Checks) {
    DistinctInbounds(c.inbounds) && forall i | 0 <= i < |c.inbounds| :: k.inbound(c.inbounds[i])
  }

  ghost predicate RoutesOk(c: Config, k: Checks) {
    RulesOk(c, c.routes, k) && forall i | 0 <= i < |c.inbounds| :: RulesOk(c, c.inbounds[i].routes, k)
  }

  ghost predicate Accepts(c: Config, k: Checks) {
    && k.instance(c.instanceId) && c.inbounds != []
    && InboundsOk(c, k) && OutboundsOk(c, k) && k.dns(c.dns) && RoutesOk(c, k) && k.policy(c.policy)
  }

  method ValidateOutbounds(c: Config, k: Checks) returns (r: Option<Invalid>)
    ensures r.None? <==> OutboundsOk(c, k)
  {
    var tags: set<string> := {};
    for i := 0 to |c.outbounds|
      invariant DistinctOutbounds(c.outbounds[..i])
      invariant forall j | 0 <= j < i :: k.outbound(c.outbounds[j])
      invariant forall t :: t in tags <==> exists j | 0 <= j < i :: c.outbounds[j].tag == t
    {
      if c.outbounds[i].tag in tags {
        return Some(DuplicateOutbound);
      }
      tags := tags + {c.outbounds[i].tag};
      if !k.outbound(c.outbounds[i]) {
        return Some(BadOutbound);
      }
    }
    assert c.outbounds[..|c.outbounds|] == c.outbounds;
    return None;
  }

  method ValidateInbounds(c: Config, k: Checks) returns (r: Option<Invalid>)
    ensures r.None? <==> InboundsOk(c, k)
  {
    var tags: set<string> := {};
    for i := 0 to |c.inbounds|
      invariant DistinctInbounds(c.inbounds[..i])
      invariant forall j | 0 <= j < i :: k.inbound(c.inbounds[j])
      invariant forall t :: t in tags <==> exists j | 0 <= j < i :: c.inbounds[j].tag == t
    {
      if !k.inbound(c.inbounds[i]) {
        return Some(BadInbound);
      }
      if c.inbounds[i].tag in tags {
        return Some(DuplicateInbound);
      }
      tags := tags + {c.inbounds[i].tag};
    }
    assert c.inbounds[..|c.inbounds|] == c.inbounds;
    return None;
  }

  method ValidateRouteRules(c: Config, rules: seq<Rule>, k: Checks) returns (r: Option<Invalid>)
    ensures r.None? <==> RulesOk(c, rules, k)
  {
    var outboundTags := set o | o in c.outbounds :: o.tag;
    for i := 0 to |rules|
      invariant forall j | 0 <= j < i :: RuleOk(c, rules[j], k)
    {
      var rule := rules[i];
      if !k.targets(rule.targets) {
        return Some(BadTargets);
      }
      match rule.action {
        case Direct =>
        case Block =>
        case ToOutbound(tag) =>
          if rule.outbound.Some? {
            if rule.outbound.value.tag != tag {
              return Some(TagMismatch);
            }
            if !k.outbound(rule.outbound.value) {
              return Some(BadOutbound);
            }
          } else if tag !in outboundTags {
            return Some(NotConfigured);
          }
      }
    }
    return None;
  }

  method ValidateRoutes(c: Config, k: Checks) returns (r: Option<Invalid>)
    ensures r.None? <==> RoutesOk(c, k)
  {
    r := ValidateRouteRules(c, c.routes, k);
    if r.Some? {
      return;
    }
    for i := 0 to |c.inbounds|
      invariant forall j | 0 <= j < i :: RulesOk(c, c.inbounds[j].routes, k)
    {
      r := ValidateRouteRules(c, c.inbounds[i].routes, k);
      if r.Some? {
        return;
      }
    }
    return None;
  }

  method Validate(c: Config, k: Checks) returns (r: Option<Invalid>)
    ensures r.None? <==> Accepts(c, k)
  {
    if !k.instance(c.instanceId) {
      return Some(BadInstance);
    }
    if c.inbounds == [] {
      return Some(NoInbound);
    }
    r := ValidateInbounds(c, k);
    if r.Some? {
      return;
    }
    r := ValidateOutbounds(c, k);
    if r.Some? {
      return;
    }
    if !k.dns(c.dns) {
      return Some(BadDns);
    }
    r := ValidateRoutes(c, k);
    if r.Some? {
      return;
    }
    if !k.policy(c.policy) {
      return Some(BadPolicy);
    }
    return None;
  }

  // ---------- What validation buys ----------

  /** A resolved rule is usable: an outbound it names is there, has that tag and is sound. */
  ghost predicate Usable(rule: Rule, k: Checks) {
    rule.action.ToOutbound? ==>
      rule.outbound.Some? && rule.outbound.value.tag == rule.action.tag && k.outbound(rule.outbound.value)
  }

  /** With sound outbounds, validating a rule is the same as its resolution being usable. */
  lemma RuleOkIsUsable(c: Config, rule: Rule, k: Checks)
    requires OutboundsOk(c, k)
    ensures RuleOk(c, rule, k) <==> k.targets(rule.targets) && Usable(Resolved(c, rule), k)
  {
    if rule.action.ToOutbound? && rule.outbound.None? {
      var found := Find(c.outbounds, rule.action.tag);
      if found.Some? {
        var i :| 0 <= i < |c.outbounds| && c.outbounds[i] == found.value;
        assert k.outbound(c.outbounds[i]);
      }
    }
  }

  /**
   A validated configuration resolves: for each of its inbounds, the global rules come first,
   then the inbound's own, in order and otherwise unchanged, and every one of them is usable.
   */
  lemma ValidatedResolves(c: Config, k: Checks, n: nat, i: nat)
    requires Accepts(c, k) && n < |c.inbounds|
    requires i < |c.routes| + |c.inbounds[n].routes|
    ensures var all := ResolvedInboundRoutes(c, c.inbounds[n]);
            var own := if i < |c.routes| then c.routes[i] else c.inbounds[n].routes[i - |c.routes|];
            && |all| == |c.routes| + |c.inbounds[n].routes|
            && all[i].targets == own.targets && all[i].action == own.action
            && (own.outbound.Some? ==> all[i].outbound == own.outbound)
            && Usable(all[i], k)
  {
    var own := if i < |c.routes| then c.routes[i] else c.inbounds[n].routes[i - |c.routes|];
    assert RulesOk(c, c.inbounds[n].routes, k);
    assert RuleOk(c, own, k);
    RuleOkIsUsable(c, own, k);
  }

  /** Every route an inbound is given has sound targets and is usable. */
  ghost predicate InboundUsable(c: Config, inbound: Inbound, k: Checks) {
    forall i | 0 <= i < |c.routes| + |inbound.routes| ::
      var rule := ResolvedInboundRoutes(c, inbound)[i]; k.targets(rule.targets) && Usable(rule, k)
  }

  /** So the route checks are exact: they pass if and only if every inbound resolves to usable routes. */
  lemma RoutesOkIsUsable(c: Config, k: Checks)
    requires OutboundsOk(c, k) && c.inbounds != []
    ensures RoutesOk(c, k) <==> forall n | 0 <= n < |c.inbounds| :: InboundUsable(c, c.inbounds[n], k)
  {
    hide OutboundsOk, RuleOk, Usable, Find;
    forall n | 0 <= n < |c.inbounds|
      ensures InboundUsable(c, c.inbounds[n], k)
         <==> RulesOk(c, c.routes, k) && RulesOk(c, c.inbounds[n].routes, k)
    {
      InboundOkIsUsable(c, c.inbounds[n], k);
    }
    assert InboundUsable(c, c.inbounds[0], k) ==> RulesOk(c, c.routes, k);
  }

  lemma AppendedOk(c: Config, a: seq<Rule>, b: seq<Rule>, k: Checks)
    ensures RulesOk(c, a + b, k) <==> RulesOk(c, a, k) && RulesOk(c, b, k)
  {
    hide RuleOk;
    if RulesOk(c, a + b, k) {
      forall i | 0 <= i < |a| ensures RuleOk(c, a[i], k) {
        assert (a + b)[i] == a[i];
      }
      forall i | 0 <= i < |b| ensures RuleOk(c, b[i], k) {
        assert (a + b)[|a| + i] == b[i];
      }
    }
  }

  lemma InboundOkIsUsable(c: Config, inbound: Inbound, k: Checks)
    requires OutboundsOk(c, k)
    ensures InboundUsable(c, inbound, k) <==> RulesOk(c, c.routes, k) && RulesOk(c, inbound.routes, k)
  {
    hide OutboundsOk, RuleOk, Usable, Find;
    var all := c.routes + inbound.routes;
    forall i | 0 <= i < |all|
      ensures RuleOk(c, all[i], k)
         <==> k.targets(ResolvedAll(c, all)[i].targets) && Usable(ResolvedAll(c, all)[i], k)
    {
      RuleOkIsUsable(c, all[i], k);
    }
    assert InboundUsable(c, inbound, k) <==> RulesOk(c, all, k) by {
      assert ResolvedInboundRoutes(c, inbound) == ResolvedAll(c, all);
    }
    AppendedOk(c, c.routes, inbound.routes, k);
  }

  /** Resolving resolved rules again changes nothing, for any configuration. */
  lemma ResolvingIsIdempotent(c: Config, rules: seq<Rule>)
    ensures ResolvedAll(c, ResolvedAll(c, rules)) == ResolvedAll(c, rules)
  {
    var once := ResolvedAll(c, rules);
    forall i | 0 <= i < |rules| ensures Resolved(c, once[i]) == once[i] {
    }
  }

  /** In a validated configuration a tag names one outbound, so its place in the list is irrelevant. */
  lemma FoundIsUnique(c: Config, k: Checks, tag: string, o: Outbound)
    requires OutboundsOk(c, k) && o in c.outbounds && o.tag == tag
    ensures Find(c.outbounds, tag) == Some(o)
  {
    var found := Find(c.outbounds, tag);
    var i :| 0 <= i < |c.outbounds| && c.outbounds[i] == o;
    var j :| 0 <= j < |c.outbounds| && c.outbounds[j] == found.value;
    assert i == j;
  }
}
