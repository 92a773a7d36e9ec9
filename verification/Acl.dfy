/** The access rules of crates/redis-web-core/src/acl.rs. */
module Acl {
  import opened Bytes

  /** Addresses are opaque; a parsed subnet is the set of addresses it contains, as a predicate. */
  type Ip = nat

  datatype Rule = Rule(subnet: Option<Ip -> bool>, basicAuth: Option<bytes>, enabled: seq<bytes>, disabled: seq<bytes>)

  /** Who asks: the peer address and the `Authorization` header. */
  datatype Client = Client(ip: Ip, authorization: Option<bytes>)

  /** The rules, and the Base64-then-UTF-8 decoding of credentials, which may fail. */
  datatype Policy = Policy(rules: seq<Rule>, decode: bytes -> Option<bytes>)

  const BASIC: bytes := Ascii("Basic ")
  const ANY: bytes := [42]

  predicate SameCommand(a: bytes, b: bytes) { LowerAll(a) == LowerAll(b) }

  predicate NamedBy(entry: bytes, command: bytes) { entry == ANY || SameCommand(entry, command) }

  predicate Names(entries: seq<bytes>, command: bytes)
  {
    exists i :: 0 <= i < |entries| && NamedBy(entries[i], command)
  }

  /** The header carries exactly the required credentials. */
  predicate Presents(policy: Policy, client: Client, required: bytes)
  {
    && client.authorization.Some?
    && BASIC <= client.authorization.value
    && policy.decode(client.authorization.value[|BASIC|..]) == Some(required)
  }

  /** A rule with credentials looks at the credentials alone; only a rule without them looks at the address. */
  predicate Applies(policy: Policy, rule: Rule, client: Client)
  {
    match rule.basicAuth
    case Some(required) => Presents(policy, client, required)
    case None => rule.subnet.Some? ==> rule.subnet.value(client.ip)
  }

  datatype Decision = Silent | Allow | Deny

  /** What one rule says: nothing unless it applies and names the command; enabling beats disabling. */
  function Decide(policy: Policy, rule: Rule, client: Client, command: bytes): (d: Decision)
  {
    if !Applies(policy, rule, client) then Silent
    else if Names(rule.enabled, command) then Allow
    else if Names(rule.disabled, command) then Deny
    else Silent
  }

  /** Rule `i` denies the command and no later rule says anything about it. */
  predicate FinalDenial(policy: Policy, client: Client, command: bytes, i: nat)
    requires i < |policy.rules|
  {
    && Decide(policy, policy.rules[i], client, command) == Deny
    && forall j :: i < j < |policy.rules| ==> Decide(policy, policy.rules[j], client, command) == Silent
  }

  /** Forbidden exactly when the last rule that decides is a denial. */
  predicate Permitted(policy: Policy, client: Client, command: bytes)
  {
    !exists i :: 0 <= i < |policy.rules| && FinalDenial(policy, client, command, i)
  }

  /** The backward search: the decision of the last rule that is not silent. */
  function LastDecision(policy: Policy, client: Client, command: bytes, n: nat): (d: Decision)
    requires n <= |policy.rules|
  {
    if n == 0 then Silent
    else
      var d := Decide(policy, policy.rules[n - 1], client, command);
      if d != Silent then d else LastDecision(policy, client, command, n - 1)
  }

  lemma {:induction false} LastDecisionFound(policy: Policy, client: Client, command: bytes, n: nat)
    requires n <= |policy.rules|
    requires forall j :: n <= j < |policy.rules| ==> Decide(policy, policy.rules[j], client, command) == Silent
    ensures Permitted(policy, client, command) <==> LastDecision(policy, client, command, n) != Deny
  {
    if n > 0 {
      var d := Decide(policy, policy.rules[n - 1], client, command);
      if d == Silent {
        LastDecisionFound(policy, client, command, n - 1);
      } else if d == Deny {
        assert FinalDenial(policy, client, command, n - 1);
      }
    }
  }

  /** `Acl::check`: two flags overwritten in nested loops over the rules, in order. */
  method Check(policy: Policy, client: Client, command: bytes) returns (allowed: bool)
    ensures allowed <==> Permitted(policy, client, command)
  {
    allowed := true;
    if |policy.rules| == 0 {
      return;
    }
    var r := 0;
    while r < |policy.rules|
      invariant r <= |policy.rules|
      invariant allowed <==> LastDecision(policy, client, command, r) != Deny
    {
      var rule := policy.rules[r];
      var matches := true;
      if rule.subnet.Some? && !rule.subnet.value(client.ip) {
        matches := false;
      }
      if rule.basicAuth.Some? {
        matches := false;
        if client.authorization.Some? && BASIC <= client.authorization.value {
          var decoded := policy.decode(client.authorization.value[|BASIC|..]);
          if decoded.Some? && decoded.value == rule.basicAuth.value {
            matches := true;
          }
        }
      }
      assert matches <==> Applies(policy, rule, client);
      if matches {
        var before := allowed;
        var i := 0;
        while i < |rule.disabled|
          invariant i <= |rule.disabled|
          invariant allowed == (before && !Names(rule.disabled[..i], command))
        {
          if NamedBy(rule.disabled[i], command) {
            allowed := false;
          }
          NamesOneMore(rule.disabled, command, i);
          i := i + 1;
        }
        assert rule.disabled[..i] == rule.disabled;
        var settled := allowed;
        i := 0;
        while i < |rule.enabled|
          invariant i <= |rule.enabled|
          invariant allowed == (settled || Names(rule.enabled[..i], command))
        {
          if NamedBy(rule.enabled[i], command) {
            allowed := true;
          }
          NamesOneMore(rule.enabled, command, i);
          i := i + 1;
        }
        assert rule.enabled[..i] == rule.enabled;
      }
      r := r + 1;
    }
    LastDecisionFound(policy, client, command, r);
  }

  lemma NamesOneMore(entries: seq<bytes>, command: bytes, i: nat)
    requires i < |entries|
    ensures Names(entries[..i + 1], command) <==> Names(entries[..i], command) || NamedBy(entries[i], command)
  {
    var more, fewer := entries[..i + 1], entries[..i];
    if NamedBy(entries[i], command) {
      assert NamedBy(more[i], command);
    }
    if Names(fewer, command) {
      var k :| 0 <= k < |fewer| && NamedBy(fewer[k], command);
      assert NamedBy(more[k], command);
    }
  }

  /** The ASCII case of the command never matters. */
  lemma CaseIgnored(policy: Policy, client: Client, a: bytes, b: bytes)
    requires SameCommand(a, b)
    ensures Permitted(policy, client, a) <==> Permitted(policy, client, b)
  {
    forall entry: bytes
      ensures NamedBy(entry, a) == NamedBy(entry, b)
    {}
    forall i | 0 <= i < |policy.rules|
      ensures Decide(policy, policy.rules[i], client, a) == Decide(policy, policy.rules[i], client, b)
    {}
    assert forall i :: 0 <= i < |policy.rules| ==>
        FinalDenial(policy, client, a, i) == FinalDenial(policy, client, b, i);
  }

  // ---------------------------------------------------------------------------------------
  // The rules, octet by octet
  // ---------------------------------------------------------------------------------------

  /** Equal, or the same ASCII letter in the other case. */
  predicate SameLetter(a: byte, b: byte)
  {
    a == b || (65 <= a <= 90 && b == a + 32) || (97 <= a <= 122 && b == a - 32)
  }

  /** The entry is `*`, or spells the command. */
  predicate Hits(entry: bytes, command: bytes)
  {
    || entry == Ascii("*")
    || (|entry| == |command| && forall k :: 0 <= k < |entry| ==> SameLetter(entry[k], command[k]))
  }

  ghost predicate HitsAny(entries: seq<bytes>, command: bytes)
  {
    exists i :: 0 <= i < |entries| && Hits(entries[i], command)
  }

  /** With credentials: `Basic ` and something that decodes to them.  Without: no subnet, or one with the address in it. */
  ghost predicate Concerns(decode: bytes -> Option<bytes>, rule: Rule, client: Client)
  {
    if rule.basicAuth.Some? then
      exists x :: client.authorization == Some(Ascii("Basic ") + x) && decode(x) == rule.basicAuth
    else rule.subnet.None? || rule.subnet.value(client.ip)
  }

  lemma HitsExactly(entry: bytes, command: bytes)
    ensures NamedBy(entry, command) <==> Hits(entry, command)
  {
    assert Ascii("*") == ANY;
    var a, b := LowerAll(entry), LowerAll(command);
    if a == b {
      forall k | 0 <= k < |entry|
        ensures SameLetter(entry[k], command[k])
      {
        assert Lower(entry[k]) == a[k] == b[k] == Lower(command[k]);
      }
    }
    if |entry| == |command| && forall k :: 0 <= k < |entry| ==> SameLetter(entry[k], command[k]) {
      assert a == b;
    }
  }

  lemma HitsAnyExactly(entries: seq<bytes>, command: bytes)
    ensures Names(entries, command) <==> HitsAny(entries, command)
  {
    hide NamedBy, Hits;
    forall i | 0 <= i < |entries|
      ensures NamedBy(entries[i], command) <==> Hits(entries[i], command)
    {
      HitsExactly(entries[i], command);
    }
  }

  lemma ConcernsExactly(policy: Policy, rule: Rule, client: Client)
    ensures Applies(policy, rule, client) <==> Concerns(policy.decode, rule, client)
  {
    if rule.basicAuth.Some? {
      if Applies(policy, rule, client) {
        var x := client.authorization.value[|BASIC|..];
        assert client.authorization.value == Ascii("Basic ") + x;
      }
      if Concerns(policy.decode, rule, client) {
        var x :| client.authorization == Some(Ascii("Basic ") + x) && policy.decode(x) == rule.basicAuth;
        assert (BASIC + x)[|BASIC|..] == x;
      }
    }
  }

  /** The rule concerns the client and hits the command at all; whether it then denies. */
  ghost predicate Decisive(decode: bytes -> Option<bytes>, rule: Rule, client: Client, command: bytes)
  {
    Concerns(decode, rule, client) && (HitsAny(rule.enabled, command) || HitsAny(rule.disabled, command))
  }

  ghost predicate Denies(decode: bytes -> Option<bytes>, rule: Rule, client: Client, command: bytes)
  {
    Concerns(decode, rule, client) && HitsAny(rule.disabled, command) && !HitsAny(rule.enabled, command)
  }

  lemma DecideExactly(policy: Policy, rule: Rule, client: Client, command: bytes)
    ensures Decide(policy, rule, client, command) == Deny <==> Denies(policy.decode, rule, client, command)
    ensures Decide(policy, rule, client, command) != Silent <==> Decisive(policy.decode, rule, client, command)
  {
    hide Applies, Concerns, Names, HitsAny;
    ConcernsExactly(policy, rule, client);
    HitsAnyExactly(rule.enabled, command);
    HitsAnyExactly(rule.disabled, command);
  }

  /**
   A command is forbidden if and only if some rule that concerns the client disables it without
   enabling it, and no later rule that concerns the client mentions it.
   */
  lemma ForbiddenExactly(policy: Policy, client: Client, command: bytes)
    ensures !Permitted(policy, client, command) <==>
            exists i :: && 0 <= i < |policy.rules| && Denies(policy.decode, policy.rules[i], client, command)
                        && forall j :: i < j < |policy.rules| ==> !Decisive(policy.decode, policy.rules[j], client, command)
  {
    hide Decide, Denies, Decisive;
    forall i | 0 <= i < |policy.rules|
      ensures Decide(policy, policy.rules[i], client, command) == Deny <==> Denies(policy.decode, policy.rules[i], client, command)
      ensures Decide(policy, policy.rules[i], client, command) != Silent <==> Decisive(policy.decode, policy.rules[i], client, command)
    {
      DecideExactly(policy, policy.rules[i], client, command);
    }
    forall i | 0 <= i < |policy.rules|
      ensures FinalDenial(policy, client, command, i) <==>
              && Denies(policy.decode, policy.rules[i], client, command)
              && forall j :: i < j < |policy.rules| ==> !Decisive(policy.decode, policy.rules[j], client, command)
    {}
  }

  /** A single rule without conditions forbids exactly what it disables and does not enable. */
  lemma SingleRule(enabled: seq<bytes>, disabled: seq<bytes>, decode: bytes -> Option<bytes>, client: Client, command: bytes)
    ensures !Permitted(Policy([Rule(None, None, enabled, disabled)], decode), client, command) <==>
            HitsAny(disabled, command) && !HitsAny(enabled, command)
  {
    hide Permitted, HitsAny;
    var policy := Policy([Rule(None, None, enabled, disabled)], decode);
    ForbiddenExactly(policy, client, command);
    assert Denies(decode, policy.rules[0], client, command) <==> HitsAny(disabled, command) && !HitsAny(enabled, command);
  }

  /** Without credentials a rule with a subnet decides exactly inside it. */
  lemma SubnetRule(subnet: Ip -> bool, disabled: seq<bytes>, decode: bytes -> Option<bytes>, client: Client, command: bytes)
    requires HitsAny(disabled, command)
    ensures !Permitted(Policy([Rule(Some(subnet), None, [], disabled)], decode), client, command) <==> subnet(client.ip)
  {
    hide Permitted, Hits;
    var policy := Policy([Rule(Some(subnet), None, [], disabled)], decode);
    ForbiddenExactly(policy, client, command);
    assert Denies(decode, policy.rules[0], client, command) <==> subnet(client.ip);
  }

  /** The policy with the subnet of one rule replaced. */
  function Moved(policy: Policy, i: nat, subnet: Option<Ip -> bool>): (r: Policy)
    requires i < |policy.rules|
  {
    policy.(rules := policy.rules[i := policy.rules[i].(subnet := subnet)])
  }

  /** In any policy, a rule that asks for credentials ignores its own subnet: it may as well have another, or none. */
  lemma CredentialsReplaceSubnet(policy: Policy, i: nat, subnet: Option<Ip -> bool>, client: Client, command: bytes)
    requires i < |policy.rules| && policy.rules[i].basicAuth.Some?
    ensures Permitted(policy, client, command) <==> Permitted(Moved(policy, i, subnet), client, command)
  {
    hide Presents, Names;
    var moved := Moved(policy, i, subnet);
    forall j | 0 <= j < |policy.rules|
      ensures Decide(policy, policy.rules[j], client, command) == Decide(moved, moved.rules[j], client, command)
    {
      SamePresentation(policy, moved, client);
    }
    assert forall j :: 0 <= j < |policy.rules| ==>
        FinalDenial(policy, client, command, j) == FinalDenial(moved, client, command, j);
  }

  lemma SamePresentation(a: Policy, b: Policy, client: Client)
    requires a.decode == b.decode
    ensures forall required :: Presents(a, client, required) == Presents(b, client, required)
  {}

  /** Everything forbidden, but for the holder of the credentials inside the subnet: so one might read it. */
  function Guarded(subnet: Ip -> bool, required: bytes, decode: bytes -> Option<bytes>): (r: Policy)
  {
    Policy([Rule(None, None, [], [ANY]), Rule(Some(subnet), Some(required), [ANY], [])], decode)
  }

  /** Who presents the credentials is let in from anywhere, and nobody else from anywhere. */
  lemma GuardedExactly(subnet: Ip -> bool, required: bytes, decode: bytes -> Option<bytes>, client: Client, command: bytes)
    ensures var policy := Guarded(subnet, required, decode);
            Permitted(policy, client, command) <==> Presents(policy, client, required)
  {
    hide Presents;
    var policy := Guarded(subnet, required, decode);
    assert NamedBy([ANY][0], command);
    assert Names([ANY], command) && !Names([], command);
    assert Decide(policy, policy.rules[0], client, command) == Deny;
    assert Decide(policy, policy.rules[1], client, command)
        == if Presents(policy, client, required) then Allow else Silent;
    if !Presents(policy, client, required) {
      assert FinalDenial(policy, client, command, 0);
    }
  }

  /** So a client outside the subnet gets in, and only because of the rule that names the subnet. */
  lemma OutsiderAdmitted(subnet: Ip -> bool, required: bytes, decode: bytes -> Option<bytes>, client: Client, command: bytes)
    requires !subnet(client.ip) && Presents(Guarded(subnet, required, decode), client, required)
    ensures var policy := Guarded(subnet, required, decode);
            && Permitted(policy, client, command)
            && !Permitted(policy.(rules := policy.rules[..1]), client, command)
  {
    var policy := Guarded(subnet, required, decode);
    GuardedExactly(subnet, required, decode, client, command);
    var alone := policy.(rules := policy.rules[..1]);
    assert NamedBy(alone.rules[0].disabled[0], command);
    assert FinalDenial(alone, client, command, 0);
  }
}
