/** Walking up the zone chain: over the rules as written and over the rules merged into the tree
    (src/dns_rule.rs, src/dns.rs, src/dns_mw_addr.rs, src/dns_mw_ns.rs). */
module RuleWalks {
  import opened Common
  import opened Messages
  import opened DomainRules

  /** A tree node: the merged rule and the node it inherits from. */
  datatype Node = Node(rule: DomainRule, zone: Option<Node>)

  /** The rules from a node up to the top. */
  function Rules(node: Option<Node>): seq<DomainRule>
    decreases node
  {
    if node.None? then [] else [node.value.rule] + Rules(node.value.zone)
  }

  /** The merged rule of a name, given the rules written for it and for the zones above it. */
  function Merged(own: seq<DomainRule>): DomainRule
    requires own != []
  {
    if |own| == 1 then own[0] else Inherit(own[0], Merged(own[1..]))
  }

  /** The merged rules up a chain whose rules are written as `own`. */
  function MergedChain(own: seq<DomainRule>): (m: seq<DomainRule>)
    ensures |m| == |own|
  {
    if own == [] then [] else [Merged(own)] + MergedChain(own[1..])
  }

  /** The option as the nearest rule that sets it has it. */
  function Nearest(f: Field, own: seq<DomainRule>): Option<Value> {
    if own == [] then None else OrElse(Get(f, own[0]), Nearest(f, own[1..]))
  }

  /** `DomainRuleGetter` for an optional node looks at the node alone. */
  function HeadGet(f: Field, node: Option<Node>): Option<Value> {
    if node.None? then None else Get(f, node.value.rule)
  }

  /** `DomainRuleGetter` for a node looks at the node, then at its zone. */
  function NodeGet(f: Field, node: Node): Option<Value> {
    OrElse(Get(f, node.rule), if node.zone.None? then None else Get(f, node.zone.value.rule))
  }

  lemma {:induction false} MergedIsNearest(f: Field, own: seq<DomainRule>)
    requires own != []
    ensures Get(f, Merged(own)) == Nearest(f, own)
  {
    if |own| > 1 {
      MergedIsNearest(f, own[1..]);
      InheritIsNearest(f, own[0], Merged(own[1..]));
    } else {
      assert Nearest(f, own[1..]) == None;
    }
  }

  /** Both getters give the nearest setting of every inherited option, though they look one or two rules up. */
  lemma {:induction false} GettersAreNearest(f: Field, node: Node, own: seq<DomainRule>)
    requires Rules(Some(node)) == MergedChain(own)
    ensures HeadGet(f, Some(node)) == Nearest(f, own)
    ensures NodeGet(f, node) == Nearest(f, own)
  {
    var rules, chain := Rules(Some(node)), MergedChain(own);
    assert rules[0] == node.rule && chain[0] == Merged(own);
    MergedIsNearest(f, own);
    if node.zone.Some? {
      assert |rules| > 1 && rules[1] == node.zone.value.rule;
      assert chain[1] == MergedChain(own[1..])[0] == Merged(own[1..]);
      MergedIsNearest(f, own[1..]);
    }
  }

  // ---- The nameserver group ----

  /** The first nameserver up the chain. */
  function GroupOnChain(rules: seq<DomainRule>): Option<string> {
    if rules == [] then None else OrElse(rules[0].nameserver, GroupOnChain(rules[1..]))
  }

  /** It is the nameserver of some rule, and no rule before it has one. */
  lemma {:induction false} GroupIsFirst(rules: seq<DomainRule>)
    ensures var g := GroupOnChain(rules);
            && (g.None? <==> forall i :: 0 <= i < |rules| ==> rules[i].nameserver.None?)
            && forall i :: 0 <= i < |rules| && rules[i].nameserver.Some? ==>
                 (forall j :: 0 <= j < i ==> rules[j].nameserver.None?) ==> g == rules[i].nameserver
  {
    if rules != [] {
      GroupIsFirst(rules[1..]);
      assert forall i :: 0 <= i < |rules| - 1 ==> rules[1..][i] == rules[i + 1];
      forall i | 0 < i < |rules| && rules[i].nameserver.Some? && forall j :: 0 <= j < i ==> rules[j].nameserver.None?
        ensures GroupOnChain(rules) == rules[i].nameserver
      {
        assert rules[0].nameserver.None?;
        assert rules[1..][i - 1].nameserver.Some?;
        assert forall j :: 0 <= j < i - 1 ==> rules[1..][j].nameserver.None?;
      }
    }
  }

  method ServerGroupName(optsGroup: Option<string>, domainRule: Option<Node>) returns (name: string)
    ensures name == match optsGroup
                    case Some(n) => n
                    case None => match GroupOnChain(Rules(domainRule)) case Some(n) => n case None => "default"
  {
    if optsGroup.Some? { return optsGroup.value; }
    var node := domainRule;
    while node.Some?
      invariant GroupOnChain(Rules(node)) == GroupOnChain(Rules(domainRule))
      decreases node
    {
      ghost var rules := Rules(node);
      assert rules[1..] == Rules(node.value.zone);
      if node.value.rule.nameserver.Some? { return node.value.rule.nameserver.value; }
      node := node.value.zone;
    }
    name := "default";
  }

  lemma {:induction false} GroupOnMergedChain(own: seq<DomainRule>)
    ensures GroupOnChain(MergedChain(own)) == GroupOnChain(own)
    ensures own != [] ==> Merged(own).nameserver == GroupOnChain(own)
  {
    if own != [] {
      GroupOnMergedChain(own[1..]);
      assert MergedChain(own)[1..] == MergedChain(own[1..]);
      if |own| == 1 { assert own[1..] == []; }
    }
  }

  // ---- The recheck decision ----

  datatype Recheck = Recheck(group: string, ipSet: string)

  /** What a rule that sets `nameserver` decides for the group the lookup uses. */
  function Decide(nameserver: string, recheckNameserver: Option<string>, recheckIpSet: Option<string>,
                  group: string): Option<Recheck> {
    if recheckNameserver.None? then None
    else if nameserver != group || recheckNameserver.value == group then None
    else if recheckIpSet.None? then None
    else Some(Recheck(recheckNameserver.value, recheckIpSet.value))
  }

  /** The rule that sets the nameserver decides. */
  function RecheckOnChain(rules: seq<DomainRule>, group: string): Option<Recheck> {
    if rules == [] then None
    else if rules[0].nameserver.Some? then
      Decide(rules[0].nameserver.value, rules[0].recheckNameserver, rules[0].recheckIpSet, group)
    else RecheckOnChain(rules[1..], group)
  }

  method FindRecheck(domainRule: Option<Node>, group: string) returns (r: Option<Recheck>)
    ensures r == RecheckOnChain(Rules(domainRule), group)
  {
    var node := domainRule;
    while node.Some?
      invariant RecheckOnChain(Rules(node), group) == RecheckOnChain(Rules(domainRule), group)
      decreases node
    {
      var rule := node.value.rule;
      assert Rules(node)[1..] == Rules(node.value.zone);
      if rule.nameserver.Some? {
        if rule.recheckNameserver.None? { return None; }
        var recheck := rule.recheckNameserver.value;
        if rule.nameserver.value != group || recheck == group { return None; }
        if rule.recheckIpSet.None? { return None; }
        return Some(Recheck(recheck, rule.recheckIpSet.value));
      }
      node := node.value.zone;
    }
    r := None;
  }

  /** A recheck is decided exactly by the first rule with a nameserver, for the group that is this nameserver, when the
      rule names another group and an ip-set. */
  lemma {:induction false} RecheckByFirst(rules: seq<DomainRule>, group: string, i: nat)
    requires i < |rules| && rules[i].nameserver.Some? && forall j :: 0 <= j < i ==> rules[j].nameserver.None?
    ensures var r, rule := RecheckOnChain(rules, group), rules[i];
            && (r.Some? <==> rule.nameserver == Some(group) && rule.recheckNameserver.Some? && rule.recheckIpSet.Some?
                             && rule.recheckNameserver != Some(group))
            && (r.Some? ==> Some(r.value.group) == rule.recheckNameserver && Some(r.value.ipSet) == rule.recheckIpSet)
  {
    if i > 0 {
      assert rules[0].nameserver.None?;
      assert forall j :: 0 <= j < i ==> rules[1..][j] == rules[j + 1];
      RecheckByFirst(rules[1..], group, i - 1);
    }
  }

  /** The rules up to and including the first that sets a nameserver. */
  function UpToNameserver(own: seq<DomainRule>): seq<DomainRule> {
    if own == [] then []
    else if own[0].nameserver.Some? then [own[0]]
    else [own[0]] + UpToNameserver(own[1..])
  }

  function NearestRecheckNameserver(own: seq<DomainRule>): Option<string> {
    if own == [] then None else OrElse(own[0].recheckNameserver, NearestRecheckNameserver(own[1..]))
  }

  function NearestRecheckIpSet(own: seq<DomainRule>): Option<string> {
    if own == [] then None else OrElse(own[0].recheckIpSet, NearestRecheckIpSet(own[1..]))
  }

  lemma {:induction false} MergedRecheck(own: seq<DomainRule>)
    requires own != []
    ensures Merged(own).recheckNameserver == NearestRecheckNameserver(UpToNameserver(own))
    ensures Merged(own).recheckIpSet == NearestRecheckIpSet(UpToNameserver(own))
  {
    var up := UpToNameserver(own);
    if own[0].nameserver.Some? || |own| == 1 {
      if own[0].nameserver.None? { assert UpToNameserver(own[1..]) == []; }
      assert up[1..] == [];
    } else {
      MergedRecheck(own[1..]);
      assert up[1..] == UpToNameserver(own[1..]);
    }
  }

  /** Over merged rules, the decision uses the nearest recheck options below or at the rule that sets the nameserver. */
  lemma RecheckOnMergedChain(own: seq<DomainRule>, group: string)
    ensures RecheckOnChain(MergedChain(own), group) ==
            match GroupOnChain(own)
            case None => None
            case Some(ns) => Decide(ns, NearestRecheckNameserver(UpToNameserver(own)),
                                    NearestRecheckIpSet(UpToNameserver(own)), group)
  {
    GroupOnMergedChain(own);
    if GroupOnChain(own).Some? {
      MergedRecheck(own);
    } else {
      NoGroupNoRecheck(MergedChain(own), group);
    }
  }

  lemma {:induction false} NoGroupNoRecheck(rules: seq<DomainRule>, group: string)
    requires GroupOnChain(rules) == None
    ensures RecheckOnChain(rules, group) == None
  {
    if rules != [] { NoGroupNoRecheck(rules[1..], group); }
  }

  /** The rule that sets the nameserver, as written. */
  function Chooser(own: seq<DomainRule>): DomainRule
    requires GroupOnChain(own).Some?
  {
    if own[0].nameserver.Some? then own[0] else Chooser(own[1..])
  }

  lemma {:induction false} RecheckByChooser(own: seq<DomainRule>, group: string)
    requires GroupOnChain(own).Some?
    ensures Chooser(own).nameserver == GroupOnChain(own)
    ensures RecheckOnChain(own, group) ==
            Decide(GroupOnChain(own).value, Chooser(own).recheckNameserver, Chooser(own).recheckIpSet, group)
  {
    if own[0].nameserver.None? { RecheckByChooser(own[1..], group); }
  }

  /** A recheck that can take effect for the rule's own nameserver. */
  predicate Effective(nameserver: string, recheckNameserver: Option<string>, recheckIpSet: Option<string>) {
    recheckNameserver.Some? && recheckNameserver.value != nameserver && recheckIpSet.Some?
  }

  /** Merged and written rules take the same decision for every group exactly when no rule below the one that
      sets the nameserver brings in recheck options of its own that take effect. */
  predicate RecheckUndisturbed(own: seq<DomainRule>) {
    match GroupOnChain(own)
    case None => true
    case Some(ns) =>
      var up, rule := UpToNameserver(own), Chooser(own);
      var rn, ip := NearestRecheckNameserver(up), NearestRecheckIpSet(up);
      if Effective(ns, rule.recheckNameserver, rule.recheckIpSet)
      then rn == rule.recheckNameserver && ip == rule.recheckIpSet
      else !Effective(ns, rn, ip)
  }

  lemma RecheckAgreesIff(own: seq<DomainRule>)
    ensures (forall group :: RecheckOnChain(MergedChain(own), group) == RecheckOnChain(own, group)) <==>
            RecheckUndisturbed(own)
  {
    forall group
      ensures GroupOnChain(own).None? ==> RecheckOnChain(MergedChain(own), group) == RecheckOnChain(own, group) == None
      ensures GroupOnChain(own).Some? ==>
                RecheckOnChain(own, group) == Decide(GroupOnChain(own).value, Chooser(own).recheckNameserver,
                                                     Chooser(own).recheckIpSet, group)
    {
      RecheckOnMergedChain(own, group);
      if GroupOnChain(own).Some? { RecheckByChooser(own, group); } else { NoGroupNoRecheck(own, group); }
    }
    if GroupOnChain(own).Some? {
      var ns := GroupOnChain(own).value;
      forall group { RecheckOnMergedChain(own, group); }
      if !RecheckUndisturbed(own) {
        assert RecheckOnChain(MergedChain(own), ns) != RecheckOnChain(own, ns);
      }
    }
  }

  /** They do disagree: a rule without a nameserver that sets a recheck turns it on for its parent's group. */
  lemma RecheckCanDisagree()
    ensures var child := EMPTY_RULE.(recheckNameserver := Some("china"), recheckIpSet := Some("cn"));
            var parent := EMPTY_RULE.(nameserver := Some("remote"));
            RecheckOnChain([child, parent], "remote") == None
            && RecheckOnChain(MergedChain([child, parent]), "remote") == Some(Recheck("china", "cn"))
  {
  }

  /** Rules below the chooser that set no recheck option do not disturb it, which is what a caller can check. */
  lemma {:induction false} NoRecheckBelowIsUndisturbed(own: seq<DomainRule>)
    requires forall i :: 0 <= i < |own| && own[i].nameserver.None? ==>
             own[i].recheckNameserver.None? && own[i].recheckIpSet.None?
    ensures RecheckUndisturbed(own)
  {
    if GroupOnChain(own).Some? {
      var up := UpToNameserver(own);
      if own[0].nameserver.Some? {
        assert up[1..] == [];
      } else {
        NoRecheckBelowIsUndisturbed(own[1..]);
        assert up[1..] == UpToNameserver(own[1..]);
      }
    }
  }

  // ---- The address rule ----

  datatype Answer = Answer(rdatas: seq<RData>, rcode: ResponseCode)

  datatype Verdict = Return(answer: Option<Answer>) | Continue

  const SOA_ANSWER: Answer := Answer([DEFAULT_SOA], NO_ERROR)

  function Addresses(ips: seq<nat>, v6: bool): seq<RData> {
    seq(|ips|, i requires 0 <= i < |ips| => Ip(if v6 then V6(ips[i]) else V4(ips[i])))
  }

  /** `::ffff:a.b.c.d` */
  function Mapped(ips: seq<nat>): seq<nat> {
    seq(|ips|, i requires 0 <= i < |ips| => 0xffff_0000_0000 + ips[i])
  }

  /** What one rule's address says about a query. */
  function AddressVerdict(address: AddressRule, qtype: RecordType, noRuleSoa: bool): Verdict {
    if address.SOA? && !noRuleSoa then Return(Some(Answer([DEFAULT_SOA], NX_DOMAIN)))
    else if !IsIpAddr(qtype) then Return(None)
    else match address
      case Addr(v4, v6) =>
        if qtype == A && v4.Some? then Return(Some(Answer(Addresses(v4.value, false), NO_ERROR)))
        else if qtype == AAAA && v6.Some? then Return(Some(Answer(Addresses(v6.value, true), NO_ERROR)))
        else if qtype == AAAA && v4.Some? then Return(Some(Answer(Addresses(Mapped(v4.value), true), NO_ERROR)))
        else if !noRuleSoa then Return(Some(SOA_ANSWER))
        else Continue
      case SOAv4 => if !noRuleSoa && qtype == A then Return(Some(SOA_ANSWER)) else Continue
      case SOAv6 => if !noRuleSoa && qtype == AAAA then Return(Some(SOA_ANSWER)) else Continue
      case IGN => Return(None)
      case IGNv4 => if qtype == A then Return(None) else Continue
      case IGNv6 => if qtype == AAAA then Return(None) else Continue
      case SOA => Continue
  }

  function AddressOnChain(rules: seq<DomainRule>, qtype: RecordType, noRuleSoa: bool): Option<Answer> {
    if rules == [] then None
    else if rules[0].address.None? then AddressOnChain(rules[1..], qtype, noRuleSoa)
    else match AddressVerdict(rules[0].address.value, qtype, noRuleSoa)
      case Return(answer) => answer
      case Continue => AddressOnChain(rules[1..], qtype, noRuleSoa)
  }

  /** The server and global settings the address middleware reads. */
  datatype AddressOptions = AddressOptions(
    noRuleSoa: bool, noRuleAddr: bool, forceAaaaSoa: bool, forceHttpsSoa: bool, forceQtypeSoa: set<RecordType>)

  predicate ForcesSoa(o: AddressOptions, qtype: RecordType) {
    !o.noRuleSoa && ((qtype == AAAA && o.forceAaaaSoa) || (qtype == HTTPS && o.forceHttpsSoa)
                     || qtype in o.forceQtypeSoa)
  }

  /** The types a forced SOA is for, unless blocks are off. */
  function ForcedTypes(o: AddressOptions): set<RecordType> {
    if o.noRuleSoa then {}
    else o.forceQtypeSoa + (if o.forceAaaaSoa then {AAAA} else {}) + (if o.forceHttpsSoa then {Other(65)} else {})
  }

  lemma ForcesSoaIff(o: AddressOptions, qtype: RecordType)
    ensures ForcesSoa(o, qtype) <==> qtype in ForcedTypes(o)
  {
  }

  method HandleRuleAddr(qtype: RecordType, o: AddressOptions, domainRule: Option<Node>) returns (r: Option<Answer>)
    ensures r == if ForcesSoa(o, qtype) then Some(SOA_ANSWER)
                 else if o.noRuleAddr then None
                 else AddressOnChain(Rules(domainRule), qtype, o.noRuleSoa)
  {
    if !o.noRuleSoa {
      if qtype == AAAA && o.forceAaaaSoa { return Some(SOA_ANSWER); }
      if qtype == HTTPS && o.forceHttpsSoa { return Some(SOA_ANSWER); }
      if qtype in o.forceQtypeSoa { return Some(SOA_ANSWER); }
    }
    if o.noRuleAddr { return None; }
    var node := domainRule;
    while node.Some?
      invariant AddressOnChain(Rules(node), qtype, o.noRuleSoa) == AddressOnChain(Rules(domainRule), qtype, o.noRuleSoa)
      decreases node
    {
      assert Rules(node)[1..] == Rules(node.value.zone);
      if node.value.rule.address.Some? {
        var verdict := AddressVerdict(node.value.rule.address.value, qtype, o.noRuleSoa);
        if verdict.Return? { return verdict.answer; }
      }
      node := node.value.zone;
    }
    r := None;
  }

  function NearestAddress(own: seq<DomainRule>): Option<AddressRule> {
    if own == [] then None else OrElse(own[0].address, NearestAddress(own[1..]))
  }

  lemma {:induction false} MergedAddress(own: seq<DomainRule>)
    requires own != []
    ensures Merged(own).address == NearestAddress(own)
  {
    if |own| > 1 { MergedAddress(own[1..]); } else { assert NearestAddress(own[1..]) == None; }
  }

  /** A verdict of the nearest address ends the walk there; one to go on is asked again at each rule below, to no
      effect. */
  lemma {:induction false} NearestAddressDecides(own: seq<DomainRule>, qtype: RecordType, noRuleSoa: bool)
    ensures NearestAddress(own).None? ==> AddressOnChain(own, qtype, noRuleSoa) == None
    ensures NearestAddress(own).Some? ==>
              match AddressVerdict(NearestAddress(own).value, qtype, noRuleSoa)
              case Return(answer) => AddressOnChain(own, qtype, noRuleSoa) == answer
              case Continue =>
                own != [] && AddressOnChain(own, qtype, noRuleSoa) == AddressOnChain(own[1..], qtype, noRuleSoa)
  {
    if own != [] { NearestAddressDecides(own[1..], qtype, noRuleSoa); }
  }

  /** The address outcome over merged rules is the one over the rules as written. */
  lemma {:induction false} AddressOnMergedChain(own: seq<DomainRule>, qtype: RecordType, noRuleSoa: bool)
    ensures AddressOnChain(MergedChain(own), qtype, noRuleSoa) == AddressOnChain(own, qtype, noRuleSoa)
  {
    if own != [] {
      AddressOnMergedChain(own[1..], qtype, noRuleSoa);
      MergedAddress(own);
      NearestAddressDecides(own, qtype, noRuleSoa);
      assert MergedChain(own)[1..] == MergedChain(own[1..]);
      if NearestAddress(own).None? { NearestAddressDecides(own[1..], qtype, noRuleSoa); }
    }
  }

  // ---- The outcome, rule by rule ----

  /** The rule leaves an address query to the rules above: a block that is off or for the other family, an exception for
      the other family, or addresses of the other family while blocks are off. */
  predicate Passes(a: AddressRule, qtype: RecordType, noRuleSoa: bool) {
    match a
    case SOA => noRuleSoa
    case SOAv4 => noRuleSoa || qtype != A
    case SOAv6 => noRuleSoa || qtype != AAAA
    case IGN => false
    case IGNv4 => qtype != A
    case IGNv6 => qtype != AAAA
    case Addr(v4, v6) => noRuleSoa && v4.None? && (qtype == A || v6.None?)
  }

  /** The answer has exactly these addresses, of the family asked for. */
  predicate HasAddresses(r: Option<Answer>, ips: seq<nat>, qtype: RecordType, mapped: bool) {
    && r.Some? && r.value.rcode == NO_ERROR && |r.value.rdatas| == |ips|
    && forall i :: 0 <= i < |ips| ==>
         r.value.rdatas[i] == Ip(if qtype == A then V4(ips[i]) else V6(if mapped then 65535 * U32 + ips[i] else ips[i]))
  }

  predicate Blocked(r: Option<Answer>, rcode: ResponseCode) { r == Some(Answer([DEFAULT_SOA], rcode)) }

  /** What an address query gets from a rule that does not pass it on: blocks, exceptions, the rule's addresses of the
      family asked for, and a block when it has none. */
  predicate DecidedBy(a: AddressRule, qtype: RecordType, r: Option<Answer>) {
    match a
    case SOA => Blocked(r, NX_DOMAIN)
    case SOAv4 => qtype == A && Blocked(r, NO_ERROR)
    case SOAv6 => qtype == AAAA && Blocked(r, NO_ERROR)
    case IGN => r == None
    case IGNv4 => qtype == A && r == None
    case IGNv6 => qtype == AAAA && r == None
    case Addr(v4, v6) =>
      if qtype == A then (if v4.Some? then HasAddresses(r, v4.value, A, false) else Blocked(r, NO_ERROR))
      else if v6.Some? then HasAddresses(r, v6.value, AAAA, false)
      else if v4.Some? then HasAddresses(r, v4.value, AAAA, true)
      else Blocked(r, NO_ERROR)
  }

  /** Rule `i` is the first with an address that does not pass the query on. */
  predicate FirstToDecide(rules: seq<DomainRule>, qtype: RecordType, noRuleSoa: bool, i: nat) {
    && i < |rules| && rules[i].address.Some? && !Passes(rules[i].address.value, qtype, noRuleSoa)
    && forall j :: 0 <= j < i && rules[j].address.Some? ==> Passes(rules[j].address.value, qtype, noRuleSoa)
  }

  /** An address query gets what the first rule that does not pass it on decides, and nothing when all do. */
  lemma {:induction false} AddressOutcome(rules: seq<DomainRule>, qtype: RecordType, noRuleSoa: bool)
    requires IsIpAddr(qtype)
    ensures var r := AddressOnChain(rules, qtype, noRuleSoa);
            && (forall i: nat :: FirstToDecide(rules, qtype, noRuleSoa, i) ==>
                 DecidedBy(rules[i].address.value, qtype, r))
            && ((forall i: nat :: !FirstToDecide(rules, qtype, noRuleSoa, i)) ==> r == None)
  {
    if rules != [] {
      var a := rules[0].address;
      VerdictDecides(a, qtype, noRuleSoa);
      hide AddressVerdict, DecidedBy, Passes;
      if a.Some? && !Passes(a.value, qtype, noRuleSoa) {
        assert FirstToDecide(rules, qtype, noRuleSoa, 0);
        assert forall i: nat :: FirstToDecide(rules, qtype, noRuleSoa, i) ==> i == 0;
      } else {
        AddressOutcome(rules[1..], qtype, noRuleSoa);
        forall i: nat { DecidesAbove(rules, qtype, noRuleSoa, i); }
        forall i: nat | FirstToDecide(rules, qtype, noRuleSoa, i)
          ensures DecidedBy(rules[i].address.value, qtype, AddressOnChain(rules, qtype, noRuleSoa))
        {
          assert i > 0 && FirstToDecide(rules[1..], qtype, noRuleSoa, i - 1) && rules[i] == rules[1..][i - 1];
        }
        forall i: nat | FirstToDecide(rules[1..], qtype, noRuleSoa, i)
          ensures FirstToDecide(rules, qtype, noRuleSoa, i + 1)
        {
          DecidesAbove(rules, qtype, noRuleSoa, i + 1);
        }
      }
    }
  }

  lemma VerdictDecides(a: Option<AddressRule>, qtype: RecordType, noRuleSoa: bool)
    requires IsIpAddr(qtype)
    ensures a.Some? ==>
              var v := AddressVerdict(a.value, qtype, noRuleSoa);
              && (Passes(a.value, qtype, noRuleSoa) <==> v == Continue)
              && (v.Return? ==> DecidedBy(a.value, qtype, v.answer))
  {
  }

  lemma DecidesAbove(rules: seq<DomainRule>, qtype: RecordType, noRuleSoa: bool, i: nat)
    requires rules != [] && (rules[0].address.Some? ==> Passes(rules[0].address.value, qtype, noRuleSoa))
    ensures FirstToDecide(rules, qtype, noRuleSoa, i) <==>
            i > 0 && FirstToDecide(rules[1..], qtype, noRuleSoa, i - 1)
  {
    hide Passes;
    assert forall j :: 0 <= j < |rules| - 1 ==> rules[1..][j] == rules[j + 1];
    if 0 < i < |rules| {
      assert forall j :: 0 < j < i ==> rules[j] == rules[1..][j - 1];
    }
  }

  /** A query for another type is answered by `#` only, when the nearest address rule is one and blocks are on. */
  lemma {:induction false} OtherTypesOutcome(rules: seq<DomainRule>, qtype: RecordType, noRuleSoa: bool)
    requires !IsIpAddr(qtype)
    ensures var r := AddressOnChain(rules, qtype, noRuleSoa);
            if !noRuleSoa && NearestAddress(rules) == Some(AddressRule.SOA) then Blocked(r, NX_DOMAIN) else r == None
  {
    if rules != [] { OtherTypesOutcome(rules[1..], qtype, noRuleSoa); }
  }

  /** So an outcome has either addresses of the type asked for, or is a block; and nothing is blocked when blocks are
      off. */
  lemma AnswersFitTheQuery(rules: seq<DomainRule>, qtype: RecordType, noRuleSoa: bool)
    ensures var r := AddressOnChain(rules, qtype, noRuleSoa);
            r.Some? ==>
              || (!noRuleSoa && (Blocked(r, NO_ERROR) || Blocked(r, NX_DOMAIN)))
              || (r.value.rcode == NO_ERROR && forall d :: d in r.value.rdatas ==> d.Ip? && TypeOf(d) == qtype)
  {
    if IsIpAddr(qtype) {
      AddressOutcome(rules, qtype, noRuleSoa);
    } else {
      OtherTypesOutcome(rules, qtype, noRuleSoa);
    }
  }
}
