/** Domain rules, how one rule merges into another and inherits from a parent (src/config/domain_rule.rs). */
module DomainRules {
  import opened Common

  datatype AddressRule =
    | SOA | SOAv4 | SOAv6
    | IGN | IGNv4 | IGNv6
    | Addr(v4: Option<seq<nat>>, v6: Option<seq<nat>>)

  datatype DomainRule = DomainRule(
    nameserver: Option<string>,
    address: Option<AddressRule>,
    cname: Option<string>,
    srv: Option<string>,
    txt: Option<seq<string>>,
    https: Option<string>,
    speedCheckMode: Option<string>,
    dualstackIpSelection: Option<bool>,
    responseMode: Option<string>,
    noCache: Option<bool>,
    noServeExpired: Option<bool>,
    nftset: Option<string>,
    ipset: Option<string>,
    rrTtl: Option<nat>,
    rrTtlMin: Option<nat>,
    rrTtlMax: Option<nat>,
    subnet: Option<string>,
    recheckNameserver: Option<string>,
    recheckIpSet: Option<string>)

  const EMPTY_RULE: DomainRule :=
    DomainRule(None, None, None, None, None, None, None, None, None, None, None, None, None, None, None, None, None,
               None, None)

  predicate SetsTtl(r: DomainRule) { r.rrTtl.Some? || r.rrTtlMin.Some? || r.rrTtlMax.Some? }

  /** Fills the gaps of `rule` from `parent`: options one by one, the three TTL options only as a whole, and no
      recheck option for a rule with a nameserver of its own. */
  function Inherit(rule: DomainRule, parent: DomainRule): DomainRule {
    DomainRule(
      OrElse(rule.nameserver, parent.nameserver),
      OrElse(rule.address, parent.address),
      OrElse(rule.cname, parent.cname),
      OrElse(rule.srv, parent.srv),
      OrElse(rule.txt, parent.txt),
      OrElse(rule.https, parent.https),
      OrElse(rule.speedCheckMode, parent.speedCheckMode),
      OrElse(rule.dualstackIpSelection, parent.dualstackIpSelection),
      OrElse(rule.responseMode, parent.responseMode),
      OrElse(rule.noCache, parent.noCache),
      OrElse(rule.noServeExpired, parent.noServeExpired),
      OrElse(rule.nftset, parent.nftset),
      OrElse(rule.ipset, parent.ipset),
      if SetsTtl(rule) then rule.rrTtl else parent.rrTtl,
      if SetsTtl(rule) then rule.rrTtlMin else parent.rrTtlMin,
      if SetsTtl(rule) then rule.rrTtlMax else parent.rrTtlMax,
      OrElse(rule.subnet, parent.subnet),
      if rule.nameserver.Some? then rule.recheckNameserver
          else OrElse(rule.recheckNameserver, parent.recheckNameserver),
      if rule.nameserver.Some? then rule.recheckIpSet else OrElse(rule.recheckIpSet, parent.recheckIpSet))
  }

  /** `rule += rhs`: later lines for one name replace the options they set; `txt` lines add up. */
  function Merge(rule: DomainRule, rhs: DomainRule): DomainRule {
    DomainRule(
      OrElse(rhs.nameserver, rule.nameserver),
      OrElse(rhs.address, rule.address),
      OrElse(rhs.cname, rule.cname),
      OrElse(rhs.srv, rule.srv),
      if rhs.txt.None? then rule.txt else Some((if rule.txt.Some? then rule.txt.value else []) + rhs.txt.value),
      OrElse(rhs.https, rule.https),
      OrElse(rhs.speedCheckMode, rule.speedCheckMode),
      OrElse(rhs.dualstackIpSelection, rule.dualstackIpSelection),
      OrElse(rhs.responseMode, rule.responseMode),
      OrElse(rhs.noCache, rule.noCache),
      OrElse(rhs.noServeExpired, rule.noServeExpired),
      OrElse(rhs.nftset, rule.nftset),
      OrElse(rhs.ipset, rule.ipset),
      OrElse(rhs.rrTtl, rule.rrTtl),
      OrElse(rhs.rrTtlMin, rule.rrTtlMin),
      OrElse(rhs.rrTtlMax, rule.rrTtlMax),
      OrElse(rhs.subnet, rule.subnet),
      OrElse(rhs.recheckNameserver, rule.recheckNameserver),
      OrElse(rhs.recheckIpSet, rule.recheckIpSet))
  }

  /** What one configuration line does to the rule of a name. */
  datatype Update =
    | MergeRule(rule: DomainRule)
    | SetAddress(address: AddressRule)
    | SetNameserver(nameserver: string)
    | SetCname(cname: string)
    | SetSrv(srv: string)
    | SetHttps(https: string)
    | SetNftset(nftset: string)

  function Apply(u: Update, r: DomainRule): DomainRule {
    match u
    case MergeRule(rhs) => Merge(r, rhs)
    case SetAddress(a) => r.(address := Some(a))
    case SetNameserver(n) => r.(nameserver := Some(n))
    case SetCname(c) => r.(cname := Some(c))
    case SetSrv(s) => r.(srv := Some(s))
    case SetHttps(h) => r.(https := Some(h))
    case SetNftset(n) => r.(nftset := Some(n))
  }

  /** The options a name takes from the nearest rule that sets them; the TTL options are one. */
  datatype Field =
    | Nameserver | Address | Cname | Srv | Txt | Https | SpeedCheckMode | DualstackIpSelection
    | ResponseMode | NoCache | NoServeExpired | Nftset | Ipset | Ttls | Subnet

  datatype Value =
    | Text(text: string)
    | Texts(texts: seq<string>)
    | Flag(flag: bool)
    | AddressValue(address: AddressRule)
    | TtlValue(ttl: Option<nat>, min: Option<nat>, max: Option<nat>)
    | Number(number: nat)

  function TextOf(s: Option<string>): Option<Value> { if s.Some? then Some(Text(s.value)) else None }

  function FlagOf(b: Option<bool>): Option<Value> { if b.Some? then Some(Flag(b.value)) else None }

  function Get(f: Field, r: DomainRule): Option<Value> {
    match f
    case Nameserver => TextOf(r.nameserver)
    case Address => if r.address.Some? then Some(AddressValue(r.address.value)) else None
    case Cname => TextOf(r.cname)
    case Srv => TextOf(r.srv)
    case Txt => if r.txt.Some? then Some(Texts(r.txt.value)) else None
    case Https => TextOf(r.https)
    case SpeedCheckMode => TextOf(r.speedCheckMode)
    case DualstackIpSelection => FlagOf(r.dualstackIpSelection)
    case ResponseMode => TextOf(r.responseMode)
    case NoCache => FlagOf(r.noCache)
    case NoServeExpired => FlagOf(r.noServeExpired)
    case Nftset => TextOf(r.nftset)
    case Ipset => TextOf(r.ipset)
    case Ttls =>
      if r.rrTtl.None? && r.rrTtlMin.None? && r.rrTtlMax.None? then None
      else Some(TtlValue(r.rrTtl, r.rrTtlMin, r.rrTtlMax))
    case Subnet => TextOf(r.subnet)
  }

  lemma InheritIsNearest(f: Field, r: DomainRule, parent: DomainRule)
    ensures Get(f, Inherit(r, parent)) == OrElse(Get(f, r), Get(f, parent))
  {
  }

  /** The options a configuration line sets one by one, all but `txt`. */
  datatype Setting = Plain(field: Field) | RrTtl | RrTtlMin | RrTtlMax | RecheckNameserver | RecheckIpSet

  predicate Single(o: Setting) { o.Plain? ==> o.field != Ttls && o.field != Txt }

  function NumberOf(n: Option<nat>): Option<Value> { if n.Some? then Some(Number(n.value)) else None }

  function Read(o: Setting, r: DomainRule): Option<Value> {
    match o
    case Plain(f) => Get(f, r)
    case RrTtl => NumberOf(r.rrTtl)
    case RrTtlMin => NumberOf(r.rrTtlMin)
    case RrTtlMax => NumberOf(r.rrTtlMax)
    case RecheckNameserver => TextOf(r.recheckNameserver)
    case RecheckIpSet => TextOf(r.recheckIpSet)
  }

  /** The value a line gives an option, if it sets it: a `domain-rules` line those it names, any other line its own. */
  function Given(o: Setting, u: Update): Option<Value> {
    match u
    case MergeRule(rule) => Read(o, rule)
    case SetAddress(a) => if o == Plain(Address) then Some(AddressValue(a)) else None
    case SetNameserver(n) => if o == Plain(Nameserver) then Some(Text(n)) else None
    case SetCname(c) => if o == Plain(Cname) then Some(Text(c)) else None
    case SetSrv(s) => if o == Plain(Srv) then Some(Text(s)) else None
    case SetHttps(h) => if o == Plain(Https) then Some(Text(h)) else None
    case SetNftset(n) => if o == Plain(Nftset) then Some(Text(n)) else None
  }

  lemma ApplyOption(o: Setting, u: Update, r: DomainRule)
    requires Single(o)
    ensures Read(o, Apply(u, r)) == if Given(o, u).Some? then Given(o, u) else Read(o, r)
    ensures Read(o, EMPTY_RULE) == None
  {
  }

  function TextsGiven(u: Update): Option<seq<string>> { if u.MergeRule? then u.rule.txt else None }

  lemma ApplyTexts(u: Update, r: DomainRule)
    ensures Apply(u, r).txt ==
            match TextsGiven(u)
            case None => r.txt
            case Some(more) => Some((match r.txt case None => [] case Some(texts) => texts) + more)
    ensures EMPTY_RULE.txt == None
  {
  }
}
