/** How long an answer may live: the limits of a query, and the cache's and the reply's use of them
    (src/dns.rs, src/dns_mw_addr.rs). */
module TtlLimits {
  import opened Common
  import opened Messages

  datatype Limits = Limits(min: Option<nat>, max: Option<nat>)
  {
    /** `TtlLimits::apply`: the maximum, then the minimum. */
    function Apply(ttl: nat): nat {
      var capped := if max.Some? then Min(ttl, max.value) else ttl;
      if min.Some? then Max(capped, min.value) else capped
    }

    predicate Ordered() {
      && (min.Some? ==> 0 < min.value < U32)
      && (max.Some? ==> 0 < max.value < U32)
      && (min.Some? && max.Some? ==> min.value <= max.value)
    }
  }

  /** The `rr-ttl` options of a domain rule, or of the global configuration. */
  datatype Settings = Settings(ttl: Option<nat>, min: Option<nat>, max: Option<nat>)

  /** Zero means unset, and a value beyond 32 bits the largest one. */
  function Effective(ttl: Option<nat>): (r: Option<nat>)
    ensures r.Some? ==> 0 < r.value < U32
  {
    if ttl.None? || ttl.value == 0 then None else Some(Min(ttl.value, U32 - 1))
  }

  /** The limits, said by cases: a fixed TTL sets both; a rule's own limit stands; a global limit it crosses gives
      way to it; and a maximum below the minimum is raised to it. */
  function Combined(rule: Settings, global: Settings): Limits {
    var fixed := OrElse(Effective(rule.ttl), Effective(global.ttl));
    var ruleMin, ruleMax := Effective(rule.min), Effective(rule.max);
    var globalMin, globalMax := Effective(global.min), Effective(global.max);
    if fixed.Some? then Limits(fixed, fixed)
    else if ruleMin.Some? && ruleMax.Some? then Limits(ruleMin, Some(Max(ruleMax.value, ruleMin.value)))
    else if ruleMin.Some? then
      Limits(ruleMin, if globalMax.Some? then Some(Max(globalMax.value, ruleMin.value)) else None)
    else if ruleMax.Some? then
      Limits(if globalMin.Some? then Some(Min(globalMin.value, ruleMax.value)) else None, ruleMax)
    else if globalMin.Some? && globalMax.Some? then Limits(globalMin, Some(Max(globalMax.value, globalMin.value)))
    else Limits(globalMin, globalMax)
  }

  method RrTtlLimits(rule: Settings, global: Settings) returns (limits: Limits)
    ensures limits == Combined(rule, global)
    ensures limits.Ordered()
  {
    var fixed := OrElse(Effective(rule.ttl), Effective(global.ttl));
    if fixed.Some? { return Limits(fixed, fixed); }
    var ruleMin, ruleMax := Effective(rule.min), Effective(rule.max);
    var globalMin, globalMax := Effective(global.min), Effective(global.max);
    limits := Limits(globalMin, globalMax);
    if ruleMin.Some? {
      limits := limits.(min := ruleMin);
      if globalMax.Some? && globalMax.value <= ruleMin.value { limits := limits.(max := ruleMin); }
    }
    if ruleMax.Some? {
      limits := limits.(max := ruleMax);
      if ruleMin.None? && globalMin.Some? && globalMin.value >= ruleMax.value { limits := limits.(min := ruleMax); }
    }
    if limits.min.Some? && limits.max.Some? && limits.max.value < limits.min.value {
      limits := limits.(max := limits.min);
    }
  }

  /** A fixed TTL, the rule's before the global one, is both limits. Zero sets none, and 32 bits are the most. */
  lemma FixedTtlWins(rule: Settings, global: Settings)
    ensures (rule.ttl.Some? && rule.ttl.value > 0) || (global.ttl.Some? && global.ttl.value > 0) ==>
              var fixed := if rule.ttl.Some? && rule.ttl.value > 0 then rule.ttl.value else global.ttl.value;
              Combined(rule, global) == var t := if fixed < U32 then fixed else 0xffff_ffff; Limits(Some(t), Some(t))
  {
  }

  /** Without any options of the rule, the global limits hold, the maximum raised to the minimum. */
  lemma GlobalLimitsHold(rule: Settings, global: Settings)
    requires rule == Settings(None, None, None) && Effective(global.ttl).None?
    ensures Combined(rule, global).min == Effective(global.min)
    ensures Effective(global.max).None? ==> Combined(rule, global).max == None
    ensures Effective(global.max).Some? ==>
              Combined(rule, global).max ==
              if Effective(global.min).Some? && Effective(global.min).value > Effective(global.max).value
              then Effective(global.min) else Effective(global.max)
  {
  }

  /** Where the rule sets one limit, the global one on the other side stays unless it crosses it. */
  lemma OtherLimitStays(rule: Settings, global: Settings)
    requires Effective(rule.ttl).None? && Effective(global.ttl).None?
    ensures Effective(rule.min).Some? && Effective(rule.max).None? && Effective(global.max).Some?
            && Effective(rule.min).value <= Effective(global.max).value ==>
              Combined(rule, global).max == Effective(global.max)
    ensures Effective(rule.max).Some? && Effective(rule.min).None? && Effective(global.min).Some?
            && Effective(global.min).value <= Effective(rule.max).value ==>
              Combined(rule, global).min == Effective(global.min)
    ensures Effective(rule.max).None? && Effective(global.max).None? ==> Combined(rule, global).max == None
    ensures Effective(rule.min).None? && Effective(global.min).None? ==> Combined(rule, global).min == None
  {
  }

  /** Without a fixed TTL, a rule's minimum always stands, and its maximum does unless its own minimum is larger. */
  lemma RuleLimitsStand(rule: Settings, global: Settings)
    requires Effective(rule.ttl).None? && Effective(global.ttl).None?
    ensures Effective(rule.min).Some? ==> Combined(rule, global).min == Effective(rule.min)
    ensures Effective(rule.max).Some? ==>
              (Combined(rule, global).max == Effective(rule.max) <==>
               (Effective(rule.min).Some? ==> Effective(rule.min).value <= Effective(rule.max).value))
  {
  }

  /** What a reply does to one record's TTL: the minimum, then the reply maximum or else the maximum. */
  function ReplyTtl(limits: Limits, replyMax: Option<nat>, ttl: nat): nat {
    var raised := if limits.min.Some? then Max(ttl, limits.min.value) else ttl;
    if replyMax.Some? then Min(raised, replyMax.value)
    else if limits.max.Some? then Min(raised, limits.max.value)
    else raised
  }

  /** The cache and the reply clamp in opposite orders, to the same effect; each clamp is monotone and settles at
      once. */
  lemma ClampsAgree(limits: Limits, ttl: nat, larger: nat)
    requires limits.Ordered() && ttl <= larger
    ensures ReplyTtl(limits, None, ttl) == limits.Apply(ttl)
    ensures limits.Apply(ttl) <= limits.Apply(larger)
    ensures limits.Apply(limits.Apply(ttl)) == limits.Apply(ttl)
    ensures (limits.min.Some? ==> limits.min.value <= limits.Apply(ttl))
            && (limits.max.Some? ==> limits.Apply(ttl) <= limits.max.value)
    ensures (limits.min.Some? ==> limits.min.value <= ttl) && (limits.max.Some? ==> ttl <= limits.max.value) ==>
              limits.Apply(ttl) == ttl
  {
  }

  /** A reply maximum replaces the maximum, so it only ever lowers a reply when it is not above it. */
  lemma ReplyMaxOnlyLowersIff(limits: Limits, replyMax: nat)
    requires limits.Ordered()
    ensures (forall ttl: nat :: ReplyTtl(limits, Some(replyMax), ttl) == Min(limits.Apply(ttl), replyMax))
            <==> (limits.max.Some? ==> replyMax <= limits.max.value)
  {
    if limits.max.Some? && replyMax > limits.max.value {
      assert ReplyTtl(limits, Some(replyMax), replyMax) != Min(limits.Apply(replyMax), replyMax);
    }
  }

  function IpCount(answers: seq<Record>): nat {
    if answers == [] then 0
    else IpCount(answers[..|answers| - 1]) + if answers[|answers| - 1].data.Ip? then 1 else 0
  }

  lemma {:induction false} IpCountMonotone(answers: seq<Record>, k: nat)
    requires k <= |answers|
    ensures IpCount(answers[..k]) <= IpCount(answers)
  {
    if k < |answers| {
      IpCountMonotone(answers[..|answers| - 1], k);
      assert answers[..|answers| - 1][..k] == answers[..k];
    } else {
      assert answers[..k] == answers;
    }
  }

  /** Keeps the answers through the `limit`-th address: the shortest prefix with as many addresses as are allowed. */
  method TruncateAnswers(answers: seq<Record>, limit: nat) returns (r: seq<Record>)
    ensures r <= answers
    ensures limit == 0 ==> r == answers
    ensures limit > 0 ==> IpCount(r) == Min(limit, IpCount(answers))
    ensures r != answers ==> IpCount(r) == limit && r != [] && r[|r| - 1].data.Ip?
  {
    r := answers;
    if limit == 0 { return; }
    var left := limit;
    for i := 0 to |answers|
      invariant left > 0 && IpCount(answers[..i]) + left == limit
    {
      assert answers[..i + 1][..i] == answers[..i];
      if answers[i].data.Ip? {
        left := left - 1;
        if left == 0 {
          IpCountMonotone(answers, i + 1);
          return answers[..i + 1];
        }
      }
    }
    assert answers[..|answers|] == answers;
  }

  /** Rewrites the TTL of each answer in place. */
  method ClampAnswers(answers: array<Record>, limits: Limits, replyMax: Option<nat>)
    modifies answers
    ensures answers.Length == |old(answers[..])|
    ensures forall i :: 0 <= i < answers.Length ==>
              answers[i] == old(answers[i]).(ttl := ReplyTtl(limits, replyMax, old(answers[i]).ttl))
  {
    if limits.min.None? && limits.max.None? && replyMax.None? { return; }
    for i := 0 to answers.Length
      invariant forall j :: 0 <= j < i ==>
                  answers[j] == old(answers[j]).(ttl := ReplyTtl(limits, replyMax, old(answers[j]).ttl))
      invariant forall j :: i <= j < answers.Length ==> answers[j] == old(answers[j])
    {
      if limits.min.Some? && answers[i].ttl < limits.min.value { answers[i] := answers[i].(ttl := limits.min.value); }
      if replyMax.Some? {
        if answers[i].ttl > replyMax.value { answers[i] := answers[i].(ttl := replyMax.value); }
      } else if limits.max.Some? && answers[i].ttl > limits.max.value {
        answers[i] := answers[i].(ttl := limits.max.value);
      }
    }
  }
}
