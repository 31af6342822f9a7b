/** Which answers the cache stores: the request path and the speed-check path (src/dns_mw_cache.rs,
    src/dns_mw_bogus.rs). */
module Admission {
  import opened Common
  import opened WireNames
  import opened Messages
  import opened Lookups
  import opened Responses
  import opened CacheEntries
  import opened Cache
  import opened CacheRuns
  import opened TtlLimits

  /** A response without answers, with the code and the SOA an error carries. */
  function EmptyResponse(query: Query, rcode: ResponseCode, soa: seq<Record>, now: int): Response {
    var header := Header(0, true, 0, false, false, true, false, false, false, rcode);
    Response(Message(header, [query], [], soa, [], None), None, None, now + 86400 * SECOND, None, Unchecked)
  }

  function AsNoRecordsResponse(r: LookupResult, query: Query, now: int): Option<Response> {
    match r
    case CodeError(code) => Some(EmptyResponse(query, code, [], now))
    case NoRecords(code, soa) => Some(EmptyResponse(query, code, if soa.Some? then [soa.value] else [], now))
    case _ => None
  }

  predicate HasBogus(bogus: set<IpAddr>, r: Response) {
    exists i :: 0 <= i < |r.message.answers| && r.message.answers[i].data.Ip? && r.message.answers[i].data.addr in bogus
  }

  /** What the cache gets from the middlewares below it: an upstream result without bogus addresses, or the empty
      answer dual-stack selection puts in its place. */
  function NextResult(bogus: set<IpAddr>, query: Query, upstream: LookupResult, noData: Option<nat>,
                      now: int): LookupResult {
    if noData.Some? then Answer(EmptyResponse(query, NO_ERROR, [Record(query.name, noData.value, DEFAULT_SOA)], now))
    else if IsIpAddr(query.qtype) && upstream.Answer? && HasBogus(bogus, upstream.response) then CodeError(NX_DOMAIN)
    else upstream
  }

  function MinTtl(answers: seq<Record>): Option<nat> {
    if answers == [] then None
    else match MinTtl(answers[1..]) case None => Some(answers[0].ttl) case Some(t) => Some(Min(answers[0].ttl, t))
  }

  datatype Store = Store(response: Response, ttl: nat)

  /** The caching part of `DnsCacheMiddleware::handle`: what is stored, if anything. */
  function RequestStore(query: Query, result: LookupResult, limits: Limits, noCache: bool, now: int): Option<Store> {
    var res := if IsNegativeError(result) then AsNoRecordsResponse(result, query, now)
               else if result.Answer? then Some(result.response) else None;
    if res.None? then None
    else
      var lookup := res.value;
      match NegativeTtl(lookup.message)
      case Some(ttl) => if limits.Apply(ttl) > 0 && !noCache then Some(Store(lookup, limits.Apply(ttl))) else None
      case None =>
        if !HasType(lookup.message.answers, query.qtype) || noCache then None
        else match MinTtl(lookup.message.answers)
          case None => Some(Store(lookup, 0))
          case Some(ttl) => Some(Store(lookup, limits.Apply(ttl)))
  }

  /** What a finished speed check stores. */
  function SpeedCheckStore(bogus: set<IpAddr>, query: Query, result: LookupResult, limits: Limits): Option<Store> {
    if result.Answer? && HasType(result.response.message.answers, query.qtype) && !HasBogus(bogus, result.response)
    then Some(Store(result.response,
                    limits.Apply(match MinTtl(result.response.message.answers) case None => 0 case Some(t) => t)))
    else None
  }

  /** A stored answer is negative with an SOA or has a record of the type asked for, and an address answer has no bogus
      address. */
  predicate Admissible(bogus: set<IpAddr>, qtype: RecordType, r: Response) {
    && ((Negative(r) && HasType(r.message.authorities, SOA)) || HasType(r.message.answers, qtype))
    && (IsIpAddr(qtype) ==> !HasBogus(bogus, r))
  }

  /** An error stands for a negative reply exactly when the answer made of it is a valid response. */
  lemma NegativeErrorIff(r: LookupResult, query: Query, now: int)
    requires r != CodeError(NO_ERROR) && !r.Answer?
    ensures IsNegativeError(r) <==>
            AsNoRecordsResponse(r, query, now).Some?
                && IsValidResponse(Answer(AsNoRecordsResponse(r, query, now).value))
    ensures IsValidResponse(r) <==> IsNegativeError(r)
    ensures AsNoRecordsResponse(r, query, now).Some? ==>
              var m := AsNoRecordsResponse(r, query, now).value.message;
              && m.header.response && m.header.rcode == r.rcode && m.queries == [query] && m.answers == []
              && m.authorities == if r.NoRecords? && r.soa.Some? then [r.soa.value] else []
  {
  }

  /** `t` is the least TTL of the answers. */
  ghost predicate LeastTtl(answers: seq<Record>, t: nat) {
    && (forall i :: 0 <= i < |answers| ==> t <= answers[i].ttl)
    && exists i :: 0 <= i < |answers| && t == answers[i].ttl
  }

  lemma {:induction false} MinTtlIsLeast(answers: seq<Record>)
    ensures MinTtl(answers).None? <==> answers == []
    ensures MinTtl(answers).Some? ==> LeastTtl(answers, MinTtl(answers).value)
  {
    if answers != [] {
      MinTtlIsLeast(answers[1..]);
      assert forall i :: 1 <= i < |answers| ==> answers[i] == answers[1..][i - 1];
      if |answers| > 1 {
        var t := MinTtl(answers[1..]).value;
        var i :| 0 <= i < |answers[1..]| && t == answers[1..][i].ttl;
        assert answers[i + 1].ttl == t;
      }
    }
  }

  /** What a request stores, and for how long: a negative answer for the lifetime its SOA allows within the limits,
      unless that is zero; an answer with a record of the type asked for, for its least TTL within the limits; nothing
      else, and nothing at all without caching. */
  lemma RequestStoresIff(query: Query, r: Response, limits: Limits, noCache: bool, now: int)
    ensures var s := RequestStore(query, Answer(r), limits, noCache, now);
            match NegativeTtl(r.message)
            case Some(ttl) =>
              && (s.Some? <==> !noCache && limits.Apply(ttl) > 0)
                 && (s.Some? ==> s.value == Store(r, limits.Apply(ttl)))
            case None =>
              && (s.Some? <==> !noCache && exists i :: 0 <= i < |r.message.answers|
                                                       && RecordTypeOf(r.message.answers[i]) == query.qtype)
              && (s.Some? ==> s.value.response == r
                              && exists t :: LeastTtl(r.message.answers, t) && s.value.ttl == limits.Apply(t))
  {
    hide NegativeTtl;
    MinTtlIsLeast(r.message.answers);
  }

  /** Negative errors are stored as the answers they stand for, and other errors are not stored. */
  lemma RequestStoresErrors(query: Query, r: LookupResult, limits: Limits, noCache: bool, now: int)
    requires !r.Answer?
    ensures RequestStore(query, r, limits, noCache, now) ==
            if IsNegativeError(r)
            then RequestStore(query, Answer(AsNoRecordsResponse(r, query, now).value), limits, noCache, now) else None
  {
    hide NegativeTtl, MinTtl, HasType, EmptyResponse;
  }

  /** An address answer with a bogus address becomes an NXDOMAIN, which is not stored. */
  lemma BogusIsNxDomain(bogus: set<IpAddr>, query: Query, r: Response, limits: Limits, noCache: bool, now: int, i: nat)
    requires query.qtype == A || query.qtype == AAAA
    requires i < |r.message.answers| && r.message.answers[i].data.Ip? && r.message.answers[i].data.addr in bogus
    ensures NextResult(bogus, query, Answer(r), None, now) == CodeError(NX_DOMAIN)
    ensures RequestStore(query, CodeError(NX_DOMAIN), limits, noCache, now) == None
  {
    NegativeTtlIsLeast(EmptyResponse(query, NX_DOMAIN, [], now).message);
  }

  /** What a finished speed check stores: an answer with a record of the type asked for and without bogus addresses, for
      its least TTL within the limits. */
  lemma SpeedCheckStoresIff(bogus: set<IpAddr>, query: Query, r: Response, limits: Limits)
    ensures var s := SpeedCheckStore(bogus, query, Answer(r), limits);
            && (s.Some? <==>
                  && (exists i :: 0 <= i < |r.message.answers| && RecordTypeOf(r.message.answers[i]) == query.qtype)
                  && forall i :: 0 <= i < |r.message.answers| && r.message.answers[i].data.Ip? ==>
                       r.message.answers[i].data.addr !in bogus)
            && (s.Some? ==> s.value.response == r
                            && exists t :: LeastTtl(r.message.answers, t) && s.value.ttl == limits.Apply(t))
  {
    MinTtlIsLeast(r.message.answers);
  }

  lemma RequestStoreIsAdmissible(bogus: set<IpAddr>, query: Query, upstream: LookupResult, noData: Option<nat>,
                                 limits: Limits, noCache: bool, now: int)
    ensures var s := RequestStore(query, NextResult(bogus, query, upstream, noData, now), limits, noCache, now);
            s.Some? ==> !noCache && Admissible(bogus, query.qtype, s.value.response)
  {
    hide HasType;
    var s := RequestStore(query, NextResult(bogus, query, upstream, noData, now), limits, noCache, now);
    if s.Some? { NegativeTtlIsLeast(s.value.response.message); }
  }

  lemma SpeedCheckStoreIsAdmissible(bogus: set<IpAddr>, query: Query, result: LookupResult, limits: Limits)
    ensures var s := SpeedCheckStore(bogus, query, result, limits);
            s.Some? ==> Admissible(bogus, query.qtype, s.value.response)
  {
  }

  // ---- Over runs ----

  ghost predicate PathStore(bogus: set<IpAddr>, op: Op, query: Query, upstream: LookupResult, noData: Option<nat>,
                            limits: Limits, noCache: bool, now: int)
    requires op.InsertOp?
  {
    var next := NextResult(bogus, query, upstream, noData, now);
    || RequestStore(query, next, limits, noCache, now) == Some(Store(op.response, op.ttl))
    || SpeedCheckStore(bogus, query, upstream, limits) == Some(Store(op.response, op.ttl))
  }

  /** The operation stores what one of the two paths decided for a request that asked `query`. */
  ghost predicate StoresFor(bogus: set<IpAddr>, op: Op, query: Query)
    requires op.InsertOp?
  {
    exists upstream, noData, limits, noCache, now :: PathStore(bogus, op, query, upstream, noData, limits, noCache, now)
  }

  /** A run that loads no file, with the query of the request behind each operation that stores. */
  ghost predicate Decided(bogus: set<IpAddr>, ops: seq<Op>, asked: seq<Query>) {
    && |asked| == |ops|
    && (forall i :: 0 <= i < |ops| ==> !ops[i].LoadOp?)
    && (forall i :: 0 <= i < |ops| && ops[i].InsertOp? ==> StoresFor(bogus, ops[i], asked[i]))
  }

  lemma StoresAdmissible(bogus: set<IpAddr>, op: Op, query: Query)
    requires op.InsertOp? && StoresFor(bogus, op, query)
    ensures Admissible(bogus, query.qtype, Stored(op.response, op.now, op.ttl, op.group))
  {
    hide RequestStore, SpeedCheckStore, NextResult, HasType;
    var upstream, noData, limits, noCache, now :| PathStore(bogus, op, query, upstream, noData, limits, noCache, now);
    RequestStoreIsAdmissible(bogus, query, upstream, noData, limits, noCache, now);
    SpeedCheckStoreIsAdmissible(bogus, query, upstream, limits);
  }

  /** An entry holds what operation `i` stored, the last to store its key, and that is admissible for what was asked. */
  ghost predicate AdmittedBy(bogus: set<IpAddr>, ops: seq<Op>, asked: seq<Query>, i: nat, x: Slot)
    requires |asked| == |ops|
  {
    StoredBy(ops, i, x) && Admissible(bogus, asked[i].qtype, x.entry.data)
  }

  ghost predicate Admitted(bogus: set<IpAddr>, ops: seq<Op>, asked: seq<Query>, x: Slot)
    requires |asked| == |ops|
  {
    exists i: nat :: AdmittedBy(bogus, ops, asked, i, x)
  }

  ghost predicate AllAdmitted(bogus: set<IpAddr>, ops: seq<Op>, asked: seq<Query>, s: Slots)
    requires |asked| == |ops|
  {
    forall k :: 0 <= k < |s| ==> Admitted(bogus, ops, asked, s[k])
  }

  /** On every run without a load, each entry was stored for a request and is admissible for the type it asked for. */
  lemma RunKeepsAdmissible(cfg: Config, bogus: set<IpAddr>, ops: seq<Op>, asked: seq<Query>)
    requires cfg.capacity > 0 && AllAllowed(cfg, ops) && Decided(bogus, ops, asked)
    ensures AllAdmitted(bogus, ops, asked, Run(cfg, [], ops))
  {
    RunHoldsLastStored(cfg, ops);
    var s := Run(cfg, [], ops);
    hide StoresFor, Admissible, Run;
    forall k | 0 <= k < |s| ensures Admitted(bogus, ops, asked, s[k]) {
      assert HasSource(ops, s[k]);
      var i: nat :| StoredBy(ops, i, s[k]);
      StoresAdmissible(bogus, ops[i], asked[i]);
      assert AdmittedBy(bogus, ops, asked, i, s[k]);
    }
  }

  // ---- The type of the key ----

  /** The question of each stored answer has the type that was asked for. */
  ghost predicate KeyedAsAsked(ops: seq<Op>, asked: seq<Query>)
    requires |asked| == |ops|
  {
    forall i :: 0 <= i < |ops| && ops[i].InsertOp? ==> QueryOf(ops[i].response.message).qtype == asked[i].qtype
  }

  /** An entry is keyed by the question its answer carries. When that has the type that was asked for, each entry is
      admissible for the type of its own key. */
  lemma RunKeepsOwnType(cfg: Config, bogus: set<IpAddr>, ops: seq<Op>, asked: seq<Query>)
    requires cfg.capacity > 0 && AllAllowed(cfg, ops) && Decided(bogus, ops, asked) && KeyedAsAsked(ops, asked)
    ensures var s := Run(cfg, [], ops);
            forall k :: 0 <= k < |s| ==> Admissible(bogus, s[k].query.qtype, s[k].entry.data)
  {
    RunKeepsAdmissible(cfg, bogus, ops, asked);
    hide Admissible, Run, Decided;
    var s := Run(cfg, [], ops);
    forall k | 0 <= k < |s| ensures Admissible(bogus, s[k].query.qtype, s[k].entry.data) {
      assert Admitted(bogus, ops, asked, s[k]);
      var i: nat :| AdmittedBy(bogus, ops, asked, i, s[k]);
    }
  }

  /** What a request for `query` stores of an upstream's answer, if anything, is admissible for the type of its key. */
  predicate OwnTypeStored(bogus: set<IpAddr>, query: Query, upstream: Response, limits: Limits, now: int) {
    var s := RequestStore(query, NextResult(bogus, query, Answer(upstream), None, now), limits, false, now);
    s.Some? ==> Admissible(bogus, QueryOf(s.value.response.message).qtype, s.value.response)
  }

  /** Some record data of each type. */
  function DataOf(t: RecordType): (d: RData)
    ensures TypeOf(d) == t
  {
    match t
    case A => Ip(V4(0))
    case AAAA => Ip(V6(0))
    case CNAME => Cname([])
    case SOA => Soa(0, "")
    case Other(code) => OtherData(code, [])
  }

  /** An answer whose question is `question` and whose one record has type `t`. */
  function AnswerWith(question: Query, t: RecordType, header: Header): Response {
    var m := Message(header, [question], [Record(question.name, 60, DataOf(t))], [], [], None);
    Response(m, None, None, 0, None, Unchecked)
  }

  /** It holds of every upstream answer with a given question exactly when the question has the type that was asked. */
  lemma OwnTypeIff(query: Query, question: Query, limits: Limits, now: int)
    ensures (forall bogus, upstream: Response ::
               QueryOf(upstream.message) == question ==> OwnTypeStored(bogus, query, upstream, limits, now))
            <==> question.qtype == query.qtype
  {
    if question.qtype == query.qtype {
      forall bogus, upstream: Response | QueryOf(upstream.message) == question
        ensures OwnTypeStored(bogus, query, upstream, limits, now)
      {
        OwnTypeWhenAsked(bogus, query, upstream, limits, now);
      }
    } else {
      ForeignQuestion(query, question, limits, now);
    }
  }

  lemma OwnTypeWhenAsked(bogus: set<IpAddr>, query: Query, upstream: Response, limits: Limits, now: int)
    requires QueryOf(upstream.message).qtype == query.qtype
    ensures OwnTypeStored(bogus, query, upstream, limits, now)
  {
    RequestStoreIsAdmissible(bogus, query, Answer(upstream), None, limits, false, now);
  }

  /** An answer to another question is stored under that question, without any record of its type. */
  lemma ForeignQuestion(query: Query, question: Query, limits: Limits, now: int)
    requires question.qtype != query.qtype
    ensures var r := AnswerWith(question, query.qtype,
                                Header(0, true, 0, false, false, true, true, false, false, NO_ERROR));
            && QueryOf(r.message) == question && !OwnTypeStored({}, query, r, limits, now)
            && !HasType(r.message.answers, question.qtype)
  {
    var r := AnswerWith(question, query.qtype, Header(0, true, 0, false, false, true, true, false, false, NO_ERROR));
    assert RecordTypeOf(r.message.answers[0]) == query.qtype;
    assert HasType(r.message.answers, query.qtype);
    assert NextResult({}, query, Answer(r), None, now) == Answer(r);
    assert SoaTtl(r.message.authorities) == None;
  }

  /** The test of the client for plain UDP upstreams: each question of an answer is the one that was asked. */
  predicate UdpPasses(query: Query, m: Message) { forall i :: 0 <= i < |m.queries| ==> m.queries[i] == query }

  /** It lets an answer without a question pass, which is stored under the default key: the address of the root. */
  lemma QuestionlessAnswer(query: Query, limits: Limits, now: int)
    requires query.qtype != A
    ensures var header := Header(0, true, 0, false, false, true, true, false, false, NO_ERROR);
            var r := AnswerWith(query, query.qtype, header);
            var r' := r.(message := r.message.(queries := []));
            && UdpPasses(query, r'.message) && !OwnTypeStored({}, query, r', limits, now)
            && QueryOf(r'.message) == Query([], A, 1) && !HasType(r'.message.answers, A)
  {
    var r := AnswerWith(query, query.qtype, Header(0, true, 0, false, false, true, true, false, false, NO_ERROR));
    var r' := r.(message := r.message.(queries := []));
    assert RecordTypeOf(r'.message.answers[0]) == query.qtype;
    assert HasType(r'.message.answers, query.qtype);
    assert NextResult({}, query, Answer(r'), None, now) == Answer(r');
    assert SoaTtl(r'.message.authorities) == None;
  }

  /** So of the answers that come over plain UDP, all are stored as admissible for their key exactly when an IPv4
      address was asked for. */
  lemma UdpOwnTypeIff(query: Query, limits: Limits, now: int)
    ensures (forall bogus, upstream: Response ::
               UdpPasses(query, upstream.message) ==> OwnTypeStored(bogus, query, upstream, limits, now))
            <==> query.qtype == A
  {
    if query.qtype == A {
      forall bogus, upstream: Response | UdpPasses(query, upstream.message)
        ensures OwnTypeStored(bogus, query, upstream, limits, now)
      {
        OwnTypeWhenAsked(bogus, query, upstream, limits, now);
      }
    } else {
      QuestionlessAnswer(query, limits, now);
    }
  }

  /** So can a bogus address be stored for an address question, when another type was asked for. */
  lemma BogusUnderForeignQuestion(name: Labels, bogus: set<IpAddr>, addr: IpAddr, limits: Limits, now: int, r: Response)
    requires addr in bogus && addr.V4?
    requires var header := Header(0, true, 0, false, false, true, true, false, false, NO_ERROR);
             var answers := [Record(name, 60, Cname(name)), Record(name, 60, Ip(addr))];
             r == Response(Message(header, [Query(name, A, 1)], answers, [], [], None), None, None, 0, None, Unchecked)
    ensures var s := RequestStore(Query(name, CNAME, 1), NextResult(bogus, Query(name, CNAME, 1), Answer(r), None, now),
                                  limits, false, now);
            s.Some? && s.value.response == r && HasBogus(bogus, r) && QueryOf(r.message).qtype == A
  {
    assert RecordTypeOf(r.message.answers[0]) == CNAME && RecordTypeOf(r.message.answers[1]) == A;
    assert HasType(r.message.answers, A) && HasType(r.message.answers, CNAME);
    assert r.message.answers[1].data.Ip?;
  }
}
