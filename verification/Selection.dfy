/** Selecting an address answer by probing, for every order in which queries and probes complete (src/dns_mw_ns.rs). */
module Selection {
  import opened Common
  import opened WireNames
  import opened Messages
  import opened Lookups

  // ---- The answer `fastest-response` gives ----

  /** The first valid result if there is one, and the last result otherwise. */
  function FirstValidOrLast(rs: seq<LookupResult>): LookupResult
    requires rs != []
  {
    if |rs| == 1 || IsValidResponse(rs[0]) then rs[0] else FirstValidOrLast(rs[1..])
  }

  /** `FastestResponse` over the results in the order they arrive. */
  method FastestResponse(arrivals: seq<LookupResult>) returns (r: LookupResult)
    requires arrivals != []
    ensures r == FirstValidOrLast(arrivals)
  {
    var tasks := arrivals;
    while true
      invariant tasks != [] && FirstValidOrLast(tasks) == FirstValidOrLast(arrivals)
      decreases |tasks|
    {
      var res, rest := tasks[0], tasks[1..];
      if IsValidResponse(res) || rest == [] { return res; }
      tasks := rest;
    }
  }

  lemma {:induction false} FirstValidInPrefix(rs: seq<LookupResult>, k: nat)
    requires k < |rs| && forall i :: 0 <= i < k ==> !IsValidResponse(rs[i])
    requires IsValidResponse(rs[k]) || k == |rs| - 1
    ensures FirstValidOrLast(rs) == rs[k]
  {
    if k > 0 { FirstValidInPrefix(rs[1..], k - 1); }
  }

  // ---- Collected answers ----

  function Oks(rs: seq<LookupResult>): seq<Response> {
    if rs == [] then []
    else Oks(rs[..|rs| - 1]) + if rs[|rs| - 1].Answer? then [rs[|rs| - 1].response] else []
  }

  function Errs(rs: seq<LookupResult>): seq<LookupResult> {
    if rs == [] then []
    else Errs(rs[..|rs| - 1]) + if rs[|rs| - 1].Answer? then [] else [rs[|rs| - 1]]
  }

  /** Every query ends up collected, as an answer or as an error. */
  lemma {:induction false} TasksAreConserved(rs: seq<LookupResult>)
    ensures |Oks(rs)| + |Errs(rs)| == |rs|
  {
    if rs != [] { TasksAreConserved(rs[..|rs| - 1]); }
  }

  /** The addresses of an answer, in order. */
  function IpAddrs(answers: seq<Record>): seq<IpAddr> {
    if answers == [] then []
    else (if answers[0].data.Ip? then [answers[0].data.addr] else []) + IpAddrs(answers[1..])
  }

  function AllIps(ok: seq<Response>): seq<IpAddr> {
    if ok == [] then [] else AllIps(ok[..|ok| - 1]) + IpAddrs(ok[|ok| - 1].message.answers)
  }

  lemma AllIpsAppend(ok: seq<Response>, r: Response)
    ensures AllIps(ok + [r]) == AllIps(ok) + IpAddrs(r.message.answers)
  {
  }

  function Count(ips: seq<IpAddr>, ip: IpAddr): nat { multiset(ips)[ip] }

  // ---- The answer for one address ----

  predicate IsFor(r: Record, ip: IpAddr) { r.data.Ip? && r.data.addr == ip }

  /** The first record with an address. */
  function FirstRecord(answers: seq<Record>, ip: IpAddr): (r: Option<nat>)
    ensures r.None? <==> ip !in IpAddrs(answers)
    ensures r.Some? ==> r.value < |answers| && IsFor(answers[r.value], ip)
    ensures r.Some? ==> forall i :: 0 <= i < r.value ==> !IsFor(answers[i], ip)
  {
    if answers == [] then None
    else
      var head := if answers[0].data.Ip? then [answers[0].data.addr] else [];
      assert IpAddrs(answers) == head + IpAddrs(answers[1..]);
      hide IpAddrs;
      if IsFor(answers[0], ip) then Some(0)
      else match FirstRecord(answers[1..], ip) case None => None case Some(i) => Some(i + 1)
  }

  /** A response reduced to one record, which answers the name that was asked. */
  function Reduced(r: Response, i: nat, name: Labels, probe: ProbeResult): Response
    requires i < |r.message.answers|
  {
    r.(message := r.message.(answers := [r.message.answers[i].(name := name)]), preparedWire := None, wireLen := None,
       probe := probe)
  }

  /** The first response with an address, reduced to its first record for it. */
  function AnswerFor(ok: seq<Response>, ip: IpAddr, name: Labels, probe: ProbeResult): Option<Response> {
    if ok == [] then None
    else match FirstRecord(ok[0].message.answers, ip)
      case Some(i) => Some(Reduced(ok[0], i, name, probe))
      case None => AnswerFor(ok[1..], ip, name, probe)
  }

  lemma {:induction false} AllIpsSplit(ok: seq<Response>)
    requires ok != []
    ensures AllIps(ok) == IpAddrs(ok[0].message.answers) + AllIps(ok[1..])
  {
    hide IpAddrs;
    var init := ok[..|ok| - 1];
    if |ok| == 1 {
      assert init == [] && ok[1..] == [];
    } else {
      AllIpsSplit(init);
      var first, last := IpAddrs(ok[0].message.answers), IpAddrs(ok[|ok| - 1].message.answers);
      assert ok[1..][..|ok| - 2] == init[1..];
      assert first + (AllIps(init[1..]) + last) == first + AllIps(init[1..]) + last;
    }
  }

  /** `a` is made of record `i` of answer `k`, the first with the address: it is the only record left and answers the
      name asked, its TTL and data are its own, what else the message holds stays, and the old encoding is gone. */
  ghost predicate MadeOf(ok: seq<Response>, k: nat, i: nat, ip: IpAddr, name: Labels, probe: ProbeResult, a: Response) {
    && k < |ok| && i < |ok[k].message.answers|
    && var m, record := ok[k].message, ok[k].message.answers[i];
       && record.data == Ip(ip)
       && (forall l :: 0 <= l < k ==> ip !in IpAddrs(ok[l].message.answers))
       && (forall j :: 0 <= j < i ==> m.answers[j].data != Ip(ip))
       && a.message.answers == [Record(name, record.ttl, record.data)]
       && a.message == Message(m.header, m.queries, a.message.answers, m.authorities, m.additionals, m.edns)
       && a.preparedWire == None && a.wireLen == None && a.probe == probe
       && a.validUntil == ok[k].validUntil && a.group == ok[k].group
  }

  lemma MadeOfLater(ok: seq<Response>, k: nat, i: nat, ip: IpAddr, name: Labels, probe: ProbeResult, a: Response)
    requires ok != [] && ip !in IpAddrs(ok[0].message.answers) && MadeOf(ok[1..], k, i, ip, name, probe, a)
    ensures MadeOf(ok, k + 1, i, ip, name, probe, a)
  {
    hide IpAddrs;
    forall l | 0 <= l < k + 1 ensures ip !in IpAddrs(ok[l].message.answers) {
      if l > 0 { assert ok[l] == ok[1..][l - 1]; }
    }
  }

  /** An address that occurs in some answer has an answer: one record, named by the query, with that address. */
  lemma {:induction false} AnswerForCollected(ok: seq<Response>, ip: IpAddr, name: Labels, probe: ProbeResult)
    requires ip in AllIps(ok)
    ensures var a := AnswerFor(ok, ip, name, probe);
            a.Some? && a.value.probe == probe && |a.value.message.answers| == 1
            && a.value.message.answers[0].name == name && IsFor(a.value.message.answers[0], ip)
            && exists k, i :: MadeOf(ok, k, i, ip, name, probe, a.value)
  {
    AllIpsSplit(ok);
    var at := FirstRecord(ok[0].message.answers, ip);
    hide IpAddrs, AllIps;
    if at.None? {
      AnswerForCollected(ok[1..], ip, name, probe);
      var k: nat, i: nat :| MadeOf(ok[1..], k, i, ip, name, probe, AnswerFor(ok, ip, name, probe).value);
      MadeOfLater(ok, k, i, ip, name, probe, AnswerFor(ok, ip, name, probe).value);
    } else {
      assert MadeOf(ok, 0, at.value, ip, name, probe, AnswerFor(ok, ip, name, probe).value);
    }
  }

  /** The end of a selection: the answer for the selected address, else the first answer, else the first error. Neither
      place the program holds unreachable is reached. */
  method Conclude(name: Labels, selected: Option<IpAddr>, probe: ProbeResult, ok: seq<Response>,
                  err: seq<LookupResult>) returns (r: LookupResult)
    requires selected.Some? ==> selected.value in AllIps(ok)
    requires ok != [] || err != []
    ensures selected.Some? ==> AnswerFor(ok, selected.value, name, probe).Some?
                               && r == Answer(AnswerFor(ok, selected.value, name, probe).value)
    ensures selected.None? ==> r == if ok != [] then Answer(ok[0]) else err[0]
  {
    if selected.Some? {
      ghost var target := AnswerFor(ok, selected.value, name, probe);
      AnswerForCollected(ok, selected.value, name, probe);
      for k := 0 to |ok|
        invariant AnswerFor(ok[k..], selected.value, name, probe) == target
      {
        var i := FirstRecord(ok[k].message.answers, selected.value);
        assert ok[k..][0] == ok[k] && ok[k..][1..] == ok[k + 1..];
        if i.Some? { return Answer(Reduced(ok[k], i.value, name, probe)); }
      }
      assert false;
    }
    r := if ok != [] then Answer(ok[0]) else err[0];
  }

  // ---- Counting ----

  /** A most frequent key, whichever the hash map gives first. */
  method MaxByCount(stats: map<IpAddr, nat>) returns (best: Option<IpAddr>)
    ensures best.None? <==> stats == map[]
    ensures best.Some? ==> best.value in stats && forall ip :: ip in stats ==> stats[ip] <= stats[best.value]
  {
    best := None;
    var left := stats.Keys;
    while left != {}
      invariant left <= stats.Keys
      invariant best.None? ==> left == stats.Keys
      invariant best.Some? ==>
                  best.value in stats && forall ip :: ip in stats && ip !in left ==> stats[ip] <= stats[best.value]
      decreases left
    {
      var ip :| ip in left;
      if best.None? || stats[ip] >= stats[best.value] { best := Some(ip); }
      left := left - {ip};
    }
  }

  /** Counts with `modulus`: `u8` counts wrap at 256, `usize` counts do not wrap within any real number of answers. */
  ghost predicate Counts(stats: map<IpAddr, nat>, ips: seq<IpAddr>, modulus: nat) {
    && (forall ip :: ip in stats <==> ip in ips)
    && (forall ip :: ip in stats ==> stats[ip] == Wrapped(Count(ips, ip), modulus))
  }

  function Wrapped(n: nat, modulus: nat): nat { if modulus == 0 then n else n % modulus }

  lemma CountAppend(ips: seq<IpAddr>, ip: IpAddr, other: IpAddr)
    ensures Count(ips + [ip], other) == Count(ips, other) + if ip == other then 1 else 0
  {
  }

  lemma NotCounted(ips: seq<IpAddr>, ip: IpAddr)
    ensures Count(ips, ip) == 0 <==> ip !in ips
  {
  }

  // ---- FastestIp ----

  /** What a finished selection among probed addresses answers. */
  ghost predicate FastestAnswer(name: Labels, arrivals: seq<LookupResult>, probe: IpAddr -> Option<nat>,
                                r: LookupResult) {
    var ok, err := Oks(arrivals), Errs(arrivals);
    var ips := AllIps(ok);
    if ips == [] then (if ok != [] then r == Answer(ok[0]) else err != [] && r == err[0])
    else exists ip :: ip in ips && SelectedFastest(name, ok, probe, ip, r)
  }

  /** The answer for an address with the least elapsed time of all that replied; if none did, for one with the
      greatest count, as the 8-bit counters have it. */
  ghost predicate SelectedFastest(name: Labels, ok: seq<Response>, probe: IpAddr -> Option<nat>, ip: IpAddr,
                                  r: LookupResult) {
    var ips := AllIps(ok);
    if exists other :: other in ips && probe(other).Some? then
      && probe(ip).Some?
      && (forall other :: other in ips && probe(other).Some? ==> probe(ip).value <= probe(other).value)
      && AnswerFor(ok, ip, name, Measured(probe(ip).value)) == AnswerOf(r)
    else
      && (forall other :: other in ips ==> Count(ips, other) % 256 <= Count(ips, ip) % 256)
      && AnswerFor(ok, ip, name, Failed) == AnswerOf(r)
  }

  function AnswerOf(r: LookupResult): Option<Response> { if r.Answer? then Some(r.response) else None }

  ghost predicate NoDuplicates(s: seq<IpAddr>) { forall i, j :: 0 <= i < j < |s| ==> s[i] != s[j] }

  /** The best of the probes that have replied. */
  ghost predicate Fastest(best: Option<(IpAddr, nat)>, done: set<IpAddr>, probe: IpAddr -> Option<nat>) {
    && (best.None? ==> forall ip :: ip in done ==> probe(ip).None?)
    && (best.Some? ==>
          && best.value.0 in done && probe(best.value.0) == Some(best.value.1)
          && forall ip :: ip in done && probe(ip).Some? ==> best.value.1 <= probe(ip).value)
  }

  /** The probes under way and done, for the addresses seen so far: each was started once. */
  ghost predicate Probing(stats: map<IpAddr, nat>, pings: set<IpAddr>, probed: seq<IpAddr>, done: set<IpAddr>,
                          ips: seq<IpAddr>) {
    && Counts(stats, ips, 256)
    && NoDuplicates(probed)
    && (forall ip :: ip in probed <==> ip in ips)
    && done !! pings
    && (forall ip :: ip in probed <==> ip in done || ip in pings)
  }

  lemma CountOne(stats: map<IpAddr, nat>, ips: seq<IpAddr>, ip: IpAddr)
    requires Counts(stats, ips, 256)
    ensures Counts(stats[ip := ((if ip in stats then stats[ip] else 0) + 1) % 256], ips + [ip], 256)
  {
    NotCounted(ips, ip);
    hide Count;
    forall other ensures Count(ips + [ip], other) == Count(ips, other) + if ip == other then 1 else 0 {
      CountAppend(ips, ip, other);
    }
  }

  /** Counts one address, and starts a probe of it when it is new. */
  method AddAddress(stats0: map<IpAddr, nat>, pings0: set<IpAddr>, probed0: seq<IpAddr>, ip: IpAddr,
                    ghost done: set<IpAddr>, ghost ips: seq<IpAddr>)
    returns (stats: map<IpAddr, nat>, pings: set<IpAddr>, probed: seq<IpAddr>)
    requires Probing(stats0, pings0, probed0, done, ips)
    ensures Probing(stats, pings, probed, done, ips + [ip])
  {
    CountOne(stats0, ips, ip);
    stats, pings, probed := stats0, pings0, probed0;
    var n := 0;
    if ip in stats {
      n := stats[ip];
    } else {
      probed, pings := probed + [ip], pings + {ip};
    }
    stats := stats[ip := (n + 1) % 256];
  }

  /** Adds one answer's addresses. */
  method AddAddresses(stats0: map<IpAddr, nat>, pings0: set<IpAddr>, probed0: seq<IpAddr>, addrs: seq<IpAddr>,
                      ghost done: set<IpAddr>, ghost ips: seq<IpAddr>)
    returns (stats: map<IpAddr, nat>, pings: set<IpAddr>, probed: seq<IpAddr>)
    requires Probing(stats0, pings0, probed0, done, ips)
    ensures Probing(stats, pings, probed, done, ips + addrs)
  {
    hide Probing;
    stats, pings, probed := stats0, pings0, probed0;
    assert ips + addrs[..0] == ips;
    for k := 0 to |addrs|
      invariant Probing(stats, pings, probed, done, ips + addrs[..k])
    {
      assert ips + addrs[..k + 1] == ips + addrs[..k] + [addrs[k]];
      stats, pings, probed := AddAddress(stats, pings, probed, addrs[k], done, ips + addrs[..k]);
    }
    assert addrs[..|addrs|] == addrs;
  }

  /** A probe completes. */
  lemma ProbeDone(stats: map<IpAddr, nat>, pings: set<IpAddr>, probed: seq<IpAddr>, done: set<IpAddr>,
                  ips: seq<IpAddr>, ip: IpAddr)
    requires Probing(stats, pings, probed, done, ips) && ip in pings
    ensures Probing(stats, pings - {ip}, probed, done + {ip}, ips)
  {
  }

  function Faster(best: Option<(IpAddr, nat)>, ip: IpAddr, out: Option<nat>): Option<(IpAddr, nat)> {
    if out.Some? && (best.None? || out.value < best.value.1) then Some((ip, out.value)) else best
  }

  /** Collects query results and probe replies in whatever order they complete, until none is left. */
  method CollectAndProbe(arrivals: seq<LookupResult>, probe: IpAddr -> Option<nat>, reportsFirst: bool)
    returns (ok: seq<Response>, err: seq<LookupResult>, stats: map<IpAddr, nat>, best: Option<(IpAddr, nat)>,
             sent: seq<LookupResult>, probed: seq<IpAddr>, ghost done: set<IpAddr>)
    requires arrivals != []
    ensures ok == Oks(arrivals) && err == Errs(arrivals) && |ok| + |err| == |arrivals|
    ensures Probing(stats, {}, probed, done, AllIps(ok)) && Fastest(best, done, probe)
    ensures sent == if reportsFirst then [FirstValidOrLast(arrivals)] else []
  {
    hide Probing, Fastest, FirstSent, FirstValidOrLast, IsValidResponse, IpAddrs, AllIps, Oks, Errs;
    var k, received, channel, pings: set<IpAddr> := 0, false, reportsFirst, {};
    ok, err, stats, best, sent, probed, done := [], [], map[], None, [], [], {};
    Starting(arrivals, probe, reportsFirst);
    while k < |arrivals| || pings != {}
      invariant 0 <= k <= |arrivals|
      invariant ok == Oks(arrivals[..k]) && err == Errs(arrivals[..k]) && |ok| + |err| == k
      invariant Probing(stats, pings, probed, done, AllIps(ok))
      invariant Fastest(best, done, probe)
      invariant FirstSent(arrivals, k, reportsFirst, received, channel, sent)
      decreases |arrivals| - k, pings
    {
      var probeFirst: bool := *;
      if pings != {} && (k == |arrivals| || probeFirst) {
        var ip :| ip in pings;
        ProbeDone(stats, pings, probed, done, AllIps(ok), ip);
        FastestStep(best, done, probe, ip);
        pings := pings - {ip};
        done := done + {ip};
        best := Faster(best, ip, probe(ip));
      } else {
        var res := arrivals[k];
        received, channel, sent := ReportFirst(arrivals, k, reportsFirst, received, channel, sent);
        NextCollected(arrivals, k);
        if res.Answer? {
          AllIpsAppend(ok, res.response);
          stats, pings, probed := AddAddresses(stats, pings, probed, IpAddrs(res.response.message.answers), done,
                                               AllIps(ok));
          ok := ok + [res.response];
        } else {
          err := err + [res];
        }
        k := k + 1;
      }
    }
    assert arrivals[..k] == arrivals;
    AllSent(arrivals, reportsFirst, received, channel, sent);
  }

  /** `FastestIp`, with or without a channel for the first answer. `arrivals` are the query results in the order they
      complete; which probe completes when is left open. */
  method FastestIp(name: Labels, arrivals: seq<LookupResult>, probe: IpAddr -> Option<nat>, reportsFirst: bool)
    returns (r: LookupResult, sent: seq<LookupResult>, probed: seq<IpAddr>)
    requires arrivals != []
    ensures sent == if reportsFirst then [FirstValidOrLast(arrivals)] else []
    ensures NoDuplicates(probed) && forall ip :: ip in probed <==> ip in AllIps(Oks(arrivals))
    ensures FastestAnswer(name, arrivals, probe, r)
  {
    hide Probing, FastestAnswer, FirstValidOrLast, Oks, Errs, Count;
    var ok, err, stats, best;
    ghost var done;
    ok, err, stats, best, sent, probed, done := CollectAndProbe(arrivals, probe, reportsFirst);
    AllProbed(stats, probed, done, AllIps(ok), best, probe);
    var selected: Option<IpAddr>, result := None, Failed;
    if best.Some? {
      selected, result := Some(best.value.0), Measured(best.value.1);
    } else {
      selected := MaxByCount(stats);
    }
    r := Conclude(name, selected, result, ok, err);
    ConcludedFastest(name, arrivals, probe, best, selected, stats, done, r);
  }

  lemma NextCollected(arrivals: seq<LookupResult>, k: nat)
    requires k < |arrivals|
    ensures var res := arrivals[k];
            && Oks(arrivals[..k + 1]) == Oks(arrivals[..k]) + (if res.Answer? then [res.response] else [])
            && Errs(arrivals[..k + 1]) == Errs(arrivals[..k]) + (if res.Answer? then [] else [res])
  {
    assert arrivals[..k + 1][..k] == arrivals[..k];
  }

  lemma Starting(arrivals: seq<LookupResult>, probe: IpAddr -> Option<nat>, reportsFirst: bool)
    requires arrivals != []
    ensures Probing(map[], {}, [], {}, AllIps([])) && Fastest(None, {}, probe)
    ensures FirstSent(arrivals, 0, reportsFirst, false, reportsFirst, [])
    ensures Oks(arrivals[..0]) == [] && Errs(arrivals[..0]) == []
  {
  }

  lemma FastestStep(best: Option<(IpAddr, nat)>, done: set<IpAddr>, probe: IpAddr -> Option<nat>, ip: IpAddr)
    requires Fastest(best, done, probe)
    ensures Fastest(Faster(best, ip, probe(ip)), done + {ip}, probe)
  {
  }

  lemma AllSent(arrivals: seq<LookupResult>, reportsFirst: bool, received: bool, channel: bool, sent: seq<LookupResult>)
    requires arrivals != [] && FirstSent(arrivals, |arrivals|, reportsFirst, received, channel, sent)
    ensures sent == if reportsFirst then [FirstValidOrLast(arrivals)] else []
  {
  }

  lemma AllProbed(stats: map<IpAddr, nat>, probed: seq<IpAddr>, done: set<IpAddr>, ips: seq<IpAddr>,
                  best: Option<(IpAddr, nat)>, probe: IpAddr -> Option<nat>)
    requires Probing(stats, {}, probed, done, ips) && Fastest(best, done, probe)
    ensures Counts(stats, ips, 256) && NoDuplicates(probed)
    ensures (forall ip :: ip in probed <==> ip in ips) && (forall ip :: ip in done <==> ip in ips)
    ensures best.Some? ==> best.value.0 in ips
    ensures forall ip :: ip in stats <==> ip in ips
  {
  }

  /** The channel is used once: for the first valid result, or for the last when none is valid. */
  ghost predicate FirstSent(arrivals: seq<LookupResult>, k: nat, reportsFirst: bool, received: bool, channel: bool,
                            sent: seq<LookupResult>)
    requires k <= |arrivals| && arrivals != []
  {
    && (received <==> exists i :: 0 <= i < k && IsValidResponse(arrivals[i]))
    && (!reportsFirst ==> !channel && sent == [])
    && (reportsFirst && channel ==> sent == [] && !received && k < |arrivals|)
    && (reportsFirst && !channel ==> sent == [FirstValidOrLast(arrivals)])
  }

  method ReportFirst(arrivals: seq<LookupResult>, k: nat, reportsFirst: bool, received0: bool, channel0: bool,
                     sent0: seq<LookupResult>)
    returns (received: bool, channel: bool, sent: seq<LookupResult>)
    requires k < |arrivals| && FirstSent(arrivals, k, reportsFirst, received0, channel0, sent0)
    ensures FirstSent(arrivals, k + 1, reportsFirst, received, channel, sent)
  {
    received, channel, sent := received0 || IsValidResponse(arrivals[k]), channel0, sent0;
    if channel && (received || k + 1 == |arrivals|) {
      FirstValidInPrefix(arrivals, k);
      channel, sent := false, sent + [arrivals[k]];
    }
  }

  lemma NoKeysNoAddresses(stats: map<IpAddr, nat>, ips: seq<IpAddr>)
    requires forall ip :: ip in stats <==> ip in ips
    ensures stats == map[] <==> ips == []
  {
    if ips != [] { assert ips[0] in ips; }
  }

  lemma ConcludedFastest(name: Labels, arrivals: seq<LookupResult>, probe: IpAddr -> Option<nat>,
                         best: Option<(IpAddr, nat)>,
                         selected: Option<IpAddr>, stats: map<IpAddr, nat>, done: set<IpAddr>, r: LookupResult)
    requires var ok, err := Oks(arrivals), Errs(arrivals);
             && Counts(stats, AllIps(ok), 256) && Fastest(best, done, probe)
                && (forall ip :: ip in done <==> ip in AllIps(ok))
             && (if best.Some? then selected == Some(best.value.0)
                 else (selected.None? <==> stats == map[])
                      && (selected.Some? ==>
                            selected.value in stats && forall ip :: ip in stats ==> stats[ip] <= stats[selected.value]))
             && (selected.Some? ==>
                   var result := if best.Some? then Measured(best.value.1) else Failed;
                   r.Answer? && AnswerFor(ok, selected.value, name, result) == Some(r.response))
             && (selected.None? ==> ok != [] || err != [])
             && (selected.None? ==> r == if ok != [] then Answer(ok[0]) else err[0])
    ensures FastestAnswer(name, arrivals, probe, r)
  {
    var ips := AllIps(Oks(arrivals));
    hide AnswerFor, AllIps, Oks, Errs, Count;
    if selected.Some? {
      assert selected.value in ips;
      assert SelectedFastest(name, Oks(arrivals), probe, selected.value, r);
    } else {
      NoKeysNoAddresses(stats, ips);
    }
  }

  /** With any address collected, the answer is one record named by the query, and it is measured exactly when some
      probe replied; otherwise the probes have failed. */
  lemma FastestAnswerShape(name: Labels, arrivals: seq<LookupResult>, probe: IpAddr -> Option<nat>, r: LookupResult)
    requires FastestAnswer(name, arrivals, probe, r) && AllIps(Oks(arrivals)) != []
    ensures r.Answer? && |r.response.message.answers| == 1 && r.response.message.answers[0].name == name
    ensures r.response.message.answers[0].data.Ip? && r.response.message.answers[0].data.addr in AllIps(Oks(arrivals))
    ensures if exists ip :: ip in AllIps(Oks(arrivals)) && probe(ip).Some?
            then probe(r.response.message.answers[0].data.addr).Some?
                 && r.response.probe == Measured(probe(r.response.message.answers[0].data.addr).value)
            else r.response.probe == Failed
  {
    var ok := Oks(arrivals);
    var ip :| ip in AllIps(ok) && SelectedFastest(name, ok, probe, ip, r);
    hide Count, AnswerFor;
    if exists other :: other in AllIps(ok) && probe(other).Some? {
      AnswerForCollected(ok, ip, name, Measured(probe(ip).value));
    } else {
      AnswerForCollected(ok, ip, name, Failed);
    }
  }

  /** An 8-bit count. */
  function Count8(ips: seq<IpAddr>, ip: IpAddr): nat { Count(ips, ip) % 256 }

  ghost predicate MostCounted(ips: seq<IpAddr>, ip: IpAddr) {
    forall other :: other in ips ==> Count8(ips, other) <= Count8(ips, ip)
  }

  lemma {:induction false} SomeMostCounted(ips: seq<IpAddr>, k: nat) returns (ip: IpAddr)
    requires 0 < k <= |ips|
    ensures ip in ips && forall i :: 0 <= i < k ==> Count8(ips, ips[i]) <= Count8(ips, ip)
  {
    hide Count8;
    ip := ips[k - 1];
    if k > 1 {
      var best := SomeMostCounted(ips, k - 1);
      if Count8(ips, ip) <= Count8(ips, best) { ip := best; }
    }
  }

  /** Whatever has the greatest 8-bit count is a most frequent address. */
  ghost predicate CountersPickRight(ips: seq<IpAddr>) {
    forall ip :: ip in ips && MostCounted(ips, ip) ==> MostFrequent(ips, ip)
  }

  /** Less frequent addresses than `top` count less after wrapping too. */
  ghost predicate WrapInOrder(ips: seq<IpAddr>, top: IpAddr) {
    forall ip :: ip in ips && Count(ips, ip) < Count(ips, top) ==> Count8(ips, ip) < Count8(ips, top)
  }

  lemma DisorderPicksWrong(ips: seq<IpAddr>, top: IpAddr, ip: IpAddr)
    requires top in ips && MostFrequent(ips, top) && ip in ips
    requires Count(ips, ip) < Count(ips, top) && Count8(ips, ip) >= Count8(ips, top)
    ensures !CountersPickRight(ips)
  {
    var x := SomeMostCounted(ips, |ips|);
    assert MostCounted(ips, x) by { hide Count8; }
    if MostFrequent(ips, x) {
      assert Count(ips, x) == Count(ips, top) && Count8(ips, x) == Count8(ips, top);
      hide Count8, Count;
      assert MostCounted(ips, ip) && !MostFrequent(ips, ip);
    }
  }

  /** The 8-bit counters pick a most frequent address for certain exactly when every less frequent one also counts less
      after wrapping; so they do while no address occurs more than 255 times. */
  lemma CountersPickRightIff(ips: seq<IpAddr>, top: IpAddr)
    requires top in ips && MostFrequent(ips, top)
    ensures CountersPickRight(ips) <==> WrapInOrder(ips, top)
    ensures Count(ips, top) <= 255 ==> CountersPickRight(ips)
  {
    if Count(ips, top) <= 255 { SmallCountsWrapInOrder(ips, top); }
    hide CountersPickRight, MostFrequent, Count, Count8;
    if !WrapInOrder(ips, top) {
      var ip :| ip in ips && Count(ips, ip) < Count(ips, top) && Count8(ips, ip) >= Count8(ips, top);
      DisorderPicksWrong(ips, top, ip);
    } else {
      OrderPicksRight(ips, top);
    }
  }

  /** So under that condition, and while no address occurs more than 255 times, a selection without any reply answers
      for a most frequent address. */
  lemma FastestAnswerIsMostFrequent(name: Labels, arrivals: seq<LookupResult>, probe: IpAddr -> Option<nat>,
                                    top: IpAddr,
                                    r: LookupResult)
    requires var ips := AllIps(Oks(arrivals));
             top in ips && MostFrequent(ips, top) && forall ip :: ip in ips ==> probe(ip).None?
    requires FastestAnswer(name, arrivals, probe, r)
    requires WrapInOrder(AllIps(Oks(arrivals)), top) || Count(AllIps(Oks(arrivals)), top) <= 255
    ensures r.Answer? && |r.response.message.answers| == 1 && r.response.probe == Failed
    ensures var record := r.response.message.answers[0];
            record.name == name && record.data.Ip? && record.data.addr in AllIps(Oks(arrivals))
            && MostFrequent(AllIps(Oks(arrivals)), record.data.addr)
  {
    var ok := Oks(arrivals);
    var ips := AllIps(ok);
    CountersPickRightIff(ips, top);
    assert ips != [];
    var ip :| ip in ips && SelectedFastest(name, ok, probe, ip, r);
    assert MostCounted(ips, ip);
    hide Count, Count8, AnswerFor, MostFrequent, MostCounted;
    AnswerForCollected(ok, ip, name, Failed);
  }

  lemma SmallCountsWrapInOrder(ips: seq<IpAddr>, top: IpAddr)
    requires Count(ips, top) <= 255
    ensures WrapInOrder(ips, top)
  {
  }

  lemma OrderPicksRight(ips: seq<IpAddr>, top: IpAddr)
    requires top in ips && MostFrequent(ips, top) && WrapInOrder(ips, top)
    ensures CountersPickRight(ips)
  {
  }

  /** Beyond that they can pick the least frequent one: 256 occurrences count as none. */
  lemma WrappedCountsPickWrong(a: IpAddr, b: IpAddr)
    requires a != b
    ensures var ips := seq(256, _ => a) + [b];
            Count(ips, a) % 256 < Count(ips, b) % 256 && Count(ips, a) > Count(ips, b)
  {
    Repeated(a, 256);
    Repeated(b, 0);
    NotRepeated(a, b, 256);
  }

  lemma {:induction false} Repeated(a: IpAddr, n: nat)
    ensures Count(seq(n, _ => a), a) == n
  {
    if n > 0 {
      Repeated(a, n - 1);
      assert seq(n, _ => a) == seq(n - 1, _ => a) + [a];
    }
  }

  lemma NotRepeated(a: IpAddr, b: IpAddr, n: nat)
    requires a != b
    ensures Count(seq(n, _ => a), b) == 0
  {
  }

  // ---- FirstPing ----

  datatype Ping = Ping(ip: IpAddr, elapsed: nat)

  /** A probe of several addresses reports one of them, if any replies. */
  ghost predicate Reports(ping: seq<IpAddr> -> Option<Ping>) {
    forall ips :: ping(ips).Some? ==> ping(ips).value.ip in ips
  }

  /** The addresses the probe of a result is given; none for an error. */
  function AddrsOf(res: LookupResult): seq<IpAddr> {
    if res.Answer? then IpAddrs(res.response.message.answers) else []
  }

  /** What `FirstPing` answers after the first `k` results: for the address of the probe that replied first, or, when no
      probe replied, for a most frequent address. */
  ghost predicate FirstPingAnswer(name: Labels, arrivals: seq<LookupResult>, k: nat, pinged: Option<Ping>,
                                  r: LookupResult)
    requires k <= |arrivals|
  {
    var ok, err := Oks(arrivals[..k]), Errs(arrivals[..k]);
    var ips := AllIps(ok);
    if pinged.Some? then
      pinged.value.ip in ips && AnswerFor(ok, pinged.value.ip, name, Measured(pinged.value.elapsed)) == AnswerOf(r)
    else if ips == [] then (if ok != [] then r == Answer(ok[0]) else err != [] && r == err[0])
    else exists ip :: ip in ips && MostFrequent(ips, ip) && AnswerFor(ok, ip, name, Failed) == AnswerOf(r)
  }

  ghost predicate MostFrequent(ips: seq<IpAddr>, ip: IpAddr) {
    forall other :: other in ips ==> Count(ips, other) <= Count(ips, ip)
  }

  /** Each of the first `k` results with addresses has one probe, which is under way or completed. */
  ghost predicate Pinging(arrivals: seq<LookupResult>, k: nat, pings: set<nat>, completed: seq<nat>) {
    && (forall j :: j in pings ==> j !in completed)
    && (forall j: nat :: j in pings || j in completed <==> j < Min(k, |arrivals|) && AddrsOf(arrivals[j]) != [])
    && (forall i, j :: 0 <= i < j < |completed| ==> completed[i] != completed[j])
  }

  /** `pinged` is the reply of the last completed probe, and no probe completed before it replied. */
  ghost predicate FirstReply(arrivals: seq<LookupResult>, ping: seq<IpAddr> -> Option<Ping>, completed: seq<nat>,
                             pinged: Option<Ping>) {
    && (forall i :: 0 <= i < |completed| ==> completed[i] < |arrivals|)
    && (forall i :: 0 <= i < |completed| - 1 ==> ping(AddrsOf(arrivals[completed[i]])) == None)
    && pinged == if completed == [] then None else ping(AddrsOf(arrivals[completed[|completed| - 1]]))
  }

  lemma NextPinging(arrivals: seq<LookupResult>, k: nat, pings: set<nat>, completed: seq<nat>)
    requires k < |arrivals| && Pinging(arrivals, k, pings, completed)
    ensures Pinging(arrivals, k + 1, if AddrsOf(arrivals[k]) != [] then pings + {k} else pings, completed)
  {
    hide AddrsOf;
  }

  lemma PingCompletes(arrivals: seq<LookupResult>, ping: seq<IpAddr> -> Option<Ping>, k: nat, pings: set<nat>,
                      completed: seq<nat>, j: nat)
    requires k <= |arrivals| && Pinging(arrivals, k, pings, completed) && FirstReply(arrivals, ping, completed, None)
    requires j in pings
    ensures j < k && AddrsOf(arrivals[j]) != []
    ensures Pinging(arrivals, k, pings - {j}, completed + [j])
    ensures FirstReply(arrivals, ping, completed + [j], ping(AddrsOf(arrivals[j])))
  {
    hide AddrsOf;
    assert j < |arrivals| && AddrsOf(arrivals[j]) != [];
    assert forall i :: i in completed + [j] <==> i in completed || i == j;
  }

  /** `FirstPing`: probes each answer's addresses together, and stops at the first probe that replies. `completed` are
      the answers whose probes completed, in that order: all but the last without a reply, the last with `pinged`. When
      there is no reply, every answer with an address has been probed. */
  method FirstPing(name: Labels, arrivals: seq<LookupResult>, ping: seq<IpAddr> -> Option<Ping>)
    returns (r: LookupResult, k: nat, pinged: Option<Ping>, ghost completed: seq<nat>)
    requires arrivals != [] && Reports(ping)
    ensures k <= |arrivals| && FirstPingAnswer(name, arrivals, k, pinged, r)
    ensures FirstReply(arrivals, ping, completed, pinged)
    ensures forall j :: j in completed ==> j < k && AddrsOf(arrivals[j]) != []
    ensures pinged.Some? ==> exists j :: 0 <= j < k && ping(AddrsOf(arrivals[j])) == pinged
    ensures pinged.None? ==>
              && k == |arrivals|
              && forall j :: 0 <= j < k && AddrsOf(arrivals[j]) != [] ==>
                 j in completed && ping(AddrsOf(arrivals[j])) == None
  {
    hide AddrsOf, Pinging, FirstReply, FirstPingAnswer, Count, AllIps, Oks, Errs;
    var ok: seq<Response>, err: seq<LookupResult>, pings: set<nat> := [], [], {};
    k, pinged, completed := 0, None, [];
    StartPinging(arrivals, ping);
    while pinged.None? && (k < |arrivals| || pings != {})
      invariant k <= |arrivals| && ok == Oks(arrivals[..k]) && err == Errs(arrivals[..k]) && |ok| + |err| == k
      invariant Pinging(arrivals, k, pings, completed) && FirstReply(arrivals, ping, completed, pinged)
      decreases pinged.None?, |arrivals| - k, pings
    {
      var probeFirst: bool := *;
      if pings != {} && (k == |arrivals| || probeFirst) {
        var j :| j in pings;
        PingCompletes(arrivals, ping, k, pings, completed, j);
        pinged := ping(AddrsOf(arrivals[j]));
        pings, completed := pings - {j}, completed + [j];
      } else {
        var res := arrivals[k];
        NextCollected(arrivals, k);
        NextPinging(arrivals, k, pings, completed);
        if AddrsOf(res) != [] { pings := pings + {k}; }
        if res.Answer? {
          ok := ok + [res.response];
        } else {
          err := err + [res];
        }
        k := k + 1;
      }
    }
    AllPinged(arrivals, ping, k, pings, completed, pinged);
    var selected: Option<IpAddr>, result := None, Failed;
    if pinged.Some? {
      selected, result := Some(pinged.value.ip), Measured(pinged.value.elapsed);
    } else {
      selected := PickMostFrequent(AllIps(ok));
    }
    SomethingCollected(ok, selected);
    r := Conclude(name, selected, result, ok, err);
    ConcludedFirstPing(name, arrivals, k, pinged, selected, r);
  }

  lemma StartPinging(arrivals: seq<LookupResult>, ping: seq<IpAddr> -> Option<Ping>)
    ensures Pinging(arrivals, 0, {}, []) && FirstReply(arrivals, ping, [], None)
    ensures Oks(arrivals[..0]) == [] && Errs(arrivals[..0]) == []
  {
  }

  lemma AllPinged(arrivals: seq<LookupResult>, ping: seq<IpAddr> -> Option<Ping>, k: nat, pings: set<nat>,
                  completed: seq<nat>, pinged: Option<Ping>)
    requires k <= |arrivals| && Reports(ping)
    requires Pinging(arrivals, k, pings, completed) && FirstReply(arrivals, ping, completed, pinged)
    ensures forall j :: j in completed ==> j < k && AddrsOf(arrivals[j]) != []
    ensures pinged.Some? ==> (exists j :: 0 <= j < k && ping(AddrsOf(arrivals[j])) == pinged)
                             && pinged.value.ip in AllIps(Oks(arrivals[..k]))
    ensures pinged.None? && pings == {} ==>
              forall j :: 0 <= j < k && AddrsOf(arrivals[j]) != [] ==>
                  j in completed && ping(AddrsOf(arrivals[j])) == None
  {
    hide AddrsOf, AllIps, Oks;
    if pinged.Some? {
      var j := completed[|completed| - 1];
      assert j in completed && j < k;
      CollectedAddrs(arrivals, k, j, pinged.value.ip);
    }
  }

  /** The addresses of a result are among those collected. */
  lemma {:induction false} CollectedAddrs(arrivals: seq<LookupResult>, k: nat, j: nat, ip: IpAddr)
    requires j < k <= |arrivals| && ip in AddrsOf(arrivals[j])
    ensures ip in AllIps(Oks(arrivals[..k]))
  {
    hide IpAddrs, AllIps, Oks;
    NextCollected(arrivals, k - 1);
    var ok := Oks(arrivals[..k - 1]);
    assert ok + [] == ok;
    if arrivals[k - 1].Answer? { AllIpsAppend(ok, arrivals[k - 1].response); }
    if j < k - 1 { CollectedAddrs(arrivals, k - 1, j, ip); }
  }

  lemma SomethingCollected(ok: seq<Response>, selected: Option<IpAddr>)
    requires selected.Some? ==> selected.value in AllIps(ok)
    ensures selected.Some? ==> ok != []
  {
  }

  lemma ConcludedFirstPing(name: Labels, arrivals: seq<LookupResult>, k: nat, pinged: Option<Ping>,
                           selected: Option<IpAddr>, r: LookupResult)
    requires k <= |arrivals|
    requires var ok, err := Oks(arrivals[..k]), Errs(arrivals[..k]);
             && (if pinged.Some? then selected == Some(pinged.value.ip) && pinged.value.ip in AllIps(ok)
                 else (selected.None? <==> AllIps(ok) == [])
                      && (selected.Some? ==> selected.value in AllIps(ok) && MostFrequent(AllIps(ok), selected.value)))
             && (selected.Some? ==>
                   var result := if pinged.Some? then Measured(pinged.value.elapsed) else Failed;
                   r.Answer? && AnswerFor(ok, selected.value, name, result) == Some(r.response))
             && (selected.None? ==> ok != [] || err != [])
             && (selected.None? ==> r == if ok != [] then Answer(ok[0]) else err[0])
    ensures FirstPingAnswer(name, arrivals, k, pinged, r)
  {
  }

  /** Counts every occurrence and picks an address with the most. */
  method PickMostFrequent(ips: seq<IpAddr>) returns (best: Option<IpAddr>)
    ensures best.None? <==> ips == []
    ensures best.Some? ==> best.value in ips && MostFrequent(ips, best.value)
  {
    var stats: map<IpAddr, nat> := map[];
    for k := 0 to |ips|
      invariant Counts(stats, ips[..k], 0)
    {
      var ip := ips[k];
      assert ips[..k + 1] == ips[..k] + [ip];
      NotCounted(ips[..k], ip);
      forall other ensures Count(ips[..k] + [ip], other) == Count(ips[..k], other) + if ip == other then 1 else 0 {
        CountAppend(ips[..k], ip, other);
      }
      stats := stats[ip := if ip in stats then stats[ip] + 1 else 1];
    }
    assert ips[..|ips|] == ips;
    NoKeysNoAddresses(stats, ips);
    best := MaxByCount(stats);
  }
}
