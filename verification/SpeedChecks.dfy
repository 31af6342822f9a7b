/** Requests, deferred speed checks and prefetches as they share the cache, one locked operation at a time
    (src/dns_mw_ns.rs, src/dns_mw_cache.rs). */
module SpeedChecks {
  import opened Common
  import opened Messages
  import opened Lookups
  import opened Responses
  import opened CacheEntries
  import opened Cache
  import opened CacheRuns
  import opened TtlLimits
  import opened Admission

  const MAX_DEFERRED: nat := 128

  /** A lookup that may go on in the background: it waits for its first answer; the rest of it waits for that answer to
      be stored; the answer is stored but not claimed yet; the rest is not wanted and about to be dropped; the entry is
      claimed and the rest runs; the rest is done; a better answer is stored, if there is one. */
  datatype Stage =
    | Looking(query: Query)
    | Pending(query: Query)
    | FirstStored(query: Query)
    | Abandoned(query: Query)
    | Checking(query: Query)
    | Checked(query: Query)
    | Releasing(query: Query)

  /** The permit belongs to the lookup and goes back when the lookup is dropped or done. */
  predicate HoldsPermit(t: Stage) { !t.Checked? && !t.Releasing? }

  datatype System = System(slots: Slots, available: nat, tasks: map<nat, Stage>, prefetches: multiset<Query>)

  const START: System := System([], MAX_DEFERRED, map[], multiset{})

  /** What a request gets from below and how it is to be stored. */
  datatype Outcome = Outcome(
    upstream: LookupResult, noData: Option<nat>, limits: Limits, noCache: bool, now: int, group: seq<byte>)

  datatype Event =
    | Request(query: Query, outcome: Outcome)
    | Ask(id: nat, query: Query)
    | FirstAnswer(id: nat, rest: bool)
    | Answered(id: nat, outcome: Outcome)
    | Claim(id: nat)
    | Drop(id: nat)
    | LookupDone(id: nat)
    | StoreBetter(id: nat, result: LookupResult, limits: Limits, now: int, group: seq<byte>)
    | Release(id: nat)
    | TakeDue(now: int, ahead: nat)
    | PrefetchDone(query: Query, now: int)
    | Look(query: Query, now: int)
    | Clear
    | Restore(entries: seq<Slot>)

  function ToStore(bogus: set<IpAddr>, query: Query, o: Outcome): Option<Store> {
    RequestStore(query, NextResult(bogus, query, o.upstream, o.noData, o.now), o.limits, o.noCache, o.now)
  }

  function StoreIn(cfg: Config, s: Slots, store: Option<Store>, now: int, group: seq<byte>): Slots {
    match store
    case None => s
    case Some(x) => Inserted(cfg, s, NewSlot(cfg, x.response, now, x.ttl, group))
  }

  function Moved(sys: System, id: nat, t: Stage): System { sys.(tasks := sys.tasks[id := t]) }

  function Keys(ps: seq<Prefetch>): seq<Query> { seq(|ps|, i requires 0 <= i < |ps| => ps[i].query) }

  /** One step. Events that do not fit the state change nothing. */
  function Next(cfg: Config, bogus: set<IpAddr>, sys: System, ev: Event): System {
    match ev
    case Request(q, o) => sys.(slots := StoreIn(cfg, sys.slots, ToStore(bogus, q, o), o.now, o.group))
    case Ask(id, q) =>
      if id !in sys.tasks && sys.available > 0
      then Moved(sys.(available := sys.available - 1), id, Looking(q)) else sys
    case TakeDue(now, ahead) =>
      if sys.prefetches != multiset{} then sys
      else sys.(slots := Marked(cfg, sys.slots, now, ahead),
                prefetches := multiset(Keys(DueList(cfg, sys.slots, now, ahead))))
    case PrefetchDone(q, now) =>
      if q !in sys.prefetches then sys
      else sys.(slots := Finished(cfg, sys.slots, q, now), prefetches := sys.prefetches - multiset{q})
    case Look(q, now) => sys.(slots := Looked(cfg, sys.slots, q, now))
    case Clear => sys.(slots := [])
    case Restore(entries) => sys.(slots := Loaded(cfg, sys.slots, entries))
    case _ => if ev.id in sys.tasks then NextOfTask(cfg, bogus, sys, ev) else sys
  }

  predicate OfTask(ev: Event) {
    ev.FirstAnswer? || ev.Answered? || ev.Claim? || ev.Drop? || ev.LookupDone? || ev.StoreBetter? || ev.Release?
  }

  /** A step of one deferred lookup. */
  function NextOfTask(cfg: Config, bogus: set<IpAddr>, sys: System, ev: Event): System
    requires OfTask(ev) && ev.id in sys.tasks
  {
    var t := sys.tasks[ev.id];
    var q := t.query;
    match ev
    case FirstAnswer(id, rest) => if t.Looking? then Moved(sys, id, if rest then Pending(q) else Abandoned(q)) else sys
    case Answered(id, o) =>
      if !t.Pending? then sys
      else
        var store := ToStore(bogus, q, o);
        Moved(sys.(slots := StoreIn(cfg, sys.slots, store, o.now, o.group)), id,
              if store.Some? && !Negative(store.value.response) then FirstStored(q) else Abandoned(q))
    case Claim(id) =>
      if !t.FirstStored? then sys
      else Moved(sys.(slots := Begun(sys.slots, q)), id, if Claimable(sys.slots, q) then Checking(q) else Abandoned(q))
    case Drop(id) =>
      if t.Looking? || t.Pending? || t.Abandoned?
      then sys.(available := sys.available + 1, tasks := sys.tasks - {id}) else sys
    case LookupDone(id) => if t.Checking? then Moved(sys.(available := sys.available + 1), id, Checked(q)) else sys
    case StoreBetter(id, result, limits, now, group) =>
      if !t.Checked? then sys
      else
        var store := SpeedCheckStore(bogus, q, result, limits);
        Moved(sys.(slots := StoreIn(cfg, sys.slots, store, now, group)), id, Releasing(q))
    case Release(id) =>
      if t.Releasing? then sys.(slots := Ended(sys.slots, q), tasks := sys.tasks - {id}) else sys
  }

  function RunSystem(cfg: Config, bogus: set<IpAddr>, sys: System, evs: seq<Event>): System
    decreases |evs|
  {
    if evs == [] then sys else RunSystem(cfg, bogus, Next(cfg, bogus, sys, evs[0]), evs[1..])
  }

  // ---- Permits ----

  ghost function Holding(sys: System): set<nat> { set id | id in sys.tasks && HoldsPermit(sys.tasks[id]) }

  ghost predicate Balanced(sys: System) { sys.available + |Holding(sys)| == MAX_DEFERRED }

  predicate Holds(sys: System, id: nat) { id in sys.tasks && HoldsPermit(sys.tasks[id]) }

  /** Only task `id` changes, and a permit goes out or comes back as it starts or stops holding one. */
  ghost predicate Exchanged(sys: System, next: System, id: nat) {
    && (forall other :: other != id ==> (other in next.tasks <==> other in sys.tasks))
    && (forall other :: other != id && other in sys.tasks ==> next.tasks[other] == sys.tasks[other])
    && next.available + (if Holds(next, id) then 1 else 0) == sys.available + (if Holds(sys, id) then 1 else 0)
  }

  lemma ExchangeBalances(sys: System, next: System, id: nat)
    requires Balanced(sys) && Exchanged(sys, next, id)
    ensures Balanced(next)
  {
    var others := Holding(sys) - {id};
    assert Holding(sys) == if Holds(sys, id) then others + {id} else others;
    assert Holding(next) == if Holds(next, id) then others + {id} else others;
  }

  lemma TaskStepExchanges(cfg: Config, bogus: set<IpAddr>, sys: System, ev: Event)
    requires OfTask(ev) && ev.id in sys.tasks
    ensures Exchanged(sys, NextOfTask(cfg, bogus, sys, ev), ev.id)
  {
    hide StoreIn, ToStore, SpeedCheckStore, Claimable, Begun, Ended, Negative;
  }

  lemma BalancedStep(cfg: Config, bogus: set<IpAddr>, sys: System, ev: Event)
    requires Balanced(sys)
    ensures Balanced(Next(cfg, bogus, sys, ev))
  {
    hide StoreIn, ToStore, NextOfTask, Exchanged;
    if ev.Ask? {
      AskExchanges(cfg, bogus, sys, ev);
      ExchangeBalances(sys, Next(cfg, bogus, sys, ev), ev.id);
    } else if OfTask(ev) && ev.id in sys.tasks {
      TaskStepExchanges(cfg, bogus, sys, ev);
      ExchangeBalances(sys, Next(cfg, bogus, sys, ev), ev.id);
    }
  }

  lemma AskExchanges(cfg: Config, bogus: set<IpAddr>, sys: System, ev: Event)
    requires ev.Ask?
    ensures Exchanged(sys, Next(cfg, bogus, sys, ev), ev.id)
  {
  }

  /** Over every interleaving the permits out are those of the lookups that are neither dropped nor done, which are at
      most 128; and another lookup gets one exactly while there are fewer. */
  lemma {:induction false} PermitsMatchLookups(cfg: Config, bogus: set<IpAddr>, sys: System, evs: seq<Event>, id: nat,
                                               q: Query)
    requires Balanced(sys)
    ensures var end := RunSystem(cfg, bogus, sys, evs);
            && Balanced(end) && |Holding(end)| <= MAX_DEFERRED
            && (id !in end.tasks ==> (id in Next(cfg, bogus, end, Ask(id, q)).tasks <==> |Holding(end)| < MAX_DEFERRED))
    decreases |evs|
  {
    hide NextOfTask, Holding;
    if evs != [] {
      BalancedStep(cfg, bogus, sys, evs[0]);
      PermitsMatchLookups(cfg, bogus, Next(cfg, bogus, sys, evs[0]), evs[1..], id, q);
    }
  }

  // ---- The cache operations of a run ----

  function InsertOf(store: Option<Store>, now: int, group: seq<byte>): seq<Op> {
    if store.Some? then [InsertOp(store.value.response, now, store.value.ttl, group)] else []
  }

  /** The operation on the cache an event performs, if any. */
  function OpsOf(bogus: set<IpAddr>, sys: System, ev: Event): (r: seq<Op>)
    ensures |r| <= 1
  {
    match ev
    case Request(q, o) => InsertOf(ToStore(bogus, q, o), o.now, o.group)
    case Ask(_, _) => []
    case TakeDue(now, ahead) => if sys.prefetches != multiset{} then [] else [ExpireOp(now, ahead)]
    case PrefetchDone(q, now) => if q !in sys.prefetches then [] else [FinishOp(q, now)]
    case Look(q, now) => [GetOp(q, now)]
    case Clear => [FlushOp]
    case Restore(entries) => [LoadOp(entries)]
    case _ => if ev.id in sys.tasks then OpsOfTask(bogus, sys.tasks[ev.id], ev) else []
  }

  function OpsOfTask(bogus: set<IpAddr>, t: Stage, ev: Event): (r: seq<Op>)
    requires OfTask(ev)
    ensures |r| <= 1
  {
    match ev
    case Answered(_, o) => if t.Pending? then InsertOf(ToStore(bogus, t.query, o), o.now, o.group) else []
    case StoreBetter(_, result, limits, now, group) =>
      if t.Checked? then InsertOf(SpeedCheckStore(bogus, t.query, result, limits), now, group) else []
    case Claim(_) => if t.FirstStored? then [BeginOp(t.query)] else []
    case Release(_) => if t.Releasing? then [EndOp(t.query)] else []
    case _ => []
  }

  /** The query of the request on whose behalf an event stores. */
  function AskedBy(sys: System, ev: Event): Query {
    if ev.Request? then ev.query
    else if OfTask(ev) && ev.id in sys.tasks then sys.tasks[ev.id].query
    else DEFAULT_QUERY
  }

  function OpsOfRun(cfg: Config, bogus: set<IpAddr>, sys: System, evs: seq<Event>): seq<Op>
    decreases |evs|
  {
    if evs == [] then []
    else OpsOf(bogus, sys, evs[0]) + OpsOfRun(cfg, bogus, Next(cfg, bogus, sys, evs[0]), evs[1..])
  }

  function AskedOfRun(cfg: Config, bogus: set<IpAddr>, sys: System, evs: seq<Event>): seq<Query>
    decreases |evs|
  {
    if evs == [] then []
    else (if OpsOf(bogus, sys, evs[0]) == [] then [] else [AskedBy(sys, evs[0])])
         + AskedOfRun(cfg, bogus, Next(cfg, bogus, sys, evs[0]), evs[1..])
  }

  /** Upstreams give responses with a true encoding, and files give entries as the format makes them. */
  ghost predicate EventAllowed(cfg: Config, ev: Event) {
    && (ev.Request? || ev.Answered? ==>
          ev.outcome.upstream.Answer? ==> Prepared(cfg.codec, ev.outcome.upstream.response))
    && (ev.StoreBetter? && ev.result.Answer? ==> Prepared(cfg.codec, ev.result.response))
    && (ev.Restore? ==> Allowed(cfg, LoadOp(ev.entries)))
  }

  ghost predicate EventsAllowed(cfg: Config, evs: seq<Event>) {
    forall i :: 0 <= i < |evs| ==> EventAllowed(cfg, evs[i])
  }

  lemma StoreIsOp(cfg: Config, s: Slots, store: Option<Store>, now: int, group: seq<byte>)
    ensures StoreIn(cfg, s, store, now, group) == Run(cfg, s, InsertOf(store, now, group))
  {
    var ops := InsertOf(store, now, group);
    if ops == [] { RunNothing(cfg, s); } else { RunOne(cfg, s, ops[0]); }
  }

  lemma TaskStepIsOp(cfg: Config, bogus: set<IpAddr>, sys: System, ev: Event)
    requires OfTask(ev) && ev.id in sys.tasks
    ensures NextOfTask(cfg, bogus, sys, ev).slots == Run(cfg, sys.slots, OpsOfTask(bogus, sys.tasks[ev.id], ev))
  {
    hide Run, StoreIn, ToStore, SpeedCheckStore, Claimable, Begun, Ended, Negative, InsertOf;
    var t, s := sys.tasks[ev.id], sys.slots;
    RunNothing(cfg, s);
    match ev
    case Answered(_, o) => StoreIsOp(cfg, s, ToStore(bogus, t.query, o), o.now, o.group);
    case StoreBetter(_, r, limits, now, group) =>
      StoreIsOp(cfg, s, SpeedCheckStore(bogus, t.query, r, limits), now, group);
    case Claim(_) => RunOne(cfg, s, BeginOp(t.query));
    case Release(_) => RunOne(cfg, s, EndOp(t.query));
    case _ =>
  }

  lemma StepIsOp(cfg: Config, bogus: set<IpAddr>, sys: System, ev: Event)
    ensures Next(cfg, bogus, sys, ev).slots == Run(cfg, sys.slots, OpsOf(bogus, sys, ev))
  {
    hide Run, StoreIn, ToStore, NextOfTask, OpsOfTask, Marked, Finished, Looked, Loaded, InsertOf, DueList, Keys;
    var s := sys.slots;
    RunNothing(cfg, s);
    if OfTask(ev) {
      if ev.id in sys.tasks { TaskStepIsOp(cfg, bogus, sys, ev); }
    } else if ev.Request? {
      StoreIsOp(cfg, s, ToStore(bogus, ev.query, ev.outcome), ev.outcome.now, ev.outcome.group);
    } else if OpsOf(bogus, sys, ev) != [] {
      RunOne(cfg, s, OpsOf(bogus, sys, ev)[0]);
    }
  }

  lemma ToStoreIsPrepared(cfg: Config, bogus: set<IpAddr>, query: Query, o: Outcome)
    requires o.upstream.Answer? ==> Prepared(cfg.codec, o.upstream.response)
    ensures var s := ToStore(bogus, query, o); s.Some? ==> Prepared(cfg.codec, s.value.response)
  {
    hide NegativeTtl, HasType, MinTtl, HasBogus;
  }

  /** An event stores only what the request path or the speed-check path decides for its query. */
  lemma EventDecides(cfg: Config, bogus: set<IpAddr>, sys: System, ev: Event)
    requires EventAllowed(cfg, ev)
    ensures var ops := OpsOf(bogus, sys, ev);
            && AllAllowed(cfg, ops)
            && (!ev.Restore? ==> Decided(bogus, ops, if ops == [] then [] else [AskedBy(sys, ev)]))
  {
    hide RequestStore, NextResult, SpeedCheckStore, Prepared, EntryValid;
    var ops := OpsOf(bogus, sys, ev);
    if ops != [] && ops[0].InsertOp? {
      var op, q := ops[0], AskedBy(sys, ev);
      if ev.StoreBetter? {
        assert SpeedCheckStore(bogus, q, ev.result, ev.limits) == Some(Store(op.response, op.ttl));
        BetterIsPrepared(cfg, bogus, q, ev.result, ev.limits);
        assert PathStore(bogus, op, q, ev.result, None, ev.limits, false, 0);
      } else {
        var o := ev.outcome;
        ToStoreIsPrepared(cfg, bogus, q, o);
        assert PathStore(bogus, op, q, o.upstream, o.noData, o.limits, o.noCache, o.now);
      }
    }
  }

  lemma BetterIsPrepared(cfg: Config, bogus: set<IpAddr>, q: Query, result: LookupResult, limits: Limits)
    requires result.Answer? ==> Prepared(cfg.codec, result.response)
    ensures var s := SpeedCheckStore(bogus, q, result, limits); s.Some? ==> Prepared(cfg.codec, s.value.response)
  {
  }

  lemma DecidedConcat(bogus: set<IpAddr>, a: seq<Op>, qa: seq<Query>, b: seq<Op>, qb: seq<Query>)
    requires Decided(bogus, a, qa) && Decided(bogus, b, qb)
    ensures Decided(bogus, a + b, qa + qb)
  {
    hide StoresFor;
  }

  /** Every interleaving acts on the cache by allowed operations, and stores only what the two paths decided. */
  lemma {:induction false} SystemRunIsCacheRun(cfg: Config, bogus: set<IpAddr>, sys: System, evs: seq<Event>)
    requires EventsAllowed(cfg, evs)
    ensures var ops := OpsOfRun(cfg, bogus, sys, evs);
            && RunSystem(cfg, bogus, sys, evs).slots == Run(cfg, sys.slots, ops) && AllAllowed(cfg, ops)
            && ((forall i :: 0 <= i < |evs| ==> !evs[i].Restore?) ==>
                Decided(bogus, ops, AskedOfRun(cfg, bogus, sys, evs)))
    decreases |evs|
  {
    hide OpsOf, Run, Next, EventAllowed, Allowed, Decided;
    if evs == [] {
      RunNothing(cfg, sys.slots);
      assert Decided(bogus, [], []) by { NothingDecided(bogus); }
    } else {
      var next := Next(cfg, bogus, sys, evs[0]);
      assert EventAllowed(cfg, evs[0]);
      assert forall i :: 0 <= i < |evs| - 1 ==> evs[1..][i] == evs[i + 1];
      StepIsOp(cfg, bogus, sys, evs[0]);
      EventDecides(cfg, bogus, sys, evs[0]);
      SystemRunIsCacheRun(cfg, bogus, next, evs[1..]);
      var a, b := OpsOf(bogus, sys, evs[0]), OpsOfRun(cfg, bogus, next, evs[1..]);
      RunConcat(cfg, sys.slots, a, b);
      if forall i :: 0 <= i < |evs| ==> !evs[i].Restore? {
        DecidedConcat(bogus, a, if a == [] then [] else [AskedBy(sys, evs[0])], b,
                      AskedOfRun(cfg, bogus, next, evs[1..]));
      }
    }
  }

  lemma NothingDecided(bogus: set<IpAddr>)
    ensures Decided(bogus, [], [])
  {
  }

  /** So over every interleaving the cache stays valid, and without a reload each of its entries was stored for a
      request and is admissible for what that request asked. */
  lemma EveryInterleaving(cfg: Config, bogus: set<IpAddr>, evs: seq<Event>)
    requires cfg.capacity > 0 && EventsAllowed(cfg, evs)
    ensures var s := RunSystem(cfg, bogus, START, evs).slots;
            && SlotsValid(cfg, s)
            && ((forall i :: 0 <= i < |evs| ==> !evs[i].Restore?) ==>
                  var ops, asked := OpsOfRun(cfg, bogus, START, evs), AskedOfRun(cfg, bogus, START, evs);
                  |asked| == |ops| && AllAdmitted(bogus, ops, asked, s))
  {
    SystemRunIsCacheRun(cfg, bogus, START, evs);
    NothingIsValid(cfg);
    var ops := OpsOfRun(cfg, bogus, START, evs);
    hide Run, RunSystem, OpsOfRun, AskedOfRun, AllAdmitted, SlotsValid, AllAllowed;
    RunKeepsValid(cfg, [], ops);
    if forall i :: 0 <= i < |evs| ==> !evs[i].Restore? {
      RunKeepsAdmissible(cfg, bogus, ops, AskedOfRun(cfg, bogus, START, evs));
    }
  }

  // ---- Marks and their owners ----

  /** A task that claimed the key and has not released it. */
  predicate Refreshes(sys: System, id: nat, q: Query) {
    id in sys.tasks && sys.tasks[id].query == q
    && (sys.tasks[id].Checking? || sys.tasks[id].Checked? || sys.tasks[id].Releasing?)
  }

  ghost predicate Owned(sys: System, q: Query) { sys.prefetches[q] > 0 || exists id :: Refreshes(sys, id, q) }

  ghost predicate MarkOwned(sys: System, q: Query) { Unmarked(sys.slots, q) || Owned(sys, q) }

  /** The event ends a refresh or a prefetch of the key. */
  predicate Ends(sys: System, ev: Event, q: Query) {
    || (ev.PrefetchDone? && ev.query == q && q in sys.prefetches)
    || (ev.Release? && ev.id in sys.tasks && sys.tasks[ev.id] == Releasing(q))
  }

  lemma OwnerStays(cfg: Config, bogus: set<IpAddr>, sys: System, ev: Event, q: Query)
    requires Owned(sys, q) && !Ends(sys, ev, q)
    ensures Owned(Next(cfg, bogus, sys, ev), q)
  {
    hide StoreIn, ToStore, SpeedCheckStore, Claimable, Begun, Ended, Negative, Finished, Marked, Looked, Loaded,
      DueList;
    var next := Next(cfg, bogus, sys, ev);
    if sys.prefetches[q] > 0 {
      assert next.prefetches[q] > 0;
    } else {
      var id :| Refreshes(sys, id, q);
      assert Refreshes(next, id, q);
    }
  }

  /** The event takes up a refresh or a prefetch of the key. */
  ghost predicate Takes(cfg: Config, sys: System, ev: Event, q: Query) {
    || (ev.Claim? && ev.id in sys.tasks && sys.tasks[ev.id] == FirstStored(q) && Claimable(sys.slots, q))
    || (ev.TakeDue? && sys.prefetches == multiset{} && HandsOut(cfg, sys.slots, ev.now, ev.ahead, q))
  }

  lemma KeysHandedOut(ps: seq<Prefetch>, q: Query)
    ensures multiset(Keys(ps))[q] > 0 <==> exists p :: p in ps && p.query == q
  {
    var keys := Keys(ps);
    assert multiset(keys)[q] > 0 <==> q in keys;
    if p :| p in ps && p.query == q {
      var i :| 0 <= i < |ps| && ps[i] == p;
      assert keys[i] == q;
    }
    if q in keys {
      var i :| 0 <= i < |keys| && keys[i] == q;
      assert ps[i] in ps && ps[i].query == q;
    }
  }

  lemma KeysHandedOutOnce(ps: seq<Prefetch>, q: Query)
    requires forall i, j :: 0 <= i < j < |ps| ==> ps[i].query != ps[j].query
    ensures multiset(Keys(ps))[q] <= 1
  {
    var keys := Keys(ps);
    assert forall i, j :: 0 <= i < j < |keys| ==> keys[i] != keys[j];
    DistinctOnce(keys, q);
  }

  lemma {:induction false} DistinctOnce(keys: seq<Query>, q: Query)
    requires forall i, j :: 0 <= i < j < |keys| ==> keys[i] != keys[j]
    ensures multiset(keys)[q] <= 1
  {
    if keys != [] {
      var init, last := keys[..|keys| - 1], keys[|keys| - 1];
      assert keys == init + [last] && last !in init;
      DistinctOnce(init, q);
      assert multiset(keys) == multiset(init) + multiset{last};
    }
  }

  lemma TakerOwns(cfg: Config, bogus: set<IpAddr>, sys: System, ev: Event, q: Query)
    requires Takes(cfg, sys, ev, q)
    ensures Owned(Next(cfg, bogus, sys, ev), q)
  {
    var next := Next(cfg, bogus, sys, ev);
    if ev.Claim? {
      assert Refreshes(next, ev.id, q);
    } else {
      KeysHandedOut(DueList(cfg, sys.slots, ev.now, ev.ahead), q);
    }
  }

  /** Which event performs which operation on marks. */
  lemma OpTells(bogus: set<IpAddr>, sys: System, ev: Event)
    ensures var ops := OpsOf(bogus, sys, ev);
            ops != [] ==>
              && (ops[0].BeginOp? ==> ev.Claim? && ev.id in sys.tasks && sys.tasks[ev.id] == FirstStored(ops[0].query))
              && (ops[0].EndOp? ==> ev.Release? && ev.id in sys.tasks && sys.tasks[ev.id] == Releasing(ops[0].query))
              && (ops[0].FinishOp? ==> ev == PrefetchDone(ops[0].query, ops[0].now) && ops[0].query in sys.prefetches)
              && (ops[0].ExpireOp? ==> ev == TakeDue(ops[0].now, ops[0].ahead) && sys.prefetches == multiset{})
              && (ev.StoreBetter? ==> ev.id in sys.tasks && sys.tasks[ev.id].Checked?)
  {
    hide ToStore, SpeedCheckStore;
  }

  /** The event stores the key. */
  predicate Stores(bogus: set<IpAddr>, sys: System, ev: Event, q: Query) {
    var ops := OpsOf(bogus, sys, ev);
    ops != [] && Replaces(ops[0], q)
  }

  /** The operation of an event marks the key when the event takes it, and lifts its mark when it stores or ends it. */
  lemma OpOfMark(cfg: Config, bogus: set<IpAddr>, sys: System, ev: Event, q: Query)
    ensures var ops := OpsOf(bogus, sys, ev);
            && (Takes(cfg, sys, ev, q) <==> ops != [] && Marks(cfg, sys.slots, ops[0], q))
            && (Stores(bogus, sys, ev, q) || Ends(sys, ev, q) <==> ops != [] && Releases(ops[0], q))
  {
    OpTells(bogus, sys, ev);
    hide ToStore, SpeedCheckStore, Claimable, HandsOut, Replaces;
  }

  /** A key without a mark, or one that is stored or ended, has none unless it is taken. */
  lemma StaysUnmarked(cfg: Config, bogus: set<IpAddr>, sys: System, ev: Event, q: Query)
    requires SlotsValid(cfg, sys.slots) && EventAllowed(cfg, ev) && !Takes(cfg, sys, ev, q)
    requires Unmarked(sys.slots, q) || Stores(bogus, sys, ev, q) || Ends(sys, ev, q)
    ensures Unmarked(Next(cfg, bogus, sys, ev).slots, q)
  {
    var ops := OpsOf(bogus, sys, ev);
    assert ops != [] ==> ops == [ops[0]];
    hide Next, OpsOf, Run, SlotsValid, EventAllowed, Allowed, Unmarked, Ends, Stores, Takes, Marks, Releases;
    StepIsOp(cfg, bogus, sys, ev);
    EventDecides(cfg, bogus, sys, ev);
    OpOfMark(cfg, bogus, sys, ev, q);
    if ops == [] {
      RunNothing(cfg, sys.slots);
    } else {
      RunOne(cfg, sys.slots, ops[0]);
      UnmarkedStep(cfg, sys.slots, ops[0], q);
    }
  }

  /** A mark stays until its key is stored or ended. */
  lemma StaysMarked(cfg: Config, bogus: set<IpAddr>, sys: System, ev: Event, q: Query)
    requires SlotsValid(cfg, sys.slots) && Quiet(sys.slots, q)
    requires !Stores(bogus, sys, ev, q) && !Ends(sys, ev, q)
    ensures Quiet(Next(cfg, bogus, sys, ev).slots, q)
  {
    var ops := OpsOf(bogus, sys, ev);
    assert ops != [] ==> ops == [ops[0]];
    hide Next, OpsOf, Run, SlotsValid, Quiet, Ends, Stores, Releases, Takes, Marks;
    StepIsOp(cfg, bogus, sys, ev);
    OpOfMark(cfg, bogus, sys, ev, q);
    if ops == [] {
      RunNothing(cfg, sys.slots);
    } else {
      RunOne(cfg, sys.slots, ops[0]);
      QuietStep(cfg, sys.slots, ops[0], q);
    }
  }

  lemma EndsIsNotTaking(cfg: Config, sys: System, ev: Event, q: Query)
    requires Ends(sys, ev, q)
    ensures !Takes(cfg, sys, ev, q)
  {
  }

  /** Over every interleaving a marked entry has a refresh or a prefetch of its key under way, so no entry is left
      marked for good. */
  lemma {:induction false} MarksHaveOwners(cfg: Config, bogus: set<IpAddr>, sys: System, evs: seq<Event>, q: Query)
    requires cfg.capacity > 0 && SlotsValid(cfg, sys.slots) && EventsAllowed(cfg, evs) && MarkOwned(sys, q)
    ensures MarkOwned(RunSystem(cfg, bogus, sys, evs), q)
    decreases |evs|
  {
    if evs != [] {
      var ev, next := evs[0], Next(cfg, bogus, sys, evs[0]);
      hide Next, SlotsValid, EventAllowed, Unmarked, Takes, Ends, Owned;
      assert EventAllowed(cfg, ev);
      NextIsValid(cfg, bogus, sys, ev);
      if Takes(cfg, sys, ev, q) {
        TakerOwns(cfg, bogus, sys, ev, q);
      } else if Owned(sys, q) && !Ends(sys, ev, q) {
        OwnerStays(cfg, bogus, sys, ev, q);
      } else {
        StaysUnmarked(cfg, bogus, sys, ev, q);
      }
      assert forall i :: 0 <= i < |evs| - 1 ==> evs[1..][i] == evs[i + 1];
      MarksHaveOwners(cfg, bogus, next, evs[1..], q);
    }
  }

  lemma NextIsValid(cfg: Config, bogus: set<IpAddr>, sys: System, ev: Event)
    requires cfg.capacity > 0 && SlotsValid(cfg, sys.slots) && EventAllowed(cfg, ev)
    ensures SlotsValid(cfg, Next(cfg, bogus, sys, ev).slots)
  {
    hide Next, OpsOf, SlotsValid, Run;
    StepIsOp(cfg, bogus, sys, ev);
    EventDecides(cfg, bogus, sys, ev);
    RunKeepsValid(cfg, sys.slots, OpsOf(bogus, sys, ev));
  }

  // ---- One refresh at a time ----

  /** At most one refresh or prefetch of the key is under way. */
  ghost predicate OneAtMost(sys: System, q: Query) {
    && (forall id, id' :: Refreshes(sys, id, q) && Refreshes(sys, id', q) ==> id == id')
    && sys.prefetches[q] <= 1
    && (sys.prefetches[q] > 0 ==> forall id :: !Refreshes(sys, id, q))
  }

  /** What is under way afterwards was so before, or has just been taken up. */
  lemma UnderWayBefore(cfg: Config, bogus: set<IpAddr>, sys: System, ev: Event, q: Query)
    requires !Takes(cfg, sys, ev, q)
    ensures var next := Next(cfg, bogus, sys, ev);
            && next.prefetches[q] <= sys.prefetches[q]
            && (forall id :: Refreshes(next, id, q) ==> Refreshes(sys, id, q))
  {
    hide StoreIn, ToStore, SpeedCheckStore, Claimable, Begun, Ended, Negative, Finished, Marked, Looked, Loaded,
      DueList;
    if ev.TakeDue? { KeysHandedOut(DueList(cfg, sys.slots, ev.now, ev.ahead), q); }
  }

  lemma ClaimMarks(s: Slots, q: Query)
    ensures Claimable(s, q) ==> Quiet(Begun(s, q), q)
  {
    SamePlaces(s, Begun(s, q), q);
  }

  lemma HandingOutMarks(cfg: Config, s: Slots, now: int, ahead: nat, q: Query)
    requires Distinct(s) && HandsOut(cfg, s, now, ahead, q)
    ensures Claimable(s, q) && Quiet(Marked(cfg, s, now, ahead), q)
    ensures multiset(Keys(DueList(cfg, s, now, ahead)))[q] <= 1
  {
    hide DueList, Marked, Keys, Distinct;
    HandedOutIsMarked(cfg, s, now, ahead, q);
    DueListIsExact(cfg, s, now, ahead);
    KeysHandedOutOnce(DueList(cfg, s, now, ahead), q);
  }

  /** A key is taken only when it can be claimed, and the taker marks it. */
  lemma TakesFreeKey(cfg: Config, bogus: set<IpAddr>, sys: System, ev: Event, q: Query)
    requires SlotsValid(cfg, sys.slots) && Takes(cfg, sys, ev, q)
    ensures Claimable(sys.slots, q) && Quiet(Next(cfg, bogus, sys, ev).slots, q)
    ensures ev.TakeDue? ==> Next(cfg, bogus, sys, ev).prefetches[q] <= 1
  {
    assert Distinct(sys.slots);
    hide SlotsValid, DueList, Marked, Keys, Distinct, Claimable, Quiet, Begun, StoreIn, ToStore, Finished, Looked,
      Loaded;
    if ev.TakeDue? {
      HandingOutMarks(cfg, sys.slots, ev.now, ev.ahead, q);
    } else {
      ClaimMarks(sys.slots, q);
    }
  }

  /** The first to take a key is alone. */
  lemma TakesAlone(cfg: Config, bogus: set<IpAddr>, sys: System, ev: Event, q: Query)
    requires SlotsValid(cfg, sys.slots) && Takes(cfg, sys, ev, q) && !Owned(sys, q)
    ensures OneAtMost(Next(cfg, bogus, sys, ev), q)
  {
    TakesFreeKey(cfg, bogus, sys, ev, q);
    hide SlotsValid, Quiet, Marked, Begun, DueList, HandsOut, Claimable, StoreIn, ToStore, Finished, Looked, Loaded,
      Keys;
    var next := Next(cfg, bogus, sys, ev);
    forall id | Refreshes(next, id, q) ensures ev.Claim? && id == ev.id {
      assert !Refreshes(sys, id, q);
    }
  }

  /** The second is not. */
  lemma TakesSecond(cfg: Config, bogus: set<IpAddr>, sys: System, ev: Event, q: Query)
    requires Takes(cfg, sys, ev, q) && Owned(sys, q)
    ensures !OneAtMost(Next(cfg, bogus, sys, ev), q)
  {
    hide Marked, Begun, DueList, Claimable, StoreIn, Keys;
    var next := Next(cfg, bogus, sys, ev);
    if ev.Claim? {
      assert Refreshes(next, ev.id, q);
    } else {
      KeysHandedOut(DueList(cfg, sys.slots, ev.now, ev.ahead), q);
    }
    if sys.prefetches[q] == 0 {
      var id :| Refreshes(sys, id, q);
      assert Refreshes(next, id, q);
    }
  }

  /** An event leaves at most one under way exactly when it does not take the key from one that is. */
  lemma OneAtMostStepIff(cfg: Config, bogus: set<IpAddr>, sys: System, ev: Event, q: Query)
    requires SlotsValid(cfg, sys.slots) && OneAtMost(sys, q)
    ensures OneAtMost(Next(cfg, bogus, sys, ev), q) <==> !(Takes(cfg, sys, ev, q) && Owned(sys, q))
  {
    hide Next, SlotsValid, Takes, Refreshes;
    if !Takes(cfg, sys, ev, q) {
      UnderWayBefore(cfg, bogus, sys, ev, q);
    } else if Owned(sys, q) {
      TakesSecond(cfg, bogus, sys, ev, q);
    } else {
      TakesAlone(cfg, bogus, sys, ev, q);
    }
  }

  /** The only one under way leaves none when it ends. */
  lemma OwnerLeaves(cfg: Config, bogus: set<IpAddr>, sys: System, ev: Event, q: Query)
    requires OneAtMost(sys, q) && Ends(sys, ev, q)
    ensures !Owned(Next(cfg, bogus, sys, ev), q)
  {
    EndsIsNotTaking(cfg, sys, ev, q);
    UnderWayBefore(cfg, bogus, sys, ev, q);
    hide StoreIn, ToStore, SpeedCheckStore, Ended, Finished, Takes;
    if ev.Release? { assert Refreshes(sys, ev.id, q); }
  }

  // ---- The same over whole runs ----

  /** The event tries to take the key up: a claim of it, or a scan that would hand it out if it had no mark. */
  predicate Attempts(cfg: Config, sys: System, ev: Event, q: Query) {
    || (ev.Claim? && ev.id in sys.tasks && sys.tasks[ev.id] == FirstStored(q))
    || (ev.TakeDue? && sys.prefetches == multiset{}
        && match EntryOf(sys.slots, q)
           case None => false
           case Some(e) => Due(cfg, Slot(q, e.(prefetching := false)), ev.now, ev.ahead))
  }

  /** It succeeds exactly when there is an entry without a mark. */
  lemma TakesIff(cfg: Config, sys: System, ev: Event, q: Query)
    requires SlotsValid(cfg, sys.slots)
    ensures Takes(cfg, sys, ev, q) <==> Attempts(cfg, sys, ev, q) && Claimable(sys.slots, q)
  {
    assert Distinct(sys.slots);
    hide SlotsValid, DueList;
    if ev.TakeDue? { HandsOutIff(cfg, sys.slots, ev.now, ev.ahead, q); }
  }

  lemma HandsOutIff(cfg: Config, s: Slots, now: int, ahead: nat, q: Query)
    requires Distinct(s)
    ensures HandsOut(cfg, s, now, ahead, q) <==>
            Claimable(s, q) && Due(cfg, Slot(q, EntryOf(s, q).value.(prefetching := false)), now, ahead)
  {
    DueListIsExact(cfg, s, now, ahead);
    var due, at := DueList(cfg, s, now, ahead), IndexOf(s, q);
    hide DueList;
    if at.Some? {
      var x := s[at.value];
      assert Due(cfg, x, now, ahead) <==>
             !x.entry.prefetching && Due(cfg, Slot(q, x.entry.(prefetching := false)), now, ahead);
      if Due(cfg, x, now, ahead) { assert PrefetchOf(x) in due; }
    }
    if p :| p in due && p.query == q {
      assert FromDue(cfg, s, now, ahead, p);
      var i: nat :| DueAt(cfg, s, now, ahead, p, i);
      assert at == Some(i);
    }
  }

  /** The state before event `k` of a run. */
  function At(cfg: Config, bogus: set<IpAddr>, evs: seq<Event>, k: nat): System
    requires k <= |evs|
  {
    RunSystem(cfg, bogus, START, evs[..k])
  }

  lemma {:induction false} RunLast(cfg: Config, bogus: set<IpAddr>, sys: System, evs: seq<Event>, ev: Event)
    ensures RunSystem(cfg, bogus, sys, evs + [ev]) == Next(cfg, bogus, RunSystem(cfg, bogus, sys, evs), ev)
    decreases |evs|
  {
    hide Next;
    if evs == [] {
      assert evs + [ev] == [ev] && [ev][1..] == [];
    } else {
      assert (evs + [ev])[1..] == evs[1..] + [ev];
      RunLast(cfg, bogus, Next(cfg, bogus, sys, evs[0]), evs[1..], ev);
    }
  }

  lemma AtNext(cfg: Config, bogus: set<IpAddr>, evs: seq<Event>, k: nat)
    requires k < |evs|
    ensures At(cfg, bogus, evs, k + 1) == Next(cfg, bogus, At(cfg, bogus, evs, k), evs[k])
  {
    hide Next, RunSystem;
    assert evs[..k + 1] == evs[..k] + [evs[k]];
    RunLast(cfg, bogus, START, evs[..k], evs[k]);
  }

  lemma {:induction false} AtIsValid(cfg: Config, bogus: set<IpAddr>, evs: seq<Event>, k: nat)
    requires cfg.capacity > 0 && EventsAllowed(cfg, evs) && k <= |evs|
    ensures SlotsValid(cfg, At(cfg, bogus, evs, k).slots)
  {
    hide Next, SlotsValid, EventAllowed;
    if k == 0 {
      NothingIsValid(cfg);
    } else {
      AtIsValid(cfg, bogus, evs, k - 1);
      AtNext(cfg, bogus, evs, k - 1);
      assert EventAllowed(cfg, evs[k - 1]);
      NextIsValid(cfg, bogus, At(cfg, bogus, evs, k - 1), evs[k - 1]);
    }
  }

  ghost predicate TakesAt(cfg: Config, bogus: set<IpAddr>, evs: seq<Event>, k: nat, q: Query) {
    k < |evs| && Takes(cfg, At(cfg, bogus, evs, k), evs[k], q)
  }

  predicate EndsAt(cfg: Config, bogus: set<IpAddr>, evs: seq<Event>, k: nat, q: Query) {
    k < |evs| && Ends(At(cfg, bogus, evs, k), evs[k], q)
  }

  predicate StoresAt(cfg: Config, bogus: set<IpAddr>, evs: seq<Event>, k: nat, q: Query) {
    k < |evs| && Stores(bogus, At(cfg, bogus, evs, k), evs[k], q)
  }

  /** Event `j` takes the key, and no event between it and `k` takes or ends it. */
  ghost predicate UnderWaySince(cfg: Config, bogus: set<IpAddr>, evs: seq<Event>, j: nat, k: nat, q: Query) {
    && j < k <= |evs| && TakesAt(cfg, bogus, evs, j, q)
    && forall i :: j < i < k ==> !TakesAt(cfg, bogus, evs, i, q) && !EndsAt(cfg, bogus, evs, i, q)
  }

  ghost predicate StoredBetween(cfg: Config, bogus: set<IpAddr>, evs: seq<Event>, j: nat, k: nat, q: Query) {
    exists i :: j < i < k && StoresAt(cfg, bogus, evs, i, q)
  }

  /** A key under way has lost its mark exactly when it has been stored since. */
  lemma {:induction false} MarkSince(cfg: Config, bogus: set<IpAddr>, evs: seq<Event>, j: nat, k: nat, q: Query)
    requires cfg.capacity > 0 && EventsAllowed(cfg, evs) && UnderWaySince(cfg, bogus, evs, j, k, q)
    ensures var s := At(cfg, bogus, evs, k).slots;
            if StoredBetween(cfg, bogus, evs, j, k, q) then Unmarked(s, q) else Quiet(s, q)
    decreases k
  {
    hide At, Next, SlotsValid, EventAllowed, Quiet, Unmarked, Takes, Ends, Stores;
    var i := k - 1;
    var sys, ev := At(cfg, bogus, evs, i), evs[i];
    AtNext(cfg, bogus, evs, i);
    AtIsValid(cfg, bogus, evs, i);
    assert EventAllowed(cfg, ev);
    if i == j {
      TakesFreeKey(cfg, bogus, sys, ev, q);
    } else {
      assert !TakesAt(cfg, bogus, evs, i, q) && !EndsAt(cfg, bogus, evs, i, q);
      MarkSince(cfg, bogus, evs, j, i, q);
      if StoresAt(cfg, bogus, evs, i, q) {
        StaysUnmarked(cfg, bogus, sys, ev, q);
      } else if StoredBetween(cfg, bogus, evs, j, i, q) {
        StaysUnmarked(cfg, bogus, sys, ev, q);
      } else {
        StaysMarked(cfg, bogus, sys, ev, q);
      }
    }
  }

  /** Who took a key and has not ended is under way. */
  lemma {:induction false} OwnedWhile(cfg: Config, bogus: set<IpAddr>, evs: seq<Event>, j: nat, k: nat, q: Query)
    requires UnderWaySince(cfg, bogus, evs, j, k, q)
    ensures Owned(At(cfg, bogus, evs, k), q)
    decreases k
  {
    hide At, Next, Takes, Ends, Owned;
    var i := k - 1;
    AtNext(cfg, bogus, evs, i);
    if i == j {
      TakerOwns(cfg, bogus, At(cfg, bogus, evs, i), evs[i], q);
    } else {
      assert !EndsAt(cfg, bogus, evs, i, q);
      OwnedWhile(cfg, bogus, evs, j, i, q);
      OwnerStays(cfg, bogus, At(cfg, bogus, evs, i), evs[i], q);
    }
  }

  ghost predicate OneUpTo(cfg: Config, bogus: set<IpAddr>, evs: seq<Event>, k: nat, q: Query)
    requires k <= |evs|
  {
    forall i :: 0 <= i <= k ==> OneAtMost(At(cfg, bogus, evs, i), q)
  }

  /** While there is at most one, whoever is under way has taken the key since anyone ended it. */
  lemma {:induction false} OwnedSince(cfg: Config, bogus: set<IpAddr>, evs: seq<Event>, k: nat, q: Query)
      returns (j: nat)
    requires k <= |evs| && OneUpTo(cfg, bogus, evs, k, q) && Owned(At(cfg, bogus, evs, k), q)
    ensures UnderWaySince(cfg, bogus, evs, j, k, q)
    decreases k
  {
    assert k > 0;
    var i := k - 1;
    var sys := At(cfg, bogus, evs, i);
    hide At, Next, Takes, Ends, OneAtMost;
    AtNext(cfg, bogus, evs, i);
    assert OneAtMost(sys, q);
    if TakesAt(cfg, bogus, evs, i, q) {
      j := i;
    } else {
      if EndsAt(cfg, bogus, evs, i, q) { OwnerLeaves(cfg, bogus, sys, evs[i], q); }
      UnderWayBefore(cfg, bogus, sys, evs[i], q);
      j := OwnedSince(cfg, bogus, evs, i, q);
    }
  }

  /** The event tries to take a key that is under way, that has been stored since it was taken and has an entry. */
  ghost predicate Collides(cfg: Config, bogus: set<IpAddr>, evs: seq<Event>, j: nat, k: nat, q: Query) {
    && UnderWaySince(cfg, bogus, evs, j, k, q) && k < |evs|
    && Attempts(cfg, At(cfg, bogus, evs, k), evs[k], q)
    && EntryOf(At(cfg, bogus, evs, k).slots, q).Some? && StoredBetween(cfg, bogus, evs, j, k, q)
  }

  /** A collision is a second take. */
  lemma CollisionIff(cfg: Config, bogus: set<IpAddr>, evs: seq<Event>, j: nat, k: nat, q: Query)
    requires cfg.capacity > 0 && EventsAllowed(cfg, evs) && UnderWaySince(cfg, bogus, evs, j, k, q) && k < |evs|
    ensures Collides(cfg, bogus, evs, j, k, q) <==> TakesAt(cfg, bogus, evs, k, q)
  {
    hide At, Takes, Attempts, SlotsValid, StoredBetween, EntryOf;
    AtIsValid(cfg, bogus, evs, k);
    TakesIff(cfg, At(cfg, bogus, evs, k), evs[k], q);
    MarkSince(cfg, bogus, evs, j, k, q);
  }

  /** Over every run, at most one refresh or prefetch of a key is ever under way if and only if nothing tries to take
      the key after it has been stored while one is. */
  lemma OneRefreshAtATimeIff(cfg: Config, bogus: set<IpAddr>, evs: seq<Event>, q: Query)
    requires cfg.capacity > 0 && EventsAllowed(cfg, evs)
    ensures OneUpTo(cfg, bogus, evs, |evs|, q) <==> !exists j, k :: Collides(cfg, bogus, evs, j, k, q)
  {
    hide At, Collides, OneAtMost, Owned;
    if j: nat, k: nat :| Collides(cfg, bogus, evs, j, k, q) {
      CollisionBreaks(cfg, bogus, evs, j, k, q);
    } else {
      NoCollisionKeeps(cfg, bogus, evs, |evs|, q);
    }
  }

  lemma StartsWithNone(cfg: Config, bogus: set<IpAddr>, evs: seq<Event>, q: Query)
    ensures OneAtMost(At(cfg, bogus, evs, 0), q)
  {
    assert At(cfg, bogus, evs, 0) == START;
  }

  lemma CollisionBreaks(cfg: Config, bogus: set<IpAddr>, evs: seq<Event>, j: nat, k: nat, q: Query)
    requires cfg.capacity > 0 && EventsAllowed(cfg, evs) && Collides(cfg, bogus, evs, j, k, q)
    ensures !OneUpTo(cfg, bogus, evs, |evs|, q)
  {
    hide At, Next, OneAtMost, Owned, Takes, SlotsValid, Attempts;
    CollisionIff(cfg, bogus, evs, j, k, q);
    OwnedWhile(cfg, bogus, evs, j, k, q);
    AtIsValid(cfg, bogus, evs, k);
    AtNext(cfg, bogus, evs, k);
    if OneUpTo(cfg, bogus, evs, |evs|, q) {
      assert OneAtMost(At(cfg, bogus, evs, k), q) && OneAtMost(At(cfg, bogus, evs, k + 1), q);
      OneAtMostStepIff(cfg, bogus, At(cfg, bogus, evs, k), evs[k], q);
    }
  }

  lemma {:induction false} NoCollisionKeeps(cfg: Config, bogus: set<IpAddr>, evs: seq<Event>, k: nat, q: Query)
    requires cfg.capacity > 0 && EventsAllowed(cfg, evs) && k <= |evs|
    requires forall i: nat, j: nat :: !Collides(cfg, bogus, evs, i, j, q)
    ensures OneUpTo(cfg, bogus, evs, k, q)
  {
    hide At, Next, OneAtMost, Owned, Takes, SlotsValid, Collides, UnderWaySince, EventAllowed;
    if k == 0 {
      StartsWithNone(cfg, bogus, evs, q);
    } else {
      NoCollisionKeeps(cfg, bogus, evs, k - 1, q);
      var sys := At(cfg, bogus, evs, k - 1);
      assert OneAtMost(sys, q);
      AtIsValid(cfg, bogus, evs, k - 1);
      AtNext(cfg, bogus, evs, k - 1);
      if Owned(sys, q) {
        var j := OwnedSince(cfg, bogus, evs, k - 1, q);
        CollisionIff(cfg, bogus, evs, j, k - 1, q);
      }
      OneAtMostStepIff(cfg, bogus, sys, evs[k - 1], q);
    }
  }

  /** An outcome that stores a positive answer to `q`. */
  ghost predicate StoresPositive(cfg: Config, bogus: set<IpAddr>, q: Query, o: Outcome) {
    var store := ToStore(bogus, q, o);
    && EventAllowed(cfg, Request(q, o))
    && store.Some? && !Negative(store.value.response) && QueryOf(store.value.response.message) == q
  }

  /** A request whose rest is pending stores its first answer, whatever mark was on the entry. */
  lemma StoreFirst(cfg: Config, bogus: set<IpAddr>, sys: System, id: nat, q: Query, o: Outcome)
    requires cfg.capacity > 0 && cfg.memoryLimit == 0 && SlotsValid(cfg, sys.slots) && StoresPositive(cfg, bogus, q, o)
    requires id in sys.tasks && sys.tasks[id] == Pending(q)
    ensures var next := Next(cfg, bogus, sys, Answered(id, o));
            && SlotsValid(cfg, next.slots) && Claimable(next.slots, q)
            && next.tasks == sys.tasks[id := FirstStored(q)] && next.prefetches == sys.prefetches
  {
    StoreInIsClaimable(cfg, bogus, sys.slots, q, o);
    hide SlotsValid, Claimable, StoreIn, ToStore, Negative;
    NextIsValid(cfg, bogus, sys, Answered(id, o));
  }

  lemma StoreInIsClaimable(cfg: Config, bogus: set<IpAddr>, s: Slots, q: Query, o: Outcome)
    requires cfg.capacity > 0 && cfg.memoryLimit == 0 && SlotsValid(cfg, s) && StoresPositive(cfg, bogus, q, o)
    ensures Claimable(StoreIn(cfg, s, ToStore(bogus, q, o), o.now, o.group), q)
  {
    var store := ToStore(bogus, q, o).value;
    ToStoreIsPrepared(cfg, bogus, q, o);
    hide ToStore, SlotsValid, Claimable, Inserted, NewSlot;
    StoredIsClaimable(cfg, s, InsertOp(store.response, o.now, store.ttl, o.group), q);
  }

  /** And claims it. */
  lemma StoreAndClaim(cfg: Config, bogus: set<IpAddr>, sys: System, id: nat, q: Query, o: Outcome)
    requires cfg.capacity > 0 && cfg.memoryLimit == 0 && SlotsValid(cfg, sys.slots) && StoresPositive(cfg, bogus, q, o)
    requires id in sys.tasks && sys.tasks[id] == Pending(q)
    ensures var next := Next(cfg, bogus, Next(cfg, bogus, sys, Answered(id, o)), Claim(id));
            && SlotsValid(cfg, next.slots) && EntryOf(next.slots, q).Some?
            && next.tasks == sys.tasks[id := Checking(q)] && next.prefetches == sys.prefetches
  {
    StoreFirst(cfg, bogus, sys, id, q, o);
    ClaimFirst(cfg, bogus, Next(cfg, bogus, sys, Answered(id, o)), id, q);
    hide Next, SlotsValid, Claimable, EntryOf;
  }

  lemma BegunKeepsEntry(s: Slots, q: Query)
    requires Claimable(s, q)
    ensures EntryOf(Begun(s, q), q).Some?
  {
    SamePlaces(s, Begun(s, q), q);
  }

  lemma ClaimFirst(cfg: Config, bogus: set<IpAddr>, sys: System, id: nat, q: Query)
    requires cfg.capacity > 0 && SlotsValid(cfg, sys.slots) && Claimable(sys.slots, q)
    requires id in sys.tasks && sys.tasks[id] == FirstStored(q)
    ensures var next := Next(cfg, bogus, sys, Claim(id));
            && SlotsValid(cfg, next.slots) && EntryOf(next.slots, q).Some?
            && next.tasks == sys.tasks[id := Checking(q)] && next.prefetches == sys.prefetches
  {
    BegunKeepsEntry(sys.slots, q);
    hide SlotsValid, Begun, EntryOf, Claimable;
    NextIsValid(cfg, bogus, sys, Claim(id));
  }

  lemma StoredIsClaimable(cfg: Config, s: Slots, op: Op, q: Query)
    requires cfg.capacity > 0 && cfg.memoryLimit == 0 && SlotsValid(cfg, s) && Allowed(cfg, op)
    requires op.InsertOp? && QueryOf(op.response.message) == q
    ensures Claimable(Step(cfg, s, op), q)
  {
    var x := NewSlot(cfg, op.response, op.now, op.ttl, op.group);
    assert x.query == q;
    InsertedIsPresentIff(cfg, s, x);
    ReplacedIsUnmarked(cfg, s, op, q);
    hide Inserted, NewSlot, SlotsValid, Allowed;
  }

  lemma RunFirst(cfg: Config, bogus: set<IpAddr>, sys: System, ev: Event, evs: seq<Event>)
    ensures RunSystem(cfg, bogus, sys, [ev] + evs) == RunSystem(cfg, bogus, Next(cfg, bogus, sys, ev), evs)
  {
    assert ([ev] + evs)[1..] == evs;
  }

  /** Two requests for one key, the second stored while the first is being checked: two refreshes of the key run at
      once, although a claim is refused while one does. */
  lemma TwoRefreshesOfOneKey(cfg: Config, bogus: set<IpAddr>, q: Query, o: Outcome)
    requires cfg.capacity > 0 && cfg.memoryLimit == 0 && StoresPositive(cfg, bogus, q, o)
    ensures var asks := [Ask(0, q), Ask(1, q), FirstAnswer(0, true), FirstAnswer(1, true)];
            var claims := [Answered(0, o), Claim(0), Answered(1, o), Claim(1)];
            var end := RunSystem(cfg, bogus, START, asks + claims);
            Refreshes(end, 0, q) && Refreshes(end, 1, q) && !OneAtMost(end, q)
  {
    var claims := [Answered(0, o), Claim(0), Answered(1, o), Claim(1)];
    var asked := System([], 126, map[0 := Pending(q), 1 := Pending(q)], multiset{});
    hide Next, RunSystem, StoresPositive, SlotsValid;
    NothingIsValid(cfg);
    StoreAndClaim(cfg, bogus, asked, 0, q, o);
    StoreAndClaim(cfg, bogus, Next(cfg, bogus, Next(cfg, bogus, asked, Answered(0, o)), Claim(0)), 1, q, o);
    RunFour(cfg, bogus, asked, Answered(0, o), Claim(0), Answered(1, o), Claim(1));
    RunAsks(cfg, bogus, q, claims);
  }

  lemma AskSteps(cfg: Config, bogus: set<IpAddr>, q: Query)
    ensures var s1 := System([], 127, map[0 := Looking(q)], multiset{});
            var s2 := System([], 126, map[0 := Looking(q), 1 := Looking(q)], multiset{});
            var s3 := System([], 126, map[0 := Pending(q), 1 := Looking(q)], multiset{});
            && Next(cfg, bogus, START, Ask(0, q)) == s1 && Next(cfg, bogus, s1, Ask(1, q)) == s2
            && Next(cfg, bogus, s2, FirstAnswer(0, true)) == s3
            && Next(cfg, bogus, s3, FirstAnswer(1, true)) ==
               System([], 126, map[0 := Pending(q), 1 := Pending(q)], multiset{})
  {
  }

  lemma RunAsks(cfg: Config, bogus: set<IpAddr>, q: Query, rest: seq<Event>)
    ensures RunSystem(cfg, bogus, START, [Ask(0, q), Ask(1, q), FirstAnswer(0, true), FirstAnswer(1, true)] + rest)
            == RunSystem(cfg, bogus, System([], 126, map[0 := Pending(q), 1 := Pending(q)], multiset{}), rest)
  {
    var e0, e1, e2, e3 := Ask(0, q), Ask(1, q), FirstAnswer(0, true), FirstAnswer(1, true);
    var s1 := System([], 127, map[0 := Looking(q)], multiset{});
    var s2 := System([], 126, map[0 := Looking(q), 1 := Looking(q)], multiset{});
    var s3 := System([], 126, map[0 := Pending(q), 1 := Looking(q)], multiset{});
    AskSteps(cfg, bogus, q);
    hide Next, RunSystem;
    RunFirst(cfg, bogus, START, e0, [e1] + ([e2] + ([e3] + rest)));
    RunFirst(cfg, bogus, s1, e1, [e2] + ([e3] + rest));
    RunFirst(cfg, bogus, s2, e2, [e3] + rest);
    RunFirst(cfg, bogus, s3, e3, rest);
    assert [e0, e1, e2, e3] + rest == [e0] + ([e1] + ([e2] + ([e3] + rest)));
  }

  /** A request or prefetch stores its answer and holds no task of its own. */
  lemma RequestStores(cfg: Config, bogus: set<IpAddr>, sys: System, q: Query, o: Outcome)
    requires cfg.capacity > 0 && cfg.memoryLimit == 0 && SlotsValid(cfg, sys.slots) && StoresPositive(cfg, bogus, q, o)
    ensures var next := Next(cfg, bogus, sys, Request(q, o));
            && SlotsValid(cfg, next.slots) && Claimable(next.slots, q)
            && next.tasks == sys.tasks && next.prefetches == sys.prefetches
  {
    StoreInIsClaimable(cfg, bogus, sys.slots, q, o);
    hide SlotsValid, Claimable, StoreIn, ToStore;
    NextIsValid(cfg, bogus, sys, Request(q, o));
  }

  lemma FinishLeavesEntry(cfg: Config, s: Slots, q: Query, now: int)
    requires SlotsValid(cfg, s) && EntryOf(s, q).Some?
    ensures Claimable(Finished(cfg, s, q, now), q)
  {
    SamePlaces(s, Finished(cfg, s, q, now), q);
  }

  /** A prefetch stores its key, a request stores and claims it, and then the prefetch ends: the request's refresh is
      under way without its mark, and the key can be claimed once more. */
  lemma PrefetchLiftsClaim(cfg: Config, bogus: set<IpAddr>, sys: System, id: nat, q: Query, o: Outcome, now: int)
    requires cfg.capacity > 0 && cfg.memoryLimit == 0 && SlotsValid(cfg, sys.slots) && StoresPositive(cfg, bogus, q, o)
    requires id in sys.tasks && sys.tasks[id] == Pending(q) && q in sys.prefetches
    ensures var end := RunSystem(cfg, bogus, sys, [Request(q, o), Answered(id, o), Claim(id), PrefetchDone(q, now)]);
            Refreshes(end, id, q) && Claimable(end.slots, q)
  {
    var s1 := Next(cfg, bogus, sys, Request(q, o));
    var s2 := Next(cfg, bogus, s1, Answered(id, o));
    var s3 := Next(cfg, bogus, s2, Claim(id));
    var s4 := Next(cfg, bogus, s3, PrefetchDone(q, now));
    hide Next, RunSystem, SlotsValid, Claimable, EntryOf, StoresPositive;
    RunFour(cfg, bogus, sys, Request(q, o), Answered(id, o), Claim(id), PrefetchDone(q, now));
    RequestStores(cfg, bogus, sys, q, o);
    StoreAndClaim(cfg, bogus, s1, id, q, o);
    PrefetchEnds(cfg, bogus, s3, q, now);
    assert s4.tasks[id] == Checking(q);
  }

  lemma PrefetchEnds(cfg: Config, bogus: set<IpAddr>, sys: System, q: Query, now: int)
    requires SlotsValid(cfg, sys.slots) && EntryOf(sys.slots, q).Some? && q in sys.prefetches
    ensures var next := Next(cfg, bogus, sys, PrefetchDone(q, now));
            next.tasks == sys.tasks && Claimable(next.slots, q)
  {
    FinishLeavesEntry(cfg, sys.slots, q, now);
    hide SlotsValid, EntryOf, Claimable, Finished;
  }

  lemma RunFour(cfg: Config, bogus: set<IpAddr>, sys: System, a: Event, b: Event, c: Event, d: Event)
    ensures RunSystem(cfg, bogus, sys, [a, b, c, d]) ==
            Next(cfg, bogus, Next(cfg, bogus, Next(cfg, bogus, Next(cfg, bogus, sys, a), b), c), d)
  {
    hide Next;
    RunFirst(cfg, bogus, sys, a, [b, c, d]);
    var s1 := Next(cfg, bogus, sys, a);
    RunFirst(cfg, bogus, s1, b, [c, d]);
    var s2 := Next(cfg, bogus, s1, b);
    RunFirst(cfg, bogus, s2, c, [d]);
    RunFirst(cfg, bogus, Next(cfg, bogus, s2, c), d, []);
    assert [a] + [b, c, d] == [a, b, c, d] && [b] + [c, d] == [b, c, d] && [c] + [d] == [c, d] && [d] + [] == [d];
  }

  /** Such a state is reached when the key's entry comes due while a request for it waits for its answer. */
  lemma PrefetchMeetsRequest(cfg: Config, bogus: set<IpAddr>, q: Query, o: Outcome, now: int, ahead: nat)
    requires cfg.capacity > 0 && cfg.memoryLimit == 0 && StoresPositive(cfg, bogus, q, o) && IsIpAddr(q.qtype)
    requires CheckTime(cfg, now, ahead) > o.now + ToStore(bogus, q, o).value.ttl * SECOND
    ensures var evs := [Ask(0, q), FirstAnswer(0, true), Request(q, o), TakeDue(now, ahead)];
            var sys := RunSystem(cfg, bogus, START, evs);
            SlotsValid(cfg, sys.slots) && 0 in sys.tasks && sys.tasks[0] == Pending(q) && q in sys.prefetches
  {
    RunFour(cfg, bogus, START, Ask(0, q), FirstAnswer(0, true), Request(q, o), TakeDue(now, ahead));
    var s2 := Next(cfg, bogus, Next(cfg, bogus, START, Ask(0, q)), FirstAnswer(0, true));
    assert s2 == System([], 127, map[0 := Pending(q)], multiset{});
    var s3 := Next(cfg, bogus, s2, Request(q, o));
    hide RunSystem, SlotsValid, ToStore, StoreIn, Marked, DueList, Keys, CheckTime, HandsOut;
    NothingIsValid(cfg);
    NextIsValid(cfg, bogus, s2, Request(q, o));
    NextIsValid(cfg, bogus, s3, TakeDue(now, ahead));
    StoredComesDue(cfg, bogus, q, o, now, ahead);
    KeysHandedOut(DueList(cfg, s3.slots, now, ahead), q);
  }

  lemma StoredComesDue(cfg: Config, bogus: set<IpAddr>, q: Query, o: Outcome, now: int, ahead: nat)
    requires cfg.capacity > 0 && cfg.memoryLimit == 0 && StoresPositive(cfg, bogus, q, o) && IsIpAddr(q.qtype)
    requires CheckTime(cfg, now, ahead) > o.now + ToStore(bogus, q, o).value.ttl * SECOND
    ensures var s := StoreIn(cfg, [], ToStore(bogus, q, o), o.now, o.group);
            exists p :: p in DueList(cfg, s, now, ahead) && p.query == q
  {
    var store := ToStore(bogus, q, o).value;
    var x := NewSlot(cfg, store.response, o.now, store.ttl, o.group);
    var s := StoreIn(cfg, [], ToStore(bogus, q, o), o.now, o.group);
    hide ToStore, DueList, CheckTime, MeasureMemory, NegativeTtl;
    assert s == [x] && EntryOf(s, q) == Some(x.entry);
    assert Due(cfg, x, now, ahead);
    HandsOutIff(cfg, s, now, ahead, q);
  }
}
