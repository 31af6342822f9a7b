/** Runs of cache operations (src/dns_mw_cache.rs). */
module CacheRuns {
  import opened Common
  import opened Messages
  import opened Responses
  import opened CacheEntries
  import opened Cache

  // ---- Runs of the cache ----

  /** One locked operation on the cache. */
  datatype Op =
    | InsertOp(response: Response, now: int, ttl: nat, group: seq<byte>)
    | GetOp(query: Query, now: int)
    | BeginOp(query: Query)
    | EndOp(query: Query)
    | FinishOp(query: Query, now: int)
    | ExpireOp(now: int, ahead: nat)
    | FlushOp
    | LoadOp(entries: seq<Slot>)

  /** What each operation of `DnsCache` does to the entries. */
  function Step(cfg: Config, s: Slots, op: Op): Slots {
    match op
    case InsertOp(response, now, ttl, group) => Inserted(cfg, s, NewSlot(cfg, response, now, ttl, group))
    case GetOp(q, now) => Looked(cfg, s, q, now)
    case BeginOp(q) => Begun(s, q)
    case EndOp(q) => Ended(s, q)
    case FinishOp(q, now) => Finished(cfg, s, q, now)
    case ExpireOp(now, ahead) => Marked(cfg, s, now, ahead)
    case FlushOp => []
    case LoadOp(entries) => Loaded(cfg, s, entries)
  }

  function Run(cfg: Config, s: Slots, ops: seq<Op>): Slots
    decreases |ops|
  {
    if ops == [] then s else Run(cfg, Step(cfg, s, ops[0]), ops[1..])
  }

  /** Responses come with a true encoding, and loaded entries as the file format makes them. */
  ghost predicate Allowed(cfg: Config, op: Op) {
    && (op.InsertOp? ==> Prepared(cfg.codec, op.response))
    && (op.LoadOp? ==> forall i :: 0 <= i < |op.entries| ==>
                         EntryValid(cfg, op.entries[i]) && !op.entries[i].entry.prefetching)
  }

  ghost predicate AllAllowed(cfg: Config, ops: seq<Op>) { forall i :: 0 <= i < |ops| ==> Allowed(cfg, ops[i]) }

  lemma NewSlotIsValid(cfg: Config, response: Response, now: int, ttl: nat, group: seq<byte>)
    requires Prepared(cfg.codec, response)
    ensures EntryValid(cfg, NewSlot(cfg, response, now, ttl, group))
  {
  }

  lemma ExpireKeepsValid(cfg: Config, s: Slots, now: int, ahead: nat)
    requires SlotsValid(cfg, s)
    ensures SlotsValid(cfg, Marked(cfg, s, now, ahead))
  {
    hide SlotsValid, Due;
    MarksKeepValid(cfg, s, Marked(cfg, s, now, ahead));
  }

  lemma NothingIsValid(cfg: Config)
    ensures SlotsValid(cfg, [])
  {
  }

  lemma StepKeepsValid(cfg: Config, s: Slots, op: Op)
    requires SlotsValid(cfg, s) && cfg.capacity > 0 && Allowed(cfg, op)
    ensures SlotsValid(cfg, Step(cfg, s, op))
  {
    assert EntriesValid(cfg, s);
    if op.InsertOp? { NewSlotIsValid(cfg, op.response, op.now, op.ttl, op.group); }
    hide EntryValid, EntriesValid, SlotsValid, NewSlot, Inserted, Looked, Begun, Ended, Finished, Marked, Loaded;
    match op
    case InsertOp(response, now, ttl, group) => InsertKeepsValid(cfg, s, NewSlot(cfg, response, now, ttl, group));
    case GetOp(q, now) => LookKeepsValid(cfg, s, q, now);
    case BeginOp(q) => MarkOpsKeepValid(cfg, s, q, 0);
    case EndOp(q) => MarkOpsKeepValid(cfg, s, q, 0);
    case FinishOp(q, now) => MarkOpsKeepValid(cfg, s, q, now);
    case ExpireOp(now, ahead) => ExpireKeepsValid(cfg, s, now, ahead);
    case FlushOp => NothingIsValid(cfg);
    case LoadOp(entries) => LoadKeepsValid(cfg, s, entries);
  }

  /** On every run the entries stay within capacity and budget, each with a true size and a true remembered reply. */
  lemma {:induction false} RunKeepsValid(cfg: Config, s: Slots, ops: seq<Op>)
    requires SlotsValid(cfg, s) && cfg.capacity > 0 && AllAllowed(cfg, ops)
    ensures SlotsValid(cfg, Run(cfg, s, ops))
    decreases |ops|
  {
    hide SlotsValid, Step, Allowed;
    if ops != [] {
      assert Allowed(cfg, ops[0]);
      StepKeepsValid(cfg, s, ops[0]);
      assert forall i :: 0 <= i < |ops| - 1 ==> ops[1..][i] == ops[i + 1];
      RunKeepsValid(cfg, Step(cfg, s, ops[0]), ops[1..]);
    }
  }

  /** So after any run a hit answers the adjustment of what is stored, and dead entries are never answered. */
  lemma RunAnswersAdjusted(cfg: Config, ops: seq<Op>, q: Query, now: int)
    requires cfg.capacity > 0 && AllAllowed(cfg, ops)
    ensures var s := Run(cfg, [], ops);
            match IndexOf(s, q)
            case None => Looked(cfg, s, q, now) == s
            case Some(i) =>
              if !MayBeServed(cfg, s[i].entry, now) then IndexOf(Looked(cfg, s, q, now), q) == None
              else SameAnswer(HitEntry(cfg, s[i], now, Usage(s)).response,
                              Adjusted(q, s[i].entry.data, ReplySeconds(cfg, s[i].entry, now)))
  {
    RunKeepsValid(cfg, [], ops);
    var s := Run(cfg, [], ops);
    assert Distinct(s) && forall i :: 0 <= i < |s| ==> EntryValid(cfg, s[i]);
    hide EntryValid, HitEntry, Adjusted, Dead, MayBeServed, Run, Usage, ReplySeconds, SameAnswer, SlotsValid;
    var at := IndexOf(s, q);
    if at.Some? {
      HitIsAdjusted(cfg, s[at.value], now, Usage(s));
      DeadIff(cfg, s[at.value].entry, now);
      RemovedIsGone(s, at.value);
    }
  }

  lemma RemovedIsGone(s: Slots, i: nat)
    requires Distinct(s) && i < |s|
    ensures IndexOf(Without(s, i), s[i].query) == None
  {
  }

  // ---- Recency over runs ----

  /** The operation uses this key: it stores an answer for it or looks it up. */
  predicate Uses(op: Op, q: Query) {
    (op.InsertOp? && QueryOf(op.response.message) == q) || (op.GetOp? && op.query == q)
  }

  /** When a key was last used in a run; zero if never. */
  function LastUse(ops: seq<Op>, q: Query): nat {
    if ops == [] then 0 else if Uses(ops[|ops| - 1], q) then |ops| else LastUse(ops[..|ops| - 1], q)
  }

  lemma {:induction false} LastUseBounded(ops: seq<Op>, q: Query)
    ensures LastUse(ops, q) <= |ops|
  {
    if ops != [] { LastUseBounded(ops[..|ops| - 1], q); }
  }

  /** Each entry was used after every entry behind it. */
  ghost predicate ByLastUse(ops: seq<Op>, s: Slots) {
    forall i, j :: 0 <= i < j < |s| ==> LastUse(ops, s[i].query) > LastUse(ops, s[j].query)
  }

  /** Leaving entries out or changing them in place keeps them ordered, as does an operation that uses none of them. */
  lemma StillByLastUse(ops: seq<Op>, op: Op, s: Slots, r: Slots, from: seq<nat>)
    requires ByLastUse(ops, s) && |from| == |r|
    requires forall i :: 0 <= i < |r| ==> from[i] < |s| && r[i].query == s[from[i]].query && !Uses(op, r[i].query)
    requires forall i, j :: 0 <= i < j < |r| ==> from[i] < from[j]
    ensures ByLastUse(ops + [op], r)
  {
  }

  /** An entry just used goes before all others. */
  lemma FrontByLastUse(ops: seq<Op>, op: Op, x: Slot, r: Slots)
    requires ByLastUse(ops + [op], r) && Uses(op, x.query) && forall i :: 0 <= i < |r| ==> !Uses(op, r[i].query)
    ensures ByLastUse(ops + [op], [x] + r)
  {
    hide Uses;
    assert (ops + [op])[..|ops|] == ops;
    forall i | 0 <= i < |r| ensures LastUse(ops + [op], r[i].query) <= |ops| { LastUseBounded(ops, r[i].query); }
  }

  function Upto(n: nat): seq<nat> { seq(n, i => i) }

  /** The places of all entries but one. */
  function Skipping(n: nat, i: nat): seq<nat>
    requires i < n
  {
    seq(n - 1, j => if j < i then j else j + 1)
  }

  lemma InsertByLastUse(cfg: Config, ops: seq<Op>, op: Op, s: Slots)
    requires Distinct(s) && ByLastUse(ops, s) && op.InsertOp?
    ensures ByLastUse(ops + [op], Step(cfg, s, op))
  {
    var x := NewSlot(cfg, op.response, op.now, op.ttl, op.group);
    assert x.query == QueryOf(op.response.message);
    hide NewSlot, FitBudget, LastUse, ByLastUse;
    var at := IndexOf(s, x.query);
    var p := Pushed(cfg, s, x);
    if at.Some? {
      var rest := Without(s, at.value);
      StillByLastUse(ops, op, s, rest, Skipping(|s|, at.value));
      FrontByLastUse(ops, op, p[0], rest);
    } else {
      var rest := p[1..];
      StillByLastUse(ops, op, s, rest, Upto(|rest|));
      FrontByLastUse(ops, op, p[0], rest);
      assert p == [p[0]] + rest;
    }
    PrefixByLastUse(ops + [op], p, Inserted(cfg, s, x));
  }

  lemma PrefixByLastUse(ops: seq<Op>, s: Slots, r: Slots)
    requires ByLastUse(ops, s) && r <= s
    ensures ByLastUse(ops, r)
  {
  }

  lemma LookByLastUse(cfg: Config, ops: seq<Op>, op: Op, s: Slots)
    requires Distinct(s) && ByLastUse(ops, s) && op.GetOp?
    ensures ByLastUse(ops + [op], Step(cfg, s, op))
  {
    hide HitEntry, Dead, LastUse, ByLastUse, Usage;
    var at := IndexOf(s, op.query);
    if at.None? {
      StillByLastUse(ops, op, s, s, Upto(|s|));
    } else {
      var rest := Without(s, at.value);
      StillByLastUse(ops, op, s, rest, Skipping(|s|, at.value));
      if !Dead(cfg, s[at.value].entry, op.now) {
        FrontByLastUse(ops, op, Step(cfg, s, op)[0], rest);
      }
    }
  }

  /** On every run that loads no file, the entries stand in the order of their last use, so what makes room for a new
      entry or for the budget is always what was used longest ago. */
  lemma {:induction false} RunOrdersByLastUse(cfg: Config, ops: seq<Op>)
    requires cfg.capacity > 0 && AllAllowed(cfg, ops) && forall i :: 0 <= i < |ops| ==> !ops[i].LoadOp?
    ensures ByLastUse(ops, Run(cfg, [], ops))
    decreases |ops|
  {
    if ops != [] {
      var before, op := ops[..|ops| - 1], ops[|ops| - 1];
      assert ops == before + [op];
      RunOrdersByLastUse(cfg, before);
      RunKeepsValid(cfg, [], before);
      assert Distinct(Run(cfg, [], before));
      RunConcat(cfg, [], before, [op]);
      var s := Run(cfg, [], before);
      assert Run(cfg, s, [op]) == Step(cfg, s, op) by { RunOne(cfg, s, op); }
      hide *;
      if op.InsertOp? {
        InsertByLastUse(cfg, before, op, s);
      } else if op.GetOp? {
        LookByLastUse(cfg, before, op, s);
      } else {
        MarksByLastUse(cfg, before, op, s);
      }
    }
  }

  lemma MarksByLastUse(cfg: Config, ops: seq<Op>, op: Op, s: Slots)
    requires ByLastUse(ops, s) && !op.InsertOp? && !op.GetOp? && !op.LoadOp?
    ensures ByLastUse(ops + [op], Step(cfg, s, op))
  {
  }

  lemma RunOne(cfg: Config, s: Slots, op: Op)
    ensures Run(cfg, s, [op]) == Step(cfg, s, op)
  {
  }

  lemma {:induction false} RunConcat(cfg: Config, s: Slots, a: seq<Op>, b: seq<Op>)
    ensures Run(cfg, s, a + b) == Run(cfg, Run(cfg, s, a), b)
    decreases |a|
  {
    hide Step;
    if a == [] {
      assert a + b == b;
    } else {
      assert (a + b)[1..] == a[1..] + b;
      RunConcat(cfg, Step(cfg, s, a[0]), a[1..], b);
    }
  }

  lemma RunNothing(cfg: Config, s: Slots)
    ensures Run(cfg, s, []) == s
  {
  }

  // ---- Marks over runs ----

  function EntryOf(s: Slots, q: Query): Option<Entry> {
    match IndexOf(s, q) case None => None case Some(i) => Some(s[i].entry)
  }

  /** The operation stores an entry for this key. */
  predicate Replaces(op: Op, q: Query) {
    match op
    case InsertOp(response, _, _, _) => QueryOf(response.message) == q
    case LoadOp(entries) => exists i :: 0 <= i < |entries| && entries[i].query == q
    case _ => false
  }

  /** The operation lifts the mark of this key. */
  predicate Releases(op: Op, q: Query) { Replaces(op, q) || op == EndOp(q) || (op.FinishOp? && op.query == q) }

  /** An entry for the key after the operation is the one before it, up to a hit. */
  ghost predicate Kept(s: Slots, s': Slots, q: Query) {
    match EntryOf(s', q)
    case None => true
    case Some(e') =>
      EntryOf(s, q).Some? && e'.prefetching == EntryOf(s, q).value.prefetching
          && e'.retryAt == EntryOf(s, q).value.retryAt
  }

  /** Every entry for the key is one of the former ones. */
  ghost predicate OnlyFrom(s: Slots, s': Slots, q: Query) {
    forall i :: 0 <= i < |s'| && s'[i].query == q ==> s'[i] in s
  }

  lemma FromBefore(s: Slots, s': Slots, q: Query)
    requires Distinct(s)
    requires OnlyFrom(s, s', q)
    ensures Kept(s, s', q)
  {
  }

  lemma PushedFromBefore(cfg: Config, s: Slots, x: Slot, q: Query)
    requires x.query != q
    ensures OnlyFrom(s, Pushed(cfg, s, x), q) && OnlyFrom(s, Put(cfg, s, x), q)
  {
    var at := IndexOf(s, x.query);
    if at.Some? {
      ToFrontFromBefore(s, at.value, x.entry, q);
      ToFrontFromBefore(s, at.value, x.entry.(hits := s[at.value].entry.hits + 1), q);
    }
  }

  lemma ToFrontFromBefore(s: Slots, i: nat, e: Entry, q: Query)
    requires i < |s| && s[i].query != q
    ensures OnlyFrom(s, ToFront(s, i, e), q)
  {
  }

  lemma {:induction false} PutAllFromBefore(cfg: Config, s: Slots, xs: seq<Slot>, q: Query)
    requires forall i :: 0 <= i < |xs| ==> xs[i].query != q
    ensures OnlyFrom(s, PutAll(cfg, s, xs), q)
  {
    if xs != [] {
      var mid, r := PutAll(cfg, s, xs[..|xs| - 1]), PutAll(cfg, s, xs);
      PutAllFromBefore(cfg, s, xs[..|xs| - 1], q);
      PushedFromBefore(cfg, mid, xs[|xs| - 1], q);
      forall i | 0 <= i < |r| && r[i].query == q ensures r[i] in s {
        var j :| 0 <= j < |mid| && mid[j] == r[i];
      }
    }
  }

  lemma LookedKeeps(cfg: Config, s: Slots, k: Query, now: int, q: Query)
    requires Distinct(s) && forall i :: 0 <= i < |s| ==> EntryValid(cfg, s[i])
    ensures Kept(s, Looked(cfg, s, k, now), q)
  {
    hide EntryValid, HitEntry, Dead, Adjusted;
    var s' := Looked(cfg, s, k, now);
    var at := IndexOf(s, k);
    if at.Some? && !Dead(cfg, s[at.value].entry, now) && k == q {
      HitIsAdjusted(cfg, s[at.value], now, Usage(s));
      assert s'[0].query == q && IndexOf(s', q) == Some(0);
    } else {
      FromBefore(s, s', q);
    }
  }

  /** Operations that store no entry for a key keep its marks, but for those that set or lift them. */
  lemma StepKeeps(cfg: Config, s: Slots, op: Op, q: Query)
    requires SlotsValid(cfg, s) && !Replaces(op, q)
    requires op.InsertOp? || op.GetOp? || op.FlushOp? || op.LoadOp?
    ensures Kept(s, Step(cfg, s, op), q)
  {
    match op
    case InsertOp(response, now, ttl, group) =>
      var x := NewSlot(cfg, response, now, ttl, group);
      hide EntryValid, NewSlot, FitBudget;
      assert x.query == QueryOf(response.message);
      PushedFromBefore(cfg, s, x, q);
      FromBefore(s, Inserted(cfg, s, x), q);
    case GetOp(k, now) => LookedKeeps(cfg, s, k, now, q);
    case FlushOp =>
    case LoadOp(entries) =>
      hide EntryValid, FitBudget;
      PutAllFromBefore(cfg, s, entries, q);
      assert Loaded(cfg, s, entries) <= PutAll(cfg, s, entries);
      FromBefore(s, Loaded(cfg, s, entries), q);
  }

  /** Marking keeps every key in its place. */
  lemma {:induction false} SamePlaces(s: Slots, s': Slots, q: Query)
    requires |s'| == |s| && forall i :: 0 <= i < |s| ==> s'[i].query == s[i].query
    ensures IndexOf(s', q) == IndexOf(s, q)
  {
    if s != [] { SamePlaces(s[1..], s'[1..], q); }
  }

  /** Missing, or marked. */
  predicate Quiet(s: Slots, q: Query) { EntryOf(s, q).Some? ==> EntryOf(s, q).value.prefetching }

  lemma QuietStep(cfg: Config, s: Slots, op: Op, q: Query)
    requires SlotsValid(cfg, s) && Quiet(s, q) && !Releases(op, q)
    ensures Quiet(Step(cfg, s, op), q)
  {
    if op.InsertOp? || op.GetOp? || op.FlushOp? || op.LoadOp? {
      StepKeeps(cfg, s, op, q);
    } else {
      hide Due, EntryValid;
      SamePlaces(s, Step(cfg, s, op), q);
    }
  }

  lemma {:induction false} QuietRun(cfg: Config, s: Slots, ops: seq<Op>, q: Query)
    requires SlotsValid(cfg, s) && cfg.capacity > 0 && AllAllowed(cfg, ops)
    requires Quiet(s, q) && forall i :: 0 <= i < |ops| ==> !Releases(ops[i], q)
    ensures Quiet(Run(cfg, s, ops), q)
    decreases |ops|
  {
    hide SlotsValid, Step, Allowed, Quiet, Releases;
    if ops != [] {
      assert Allowed(cfg, ops[0]) && !Releases(ops[0], q);
      StepKeepsValid(cfg, s, ops[0]);
      QuietStep(cfg, s, ops[0], q);
      assert forall i :: 0 <= i < |ops| - 1 ==> ops[1..][i] == ops[i + 1];
      QuietRun(cfg, Step(cfg, s, ops[0]), ops[1..], q);
    }
  }

  lemma NotDue(cfg: Config, s: Slots, q: Query, now: int, ahead: nat)
    requires Distinct(s) && (EntryOf(s, q).Some? ==> !Due(cfg, Slot(q, EntryOf(s, q).value), now, ahead))
    ensures forall p :: p in DueList(cfg, s, now, ahead) ==> p.query != q
  {
  }

  /** On every run, a marked entry is neither claimed for a refresh nor handed out for a prefetch until its key is
      stored, finished or released, or the entry is gone. */
  lemma MarkedIsNotTaken(cfg: Config, s: Slots, ops: seq<Op>, q: Query, now: int, ahead: nat)
    requires SlotsValid(cfg, s) && cfg.capacity > 0 && AllAllowed(cfg, ops)
    requires EntryOf(s, q).Some? && EntryOf(s, q).value.prefetching
    requires forall i :: 0 <= i < |ops| ==> !Releases(ops[i], q)
    ensures var r := Run(cfg, s, ops);
            && Begun(r, q) == r
            && (EntryOf(r, q).Some? ==> EntryOf(r, q).value.prefetching)
            && forall p :: p in DueList(cfg, r, now, ahead) ==> p.query != q
  {
    QuietRun(cfg, s, ops, q);
    RunKeepsValid(cfg, s, ops);
    NotDue(cfg, Run(cfg, s, ops), q, now, ahead);
  }

  /** Missing, or not to be tried again before `until`. */
  predicate HeldBack(s: Slots, q: Query, until: int) {
    EntryOf(s, q).Some? ==> EntryOf(s, q).value.retryAt.Some? && EntryOf(s, q).value.retryAt.value >= until
  }

  /** The time a prefetch that failed at `now` may be tried again. */
  function RetryTime(cfg: Config, now: int): int { now + Max(cfg.prefetchTime, 1) * SECOND }

  /** The operation neither stores an entry for the key nor ends a prefetch of it earlier than `t0`. */
  predicate NotBefore(op: Op, q: Query, t0: int) {
    !Replaces(op, q) && (op.FinishOp? && op.query == q ==> op.now >= t0)
  }

  lemma HeldBackStep(cfg: Config, s: Slots, op: Op, q: Query, t0: int)
    requires SlotsValid(cfg, s) && HeldBack(s, q, RetryTime(cfg, t0)) && NotBefore(op, q, t0)
    ensures HeldBack(Step(cfg, s, op), q, RetryTime(cfg, t0))
  {
    if op.InsertOp? || op.GetOp? || op.FlushOp? || op.LoadOp? {
      hide Step, EntryValid, Replaces;
      StepKeeps(cfg, s, op, q);
    } else {
      hide Due, SlotsValid;
      SamePlaces(s, Step(cfg, s, op), q);
    }
  }

  lemma {:induction false} HeldBackRun(cfg: Config, s: Slots, ops: seq<Op>, q: Query, t0: int)
    requires SlotsValid(cfg, s) && cfg.capacity > 0 && AllAllowed(cfg, ops)
    requires HeldBack(s, q, RetryTime(cfg, t0)) && forall i :: 0 <= i < |ops| ==> NotBefore(ops[i], q, t0)
    ensures HeldBack(Run(cfg, s, ops), q, RetryTime(cfg, t0))
    decreases |ops|
  {
    hide SlotsValid, Step, Allowed, HeldBack, NotBefore;
    if ops != [] {
      assert Allowed(cfg, ops[0]) && NotBefore(ops[0], q, t0);
      StepKeepsValid(cfg, s, ops[0]);
      HeldBackStep(cfg, s, ops[0], q, t0);
      assert forall i :: 0 <= i < |ops| - 1 ==> ops[1..][i] == ops[i + 1];
      HeldBackRun(cfg, Step(cfg, s, ops[0]), ops[1..], q, t0);
    }
  }

  /** A prefetch that fails at `t0` is not tried again before its retry time on any run that does not replace the
      entry. */
  lemma FailedPrefetchWaits(cfg: Config, s: Slots, ops: seq<Op>, q: Query, t0: int, now: int, ahead: nat)
    requires SlotsValid(cfg, s) && cfg.capacity > 0 && AllAllowed(cfg, ops)
    requires EntryOf(s, q).Some? && EntryOf(s, q).value.prefetching
    requires forall i :: 0 <= i < |ops| ==> NotBefore(ops[i], q, t0)
    requires now < t0 + Max(cfg.prefetchTime, 1) * SECOND
    ensures forall p :: p in DueList(cfg, Run(cfg, Finished(cfg, s, q, t0), ops), now, ahead) ==> p.query != q
  {
    var s1 := Finished(cfg, s, q, t0);
    FinishedIsHeldBack(cfg, s, q, t0);
    StepKeepsValid(cfg, s, FinishOp(q, t0));
    hide Finished, NotBefore, AllAllowed, EntryValid, DueList;
    HeldBackRun(cfg, s1, ops, q, t0);
    RunKeepsValid(cfg, s1, ops);
    NotDue(cfg, Run(cfg, s1, ops), q, now, ahead);
  }

  lemma FinishedIsHeldBack(cfg: Config, s: Slots, q: Query, t0: int)
    requires EntryOf(s, q).Some? && EntryOf(s, q).value.prefetching
    ensures HeldBack(Finished(cfg, s, q, t0), q, RetryTime(cfg, t0))
  {
    SamePlaces(s, Finished(cfg, s, q, t0), q);
  }

  // ---- What an entry holds ----

  /** An entry holds what operation `i` stored, and no later one has stored its key. */
  ghost predicate StoredBy(ops: seq<Op>, i: nat, x: Slot) {
    && i < |ops| && ops[i].InsertOp? && QueryOf(ops[i].response.message) == x.query
    && x.entry.data == Stored(ops[i].response, ops[i].now, ops[i].ttl, ops[i].group)
    && x.entry.validUntil == ops[i].now + ops[i].ttl * SECOND
    && forall j :: i < j < |ops| ==> !Replaces(ops[j], x.query)
  }

  ghost predicate HasSource(ops: seq<Op>, x: Slot) { exists i :: StoredBy(ops, i, x) }

  ghost predicate AllSourced(ops: seq<Op>, s: Slots) { forall k :: 0 <= k < |s| ==> HasSource(ops, s[k]) }

  lemma SourceStays(ops: seq<Op>, op: Op, x: Slot, y: Slot)
    requires HasSource(ops, x) && SameHeld(x, y) && !Replaces(op, x.query)
    ensures HasSource(ops + [op], y)
  {
    hide Replaces;
    var i :| StoredBy(ops, i, x);
    assert StoredBy(ops + [op], i, y);
  }

  predicate SameHeld(x: Slot, y: Slot) {
    x.query == y.query && x.entry.data == y.entry.data && x.entry.validUntil == y.entry.validUntil
  }

  /** An entry for the same key holds the same. */
  ghost predicate HeldIn(s: Slots, x: Slot) {
    exists l :: 0 <= l < |s| && SameHeld(s[l], x)
  }

  /** Entries changed in place or moved, but not in what they hold. */
  lemma SourcesStay(ops: seq<Op>, op: Op, s: Slots, r: Slots)
    requires AllSourced(ops, s)
    requires forall k :: 0 <= k < |r| ==> !Replaces(op, r[k].query) && HeldIn(s, r[k])
    ensures AllSourced(ops + [op], r)
  {
    hide Replaces, HasSource;
    forall k | 0 <= k < |r| ensures HasSource(ops + [op], r[k]) {
      assert HeldIn(s, r[k]);
      var l :| 0 <= l < |s| && SameHeld(s[l], r[k]);
      SourceStays(ops, op, s[l], r[k]);
    }
  }

  lemma InsertIsSourced(cfg: Config, ops: seq<Op>, op: Op, s: Slots)
    requires Distinct(s) && AllSourced(ops, s) && op.InsertOp?
    ensures AllSourced(ops + [op], Step(cfg, s, op))
  {
    var x := NewSlot(cfg, op.response, op.now, op.ttl, op.group);
    var p := Pushed(cfg, s, x);
    assert StoredBy(ops + [op], |ops|, p[0]);
    PushedRest(cfg, s, x);
    hide HasSource, FitBudget, NewSlot, Pushed;
    SourcesStay(ops, op, s, p[1..]);
    assert forall k :: 1 <= k < |p| ==> p[k] == p[1..][k - 1];
    assert Step(cfg, s, op) <= p;
  }

  lemma PushedRest(cfg: Config, s: Slots, x: Slot)
    requires Distinct(s)
    ensures var p := Pushed(cfg, s, x);
            p != [] && SameHeld(x, p[0])
            && forall k :: 1 <= k < |p| ==> p[k] in s && p[k].query != x.query
  {
  }

  lemma LookIsSourced(cfg: Config, ops: seq<Op>, op: Op, s: Slots)
    requires SlotsValid(cfg, s) && AllSourced(ops, s) && op.GetOp?
    ensures AllSourced(ops + [op], Step(cfg, s, op))
  {
    hide EntryValid, HitEntry, Dead, HasSource, Usage, Distinct;
    var at := IndexOf(s, op.query);
    if at.Some? { HitIsAdjusted(cfg, s[at.value], op.now, Usage(s)); }
    SourcesStay(ops, op, s, Step(cfg, s, op));
  }

  lemma MarkIsSourced(cfg: Config, ops: seq<Op>, op: Op, s: Slots)
    requires AllSourced(ops, s) && !op.InsertOp? && !op.GetOp? && !op.LoadOp?
    ensures AllSourced(ops + [op], Step(cfg, s, op))
  {
    hide HasSource, Due;
    var r := Step(cfg, s, op);
    forall k | 0 <= k < |r| ensures HeldIn(s, r[k]) {
      assert SameHeld(s[k], r[k]);
    }
    SourcesStay(ops, op, s, r);
  }

  /** On every run that loads no file, each entry holds what the last operation to store its key stored. */
  lemma {:induction false} RunHoldsLastStored(cfg: Config, ops: seq<Op>)
    requires cfg.capacity > 0 && AllAllowed(cfg, ops) && forall i :: 0 <= i < |ops| ==> !ops[i].LoadOp?
    ensures AllSourced(ops, Run(cfg, [], ops))
    decreases |ops|
  {
    if ops != [] {
      var before, op := ops[..|ops| - 1], ops[|ops| - 1];
      assert ops == before + [op];
      RunHoldsLastStored(cfg, before);
      RunKeepsValid(cfg, [], before);
      RunConcat(cfg, [], before, [op]);
      var s := Run(cfg, [], before);
      assert Distinct(s);
      RunOne(cfg, s, op);
      hide *;
      if op.InsertOp? {
        InsertIsSourced(cfg, before, op, s);
      } else if op.GetOp? {
        LookIsSourced(cfg, before, op, s);
      } else {
        MarkIsSourced(cfg, before, op, s);
      }
    }
  }

  /** On such a run a negative answer is never given later than it was stored, plus the lifetime it was stored with. */
  lemma NegativeIsNeverStale(cfg: Config, ops: seq<Op>, q: Query, now: int)
    requires cfg.capacity > 0 && AllAllowed(cfg, ops) && forall i :: 0 <= i < |ops| ==> !ops[i].LoadOp?
    ensures var s := Run(cfg, [], ops);
            match IndexOf(s, q)
            case None => true
            case Some(k) =>
              NegativeTtl(s[k].entry.data.message).Some? && IndexOf(Looked(cfg, s, q, now), q).Some? ==>
                exists i: nat :: StoredBy(ops, i, s[k]) && now <= ops[i].now + ops[i].ttl * SECOND
  {
    RunAnswersAdjusted(cfg, ops, q, now);
    RunHoldsLastStored(cfg, ops);
    var s := Run(cfg, [], ops);
    hide Run, Looked, HitEntry, Adjusted, NegativeTtl;
    match IndexOf(s, q)
    case None =>
    case Some(k) =>
      assert HasSource(ops, s[k]);
      var i: nat :| StoredBy(ops, i, s[k]);
      assert MayBeServed(cfg, s[k].entry, now) && NegativeTtl(s[k].entry.data.message).Some? ==>
             now <= s[k].entry.validUntil;
  }

  // ---- What makes room ----

  predicate Has(s: Slots, q: Query) { IndexOf(s, q).Some? }

  /** An insert drops from the old end: when an entry for another key stays, so does every entry before it. */
  lemma InsertDropsOldest(cfg: Config, s: Slots, x: Slot, i: nat, j: nat)
    requires Distinct(s) && i < j < |s| && s[i].query != x.query && s[j].query != x.query
    requires Has(Inserted(cfg, s, x), s[j].query)
    ensures Has(Inserted(cfg, s, x), s[i].query)
  {
    hide FitBudget;
    var p, r := Pushed(cfg, s, x), Inserted(cfg, s, x);
    var at := IndexOf(s, x.query);
    var i', j' := if at.None? || i < at.value then i + 1 else i, if at.None? || j < at.value then j + 1 else j;
    var k := IndexOf(r, s[j].query).value;
    PushedPlaces(cfg, s, x, i);
    PushedPlaces(cfg, s, x, j);
    assert r <= p && p[k].query == s[j].query;
    PushedDistinct(cfg, s, x);
    if j' < |p| { assert k == j'; }
    assert r[i'].query == s[i].query;
  }

  /** Where an entry for another key is after the new one has been put first, if it is still there. */
  lemma PushedPlaces(cfg: Config, s: Slots, x: Slot, i: nat)
    requires Distinct(s) && i < |s| && s[i].query != x.query
    ensures var at, p := IndexOf(s, x.query), Pushed(cfg, s, x);
            var i' := if at.None? || i < at.value then i + 1 else i;
            && (i' < |p| ==> p[i'] == s[i])
            && (forall k :: 0 <= k < |p| && p[k].query == s[i].query ==> k == i')
            && (at.Some? || |s| < cfg.capacity ==> i' < |p|)
  {
    var at, p := IndexOf(s, x.query), Pushed(cfg, s, x);
    PushedDistinct(cfg, s, x);
    var i' := if at.None? || i < at.value then i + 1 else i;
    assert i' < |p| ==> p[i'] == s[i];
    if i' >= |p| { assert at.None? && i == |s| - 1 && forall k :: 1 <= k < |p| ==> p[k] == s[k - 1]; }
  }

  lemma PushedDistinct(cfg: Config, s: Slots, x: Slot)
    requires Distinct(s)
    ensures Distinct(Pushed(cfg, s, x))
  {
  }

  /** While the count and the budget allow, nothing is dropped. */
  lemma InsertKeepsAll(cfg: Config, s: Slots, x: Slot, i: nat)
    requires Distinct(s) && i < |s| && s[i].query != x.query
    requires Has(s, x.query) || |s| < cfg.capacity
    requires cfg.memoryLimit == 0 || Usage(OthersThan(s, x.query)) + x.entry.memoryUsage <= cfg.memoryLimit
    ensures Has(Inserted(cfg, s, x), s[i].query)
  {
    var p := Pushed(cfg, s, x);
    PushedPlaces(cfg, s, x, i);
    PushedUsage(cfg, s, x);
    hide Usage, Pushed;
    assert Inserted(cfg, s, x) == p;
  }

  /** The entries for other keys. */
  function OthersThan(s: Slots, q: Query): Slots {
    match IndexOf(s, q) case None => s case Some(i) => Without(s, i)
  }

  lemma PushedUsage(cfg: Config, s: Slots, x: Slot)
    requires Has(s, x.query) || |s| < cfg.capacity
    ensures Usage(Pushed(cfg, s, x)) == Usage(OthersThan(s, x.query)) + x.entry.memoryUsage
  {
    var p := Pushed(cfg, s, x);
    assert p == [p[0]] + OthersThan(s, x.query) && p[0].entry.memoryUsage == x.entry.memoryUsage;
    UsageConcat([p[0]], OthersThan(s, x.query));
    UsageOne(p[0]);
  }

  lemma UsedLaterIsBefore(ops: seq<Op>, s: Slots, i: nat, j: nat)
    requires ByLastUse(ops, s) && i < |s| && j < |s| && LastUse(ops, s[i].query) > LastUse(ops, s[j].query)
    ensures i < j
  {
  }

  /** On every run without a load, what an insert drops was used before everything it keeps. */
  lemma RunDropsLeastRecentlyUsed(cfg: Config, ops: seq<Op>, op: Op, kept: Query, used: Query)
    requires cfg.capacity > 0 && AllAllowed(cfg, ops) && forall i :: 0 <= i < |ops| ==> !ops[i].LoadOp?
    requires op.InsertOp? && !Uses(op, kept) && !Uses(op, used)
    requires var s := Run(cfg, [], ops);
             Has(s, kept) && Has(s, used) && LastUse(ops, used) > LastUse(ops, kept) && Has(Step(cfg, s, op), kept)
    ensures Has(Step(cfg, Run(cfg, [], ops), op), used)
  {
    RunOrdersByLastUse(cfg, ops);
    RunKeepsValid(cfg, [], ops);
    var s := Run(cfg, [], ops);
    assert Distinct(s);
    var x := NewSlot(cfg, op.response, op.now, op.ttl, op.group);
    assert x.query == QueryOf(op.response.message);
    var i, j := IndexOf(s, used).value, IndexOf(s, kept).value;
    hide NewSlot, Run, Inserted, SlotsValid, LastUse;
    assert s[i].query == used && s[j].query == kept;
    UsedLaterIsBefore(ops, s, i, j);
    InsertDropsOldest(cfg, s, x, i, j);
  }

  /** What a stored entry is: unmarked, fresh until its TTL has passed, with a use more than the entry it replaced. */
  lemma InsertedEntry(cfg: Config, s: Slots, op: Op)
    requires op.InsertOp? && Step(cfg, s, op) != []
    ensures var y, q := Step(cfg, s, op)[0], QueryOf(op.response.message);
            && y.query == q
            && y.entry.data == op.response.(validUntil := op.now + op.ttl * SECOND, group := Some(op.group))
            && y.entry.validUntil == op.now + op.ttl * SECOND
            && !y.entry.prefetching && y.entry.retryAt == None && y.entry.ttlReply == None
            && y.entry.hits == match EntryOf(s, q) case None => 0 case Some(e) => e.hits + 1
  {
    hide MeasureMemory, FitBudget;
    var x := NewSlot(cfg, op.response, op.now, op.ttl, op.group);
    assert Step(cfg, s, op) <= Pushed(cfg, s, x);
  }

  // ---- Claiming a marked entry ----

  /** A claim of the key would succeed: there is an entry and it is not marked. */
  predicate Claimable(s: Slots, q: Query) { EntryOf(s, q).Some? && !EntryOf(s, q).value.prefetching }

  /** Missing, or not marked. */
  predicate Unmarked(s: Slots, q: Query) { EntryOf(s, q).Some? ==> !EntryOf(s, q).value.prefetching }

  /** A scan hands the key out. */
  ghost predicate HandsOut(cfg: Config, s: Slots, now: int, ahead: nat, q: Query) {
    exists p :: p in DueList(cfg, s, now, ahead) && p.query == q
  }

  /** The operation marks the key: it is a claim that succeeds, or a scan that hands the key out. */
  ghost predicate Marks(cfg: Config, s: Slots, op: Op, q: Query) {
    (op == BeginOp(q) && Claimable(s, q)) || (op.ExpireOp? && HandsOut(cfg, s, op.now, op.ahead, q))
  }

  ghost predicate NeverMarks(cfg: Config, s: Slots, ops: seq<Op>, q: Query)
    decreases |ops|
  {
    ops == [] || (!Marks(cfg, s, ops[0], q) && NeverMarks(cfg, Step(cfg, s, ops[0]), ops[1..], q))
  }

  lemma RefusedClaim(s: Slots, q: Query)
    ensures !Claimable(s, q) ==> Begun(s, q) == s
  {
  }

  lemma UnmarkedStep(cfg: Config, s: Slots, op: Op, q: Query)
    requires SlotsValid(cfg, s) && Allowed(cfg, op) && !Marks(cfg, s, op, q) && (Unmarked(s, q) || Releases(op, q))
    ensures Unmarked(Step(cfg, s, op), q)
  {
    assert Distinct(s);
    hide Unmarked, SlotsValid, Allowed, Distinct, Claimable, Ended, Finished, Marked;
    if Replaces(op, q) {
      ReplacedIsUnmarked(cfg, s, op, q);
    } else if op.InsertOp? || op.GetOp? || op.FlushOp? || op.LoadOp? {
      hide Replaces, Step;
      StepKeeps(cfg, s, op, q);
      KeptIsUnmarked(s, Step(cfg, s, op), q);
    } else if op.ExpireOp? {
      HandedOutIsMarked(cfg, s, op.now, op.ahead, q);
    } else if op.query == q {
      EndUnmarks(cfg, s, q, if op.FinishOp? then op.now else 0);
      RefusedClaim(s, q);
    } else {
      OtherKeyStep(cfg, s, op, q);
    }
  }

  lemma KeptIsUnmarked(s: Slots, s': Slots, q: Query)
    requires Kept(s, s', q) && Unmarked(s, q)
    ensures Unmarked(s', q)
  {
  }

  lemma OtherKeyStep(cfg: Config, s: Slots, op: Op, q: Query)
    requires (op.BeginOp? || op.EndOp? || op.FinishOp?) && op.query != q && Unmarked(s, q)
    ensures Unmarked(Step(cfg, s, op), q)
  {
    SamePlaces(s, Step(cfg, s, op), q);
  }

  lemma ReplacedIsUnmarked(cfg: Config, s: Slots, op: Op, q: Query)
    requires SlotsValid(cfg, s) && Allowed(cfg, op) && Replaces(op, q)
    ensures Unmarked(Step(cfg, s, op), q)
  {
    hide EntryValid, FitBudget;
    if op.InsertOp? {
      var x := NewSlot(cfg, op.response, op.now, op.ttl, op.group);
      PushedRest(cfg, s, x);
      assert Step(cfg, s, op) <= Pushed(cfg, s, x);
    } else {
      LoadedIsUnmarked(cfg, s, op.entries, q);
      assert Step(cfg, s, op) <= PutAll(cfg, s, op.entries);
    }
  }

  ghost predicate NoneMarked(s: Slots, q: Query) {
    forall i :: 0 <= i < |s| && s[i].query == q ==> !s[i].entry.prefetching
  }

  lemma {:induction false} LoadedIsUnmarked(cfg: Config, s: Slots, xs: seq<Slot>, q: Query)
    requires Distinct(s) && exists i :: 0 <= i < |xs| && xs[i].query == q
    requires forall i :: 0 <= i < |xs| ==> !xs[i].entry.prefetching
    ensures NoneMarked(PutAll(cfg, s, xs), q)
  {
    var rest, x := xs[..|xs| - 1], xs[|xs| - 1];
    var mid := PutAll(cfg, s, rest);
    PutAllDistinct(cfg, s, rest);
    if x.query != q {
      assert exists i :: 0 <= i < |rest| && rest[i].query == q;
      LoadedIsUnmarked(cfg, s, rest, q);
      PushedFromBefore(cfg, mid, x, q);
    }
  }

  lemma {:induction false} PutAllDistinct(cfg: Config, s: Slots, xs: seq<Slot>)
    requires Distinct(s)
    ensures Distinct(PutAll(cfg, s, xs))
  {
    if xs != [] { PutAllDistinct(cfg, s, xs[..|xs| - 1]); }
  }

  /** Ending a refresh or a prefetch leaves the key without a mark. */
  lemma EndUnmarks(cfg: Config, s: Slots, q: Query, now: int)
    requires Distinct(s)
    ensures Unmarked(Ended(s, q), q) && Unmarked(Finished(cfg, s, q, now), q)
  {
    SamePlaces(s, Ended(s, q), q);
    SamePlaces(s, Finished(cfg, s, q, now), q);
  }

  /** A key is marked by handing it out, or not at all. */
  lemma HandedOutIsMarked(cfg: Config, s: Slots, now: int, ahead: nat, q: Query)
    requires Distinct(s)
    ensures !Unmarked(Marked(cfg, s, now, ahead), q) <==> !Unmarked(s, q) || HandsOut(cfg, s, now, ahead, q)
    ensures HandsOut(cfg, s, now, ahead, q) ==> Claimable(s, q)
  {
    hide Due;
    DueListIsExact(cfg, s, now, ahead);
    SamePlaces(s, Marked(cfg, s, now, ahead), q);
    var due := DueList(cfg, s, now, ahead);
    var at := IndexOf(s, q);
    if at.Some? && Due(cfg, s[at.value], now, ahead) {
      assert PrefetchOf(s[at.value]) in due;
    }
    if p :| p in due && p.query == q {
      assert FromDue(cfg, s, now, ahead, p);
      var i: nat :| DueAt(cfg, s, now, ahead, p, i);
      assert at == Some(i);
      DueIsUnmarked(cfg, s[i], now, ahead);
    }
  }

  lemma DueIsUnmarked(cfg: Config, x: Slot, now: int, ahead: nat)
    requires Due(cfg, x, now, ahead)
    ensures !x.entry.prefetching
  {
  }

  /** Whatever happens to a marked entry, short of being marked again: a second claim of its key succeeds exactly when
      the key has been stored, ended or finished meanwhile, and an entry for it is there. */
  lemma SecondClaimIff(cfg: Config, s: Slots, ops: seq<Op>, q: Query)
    requires SlotsValid(cfg, s) && cfg.capacity > 0 && AllAllowed(cfg, ops)
    requires Quiet(s, q) && NeverMarks(cfg, s, ops, q)
    ensures Claimable(Run(cfg, s, ops), q) <==>
            EntryOf(Run(cfg, s, ops), q).Some? && exists i :: 0 <= i < |ops| && Releases(ops[i], q)
  {
    if exists i :: 0 <= i < |ops| && Releases(ops[i], q) {
      UnmarkedRun(cfg, s, ops, q);
    } else {
      QuietRun(cfg, s, ops, q);
    }
  }

  lemma {:induction false} UnmarkedRun(cfg: Config, s: Slots, ops: seq<Op>, q: Query)
    requires SlotsValid(cfg, s) && cfg.capacity > 0 && AllAllowed(cfg, ops) && NeverMarks(cfg, s, ops, q)
    requires Unmarked(s, q) || exists i :: 0 <= i < |ops| && Releases(ops[i], q)
    ensures Unmarked(Run(cfg, s, ops), q)
    decreases |ops|
  {
    hide SlotsValid, Step, Allowed, Unmarked, Releases, Marks;
    if ops != [] {
      assert Allowed(cfg, ops[0]);
      StepKeepsValid(cfg, s, ops[0]);
      assert forall i :: 0 <= i < |ops| - 1 ==> ops[1..][i] == ops[i + 1];
      if Unmarked(s, q) || Releases(ops[0], q) {
        UnmarkedStep(cfg, s, ops[0], q);
      } else {
        var i :| 0 <= i < |ops| && Releases(ops[i], q);
        assert ops[1..][i - 1] == ops[i];
      }
      UnmarkedRun(cfg, Step(cfg, s, ops[0]), ops[1..], q);
    }
  }
}
