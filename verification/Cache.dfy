/** The DNS cache: recency, entry capacity, byte budget, hits, refresh marks and prefetching (src/dns_mw_cache.rs). */
module Cache {
  import opened Common
  import opened Messages
  import opened Responses
  import opened CacheEntries

  /** The entries, the most recently used first. */
  type Slots = seq<Slot>

  // ---- The recency list ----

  function IndexOf(s: Slots, q: Query): (r: Option<nat>)
    ensures r.None? <==> forall i :: 0 <= i < |s| ==> s[i].query != q
    ensures r.Some? ==> r.value < |s| && s[r.value].query == q
  {
    if s == [] then None
    else if s[0].query == q then Some(0)
    else match IndexOf(s[1..], q)
      case None => None
      case Some(i) => Some(i + 1)
  }

  ghost predicate Distinct(s: Slots) { forall i, j :: 0 <= i < j < |s| ==> s[i].query != s[j].query }

  function Without(s: Slots, i: nat): Slots
    requires i < |s|
  {
    s[..i] + s[i + 1..]
  }

  /** Entry `i` with a new value, as the most recently used. */
  function ToFront(s: Slots, i: nat, e: Entry): Slots
    requires i < |s|
  {
    [Slot(s[i].query, e)] + Without(s, i)
  }

  function Usage(s: Slots): nat { if s == [] then 0 else s[0].entry.memoryUsage + Usage(s[1..]) }

  lemma {:induction false} UsageConcat(a: Slots, b: Slots)
    ensures Usage(a + b) == Usage(a) + Usage(b)
  {
    if a == [] {
      assert a + b == b;
    } else {
      assert (a + b)[1..] == a[1..] + b;
      UsageConcat(a[1..], b);
    }
  }

  lemma UsageOne(x: Slot)
    ensures Usage([x]) == x.entry.memoryUsage
  {
  }

  lemma UsageWithout(s: Slots, i: nat)
    requires i < |s|
    ensures Usage(s) == s[i].entry.memoryUsage + Usage(Without(s, i))
  {
    hide Usage;
    assert s == s[..i] + ([s[i]] + s[i + 1..]);
    UsageConcat(s[..i], [s[i]] + s[i + 1..]);
    UsageConcat([s[i]], s[i + 1..]);
    UsageConcat(s[..i], s[i + 1..]);
    UsageOne(s[i]);
  }

  lemma UsageLast(s: Slots)
    requires s != []
    ensures Usage(s) == Usage(s[..|s| - 1]) + s[|s| - 1].entry.memoryUsage
  {
    hide Usage;
    UsageWithout(s, |s| - 1);
    assert Without(s, |s| - 1) == s[..|s| - 1];
  }

  /** The least recently used entries dropped until the rest fits the budget; zero means no budget. */
  function FitBudget(s: Slots, limit: nat): (r: Slots)
    ensures r <= s
    ensures limit > 0 ==> Usage(r) <= limit
  {
    if limit == 0 || Usage(s) <= limit then s else FitBudget(s[..|s| - 1], limit)
  }

  /** No more is dropped than the budget asks for: one entry more would not fit. */
  lemma {:induction false} FitBudgetIsMaximal(s: Slots, limit: nat, k: nat)
    requires limit > 0 && |FitBudget(s, limit)| < k <= |s|
    ensures Usage(s[..k]) > limit
  {
    if k == |s| {
      assert s[..k] == s;
    } else {
      FitBudgetIsMaximal(s[..|s| - 1], limit, k);
      assert s[..|s| - 1][..k] == s[..k];
    }
  }

  // ---- What the operations do to the entries ----

  ghost predicate SlotsValid(cfg: Config, s: Slots) {
    && Distinct(s)
    && |s| <= cfg.capacity
    && (cfg.memoryLimit > 0 ==> Usage(s) <= cfg.memoryLimit)
    && forall i :: 0 <= i < |s| ==> EntryValid(cfg, s[i])
  }

  /** The stored form of a response that lives for `ttl` seconds. */
  function Stored(response: Response, now: int, ttl: nat, group: seq<byte>): Response {
    response.(validUntil := now + ttl * SECOND, group := Some(group))
  }

  function NewSlot(cfg: Config, response: Response, now: int, ttl: nat, group: seq<byte>): Slot {
    var data := Stored(response, now, ttl, group);
    Slot(QueryOf(data.message), NewEntry(cfg, data, now + ttl * SECOND))
  }

  /** A new entry first; the one it replaces passes on its hits, or else the last entry makes room. */
  function Pushed(cfg: Config, s: Slots, x: Slot): Slots {
    match IndexOf(s, x.query)
    case Some(i) => ToFront(s, i, x.entry.(hits := s[i].entry.hits + 1))
    case None => if |s| >= cfg.capacity && s != [] then [x] + s[..|s| - 1] else [x] + s
  }

  function Inserted(cfg: Config, s: Slots, x: Slot): Slots { FitBudget(Pushed(cfg, s, x), cfg.memoryLimit) }

  /** `LruCache::put`, as loading a saved cache uses it. */
  function Put(cfg: Config, s: Slots, x: Slot): Slots {
    match IndexOf(s, x.query)
    case Some(i) => ToFront(s, i, x.entry)
    case None => if |s| >= cfg.capacity && s != [] then [x] + s[..|s| - 1] else [x] + s
  }

  function PutAll(cfg: Config, s: Slots, xs: seq<Slot>): Slots {
    if xs == [] then s else Put(cfg, PutAll(cfg, s, xs[..|xs| - 1]), xs[|xs| - 1])
  }

  function Loaded(cfg: Config, s: Slots, xs: seq<Slot>): Slots { FitBudget(PutAll(cfg, s, xs), cfg.memoryLimit) }

  /** The entries after a lookup: a hit moves its entry to the front, a dead entry is removed. */
  function Looked(cfg: Config, s: Slots, q: Query, now: int): Slots {
    match IndexOf(s, q)
    case None => s
    case Some(i) =>
      if Dead(cfg, s[i].entry, now) then Without(s, i)
      else ToFront(s, i, HitEntry(cfg, s[i], now, Usage(s)).entry)
  }

  function WithEntry(s: Slots, i: nat, e: Entry): Slots
    requires i < |s|
  {
    s[i := s[i].(entry := e)]
  }

  function Begun(s: Slots, q: Query): Slots {
    match IndexOf(s, q)
    case Some(i) => if s[i].entry.prefetching then s else WithEntry(s, i, s[i].entry.(prefetching := true))
    case None => s
  }

  function Ended(s: Slots, q: Query): Slots {
    match IndexOf(s, q) case Some(i) => WithEntry(s, i, s[i].entry.(prefetching := false)) case None => s
  }

  function Finished(cfg: Config, s: Slots, q: Query, now: int): Slots {
    match IndexOf(s, q)
    case Some(i) =>
      if s[i].entry.prefetching
      then WithEntry(s, i, s[i].entry.(prefetching := false, retryAt := Some(now + Max(cfg.prefetchTime, 1) * SECOND)))
      else s
    case None => s
  }

  // ---- Prefetching ----

  const MAX_TTL: int := 86400

  /** The time entries are checked against: the prefetch delay in the past when stale answers are served, and some
      seconds ahead. */
  function CheckTime(cfg: Config, now: int, ahead: nat): int {
    var delay := if cfg.serveExpired then cfg.prefetchTime * SECOND else 0;
    (if now >= delay then now - delay else now) + ahead * SECOND
  }

  predicate Retrying(e: Entry, now: int) { e.retryAt.Some? && e.retryAt.value > now }

  /** Entries prefetching may ever take: unmarked positive address entries. */
  predicate Watched(s: Slot) { !Negative(s.entry.data) && !s.entry.prefetching && IsIpAddr(s.query.qtype) }

  /** Due for a prefetch now. */
  predicate Due(cfg: Config, s: Slot, now: int, ahead: nat) {
    Watched(s) && !Retrying(s.entry, now) && !IsCurrent(s.entry, CheckTime(cfg, now, ahead))
  }

  /** How long an entry that is not due asks to wait, if it asks at all. */
  function Delay(cfg: Config, s: Slot, now: int, ahead: nat): Option<int> {
    if Negative(s.entry.data) || s.entry.prefetching then None
    else if Retrying(s.entry, now) then Some(s.entry.retryAt.value - now)
    else if !IsIpAddr(s.query.qtype) then None
    else if IsCurrent(s.entry, CheckTime(cfg, now, ahead)) then Some(s.entry.validUntil - CheckTime(cfg, now, ahead))
    else None
  }

  function Wait(cfg: Config, s: Slots, now: int, ahead: nat): int {
    if s == [] then MAX_TTL * SECOND
    else
      var last := |s| - 1;
      var rest := Wait(cfg, s[..last], now, ahead);
      var d := Delay(cfg, s[last], now, ahead);
      if d.Some? then Min(rest, d.value) else rest
  }

  /** The wait is the least delay any entry asks for, within a day. */
  lemma {:induction false} WaitIsLeast(cfg: Config, s: Slots, now: int, ahead: nat)
    ensures var w := Wait(cfg, s, now, ahead);
            && w <= MAX_TTL * SECOND
            && (forall i :: 0 <= i < |s| && Delay(cfg, s[i], now, ahead).Some? ==>
                w <= Delay(cfg, s[i], now, ahead).value)
            && (w == MAX_TTL * SECOND || exists i :: 0 <= i < |s| && Delay(cfg, s[i], now, ahead) == Some(w))
  {
    hide Delay;
    if s != [] {
      var last := |s| - 1;
      var w := Wait(cfg, s, now, ahead);
      WaitIsLeast(cfg, s[..last], now, ahead);
      assert forall i :: 0 <= i < last ==> s[..last][i] == s[i];
      if w != MAX_TTL * SECOND && Delay(cfg, s[last], now, ahead) != Some(w) {
        var i :| 0 <= i < last && Delay(cfg, s[..last][i], now, ahead) == Some(w);
        assert Delay(cfg, s[i], now, ahead) == Some(w);
      }
    }
  }

  function MarkDue(cfg: Config, s: Slot, now: int, ahead: nat): Slot {
    if Due(cfg, s, now, ahead) then s.(entry := s.entry.(prefetching := true)) else s
  }

  function Marked(cfg: Config, s: Slots, now: int, ahead: nat): (r: Slots)
    ensures |r| == |s|
  {
    seq(|s|, i requires 0 <= i < |s| => MarkDue(cfg, s[i], now, ahead))
  }

  datatype Prefetch = Prefetch(query: Query, hits: nat, group: Option<seq<byte>>)

  function PrefetchOf(s: Slot): Prefetch { Prefetch(s.query, s.entry.hits, s.entry.data.group) }

  /** The due entries, in recency order. */
  function DueList(cfg: Config, s: Slots, now: int, ahead: nat): (r: seq<Prefetch>) {
    if s == [] then []
    else
      var last := |s| - 1;
      DueList(cfg, s[..last], now, ahead) + if Due(cfg, s[last], now, ahead) then [PrefetchOf(s[last])] else []
  }

  predicate DueAt(cfg: Config, s: Slots, now: int, ahead: nat, p: Prefetch, i: nat) {
    i < |s| && Due(cfg, s[i], now, ahead) && p == PrefetchOf(s[i])
  }

  ghost predicate FromDue(cfg: Config, s: Slots, now: int, ahead: nat, p: Prefetch) {
    exists i :: DueAt(cfg, s, now, ahead, p, i)
  }

  /** A list with each due entry once and nothing else. */
  ghost predicate ExactlyDue(cfg: Config, s: Slots, now: int, ahead: nat, r: seq<Prefetch>) {
    && (forall i :: 0 <= i < |s| && Due(cfg, s[i], now, ahead) ==>
          Prefetch(s[i].query, s[i].entry.hits, s[i].entry.data.group) in r)
    && (forall k :: 0 <= k < |r| ==> FromDue(cfg, s, now, ahead, r[k]))
    && (forall k, l :: 0 <= k < l < |r| ==> r[k].query != r[l].query)
  }

  lemma {:induction false} DueListIsExact(cfg: Config, s: Slots, now: int, ahead: nat)
    requires Distinct(s)
    ensures ExactlyDue(cfg, s, now, ahead, DueList(cfg, s, now, ahead))
  {
    hide Due;
    if s != [] {
      var last, r := |s| - 1, DueList(cfg, s, now, ahead);
      var rest := DueList(cfg, s[..last], now, ahead);
      DueListIsExact(cfg, s[..last], now, ahead);
      forall i | 0 <= i < |s| && Due(cfg, s[i], now, ahead) ensures PrefetchOf(s[i]) in r {
        if i < last { assert s[..last][i] == s[i] && PrefetchOf(s[i]) in rest; }
      }
      forall k | 0 <= k < |rest|
        ensures FromDue(cfg, s, now, ahead, rest[k])
        ensures rest[k].query != s[last].query
      {
        assert FromDue(cfg, s[..last], now, ahead, rest[k]);
        var i: nat :| DueAt(cfg, s[..last], now, ahead, rest[k], i);
        assert s[..last][i] == s[i];
        assert DueAt(cfg, s, now, ahead, rest[k], i);
      }
      forall k | 0 <= k < |r| ensures FromDue(cfg, s, now, ahead, r[k]) {
        if k < |rest| {
          assert r[k] == rest[k];
        } else {
          assert DueAt(cfg, s, now, ahead, r[k], last);
        }
      }
      forall k, l | 0 <= k < l < |r| ensures r[k].query != r[l].query {
        assert r[k] == rest[k];
        if l < |rest| { assert r[l] == rest[l]; }
      }
    }
  }

  /** When an entry is taken: an unmarked positive address entry whose retry time, if any, has come, and whose deadline
      is before the time ahead, less the prefetch delay while stale answers are served. */
  lemma DueIff(cfg: Config, s: Slot, now: int, ahead: nat)
    ensures Due(cfg, s, now, ahead) <==>
              var delay := if cfg.serveExpired then cfg.prefetchTime * SECOND else 0;
              && (s.query.qtype == A || s.query.qtype == AAAA)
              && NegativeTtl(s.entry.data.message).None? && !s.entry.prefetching
              && (s.entry.retryAt.Some? ==> s.entry.retryAt.value <= now)
              && s.entry.validUntil < now + ahead * SECOND - if now >= delay then delay else 0
  {
    hide NegativeTtl;
  }

  /** What an entry that may be taken but is not asks to wait: until its retry time, or until it would be taken. */
  lemma DelayIsTight(cfg: Config, s: Slot, now: int, ahead: nat)
    requires Watched(s) && !Due(cfg, s, now, ahead) && now >= if cfg.serveExpired then cfg.prefetchTime * SECOND else 0
    ensures var d := Delay(cfg, s, now, ahead);
            && d.Some? && d.value >= 0
            && if s.entry.retryAt.Some? && s.entry.retryAt.value > now then now + d.value == s.entry.retryAt.value
               else !Due(cfg, s, now + d.value, ahead) && Due(cfg, s, now + d.value + 1, ahead)
  {
    hide Negative;
  }

  /** Whatever is skipped now is not due before the wait is over, if nothing else changes. */
  lemma WaitIsLowerBound(cfg: Config, s: Slots, now: int, ahead: nat, i: nat, t: int)
    requires i < |s| && Watched(s[i]) && !Due(cfg, s[i], now, ahead)
    requires now <= t < now + Wait(cfg, s, now, ahead)
    ensures !Due(cfg, s[i], t, ahead)
  {
  }

  ghost predicate ByHits(r: seq<Prefetch>) { forall i, j :: 0 <= i < j < |r| ==> r[i].hits >= r[j].hits }

  /** Puts one in after those with as many hits or more. */
  function InsertByHits(r: seq<Prefetch>, x: Prefetch): seq<Prefetch> {
    if r == [] || r[|r| - 1].hits >= x.hits then r + [x]
    else InsertByHits(r[..|r| - 1], x) + [r[|r| - 1]]
  }

  /** The stable sort by descending hits. */
  function SortByHits(xs: seq<Prefetch>): seq<Prefetch> {
    if xs == [] then [] else InsertByHits(SortByHits(xs[..|xs| - 1]), xs[|xs| - 1])
  }

  lemma {:induction false} InsertByHitsKeeps(r: seq<Prefetch>, x: Prefetch)
    ensures multiset(InsertByHits(r, x)) == multiset(r) + multiset{x}
  {
    if r != [] && r[|r| - 1].hits < x.hits {
      InsertByHitsKeeps(r[..|r| - 1], x);
      assert r == r[..|r| - 1] + [r[|r| - 1]];
    }
  }

  lemma {:induction false} InsertByHitsOrders(r: seq<Prefetch>, x: Prefetch)
    requires ByHits(r)
    ensures var r' := InsertByHits(r, x);
            ByHits(r') && r' != [] && (r'[|r'| - 1] == x || (r != [] && r'[|r'| - 1] == r[|r| - 1]))
  {
    if r != [] && r[|r| - 1].hits < x.hits { InsertByHitsOrders(r[..|r| - 1], x); }
  }

  /** Sorting orders by hits and loses nothing. */
  lemma {:induction false} SortByHitsSorts(xs: seq<Prefetch>)
    ensures ByHits(SortByHits(xs)) && multiset(SortByHits(xs)) == multiset(xs)
  {
    if xs != [] {
      var rest, x := xs[..|xs| - 1], xs[|xs| - 1];
      SortByHitsSorts(rest);
      InsertByHitsKeeps(SortByHits(rest), x);
      InsertByHitsOrders(SortByHits(rest), x);
      assert xs == rest + [x];
    }
  }

  // ---- Every operation keeps the entries valid ----

  ghost predicate EntriesValid(cfg: Config, s: Slots) {
    Distinct(s) && |s| <= cfg.capacity && forall i :: 0 <= i < |s| ==> EntryValid(cfg, s[i])
  }

  lemma FitKeepsValid(cfg: Config, s: Slots)
    requires EntriesValid(cfg, s)
    ensures SlotsValid(cfg, FitBudget(s, cfg.memoryLimit))
  {
  }

  lemma ToFrontKeepsValid(cfg: Config, s: Slots, i: nat, e: Entry)
    requires EntriesValid(cfg, s) && i < |s| && EntryValid(cfg, Slot(s[i].query, e))
    ensures EntriesValid(cfg, ToFront(s, i, e))
  {
  }

  lemma NewFirstKeepsValid(cfg: Config, s: Slots, x: Slot)
    requires EntriesValid(cfg, s) && cfg.capacity > 0 && EntryValid(cfg, x)
    requires forall i :: 0 <= i < |s| ==> s[i].query != x.query
    ensures EntriesValid(cfg, [x] + s[..Min(|s|, cfg.capacity - 1)])
  {
    hide EntryValid;
    var r := [x] + s[..Min(|s|, cfg.capacity - 1)];
    assert forall j :: 1 <= j < |r| ==> r[j] == s[j - 1];
  }

  lemma PutKeepsValid(cfg: Config, s: Slots, x: Slot)
    requires EntriesValid(cfg, s) && cfg.capacity > 0 && EntryValid(cfg, x)
    ensures EntriesValid(cfg, Put(cfg, s, x)) && EntriesValid(cfg, Pushed(cfg, s, x))
  {
    var at := IndexOf(s, x.query);
    hide EntryValid, EntriesValid;
    if at.Some? {
      var e := x.entry.(hits := s[at.value].entry.hits + 1);
      HitsKeepValid(cfg, x, x.entry.hits);
      HitsKeepValid(cfg, x, s[at.value].entry.hits + 1);
      ToFrontKeepsValid(cfg, s, at.value, x.entry);
      ToFrontKeepsValid(cfg, s, at.value, e);
    } else {
      assert |s| <= cfg.capacity by { CapacityHolds(cfg, s); }
      NewFirstKeepsValid(cfg, s, x);
      assert s[..|s|] == s;
    }
  }

  lemma CapacityHolds(cfg: Config, s: Slots)
    requires EntriesValid(cfg, s)
    ensures |s| <= cfg.capacity
  {
  }

  lemma HitsKeepValid(cfg: Config, x: Slot, hits: nat)
    requires EntryValid(cfg, x)
    ensures EntryValid(cfg, Slot(x.query, x.entry.(hits := hits)))
  {
  }

  lemma InsertKeepsValid(cfg: Config, s: Slots, x: Slot)
    requires EntriesValid(cfg, s) && cfg.capacity > 0 && EntryValid(cfg, x)
    ensures SlotsValid(cfg, Inserted(cfg, s, x))
  {
    PutKeepsValid(cfg, s, x);
    FitKeepsValid(cfg, Pushed(cfg, s, x));
  }

  lemma {:induction false} LoadKeepsValid(cfg: Config, s: Slots, xs: seq<Slot>)
    requires EntriesValid(cfg, s) && cfg.capacity > 0 && forall i :: 0 <= i < |xs| ==> EntryValid(cfg, xs[i])
    ensures EntriesValid(cfg, PutAll(cfg, s, xs)) && SlotsValid(cfg, Loaded(cfg, s, xs))
  {
    if xs != [] {
      LoadKeepsValid(cfg, s, xs[..|xs| - 1]);
      PutKeepsValid(cfg, PutAll(cfg, s, xs[..|xs| - 1]), xs[|xs| - 1]);
    }
    FitKeepsValid(cfg, PutAll(cfg, s, xs));
  }

  /** An inserted entry is there afterwards exactly when it fits the budget on its own. */
  lemma InsertedIsPresentIff(cfg: Config, s: Slots, x: Slot)
    requires cfg.capacity > 0
    ensures IndexOf(Inserted(cfg, s, x), x.query).Some? <==>
            (cfg.memoryLimit == 0 || x.entry.memoryUsage <= cfg.memoryLimit)
  {
    var p := Pushed(cfg, s, x);
    var r := Inserted(cfg, s, x);
    assert p[0].query == x.query && p[0].entry.memoryUsage == x.entry.memoryUsage;
    UsageOne(p[0]);
    assert p[..1] == [p[0]];
    if r == [] {
      if cfg.memoryLimit > 0 { FitBudgetIsMaximal(p, cfg.memoryLimit, 1); }
    } else {
      assert r[0] == p[0];
      assert r == r[..1] + r[1..];
      UsageConcat(r[..1], r[1..]);
    }
  }

  lemma HitUsage(cfg: Config, s: Slot, now: int, total: nat)
    requires EntryValid(cfg, s) && total >= s.entry.memoryUsage
    ensures var e := HitEntry(cfg, s, now, total).entry;
            e.memoryUsage <= s.entry.memoryUsage || cfg.memoryLimit == 0
            || total - s.entry.memoryUsage + e.memoryUsage <= cfg.memoryLimit
  {
    hide ResponseMemory, Adjusted, Dead, MeasureMemory;
  }

  lemma LookKeepsValid(cfg: Config, s: Slots, q: Query, now: int)
    requires SlotsValid(cfg, s)
    ensures SlotsValid(cfg, Looked(cfg, s, q, now))
  {
    hide EntryValid, HitEntry, Dead;
    var at := IndexOf(s, q);
    if at.Some? {
      var i := at.value;
      UsageWithout(s, i);
      if Dead(cfg, s[i].entry, now) {
        WithoutKeepsValid(cfg, s, i);
      } else {
        var e := HitEntry(cfg, s[i], now, Usage(s)).entry;
        HitIsAdjusted(cfg, s[i], now, Usage(s));
        HitUsage(cfg, s[i], now, Usage(s));
        ToFrontKeepsValid(cfg, s, i, e);
        UsageConcat([Slot(s[i].query, e)], Without(s, i));
        UsageOne(Slot(s[i].query, e));
      }
    }
  }

  lemma WithoutKeepsValid(cfg: Config, s: Slots, i: nat)
    requires EntriesValid(cfg, s) && i < |s|
    ensures EntriesValid(cfg, Without(s, i))
  {
  }

  /** Two entries that differ in their marks only. */
  predicate SameButMarks(a: Entry, b: Entry) { a == b.(prefetching := a.prefetching, retryAt := a.retryAt) }

  /** Changing marks changes nothing else. */
  lemma {:induction false} MarksKeepValid(cfg: Config, s: Slots, r: Slots)
    requires SlotsValid(cfg, s) && |r| == |s|
    requires forall i :: 0 <= i < |s| ==> r[i].query == s[i].query && SameButMarks(r[i].entry, s[i].entry)
    ensures SlotsValid(cfg, r) && Usage(r) == Usage(s)
  {
    SameUsage(s, r);
    forall i | 0 <= i < |r| ensures EntryValid(cfg, r[i]) { assert EntryValid(cfg, s[i]); }
  }

  lemma MarkOpsKeepValid(cfg: Config, s: Slots, q: Query, now: int)
    requires SlotsValid(cfg, s)
    ensures SlotsValid(cfg, Begun(s, q)) && Usage(Begun(s, q)) == Usage(s)
    ensures SlotsValid(cfg, Ended(s, q)) && Usage(Ended(s, q)) == Usage(s)
    ensures SlotsValid(cfg, Finished(cfg, s, q, now)) && Usage(Finished(cfg, s, q, now)) == Usage(s)
  {
    hide SlotsValid, Usage;
    MarksKeepValid(cfg, s, Begun(s, q));
    MarksKeepValid(cfg, s, Ended(s, q));
    MarksKeepValid(cfg, s, Finished(cfg, s, q, now));
  }

  lemma {:induction false} SameUsage(s: Slots, r: Slots)
    requires |r| == |s| && forall i :: 0 <= i < |s| ==> r[i].entry.memoryUsage == s[i].entry.memoryUsage
    ensures Usage(r) == Usage(s)
  {
    if s != [] { SameUsage(s[1..], r[1..]); }
  }

  // ---- The cache ----

  class DnsCache {
    const cfg: Config
    var slots: Slots
    var memoryUsage: nat

    /** The entries are valid and the byte count is their total size. */
    ghost predicate Valid()
      reads this
    {
      SlotsValid(cfg, slots) && memoryUsage == Usage(slots)
    }

    constructor (cfg: Config)
      ensures Valid() && this.cfg == cfg && slots == []
    {
      this.cfg, slots, memoryUsage := cfg, [], 0;
    }

    /** Subtraction that stops at zero; the byte count never has to. */
    static function SaturatingSub(a: nat, b: nat): nat { if a >= b then a - b else 0 }

    /** Drops entries from the end while the count is over the budget. */
    static method PopWhileOver(s: Slots, usage: nat, limit: nat) returns (r: Slots, u: nat)
      requires usage == Usage(s)
      ensures r == FitBudget(s, limit) && u == Usage(r)
    {
      r, u := s, usage;
      while limit > 0 && u > limit
        invariant u == Usage(r) && FitBudget(r, limit) == FitBudget(s, limit)
        decreases |r|
      {
        if r == [] { break; }
        UsageLast(r);
        u := SaturatingSub(u, r[|r| - 1].entry.memoryUsage);
        r := r[..|r| - 1];
      }
    }

    method InsertResponse(response: Response, now: int, ttl: nat, group: seq<byte>)
      requires Valid() && Prepared(cfg.codec, response) && cfg.capacity > 0
      modifies this
      ensures Valid()
      ensures slots == Inserted(cfg, old(slots), NewSlot(cfg, response, now, ttl, group))
    {
      var x := NewSlot(cfg, response, now, ttl, group);
      assert EntryValid(cfg, x);
      InsertKeepsValid(cfg, slots, x);
      hide EntryValid, NewSlot, FitBudget, Pushed, Usage;
      var s, usage := Push(cfg, slots, memoryUsage, x);
      slots, memoryUsage := PopWhileOver(s, usage, cfg.memoryLimit);
    }

    /** Replaces or adds an entry, keeping the byte count. */
    static method Push(cfg: Config, slots: Slots, memoryUsage: nat, x: Slot) returns (s: Slots, usage: nat)
      requires memoryUsage == Usage(slots) && cfg.capacity > 0
      ensures s == Pushed(cfg, slots, x) && usage == Usage(s)
    {
      hide Usage;
      var at := IndexOf(slots, x.query);
      if at.Some? {
        var i := at.value;
        UsageWithout(slots, i);
        var e := x.entry.(hits := slots[i].entry.hits + 1);
        usage := SaturatingSub(memoryUsage, slots[i].entry.memoryUsage) + e.memoryUsage;
        UsageConcat([Slot(slots[i].query, e)], Without(slots, i));
        UsageOne(Slot(slots[i].query, e));
        s := ToFront(slots, i, e);
      } else {
        s, usage := [x] + slots, memoryUsage + x.entry.memoryUsage;
        UsageConcat([x], slots);
        UsageOne(x);
        if |slots| >= cfg.capacity {
          UsageLast(s);
          assert s[..|s| - 1] == [x] + slots[..|slots| - 1];
          s, usage := s[..|s| - 1], SaturatingSub(usage, s[|s| - 1].entry.memoryUsage);
        }
      }
    }

    /** A lookup answers exactly the adjustment of the stored message, fresh or remembered, and only while the entry
        may be served: a negative one up to its deadline, a positive one up to the stale limit. */
    method Get(q: Query, now: int) returns (r: Option<(Response, CacheStatus)>)
      requires Valid()
      modifies this
      ensures Valid() && slots == Looked(cfg, old(slots), q, now)
      ensures match IndexOf(old(slots), q)
              case None => r == None
              case Some(i) =>
                var e := old(slots)[i].entry;
                if !MayBeServed(cfg, e, now) then r == None
                else r.Some? && (r.value.1 == CacheStatus.Valid <==> now <= e.validUntil)
                     && SameAnswer(r.value.0, Adjusted(q, e.data, ReplySeconds(cfg, e, now)))
                     && Prepared(cfg.codec, r.value.0)
    {
      LookKeepsValid(cfg, slots, q, now);
      hide Usage, EntryValid, HitEntry, Adjusted, Dead, MayBeServed, Prepared, Distinct;
      var at := IndexOf(slots, q);
      if at.None? { return None; }
      var i := at.value;
      var slot, rest := slots[i], Without(slots, i);
      HitIsAdjusted(cfg, slot, now, Usage(slots));
      UsageWithout(slots, i);
      DeadIff(cfg, slot.entry, now);
      if Dead(cfg, slot.entry, now) {
        memoryUsage := memoryUsage - slot.entry.memoryUsage;
        slots := rest;
        return None;
      }
      var value, response, total := AnswerHit(cfg, slot, now, memoryUsage);
      UsageConcat([Slot(q, value)], rest);
      UsageOne(Slot(q, value));
      slots, memoryUsage := [Slot(q, value)] + rest, total;
      r := Some((response, Status(slot.entry, now)));
    }

    /** One hit: answers from the remembered reply, or adjusts the stored response and perhaps remembers that. */
    static method AnswerHit(cfg: Config, s: Slot, now: int, memoryUsage: nat)
        returns (value: Entry, res: Response, total: nat)
      requires EntryValid(cfg, s) && memoryUsage >= s.entry.memoryUsage
      ensures var h := HitEntry(cfg, s, now, memoryUsage);
              value == h.entry && res == h.response && total == memoryUsage - s.entry.memoryUsage + value.memoryUsage
    {
      hide Adjusted, ResponseMemory, MeasureMemory, Negative, ReplySeconds, Prepared;
      value, total := s.entry, memoryUsage;
      var ttl := ReplySeconds(cfg, value, now);
      var repeated := value.replyTtl == Some(ttl);
      value := value.(hits := value.hits + 1, replyTtl := Some(ttl));
      if repeated && value.ttlReply.Some? {
        res := value.ttlReply.value.response;
        return;
      }
      res := Adjusted(s.query, value.data, ttl);
      var previous := if value.ttlReply.Some? then value.ttlReply.value.memoryUsage else 0;
      total := total - previous;
      value := value.(memoryUsage := value.memoryUsage - previous, ttlReply := None);
      if repeated {
        res := WithPreparedWire(cfg.codec, res);
        var cost := ResponseMemory(cfg, res) + cfg.sizes.reply;
        if cfg.memoryLimit == 0 || total + cost <= cfg.memoryLimit {
          value := value.(memoryUsage := value.memoryUsage + cost, ttlReply := Some(TtlReply(res, cost)));
          total := total + cost;
        }
      }
    }

    method Flush()
      modifies this
      ensures Valid() && slots == []
    {
      slots, memoryUsage := [], 0;
    }

    /** Puts the entries of a saved cache in, then counts the bytes anew and drops what does not fit. */
    method Load(entries: seq<Slot>)
      requires Valid() && cfg.capacity > 0 && forall i :: 0 <= i < |entries| ==> EntryValid(cfg, entries[i])
      modifies this
      ensures Valid() && slots == Loaded(cfg, old(slots), entries)
    {
      LoadKeepsValid(cfg, slots, entries);
      hide EntryValid, Usage, Put, FitBudget;
      var before := slots;
      var s := before;
      for k := 0 to |entries|
        invariant s == PutAll(cfg, before, entries[..k])
      {
        assert entries[..k + 1][..k] == entries[..k];
        s := Put(cfg, s, entries[k]);
      }
      assert entries[..|entries|] == entries;
      var usage := Total(s);
      slots, memoryUsage := PopWhileOver(s, usage, cfg.memoryLimit);
    }

    static method Total(s: Slots) returns (usage: nat)
      ensures usage == Usage(s)
    {
      usage := 0;
      for k := 0 to |s|
        invariant usage == Usage(s[..k])
      {
        UsageLast(s[..k + 1]);
        assert s[..k + 1][..k] == s[..k];
        usage := usage + s[k].entry.memoryUsage;
      }
      assert s[..|s|] == s;
    }

    /** Marks an entry, unless it is missing or marked already. */
    method BeginRefresh(q: Query) returns (r: bool)
      requires Valid()
      modifies `slots
      ensures Valid() && slots == Begun(old(slots), q)
      ensures r <==> IndexOf(old(slots), q).Some? && !old(slots)[IndexOf(old(slots), q).value].entry.prefetching
    {
      MarkOpsKeepValid(cfg, slots, q, 0);
      hide SlotsValid, Usage;
      var at := IndexOf(slots, q);
      if at.Some? && !slots[at.value].entry.prefetching {
        slots := slots[at.value := slots[at.value].(entry := slots[at.value].entry.(prefetching := true))];
        r := true;
      } else {
        r := false;
      }
    }

    method EndRefresh(q: Query)
      requires Valid()
      modifies `slots
      ensures Valid() && slots == Ended(old(slots), q)
    {
      MarkOpsKeepValid(cfg, slots, q, 0);
      hide SlotsValid, Usage;
      var at := IndexOf(slots, q);
      if at.Some? {
        slots := slots[at.value := slots[at.value].(entry := slots[at.value].entry.(prefetching := false))];
      }
    }

    method FinishPrefetch(q: Query, now: int)
      requires Valid()
      modifies `slots
      ensures Valid() && slots == Finished(cfg, old(slots), q, now)
    {
      hide SlotsValid, Usage, Begun, Ended, Finished;
      MarkOpsKeepValid(cfg, slots, q, now);
      slots := LiftMark(cfg, slots, q, now);
    }

    /** Lifts a mark that is set, and sets the retry time. */
    static method LiftMark(cfg: Config, slots: Slots, q: Query, now: int) returns (s: Slots)
      ensures s == Finished(cfg, slots, q, now)
    {
      hide IndexOf, WithEntry;
      var at := IndexOf(slots, q);
      if at.None? || !slots[at.value].entry.prefetching { return slots; }
      var retryAt := now + Max(cfg.prefetchTime, 1) * SECOND;
      s := WithEntry(slots, at.value, slots[at.value].entry.(prefetching := false, retryAt := Some(retryAt)));
    }

    /** Whether an entry is due, or else how long it asks to wait. */
    static method CheckSlot(cfg: Config, s: Slot, now: int, ahead: nat) returns (due: bool, delay: Option<int>)
      ensures due == Due(cfg, s, now, ahead) && delay == Delay(cfg, s, now, ahead)
    {
      hide Negative, IsIpAddr, CheckTime;
      var checkTime := CheckTime(cfg, now, ahead);
      due, delay := false, None;
      if Negative(s.entry.data) { return; }
      if s.entry.prefetching { return; }
      if s.entry.retryAt.Some? && s.entry.retryAt.value > now { return false, Some(s.entry.retryAt.value - now); }
      if !IsIpAddr(s.query.qtype) { return; }
      if IsCurrent(s.entry, checkTime) { return false, Some(s.entry.validUntil - checkTime); }
      due := true;
    }

    static method Scan(cfg: Config, all: Slots, now: int, ahead: nat)
        returns (due: seq<Prefetch>, marked: Slots, wait: int)
      ensures marked == Marked(cfg, all, now, ahead)
      ensures due == DueList(cfg, all, now, ahead)
      ensures wait == Wait(cfg, all, now, ahead)
    {
      hide Due, Delay, MarkDue;
      due, marked, wait := [], [], MAX_TTL * SECOND;
      for k := 0 to |all|
        invariant |marked| == k && forall j :: 0 <= j < k ==> marked[j] == MarkDue(cfg, all[j], now, ahead)
        invariant due == DueList(cfg, all[..k], now, ahead)
        invariant wait == Wait(cfg, all[..k], now, ahead)
      {
        assert all[..k + 1][..k] == all[..k];
        var isDue, delay := CheckSlot(cfg, all[k], now, ahead);
        if delay.Some? { wait := Min(wait, delay.value); }
        if isDue { due := due + [Prefetch(all[k].query, all[k].entry.hits, all[k].entry.data.group)]; }
        MarkIf(cfg, all[k], now, ahead, isDue);
        marked := marked + [if isDue then all[k].(entry := all[k].entry.(prefetching := true)) else all[k]];
      }
      assert all[..|all|] == all;
    }

    static lemma MarkIf(cfg: Config, s: Slot, now: int, ahead: nat, due: bool)
      requires due == Due(cfg, s, now, ahead)
      ensures MarkDue(cfg, s, now, ahead) == if due then s.(entry := s.entry.(prefetching := true)) else s
    {
    }

    /** Takes and marks exactly the due entries, the most used first, and says how long the others can wait. */
    method GetExpired(now: int, ahead: nat) returns (expired: seq<Prefetch>, wait: int)
      requires Valid()
      modifies `slots
      ensures Valid() && slots == Marked(cfg, old(slots), now, ahead)
      ensures expired == SortByHits(DueList(cfg, old(slots), now, ahead))
      ensures wait == Wait(cfg, old(slots), now, ahead)
    {
      MarksKeepValid(cfg, slots, Marked(cfg, slots, now, ahead));
      hide SlotsValid, Usage, Marked, DueList, Wait, SortByHits;
      var due, marked, w := Scan(cfg, slots, now, ahead);
      slots, wait := marked, w;
      expired := SortByHits(due);
    }
  }
}
