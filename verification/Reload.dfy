/** Saving the cache and loading it again (src/dns_mw_cache.rs). */
module Reload {
  import opened Common
  import opened Messages
  import opened CacheEntries
  import opened Cache
  import opened CacheFile

  /** The cache entry a saved entry becomes. */
  function SlotOf(cfg: Config, e: Saved): Slot {
    var data := Response(e.message, None, None, e.validUntil, e.group, e.probe);
    Slot(QueryOf(e.message), NewEntry(cfg, data, e.validUntil).(hits := e.hits))
  }

  /** Whatever a file holds, the entries it loads are valid. */
  lemma SavedSlotIsValid(cfg: Config, e: Saved)
    ensures EntryValid(cfg, SlotOf(cfg, e)) && !SlotOf(cfg, e).entry.prefetching
  {
  }

  function Reversed(s: Slots): Slots { if s == [] then [] else [s[|s| - 1]] + Reversed(s[..|s| - 1]) }

  /** Entries are saved from the most recently used on and loaded one by one, so they all come back, in reverse: what
      was used last is then the first to make room. */
  lemma {:induction false} ReloadReversesRecency(cfg: Config, xs: Slots)
    requires Distinct(xs) && |xs| <= cfg.capacity
    ensures PutAll(cfg, [], xs) == Reversed(xs) && |Reversed(xs)| == |xs|
    ensures forall x :: x in Reversed(xs) <==> x in xs
  {
    if xs != [] {
      var rest, x := xs[..|xs| - 1], xs[|xs| - 1];
      ReloadReversesRecency(cfg, rest);
      assert xs == rest + [x];
      forall i | 0 <= i < |Reversed(rest)| ensures Reversed(rest)[i].query != x.query {
        assert Reversed(rest)[i] in rest;
        var j :| 0 <= j < |rest| && rest[j] == Reversed(rest)[i];
      }
    }
  }

  lemma PutAllLast(cfg: Config, xs: Slots)
    requires xs != []
    ensures PutAll(cfg, [], xs) == Put(cfg, PutAll(cfg, [], xs[..|xs| - 1]), xs[|xs| - 1])
  {
  }

  /** Of more entries than there is room for, those loaded last stay, the last of all first. */
  lemma {:induction false} LoadKeepsLast(cfg: Config, xs: Slots)
    requires Distinct(xs) && cfg.capacity > 0
    ensures |Reversed(xs)| == |xs| && PutAll(cfg, [], xs) == Reversed(xs)[..Min(|xs|, cfg.capacity)]
    ensures forall i :: 0 <= i < |xs| ==> Reversed(xs)[i] == xs[|xs| - 1 - i]
  {
    if xs != [] {
      var rest, x := xs[..|xs| - 1], xs[|xs| - 1];
      LoadKeepsLast(cfg, rest);
      var s := PutAll(cfg, [], rest);
      forall i | 0 <= i < |s| ensures s[i].query != x.query {
        assert s[i] == rest[|rest| - 1 - i] == xs[|rest| - 1 - i];
      }
      hide PutAll, IndexOf, Distinct;
      assert PutAll(cfg, [], xs) == Put(cfg, s, x) by { PutAllLast(cfg, xs); }
      assert IndexOf(s, x.query) == None;
      assert Reversed(xs) == [x] + Reversed(rest);
    }
  }

  // ---- There and back ----

  /** What is saved of an entry. */
  function SavedOf(x: Slot): Saved {
    Saved(x.entry.data.message, x.entry.validUntil, x.entry.data.group, x.entry.data.probe, x.entry.hits)
  }

  function SavedAll(s: Slots): seq<Saved> { seq(|s|, i requires 0 <= i < |s| => SavedOf(s[i])) }

  function SlotsOf(cfg: Config, es: seq<Saved>): Slots { seq(|es|, i requires 0 <= i < |es| => SlotOf(cfg, es[i])) }

  /** `e` is what entry `i` of those saved is when read again, by the clock's `k`-th reading. */
  ghost predicate From(codec: Codec, es: seq<Saved>, cs: seq<Clock>, clock: nat -> Clock, i: nat, k: nat, e: Saved)
    requires |cs| == |es|
  {
    i < |es| && Writable(codec, es[i]) && e == Restored(es[i], cs[i], clock(k))
  }

  ghost predicate FromSome(codec: Codec, es: seq<Saved>, cs: seq<Clock>, clock: nat -> Clock, e: Saved)
    requires |cs| == |es|
  {
    exists i, k :: From(codec, es, cs, clock, i, k, e)
  }

  /** Entry `i`, if it can be written, is among those read again. */
  ghost predicate ReadAgain(es: seq<Saved>, i: nat, rs: seq<Saved>)
    requires i < |es|
  {
    exists e :: e in rs && e.message == es[i].message
  }

  ghost predicate DistinctKeys(es: seq<Saved>) {
    forall i, j :: 0 <= i < j < |es| ==> QueryOf(es[i].message) != QueryOf(es[j].message)
  }

  ghost predicate AllFrom(codec: Codec, es: seq<Saved>, cs: seq<Clock>, clock: nat -> Clock, rs: seq<Saved>)
    requires |cs| == |es|
  {
    forall i :: 0 <= i < |rs| ==> FromSome(codec, es, cs, clock, rs[i])
  }

  lemma RestoredStep(codec: Codec, es: seq<Saved>, cs: seq<Clock>, clock: nat -> Clock, k: nat)
    requires |cs| == |es| && es != []
    ensures RestoredAll(codec, es, cs, clock, k) ==
            if Writable(codec, es[0])
            then [Restored(es[0], cs[0], clock(k))] + RestoredAll(codec, es[1..], cs[1..], clock, k + 1)
            else RestoredAll(codec, es[1..], cs[1..], clock, k)
  {
    hide Encode, Writable;
    EncodedIffWritable(codec, es[0], cs[0]);
  }

  lemma FirstIsFrom(codec: Codec, es: seq<Saved>, cs: seq<Clock>, clock: nat -> Clock, k: nat)
    requires |cs| == |es| && es != [] && Writable(codec, es[0])
    ensures FromSome(codec, es, cs, clock, Restored(es[0], cs[0], clock(k)))
  {
    assert From(codec, es, cs, clock, 0, k, Restored(es[0], cs[0], clock(k)));
  }

  lemma LaterIsFrom(codec: Codec, es: seq<Saved>, cs: seq<Clock>, clock: nat -> Clock, e: Saved)
    requires |cs| == |es| && es != [] && FromSome(codec, es[1..], cs[1..], clock, e)
    ensures FromSome(codec, es, cs, clock, e) && (DistinctKeys(es) ==> QueryOf(e.message) != QueryOf(es[0].message))
  {
    hide Restored, Writable;
    var j: nat, k: nat :| From(codec, es[1..], cs[1..], clock, j, k, e);
    assert From(codec, es, cs, clock, j + 1, k, e);
    RestoredMessage(es[j + 1], cs[j + 1], clock(k));
  }

  /** What is read again is what was saved. */
  lemma {:induction false} RestoredAllIsFrom(codec: Codec, es: seq<Saved>, cs: seq<Clock>, clock: nat -> Clock, k: nat)
    requires |cs| == |es|
    ensures var rs := RestoredAll(codec, es, cs, clock, k); |rs| <= |es| && AllFrom(codec, es, cs, clock, rs)
    decreases |es|
  {
    hide RestoredAll, Restored, FromSome, Writable;
    if es == [] {
      assert RestoredAll(codec, es, cs, clock, k) == [] by { NothingRestored(codec, cs, clock, k); }
    } else {
      RestoredStep(codec, es, cs, clock, k);
      var first := Writable(codec, es[0]);
      var k' := if first then k + 1 else k;
      var rest := RestoredAll(codec, es[1..], cs[1..], clock, k');
      RestoredAllIsFrom(codec, es[1..], cs[1..], clock, k');
      forall i | 0 <= i < |rest| ensures FromSome(codec, es, cs, clock, rest[i]) {
        LaterIsFrom(codec, es, cs, clock, rest[i]);
      }
      if first { FirstIsFrom(codec, es, cs, clock, k); }
    }
  }

  lemma NothingRestored(codec: Codec, cs: seq<Clock>, clock: nat -> Clock, k: nat)
    requires cs == []
    ensures RestoredAll(codec, [], cs, clock, k) == []
  {
  }

  /** Each key once. */
  lemma {:induction false} RestoredAllDistinct(codec: Codec, es: seq<Saved>, cs: seq<Clock>, clock: nat -> Clock,
                                               k: nat)
    requires |cs| == |es| && DistinctKeys(es)
    ensures DistinctKeys(RestoredAll(codec, es, cs, clock, k))
    decreases |es|
  {
    hide RestoredAll, Restored, FromSome, Writable;
    if es == [] {
      NothingRestored(codec, cs, clock, k);
    } else {
      RestoredStep(codec, es, cs, clock, k);
      var k' := if Writable(codec, es[0]) then k + 1 else k;
      var rest := RestoredAll(codec, es[1..], cs[1..], clock, k');
      RestoredAllDistinct(codec, es[1..], cs[1..], clock, k');
      RestoredAllIsFrom(codec, es[1..], cs[1..], clock, k');
      forall i | 0 <= i < |rest| ensures QueryOf(rest[i].message) != QueryOf(es[0].message) {
        LaterIsFrom(codec, es, cs, clock, rest[i]);
      }
      RestoredMessage(es[0], cs[0], clock(k));
    }
  }

  /** Whatever can be written is read again. */
  lemma {:induction false} WritableIsReadAgain(codec: Codec, es: seq<Saved>, cs: seq<Clock>, clock: nat -> Clock,
                                                k: nat, i: nat)
    requires |cs| == |es| && i < |es| && Writable(codec, es[i])
    ensures ReadAgain(es, i, RestoredAll(codec, es, cs, clock, k))
    decreases |es|
  {
    hide RestoredAll, Restored, Writable;
    RestoredStep(codec, es, cs, clock, k);
    var rs := RestoredAll(codec, es, cs, clock, k);
    if i == 0 {
      RestoredMessage(es[0], cs[0], clock(k));
      assert rs[0] in rs;
    } else {
      var k' := if Writable(codec, es[0]) then k + 1 else k;
      WritableIsReadAgain(codec, es[1..], cs[1..], clock, k', i - 1);
      var e :| e in RestoredAll(codec, es[1..], cs[1..], clock, k') && e.message == es[1..][i - 1].message;
      assert e in rs;
    }
  }

  lemma RestoredMessage(e: Saved, c: Clock, c': Clock)
    ensures Restored(e, c, c').message == e.message
  {
  }

  lemma {:induction false} UsageReversed(s: Slots)
    ensures Usage(Reversed(s)) == Usage(s)
  {
    if s != [] {
      var rest, x := s[..|s| - 1], s[|s| - 1];
      UsageReversed(rest);
      UsageConcat([x], Reversed(rest));
      UsageOne(x);
      UsageLast(s);
    }
  }

  /** What comes back of entry `x`, saved at `c` and read at `c'`. */
  ghost predicate BackAs(x: Slot, c: Clock, c': Clock, y: Slot) {
    && y.query == x.query && y.entry.data.message == x.entry.data.message
    && y.entry.validUntil == Deadline(Expires(x.entry.validUntil, c), c')
    && y.entry.data.probe == Rounded(x.entry.data.probe) && y.entry.hits == x.entry.hits % U32
    && y.entry.data.group == (if x.entry.data.group == Some([]) then None else x.entry.data.group)
    && !y.entry.prefetching && y.entry.retryAt == None
  }

  /** `y` is one of the entries, saved by its clock and read by one of the reader's. */
  ghost predicate BackFromSome(s: Slots, cs: seq<Clock>, clock: nat -> Clock, y: Slot)
    requires |cs| == |s|
  {
    exists i, k: nat :: 0 <= i < |s| && BackAs(s[i], cs[i], clock(k), y)
  }

  /** Every entry that can be written is back. */
  ghost predicate AllBack(codec: Codec, s: Slots, r: Slots) {
    forall i :: 0 <= i < |s| && Writable(codec, SavedOf(s[i])) ==> IndexOf(r, s[i].query).Some?
  }

  ghost predicate KeyedByQuestion(s: Slots) {
    forall i :: 0 <= i < |s| ==> s[i].query == QueryOf(s[i].entry.data.message)
  }

  lemma SlotIsBack(cfg: Config, codec: Codec, s: Slots, cs: seq<Clock>, clock: nat -> Clock, e: Saved)
    requires |cs| == |s| && KeyedByQuestion(s) && FromSome(codec, SavedAll(s), cs, clock, e)
    ensures BackFromSome(s, cs, clock, SlotOf(cfg, e)) && Encodable(codec, s, SlotOf(cfg, e).query)
  {
    hide Deadline, Expires, Rounded, MeasureMemory;
    var j: nat, k: nat :| From(codec, SavedAll(s), cs, clock, j, k, e);
    assert BackAs(s[j], cs[j], clock(k), SlotOf(cfg, e));
  }

  lemma AllReadAgain(cfg: Config, codec: Codec, s: Slots, cs: seq<Clock>, clock: nat -> Clock)
    requires |cs| == |s| && KeyedByQuestion(s)
    ensures AllBack(codec, s, SlotsOf(cfg, RestoredAll(codec, SavedAll(s), cs, clock, 0)))
  {
    hide RestoredAll, MeasureMemory;
    var es := SavedAll(s);
    var rs := RestoredAll(codec, es, cs, clock, 0);
    forall i | 0 <= i < |s| && Writable(codec, SavedOf(s[i]))
      ensures IndexOf(SlotsOf(cfg, rs), s[i].query).Some?
    {
      WritableIsReadAgain(codec, es, cs, clock, 0, i);
      var e :| e in rs && e.message == es[i].message;
      var j :| 0 <= j < |rs| && rs[j] == e;
      assert SlotsOf(cfg, rs)[j].query == s[i].query;
    }
  }

  lemma RestoredSlots(cfg: Config, codec: Codec, s: Slots, cs: seq<Clock>, clock: nat -> Clock)
    requires SlotsValid(cfg, s) && |cs| == |s|
    ensures var xs := SlotsOf(cfg, RestoredAll(codec, SavedAll(s), cs, clock, 0));
            && Distinct(xs) && |xs| <= cfg.capacity && AllBack(codec, s, xs)
            && (forall i :: 0 <= i < |xs| ==> BackFromSome(s, cs, clock, xs[i]) && EntryValid(cfg, xs[i]))
            && (forall i :: 0 <= i < |xs| ==> Encodable(codec, s, xs[i].query))
  {
    KeysAreQuestions(cfg, s);
    var es := SavedAll(s);
    var rs := RestoredAll(codec, es, cs, clock, 0);
    var xs := SlotsOf(cfg, rs);
    hide EntryValid, RestoredAll, Usage, AllBack, BackFromSome, Encodable, FromSome, MeasureMemory;
    assert DistinctKeys(es);
    RestoredAllIsFrom(codec, es, cs, clock, 0);
    RestoredAllDistinct(codec, es, cs, clock, 0);
    AllReadAgain(cfg, codec, s, cs, clock);
    forall i | 0 <= i < |xs|
      ensures BackFromSome(s, cs, clock, xs[i]) && EntryValid(cfg, xs[i]) && Encodable(codec, s, xs[i].query)
    {
      SavedSlotIsValid(cfg, rs[i]);
      SlotIsBack(cfg, codec, s, cs, clock, rs[i]);
    }
  }

  lemma NothingIsValid(cfg: Config)
    ensures EntriesValid(cfg, [])
  {
  }

  /** Some entry for the key can be written. */
  ghost predicate Encodable(codec: Codec, s: Slots, q: Query) {
    exists i :: 0 <= i < |s| && s[i].query == q && Writable(codec, SavedOf(s[i]))
  }

  lemma KeysAreQuestions(cfg: Config, s: Slots)
    requires SlotsValid(cfg, s)
    ensures KeyedByQuestion(s)
  {
  }

  /** A saved cache that is loaded into an empty one: the file is read, every entry comes back as it was but for
      rounding, in reverse order of use and cut to the budget; and all that could be written are back exactly when they
      fit it. */
  lemma SaveAndReload(cfg: Config, codec: Codec, s: Slots, cs: seq<Clock>, clock: nat -> Clock)
    requires SlotsValid(cfg, s) && cfg.capacity > 0 && codec.Faithful() && |cs| == |s|
    requires AllSavable(codec, SavedAll(s), cs)
    ensures var rs := RestoredAll(codec, SavedAll(s), cs, clock, 0);
            var xs := SlotsOf(cfg, rs);
            var r := Loaded(cfg, [], xs);
            && DecodeAll(codec, EncodeAll(codec, SavedAll(s), cs), clock, 0) == Some(rs)
            && r == FitBudget(Reversed(xs), cfg.memoryLimit) && SlotsValid(cfg, r)
            && (forall i :: 0 <= i < |r| ==> BackFromSome(s, cs, clock, r[i]))
            && (AllBack(codec, s, r) <==> cfg.memoryLimit == 0 || Usage(xs) <= cfg.memoryLimit)
  {
    var es := SavedAll(s);
    var rs := RestoredAll(codec, es, cs, clock, 0);
    var xs := SlotsOf(cfg, rs);
    var r := Loaded(cfg, [], xs);
    FileBack(codec, es, cs, clock, 0);
    RestoredSlots(cfg, codec, s, cs, clock);
    hide *;
    LoadSlots(cfg, codec, s, cs, clock, xs);
  }

  /** The clock at reading `k` is the clock entry `i` was saved by, some whole seconds later, and the entry's deadline
      is in range. */
  ghost predicate InStep(s: Slots, cs: seq<Clock>, clock: nat -> Clock, i: nat, k: nat)
    requires |cs| == |s| && i < |s|
  {
    && 0 <= cs[i].now && cs[i].wall < U64 && InRange(s[i].entry.validUntil, cs[i])
    && exists seconds: nat :: clock(k) == Later(cs[i], seconds)
  }

  ghost predicate Near(s: Slots, y: Slot) {
    exists i :: 0 <= i < |s| && y.query == s[i].query && -SECOND < y.entry.validUntil - s[i].entry.validUntil < SECOND
  }

  /** When the clocks advance in step, every entry that comes back has its deadline within a second. */
  lemma ReloadKeepsDeadlines(cfg: Config, codec: Codec, s: Slots, cs: seq<Clock>, clock: nat -> Clock)
    requires SlotsValid(cfg, s) && cfg.capacity > 0 && codec.Faithful() && |cs| == |s|
    requires AllSavable(codec, SavedAll(s), cs) && forall i, k: nat :: 0 <= i < |s| ==> InStep(s, cs, clock, i, k)
    ensures var r := Loaded(cfg, [], SlotsOf(cfg, RestoredAll(codec, SavedAll(s), cs, clock, 0)));
            forall i :: 0 <= i < |r| ==> Near(s, r[i])
  {
    SaveAndReload(cfg, codec, s, cs, clock);
    var r := Loaded(cfg, [], SlotsOf(cfg, RestoredAll(codec, SavedAll(s), cs, clock, 0)));
    hide SlotsValid, AllSavable, SavedAll, SlotsOf, RestoredAll, Loaded, Rounded, Deadline, Expires, InRange;
    hide BackFromSome, InStep, Near;
    forall j | 0 <= j < |r| ensures Near(s, r[j]) {
      assert BackFromSome(s, cs, clock, r[j]);
      BackIsNear(s, cs, clock, r[j]);
    }
  }

  lemma BackIsNear(s: Slots, cs: seq<Clock>, clock: nat -> Clock, y: Slot)
    requires |cs| == |s| && BackFromSome(s, cs, clock, y)
    requires forall i, k: nat :: 0 <= i < |s| ==> InStep(s, cs, clock, i, k)
    ensures Near(s, y)
  {
    hide Rounded, Deadline, Expires, InRange;
    var i, k: nat :| 0 <= i < |s| && BackAs(s[i], cs[i], clock(k), y);
    assert InStep(s, cs, clock, i, k);
    var seconds: nat :| clock(k) == Later(cs[i], seconds);
    DeadlineMovesLittleIff(s[i].entry.validUntil, cs[i], seconds);
  }

  /** Loading restored entries into an empty cache. */
  lemma LoadSlots(cfg: Config, codec: Codec, s: Slots, cs: seq<Clock>, clock: nat -> Clock, xs: Slots)
    requires |cs| == |s| && cfg.capacity > 0 && Distinct(xs) && |xs| <= cfg.capacity && AllBack(codec, s, xs)
    requires forall i :: 0 <= i < |xs| ==> BackFromSome(s, cs, clock, xs[i]) && EntryValid(cfg, xs[i])
    requires forall i :: 0 <= i < |xs| ==> Encodable(codec, s, xs[i].query)
    ensures var r := Loaded(cfg, [], xs);
            && r == FitBudget(Reversed(xs), cfg.memoryLimit) && SlotsValid(cfg, r)
            && (forall i :: 0 <= i < |r| ==> BackFromSome(s, cs, clock, r[i]))
            && (AllBack(codec, s, r) <==> cfg.memoryLimit == 0 || Usage(xs) <= cfg.memoryLimit)
  {
    hide EntryValid, BackFromSome, AllBack, Reversed, PutAll, FitBudget, Usage, Encodable;
    NothingIsValid(cfg);
    LoadKeepsValid(cfg, [], xs);
    assert Distinct(PutAll(cfg, [], xs));
    hide SlotsValid, EntriesValid, Distinct;
    ReloadReversesRecency(cfg, xs);
    UsageReversed(xs);
    assert forall i :: 0 <= i < |Loaded(cfg, [], xs)| ==> Loaded(cfg, [], xs)[i] in Reversed(xs);
    AllBackIff(cfg, codec, s, xs);
  }

  lemma AllBackIff(cfg: Config, codec: Codec, s: Slots, xs: Slots)
    requires Distinct(xs) && AllBack(codec, s, xs) && forall i :: 0 <= i < |xs| ==> Encodable(codec, s, xs[i].query)
    requires (forall x :: x in Reversed(xs) <==> x in xs) && Usage(Reversed(xs)) == Usage(xs) && Distinct(Reversed(xs))
    ensures AllBack(codec, s, FitBudget(Reversed(xs), cfg.memoryLimit)) <==>
            cfg.memoryLimit == 0 || Usage(xs) <= cfg.memoryLimit
  {
    hide Usage, Reversed, Encodable, Writable;
    var all := Reversed(xs);
    var r := FitBudget(all, cfg.memoryLimit);
    if r == all {
      forall i | 0 <= i < |s| && Writable(codec, SavedOf(s[i])) ensures IndexOf(r, s[i].query).Some? {
        var j := IndexOf(xs, s[i].query).value;
        assert xs[j] in all;
      }
    } else {
      assert |r| < |all|;
      var x := all[|r|];
      assert x in xs;
      var k :| 0 <= k < |xs| && xs[k] == x;
      LostKey(codec, s, all, r, x.query);
    }
  }

  lemma LostKey(codec: Codec, s: Slots, all: Slots, r: Slots, q: Query)
    requires Distinct(all) && r < all && all[|r|].query == q && Encodable(codec, s, q)
    ensures !AllBack(codec, s, r)
  {
    var i :| 0 <= i < |s| && s[i].query == q && Writable(codec, SavedOf(s[i]));
  }
}
