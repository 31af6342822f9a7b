/** Cache entries: what they cost, how long they live and what a hit answers (src/dns_mw_cache.rs). */
module CacheEntries {
  import opened Common
  import opened WireNames
  import opened Messages
  import opened Responses

  // ---- Negative answers ----

  predicate HasType(rs: seq<Record>, t: RecordType) { exists i :: 0 <= i < |rs| && RecordTypeOf(rs[i]) == t }

  /** The least lifetime any SOA gives: its TTL or its minimum field (section 5 of RFC 2308). */
  function SoaTtl(authorities: seq<Record>): Option<nat> {
    if authorities == [] then None
    else
      var rest := SoaTtl(authorities[1..]);
      var r := authorities[0];
      if !r.data.Soa? then rest
      else
        var own := Min(r.ttl, r.data.minimum);
        if rest.None? then Some(own) else Some(Min(own, rest.value))
  }

  function CnameTtl(answers: seq<Record>, ttl: nat): nat {
    if answers == [] then ttl
    else CnameTtl(answers[1..], if answers[0].data.Cname? then Min(ttl, answers[0].ttl) else ttl)
  }

  /** The lifetime of a NODATA or NXDOMAIN answer with an SOA; nothing for any other answer. */
  function NegativeTtl(m: Message): Option<nat> {
    if m.header.rcode != NO_ERROR && m.header.rcode != NX_DOMAIN then None
    else if m.header.rcode == NO_ERROR && HasType(m.answers, QueryOf(m).qtype) then None
    else match SoaTtl(m.authorities)
      case None => None
      case Some(soa) => Some(CnameTtl(m.answers, soa))
  }

  predicate Negative(r: Response) { NegativeTtl(r.message).Some? }

  /** What one SOA record allows. */
  function OwnSoaTtl(r: Record): nat
    requires r.data.Soa?
  {
    Min(r.ttl, r.data.minimum)
  }

  lemma {:induction false} SoaTtlIsLeast(rs: seq<Record>)
    ensures SoaTtl(rs).Some? <==> HasType(rs, SOA)
    ensures SoaTtl(rs).Some? ==> forall i :: 0 <= i < |rs| && rs[i].data.Soa? ==> SoaTtl(rs).value <= OwnSoaTtl(rs[i])
    ensures SoaTtl(rs).Some? ==> exists i :: 0 <= i < |rs| && rs[i].data.Soa? && SoaTtl(rs).value == OwnSoaTtl(rs[i])
  {
    if rs != [] {
      SoaTtlIsLeast(rs[1..]);
      assert forall i :: 1 <= i < |rs| ==> rs[i] == rs[1..][i - 1];
      assert forall i :: 0 <= i < |rs[1..]| ==> rs[1..][i] == rs[i + 1];
      if rs[0].data.Soa? { assert RecordTypeOf(rs[0]) == SOA; }
    }
  }

  lemma {:induction false} CnameTtlIsLeast(answers: seq<Record>, ttl: nat)
    ensures var t := CnameTtl(answers, ttl);
            && t <= ttl
            && (forall i :: 0 <= i < |answers| && answers[i].data.Cname? ==> t <= answers[i].ttl)
            && (t == ttl || exists i :: 0 <= i < |answers| && answers[i].data.Cname? && t == answers[i].ttl)
  {
    if answers != [] {
      CnameTtlIsLeast(answers[1..], if answers[0].data.Cname? then Min(ttl, answers[0].ttl) else ttl);
      assert forall i :: 1 <= i < |answers| ==> answers[i] == answers[1..][i - 1];
      assert forall i :: 0 <= i < |answers[1..]| ==> answers[1..][i] == answers[i + 1];
    }
  }

  /** A negative answer is an NXDOMAIN, or a NODATA without a record of the type it is for, that has an SOA. It lives as
      long as its shortest-lived SOA and CNAME allow, and no longer. */
  lemma NegativeTtlIsLeast(m: Message)
    ensures NegativeTtl(m).Some? <==>
              && (exists i :: 0 <= i < |m.authorities| && m.authorities[i].data.Soa?)
              && (m.header.rcode == NX_DOMAIN
                  || (m.header.rcode == NO_ERROR
                      && forall i :: 0 <= i < |m.answers| ==> RecordTypeOf(m.answers[i]) != QueryOf(m).qtype))
    ensures NegativeTtl(m).Some? ==>
              var t := NegativeTtl(m).value;
              && HasType(m.authorities, SOA)
              && (forall i :: 0 <= i < |m.authorities| && m.authorities[i].data.Soa? ==>
                  t <= OwnSoaTtl(m.authorities[i]))
              && (forall i :: 0 <= i < |m.answers| && m.answers[i].data.Cname? ==> t <= m.answers[i].ttl)
              && ((exists i ::
                     0 <= i < |m.authorities| && m.authorities[i].data.Soa? && t == OwnSoaTtl(m.authorities[i]))
                  || (exists i :: 0 <= i < |m.answers| && m.answers[i].data.Cname? && t == m.answers[i].ttl))
  {
    SoaTtlIsLeast(m.authorities);
    if SoaTtl(m.authorities).Some? { CnameTtlIsLeast(m.answers, SoaTtl(m.authorities).value); }
  }

  // ---- Entries ----

  /** The sizes of the program's own records, whatever the platform makes them. */
  datatype Sizes = Sizes(record: nat, message: nat, query: nat, entry: nat, reply: nat, word: nat)

  datatype Config = Config(
    capacity: nat, serveExpired: bool, expiredTtl: nat, expiredReplyTtl: nat, memoryLimit: nat, prefetchTime: nat,
    codec: Codec, sizes: Sizes)

  datatype TtlReply = TtlReply(response: Response, memoryUsage: nat)

  datatype Entry = Entry(
    data: Response, memoryUsage: nat, validUntil: int, prefetching: bool, retryAt: Option<int>, hits: nat,
    replyTtl: Option<nat>, ttlReply: Option<TtlReply>)

  datatype Slot = Slot(query: Query, entry: Entry)

  /** The encoded size: as received, as prepared, or as it would be encoded now. */
  function WireSize(cfg: Config, r: Response): nat {
    if r.wireLen.Some? then r.wireLen.value
    else if r.preparedWire.Some? then |r.preparedWire.value|
    else match Responses.Encode(cfg.codec, r.message) case None => 0 case Some(w) => |w|
  }

  function ResponseMemory(cfg: Config, r: Response): nat {
    WireSize(cfg, r)
    + Times(|r.message.answers| + |r.message.authorities| + |r.message.additionals|, cfg.sizes.record)
    + cfg.sizes.message + 2 * cfg.sizes.word + Times(|r.message.queries|, cfg.sizes.query)
    + (if r.group.Some? then |r.group.value| else 0)
    + (if r.preparedWire.Some? then |r.preparedWire.value| + 2 * cfg.sizes.word else 0)
  }

  function MeasureMemory(cfg: Config, r: Response): nat {
    ResponseMemory(cfg, r) + cfg.sizes.entry + cfg.sizes.query + Max(1, WireLength(QueryOf(r.message).name))
  }

  function NewEntry(cfg: Config, data: Response, validUntil: int): Entry {
    Entry(data, MeasureMemory(cfg, data), validUntil, false, None, 0, None, None)
  }

  predicate IsCurrent(e: Entry, now: int) { now <= e.validUntil }

  /** No longer served at all: expired and negative, or beyond what may be served stale. */
  predicate Dead(cfg: Config, e: Entry, now: int) {
    !IsCurrent(e, now) &&
    (Negative(e.data) || !cfg.serveExpired || (cfg.expiredTtl > 0 && now - e.validUntil > cfg.expiredTtl * SECOND))
  }

  /** An entry may be served up to its deadline, and a positive one beyond it when stale answers are served, for as long
      as the stale limit allows; zero means no limit. */
  predicate MayBeServed(cfg: Config, e: Entry, now: int) {
    || now <= e.validUntil
    || (NegativeTtl(e.data.message).None? && cfg.serveExpired
        && (cfg.expiredTtl == 0 || now <= e.validUntil + cfg.expiredTtl * SECOND))
  }

  lemma DeadIff(cfg: Config, e: Entry, now: int)
    ensures Dead(cfg, e, now) <==> !MayBeServed(cfg, e, now)
  {
    hide NegativeTtl;
  }

  datatype CacheStatus = Valid | Expired

  function Status(e: Entry, now: int): CacheStatus { if IsCurrent(e, now) then Valid else Expired }

  /** The most a reply's TTLs may be: the seconds left, or the stale reply TTL once expired. */
  function ReplySeconds(cfg: Config, e: Entry, now: int): nat {
    if IsCurrent(e, now) then (e.validUntil - now) / SECOND % U32 else cfg.expiredReplyTtl % U32
  }

  /** The seconds left are cut to 32 bits, which changes them exactly for a deadline further away than that; an entry
      stored with a 32-bit TTL never has one. */
  lemma ReplySecondsExactIff(cfg: Config, e: Entry, now: int, stored: int, ttl: nat)
    requires IsCurrent(e, now)
    ensures ReplySeconds(cfg, e, now) == (e.validUntil - now) / SECOND <==> (e.validUntil - now) / SECOND < U32
    ensures e.validUntil == stored + ttl * SECOND && ttl < U32 && stored <= now ==>
            ReplySeconds(cfg, e, now) == (e.validUntil - now) / SECOND
  {
    if e.validUntil == stored + ttl * SECOND && ttl < U32 && stored <= now {
      assert e.validUntil - now <= ttl * SECOND;
    }
  }

  /** Address answers without their CNAME chain answer to the name that was asked. */
  predicate NeedsRename(m: Message, name: Labels) {
    && !HasType(m.answers, CNAME)
    && m.answers != []
    && (forall i :: 0 <= i < |m.answers| ==> IsIpAddr(RecordTypeOf(m.answers[i])))
    && (exists i :: 0 <= i < |m.answers| && m.answers[i].name != name)
  }

  function Renamed(rs: seq<Record>, name: Labels): seq<Record> {
    seq(|rs|, i requires 0 <= i < |rs| => rs[i].(name := name))
  }

  /** The stored response as a hit answers it, computed afresh. */
  function Adjusted(query: Query, data: Response, ttl: nat): Response {
    WithMaxTtl(
      if NeedsRename(data.message, query.name)
      then data.(message := data.message.(answers := Renamed(data.message.answers, query.name)), preparedWire := None,
                 wireLen := None)
      else data,
      ttl)
  }

  /** What the adjustment does to the message: the TTL of each record of every section is the lesser of its own and the
      reply's, an answer of addresses alone is for the query's name, and nothing else changes. */
  lemma AdjustedMessage(query: Query, data: Response, ttl: nat)
    ensures var a, m := Adjusted(query, data, ttl).message, data.message;
            && a == m.(answers := a.answers, authorities := a.authorities, additionals := a.additionals)
            && LoweredTo(m.authorities, a.authorities, ttl) && LoweredTo(m.additionals, a.additionals, ttl)
            && |a.answers| == |m.answers|
            && forall i :: 0 <= i < |m.answers| ==>
                 a.answers[i] == Record(if OnlyAddresses(m) then query.name else m.answers[i].name,
                                        Min(m.answers[i].ttl, ttl), m.answers[i].data)
    ensures var a := Adjusted(query, data, ttl);
            a.validUntil == data.validUntil && a.group == data.group && a.probe == data.probe
  {
    var m := data.message;
    if OnlyAddresses(m) {
      assert forall i :: 0 <= i < |m.answers| ==> RecordTypeOf(m.answers[i]) != CNAME;
    }
  }

  predicate OnlyAddresses(m: Message) { forall i :: 0 <= i < |m.answers| ==> m.answers[i].data.Ip? }

  predicate LoweredTo(rs: seq<Record>, lowered: seq<Record>, ttl: nat) {
    && |lowered| == |rs|
    && forall i :: 0 <= i < |rs| ==>
         lowered[i].name == rs[i].name && lowered[i].data == rs[i].data
         && lowered[i].ttl == if rs[i].ttl <= ttl then rs[i].ttl else ttl
  }

  /** All records of a message satisfy the bound. */
  predicate TtlsAtMost(m: Message, ttl: nat) {
    && (forall i :: 0 <= i < |m.answers| ==> m.answers[i].ttl <= ttl)
    && (forall i :: 0 <= i < |m.authorities| ==> m.authorities[i].ttl <= ttl)
    && (forall i :: 0 <= i < |m.additionals| ==> m.additionals[i].ttl <= ttl)
  }

  /** No TTL of a reply reaches beyond the entry's deadline, nor, once that has passed, beyond the stale reply TTL; and
      apart from 32-bit overflow an answer keeps as much of its own TTL as that allows. */
  lemma HitTtls(cfg: Config, query: Query, e: Entry, now: int)
    ensures var m := Adjusted(query, e.data, ReplySeconds(cfg, e, now)).message;
            && (now <= e.validUntil ==> TtlsAtMost(m, (e.validUntil - now) / SECOND))
            && (now > e.validUntil ==> TtlsAtMost(m, cfg.expiredReplyTtl))
            && forall i :: 0 <= i < |e.data.message.answers| ==>
                 var own, got := e.data.message.answers[i].ttl, m.answers[i].ttl;
                 && (now <= e.validUntil < now + U32 * SECOND ==> got == Min(own, (e.validUntil - now) / SECOND))
                 && (now > e.validUntil && cfg.expiredReplyTtl < U32 ==> got == Min(own, cfg.expiredReplyTtl))
  {
    AdjustedMessage(query, e.data, ReplySeconds(cfg, e, now));
    hide Adjusted;
    if now <= e.validUntil < now + U32 * SECOND { assert (e.validUntil - now) / SECOND < U32; }
  }

  function WithPreparedWire(codec: Codec, r: Response): Response {
    if r.preparedWire.None? then r.(preparedWire := Responses.Encode(codec, r.message)) else r
  }

  /** The adjusted response as it is remembered. */
  function Remembered(cfg: Config, query: Query, data: Response, ttl: nat): Response {
    WithPreparedWire(cfg.codec, Adjusted(query, data, ttl))
  }

  lemma AdjustedIsPrepared(codec: Codec, query: Query, data: Response, ttl: nat)
    requires Prepared(codec, data)
    ensures Prepared(codec, Adjusted(query, data, ttl))
    ensures Prepared(codec, WithPreparedWire(codec, Adjusted(query, data, ttl)))
    ensures var r := WithPreparedWire(codec, Adjusted(query, data, ttl));
            r.preparedWire == Responses.Encode(codec, r.message)
  {
  }

  /** The same answer, whether or not its encoding is at hand. */
  predicate SameAnswer(a: Response, b: Response) { a == b.(preparedWire := a.preparedWire) }

  function MemoMemory(e: Entry): nat { if e.ttlReply.Some? then e.ttlReply.value.memoryUsage else 0 }

  /** An entry's size is its measured data and its remembered reply, and that reply is the adjustment of its data. */
  ghost predicate EntryValid(cfg: Config, s: Slot) {
    && s.query == QueryOf(s.entry.data.message)
    && Prepared(cfg.codec, s.entry.data)
    && s.entry.memoryUsage == MeasureMemory(cfg, s.entry.data) + MemoMemory(s.entry)
    && (s.entry.ttlReply.Some? ==>
          && s.entry.replyTtl.Some?
          && s.entry.ttlReply.value.response == Remembered(cfg, s.query, s.entry.data, s.entry.replyTtl.value)
          && s.entry.ttlReply.value.memoryUsage == ResponseMemory(cfg, s.entry.ttlReply.value.response)
             + cfg.sizes.reply)
  }

  // ---- A hit ----

  datatype Hit = Hit(entry: Entry, response: Response, status: CacheStatus)

  /** A hit on an entry, with `total` bytes in use in the whole cache. */
  function HitEntry(cfg: Config, s: Slot, now: int, total: nat): Hit {
    var ttl := ReplySeconds(cfg, s.entry, now);
    var repeated := s.entry.replyTtl == Some(ttl);
    var e := s.entry.(hits := s.entry.hits + 1, replyTtl := Some(ttl));
    if repeated && e.ttlReply.Some? then Hit(e, e.ttlReply.value.response, Status(e, now))
    else
      var bare := e.(memoryUsage := Max(0, e.memoryUsage - MemoMemory(e)), ttlReply := None);
      if !repeated then Hit(bare, Adjusted(s.query, e.data, ttl), Status(e, now))
      else
        var reply := Remembered(cfg, s.query, e.data, ttl);
        var cost := ResponseMemory(cfg, reply) + cfg.sizes.reply;
        if cfg.memoryLimit == 0 || total - MemoMemory(e) + cost <= cfg.memoryLimit
        then Hit(bare.(memoryUsage := bare.memoryUsage + cost, ttlReply := Some(TtlReply(reply, cost))), reply,
                 Status(e, now))
        else Hit(bare, reply, Status(e, now))
  }

  /** Whatever was remembered before, a hit answers the adjustment of the stored message. */
  lemma HitIsAdjusted(cfg: Config, s: Slot, now: int, total: nat)
    requires EntryValid(cfg, s)
    ensures var h := HitEntry(cfg, s, now, total);
            && SameAnswer(h.response, Adjusted(s.query, s.entry.data, ReplySeconds(cfg, s.entry, now)))
            && Prepared(cfg.codec, h.response)
            && EntryValid(cfg, Slot(s.query, h.entry))
            && h.entry.data == s.entry.data && h.entry.validUntil == s.entry.validUntil
            && h.entry.prefetching == s.entry.prefetching && h.entry.retryAt == s.entry.retryAt
            && h.entry.hits == s.entry.hits + 1
            && h.status == Status(s.entry, now)
            && (s.entry.replyTtl == Some(ReplySeconds(cfg, s.entry, now)) ==>
                  h.response.preparedWire == Responses.Encode(cfg.codec, h.response.message))
  {
    hide Adjusted, ResponseMemory, Negative, Responses.Encode;
    AdjustedIsPrepared(cfg.codec, s.query, s.entry.data, ReplySeconds(cfg, s.entry, now));
  }
}
