/** The saved cache: the binary form of an entry and of a whole file (src/dns_mw_cache.rs). */
module CacheFile {
  import opened Common
  import opened Messages

  // ---- Numbers, high octet first ----

  function U16Bytes(n: nat): seq<byte> { [n / 256 % 256, n % 256] }

  function U32Bytes(n: nat): seq<byte> { [n / 0x100_0000 % 256, n / 0x1_0000 % 256, n / 256 % 256, n % 256] }

  function U16Of(a: int, b: int): int { a * 256 + b }

  function U32Of(a: int, b: int, c: int, d: int): int { a * 0x100_0000 + b * 0x1_0000 + c * 256 + d }

  lemma U32RoundTrip(n: nat)
    requires n < U32
    ensures var b := U32Bytes(n); U32Of(b[0], b[1], b[2], b[3]) == n
  {
    var q := n / 256;
    var r := q / 256;
    assert n / 0x1_0000 == r && n / 0x100_0000 == r / 256;
  }

  /** What is read, and what is left to read. */
  datatype Read<T> = Bad | Good(value: T, rest: seq<byte>)

  function ReadU8(d: seq<byte>): Read<byte> { if |d| < 1 then Bad else Good(d[0], d[1..]) }

  function ReadU16(d: seq<byte>): Read<int> { if |d| < 2 then Bad else Good(U16Of(d[0], d[1]), d[2..]) }

  function ReadU32(d: seq<byte>): Read<int> { if |d| < 4 then Bad else Good(U32Of(d[0], d[1], d[2], d[3]), d[4..]) }

  function ReadSlice(d: seq<byte>, n: int): Read<seq<byte>> { if n < 0 || |d| < n then Bad else Good(d[..n], d[n..]) }

  // ---- Entries ----

  /** The message codec, left abstract: it may refuse a message, and it reads back what it wrote whatever follows. The
      encoder writes an entry as a whole, and fails once that would be longer than `limit` octets. */
  datatype Codec = Codec(encode: Message -> Option<seq<byte>>, decode: seq<byte> -> Read<Message>,
                         isUtf8: seq<byte> -> bool, limit: nat)
  {
    ghost predicate Faithful() {
      && (forall m, rest :: encode(m).Some? ==> decode(encode(m).value + rest) == Good(m, rest))
      && (forall d :: decode(d).Good? ==> |decode(d).rest| <= |d|)
    }
  }

  /** The steady clock in nanoseconds and the wall clock in seconds, read together. */
  datatype Clock = Clock(now: int, wall: nat)

  /** The saved part of an entry. */
  datatype Saved = Saved(message: Message, validUntil: int, group: Option<seq<byte>>, probe: ProbeResult, hits: nat)

  /** The wall-clock second an entry expires at. */
  function Expires(validUntil: int, c: Clock): nat {
    if validUntil > c.now then Min(c.wall + (validUntil - c.now) / SECOND, U64 - 1)
    else Max(0, c.wall - (c.now - validUntil) / SECOND)
  }

  /** The deadline a wall-clock second means to a later process. */
  function Deadline(expires: int, c: Clock): int {
    if expires > c.wall then c.now + (expires - c.wall) * SECOND
    else if c.now >= (c.wall - expires) * SECOND then c.now - (c.wall - expires) * SECOND
    else c.now
  }

  function DeadlineBytes(validUntil: int, c: Clock): seq<byte> {
    var expires := Expires(validUntil, c);
    [5] + U32Bytes(expires / U32) + U32Bytes(expires % U32)
  }

  /** A newer file has an absolute time; an older one the seconds that were left. */
  function ReadDeadline(d: seq<byte>, c: Clock): Read<int> {
    if |d| < 1 then Bad
    else if d[0] == 2 then
      match ReadU32(d[1..]) case Bad => Bad case Good(left, rest) => Good(c.now + left * SECOND, rest)
    else if d[0] == 5 then
      match ReadU32(d[1..])
      case Bad => Bad
      case Good(high, more) =>
        match ReadU32(more) case Bad => Bad case Good(low, rest) => Good(Deadline(high * U32 + low, c), rest)
    else Bad
  }

  /** The length has 16 bits and the bytes are all there, even when they are more. */
  function GroupBytes(group: Option<seq<byte>>): seq<byte> {
    [3] + match group case None => U16Bytes(0) case Some(g) => U16Bytes(|g| % U16) + g
  }

  function ReadGroup(codec: Codec, d: seq<byte>): Read<Option<seq<byte>>> {
    if |d| < 1 || d[0] != 3 then Bad
    else match ReadU16(d[1..])
      case Bad => Bad
      case Good(n, more) =>
        if n > 0 then
          match ReadSlice(more, n)
          case Bad => Bad
          case Good(g, rest) => Good(if codec.isUtf8(g) then Some(g) else None, rest)
        else Good(None, more)
  }

  function ProbeKind(p: ProbeResult): byte { match p case Unchecked => 0 case Failed => 1 case Measured(_) => 2 }

  function ProbeMicros(p: ProbeResult): nat { if p.Measured? then Min(p.elapsed / 1000, U32 - 1) else 0 }

  function ProbeBytes(p: ProbeResult): seq<byte> { [6, ProbeKind(p)] + U32Bytes(ProbeMicros(p)) }

  /** An older file has no probe result. */
  function ReadProbe(d: seq<byte>): Read<ProbeResult> {
    if |d| < 1 then Bad
    else if d[0] != 6 then Good(Unchecked, d)
    else match ReadU8(d[1..])
      case Bad => Bad
      case Good(kind, more) =>
        match ReadU32(more)
        case Bad => Bad
        case Good(micros, rest) =>
          if kind == 0 then Good(Unchecked, rest)
          else if kind == 1 then Good(Failed, rest)
          else if kind == 2 && micros >= 0 then Good(Measured(micros * 1000), rest)
          else Bad
  }

  function HitsBytes(hits: nat): seq<byte> { [4] + U32Bytes(hits % U32) }

  function ReadHits(d: seq<byte>): Read<nat> {
    if |d| < 1 || d[0] != 4 then Bad
    else match ReadU32(d[1..]) case Bad => Bad case Good(hits, rest) => if hits >= 0 then Good(hits, rest) else Bad
  }

  function Encode(codec: Codec, e: Saved, c: Clock): Option<seq<byte>> {
    match codec.encode(e.message)
    case None => None
    case Some(m) =>
      var b := [1] + m + DeadlineBytes(e.validUntil, c) + GroupBytes(e.group) + ProbeBytes(e.probe) + HitsBytes(e.hits);
      if |b| <= codec.limit then Some(b) else None
  }

  function GroupLength(e: Saved): nat { if e.group.Some? then |e.group.value| else 0 }

  /** Entries that can be written, which does not depend on when. */
  predicate Writable(codec: Codec, e: Saved) {
    codec.encode(e.message).Some? && |codec.encode(e.message).value| + GroupLength(e) + 24 <= codec.limit
  }

  lemma EncodedIffWritable(codec: Codec, e: Saved, c: Clock)
    ensures Encode(codec, e, c).Some? <==> Writable(codec, e)
  {
  }

  /** Everything after the message. */
  function ReadTail(codec: Codec, m: Message, d: seq<byte>, c: Clock): Read<Saved> {
    match ReadDeadline(d, c)
    case Bad => Bad
    case Good(validUntil, d1) =>
      match ReadGroup(codec, d1)
      case Bad => Bad
      case Good(group, d2) =>
        match ReadProbe(d2)
        case Bad => Bad
        case Good(probe, d3) =>
          match ReadHits(d3)
          case Bad => Bad
          case Good(hits, rest) => Good(Saved(m, validUntil, group, probe, hits), rest)
  }

  function Decode(codec: Codec, d: seq<byte>, c: Clock): Read<Saved> {
    if |d| < 1 || d[0] != 1 then Bad
    else match codec.decode(d[1..])
      case Bad => Bad
      case Good(m, tail) => ReadTail(codec, m, tail, c)
  }

  // ---- An entry comes back ----

  lemma ReadU32Back(n: nat, rest: seq<byte>)
    requires n < U32
    ensures ReadU32(U32Bytes(n) + rest) == Good(n, rest)
  {
    U32RoundTrip(n);
    assert (U32Bytes(n) + rest)[4..] == rest;
  }

  lemma DeadlineBack(validUntil: int, c: Clock, c': Clock, rest: seq<byte>)
    requires c.wall < U64
    ensures ReadDeadline(DeadlineBytes(validUntil, c) + rest, c') == Good(Deadline(Expires(validUntil, c), c'), rest)
  {
    hide U32Bytes, ReadU32, Expires, Deadline;
    var expires := Expires(validUntil, c);
    ExpiresBounded(validUntil, c);
    var high, low := U32Bytes(expires / U32), U32Bytes(expires % U32);
    var d := DeadlineBytes(validUntil, c) + rest;
    assert d[1..] == high + (low + rest);
    ReadU32Back(expires / U32, low + rest);
    ReadU32Back(expires % U32, rest);
    assert expires / U32 * U32 + expires % U32 == expires;
  }

  lemma ExpiresBounded(validUntil: int, c: Clock)
    requires c.wall < U64
    ensures Expires(validUntil, c) < U64 && Expires(validUntil, c) / U32 < U32
  {
  }

  lemma ReadU16Back(n: nat, rest: seq<byte>)
    requires n < U16
    ensures ReadU16(U16Bytes(n) + rest) == Good(n, rest)
  {
  }

  /** The group's field in three parts. */
  lemma GroupParts(g: seq<byte>, group: Option<seq<byte>>, rest: seq<byte>)
    requires group == Some(g) || (group == None && g == [])
    ensures |GroupBytes(group) + rest| > 0 && (GroupBytes(group) + rest)[0] == 3
    ensures (GroupBytes(group) + rest)[1..] == U16Bytes(|g| % U16) + (g + rest)
  {
  }

  lemma GroupBack(codec: Codec, group: Option<seq<byte>>, rest: seq<byte>)
    requires group.Some? ==> |group.value| < U16 && codec.isUtf8(group.value)
    ensures ReadGroup(codec, GroupBytes(group) + rest) == Good(if group == Some([]) then None else group, rest)
  {
    hide GroupBytes, U16Bytes, ReadU16;
    var g := if group.Some? then group.value else [];
    GroupParts(g, group, rest);
    ReadU16Back(|g|, g + rest);
    assert (g + rest)[..|g|] == g && (g + rest)[|g|..] == rest;
    assert |g| == 0 ==> g + rest == rest;
  }

  /** A length beyond 16 bits is cut off, and the group read back is a shorter one. */
  lemma GroupTooLong(codec: Codec, g: seq<byte>, rest: seq<byte>)
    requires |g| >= U16
    ensures ReadGroup(codec, GroupBytes(Some(g)) + rest).Good? ==>
            ReadGroup(codec, GroupBytes(Some(g)) + rest).value != Some(g)
  {
    hide GroupBytes, U16Bytes, ReadU16;
    GroupParts(g, Some(g), rest);
    ReadU16Back(|g| % U16, g + rest);
  }

  /** The probe result at the precision it is kept with. */
  function Rounded(p: ProbeResult): ProbeResult { if p.Measured? then Measured(ProbeMicros(p) * 1000) else p }

  lemma ProbeBack(p: ProbeResult, rest: seq<byte>)
    ensures ReadProbe(ProbeBytes(p) + rest) == Good(Rounded(p), rest)
  {
    hide U32Bytes, ReadU32;
    var d := ProbeBytes(p) + rest;
    assert d[1..] == [ProbeKind(p)] + (U32Bytes(ProbeMicros(p)) + rest);
    assert d[1..][1..] == U32Bytes(ProbeMicros(p)) + rest;
    ReadU32Back(ProbeMicros(p), rest);
  }

  lemma HitsBack(hits: nat, rest: seq<byte>)
    ensures ReadHits(HitsBytes(hits) + rest) == Good(hits % U32, rest)
  {
    hide U32Bytes, ReadU32;
    assert (HitsBytes(hits) + rest)[1..] == U32Bytes(hits % U32) + rest;
    ReadU32Back(hits % U32, rest);
  }

  /** What an entry saved at one time is when read at another. */
  function Restored(e: Saved, c: Clock, c': Clock): Saved {
    Saved(e.message, Deadline(Expires(e.validUntil, c), c'), if e.group == Some([]) then None else e.group,
          Rounded(e.probe), e.hits % U32)
  }

  /** Entries have strings for groups and are written by a 64-bit clock. */
  ghost predicate FromProgram(codec: Codec, e: Saved, c: Clock) {
    c.wall < U64 && (e.group.Some? ==> codec.isUtf8(e.group.value))
  }

  /** And the group's length fits its field, as it does when the entry is within a limit of 16 bits. */
  ghost predicate Savable(codec: Codec, e: Saved, c: Clock) { FromProgram(codec, e, c) && GroupLength(e) < U16 }

  /** Each entry that is written has a group whose length fits. */
  ghost predicate AllSavable(codec: Codec, es: seq<Saved>, cs: seq<Clock>)
    requires |cs| == |es|
  {
    forall i :: 0 <= i < |es| && Writable(codec, es[i]) ==> Savable(codec, es[i], cs[i])
  }

  /** Under a limit of 16 bits no entry with a longer group is written. */
  lemma LimitKeepsGroupsShort(codec: Codec, es: seq<Saved>, cs: seq<Clock>)
    requires |cs| == |es| && codec.limit < U16 && forall i :: 0 <= i < |es| ==> FromProgram(codec, es[i], cs[i])
    ensures AllSavable(codec, es, cs)
    ensures forall i :: 0 <= i < |es| && GroupLength(es[i]) >= U16 ==> Encode(codec, es[i], cs[i]) == None
  {
    forall i | 0 <= i < |es| && GroupLength(es[i]) >= U16 ensures Encode(codec, es[i], cs[i]) == None {
      EncodedIffWritable(codec, es[i], cs[i]);
    }
  }

  function TailBytes(e: Saved, c: Clock): seq<byte> {
    DeadlineBytes(e.validUntil, c) + GroupBytes(e.group) + ProbeBytes(e.probe) + HitsBytes(e.hits)
  }

  lemma TailBack(codec: Codec, e: Saved, c: Clock, c': Clock, rest: seq<byte>)
    requires Savable(codec, e, c)
    ensures ReadTail(codec, e.message, TailBytes(e, c) + rest, c') == Good(Restored(e, c, c'), rest)
  {
    hide DeadlineBytes, GroupBytes, ProbeBytes, HitsBytes, ReadDeadline, ReadGroup, ReadProbe, ReadHits, Deadline,
      Expires;
    var d3 := HitsBytes(e.hits) + rest;
    var d2 := ProbeBytes(e.probe) + d3;
    var d1 := GroupBytes(e.group) + d2;
    assert TailBytes(e, c) + rest == DeadlineBytes(e.validUntil, c) + d1;
    DeadlineBack(e.validUntil, c, c', d1);
    GroupBack(codec, e.group, d2);
    ProbeBack(e.probe, d3);
    HitsBack(e.hits, rest);
  }

  /** A saved entry is read back, with whatever follows it left to read. */
  lemma EntryBack(codec: Codec, e: Saved, c: Clock, c': Clock, rest: seq<byte>)
    requires codec.Faithful() && Savable(codec, e, c) && Encode(codec, e, c).Some?
    ensures Decode(codec, Encode(codec, e, c).value + rest, c') == Good(Restored(e, c, c'), rest)
  {
    hide DeadlineBytes, GroupBytes, ProbeBytes, HitsBytes, ReadTail, Restored;
    var m := codec.encode(e.message).value;
    var d := Encode(codec, e, c).value + rest;
    assert d[1..] == m + (TailBytes(e, c) + rest);
    TailBack(codec, e, c, c', rest);
  }

  function OlderGroup(group: Option<seq<byte>>): seq<byte> {
    [3] + match group case None => [0, 0] case Some(g) => U16Bytes(|g|) + g
  }

  /** An entry as an older version wrote it, and what follows it. */
  function OlderEntry(message: seq<byte>, left: nat, group: Option<seq<byte>>, hits: nat, rest: seq<byte>): seq<byte> {
    [1] + (message + ([2] + U32Bytes(left) + (OlderGroup(group) + ([4] + U32Bytes(hits) + rest))))
  }

  /** A file of an older version is read too: it has the seconds that were left, and no probe result. */
  lemma OlderFormatIsRead(codec: Codec, m: Message, left: nat, group: Option<seq<byte>>, hits: nat, c: Clock,
                          rest: seq<byte>)
    requires codec.Faithful() && codec.encode(m).Some? && left < U32 && hits < U32
    requires group.Some? ==> 0 < |group.value| < U16 && codec.isUtf8(group.value)
    ensures Decode(codec, OlderEntry(codec.encode(m).value, left, group, hits, rest), c) ==
            Good(Saved(m, c.now + left * SECOND, group, Unchecked, hits), rest)
  {
    var w := codec.encode(m).value;
    OlderGroupIs(group);
    OlderHitsIs(hits);
    OlderTail(codec, m, left, group, hits, c, rest);
    hide U32Bytes, U16Bytes, ReadTail, GroupBytes, OlderGroup, HitsBytes;
    DecodeTail(codec, m, [2] + U32Bytes(left) + (GroupBytes(group) + (HitsBytes(hits) + rest)), c);
  }

  lemma OlderGroupIs(group: Option<seq<byte>>)
    requires group.Some? ==> |group.value| < U16
    ensures OlderGroup(group) == GroupBytes(group)
  {
    if group.Some? {
      hide U16Bytes;
      assert |group.value| % U16 == |group.value|;
    } else {
      assert U16Bytes(0) == [0, 0];
    }
  }

  lemma OlderHitsIs(hits: nat)
    requires hits < U32
    ensures HitsBytes(hits) == [4] + U32Bytes(hits)
  {
    hide U32Bytes;
    assert hits % U32 == hits;
  }

  lemma DecodeTail(codec: Codec, m: Message, tail: seq<byte>, c: Clock)
    requires codec.Faithful() && codec.encode(m).Some?
    ensures Decode(codec, [1] + (codec.encode(m).value + tail), c) == ReadTail(codec, m, tail, c)
  {
    hide ReadTail;
    TagAndRest(1, codec.encode(m).value, tail);
  }

  lemma OlderDeadline(left: nat, d1: seq<byte>, c: Clock)
    requires left < U32
    ensures ReadDeadline([2] + U32Bytes(left) + d1, c) == Good(c.now + left * SECOND, d1)
  {
    hide U32Bytes, ReadU32;
    ReadU32Back(left, d1);
    TagAndRest(2, U32Bytes(left), d1);
  }

  lemma NoProbe(hits: nat, rest: seq<byte>)
    ensures ReadProbe(HitsBytes(hits) + rest) == Good(Unchecked, HitsBytes(hits) + rest)
  {
    hide U32Bytes;
    TagAndRest(4, U32Bytes(hits % U32), rest);
  }

  lemma OlderTail(codec: Codec, m: Message, left: nat, group: Option<seq<byte>>, hits: nat, c: Clock, rest: seq<byte>)
    requires left < U32 && hits < U32 && (group.Some? ==> 0 < |group.value| < U16 && codec.isUtf8(group.value))
    ensures ReadTail(codec, m, [2] + U32Bytes(left) + (GroupBytes(group) + (HitsBytes(hits) + rest)), c) ==
            Good(Saved(m, c.now + left * SECOND, group, Unchecked, hits), rest)
  {
    hide U32Bytes, ReadU32, GroupBytes, HitsBytes, ReadDeadline, ReadGroup, ReadProbe, ReadHits;
    var d3 := HitsBytes(hits) + rest;
    OlderDeadline(left, GroupBytes(group) + d3, c);
    GroupBack(codec, group, d3);
    NoProbe(hits, rest);
    HitsBack(hits, rest);
  }

  lemma TagAndRest(tag: byte, a: seq<byte>, b: seq<byte>)
    ensures var d := [tag] + a + b; |d| >= 1 && d[0] == tag && d[1..] == a + b
    ensures var d := [tag] + (a + b); |d| >= 1 && d[0] == tag && d[1..] == a + b
  {
  }

  /** The tags of an entry's fields and where they stand. */
  lemma Layout(codec: Codec, e: Saved, c: Clock)
    requires Encode(codec, e, c).Some?
    ensures var w, m, g := Encode(codec, e, c).value, |codec.encode(e.message).value|, GroupLength(e);
            && |w| == m + g + 24
            && w[0] == 1 && w[m + 1] == 5 && w[m + 10] == 3 && w[m + g + 13] == 6 && w[m + g + 19] == 4
            && w[1..m + 1] == codec.encode(e.message).value
            && w[m + g + 14] == match e.probe case Unchecked => 0 case Failed => 1 case Measured(_) => 2
  {
    hide U32Bytes, Expires;
    var m := codec.encode(e.message).value;
    var a, b, d, f := DeadlineBytes(e.validUntil, c), GroupBytes(e.group), ProbeBytes(e.probe), HitsBytes(e.hits);
    var w := Encode(codec, e, c).value;
    FourBytes(Expires(e.validUntil, c) / U32);
    FourBytes(Expires(e.validUntil, c) % U32);
    FourBytes(ProbeMicros(e.probe));
    FourBytes(e.hits % U32);
    assert w == [1] + m + a + b + d + f;
    assert |a| == 9 && |b| == GroupLength(e) + 3 && |d| == 6 && |f| == 5;
  }

  lemma FourBytes(n: nat)
    ensures |U32Bytes(n)| == 4
  {
  }

  /** The entries that come back as they were but for the deadline. */
  predicate Exact(e: Saved) {
    && (e.group.Some? ==> 0 < |e.group.value| < U16)
    && e.hits < U32
    && (e.probe.Measured? ==> e.probe.elapsed % 1000 == 0 && e.probe.elapsed / 1000 < U32)
  }

  predicate SameButDeadline(a: Saved, b: Saved) { a == b.(validUntil := a.validUntil) }

  /** An entry is written and read back as it was but for the deadline. */
  predicate ComesBack(codec: Codec, e: Saved, c: Clock, c': Clock, rest: seq<byte>) {
    var w := Encode(codec, e, c);
    w.Some? && var r := Decode(codec, w.value + rest, c'); r.Good? && SameButDeadline(r.value, e)
  }

  /** Which are exactly these: an entry beyond the limit is not written, and any other group, hit count or probe result
      is changed by saving. */
  lemma ComesBackIffExact(codec: Codec, e: Saved, c: Clock, c': Clock, rest: seq<byte>)
    requires codec.Faithful() && FromProgram(codec, e, c)
    ensures ComesBack(codec, e, c, c', rest) <==> Writable(codec, e) && Exact(e)
  {
    EncodedIffWritable(codec, e, c);
    hide Encode, Decode, Restored, Writable;
    if Encode(codec, e, c).Some? {
      if e.group.Some? && |e.group.value| >= U16 {
        LongGroupChanges(codec, e, c, c', rest);
      } else {
        EntryBack(codec, e, c, c', rest);
        RestoredIffExact(e, c, c');
      }
    }
  }

  lemma RestoredIffExact(e: Saved, c: Clock, c': Clock)
    requires e.group.Some? ==> |e.group.value| < U16
    ensures SameButDeadline(Restored(e, c, c'), e) <==> Exact(e)
  {
  }

  lemma LongGroupChanges(codec: Codec, e: Saved, c: Clock, c': Clock, rest: seq<byte>)
    requires codec.Faithful() && c.wall < U64 && Encode(codec, e, c).Some? && e.group.Some? && |e.group.value| >= U16
    ensures var r := Decode(codec, Encode(codec, e, c).value + rest, c'); r.Good? ==> r.value.group != e.group
  {
    hide DeadlineBytes, GroupBytes, ProbeBytes, HitsBytes, ReadDeadline, ReadGroup, ReadProbe, ReadHits;
    var m := codec.encode(e.message).value;
    var d := Encode(codec, e, c).value + rest;
    var after := ProbeBytes(e.probe) + HitsBytes(e.hits) + rest;
    assert d[1..] == m + (DeadlineBytes(e.validUntil, c) + (GroupBytes(e.group) + after));
    DeadlineBack(e.validUntil, c, c', GroupBytes(e.group) + after);
    GroupTooLong(codec, e.group.value, after);
  }

  /** The octets of a group that is too long, from where its cut length ends: they happen to look like the fields that
      follow a group. */
  predicate LooksLikeFields(g: seq<byte>)
    requires |g| >= U16
  {
    var x := g[|g| % U16..];
    x[0] == 4 || (x[0] == 6 && x[1] <= 2 && x[6] == 4)
  }

  lemma LongGroupRest(codec: Codec, g: seq<byte>, rest: seq<byte>)
    requires |g| >= U16
    ensures ReadGroup(codec, GroupBytes(Some(g)) + rest).Good?
    ensures ReadGroup(codec, GroupBytes(Some(g)) + rest).rest == g[|g| % U16..] + rest
  {
    hide GroupBytes, U16Bytes, ReadU16;
    var n := |g| % U16;
    GroupParts(g, Some(g), rest);
    ReadU16Back(n, g + rest);
    assert (g + rest)[n..] == g[n..] + rest;
    assert n == 0 ==> g + rest == g[n..] + rest;
  }

  lemma ReadU32IsNat(d: seq<byte>)
    requires |d| >= 4
    ensures ReadU32(d).Good? && ReadU32(d).value >= 0 && ReadU32(d).rest == d[4..]
  {
  }

  lemma FieldsReadIff(x: seq<byte>)
    requires |x| >= 11
    ensures (ReadProbe(x).Good? && ReadHits(ReadProbe(x).rest).Good?) <==>
            x[0] == 4 || (x[0] == 6 && x[1] <= 2 && x[6] == 4)
  {
    ReadU32IsNat(x[1..][1..]);
    ReadU32IsNat(x[1..]);
    ReadU32IsNat(x[6..][1..]);
    hide U32Of;
    assert x[1..][1..][4..] == x[6..];
  }

  /** An entry whose group is too long, if it is written, can be read exactly when the group happens to look so. */
  lemma LongGroupReadIff(codec: Codec, e: Saved, c: Clock, c': Clock, rest: seq<byte>)
    requires codec.Faithful() && c.wall < U64 && Encode(codec, e, c).Some? && e.group.Some? && |e.group.value| >= U16
    ensures Decode(codec, Encode(codec, e, c).value + rest, c').Good? <==> LooksLikeFields(e.group.value)
  {
    hide DeadlineBytes, GroupBytes, ProbeBytes, HitsBytes, ReadDeadline, ReadGroup, ReadProbe, ReadHits;
    var m, g := codec.encode(e.message).value, e.group.value;
    var d := Encode(codec, e, c).value + rest;
    var after := ProbeBytes(e.probe) + HitsBytes(e.hits) + rest;
    assert d[1..] == m + (DeadlineBytes(e.validUntil, c) + (GroupBytes(e.group) + after));
    DeadlineBack(e.validUntil, c, c', GroupBytes(e.group) + after);
    LongGroupRest(codec, g, after);
    var x := g[|g| % U16..];
    FieldsReadIff(x + after);
    assert |x| >= U16;
  }

  /** The clock some whole seconds later. */
  function Later(c: Clock, seconds: nat): Clock { Clock(c.now + seconds * SECOND, c.wall + seconds) }

  /** The expiry is a second the wall clock can have, and a deadline in the past is no earlier than the steady clock's
      start. */
  predicate InRange(validUntil: int, c: Clock) {
    if validUntil > c.now then c.wall + (validUntil - c.now) / SECOND < U64
    else var past := (c.now - validUntil) / SECOND; past <= c.wall && past * SECOND <= c.now
  }

  /** When both clocks advance by the same whole seconds, the deadline moves by less than a second exactly within that
      range. */
  lemma DeadlineMovesLittleIff(validUntil: int, c: Clock, seconds: nat)
    requires 0 <= c.now && c.wall < U64
    ensures var d := Deadline(Expires(validUntil, c), Later(c, seconds));
            -SECOND < d - validUntil < SECOND <==> InRange(validUntil, c)
  {
    if validUntil > c.now {
      var left := (validUntil - c.now) / SECOND;
      assert left * SECOND <= validUntil - c.now < (left + 1) * SECOND;
    } else {
      var past := (c.now - validUntil) / SECOND;
      assert past * SECOND <= c.now - validUntil < (past + 1) * SECOND;
    }
  }

  /** Outside it: an entry that expired before the steady clock started comes back as expiring when it is read. */
  lemma EarlyDeadlineIsLost(seconds: nat)
    ensures var c := Clock(0, 10); Deadline(Expires(-5 * SECOND, c), Later(c, seconds)) == Later(c, seconds).now
  {
  }

  // ---- A file ----

  /** The entries one after the other; one that cannot be encoded is left out. */
  function EncodeAll(codec: Codec, es: seq<Saved>, cs: seq<Clock>): seq<byte>
    requires |cs| == |es|
  {
    if es == [] then []
    else (match Encode(codec, es[0], cs[0]) case None => [] case Some(b) => b) + EncodeAll(codec, es[1..], cs[1..])
  }

  /** Reads entries until nothing is left; the clock is read for each. */
  function DecodeAll(codec: Codec, d: seq<byte>, clock: nat -> Clock, k: nat): Option<seq<Saved>>
    requires codec.Faithful()
    decreases |d|
  {
    if d == [] then Some([])
    else
      match Decode(codec, d, clock(k))
      case Bad => None
      case Good(e, rest) =>
        DecodeShrinks(codec, d, clock(k));
        match DecodeAll(codec, rest, clock, k + 1)
        case None => None
        case Some(es) => Some([e] + es)
  }

  lemma DecodeShrinks(codec: Codec, d: seq<byte>, c: Clock)
    requires codec.Faithful() && Decode(codec, d, c).Good?
    ensures |Decode(codec, d, c).rest| < |d|
  {
    hide U16Of, U32Of, Deadline;
  }

  function RestoredAll(codec: Codec, es: seq<Saved>, cs: seq<Clock>, clock: nat -> Clock, k: nat): seq<Saved>
    requires |cs| == |es|
  {
    if es == [] then []
    else if Encode(codec, es[0], cs[0]).None? then RestoredAll(codec, es[1..], cs[1..], clock, k)
    else [Restored(es[0], cs[0], clock(k))] + RestoredAll(codec, es[1..], cs[1..], clock, k + 1)
  }

  /** A file gives back the entries that were written, in order. */
  lemma {:induction false} FileBack(codec: Codec, es: seq<Saved>, cs: seq<Clock>, clock: nat -> Clock, k: nat)
    requires codec.Faithful() && |cs| == |es| && AllSavable(codec, es, cs)
    ensures DecodeAll(codec, EncodeAll(codec, es, cs), clock, k) == Some(RestoredAll(codec, es, cs, clock, k))
    decreases |es|
  {
    hide Encode, Decode, Restored, Savable, Writable;
    if es != [] {
      var rest := EncodeAll(codec, es[1..], cs[1..]);
      var first := Encode(codec, es[0], cs[0]);
      EncodedIffWritable(codec, es[0], cs[0]);
      assert first.Some? ==> Savable(codec, es[0], cs[0]);
      if first.None? {
        FileBack(codec, es[1..], cs[1..], clock, k);
        assert [] + rest == rest;
      } else {
        FileBack(codec, es[1..], cs[1..], clock, k + 1);
        EntryBack(codec, es[0], cs[0], clock(k), rest);
        EncodedStarts(codec, es[0], cs[0]);
      }
    }
  }

  /** Under a limit of 16 bits every file is read: an entry whose group is too long is not written, and the others come
      back. */
  lemma LimitSparesFile(codec: Codec, es: seq<Saved>, cs: seq<Clock>, clock: nat -> Clock)
    requires codec.Faithful() && |cs| == |es| && codec.limit < U16
    requires forall i :: 0 <= i < |es| ==> FromProgram(codec, es[i], cs[i])
    ensures DecodeAll(codec, EncodeAll(codec, es, cs), clock, 0) == Some(RestoredAll(codec, es, cs, clock, 0))
    ensures forall i :: 0 <= i < |es| && GroupLength(es[i]) >= U16 ==> Encode(codec, es[i], cs[i]) == None
  {
    hide Encode, FromProgram, AllSavable;
    LimitKeepsGroupsShort(codec, es, cs);
    FileBack(codec, es, cs, clock, 0);
  }

  /** Otherwise, if the whole entry is within the limit and so is written, it spoils the whole file: nothing is read,
      however many entries stand before and after it. */
  lemma {:induction false} LongGroupSpoilsFile(codec: Codec, es: seq<Saved>, cs: seq<Clock>, clock: nat -> Clock,
                                               k: nat, i: nat)
    requires codec.Faithful() && |cs| == |es| && i < |es| && AllSavable(codec, es[..i], cs[..i])
    requires cs[i].wall < U64 && Writable(codec, es[i])
    requires es[i].group.Some? && |es[i].group.value| >= U16 && !LooksLikeFields(es[i].group.value)
    ensures DecodeAll(codec, EncodeAll(codec, es, cs), clock, k) == None
    decreases i
  {
    var first, rest := Encode(codec, es[0], cs[0]), EncodeAll(codec, es[1..], cs[1..]);
    EncodedIffWritable(codec, es[0], cs[0]);
    if i == 0 {
      hide Encode, Decode, LooksLikeFields, Writable;
      EncodedStarts(codec, es[0], cs[0]);
      LongGroupReadIff(codec, es[0], cs[0], clock(k), rest);
    } else {
      hide Encode, Decode, Restored, Savable, LooksLikeFields, Writable;
      assert first.Some? ==> Savable(codec, es[..i][0], cs[..i][0]);
      assert es[1..][..i - 1] == es[..i][1..] && cs[1..][..i - 1] == cs[..i][1..];
      LongGroupSpoilsFile(codec, es[1..], cs[1..], clock, if first.None? then k else k + 1, i - 1);
      if first.None? {
        assert [] + rest == rest;
      } else {
        EntryBack(codec, es[0], cs[0], clock(k), rest);
        EncodedStarts(codec, es[0], cs[0]);
      }
    }
  }

  lemma EncodedStarts(codec: Codec, e: Saved, c: Clock)
    requires Encode(codec, e, c).Some?
    ensures |Encode(codec, e, c).value| > 0
  {
  }

  method SerializeMany(codec: Codec, es: seq<Saved>, cs: seq<Clock>) returns (file: seq<byte>)
    requires |cs| == |es|
    ensures file == EncodeAll(codec, es, cs)
  {
    hide Encode;
    file := [];
    for k := 0 to |es|
      invariant file + EncodeAll(codec, es[k..], cs[k..]) == EncodeAll(codec, es, cs)
    {
      var buf := Encode(codec, es[k], cs[k]);
      assert es[k..][1..] == es[k + 1..] && cs[k..][1..] == cs[k + 1..];
      if buf.Some? {
        ghost var more := EncodeAll(codec, es[k + 1..], cs[k + 1..]);
        assert file + (buf.value + more) == file + buf.value + more;
        file := file + buf.value;
      } else {
        assert [] + EncodeAll(codec, es[k + 1..], cs[k + 1..]) == EncodeAll(codec, es[k + 1..], cs[k + 1..]);
      }
    }
  }

  method DeserializeMany(codec: Codec, data: seq<byte>, clock: nat -> Clock) returns (r: Option<seq<Saved>>)
    requires codec.Faithful()
    ensures r == DecodeAll(codec, data, clock, 0)
  {
    hide Decode;
    var entries: seq<Saved>, rest := [], data;
    assert forall es: seq<Saved> :: entries + es == es;
    while rest != []
      invariant match DecodeAll(codec, rest, clock, |entries|)
                case None => DecodeAll(codec, data, clock, 0) == None
                case Some(es) => DecodeAll(codec, data, clock, 0) == Some(entries + es)
      decreases |rest|
    {
      var e := Decode(codec, rest, clock(|entries|));
      if e.Bad? { return None; }
      DecodeShrinks(codec, rest, clock(|entries|));
      ghost var more := DecodeAll(codec, e.rest, clock, |entries| + 1);
      if more.Some? { assert entries + ([e.value] + more.value) == entries + [e.value] + more.value; }
      entries, rest := entries + [e.value], e.rest;
    }
    assert entries + [] == entries;
    r := Some(entries);
  }
}
