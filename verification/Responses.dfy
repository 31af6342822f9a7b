/** The shared response with its prepared encoding, and the reply that patches a header into it (src/dns.rs). */
module Responses {
  import opened Common
  import opened Messages

  // ---- Encoding ----

  /** What is encoded after the header. */
  datatype Sections = Sections(
    queries: seq<Query>, answers: seq<Record>, authorities: seq<Record>, additionals: seq<Record>, edns: Option<string>)

  /** The record counts, whether records were dropped at the size limit, and the bytes after the header. */
  datatype Encoded = Encoded(qd: U16Value, an: U16Value, ns: U16Value, ar: U16Value, truncated: bool, body: seq<byte>)

  /** The message codec, left abstract. Its result depends on the records and on the upper bits of the response code,
      which go into the OPT record; it may fail. */
  type Codec = (Sections, nat) -> Option<Encoded>

  function SectionsOf(m: Message): Sections { Sections(m.queries, m.answers, m.authorities, m.additionals, m.edns) }

  function Bit(b: bool, weight: nat): nat { if b then weight else 0 }

  function TwoBytes(n: U16Value): seq<byte> { [n / 256, n % 256] }

  function FlagBytes(h: Header): seq<byte> {
    [Bit(h.response, 128) + h.opcode * 8 + Bit(h.authoritative, 4) + Bit(h.truncated, 2) + Bit(h.recursionDesired, 1),
     Bit(h.recursionAvailable, 128) + Bit(h.authenticData, 32) + Bit(h.checkingDisabled, 16) + h.rcode % 16]
  }

  /** The first 4 octets of the header, with the low response-code bits. */
  function HeaderBytes(h: Header): (b: seq<byte>)
    ensures |b| == 4
  {
    TwoBytes(h.id) + FlagBytes(h)
  }

  function CountBytes(e: Encoded): (b: seq<byte>)
    ensures |b| == 8
  {
    TwoBytes(e.qd) + TwoBytes(e.an) + TwoBytes(e.ns) + TwoBytes(e.ar)
  }

  /** `Message::to_vec`. */
  function Encode(codec: Codec, m: Message): (w: Option<seq<byte>>)
    ensures w.Some? ==> |w.value| >= 12
  {
    match codec(SectionsOf(m), m.header.rcode / 16)
    case None => None
    case Some(e) => Some(HeaderBytes(m.header.(truncated := m.header.truncated || e.truncated)) + CountBytes(e)
                         + e.body)
  }

  predicate TruncatedBit(b: byte) { b / 2 % 2 == 1 }

  function DecodeHeader(b: seq<byte>): Header
    requires |b| >= 4
  {
    var high: int := b[0];
    Header(high * 256 + b[1], b[2] / 128 == 1, b[2] / 8 % 16, b[2] / 4 % 2 == 1, TruncatedBit(b[2]), b[2] % 2 == 1,
           b[3] / 128 == 1, b[3] / 32 % 2 == 1, b[3] / 16 % 2 == 1, b[3] % 16)
  }

  lemma FirstFlagByte(a: nat, op: Nibble, c: nat, d: nat, e: nat)
    requires a <= 1 && c <= 1 && d <= 1 && e <= 1
    ensures var b := a * 128 + op * 8 + c * 4 + d * 2 + e;
            b / 128 == a && b / 8 % 16 == op && b / 4 % 2 == c && b / 2 % 2 == d && b % 2 == e
  {
    var b := a * 128 + op * 8 + c * 4 + d * 2 + e;
    assert b / 8 == a * 16 + op;
    assert b / 4 == a * 32 + op * 2 + c;
    assert b / 2 == a * 64 + op * 4 + c * 2 + d;
  }

  lemma SecondFlagByte(a: nat, d: nat, c: nat, low: Nibble)
    requires a <= 1 && d <= 1 && c <= 1
    ensures var b := a * 128 + d * 32 + c * 16 + low;
            b / 128 == a && b / 32 % 2 == d && b / 16 % 2 == c && b % 16 == low
  {
    var b := a * 128 + d * 32 + c * 16 + low;
    assert b / 16 == a * 8 + d * 2 + c;
    assert b / 32 == a * 4 + d;
  }

  lemma FirstFlagByteDecodes(h: Header, b: byte)
    requires b == FlagBytes(h)[0]
    ensures (b / 128 == 1) == h.response && b / 8 % 16 == h.opcode && (b / 4 % 2 == 1) == h.authoritative
    ensures TruncatedBit(b) == h.truncated && (b % 2 == 1) == h.recursionDesired
  {
    FirstFlagByte(Bit(h.response, 1), h.opcode, Bit(h.authoritative, 1), Bit(h.truncated, 1),
                  Bit(h.recursionDesired, 1));
  }

  lemma SecondFlagByteDecodes(h: Header, c: byte)
    requires c == FlagBytes(h)[1]
    ensures (c / 128 == 1) == h.recursionAvailable && (c / 32 % 2 == 1) == h.authenticData
    ensures (c / 16 % 2 == 1) == h.checkingDisabled && c % 16 == h.rcode % 16
  {
    SecondFlagByte(Bit(h.recursionAvailable, 1), Bit(h.authenticData, 1), Bit(h.checkingDisabled, 1), h.rcode % 16);
  }

  /** The header octets say everything about a header but the upper response-code bits. */
  lemma HeaderRoundTrip(h: Header)
    ensures DecodeHeader(HeaderBytes(h)) == h.(rcode := h.rcode % 16)
  {
    var b := HeaderBytes(h);
    assert b[0] == h.id / 256 && b[1] == h.id % 256;
    assert b[2] == FlagBytes(h)[0] && b[3] == FlagBytes(h)[1];
    FirstFlagByteDecodes(h, b[2]);
    SecondFlagByteDecodes(h, b[3]);
    hide FlagBytes, TruncatedBit;
  }

  // ---- The response ----

  /** A prepared encoding is the encoding of the message as it is now. */
  ghost predicate Prepared(codec: Codec, r: Response) {
    r.preparedWire.Some? ==> Encode(codec, r.message) == r.preparedWire
  }

  predicate AnyAbove(rs: seq<Record>, ttl: nat) { exists i :: 0 <= i < |rs| && rs[i].ttl > ttl }

  /** `set_max_ttl`: a response with nothing to lower is left as it is, with its encoding. */
  function WithMaxTtl(r: Response, ttl: nat): (r': Response)
    ensures r'.message == CapMessage(r.message, ttl)
    ensures r'.preparedWire == if r'.message == r.message then r.preparedWire else None
  {
    var m := r.message;
    if AnyAbove(m.answers, ttl) || AnyAbove(m.authorities, ttl) || AnyAbove(m.additionals, ttl) then
      CapChanges(m, ttl);
      r.(message := CapMessage(m, ttl), preparedWire := None)
    else
      CapKeeps(m.answers, ttl);
      CapKeeps(m.authorities, ttl);
      CapKeeps(m.additionals, ttl);
      r
  }

  lemma CapKeeps(rs: seq<Record>, ttl: nat)
    requires !AnyAbove(rs, ttl)
    ensures Cap(rs, ttl) == rs
  {
  }

  lemma CapChanges(m: Message, ttl: nat)
    requires AnyAbove(m.answers, ttl) || AnyAbove(m.authorities, ttl) || AnyAbove(m.additionals, ttl)
    ensures CapMessage(m, ttl) != m
  {
  }

  class DnsResponse {
    const codec: Codec
    var message: Message
    var preparedWire: Option<seq<byte>>
    var wireLen: Option<nat>
    var validUntil: int
    var group: Option<seq<byte>>
    var probe: ProbeResult

    ghost predicate Valid()
      reads this
    {
      Prepared(codec, Value())
    }

    function Value(): Response
      reads this
    {
      Response(message, preparedWire, wireLen, validUntil, group, probe)
    }

    constructor (codec: Codec, message: Message, validUntil: int)
      ensures Valid() && this.codec == codec
      ensures Value() == Response(message, None, None, validUntil, None, Unchecked)
    {
      this.codec, this.message, this.validUntil := codec, message, validUntil;
      preparedWire, wireLen, group, probe := None, None, None, Unchecked;
    }

    /** Clones share the message and its encoding until one of them changes. */
    constructor Clone(other: DnsResponse)
      requires other.Valid()
      ensures Valid() && codec == other.codec && Value() == other.Value()
    {
      codec, message, preparedWire, wireLen := other.codec, other.message, other.preparedWire, other.wireLen;
      validUntil, group, probe := other.validUntil, other.group, other.probe;
    }

    method PrepareWire()
      requires Valid()
      modifies `preparedWire
      ensures Valid() && preparedWire == Encode(codec, message)
    {
      if preparedWire.None? { preparedWire := Encode(codec, message); }
    }

    method ToVec() returns (w: Option<seq<byte>>)
      requires Valid()
      ensures w == Encode(codec, message)
    {
      w := if preparedWire.Some? then preparedWire else Encode(codec, message);
    }

    /** `DerefMut`: any change to the message goes through here and drops both sizes of its old form. */
    method Change(m: Message)
      requires Valid()
      modifies `message, `preparedWire, `wireLen
      ensures Valid() && Value() == old(Value()).(message := m, preparedWire := None, wireLen := None)
    {
      wireLen, preparedWire := None, None;
      message := m;
    }

    method SetNewTtl(ttl: nat)
      requires Valid()
      modifies `message, `preparedWire
      ensures Valid()
      ensures message == old(message).(answers := SetTtl(old(message).answers, ttl))
      ensures preparedWire == if message == old(message) then old(preparedWire) else None
    {
      if exists i :: 0 <= i < |message.answers| && message.answers[i].ttl != ttl {
        ghost var i :| 0 <= i < |message.answers| && message.answers[i].ttl != ttl;
        preparedWire := None;
        message := message.(answers := SetTtl(message.answers, ttl));
        assert message.answers[i].ttl == ttl;
      } else {
        assert SetTtl(message.answers, ttl) == message.answers;
      }
    }

    method SetMaxTtl(ttl: nat)
      requires Valid()
      modifies `message, `preparedWire
      ensures Valid() && Value() == WithMaxTtl(old(Value()), ttl)
    {
      if !AnyAbove(message.answers, ttl) && !AnyAbove(message.authorities, ttl) && !AnyAbove(message.additionals, ttl) {
        return;
      }
      preparedWire := None;
      var answers := CapAll(message.answers, ttl);
      var authorities := CapAll(message.authorities, ttl);
      var additionals := CapAll(message.additionals, ttl);
      message := message.(answers := answers, authorities := authorities, additionals := additionals);
    }

    /** Lowers each record of one section. */
    static method CapAll(rs: seq<Record>, ttl: nat) returns (r: seq<Record>)
      ensures r == Cap(rs, ttl)
    {
      r := rs;
      for i := 0 to |rs|
        invariant |r| == |rs|
        invariant forall j :: 0 <= j < i ==> r[j] == Cap(rs, ttl)[j]
        invariant forall j :: i <= j < |rs| ==> r[j] == rs[j]
      {
        if r[i].ttl > ttl { r := r[i := r[i].(ttl := ttl)]; }
      }
    }

    method SetMinTtl(ttl: nat)
      requires Valid()
      modifies `message, `preparedWire
      ensures Valid()
      ensures message == old(message).(answers := Raise(old(message).answers, ttl))
      ensures preparedWire == if message == old(message) then old(preparedWire) else None
    {
      if exists i :: 0 <= i < |message.answers| && message.answers[i].ttl < ttl {
        ghost var i :| 0 <= i < |message.answers| && message.answers[i].ttl < ttl;
        preparedWire := None;
        message := message.(answers := Raise(message.answers, ttl));
        assert message.answers[i].ttl == ttl;
      } else {
        assert Raise(message.answers, ttl) == message.answers;
      }
    }
  }

  // ---- Replies ----

  datatype Reply = Reply(message: Message, header: Header, wire: Option<seq<byte>>)
  {
    /** The reply as a message: the records under the reply's header. */
    function ToMessage(): Message { message.(header := header) }

    /** The encoding belongs to the message, and the two headers agree on what the records' encoding depends on. */
    ghost predicate Valid(codec: Codec) {
      && (wire.Some? ==> Encode(codec, message) == wire)
      && header.rcode == message.header.rcode
      && (message.header.truncated ==> header.truncated)
    }
  }

  /** `SerialMessage::reply`: the truncation flags add up, and an error set by the request's header wins over the
      message's code, in the header and in the message alike. */
  method MakeReply(response: DnsResponse, header: Header) returns (r: Reply)
    requires response.Valid()
    modifies response
    ensures r.Valid(response.codec)
    ensures r.header == header.(truncated := header.truncated || old(response.message).header.truncated,
                                rcode := if header.rcode == NO_ERROR then old(response.message).header.rcode
                                    else header.rcode)
    ensures r.message == old(response.message).(header := old(response.message).header.(rcode := r.header.rcode))
    ensures old(response.preparedWire).Some? && r.message == old(response.message) ==>
            r.wire == old(response.preparedWire)
  {
    var h := header.(truncated := header.truncated || response.message.header.truncated);
    var code := response.message.header.rcode;
    if h.rcode == NO_ERROR {
      h := h.(rcode := code);
    } else if h.rcode != code {
      var m := response.message;
      response.Change(m.(header := m.header.(rcode := h.rcode)));
    }
    r := Reply(response.message, h, response.preparedWire);
  }

  /** An encoding with another header before its own counts and records. */
  function Patched(wire: seq<byte>, h: Header): seq<byte>
    requires |wire| >= 12
  {
    HeaderBytes(h) + wire[4..]
  }

  lemma EncodeParts(codec: Codec, m: Message, e: Encoded)
    requires codec(SectionsOf(m), m.header.rcode / 16) == Some(e)
    ensures var w := Encode(codec, m).value;
            && w[..4] == HeaderBytes(m.header.(truncated := m.header.truncated || e.truncated))
            && w[4..] == CountBytes(e) + e.body
            && TruncatedBit(w[2]) == (m.header.truncated || e.truncated)
  {
    var h := m.header.(truncated := m.header.truncated || e.truncated);
    var w := Encode(codec, m).value;
    assert w == HeaderBytes(h) + (CountBytes(e) + e.body);
    assert w[2] == HeaderBytes(h)[2];
    HeaderRoundTrip(h);
  }

  /** Patching the reply's header into the message's encoding gives the encoding of the reply. */
  lemma PatchedIsEncoded(codec: Codec, reply: Reply)
    requires reply.Valid(codec)
    ensures var w := Encode(codec, reply.message);
            Encode(codec, reply.ToMessage()) ==
            match w
            case None => None
            case Some(w) => Some(Patched(w, reply.header.(truncated := reply.header.truncated || TruncatedBit(w[2]))))
  {
    hide HeaderBytes, CountBytes;
    var m := reply.ToMessage();
    var e := codec(SectionsOf(m), m.header.rcode / 16);
    assert e == codec(SectionsOf(reply.message), reply.message.header.rcode / 16);
    if e.Some? {
      EncodeParts(codec, reply.message, e.value);
      EncodeParts(codec, m, e.value);
      var w := Encode(codec, m).value;
      assert w == w[..4] + w[4..];
    }
  }

  /** The reply's bytes, by patching its header into the encoding at hand: exactly what encoding the reply anew
      gives. */
  method ReplyBytes(codec: Codec, reply: Reply) returns (r: Option<seq<byte>>)
    requires reply.Valid(codec)
    ensures r == Encode(codec, reply.ToMessage())
  {
    hide HeaderBytes;
    var wire := if reply.wire.Some? then reply.wire else Encode(codec, reply.message);
    PatchedIsEncoded(codec, reply);
    if wire.None? { return None; }
    var w := wire.value;
    var bytes := new byte[|w|](i requires 0 <= i < |w| => w[i]);
    var counts := bytes[4..12];
    var header := reply.header.(truncated := reply.header.truncated || TruncatedBit(bytes[2]));
    var patch := HeaderBytes(header);
    forall i | 0 <= i < 4 { bytes[i] := patch[i]; }
    forall i | 0 <= i < 8 { bytes[4 + i] := counts[i]; }
    assert bytes[..] == Patched(w, header);
    r := Some(bytes[..]);
  }
}
