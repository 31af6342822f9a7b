/** DNS messages as far as the model needs them. */
module Messages {
  import opened Common
  import opened WireNames

  datatype RecordType = A | AAAA | CNAME | SOA | Other(code: nat)

  const HTTPS: RecordType := Other(65)

  predicate IsIpAddr(t: RecordType) { t == A || t == AAAA }

  datatype IpAddr = V4(v4: nat) | V6(v6: nat)

  datatype RData =
    | Ip(addr: IpAddr)
    | Cname(target: Labels)
    | Soa(minimum: nat, rest: string)
    | OtherData(code: nat, payload: seq<byte>)

  function TypeOf(d: RData): RecordType {
    match d
    case Ip(V4(_)) => A
    case Ip(V6(_)) => AAAA
    case Cname(_) => CNAME
    case Soa(_, _) => SOA
    case OtherData(code, _) => Other(code)
  }

  const DEFAULT_SOA: RData :=
    Soa(86400, "a.gtld-servers.net nstld.verisign-grs.com 1800 1800 900 604800")

  datatype Record = Record(name: Labels, ttl: nat, data: RData)

  function RecordTypeOf(r: Record): RecordType { TypeOf(r.data) }

  datatype Query = Query(name: Labels, qtype: RecordType, qclass: nat)

  const DEFAULT_QUERY: Query := Query([], A, 1)

  type ResponseCode = nat

  const NO_ERROR: ResponseCode := 0
  const NX_DOMAIN: ResponseCode := 3

  type Nibble = n: int | 0 <= n < 16

  type U16Value = n: int | 0 <= n < 0x1_0000

  /** The flags of section 4.1.1 of RFC 1035; the response code has the 12 bits of section 6.1.3 of RFC 6891. */
  datatype Header = Header(
    id: U16Value, response: bool, opcode: Nibble, authoritative: bool, truncated: bool, recursionDesired: bool,
    recursionAvailable: bool, authenticData: bool, checkingDisabled: bool, rcode: ResponseCode)

  datatype Message = Message(
    header: Header, queries: seq<Query>, answers: seq<Record>, authorities: seq<Record>, additionals: seq<Record>,
    edns: Option<string>)

  function QueryOf(m: Message): Query { if m.queries == [] then DEFAULT_QUERY else m.queries[0] }

  datatype ProbeResult = Unchecked | Failed | Measured(elapsed: nat)

  /** `DnsResponse` as a value. Times are in nanoseconds. */
  datatype Response = Response(
    message: Message, preparedWire: Option<seq<byte>>, wireLen: Option<nat>, validUntil: int,
    group: Option<seq<byte>>, probe: ProbeResult)

  function Cap(rs: seq<Record>, ttl: nat): seq<Record> {
    seq(|rs|, i requires 0 <= i < |rs| => rs[i].(ttl := Min(rs[i].ttl, ttl)))
  }

  function Raise(rs: seq<Record>, ttl: nat): seq<Record> {
    seq(|rs|, i requires 0 <= i < |rs| => rs[i].(ttl := Max(rs[i].ttl, ttl)))
  }

  function SetTtl(rs: seq<Record>, ttl: nat): seq<Record> {
    seq(|rs|, i requires 0 <= i < |rs| => rs[i].(ttl := ttl))
  }

  /** Every section's TTLs lowered to at most `ttl`. */
  function CapMessage(m: Message, ttl: nat): Message {
    m.(answers := Cap(m.answers, ttl), authorities := Cap(m.authorities, ttl), additionals := Cap(m.additionals, ttl))
  }
}
