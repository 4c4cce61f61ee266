/** What SNMPPacket::parse computes, as functions on the bytes b and an offset.
    Each region is read under its own end, and the fields are threaded through, so
    that the result also says what a packet object holds after a failed parse. */
module Decoder {
  import opened Octets
  import opened Packet

  // A length field: the number it declares and where its octets end.
  datatype Span = Span(len: nat, next: nat)

  // The contents of a type-length-value field, and the region b[start..end] they fill.
  datatype Field = Field(contents: seq<Byte>, start: nat, end: nat)

  // offset is meaningful when ok: it is where parsing stopped.
  datatype Outcome = Outcome(ok: bool, message: Message, offset: nat)

  datatype ListOutcome = ListOutcome(ok: bool, varBinds: seq<VarBind>, offset: nat)

  function DecodeLength(b: seq<Byte>, limit: nat, o: nat): (r: Option<Span>)
    requires limit <= |b|
    ensures r.Some? ==> o < r.value.next <= limit && r.value.len < 0x1_0000_0000
  {
    if o >= limit then None
    else if b[o] < 0x80 then Some(Span(b[o], o + 1))
    else
      var k := b[o] - 0x80;
      if k == 0 || k > 4 || o + 1 + k > limit then None
      else
        BigEndianBound(b[o + 1..o + 1 + k]);
        assert Pow256(k) <= Pow256(4);
        Some(Span(BigEndian(b[o + 1..o + 1 + k]), o + 1 + k))
  }

  /** A tag of any kind at o, then its length and contents, all before limit. */
  function DecodeField(b: seq<Byte>, limit: nat, o: nat): (r: Option<Field>)
    requires limit <= |b|
    ensures r.Some? ==> o + 2 <= r.value.start <= r.value.end == r.value.start + |r.value.contents| <= limit
  {
    if o >= limit then None
    else
      match DecodeLength(b, limit, o + 1)
      case None => None
      case Some(s) => if s.next + s.len > limit then None 
        else Some(Field(b[s.next..s.next + s.len], s.next, s.next + s.len))
  }

  function DecodeTagged(b: seq<Byte>, limit: nat, o: nat, tag: Byte): (r: Option<Field>)
    requires limit <= |b|
    ensures r.Some? ==> o + 2 <= r.value.start <= r.value.end == r.value.start + |r.value.contents| <= limit
  {
    if o >= limit || b[o] != tag then None else DecodeField(b, limit, o)
  }

  function DecodeVarBind(b: seq<Byte>, end: nat, o: nat): (r: Option<(VarBind, nat)>)
    requires end <= |b|
    ensures r.Some? ==> o + 4 <= r.value.1 <= end
  {
    match DecodeTagged(b, end, o, TAG_OID)
    case None => None
    case Some(oid) =>
      match DecodeField(b, end, oid.end)
      case None => None
      case Some(value) =>
        Some((VarBind(oid.contents, b[oid.end], value.contents), value.end))
  }

  /** Reads bindings from o until end is reached, after those in acc.  Each takes at least
      six octets, also when a later one fails; offset is then where that one starts,
      before the octets of it that the parser has already passed over. */
  function DecodeVarBinds(b: seq<Byte>, end: nat, o: nat, acc: seq<VarBind>): (r: ListOutcome)
    requires o <= end <= |b|
    ensures r.ok ==> r.offset == end
    ensures acc <= r.varBinds && o + 6 * (|r.varBinds| - |acc|) <= r.offset <= end
    decreases end - o
  {
    if o >= end then ListOutcome(true, acc, o)
    else
      match DecodeTagged(b, end, o, TAG_SEQUENCE)
      case None => ListOutcome(false, acc, o)
      case Some(f) =>
        match DecodeVarBind(b, f.end, f.start)
        case None => ListOutcome(false, acc, o)
        case Some(bound) => DecodeVarBinds(b, end, bound.1, acc + [bound.0])
  }

  /** One turn of reading bindings. */
  lemma ListStep(b: seq<Byte>, end: nat, o: nat, acc: seq<VarBind>)
    requires o <= end <= |b|
    ensures
      DecodeVarBinds(b, end, o, acc) ==
      if o >= end then ListOutcome(true, acc, o)
      else
        match DecodeTagged(b, end, o, TAG_SEQUENCE)
        case None => ListOutcome(false, acc, o)
        case Some(f) =>
          match DecodeVarBind(b, f.end, f.start)
          case None => ListOutcome(false, acc, o)
          case Some(bound) => DecodeVarBinds(b, end, bound.1, acc + [bound.0])
  {
  }

  /** The contents of up to n INTEGERs in a row, and where reading stopped. */
  function DecodeIntegers(b: seq<Byte>, end: nat, o: nat, n: nat): (r: (seq<seq<Byte>>, nat))
    requires o <= end <= |b|
    ensures |r.0| <= n && o <= r.1 <= end
    decreases end - o
  {
    if n == 0 then ([], o)
    else
      match DecodeTagged(b, end, o, TAG_INTEGER)
      case None => ([], o)
      case Some(f) =>
        var rest := DecodeIntegers(b, end, f.end, n - 1);
        ([f.contents] + rest.0, rest.1)
  }

  /** One INTEGER more at the front. */
  lemma IntegersStep(b: seq<Byte>, end: nat, o: nat, n: nat)
    requires o <= end <= |b| && n > 0
    ensures
      DecodeIntegers(b, end, o, n) ==
      match DecodeTagged(b, end, o, TAG_INTEGER)
      case None => ([], o)
      case Some(f) =>
        var rest := DecodeIntegers(b, end, f.end, n - 1);
        ([f.contents] + rest.0, rest.1)
  {
  }

  /** What three INTEGERs in a row are read as, however many of them there are. */
  lemma ThreeIntegers(b: seq<Byte>, end: nat, o: nat)
    requires o <= end <= |b|
    ensures
      var ns := DecodeIntegers(b, end, o, 3);
      match DecodeTagged(b, end, o, TAG_INTEGER)
      case None => ns.0 == []
      case Some(id) =>
        match DecodeTagged(b, end, id.end, TAG_INTEGER)
        case None => ns.0 == [id.contents]
        case Some(status) =>
          match DecodeTagged(b, end, status.end, TAG_INTEGER)
          case None => ns.0 == [id.contents, status.contents]
          case Some(index) => ns == ([id.contents, status.contents, index.contents], index.end)
  {
    hide DecodeTagged, DecodeIntegers;
    IntegersStep(b, end, o, 3);
    if DecodeTagged(b, end, o, TAG_INTEGER).Some? {
      var id := DecodeTagged(b, end, o, TAG_INTEGER).value;
      IntegersStep(b, end, id.end, 2);
      if DecodeTagged(b, end, id.end, TAG_INTEGER).Some? {
        var status := DecodeTagged(b, end, id.end, TAG_INTEGER).value;
        IntegersStep(b, end, status.end, 1);
        if DecodeTagged(b, end, status.end, TAG_INTEGER).Some? {
          var index := DecodeTagged(b, end, status.end, TAG_INTEGER).value;
          NoIntegers(b, end, index.end);
          assert [index.contents] + [] == [index.contents];
          assert [id.contents] + ([status.contents] + [index.contents])
            == [id.contents, status.contents, index.contents];
        }
      }
    }
  }

  lemma NoIntegers(b: seq<Byte>, end: nat, o: nat)
    requires o <= end <= |b|
    ensures DecodeIntegers(b, end, o, 0) == ([], o)
  {
  }

  /** m with as many of its integer fields set as were read. */
  function WithIntegers(m: Message, ns: seq<seq<Byte>>): Message {
    m.(requestId := if |ns| > 0 then BigEndian(ns[0]) % 0x1_0000_0000 else m.requestId,
       errorStatus := if |ns| > 1 then BigEndian(ns[1]) % 0x100 else m.errorStatus,
       errorIndex := if |ns| > 2 then BigEndian(ns[2]) % 0x100 else m.errorIndex)
  }

  function DecodePdu(b: seq<Byte>, end: nat, o: nat, m: Message): (r: Outcome)
    requires o <= end <= |b|
    ensures r.ok ==> r.offset <= end
  {
    var (ns, at) := DecodeIntegers(b, end, o, 3);
    var m3 := WithIntegers(m, ns);
    if |ns| < 3 then Outcome(false, m3, o)
    else
      match DecodeTagged(b, end, at, TAG_SEQUENCE)
      case None => Outcome(false, m3, o)
      case Some(list) =>
        var l := DecodeVarBinds(b, list.end, list.start, []);
        Outcome(l.ok, m3.(varBinds := l.varBinds), l.offset)
  }

  function DecodeMessage(b: seq<Byte>, m: Message): (r: Outcome)
    ensures r.ok ==> r.offset <= |b|
  {
    var n := |b|;
    if n == 0 || b[0] != TAG_SEQUENCE then Outcome(false, m, 0)
    else
      match DecodeLength(b, n, 1)
      case None => Outcome(false, m, 0)
      case Some(whole) =>
        if whole.len != n - whole.next then Outcome(false, m, 0)
        else
          match DecodeTagged(b, n, whole.next, TAG_INTEGER)
          case None => Outcome(false, m, 0)
          case Some(version) =>
            if |version.contents| != 1 then Outcome(false, m, 0)
            else
              var m1 := m.(version := version.contents[0]);
              match DecodeTagged(b, n, version.end, TAG_OCTET_STRING)
              case None => Outcome(false, m1, 0)
              case Some(community) =>
                var m2 := m1.(community := community.contents);
                if community.end >= n then Outcome(false, m2, 0)
                else
                  var m3 := m2.(pduType := b[community.end]);
                  match DecodeField(b, n, community.end)
                  case None => Outcome(false, m3, 0)
                  case Some(pdu) => DecodePdu(b, pdu.end, pdu.start, m3)
  }
}
