/** What a packet object holds after a failed parse: the fields read before the failure are
    new, all others keep what they held.  And which length octets are read as what. */
module FailedParse {
  import opened Octets
  import opened Packet
  import opened Decoder
  import opened Grammar
  import opened CodecProperties

  // ------------------------------------------------------------ length octets

  /** A first octet below 0x80 is the length; 0x81 to 0x84 say how many octets, most
      significant first, hold it; all others are refused, and so is a length that is cut. */
  lemma LengthOctets(first: Byte, s: seq<Byte>)
    ensures
      var r := DecodeLength([first] + s, 1 + |s|, 0);
      && (first < 0x80 ==> r == Some(Span(first, 1)))
      && (first == 0x81 && |s| >= 1 ==> r == Some(Span(s[0], 2)))
      && (first == 0x82 && |s| >= 2 ==> r == Some(Span(0x100 * s[0] as nat + s[1], 3)))
      && (first == 0x83 && |s| >= 3 ==> r == Some(Span(0x1_0000 * s[0] as nat + 0x100 * s[1] as nat + s[2], 4)))
      && (first == 0x84 && |s| >= 4 ==>
          r == Some(Span(0x100_0000 * s[0] as nat + 0x1_0000 * s[1] as nat + 0x100 * s[2] as nat + s[3], 5)))
      && (first == 0x80 || first > 0x84 || (first > 0x80 && |s| < first - 0x80) ==> r == None)
  {
    hide BigEndian;
    var b := [first] + s;
    if 0x81 <= first <= 0x84 && |s| >= first - 0x80 {
      var k := first - 0x80;
      assert b[1..1 + k] == s[..k];
      FirstNumbers(s[0], if k > 1 then s[1] else 0, if k > 2 then s[2] else 0, if k > 3 then s[3] else 0);
      if k == 1 {
        assert s[..k] == [s[0]];
      } else if k == 2 {
        assert s[..k] == [s[0], s[1]];
      } else if k == 3 {
        assert s[..k] == [s[0], s[1], s[2]];
      } else {
        assert s[..k] == [s[0], s[1], s[2], s[3]];
      }
    }
  }

  // ------------------------------------------------------------ before the PDU

  /** s does not begin with the tag. */
  predicate Lacks(s: seq<Byte>, tag: Byte) {
    s == [] || s[0] != tag
  }

  /** Without a message header whose length is that of the rest, nothing is read. */
  lemma NoHeader(b: seq<Byte>, len: Length, x: seq<Byte>, m: Message)
    ensures Lacks(b, 0x30) ==> DecodeMessage(b, m) == Outcome(false, m, 0)
    ensures ReadableLength(len) && LengthValue(len) != |x| ==>
      DecodeMessage(Tlv(0x30, len, x), m) == Outcome(false, m, 0)
  {
    hide BigEndian, DecodePdu, Holds, DecodeField;
    if ReadableLength(len) && LengthValue(len) != |x| {
      var t := Tlv(0x30, len, x);
      Whole(t);
      HoldsTlv(t, 0, 0x30, len, x);
      LengthComplete(t, |t|, 1, len);
    }
  }

  lemma Whole(b: seq<Byte>)
    ensures Holds(b, 0, b)
  {
    assert b[..|b|] == b;
  }

  // x is the rest of the message, from octet o on.
  lemma AfterHeader(len: Length, x: seq<Byte>) returns (b: seq<Byte>, o: nat)
    requires Declares(len, |x|)
    ensures b == Tlv(0x30, len, x) && o == 1 + |len| && Holds(b, o, x) && |b| == o + |x|
    ensures b[0] == TAG_SEQUENCE && DecodeLength(b, |b|, 1) == Some(Span(|x|, o))
  {
    hide BigEndian, Holds;
    b, o := Tlv(0x30, len, x), 1 + |len|;
    Whole(b);
    HoldsTlv(b, 0, 0x30, len, x);
    LengthComplete(b, |b|, 1, len);
  }

  lemma HoldsFirst(b: seq<Byte>, o: nat, x: seq<Byte>)
    requires Holds(b, o, x)
    ensures x != [] ==> o < |b| && b[o] == x[0]
  {
  }

  /** The message does not begin with an INTEGER: nothing is read. */
  lemma NoVersion(len: Length, x: seq<Byte>, m: Message)
    requires Declares(len, |x|) && Lacks(x, 0x02)
    ensures DecodeMessage(Tlv(0x30, len, x), m) == Outcome(false, m, 0)
  {
    hide BigEndian, Holds, DecodePdu, DecodeField, DecodeLength, Tlv;
    var b, o := AfterHeader(len, x);
    HoldsFirst(b, o, x);
  }

  /** A version of no octets, or of several: nothing is read. */
  lemma OddVersion(len: Length, vl: Length, v: seq<Byte>, x: seq<Byte>, m: Message)
    requires Declares(vl, |v|) && |v| != 1 && Declares(len, |Tlv(0x02, vl, v) + x|)
    ensures DecodeMessage(Tlv(0x30, len, Tlv(0x02, vl, v) + x), m) == Outcome(false, m, 0)
  {
    hide BigEndian, Holds, DecodePdu, DecodeField, DecodeLength, Tlv, Declares;
    var b, o := AfterHeader(len, Tlv(0x02, vl, v) + x);
    HoldsConcat(b, o, Tlv(0x02, vl, v), x);
    TlvComplete(b, |b|, o, 0x02, vl, v);
  }

  /** No community after the version: the version is read, and nothing else. */
  lemma NoCommunity(len: Length, vl: Length, v: Byte, x: seq<Byte>, m: Message)
    requires Declares(vl, 1) && Declares(len, |Tlv(0x02, vl, [v]) + x|) && Lacks(x, 0x04)
    ensures DecodeMessage(Tlv(0x30, len, Tlv(0x02, vl, [v]) + x), m) == Outcome(false, m.(version := v), 0)
  {
    hide BigEndian, Holds, DecodePdu, DecodeField, DecodeLength, Tlv, Declares;
    var version := Tlv(0x02, vl, [v]);
    var b, o := AfterHeader(len, version + x);
    HoldsConcat(b, o, version, x);
    TlvComplete(b, |b|, o, 0x02, vl, [v]);
    HoldsFirst(b, o + |version|, x);
  }

  // The version and the community, each under any readable length.
  datatype Front = Front(versionLen: Length, version: Byte, communityLen: Length, community: seq<Byte>)

  predicate FrontFits(f: Front) {
    Declares(f.versionLen, 1) && Declares(f.communityLen, |f.community|)
  }

  function FrontText(f: Front): seq<Byte> {
    Tlv(0x02, f.versionLen, [f.version]) + Tlv(0x04, f.communityLen, f.community)
  }

  // What is left to do after the two fields, which end at o.
  lemma AfterFront(len: Length, f: Front, x: seq<Byte>, m: Message) returns (b: seq<Byte>, o: nat)
    requires FrontFits(f) && Declares(len, |FrontText(f) + x|)
    ensures b == Tlv(0x30, len, FrontText(f) + x) && Holds(b, o, x) && |b| == o + |x|
    ensures
      var m2 := m.(version := f.version, community := f.community);
      DecodeMessage(b, m) ==
        if x == [] then Outcome(false, m2, 0)
        else
          match DecodeField(b, |b|, o)
          case None => Outcome(false, m2.(pduType := x[0]), 0)
          case Some(pdu) => DecodePdu(b, pdu.end, pdu.start, m2.(pduType := x[0]))
  {
    hide BigEndian, Holds, DecodePdu, DecodeField, DecodeLength, Tlv, Declares;
    var version, community := Tlv(0x02, f.versionLen, [f.version]), Tlv(0x04, f.communityLen, f.community);
    var start;
    b, start := AfterHeader(len, FrontText(f) + x);
    o := start + |FrontText(f)|;
    HoldsConcat(b, start, FrontText(f), x);
    HoldsConcat(b, start, version, community);
    TlvComplete(b, |b|, start, 0x02, f.versionLen, [f.version]);
    TlvComplete(b, |b|, start + |version|, 0x04, f.communityLen, f.community);
    HoldsFirst(b, o, x);
  }

  /** Nothing after the community: version and community are read. */
  lemma NoPdu(len: Length, f: Front, m: Message)
    requires FrontFits(f) && Declares(len, |FrontText(f)|)
    ensures
      DecodeMessage(Tlv(0x30, len, FrontText(f)), m) ==
      Outcome(false, m.(version := f.version, community := f.community), 0)
  {
    hide DecodeMessage, Tlv, Declares, FrontFits;
    assert FrontText(f) + [] == FrontText(f);
    var b, o := AfterFront(len, f, [], m);
  }

  /** A PDU that says it is longer than what is there: its type is read as well. */
  lemma PduTooLong(len: Length, f: Front, pduType: Byte, l: Length, x: seq<Byte>, m: Message)
    requires FrontFits(f) && Declares(len, |FrontText(f) + ([pduType] + l + x)|)
    requires ReadableLength(l) && LengthValue(l) > |x|
    ensures
      DecodeMessage(Tlv(0x30, len, FrontText(f) + ([pduType] + l + x)), m) ==
      Outcome(false, m.(version := f.version, community := f.community, pduType := pduType), 0)
  {
    hide DecodeMessage, Tlv, Declares, FrontFits, FrontText, Holds, BigEndian, ReadableLength, LengthValue,
      DecodeLength, DecodePdu;
    var b, o := AfterFront(len, f, [pduType] + l + x, m);
    HoldsConcat(b, o, [pduType] + l, x);
    HoldsConcat(b, o, [pduType], l);
    LengthComplete(b, |b|, o + 1, l);
  }

  // ------------------------------------------------------------ inside the PDU

  datatype IntegerTree = IntegerTree(len: Length, contents: seq<Byte>)

  function IntegersText(ns: seq<IntegerTree>): seq<Byte> {
    if ns == [] then [] else Tlv(0x02, ns[0].len, ns[0].contents) + IntegersText(ns[1..])
  }

  predicate IntegersFit(ns: seq<IntegerTree>) {
    forall i :: 0 <= i < |ns| ==> Declares(ns[i].len, |ns[i].contents|)
  }

  function Contents(ns: seq<IntegerTree>): seq<seq<Byte>> {
    seq(|ns|, i requires 0 <= i < |ns| => ns[i].contents)
  }

  lemma {:induction false} IntegersRead(b: seq<Byte>, end: nat, o: nat, ns: seq<IntegerTree>, x: seq<Byte>, n: nat)
    requires IntegersFit(ns) && |ns| <= n && (|ns| < n ==> Lacks(x, 0x02))
    requires Holds(b, o, IntegersText(ns) + x) && o + |IntegersText(ns) + x| == end <= |b|
    ensures DecodeIntegers(b, end, o, n) == (Contents(ns), end - |x|)
    decreases n
  {
    hide Holds, Tlv, DecodeField, Declares, BigEndian;
    if ns == [] {
      assert IntegersText(ns) + x == x;
      HoldsFirst(b, o, x);
    } else {
      var field, rest := Tlv(0x02, ns[0].len, ns[0].contents), IntegersText(ns[1..]) + x;
      assert IntegersText(ns) + x == field + rest;
      HoldsConcat(b, o, field, rest);
      TlvComplete(b, end, o, 0x02, ns[0].len, ns[0].contents);
      IntegersRead(b, end, o + |field|, ns[1..], x, n - 1);
      assert Contents(ns) == [ns[0].contents] + Contents(ns[1..]);
    }
  }

  /** m with the fields before the list that have been read, |ns| of the integers. */
  function Before(m: Message, f: Front, pduType: Byte, ns: seq<IntegerTree>): Message {
    Message(f.version, pduType, f.community,
            if |ns| >= 1 then BigEndian(ns[0].contents) % 0x1_0000_0000 else m.requestId,
            if |ns| >= 2 then BigEndian(ns[1].contents) % 0x100 else m.errorStatus,
            if |ns| >= 3 then BigEndian(ns[2].contents) % 0x100 else m.errorIndex,
            m.varBinds)
  }

  // The datagram with the given octets in the PDU and after it.
  function Datagram(len: Length, f: Front, pduType: Byte, l: Length, pdu: seq<Byte>, slack: seq<Byte>): seq<Byte> {
    Tlv(0x30, len, FrontText(f) + (Tlv(pduType, l, pdu) + slack))
  }

  predicate DatagramFits(len: Length, f: Front, pduType: Byte, l: Length, pdu: seq<Byte>, slack: seq<Byte>) {
    FrontFits(f) && Declares(l, |pdu|) && Declares(len, |FrontText(f) + (Tlv(pduType, l, pdu) + slack)|)
  }

  lemma AfterPduHeader(
    len: Length, f: Front, pduType: Byte, l: Length, pdu: seq<Byte>, slack: seq<Byte>, m: Message)
    returns (b: seq<Byte>, o: nat)
    requires DatagramFits(len, f, pduType, l, pdu, slack)
    ensures b == Datagram(len, f, pduType, l, pdu, slack) && o + |pdu| <= |b| && Holds(b, o, pdu)
    ensures
      DecodeMessage(b, m) ==
      DecodePdu(b, o + |pdu|, o, m.(version := f.version, community := f.community, pduType := pduType))
  {
    hide DecodeMessage, Declares, FrontFits, FrontText, Holds, BigEndian, DecodePdu, DecodeField, Tlv;
    var start;
    b, start := AfterFront(len, f, Tlv(pduType, l, pdu) + slack, m);
    HoldsConcat(b, start, Tlv(pduType, l, pdu), slack);
    HoldsFirst(b, start, Tlv(pduType, l, pdu) + slack);
    TlvComplete(b, |b|, start, pduType, l, pdu);
    HoldsTlv(b, start, pduType, l, pdu);
    o := start + |Tlv(pduType, l, pdu)| - |pdu|;
  }

  /** The PDU goes wrong after fewer than three integers, or after them at the list: the
      integers before that are read, the other fields are kept. */
  lemma PduStops(
    len: Length, f: Front, pduType: Byte, l: Length, ns: seq<IntegerTree>, x: seq<Byte>, slack: seq<Byte>, m: Message)
    requires IntegersFit(ns) && |ns| <= 3 && Lacks(x, if |ns| < 3 then 0x02 else 0x30)
    requires DatagramFits(len, f, pduType, l, IntegersText(ns) + x, slack)
    ensures
      var r := DecodeMessage(Datagram(len, f, pduType, l, IntegersText(ns) + x, slack), m);
      !r.ok && r.message == Before(m, f, pduType, ns)
  {
    hide DecodeMessage, Datagram, DatagramFits, Declares, Holds, BigEndian, DecodeField, DecodeIntegers,
      DecodeVarBinds, IntegersText, IntegersFit;
    var pdu := IntegersText(ns) + x;
    var b, o := AfterPduHeader(len, f, pduType, l, pdu, slack, m);
    IntegersRead(b, o + |pdu|, o, ns, x, 3);
    HoldsConcat(b, o, IntegersText(ns), x);
    HoldsFirst(b, o + |IntegersText(ns)|, x);
  }

  /** The list goes wrong after some bindings: everything before it is read, and the list is
      replaced by the bindings before the failure. */
  lemma ListStops(
    len: Length, f: Front, pduType: Byte, l: Length, ns: seq<IntegerTree>,
    ll: Length, vs: seq<VarBindTree>, x: seq<Byte>, pduSlack: seq<Byte>, slack: seq<Byte>, m: Message)
    requires IntegersFit(ns) && |ns| == 3 && (forall i :: 0 <= i < |vs| ==> ExactBind(vs[i]))
    requires x != [] && Lacks(x, 0x30) && Declares(ll, |ListText(vs) + x|)
    requires
      DatagramFits(len, f, pduType, l, IntegersText(ns) + (Tlv(0x30, ll, ListText(vs) + x) + pduSlack), slack)
    ensures
      var pdu := IntegersText(ns) + (Tlv(0x30, ll, ListText(vs) + x) + pduSlack);
      var r := DecodeMessage(Datagram(len, f, pduType, l, pdu, slack), m);
      !r.ok && r.message == Before(m, f, pduType, ns).(varBinds := BindMeanings(vs))
  {
    hide DecodeMessage, Datagram, DatagramFits, Declares, Holds, BigEndian, DecodeField, DecodeIntegers, DecodeVarBinds,
      IntegersText, Tlv, ListText, BindMeanings;
    var list := Tlv(0x30, ll, ListText(vs) + x);
    var pdu := IntegersText(ns) + (list + pduSlack);
    var b, o := AfterPduHeader(len, f, pduType, l, pdu, slack, m);
    var end, at := o + |pdu|, o + |IntegersText(ns)|;
    HoldsConcat(b, o, IntegersText(ns), list + pduSlack);
    IntegersRead(b, end, o, ns, list + pduSlack, 3);
    HoldsConcat(b, at, list, pduSlack);
    HoldsTlv(b, at, 0x30, ll, ListText(vs) + x);
    TlvComplete(b, end, at, 0x30, ll, ListText(vs) + x);
    var stop := at + |list|;
    BindsRead(b, stop, stop - |ListText(vs) + x|, vs, x, []);
    assert [] + BindMeanings(vs) == BindMeanings(vs);
  }

  lemma FirstMeaning(vs: seq<VarBindTree>, acc: seq<VarBind>)
    requires vs != []
    ensures
      acc + BindMeanings(vs) == acc + [VarBind(vs[0].oid, vs[0].valueType, vs[0].value)] + BindMeanings(vs[1..])
  {
  }

  lemma {:induction false} BindsRead(
    b: seq<Byte>, end: nat, o: nat, vs: seq<VarBindTree>, x: seq<Byte>, acc: seq<VarBind>)
    requires forall i :: 0 <= i < |vs| ==> ExactBind(vs[i])
    requires x != [] && Lacks(x, 0x30)
    requires Holds(b, o, ListText(vs) + x) && o + |ListText(vs) + x| == end <= |b|
    ensures DecodeVarBinds(b, end, o, acc) == ListOutcome(false, acc + BindMeanings(vs), end - |x|)
    decreases |vs|
  {
    hide Holds, Tlv, DecodeField, DecodeLength, Declares, BindBody, DecodeVarBind, BigEndian, BindMeanings;
    if vs == [] {
      assert ListText(vs) + x == x;
      HoldsFirst(b, o, x);
      assert BindMeanings(vs) == [] && acc + [] == acc;
    } else {
      var v, rest := vs[0], ListText(vs[1..]) + x;
      assert ExactBind(v);
      assert ListText(vs) + x == BindText(v) + rest;
      HoldsConcat(b, o, BindText(v), rest);
      HoldsTlv(b, o, TAG_SEQUENCE, v.len, BindBody(v));
      TlvComplete(b, end, o, TAG_SEQUENCE, v.len, BindBody(v));
      var next := o + |BindText(v)|;
      BindComplete(b, next, next - |BindBody(v)|, v);
      var bound := VarBind(v.oid, v.valueType, v.value);
      BindsRead(b, end, next, vs[1..], x, acc + [bound]);
      FirstMeaning(vs, acc);
    }
  }
}
