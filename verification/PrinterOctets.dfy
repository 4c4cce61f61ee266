/** What the printer writes, octet by octet, with tags and length octets as numbers. */
module PrinterOctets {
  import opened Octets
  import opened Packet
  import opened Decoder
  import opened Grammar
  import opened Encoder
  import opened CodecProperties

  // ------------------------------------------------------------ length octets

  /** l is one octet, congruent to n modulo 256. */
  predicate Wraps(l: Length, n: nat) {
    |l| == 1 && (n - l[0]) % 256 == 0
  }

  predicate BindWraps(v: VarBindTree) {
    Wraps(v.len, |BindBody(v)|) && Wraps(v.oidLen, |v.oid|) && Wraps(v.valueLen, |v.value|)
  }

  /** t carries m under one-octet lengths modulo 256 and holds nothing else. */
  predicate WrapsAll(t: MessageTree, m: Message) {
    && Meaning(t) == m && t.pduSlack == [] && t.slack == []
    && |t.id| == 4 && |t.status| == 1 && |t.index| == 1
    && Wraps(t.len, |Body(t)|) && Wraps(t.versionLen, 1) && Wraps(t.communityLen, |t.community|)
    && Wraps(t.pduLen, |PduBody(t)|) && Wraps(t.idLen, 4) && Wraps(t.statusLen, 1) && Wraps(t.indexLen, 1)
    && Wraps(t.listLen, |ListText(t.list)|)
    && forall i :: 0 <= i < |t.list| ==> BindWraps(t.list[i])
  }

  lemma OneByteWraps(n: nat)
    ensures Wraps(OneByte(n), n)
  {
  }

  lemma {:induction false} BindTreesWrap(vs: seq<VarBind>)
    ensures forall i :: 0 <= i < |vs| ==> BindWraps(BindTrees(vs, OneByte)[i])
  {
    if vs != [] {
      hide Wraps, BindBody, BindMeanings, OneByte;
      var t, ts := BindTree(vs[0], OneByte), BindTrees(vs, OneByte);
      OneByteWraps(|t.oid|);
      OneByteWraps(|t.value|);
      OneByteWraps(|BindBody(t)|);
      BindTreesWrap(vs[1..]);
      assert BindBody(t) == BindBody(t.(len := OneByte(0))) by { BodyWithoutLength(t); }
      assert forall i :: 1 <= i < |ts| ==> ts[i] == ts[1..][i - 1];
    }
  }

  lemma BodyWithoutLength(t: VarBindTree)
    ensures forall l :: BindBody(t.(len := l)) == BindBody(t)
  {
  }

  /** Every message, of any size, goes out as a tree that means it, has no slack, and has
      each length as a single octet modulo 256. */
  lemma PrintedLengths(m: Message)
    ensures exists t :: Text(t) == Encode(m) && WrapsAll(t, m)
  {
    hide Text, Tlv, ListText, BigEndian, Digits, BindWraps, OneByte, Wraps;
    var t := TreeOf(m, OneByte);
    SmallDigits(m);
    BindTreesWrap(m.varBinds);
    OneByteWraps(|Body(t)|);
    OneByteWraps(1);
    OneByteWraps(4);
    OneByteWraps(|t.community|);
    OneByteWraps(|PduBody(t)|);
    OneByteWraps(|ListText(t.list)|);
    assert Text(t) == Encode(m) && WrapsAll(t, m);
  }

  // ------------------------------------------------------------ all octets

  /** The octets of a list of bindings. */
  function BindOctets(vs: seq<VarBind>): seq<Byte> {
    if vs == [] then []
    else
      var oid, value := vs[0].oid, vs[0].value;
      [0x30, (4 + |oid| + |value|) % 256, 0x06, |oid| % 256] + oid + ([vs[0].valueType, |value| % 256] + value)
      + BindOctets(vs[1..])
  }

  /** The octets of a PDU after its own tag and length. */
  function PduOctets(m: Message): (s: seq<Byte>)
    ensures |s| == 14 + |BindOctets(m.varBinds)|
  {
    var n := m.requestId;
    [0x02, 4, n / 0x100_0000, n / 0x1_0000 % 256, n / 0x100 % 256, n % 256,
     0x02, 1, m.errorStatus, 0x02, 1, m.errorIndex, 0x30, |BindOctets(m.varBinds)| % 256]
    + BindOctets(m.varBinds)
  }

  /** The octets of a message after its own tag and length. */
  function BodyOctets(m: Message): seq<Byte> {
    [0x02, 1, m.version, 0x04, |m.community| % 256] + m.community + [m.pduType, |PduOctets(m)| % 256] + PduOctets(m)
  }

  lemma {:induction false} BindsPrinted(vs: seq<VarBind>)
    ensures EncodeBinds(vs) == BindOctets(vs) && |BindOctets(vs)| == BindsWeight(vs)
  {
    if vs != [] {
      BindsPrinted(vs[1..]);
    }
  }

  lemma PduPrinted(m: Message)
    ensures EncodePdu(m) == PduOctets(m)
  {
    hide EncodeBinds, BindOctets, BindsWeight, Digits;
    BindsPrinted(m.varBinds);
    FourDigits(m.requestId);
    var binds, n := BindOctets(m.varBinds), m.requestId;
    var id: seq<Byte> := [n / 0x100_0000, n / 0x1_0000 % 256, n / 0x100 % 256, n % 256];
    assert id == Digits(n, 4);
    assert OneTlv(TAG_INTEGER, id) == [0x02, 4] + id;
    assert OneTlv(TAG_INTEGER, [m.errorStatus]) == [0x02, 1, m.errorStatus];
    assert OneTlv(TAG_INTEGER, [m.errorIndex]) == [0x02, 1, m.errorIndex];
    assert OneTlv(TAG_SEQUENCE, binds) == [0x30, |binds| % 256] + binds;
  }

  /** The printer writes these octets, in this order, for every message. */
  lemma Printed(m: Message)
    ensures Encode(m) == [0x30, |BodyOctets(m)| % 256] + BodyOctets(m)
    ensures |BodyOctets(m)| == Size(m)
  {
    hide Encode, EncodePdu, PduOctets, BindsWeight;
    OneByteText(m);
    PduPrinted(m);
    var pdu := PduOctets(m);
    assert OneTlv(TAG_INTEGER, [m.version]) == [0x02, 1, m.version];
    assert OneTlv(TAG_OCTET_STRING, m.community) == [0x04, |m.community| % 256] + m.community;
    assert OneTlv(m.pduType, pdu) == [m.pduType, |pdu| % 256] + pdu;
    assert EncodeBody(m) == BodyOctets(m);
  }

  // ------------------------------------------------------------ a datagram

  const MESSAGE: Message := Message(
    1, 0xA1, [0x70, 0x75, 0x62, 0x6C, 0x69, 0x63], 0x0102_0304, 5, 7,
    [VarBind([0x2B, 0x06, 0x01, 0x02, 0x01], 0x41, [0x0A, 0x0B])])

  const BINDS: seq<Byte> := [0x30, 0x0B, 0x06, 0x05, 0x2B, 0x06, 0x01, 0x02, 0x01, 0x41, 0x02, 0x0A, 0x0B]

  const PDU: seq<Byte> :=
    [0x02, 0x04, 0x01, 0x02, 0x03, 0x04, 0x02, 0x01, 0x05, 0x02, 0x01, 0x07, 0x30, 0x0D] + BINDS

  const BODY: seq<Byte> :=
    [0x02, 0x01, 0x01, 0x04, 0x06, 0x70, 0x75, 0x62, 0x6C, 0x69, 0x63, 0xA1, 0x1B] + PDU

  lemma MessageParts()
    ensures BindOctets(MESSAGE.varBinds) == BINDS && PduOctets(MESSAGE) == PDU
    ensures |BINDS| == 13 && |PDU| == 27 && |BODY| == 40
  {
    assert BindOctets(MESSAGE.varBinds[1..]) == [];
  }

  /** These octets are printed for the message and read as it. */
  lemma MessageRead(before: Message)
    ensures Encode(MESSAGE) == [0x30, 0x28] + BODY
    ensures DecodeMessage([0x30, 0x28] + BODY, before) == Outcome(true, MESSAGE, 42)
  {
    hide DecodeMessage, Encode, BindsWeight, BindOctets, PduOctets;
    MessageParts();
    Printed(MESSAGE);
    assert BodyOctets(MESSAGE) == BODY;
    RoundTripSmall(MESSAGE, before);
  }
}
