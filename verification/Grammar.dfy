/** The language the parser accepts, as a grammar: a syntax tree keeps every octet of a
    datagram, Text writes it down, and WellFormed says which trees are messages.
    A datagram is accepted exactly when it is the text of a well-formed tree. */
module Grammar {
  import opened Octets
  import opened Packet
  import opened Decoder

  // ------------------------------------------------------------ length octets

  // The octets of a length field.
  type Length = l: seq<Byte> | l != [] witness [0]

  /** The short form of section 8.1.3 of X.690, or the long form: a count and that many
      octets, no more than the four the parser takes, but perhaps more than needed. */
  predicate ReadableLength(l: Length) {
    (|l| == 1 && l[0] < 0x80) || (2 <= |l| <= 5 && l[0] == 0x80 + (|l| - 1))
  }

  /** The short form, or the long form with as many octets as section 8.1.3.5 of X.690
      allows. */
  predicate DefiniteLength(l: Length) {
    (|l| == 1 && l[0] < 0x80) || (2 <= |l| <= 127 && l[0] == 0x80 + (|l| - 1))
  }

  function LengthValue(l: Length): nat {
    if |l| == 1 then l[0] else BigEndian(l[1..])
  }

  // ------------------------------------------------------------ trees

  datatype VarBindTree = VarBindTree(
    len: Length,
    oidLen: Length, oid: seq<Byte>,
    valueType: Byte, valueLen: Length, value: seq<Byte>)

  datatype MessageTree = MessageTree(
    len: Length,
    versionLen: Length, version: Byte,
    communityLen: Length, community: seq<Byte>,
    pduType: Byte, pduLen: Length,
    idLen: Length, id: seq<Byte>,
    statusLen: Length, status: seq<Byte>,
    indexLen: Length, index: seq<Byte>,
    listLen: Length, list: seq<VarBindTree>,
    pduSlack: seq<Byte>,   // after the variable bindings, inside the PDU
    slack: seq<Byte>)      // after the PDU, inside the message

  function Tlv(tag: Byte, l: Length, contents: seq<Byte>): (s: seq<Byte>)
    ensures |s| == 1 + |l| + |contents|
  {
    [tag] + l + contents
  }

  function BindBody(v: VarBindTree): seq<Byte> {
    Tlv(TAG_OID, v.oidLen, v.oid) + Tlv(v.valueType, v.valueLen, v.value)
  }

  function BindText(v: VarBindTree): seq<Byte> {
    Tlv(TAG_SEQUENCE, v.len, BindBody(v))
  }

  function ListText(vs: seq<VarBindTree>): seq<Byte> {
    if vs == [] then [] else BindText(vs[0]) + ListText(vs[1..])
  }

  function PduBody(t: MessageTree): seq<Byte> {
    Tlv(TAG_INTEGER, t.idLen, t.id) + (Tlv(TAG_INTEGER, t.statusLen, t.status)
    + (Tlv(TAG_INTEGER, t.indexLen, t.index) + (Tlv(TAG_SEQUENCE, t.listLen, ListText(t.list)) + t.pduSlack)))
  }

  function Body(t: MessageTree): seq<Byte> {
    Tlv(TAG_INTEGER, t.versionLen, [t.version]) + (Tlv(TAG_OCTET_STRING, t.communityLen, t.community)
    + (Tlv(t.pduType, t.pduLen, PduBody(t)) + t.slack))
  }

  function Text(t: MessageTree): seq<Byte> {
    Tlv(TAG_SEQUENCE, t.len, Body(t))
  }

  // ------------------------------------------------------------ well-formedness

  predicate Declares(l: Length, n: nat) {
    ReadableLength(l) && LengthValue(l) == n
  }

  /** A binding's own length is only an upper bound: it must cover the binding, and may
      run on over what follows it in the list, which room counts. */
  predicate BindFits(v: VarBindTree, room: nat) {
    && ReadableLength(v.len)
    && |BindBody(v)| <= LengthValue(v.len) <= |BindBody(v)| + room
    && Declares(v.oidLen, |v.oid|)
    && Declares(v.valueLen, |v.value|)
  }

  predicate ListFits(vs: seq<VarBindTree>) {
    vs == [] || (BindFits(vs[0], |ListText(vs[1..])|) && ListFits(vs[1..]))
  }

  predicate PduFits(t: MessageTree) {
    && Declares(t.idLen, |t.id|)
    && Declares(t.statusLen, |t.status|)
    && Declares(t.indexLen, |t.index|)
    && Declares(t.listLen, |ListText(t.list)|)
    && ListFits(t.list)
  }

  predicate WellFormed(t: MessageTree) {
    && Declares(t.len, |Body(t)|)
    && Declares(t.versionLen, 1)
    && Declares(t.communityLen, |t.community|)
    && Declares(t.pduLen, |PduBody(t)|)
    && PduFits(t)
  }

  predicate Says(l: Length, n: nat) {
    DefiniteLength(l) && LengthValue(l) == n
  }

  predicate ListShaped(vs: seq<VarBindTree>) {
    forall i :: 0 <= i < |vs| ==>
      DefiniteLength(vs[i].len) && Says(vs[i].oidLen, |vs[i].oid|) && Says(vs[i].valueLen, |vs[i].value|)
  }

  predicate PduShaped(t: MessageTree) {
    && Says(t.idLen, |t.id|)
    && Says(t.statusLen, |t.status|)
    && Says(t.indexLen, |t.index|)
    && Says(t.listLen, |ListText(t.list)|)
    && ListShaped(t.list)
  }

  /** As WellFormed, but for the limit of four octets on a length, and a binding's own
      length may say anything. */
  predicate Shaped(t: MessageTree) {
    && Says(t.len, |Body(t)|)
    && Says(t.versionLen, 1)
    && Says(t.communityLen, |t.community|)
    && Says(t.pduLen, |PduBody(t)|)
    && PduShaped(t)
  }

  // ------------------------------------------------------------ meaning

  function BindMeanings(vs: seq<VarBindTree>): (r: seq<VarBind>)
    ensures |r| == |vs|
    ensures forall i :: 0 <= i < |vs| ==> r[i] == VarBind(vs[i].oid, vs[i].valueType, vs[i].value)
  {
    seq(|vs|, i requires 0 <= i < |vs| => VarBind(vs[i].oid, vs[i].valueType, vs[i].value))
  }

  function Meaning(t: MessageTree): Message {
    Message(t.version, t.pduType, t.community,
            BigEndian(t.id) % 0x1_0000_0000, BigEndian(t.status) % 0x100, BigEndian(t.index) % 0x100,
            BindMeanings(t.list))
  }

  /** Where the variable bindings end in Text(t). */
  function Consumed(t: MessageTree): nat {
    |Text(t)| - |t.slack| - |t.pduSlack|
  }

  // ------------------------------------------------------------ texts at offsets

  /** s is what b holds at o. */
  predicate Holds(b: seq<Byte>, o: nat, s: seq<Byte>) {
    o + |s| <= |b| && b[o..o + |s|] == s
  }

  lemma HoldsSlice(b: seq<Byte>, i: nat, j: nat)
    requires i <= j <= |b|
    ensures Holds(b, i, b[i..j])
  {
  }

  lemma HoldsUnique(b: seq<Byte>, o: nat, s: seq<Byte>, t: seq<Byte>)
    requires Holds(b, o, s) && Holds(b, o, t) && |s| == |t|
    ensures s == t
  {
  }

  lemma HoldsConcat(b: seq<Byte>, o: nat, s: seq<Byte>, t: seq<Byte>)
    ensures Holds(b, o, s + t) <==> Holds(b, o, s) && Holds(b, o + |s|, t)
  {
    if o + |s| + |t| <= |b| {
      assert b[o..o + |s + t|] == b[o..o + |s|] + b[o + |s|..o + |s| + |t|];
      if Holds(b, o, s + t) {
        assert (s + t)[..|s|] == s && (s + t)[|s|..] == t;
      }
    }
  }

  lemma HoldsTlv(b: seq<Byte>, o: nat, tag: Byte, l: Length, contents: seq<Byte>)
    ensures Holds(b, o, Tlv(tag, l, contents)) <==>
      && o < |b| && b[o] == tag
      && Holds(b, o + 1, l)
      && Holds(b, o + 1 + |l|, contents)
  {
    HoldsConcat(b, o, [tag] + l, contents);
    HoldsConcat(b, o, [tag], l);
    assert o < |b| ==> b[o..o + 1] == [b[o]];
  }

  // ------------------------------------------------------------ completeness

  lemma LengthComplete(b: seq<Byte>, limit: nat, o: nat, l: Length)
    requires ReadableLength(l) && Holds(b, o, l)
    requires o + |l| <= limit <= |b|
    ensures DecodeLength(b, limit, o) == Some(Span(LengthValue(l), o + |l|))
  {
    var text := b[o..o + |l|];
    assert text[0] == b[o] && text[1..] == b[o + 1..o + |l|];
  }

  /** A header whose declared contents end before limit. */
  lemma HeaderComplete(b: seq<Byte>, limit: nat, o: nat, l: Length)
    requires ReadableLength(l) && Holds(b, o + 1, l)
    requires o + 1 + |l| + LengthValue(l) <= limit <= |b|
    ensures
      var start := o + 1 + |l|;
      var field := Field(b[start..start + LengthValue(l)], start, start + LengthValue(l));
      DecodeField(b, limit, o) == DecodeTagged(b, limit, o, b[o]) == Some(field)
  {
    LengthComplete(b, limit, o + 1, l);
  }

  lemma TlvComplete(b: seq<Byte>, limit: nat, o: nat, tag: Byte, l: Length, contents: seq<Byte>)
    requires Declares(l, |contents|) && Holds(b, o, Tlv(tag, l, contents))
    requires o + |Tlv(tag, l, contents)| <= limit <= |b|
    ensures
      var end := o + |Tlv(tag, l, contents)|;
      && b[o] == tag
      && DecodeField(b, limit, o) == DecodeTagged(b, limit, o, tag)
          == Some(Field(contents, end - |contents|, end))
  {
    HoldsTlv(b, o, tag, l, contents);
    HeaderComplete(b, limit, o, l);
  }

  lemma BindComplete(b: seq<Byte>, end: nat, o: nat, v: VarBindTree)
    requires Declares(v.oidLen, |v.oid|) && Declares(v.valueLen, |v.value|)
    requires Holds(b, o, BindBody(v)) && o + |BindBody(v)| <= end <= |b|
    ensures DecodeVarBind(b, end, o) == Some((VarBind(v.oid, v.valueType, v.value), o + |BindBody(v)|))
  {
    hide DecodeLength, DecodeField, DecodeTagged, Tlv, Holds;
    var oid, value := Tlv(TAG_OID, v.oidLen, v.oid), Tlv(v.valueType, v.valueLen, v.value);
    HoldsConcat(b, o, oid, value);
    TlvComplete(b, end, o, TAG_OID, v.oidLen, v.oid);
    TlvComplete(b, end, o + |oid|, v.valueType, v.valueLen, v.value);
  }

  lemma {:induction false} ListComplete(b: seq<Byte>, end: nat, o: nat, vs: seq<VarBindTree>, acc: seq<VarBind>)
    requires ListFits(vs)
    requires Holds(b, o, ListText(vs)) && end == o + |ListText(vs)| <= |b|
    ensures DecodeVarBinds(b, end, o, acc) == ListOutcome(true, acc + BindMeanings(vs), end)
    decreases vs
  {
    hide DecodeLength, DecodeField, DecodeTagged, DecodeVarBind, Tlv, BindBody, Holds, LengthValue, BigEndian,
      ReadableLength, Declares;
    if vs == [] {
      assert acc + BindMeanings(vs) == acc;
    } else {
      var v, rest := vs[0], ListText(vs[1..]);
      HoldsConcat(b, o, BindText(v), rest);
      HoldsTlv(b, o, TAG_SEQUENCE, v.len, BindBody(v));
      HeaderComplete(b, end, o, v.len);
      var start := o + 1 + |v.len|;
      BindComplete(b, start + LengthValue(v.len), start, v);
      var bound := VarBind(v.oid, v.valueType, v.value);
      ListComplete(b, end, start + |BindBody(v)|, vs[1..], acc + [bound]);
      assert acc + [bound] + BindMeanings(vs[1..]) == acc + BindMeanings(vs);
    }
  }

  // Where the five parts of a PDU's contents start when they start at o.
  function PduStarts(o: nat, t: MessageTree): (nat, nat, nat, nat) {
    var status := o + |Tlv(TAG_INTEGER, t.idLen, t.id)|;
    var index := status + |Tlv(TAG_INTEGER, t.statusLen, t.status)|;
    var list := index + |Tlv(TAG_INTEGER, t.indexLen, t.index)|;
    (status, index, list, list + |Tlv(TAG_SEQUENCE, t.listLen, ListText(t.list))|)
  }

  lemma PduParts(b: seq<Byte>, o: nat, t: MessageTree)
    ensures
      var (status, index, list, slack) := PduStarts(o, t);
      && slack + |t.pduSlack| == o + |PduBody(t)|
      && (Holds(b, o, PduBody(t)) <==>
          && Holds(b, o, Tlv(TAG_INTEGER, t.idLen, t.id))
          && Holds(b, status, Tlv(TAG_INTEGER, t.statusLen, t.status))
          && Holds(b, index, Tlv(TAG_INTEGER, t.indexLen, t.index))
          && Holds(b, list, Tlv(TAG_SEQUENCE, t.listLen, ListText(t.list)))
          && Holds(b, slack, t.pduSlack))
  {
    hide Tlv, Holds, ListText;
    var (status, index, list, slack) := PduStarts(o, t);
    var s4 := Tlv(TAG_SEQUENCE, t.listLen, ListText(t.list)) + t.pduSlack;
    var s3 := Tlv(TAG_INTEGER, t.indexLen, t.index) + s4;
    var s2 := Tlv(TAG_INTEGER, t.statusLen, t.status) + s3;
    HoldsConcat(b, o, Tlv(TAG_INTEGER, t.idLen, t.id), s2);
    HoldsConcat(b, status, Tlv(TAG_INTEGER, t.statusLen, t.status), s3);
    HoldsConcat(b, index, Tlv(TAG_INTEGER, t.indexLen, t.index), s4);
    HoldsConcat(b, list, Tlv(TAG_SEQUENCE, t.listLen, ListText(t.list)), t.pduSlack);
  }

  lemma IntegersComplete(b: seq<Byte>, end: nat, o: nat, t: MessageTree)
    requires PduFits(t) && o + |PduBody(t)| == end <= |b| && Holds(b, o, PduBody(t))
    ensures DecodeIntegers(b, end, o, 3) == ([t.id, t.status, t.index], PduStarts(o, t).2)
  {
    hide DecodeLength, DecodeField, DecodeTagged, DecodeIntegers, Tlv, Holds, PduBody, ListText, BigEndian,
      Declares, ListFits;
    var (status, index, list, slack) := PduStarts(o, t);
    PduParts(b, o, t);
    TlvComplete(b, end, o, TAG_INTEGER, t.idLen, t.id);
    TlvComplete(b, end, status, TAG_INTEGER, t.statusLen, t.status);
    TlvComplete(b, end, index, TAG_INTEGER, t.indexLen, t.index);
    ThreeIntegers(b, end, o);
  }

  lemma PduComplete(b: seq<Byte>, o: nat, t: MessageTree, m: Message)
    requires PduFits(t) && Holds(b, o, PduBody(t)) && o + |PduBody(t)| <= |b|
    ensures
      DecodePdu(b, o + |PduBody(t)|, o, m) ==
      Outcome(true, Meaning(t).(version := m.version, pduType := m.pduType, community := m.community),
              o + |PduBody(t)| - |t.pduSlack|)
  {
    hide DecodeLength, DecodeField, DecodeTagged, DecodeIntegers, Tlv, DecodeVarBinds, Holds, PduBody, ListFits,
      ListText, BigEndian, Declares, BindMeanings, BindFits, ReadableLength, LengthValue;
    var end := o + |PduBody(t)|;
    var (status, index, list, slack) := PduStarts(o, t);
    PduParts(b, o, t);
    IntegersComplete(b, end, o, t);
    TlvComplete(b, end, list, TAG_SEQUENCE, t.listLen, ListText(t.list));
    HoldsTlv(b, list, TAG_SEQUENCE, t.listLen, ListText(t.list));
    ListComplete(b, slack, slack - |ListText(t.list)|, t.list, []);
    assert [] + BindMeanings(t.list) == BindMeanings(t.list);
  }

  // Where community, PDU and slack start when the message's contents start at o.
  function BodyStarts(o: nat, t: MessageTree): (nat, nat, nat) {
    var community := o + |Tlv(TAG_INTEGER, t.versionLen, [t.version])|;
    var pdu := community + |Tlv(TAG_OCTET_STRING, t.communityLen, t.community)|;
    (community, pdu, pdu + |Tlv(t.pduType, t.pduLen, PduBody(t))|)
  }

  lemma BodyParts(b: seq<Byte>, o: nat, t: MessageTree)
    ensures
      var (community, pdu, slack) := BodyStarts(o, t);
      && slack + |t.slack| == o + |Body(t)|
      && (Holds(b, o, Body(t)) <==>
          && Holds(b, o, Tlv(TAG_INTEGER, t.versionLen, [t.version]))
          && Holds(b, community, Tlv(TAG_OCTET_STRING, t.communityLen, t.community))
          && Holds(b, pdu, Tlv(t.pduType, t.pduLen, PduBody(t)))
          && Holds(b, slack, t.slack))
  {
    hide Tlv, Holds, PduBody;
    var (community, pdu, slack) := BodyStarts(o, t);
    var s3 := Tlv(t.pduType, t.pduLen, PduBody(t)) + t.slack;
    var s2 := Tlv(TAG_OCTET_STRING, t.communityLen, t.community) + s3;
    HoldsConcat(b, o, Tlv(TAG_INTEGER, t.versionLen, [t.version]), s2);
    HoldsConcat(b, community, Tlv(TAG_OCTET_STRING, t.communityLen, t.community), s3);
    HoldsConcat(b, pdu, Tlv(t.pduType, t.pduLen, PduBody(t)), t.slack);
  }

  /** Completeness: every text of the grammar is accepted, whatever the packet object
      held before, and read as the tree's meaning. */
  lemma Complete(t: MessageTree, m: Message)
    requires WellFormed(t)
    ensures DecodeMessage(Text(t), m) == Outcome(true, Meaning(t), Consumed(t))
  {
    hide DecodeLength, DecodeField, DecodeTagged, DecodePdu, Tlv, Body, PduBody, Holds, ListFits, ListText, BigEndian,
      BindMeanings, BindFits;
    var b := Text(t);
    HoldsSlice(b, 0, |b|);
    assert b[0..|b|] == b;
    var n := |b|;
    var o := 1 + |t.len|;
    var (community, pdu, slack) := BodyStarts(o, t);
    HoldsTlv(b, 0, TAG_SEQUENCE, t.len, Body(t));
    LengthComplete(b, n, 1, t.len);
    BodyParts(b, o, t);
    TlvComplete(b, n, o, TAG_INTEGER, t.versionLen, [t.version]);
    TlvComplete(b, n, community, TAG_OCTET_STRING, t.communityLen, t.community);
    TlvComplete(b, n, pdu, t.pduType, t.pduLen, PduBody(t));
    HoldsTlv(b, pdu, t.pduType, t.pduLen, PduBody(t));
    PduComplete(b, slack - |PduBody(t)|, t,
                m.(version := t.version, community := t.community, pduType := t.pduType));
  }

  // ------------------------------------------------------------ soundness

  lemma LengthSound(b: seq<Byte>, limit: nat, o: nat) returns (l: Length)
    requires limit <= |b| && DecodeLength(b, limit, o).Some?
    ensures ReadableLength(l) && Holds(b, o, l)
    ensures DecodeLength(b, limit, o).value == Span(LengthValue(l), o + |l|)
  {
    hide BigEndian;
    l := b[o..DecodeLength(b, limit, o).value.next];
    assert l[0] == b[o] && l[1..] == b[o + 1..o + |l|];
  }

  lemma FieldSound(b: seq<Byte>, limit: nat, o: nat) returns (l: Length)
    requires limit <= |b| && DecodeField(b, limit, o).Some?
    ensures
      var f := DecodeField(b, limit, o).value;
      && o < |b|
      && Declares(l, |f.contents|) && Holds(b, o, Tlv(b[o], l, f.contents))
      && f.start == o + 1 + |l|
      && Holds(b, o + 1, l) && Holds(b, f.start, f.contents)
      && f.end == o + |Tlv(b[o], l, f.contents)|
  {
    hide DecodeLength, Tlv, LengthValue, BigEndian, Holds;
    l := LengthSound(b, limit, o + 1);
    var f := DecodeField(b, limit, o).value;
    HoldsSlice(b, f.start, f.end);
    HoldsTlv(b, o, b[o], l, f.contents);
  }

  lemma BindSound(b: seq<Byte>, end: nat, o: nat, len: Length) returns (v: VarBindTree)
    requires end <= |b| && DecodeVarBind(b, end, o).Some?
    ensures v.len == len && Declares(v.oidLen, |v.oid|) && Declares(v.valueLen, |v.value|)
    ensures Holds(b, o, BindBody(v))
    ensures DecodeVarBind(b, end, o).value == (VarBind(v.oid, v.valueType, v.value), o + |BindBody(v)|)
  {
    hide DecodeField, DecodeLength, Tlv, Holds;
    var oid := DecodeTagged(b, end, o, TAG_OID).value;
    var value := DecodeField(b, end, oid.end).value;
    var oidLen := FieldSound(b, end, o);
    var valueLen := FieldSound(b, end, oid.end);
    v := VarBindTree(len, oidLen, oid.contents, b[oid.end], valueLen, value.contents);
    HoldsConcat(b, o, Tlv(TAG_OID, oidLen, oid.contents), Tlv(b[oid.end], valueLen, value.contents));
  }

  lemma {:induction false} ListSound(b: seq<Byte>, end: nat, o: nat, acc: seq<VarBind>) returns (vs: seq<VarBindTree>)
    requires o <= end <= |b| && DecodeVarBinds(b, end, o, acc).ok
    ensures ListFits(vs)
    ensures Holds(b, o, ListText(vs)) && end == o + |ListText(vs)|
    decreases end - o
  {
    hide DecodeField, DecodeLength, DecodeVarBind, Tlv, BindBody, LengthValue, BigEndian;
    if o >= end {
      vs := [];
    } else {
      var f := DecodeTagged(b, end, o, TAG_SEQUENCE).value;
      var bound := DecodeVarBind(b, f.end, f.start).value;
      var len := FieldSound(b, end, o);
      var v := BindSound(b, f.end, f.start, len);
      var rest := ListSound(b, end, bound.1, acc + [bound.0]);
      vs := [v] + rest;
      HoldsTlv(b, o, TAG_SEQUENCE, len, BindBody(v));
      HoldsConcat(b, o, BindText(v), ListText(rest));
      assert vs[1..] == rest;
    }
  }

  /** The tree of a PDU's contents, grafted onto one that has the fields around it. */
  lemma PduSound(b: seq<Byte>, end: nat, o: nat, m: Message, around: MessageTree) returns (t: MessageTree)
    requires o <= end <= |b| && DecodePdu(b, end, o, m).ok
    ensures PduFits(t) && Holds(b, o, PduBody(t)) && end == o + |PduBody(t)|
    ensures
      t == around.(idLen := t.idLen, id := t.id, statusLen := t.statusLen, status := t.status,
                   indexLen := t.indexLen, index := t.index, listLen := t.listLen, list := t.list,
                   pduSlack := t.pduSlack)
  {
    hide DecodeField, DecodeLength, DecodeIntegers, DecodeVarBinds, Tlv, PduBody, LengthValue, BigEndian,
      ListText, ListFits, Declares, Holds;
    ThreeIntegers(b, end, o);
    var id := DecodeTagged(b, end, o, TAG_INTEGER).value;
    var status := DecodeTagged(b, end, id.end, TAG_INTEGER).value;
    var index := DecodeTagged(b, end, status.end, TAG_INTEGER).value;
    var list := DecodeTagged(b, end, index.end, TAG_SEQUENCE).value;
    var idLen := FieldSound(b, end, o);
    var statusLen := FieldSound(b, end, id.end);
    var indexLen := FieldSound(b, end, status.end);
    var listLen := FieldSound(b, end, index.end);
    var vs := ListSound(b, list.end, list.start, []);
    t := around.(idLen := idLen, id := id.contents, statusLen := statusLen, status := status.contents,
                 indexLen := indexLen, index := index.contents, listLen := listLen, list := vs,
                 pduSlack := b[list.end..end]);
    HoldsSlice(b, list.end, end);
    HoldsUnique(b, list.start, list.contents, ListText(vs));
    PduParts(b, o, t);
  }

  /** Soundness: every accepted datagram is the text of a well-formed tree. */
  lemma Sound(b: seq<Byte>, m: Message)
    ensures DecodeMessage(b, m).ok ==> exists t :: WellFormed(t) && Text(t) == b
  {
    hide DecodeField, DecodeLength, DecodePdu, Tlv, Body, PduBody, LengthValue, BigEndian,
      PduFits, Holds;
    if DecodeMessage(b, m).ok {
      var n := |b|;
      var len := LengthSound(b, n, 1);
      var o := DecodeLength(b, n, 1).value.next;
      var version := DecodeTagged(b, n, o, TAG_INTEGER).value;
      var community := DecodeTagged(b, n, version.end, TAG_OCTET_STRING).value;
      var pdu := DecodeField(b, n, community.end).value;
      var versionLen := FieldSound(b, n, o);
      var communityLen := FieldSound(b, n, version.end);
      var pduLen := FieldSound(b, n, community.end);
      var t := MessageTree(len, versionLen, version.contents[0], communityLen, community.contents,
                       b[community.end], pduLen, len, [], len, [], len, [], len, [], [], b[pdu.end..n]);
      var m3 := m.(version := t.version, community := t.community, pduType := t.pduType);
      t := PduSound(b, pdu.end, pdu.start, m3, t);
      assert [t.version] == version.contents;
      HoldsUnique(b, pdu.start, PduBody(t), pdu.contents);
      HoldsSlice(b, pdu.end, n);
      BodyParts(b, o, t);
      HoldsTlv(b, 0, TAG_SEQUENCE, len, Body(t));
      HoldsSlice(b, 0, n);
      HoldsUnique(b, 0, b[0..n], Text(t));
      assert WellFormed(t) && Text(t) == b;
    }
  }

  /** The language of the parser: it accepts the texts of well-formed trees and nothing
      else, and what it returns is the tree's meaning. */
  lemma Language(b: seq<Byte>, m: Message)
    ensures DecodeMessage(b, m).ok <==> exists t :: WellFormed(t) && Text(t) == b
    ensures forall t :: WellFormed(t) && Text(t) == b ==>
      DecodeMessage(b, m) == Outcome(true, Meaning(t), Consumed(t))
  {
    Sound(b, m);
    forall t | WellFormed(t) && Text(t) == b
      ensures DecodeMessage(b, m) == Outcome(true, Meaning(t), Consumed(t))
    {
      Complete(t, m);
    }
  }

  // ------------------------------------------------------------ unique readability

  lemma LengthUnique(b: seq<Byte>, o: nat, l1: Length, l2: Length)
    requires DefiniteLength(l1) && DefiniteLength(l2) && Holds(b, o, l1) && Holds(b, o, l2)
    ensures l1 == l2
  {
    assert l1[0] == b[o] == l2[0];
  }

  lemma TlvUnique(b: seq<Byte>, o: nat, tag1: Byte, l1: Length, c1: seq<Byte>, tag2: Byte, l2: Length, c2: seq<Byte>)
    requires Says(l1, |c1|) && Says(l2, |c2|)
    requires Holds(b, o, Tlv(tag1, l1, c1)) && Holds(b, o, Tlv(tag2, l2, c2))
    ensures tag1 == tag2 && l1 == l2 && c1 == c2
  {
    hide Holds, Tlv, BigEndian;
    HoldsTlv(b, o, tag1, l1, c1);
    HoldsTlv(b, o, tag2, l2, c2);
    LengthUnique(b, o + 1, l1, l2);
    HoldsUnique(b, o + 1 + |l1|, c1, c2);
  }

  lemma {:induction false} ListUnique(b: seq<Byte>, o: nat, vs: seq<VarBindTree>, ws: seq<VarBindTree>)
    requires ListShaped(vs) && ListShaped(ws)
    requires Holds(b, o, ListText(vs)) && Holds(b, o, ListText(ws)) && |ListText(vs)| == |ListText(ws)|
    ensures vs == ws
    decreases |vs|
  {
    hide Holds, Tlv, LengthValue;
    if vs != [] && ws != [] {
      var v, w := vs[0], ws[0];
      HoldsConcat(b, o, BindText(v), ListText(vs[1..]));
      HoldsConcat(b, o, BindText(w), ListText(ws[1..]));
      HoldsTlv(b, o, TAG_SEQUENCE, v.len, BindBody(v));
      HoldsTlv(b, o, TAG_SEQUENCE, w.len, BindBody(w));
      LengthUnique(b, o + 1, v.len, w.len);
      BindUnique(b, o + 1 + |v.len|, v, w);
      ListUnique(b, o + |BindText(v)|, vs[1..], ws[1..]);
      assert vs == [v] + vs[1..] && ws == [w] + ws[1..];
    }
  }

  lemma BindUnique(b: seq<Byte>, o: nat, v: VarBindTree, w: VarBindTree)
    requires v.len == w.len && Holds(b, o, BindBody(v)) && Holds(b, o, BindBody(w))
    requires Says(v.oidLen, |v.oid|) && Says(v.valueLen, |v.value|)
    requires Says(w.oidLen, |w.oid|) && Says(w.valueLen, |w.value|)
    ensures v == w
  {
    hide Holds, Tlv, Says;
    HoldsConcat(b, o, Tlv(TAG_OID, v.oidLen, v.oid), Tlv(v.valueType, v.valueLen, v.value));
    HoldsConcat(b, o, Tlv(TAG_OID, w.oidLen, w.oid), Tlv(w.valueType, w.valueLen, w.value));
    TlvUnique(b, o, TAG_OID, v.oidLen, v.oid, TAG_OID, w.oidLen, w.oid);
    var next := o + |Tlv(TAG_OID, v.oidLen, v.oid)|;
    TlvUnique(b, next, v.valueType, v.valueLen, v.value, w.valueType, w.valueLen, w.value);
  }

  lemma PduUnique(b: seq<Byte>, o: nat, t: MessageTree, u: MessageTree)
    requires PduShaped(t) && PduShaped(u) && Holds(b, o, PduBody(t)) && Holds(b, o, PduBody(u))
    requires |PduBody(t)| == |PduBody(u)|
    ensures
      u == u.(idLen := t.idLen, id := t.id, statusLen := t.statusLen, status := t.status,
              indexLen := t.indexLen, index := t.index, listLen := t.listLen, list := t.list,
              pduSlack := t.pduSlack)
  {
    hide Holds, Tlv, PduBody, Says, ListShaped, ListText;
    var (status, index, list, slack) := PduStarts(o, t);
    PduParts(b, o, t);
    PduParts(b, o, u);
    TlvUnique(b, o, TAG_INTEGER, t.idLen, t.id, TAG_INTEGER, u.idLen, u.id);
    TlvUnique(b, status, TAG_INTEGER, t.statusLen, t.status, TAG_INTEGER, u.statusLen, u.status);
    TlvUnique(b, index, TAG_INTEGER, t.indexLen, t.index, TAG_INTEGER, u.indexLen, u.index);
    TlvUnique(b, list, TAG_SEQUENCE, t.listLen, ListText(t.list), TAG_SEQUENCE, u.listLen, ListText(u.list));
    HoldsTlv(b, list, TAG_SEQUENCE, t.listLen, ListText(t.list));
    ListUnique(b, slack - |ListText(t.list)|, t.list, u.list);
    HoldsUnique(b, slack, t.pduSlack, u.pduSlack);
  }

  /** Unique readability: a datagram is the text of at most one tree, down to the form of
      every length field and the octets in the slack regions, even if length fields could
      take more octets than the parser reads. */
  lemma Unambiguous(t: MessageTree, u: MessageTree)
    requires Shaped(t) && Shaped(u) && Text(t) == Text(u)
    ensures t == u
  {
    hide Holds, Tlv, Body, PduBody, Says, PduShaped;
    var b := Text(t);
    HoldsSlice(b, 0, |b|);
    assert b[0..|b|] == b;
    TlvUnique(b, 0, TAG_SEQUENCE, t.len, Body(t), TAG_SEQUENCE, u.len, Body(u));
    HoldsTlv(b, 0, TAG_SEQUENCE, t.len, Body(t));
    var o := 1 + |t.len|;
    var (community, pdu, slack) := BodyStarts(o, t);
    BodyParts(b, o, t);
    BodyParts(b, o, u);
    TlvUnique(b, o, TAG_INTEGER, t.versionLen, [t.version], TAG_INTEGER, u.versionLen, [u.version]);
    TlvUnique(b, community, TAG_OCTET_STRING, t.communityLen, t.community,
              TAG_OCTET_STRING, u.communityLen, u.community);
    TlvUnique(b, pdu, t.pduType, t.pduLen, PduBody(t), u.pduType, u.pduLen, PduBody(u));
    HoldsTlv(b, pdu, t.pduType, t.pduLen, PduBody(t));
    PduUnique(b, slack - |PduBody(t)|, t, u);
    HoldsUnique(b, slack, t.slack, u.slack);
  }

  lemma {:induction false} FittingListShaped(vs: seq<VarBindTree>)
    requires ListFits(vs)
    ensures ListShaped(vs)
  {
    if vs != [] {
      hide LengthValue, BindBody;
      FittingListShaped(vs[1..]);
      assert forall i :: 1 <= i < |vs| ==> vs[i] == vs[1..][i - 1];
    }
  }

  lemma WellFormedShaped(t: MessageTree)
    requires WellFormed(t)
    ensures Shaped(t)
  {
    hide LengthValue, Body, PduBody, ListText, ListFits, ListShaped;
    FittingListShaped(t.list);
  }

  /** A datagram with length fields of any definite form is accepted exactly when the
      parser's limits on length fields are met: no other reading lets it in. */
  lemma AcceptedForms(t: MessageTree, before: Message)
    requires Shaped(t)
    ensures DecodeMessage(Text(t), before).ok <==> WellFormed(t)
    ensures WellFormed(t) ==> DecodeMessage(Text(t), before).message == Meaning(t)
  {
    hide DecodeMessage, Text, WellFormed, Shaped, Meaning;
    if WellFormed(t) {
      Complete(t, before);
    }
    if DecodeMessage(Text(t), before).ok {
      Sound(Text(t), before);
      var u :| WellFormed(u) && Text(u) == Text(t);
      WellFormedShaped(u);
      Unambiguous(t, u);
    }
  }
}
