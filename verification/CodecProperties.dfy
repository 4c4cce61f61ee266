/** How the printer and the parser meet: what comes back, what is refused, what is
    ignored, and what becomes of the request id. */
module CodecProperties {
  import opened Octets
  import opened Packet
  import opened Decoder
  import opened Grammar
  import opened Encoder

  // ------------------------------------------------------------ encodings with any forms

  /** form writes every number below bound in a way the parser reads. */
  predicate FormFits(form: nat -> Length, bound: nat) {
    forall n: nat :: n < bound ==> Declares(form(n), n)
  }

  lemma {:induction false} BindTreesFit(vs: seq<VarBind>, form: nat -> Length, bound: nat)
    requires FormFits(form, bound)
    requires |ListText(BindTrees(vs, form))| < bound
    ensures ListFits(BindTrees(vs, form))
  {
    if vs != [] {
      hide BindMeanings;
      var t := BindTree(vs[0], form);
      assert |BindText(t)| >= |BindBody(t)| >= |t.oid| + |t.value|;
      BindTreesFit(vs[1..], form, bound);
    }
  }

  lemma SmallDigits(m: Message)
    ensures BigEndian(Digits(m.requestId, 4)) == m.requestId
    ensures BigEndian([m.errorStatus]) == m.errorStatus && BigEndian([m.errorIndex]) == m.errorIndex
  {
    FourOctets();
    DigitsValue(m.requestId, 4);
    BigEndianPush([], m.errorStatus);
    BigEndianPush([], m.errorIndex);
    assert [] + [m.errorStatus] == [m.errorStatus] && [] + [m.errorIndex] == [m.errorIndex];
  }

  lemma TreeWithFits(
    m: Message, form: nat -> Length, bound: nat, id: seq<Byte>, status: seq<Byte>, index: seq<Byte>)
    requires FormFits(form, bound)
    requires |Body(TreeWith(m, form, id, status, index))| < bound
    ensures WellFormed(TreeWith(m, form, id, status, index))
  {
    hide Declares, BigEndian, ListFits, ListText, Tlv;
    BindTreesFit(m.varBinds, form, bound);
  }

  /** A form that can write every length below bound encodes every message of that size. */
  lemma TreeFits(m: Message, form: nat -> Length, bound: nat)
    requires FormFits(form, bound)
    requires |Body(TreeOf(m, form))| < bound
    ensures WellFormed(TreeOf(m, form)) && Meaning(TreeOf(m, form)) == m
  {
    hide WellFormed, BigEndian, Digits, ListText, Tlv, Body, PduBody;
    SmallDigits(m);
    TreeWithFits(m, form, bound, Digits(m.requestId, 4), [m.errorStatus], [m.errorIndex]);
  }

  /** t carries m's fields, each under a length field of any readable form that says
      exactly how long it is, with no slack. */
  predicate Spells(t: MessageTree, m: Message) {
    && t.version == m.version && t.pduType == m.pduType && t.community == m.community
    && t.id == Digits(m.requestId, 4) && t.status == [m.errorStatus] && t.index == [m.errorIndex]
    && BindMeanings(t.list) == m.varBinds
    && t.pduSlack == [] && t.slack == []
    && Declares(t.len, |Body(t)|) && Declares(t.versionLen, 1)
    && Declares(t.communityLen, |t.community|) && Declares(t.pduLen, |PduBody(t)|)
    && Declares(t.idLen, 4) && Declares(t.statusLen, 1) && Declares(t.indexLen, 1)
    && Declares(t.listLen, |ListText(t.list)|)
    && forall i :: 0 <= i < |t.list| ==> ExactBind(t.list[i])
  }

  predicate ExactBind(v: VarBindTree) {
    && Declares(v.len, |BindBody(v)|)
    && Declares(v.oidLen, |v.oid|) && Declares(v.valueLen, |v.value|)
  }

  lemma {:induction false} ExactListFits(vs: seq<VarBindTree>)
    requires forall i :: 0 <= i < |vs| ==> ExactBind(vs[i])
    ensures ListFits(vs)
  {
    if vs != [] {
      assert ExactBind(vs[0]);
      ExactListFits(vs[1..]);
    }
  }

  /** Whatever form each length field takes, minimal or not, the parser reads the message. */
  lemma EveryForm(t: MessageTree, m: Message, before: Message)
    requires Spells(t, m)
    ensures DecodeMessage(Text(t), before) == Outcome(true, m, |Text(t)|)
  {
    hide Declares, BigEndian, Digits, ListFits, ListText, Tlv, DecodeMessage;
    ExactListFits(t.list);
    SmallDigits(m);
    Complete(t, before);
  }

  // ------------------------------------------------------------ the printer's own form

  lemma OneByteFits()
    ensures FormFits(OneByte, 0x80)
  {
  }

  lemma RoundTripSmall(m: Message, before: Message)
    requires Size(m) <= 127
    ensures DecodeMessage(Encode(m), before) == Outcome(true, m, |Encode(m)|)
  {
    OneByteText(m);
    OneByteFits();
    TreeFits(m, OneByte, 0x80);
    Complete(TreeOf(m, OneByte), before);
  }

  lemma FirstNumbers(a: Byte, b: Byte, c: Byte, d: Byte)
    ensures BigEndian([a]) == a
    ensures BigEndian([a, b]) == 0x100 * a + b
    ensures BigEndian([a, b, c]) == 0x1_0000 * a + 0x100 * b + c
    ensures BigEndian([a, b, c, d]) == 0x100_0000 * a + 0x1_0000 * b + 0x100 * c + d
  {
    BigEndianPush([], a);
    BigEndianPush([a], b);
    BigEndianPush([a, b], c);
    BigEndianPush([a, b, c], d);
    assert [] + [a] == [a] && [a] + [b] == [a, b] && [a, b] + [c] == [a, b, c];
    assert [a, b, c] + [d] == [a, b, c, d];
  }

  /** The length byte of a larger message is its size mod 256.  Read as a short form it is
      too small; read as a long form it swallows the version field, and only three octets
      of that, with version 0x80, can match the size. */
  lemma WrappedLength(b: seq<Byte>, n: nat, version: Byte)
    requires n > 127 && |b| == n + 2
    requires b[1] == Low(n) && b[2] == TAG_INTEGER && b[3] == 1 && b[4] == version && b[5] == TAG_OCTET_STRING
    ensures
      var r := DecodeLength(b, |b|, 1);
      r.Some? && r.value.len == |b| - r.value.next ==> r.value.next == 5
  {
    hide BigEndian;
    var r := DecodeLength(b, |b|, 1);
    FirstNumbers(TAG_INTEGER, 1, version, TAG_OCTET_STRING);
    if r.Some? && b[1] >= 0x80 {
      var k := b[1] - 0x80;
      assert 1 <= k <= 4 && r.value == Span(BigEndian(b[2..2 + k]), 2 + k);
      if k == 1 {
        assert b[2..3] == [TAG_INTEGER];
      } else if k == 2 {
        assert b[2..4] == [TAG_INTEGER, 1];
      } else if k == 4 {
        assert b[2..6] == [TAG_INTEGER, 1, version, TAG_OCTET_STRING];
      }
    }
  }

  lemma TooLarge(m: Message, before: Message)
    requires Size(m) > 127
    ensures !DecodeMessage(Encode(m), before).ok
  {
    hide EncodePdu, Encode, DecodePdu, DecodeLength, Body, PduBody, TreeOf;
    OneByteText(m);
    WrappedLength(Encode(m), Size(m), m.version);
  }

  /** What the printer writes, the parser reads back field for field when its contents
      take at most 127 octets, and refuses otherwise. */
  lemma RoundTrip(m: Message, before: Message)
    ensures DecodeMessage(Encode(m), before).ok <==> Size(m) <= 127
    ensures Size(m) <= 127 ==> DecodeMessage(Encode(m), before).message == m
    ensures |Encode(m)| == 23 + |m.community| + BindsWeight(m.varBinds)
  {
    OneByteText(m);
    if Size(m) <= 127 {
      RoundTripSmall(m, before);
    } else {
      TooLarge(m, before);
    }
  }

  // ------------------------------------------------------------ lower bounds

  // A lower bound on the octets a tree needs, met by one-byte length fields.
  lemma {:induction false} ListSize(vs: seq<VarBindTree>)
    ensures |ListText(vs)| >= BindsWeight(BindMeanings(vs))
  {
    if vs != [] {
      var v := vs[0];
      assert BindMeanings(vs) == [VarBind(v.oid, v.valueType, v.value)] + BindMeanings(vs[1..]);
      ListSize(vs[1..]);
    }
  }

  lemma TreeSize(t: MessageTree)
    ensures
      |Text(t)| >= |t.len| + 16 + |t.community| + |t.id| + |t.status| + |t.index|
        + BindsWeight(BindMeanings(t.list)) + |t.pduSlack| + |t.slack|
  {
    hide ListText, Tlv, BindsWeight, BindMeanings;
    ListSize(t.list);
  }

  // ------------------------------------------------------------ what is ignored

  lemma TlvSplit(tag: Byte, l: Length, x: seq<Byte>, y: seq<Byte>)
    ensures Tlv(tag, l, x + y) == Tlv(tag, l, x) + y
  {
  }

  lemma Regroup(a: seq<Byte>, b: seq<Byte>, c: seq<Byte>, d: seq<Byte>, y: seq<Byte>, s: seq<Byte>)
    ensures a + (b + (c + (d + y))) == a + (b + (c + (d + []))) + y
    ensures a + (b + (c + y + s)) == a + (b + (c + [])) + (y + s)
  {
  }

  /** The slack regions are the last thing in a datagram. */
  lemma TextSplit(t: MessageTree)
    ensures
      var bare := t.(pduSlack := [], slack := []);
      Text(t) == Text(bare) + (t.pduSlack + t.slack)
  {
    hide Tlv, ListText;
    var bare := t.(pduSlack := [], slack := []);
    var id := Tlv(TAG_INTEGER, t.idLen, t.id);
    var status := Tlv(TAG_INTEGER, t.statusLen, t.status);
    var index := Tlv(TAG_INTEGER, t.indexLen, t.index);
    var list := Tlv(TAG_SEQUENCE, t.listLen, ListText(t.list));
    Regroup(id, status, index, list, t.pduSlack, t.slack);
    assert PduBody(t) == PduBody(bare) + t.pduSlack;
    TlvSplit(t.pduType, t.pduLen, PduBody(bare), t.pduSlack);
    var version := Tlv(TAG_INTEGER, t.versionLen, [t.version]);
    var community := Tlv(TAG_OCTET_STRING, t.communityLen, t.community);
    Regroup(version, community, Tlv(t.pduType, t.pduLen, PduBody(bare)), [], t.pduSlack, t.slack);
    assert Body(t) == Body(bare) + (t.pduSlack + t.slack);
    TlvSplit(TAG_SEQUENCE, t.len, Body(bare), t.pduSlack + t.slack);
  }

  /** An accepted datagram's reading depends only on the octets up to the end of its
      variable bindings and on the total length.  Whatever follows, and whatever the
      packet object held before, changes neither acceptance nor any field. */
  lemma SlackIgnored(b: seq<Byte>, m: Message, b': seq<Byte>, m': Message)
    ensures
      var r := DecodeMessage(b, m);
      r.ok && |b'| == |b| && b'[..r.offset] == b[..r.offset] ==> DecodeMessage(b', m') == r
  {
    hide DecodeMessage, Text, Declares, PduFits, Tlv;
    var r := DecodeMessage(b, m);
    if r.ok && |b'| == |b| && b'[..r.offset] == b[..r.offset] {
      Sound(b, m);
      var t :| WellFormed(t) && Text(t) == b;
      Complete(t, m);
      var cut := Consumed(t);
      var end := cut + |t.pduSlack|;
      TextSplit(t);
      var t' := t.(pduSlack := b'[cut..end], slack := b'[end..]);
      TextSplit(t');
      var bare := Text(t.(pduSlack := [], slack := []));
      assert b[..cut] == bare;
      assert b' == b'[..cut] + (b'[cut..end] + b'[end..]);
      SameSizes(t, t');
      Complete(t', m');
    }
  }

  lemma SameSizes(t: MessageTree, t': MessageTree)
    requires WellFormed(t)
    requires t' == t.(pduSlack := t'.pduSlack, slack := t'.slack)
    requires |t'.pduSlack| == |t.pduSlack| && |t'.slack| == |t.slack|
    ensures WellFormed(t') && Meaning(t') == Meaning(t) && Consumed(t') == Consumed(t)
  {
    hide Tlv, ListText, ListFits, Declares, BindMeanings, BigEndian;
  }

  // ------------------------------------------------------------ sizes

  /** Printing what was parsed takes at most six octets more than the datagram had: the
      three integers, which may arrive empty, are printed in six. */
  lemma ReprintSize(b: seq<Byte>, m: Message)
    ensures DecodeMessage(b, m).ok ==> |Encode(DecodeMessage(b, m).message)| <= |b| + 6
  {
    hide DecodeMessage, Text, WellFormed, Encode, BindsWeight;
    if DecodeMessage(b, m).ok {
      Sound(b, m);
      var t :| WellFormed(t) && Text(t) == b;
      Complete(t, m);
      TreeSize(t);
      RoundTrip(Meaning(t), m);
    }
  }

  /** And sometimes it does take six more: three empty integers in seventeen octets. */
  lemma ReprintGrows()
    ensures exists b :: DecodeMessage(b, FRESH).ok && |Encode(DecodeMessage(b, FRESH).message)| == |b| + 6
  {
    hide DecodeMessage, Encode;
    var none: Length := [0];
    var t := MessageTree([15], [1], VERSION_2C, none, [], PDU_GET_REQUEST, [8],
                         none, [], none, [], none, [], none, [], [], []);
    Complete(t, FRESH);
    RoundTrip(Meaning(t), FRESH);
    assert |Text(t)| == 17;
  }

  /** The bindings read fit, with six octets of header each, in the declared list. */
  lemma BindingsFitList(t: MessageTree)
    requires WellFormed(t)
    ensures BindsWeight(Meaning(t).varBinds) <= LengthValue(t.listLen)
  {
    hide ListText, Tlv, BindsWeight, BindMeanings, BigEndian, ListFits;
    ListSize(t.list);
  }

  // ------------------------------------------------------------ the echoed request id

  lemma {:induction false} PowerWraps(k: nat)
    requires k >= 4
    ensures Pow256(k) % 0x1_0000_0000 == 0
  {
    FourOctets();
    if k > 4 {
      PowerWraps(k - 1);
      var q := Pow256(k - 1) / 0x1_0000_0000;
      assert Pow256(k) == 256 * Pow256(k - 1) == 0 + 0x1_0000_0000 * (256 * q);
      Wrap32(0, 256 * q);
    }
  }

  lemma SignedDigits(n: UInt32)
    ensures Signed(Digits(n, 4)) == if n < 0x8000_0000 then n else n - 0x1_0000_0000
  {
    hide Digits, BigEndian;
    FourOctets();
    DigitsValue(n, 4);
    FourDigits(n);
  }

  /** A request id that arrives in four octets goes back in the same four. */
  lemma EchoedOctets(s: seq<Byte>)
    requires |s| == 4
    ensures Digits(BigEndian(s) % 0x1_0000_0000, 4) == s
  {
    hide BigEndian, Digits, Pow256;
    FourOctets();
    BigEndianBound(s);
    DigitsOfValue(s);
  }

  /** The contents of a request id and the four octets the reply carries for it denote the
      same INTEGER exactly when it fits in 32 bits and was not a negative number written
      in fewer than four octets, whose sign the fold loses. */
  lemma EchoedId(s: seq<Byte>)
    ensures
      Signed(Digits(BigEndian(s) % 0x1_0000_0000, 4)) == Signed(s) <==>
      -0x8000_0000 <= Signed(s) < 0x8000_0000 && (|s| >= 4 || Signed(s) >= 0)
  {
    hide Digits, BigEndian, Pow256;
    var n := BigEndian(s) % 0x1_0000_0000;
    SignedDigits(n);
    BigEndianBound(s);
    if |s| < 4 {
      ThreeOctets(|s|);
    } else {
      PowerWraps(|s|);
      var q, p := BigEndian(s) / 0x1_0000_0000, Pow256(|s|) / 0x1_0000_0000;
      assert BigEndian(s) == 0x1_0000_0000 * q + n && Pow256(|s|) == 0x1_0000_0000 * p;
      var k := if s[0] >= 128 then q - p else q;
      assert Signed(s) == 0x1_0000_0000 * k + n;
    }
  }

  lemma ThreeOctets(k: nat)
    requires k < 4
    ensures Pow256(k) <= 0x100_0000
  {
    assert Pow256(3) == 0x100_0000 && Pow256(2) == 0x1_0000 && Pow256(1) == 0x100 by {
      assert Pow256(1) == 256 * Pow256(0);
    }
    assert k == 0 || k == 1 || k == 2 || k == 3;
  }
}
