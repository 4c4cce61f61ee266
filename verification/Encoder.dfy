/** Encodings of a message as trees of the grammar: the printer's, whose length fields
    are single bytes, and the one with minimal length octets. */
module Encoder {
  import opened Octets
  import opened Packet
  import opened Decoder
  import opened Grammar

  // ------------------------------------------------------------ forms of a length

  // static_cast<uint8_t>
  function Low(n: nat): (b: Byte)
    ensures exists k: nat :: n == 256 * k + b
  {
    assert n == 256 * (n / 0x100) + n % 0x100;
    n % 0x100
  }

  /** The printer's form: one byte, whatever the length. */
  function OneByte(n: nat): Length {
    [Low(n)]
  }

  function MinimalOctets(n: nat): (s: seq<Byte>)
    ensures s != [] && BigEndian(s) == n
    ensures forall k: nat :: n < Pow256(k) && k > 0 ==> |s| <= k
    ensures n < Pow256(|s|)
  {
    if n < 0x100 then
      BigEndianPush([], n);
      assert [] + [n] == [n] && BigEndian([]) == 0;
      assert Pow256(1) == 256 * Pow256(0);
      [n]
    else
      BigEndianPush(MinimalOctets(n / 0x100), n % 0x100);
      assert forall k: nat :: n < Pow256(k) && k > 0 ==> k > 1 && n / 0x100 < Pow256(k - 1) by {
        assert Pow256(1) == 256 * Pow256(0);
      }
      MinimalOctets(n / 0x100) + [n % 0x100]
  }

  /** The shortest form section 8.1.3 of X.690 has for n, which is at most 127 octets long. */
  function Minimal(n: nat): Length {
    if n < 0x80 then [n] else [(0x80 + |MinimalOctets(n)|) % 0x100] + MinimalOctets(n)
  }

  // ------------------------------------------------------------ the tree of a message

  function BindTree(v: VarBind, form: nat -> Length): VarBindTree {
    var t := VarBindTree(form(0), form(|v.oid|), v.oid, v.valueType, form(|v.value|), v.value);
    t.(len := form(|BindBody(t)|))
  }

  function BindTrees(vs: seq<VarBind>, form: nat -> Length): (ts: seq<VarBindTree>)
    ensures BindMeanings(ts) == vs
  {
    if vs == [] then []
    else
      assert vs == [vs[0]] + vs[1..];
      [BindTree(vs[0], form)] + BindTrees(vs[1..], form)
  }

  /** The tree with the given contents of the three integers, every length written in the
      given form, and no slack. */
  function TreeWith(m: Message, form: nat -> Length, id: seq<Byte>, status: seq<Byte>, index: seq<Byte>): MessageTree {
    var one := form(1);
    var t := MessageTree(
      one, one, m.version, form(|m.community|), m.community, m.pduType, one,
      form(|id|), id, form(|status|), status, form(|index|), index,
      one, BindTrees(m.varBinds, form), [], []);
    var t1 := t.(listLen := form(|ListText(t.list)|));
    var t2 := t1.(pduLen := form(|PduBody(t1)|));
    t2.(len := form(|Body(t2)|))
  }

  /** The integers as the printer writes them: four octets, one and one. */
  function TreeOf(m: Message, form: nat -> Length): MessageTree {
    TreeWith(m, form, Digits(m.requestId, 4), [m.errorStatus], [m.errorIndex])
  }

  /** What the printer writes. */
  function Encode(m: Message): seq<Byte> {
    Text(TreeOf(m, OneByte))
  }

  /** The same with minimal length octets. */
  function MinimalLengths(m: Message): seq<Byte> {
    Text(TreeOf(m, Minimal))
  }

  /** The contents octets of Encode(m). */
  function Size(m: Message): nat {
    21 + |m.community| + BindsWeight(m.varBinds)
  }

  // ------------------------------------------------------------ the printer's bytes

  /** A field with a one-byte length. */
  function OneTlv(tag: Byte, contents: seq<Byte>): (s: seq<Byte>)
    ensures |s| == 2 + |contents|
  {
    [tag, Low(|contents|)] + contents
  }

  function EncodeBind(v: VarBind): seq<Byte> {
    OneTlv(TAG_SEQUENCE, OneTlv(TAG_OID, v.oid) + OneTlv(v.valueType, v.value))
  }

  function EncodeBinds(vs: seq<VarBind>): seq<Byte> {
    if vs == [] then [] else EncodeBind(vs[0]) + EncodeBinds(vs[1..])
  }

  function EncodePdu(m: Message): seq<Byte> {
    OneTlv(TAG_INTEGER, Digits(m.requestId, 4)) + (OneTlv(TAG_INTEGER, [m.errorStatus])
    + (OneTlv(TAG_INTEGER, [m.errorIndex]) + OneTlv(TAG_SEQUENCE, EncodeBinds(m.varBinds))))
  }

  function EncodeBody(m: Message): seq<Byte> {
    OneTlv(TAG_INTEGER, [m.version]) + (OneTlv(TAG_OCTET_STRING, m.community)
    + OneTlv(m.pduType, EncodePdu(m)))
  }

  lemma OneByteTlv(tag: Byte, contents: seq<Byte>)
    ensures Tlv(tag, OneByte(|contents|), contents) == OneTlv(tag, contents)
  {
  }

  lemma {:induction false} OneByteList(vs: seq<VarBind>)
    ensures ListText(BindTrees(vs, OneByte)) == EncodeBinds(vs)
    ensures |EncodeBinds(vs)| == BindsWeight(vs)
  {
    if vs != [] {
      hide Tlv;
      var v := vs[0];
      OneByteTlv(TAG_OID, v.oid);
      OneByteTlv(v.valueType, v.value);
      OneByteTlv(TAG_SEQUENCE, OneTlv(TAG_OID, v.oid) + OneTlv(v.valueType, v.value));
      OneByteList(vs[1..]);
    }
  }

  lemma OneByteText(m: Message)
    ensures PduBody(TreeOf(m, OneByte)) == EncodePdu(m)
    ensures Body(TreeOf(m, OneByte)) == EncodeBody(m)
    ensures Encode(m) == OneTlv(TAG_SEQUENCE, EncodeBody(m))
    ensures |EncodeBody(m)| == Size(m)
  {
    hide Tlv, OneTlv, EncodeBinds, ListText, BindTrees, Digits, BindsWeight;
    OneByteList(m.varBinds);
    var t := TreeOf(m, OneByte);
    OneByteTlv(TAG_INTEGER, t.id);
    OneByteTlv(TAG_INTEGER, t.status);
    OneByteTlv(TAG_INTEGER, t.index);
    OneByteTlv(TAG_SEQUENCE, ListText(t.list));
    NoSlack(OneTlv(TAG_SEQUENCE, ListText(t.list)));
    OneByteTlv(TAG_INTEGER, [t.version]);
    OneByteTlv(TAG_OCTET_STRING, t.community);
    OneByteTlv(t.pduType, PduBody(t));
    NoSlack(OneTlv(t.pduType, PduBody(t)));
    OneByteTlv(TAG_SEQUENCE, Body(t));
  }

  lemma NoSlack(s: seq<Byte>)
    ensures s + [] == s
  {
  }
}
