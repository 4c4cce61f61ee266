/** The printer and the parser against X.690: length octets and the contents of INTEGERs.
    The tags and the contents of variable bindings are copied as they come, and their own
    conformance is not judged. */
module X690 {
  import opened Octets
  import opened Packet
  import opened Decoder
  import opened Grammar
  import opened Encoder
  import opened CodecProperties

  // ------------------------------------------------------------ contents of an INTEGER

  /** Section 8.3.2 of X.690: the first nine bits of several octets are not all alike. */
  predicate Shortest(s: seq<Byte>) {
    && |s| >= 1
    && (|s| > 1 ==> !(s[0] == 0 && s[1] < 0x80) && !(s[0] == 0xFF && s[1] >= 0x80))
  }

  /** The contents X.690 prescribes for n. */
  function Contents(n: int): (s: seq<Byte>)
    ensures s != []
    decreases if n < 0 then -n else n
  {
    if -0x80 <= n < 0x80 then [n % 0x100] else Contents(n / 0x100) + [n % 0x100]
  }

  // The number a 32-bit register holds in two's complement.
  function Int32(n: UInt32): int {
    if n < 0x8000_0000 then n else n - 0x1_0000_0000
  }

  lemma SignedOne(b: Byte)
    ensures Signed([b]) == if b < 0x80 then b else b - 0x100
  {
    BigEndianPush([], b);
    assert [] + [b] == [b];
    assert Pow256(1) == 256 * Pow256(0);
  }

  lemma SignedPush(s: seq<Byte>, b: Byte)
    requires s != []
    ensures Signed(s + [b]) == Signed(s) * 0x100 + b
  {
    BigEndianPush(s, b);
  }

  lemma ContentsStep(k: int, b: Byte)
    ensures Contents(k * 0x100 + b) == if -0x80 <= k * 0x100 + b < 0x80 then [b] else Contents(k) + [b]
  {
    var n := k * 0x100 + b;
    assert n / 0x100 == k && n % 0x100 == b;
  }

  lemma OneContents()
    ensures forall k :: -0x80 <= k < 0x80 ==> Contents(k) == [k % 0x100]
  {
  }

  /** The prescribed contents are the only shortest ones that denote their number. */
  lemma {:induction false} ContentsUnique(s: seq<Byte>)
    requires s != []
    ensures Shortest(s) <==> s == Contents(Signed(s))
  {
    hide Signed, Contents;
    OneContents();
    var front, b := s[..|s| - 1], s[|s| - 1];
    assert s == front + [b];
    if front == [] {
      SignedOne(b);
    } else {
      SignedPush(front, b);
      ContentsStep(Signed(front), b);
      ContentsUnique(front);
      LastOff(front, Contents(Signed(front)), b);
      if |front| == 1 {
        SignedOne(front[0]);
        assert front == [front[0]] && Shortest(front);
        assert s[0] == front[0] && s[1] == b;
      } else {
        assert s[0] == front[0] && s[1] == front[1];
        assert Shortest(s) <==> Shortest(front);
        if -0x80 <= Signed(s) < 0x80 {
          assert Signed(front) == 0 || Signed(front) == -1;
        }
      }
    }
  }

  lemma LastOff(s: seq<Byte>, t: seq<Byte>, b: Byte)
    ensures s + [b] == t + [b] <==> s == t
  {
    assert (s + [b])[..|s|] == s && (t + [b])[..|t|] == t;
  }

  lemma {:induction false} ContentsDenote(n: int)
    ensures Signed(Contents(n)) == n
    decreases if n < 0 then -n else n
  {
    hide Signed;
    if -0x80 <= n < 0x80 {
      SignedOne(n % 0x100);
    } else {
      ContentsDenote(n / 0x100);
      SignedPush(Contents(n / 0x100), n % 0x100);
    }
  }

  lemma ContentsSize(n: int)
    ensures |Contents(n)| >= 4 <==> !(-0x80_0000 <= n < 0x80_0000)
  {
    var n1 := n / 0x100;
    var n2 := n1 / 0x100;
    assert |Contents(n2)| >= 2 <==> !(-0x80 <= n2 < 0x80);
    assert |Contents(n1)| >= 3 <==> !(-0x8000 <= n1 < 0x8000);
  }

  lemma FourShortest(n: UInt32)
    ensures Shortest(Digits(n, 4)) <==> 0x80_0000 <= n < 0xFF80_0000
  {
    hide Digits, BigEndian;
    var s := Digits(n, 4);
    assert s == [s[0], s[1], s[2], s[3]];
    FirstNumbers(s[0], s[1], s[2], s[3]);
    FourOctets();
    DigitsValue(n, 4);
  }

  // ------------------------------------------------------------ standard trees

  predicate ExactList(vs: seq<VarBindTree>) {
    forall i :: 0 <= i < |vs| ==> Says(vs[i].len, |BindBody(vs[i])|)
  }

  /** The trees of X.690 encodings: length fields of any definite form that say exactly how
      long each field is, integers in their shortest contents, nothing else. */
  predicate Standard(t: MessageTree) {
    && Shaped(t) && ExactList(t.list) && t.pduSlack == [] && t.slack == []
    && Shortest(t.id) && Shortest(t.status) && Shortest(t.index)
  }

  /** t says what m holds, its integers read as X.690 has them; the request id is a signed
      number of 32 bits. */
  predicate Denotes(t: MessageTree, m: Message) {
    && Signed([t.version]) == m.version && t.community == m.community && t.pduType == m.pduType
    && Signed(t.id) == Int32(m.requestId)
    && Signed(t.status) == m.errorStatus && Signed(t.index) == m.errorIndex
    && BindMeanings(t.list) == m.varBinds
  }

  /** No length field has more octets than the parser takes. */
  predicate ShortLengths(t: MessageTree) {
    && |t.len| <= 5 && |t.versionLen| <= 5 && |t.communityLen| <= 5 && |t.pduLen| <= 5
    && |t.idLen| <= 5 && |t.statusLen| <= 5 && |t.indexLen| <= 5 && |t.listLen| <= 5
    && forall i :: 0 <= i < |t.list| ==> ShortBind(t.list[i])
  }

  predicate ShortBind(v: VarBindTree) {
    |v.len| <= 5 && |v.oidLen| <= 5 && |v.valueLen| <= 5
  }

  lemma {:induction false} ShortList(vs: seq<VarBindTree>)
    requires ListShaped(vs) && ExactList(vs)
    ensures ListFits(vs) <==> forall i :: 0 <= i < |vs| ==> ShortBind(vs[i])
  {
    hide LengthValue, BindBody;
    if vs != [] {
      var rest := vs[1..];
      assert forall i :: 0 <= i < |rest| ==> rest[i] == vs[i + 1];
      assert forall i :: 1 <= i < |vs| ==> vs[i] == rest[i - 1];
      ShortList(rest);
    }
  }

  lemma StandardFits(t: MessageTree)
    requires Standard(t)
    ensures WellFormed(t) <==> ShortLengths(t)
  {
    hide LengthValue, Body, PduBody, BindBody, ListText, ListShaped, ExactList, ListFits, Shortest;
    ShortList(t.list);
  }

  // ------------------------------------------------------------ what the parser reads

  /** The request id read denotes the number that was sent exactly when that fits in 32 bits
      and was not a negative number in fewer than four octets. */
  lemma IdRead(t: MessageTree, before: Message)
    requires WellFormed(t)
    ensures
      var r := DecodeMessage(Text(t), before);
      && r.ok
      && (Int32(r.message.requestId) == Signed(t.id) <==>
          -0x8000_0000 <= Signed(t.id) < 0x8000_0000 && (|t.id| >= 4 || Signed(t.id) >= 0))
  {
    hide DecodeMessage, Text, WellFormed, Signed, Digits, BigEndian;
    Complete(t, before);
    EchoedId(t.id);
    SignedDigits(BigEndian(t.id) % 0x1_0000_0000);
  }

  lemma NotNegative(s: seq<Byte>, n: Byte)
    requires Signed(s) == n
    ensures BigEndian(s) % 0x100 == n
  {
    BigEndianBound(s);
  }

  /** Every X.690 encoding of a message is accepted exactly when no length field is longer
      than the parser takes.  The message is then read back exactly when its request id
      does not fit in three octets as a negative number; those ids, and nothing else, come
      back with their sign lost. */
  lemma X690Read(t: MessageTree, m: Message, before: Message)
    requires Standard(t) && Denotes(t, m)
    ensures
      var r := DecodeMessage(Text(t), before);
      && (r.ok <==> ShortLengths(t))
      && (r.ok ==>
          && r.message == m.(requestId := r.message.requestId)
          && r.message.requestId ==
             (if m.requestId < 0xFF80_0000 then m.requestId else Pow256(|t.id|) + Int32(m.requestId))
          && (r.message == m <==> m.requestId < 0xFF80_0000))
  {
    hide DecodeMessage, Text, Shaped, WellFormed, Digits, BigEndian, BindMeanings;
    AcceptedForms(t, before);
    StandardFits(t);
    if WellFormed(t) {
      SignedOne(t.version);
      NotNegative(t.status, m.errorStatus);
      NotNegative(t.index, m.errorIndex);
      IdRead(t, before);
      ContentsUnique(t.id);
      ContentsSize(Signed(t.id));
      BigEndianBound(t.id);
      if |t.id| < 4 {
        ThreeOctets(|t.id|);
      }
    }
  }

  // ------------------------------------------------------------ the minimal encoding

  lemma MinimalFits()
    ensures FormFits(Minimal, 0x1_0000_0000)
  {
    FourOctets();
    forall n: nat | n < 0x1_0000_0000
      ensures Declares(Minimal(n), n)
    {
      if n >= 0x80 {
        assert |MinimalOctets(n)| <= 4;
        assert Minimal(n)[1..] == MinimalOctets(n);
      }
    }
  }

  /** No length the parser reads reaches this far. */
  lemma FourGibibytes(b: seq<Byte>, before: Message)
    requires |b| >= 0x1_0000_0000 + 6
    ensures !DecodeMessage(b, before).ok
  {
    hide BigEndian, DecodePdu, DecodeField;
  }

  lemma OuterLength(m: Message, form: nat -> Length, id: seq<Byte>, status: seq<Byte>, index: seq<Byte>)
    ensures
      var t := TreeWith(m, form, id, status, index);
      t.len == form(|Body(t)|)
  {
    hide Tlv, ListText;
  }

  /** With minimal length octets and any contents of the integers, a message is accepted
      exactly when its contents are below four gibibytes. */
  lemma MinimalAccepted(m: Message, id: seq<Byte>, status: seq<Byte>, index: seq<Byte>, before: Message)
    ensures
      var t := TreeWith(m, Minimal, id, status, index);
      DecodeMessage(Text(t), before).ok <==> |Body(t)| < 0x1_0000_0000
  {
    hide DecodeMessage, Body, TreeWith, BigEndian;
    var t := TreeWith(m, Minimal, id, status, index);
    var n := |Body(t)|;
    if n < 0x1_0000_0000 {
      MinimalFits();
      TreeWithFits(m, Minimal, 0x1_0000_0000, id, status, index);
      Complete(t, before);
    } else {
      OuterLength(m, Minimal, id, status, index);
      FourOctets();
      assert |Minimal(n)| == 1 + |MinimalOctets(n)| && |MinimalOctets(n)| >= 5;
      FourGibibytes(Text(t), before);
    }
  }

  /** The X.690 encoding of m with minimal length octets. */
  function StandardTree(m: Message): MessageTree {
    TreeWith(m, Minimal, Contents(Int32(m.requestId)), Contents(m.errorStatus), Contents(m.errorIndex))
  }

  function X690(m: Message): seq<Byte> {
    Text(StandardTree(m))
  }

  lemma {:induction false} BindTreesExact(vs: seq<VarBind>, form: nat -> Length, bound: nat)
    requires FormFits(form, bound)
    requires |ListText(BindTrees(vs, form))| < bound
    ensures ExactList(BindTrees(vs, form))
  {
    hide LengthValue, BindMeanings;
    if vs != [] {
      var t, ts := BindTree(vs[0], form), BindTrees(vs, form);
      assert |BindText(t)| >= |BindBody(t)|;
      BindTreesExact(vs[1..], form, bound);
      assert forall i :: 1 <= i < |ts| ==> ts[i] == ts[1..][i - 1];
    }
  }

  lemma TreeWithStandard(
    m: Message, form: nat -> Length, bound: nat, id: seq<Byte>, status: seq<Byte>, index: seq<Byte>)
    requires FormFits(form, bound)
    requires |Body(TreeWith(m, form, id, status, index))| < bound
    requires Shortest(id) && Shortest(status) && Shortest(index)
    ensures Standard(TreeWith(m, form, id, status, index))
  {
    hide Shaped, WellFormed, Shortest, ExactList, ListText, Tlv;
    TreeWithFits(m, form, bound, id, status, index);
    WellFormedShaped(TreeWith(m, form, id, status, index));
    BindTreesExact(m.varBinds, form, bound);
  }

  /** It is accepted exactly when its contents are below four gibibytes.  It is then an
      X.690 encoding of m, if m's version is one that a single octet can hold, and is read
      back as m exactly when the request id does not fit in three octets as a negative
      number. */
  lemma X690Accepted(m: Message, before: Message)
    ensures
      var t := StandardTree(m);
      var r := DecodeMessage(X690(m), before);
      && (r.ok <==> |Body(t)| < 0x1_0000_0000)
      && (r.ok && m.version < 0x80 ==>
          && Standard(t) && Denotes(t, m)
          && (r.message == m <==> m.requestId < 0xFF80_0000))
  {
    hide DecodeMessage, Body, Text, TreeWith, Standard, Shortest, Contents, Signed;
    var t := StandardTree(m);
    MinimalAccepted(m, t.id, t.status, t.index, before);
    StandardParts(m);
    if |Body(t)| < 0x1_0000_0000 && m.version < 0x80 {
      MinimalFits();
      TreeWithStandard(m, Minimal, 0x1_0000_0000, t.id, t.status, t.index);
      SignedOne(m.version);
      X690Read(t, m, before);
    }
  }

  lemma StandardParts(m: Message)
    ensures
      var t := StandardTree(m);
      && t.version == m.version && t.community == m.community && t.pduType == m.pduType
      && t.id == Contents(Int32(m.requestId)) && t.status == Contents(m.errorStatus)
      && t.index == Contents(m.errorIndex) && BindMeanings(t.list) == m.varBinds
      && Shortest(t.id) && Shortest(t.status) && Shortest(t.index)
      && Signed(t.id) == Int32(m.requestId) && Signed(t.status) == m.errorStatus && Signed(t.index) == m.errorIndex
  {
    hide Signed, Shortest, Contents, Body, PduBody, ListText;
    ContentsDenote(Int32(m.requestId));
    ContentsDenote(m.errorStatus);
    ContentsDenote(m.errorIndex);
    ContentsUnique(Contents(Int32(m.requestId)));
    ContentsUnique(Contents(m.errorStatus));
    ContentsUnique(Contents(m.errorIndex));
  }

  // ------------------------------------------------------------ what the printer writes

  predicate FormsAgree(f: nat -> Length, g: nat -> Length, bound: nat) {
    forall n: nat :: n < bound ==> f(n) == g(n)
  }

  lemma {:induction false} SameBinds(vs: seq<VarBind>, f: nat -> Length, g: nat -> Length, bound: nat)
    requires FormsAgree(f, g, bound)
    requires |ListText(BindTrees(vs, f))| < bound
    ensures BindTrees(vs, f) == BindTrees(vs, g)
  {
    if vs != [] {
      hide BindMeanings;
      assert |BindText(BindTree(vs[0], f))| >= |vs[0].oid| + |vs[0].value| + 4;
      SameBinds(vs[1..], f, g, bound);
    }
  }

  lemma SameTree(m: Message, f: nat -> Length, g: nat -> Length, bound: nat)
    requires FormsAgree(f, g, bound)
    requires |Body(TreeOf(m, f))| < bound
    ensures TreeOf(m, f) == TreeOf(m, g)
  {
    hide Tlv, ListText, BindTrees, Digits;
    SameBinds(m.varBinds, f, g, bound);
  }

  lemma MinimalLonger(m: Message)
    requires Size(m) > 127
    ensures |MinimalLengths(m)| > Size(m) + 2
  {
    hide Body, Digits, BindsWeight;
    var t := TreeOf(m, Minimal);
    OuterLength(m, Minimal, Digits(m.requestId, 4), [m.errorStatus], [m.errorIndex]);
    TreeSize(t);
    var n := |Body(t)|;
    assert n >= Size(m);
    assert |Minimal(n)| == 1 + |MinimalOctets(n)|;
  }

  /** The printer writes minimal length octets exactly for the messages it can round trip. */
  lemma PrinterLengths(m: Message)
    ensures Encode(m) == MinimalLengths(m) <==> Size(m) <= 127
  {
    hide Body, PduBody, TreeOf, Text, EncodeBody;
    OneByteText(m);
    if Size(m) <= 127 {
      assert FormsAgree(OneByte, Minimal, 0x80);
      SameTree(m, OneByte, Minimal, 0x80);
    } else {
      MinimalLonger(m);
    }
  }

  /** What the printer writes is a message that the parser reads and whose integers are all
      in their shortest contents exactly when it is small and its request id needs all of
      the four octets it is written in. */
  lemma PrinterShortest(m: Message)
    ensures
      (exists t :: WellFormed(t) && Text(t) == Encode(m) && Shortest(t.id) && Shortest(t.status) && Shortest(t.index))
      <==> Size(m) <= 127 && 0x80_0000 <= m.requestId < 0xFF80_0000
  {
    hide DecodeMessage, Text, WellFormed, TreeOf, Shortest;
    RoundTrip(m, FRESH);
    Language(Encode(m), FRESH);
    FourShortest(m.requestId);
    if Size(m) <= 127 {
      var u := Printed(m);
      forall t | WellFormed(t) && Text(t) == Encode(m)
        ensures t == u
      {
        WellFormedShaped(t);
        WellFormedShaped(u);
        Unambiguous(t, u);
      }
    }
  }

  // The printer's tree.
  lemma Printed(m: Message) returns (t: MessageTree)
    requires Size(m) <= 127
    ensures WellFormed(t) && Text(t) == Encode(m) && t == TreeOf(m, OneByte)
    ensures t.id == Digits(m.requestId, 4) && t.status == [m.errorStatus] && t.index == [m.errorIndex]
    ensures Shortest(t.status) && Shortest(t.index)
  {
    t := TreeOf(m, OneByte);
    OneByteText(m);
    OneByteFits();
    TreeFits(m, OneByte, 0x80);
  }

  // How the text of a tree begins.
  lemma TextStart(t: MessageTree)
    requires Shaped(t) && |t.len| <= 5
    ensures
      var b, next := Text(t), 1 + |t.len|;
      && DecodeLength(b, |b|, 1) == Some(Span(|b| - next, next))
      && next < |b| && b[next] == TAG_INTEGER
  {
    hide Tlv, Holds, Body, PduShaped, BigEndian;
    var b := Text(t);
    HoldsSlice(b, 0, |b|);
    assert b[0..|b|] == b;
    HoldsTlv(b, 0, TAG_SEQUENCE, t.len, Body(t));
    LengthComplete(b, |b|, 1, t.len);
    BodyParts(b, 1 + |t.len|, t);
    HoldsTlv(b, 1 + |t.len|, TAG_INTEGER, t.versionLen, [t.version]);
  }

  // How the printer's output begins.
  lemma PrintedStart(m: Message)
    ensures
      var b := Encode(m);
      && |b| == Size(m) + 2
      && b[1] == Low(Size(m)) && b[2] == TAG_INTEGER && b[3] == 1 && b[4] == m.version && b[5] == TAG_OCTET_STRING
  {
    hide EncodePdu, Encode, BindsWeight;
    OneByteText(m);
  }

  lemma LargeNotStandard(m: Message, t: MessageTree)
    requires Size(m) > 127 && Standard(t) && Denotes(t, m)
    ensures Text(t) != Encode(m)
  {
    hide Text, Encode, BindsWeight, Shaped, DecodeLength, BindMeanings;
    if Text(t) == Encode(m) {
      PrintedStart(m);
      TreeSize(t);
      assert |t.len| <= 4;
      TextStart(t);
      WrappedLength(Text(t), Size(m), m.version);
      assert false;
    }
  }

  /** What the printer writes is an X.690 encoding of the message exactly when the message
      is small, its request id needs all of the four octets it is written in, and the
      numbers written in one octet are below 128. */
  lemma PrinterIsX690(m: Message)
    ensures
      (exists t :: Standard(t) && Denotes(t, m) && Text(t) == Encode(m)) <==>
      && Size(m) <= 127 && 0x80_0000 <= m.requestId < 0xFF80_0000
      && m.version < 0x80 && m.errorStatus < 0x80 && m.errorIndex < 0x80
  {
    hide Text, Encode, Standard, TreeOf, Size, Signed, Shortest, Denotes;
    if Size(m) > 127 {
      forall t | Standard(t) && Denotes(t, m)
        ensures Text(t) != Encode(m)
      {
        LargeNotStandard(m, t);
      }
    } else {
      var u := Printed(m);
      PrintedDenotes(m, u);
      forall t | Standard(t) && Text(t) == Encode(m)
        ensures t == u
      {
        OnlyStandard(t, u);
      }
    }
  }

  lemma OnlyStandard(t: MessageTree, u: MessageTree)
    requires Standard(t) && WellFormed(u) && Text(t) == Text(u)
    ensures t == u
  {
    hide Text, WellFormed, Shaped;
    WellFormedShaped(u);
    Unambiguous(t, u);
  }

  lemma PrintedDenotes(m: Message, t: MessageTree)
    requires Size(m) <= 127 && t == TreeOf(m, OneByte)
    ensures Standard(t) <==> 0x80_0000 <= m.requestId < 0xFF80_0000
    ensures Denotes(t, m) <==> m.version < 0x80 && m.errorStatus < 0x80 && m.errorIndex < 0x80
  {
    hide Body, Shaped, ExactList, Shortest, Digits, Signed, EncodeBody, BindTrees;
    FourShortest(m.requestId);
    SignedDigits(m.requestId);
    SignedOne(m.version);
    SignedOne(m.errorStatus);
    SignedOne(m.errorIndex);
    if Shortest(t.id) {
      var printed := Printed(m);
      OneByteText(m);
      OneByteFits();
      TreeWithStandard(m, OneByte, 0x80, t.id, t.status, t.index);
    }
  }
}
