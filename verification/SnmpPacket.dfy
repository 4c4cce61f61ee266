/** The packet object: the parser that walks an offset through a borrowed buffer, and
    the printer that leaves length bytes open and patches them. */
module SnmpPacket {
  import opened Octets
  import opened Packet
  import opened Decoder
  import opened Encoder
  import Grammar

  /** A read of data at i by code that was told its region ends at end. */
  function At(data: array<Byte>, end: SizeT, i: SizeT): Byte
    requires i < end && end as int <= data.Length
    reads data
  {
    data[i]
  }

  /** b is the part of data's storage that the caller has lent. */
  ghost predicate Lent(data: array<Byte>, b: seq<Byte>)
    reads data
  {
    |b| <= data.Length && data[..|b|] == b
  }

  /** std::vector<uint8_t>, as far as the printer uses it. */
  class ByteBuffer {
    var bytes: seq<Byte>

    constructor ()
      ensures bytes == []
    {
      bytes := [];
    }

    method Clear()
      modifies this
      ensures bytes == []
    {
      bytes := [];
    }

    method PushBack(b: Byte)
      modifies this
      ensures bytes == old(bytes) + [b]
    {
      bytes := bytes + [b];
    }

    method Append(s: seq<Byte>)
      modifies this
      ensures bytes == old(bytes) + s
    {
      bytes := bytes + s;
    }

    method Patch(i: nat, b: Byte)
      requires i < |bytes|
      modifies this
      ensures bytes == old(bytes)[i := b]
    {
      bytes := bytes[i := b];
    }
  }

  /** Patching the placeholder after a tag closes the field. */
  lemma ClosesWith(open: seq<Byte>, tag: Byte, body: seq<Byte>)
    ensures (open + [tag] + [0] + body)[|open| + 1 := Low(|body|)] == open + OneTlv(tag, body)
    ensures |open + [tag] + [0] + body| - |open + [tag]| - 1 == |body|
  {
  }

  lemma Gather(before: seq<Byte>, a: seq<Byte>, b: seq<Byte>, c: seq<Byte>, d: seq<Byte>)
    ensures before + a + b + c + d == before + (a + (b + (c + d)))
    ensures before + b + c + d == before + (b + (c + d))
  {
  }

  class SNMPPacket {
    var version: Byte
    var pduType: Byte
    var community: seq<Byte>
    var requestId: UInt32
    var errorStatus: Byte
    var errorIndex: Byte
    var varBinds: seq<VarBind>

    ghost function Value(): Message
      reads this
    {
      Message(version, pduType, community, requestId, errorStatus, errorIndex, varBinds)
    }

    constructor ()
      ensures Value() == FRESH == Message(1, 0xA0, [], 0, 0, 0, [])
    {
      version, pduType, community := VERSION_2C, PDU_GET_REQUEST, [];
      requestId, errorStatus, errorIndex, varBinds := 0, 0, 0, [];
    }

    // ---------------------------------------------------------------- parsing

    static method ParseLength(data: array<Byte>, ghost b: seq<Byte>, length: SizeT, offset: SizeT)
      returns (ok: bool, next: SizeT, len: SizeT)
      requires Lent(data, b) && length as int <= |b| <= MAX_OBJECT
      ensures ok == DecodeLength(b, length as nat, offset as nat).Some?
      ensures ok ==> DecodeLength(b, length as nat, offset as nat) == Some(Span(len as nat, next as nat))
    {
      hide BigEndian;
      ok, next, len := false, offset, 0;
      LengthStep([], 0);
      if offset >= length {
        return;
      }
      var firstByte := At(data, length, next);
      next := next + 1;
      if firstByte < 0x80 {
        len := firstByte as SizeT;
      } else {
        var lengthBytes := (firstByte % 0x80) as SizeT;
        if lengthBytes == 0 || lengthBytes > 4 {
          return;
        }
        len := 0;
        var i: SizeT := 0;
        ghost var from := next as nat;
        assert data[from..from] == [];
        while i < lengthBytes
          invariant 0 <= i <= lengthBytes
          invariant next as nat == from + i as nat <= length as nat
          invariant len as nat == BigEndian(data[from..next]) < 0x1_0000_0000
        {
          if next >= length {
            return;
          }
          LengthStep(data[from..next], data[next]);
          assert data[from..next + 1] == data[from..next] + [data[next]];
          len := len * 0x100 + At(data, length, next) as SizeT;
          next := next + 1;
          i := i + 1;
        }
        assert b[from..next] == data[from..next];
      }
      ok := true;
    }

    /** The length octets after the tag at offset, and the test that the contents they
        announce stay within end.  The source repeats this pair at every field. */
    static method ParseHeader(data: array<Byte>, ghost b: seq<Byte>, end: SizeT, offset: SizeT)
      returns (ok: bool, start: SizeT, stop: SizeT)
      requires Lent(data, b) && offset as int < end as int <= |b| <= MAX_OBJECT
      ensures ok == DecodeField(b, end as nat, offset as nat).Some?
      ensures ok ==> offset < start <= stop <= end
      ensures ok ==>
        DecodeField(b, end as nat, offset as nat) == Some(Field(data[start..stop], start as nat, stop as nat))
    {
      var len;
      ok, start, len := ParseLength(data, b, end, offset + 1);
      stop := start;
      if ok && start + len > end {
        ok := false;
      }
      if ok {
        stop := start + len;
        assert b[start..stop] == data[start..stop];
      }
    }

    /** The tag, length, and contents of one INTEGER, folded into a register. */
    static method ParseInteger(data: array<Byte>, ghost b: seq<Byte>, end: SizeT, offset: SizeT, width: Width)
      returns (ok: bool, next: SizeT, n: nat)
      requires Lent(data, b) && offset as int <= end as int <= |b| <= MAX_OBJECT
      ensures ok == DecodeTagged(b, end as nat, offset as nat, TAG_INTEGER).Some?
      ensures ok ==>
        var f := DecodeTagged(b, end as nat, offset as nat, TAG_INTEGER).value;
        next as nat == f.end && n == Truncate(BigEndian(f.contents), width)
    {
      hide DecodeLength, DecodeField, Truncate, BigEndian;
      ok, next, n := false, offset, 0;
      if offset >= end || At(data, end, offset) != TAG_INTEGER {
        return;
      }
      var read, start, stop := ParseHeader(data, b, end, offset);
      if !read {
        return;
      }
      next := start;
      FoldStep([], 0, width);
      assert data[start..next] == [];
      var i: SizeT := 0;
      while i < stop - start
        invariant 0 <= i <= stop - start
        invariant next as nat == start as nat + i as nat
        invariant n == Truncate(BigEndian(data[start..next]), width)
      {
        assert data[start..next + 1] == data[start..next] + [data[next]];
        FoldStep(data[start..next], data[next], width);
        n := Truncate(n * 0x100 + At(data, end, next), width);
        next := next + 1;
        i := i + 1;
      }
      assert b[start..next] == data[start..next];
      ok := true;
    }

    static method ParseVariableBinding(data: array<Byte>, ghost b: seq<Byte>, offset: SizeT, length: SizeT)
      returns (ok: bool, next: SizeT, bound: VarBind)
      requires Lent(data, b) && offset as int + length as int <= |b| <= MAX_OBJECT
      ensures ok == DecodeVarBind(b, offset as nat + length as nat, offset as nat).Some?
      ensures ok ==>
        DecodeVarBind(b, offset as nat + length as nat, offset as nat) == Some((bound, next as nat))
    {
      hide DecodeLength, DecodeField;
      ok, next, bound := false, offset, VarBind([], 0, []);
      var end := offset + length;

      if next >= end || At(data, end, next) != TAG_OID {
        return;
      }
      var read, start, stop := ParseHeader(data, b, end, next);
      if !read {
        return;
      }
      var oid := data[start..stop];
      next := stop;

      if next >= end {
        return;
      }
      var valueType := At(data, end, next);
      read, start, stop := ParseHeader(data, b, end, next);
      if !read {
        return;
      }
      bound := VarBind(oid, valueType, data[start..stop]);
      next := stop;
      ok := true;
    }

    /** On failure next is the start of the binding that failed; the source leaves its offset
        somewhere inside that binding, and no caller looks at it. */
    method ParseVariableBindings(data: array<Byte>, ghost b: seq<Byte>, offset: SizeT, length: SizeT)
      returns (ok: bool, next: SizeT)
      requires Lent(data, b) && offset as int + length as int <= |b| <= MAX_OBJECT
      modifies this
      ensures
        var l := DecodeVarBinds(b, offset as nat + length as nat, offset as nat, []);
        && ok == l.ok && next as nat == l.offset
        && Value() == old(Value()).(varBinds := l.varBinds)
    {
      hide DecodeLength, DecodeField, DecodeVarBind, DecodeVarBinds, BigEndian;
      next := offset;
      var end := offset + length;
      varBinds := [];
      ghost var before := old(Value());
      while next < end
        invariant offset as int + 6 * |varBinds| <= next as int <= end as int
        invariant Lent(data, b)
        invariant Value() == before.(varBinds := varBinds)
        invariant
          DecodeVarBinds(b, end as nat, offset as nat, []) == DecodeVarBinds(b, end as nat, next as nat, varBinds)
        decreases end - next
      {
        ListStep(b, end as nat, next as nat, varBinds);
        if next >= end || At(data, end, next) != TAG_SEQUENCE {
          return false, next;
        }
        var read, start, stop := ParseHeader(data, b, end, next);
        if !read {
          return false, next;
        }
        var got, after, bound := ParseVariableBinding(data, b, start, stop - start);
        if !got {
          return false, next;
        }
        varBinds := varBinds + [bound];
        next := after;
      }
      ListStep(b, end as nat, next as nat, varBinds);
      ok := true;
    }

    method ParsePduFields(data: array<Byte>, ghost b: seq<Byte>, offset: SizeT, length: SizeT)
      returns (ok: bool, next: SizeT)
      requires Lent(data, b) && offset as int + length as int <= |b| <= MAX_OBJECT
      modifies this
      ensures
        var r := DecodePdu(b, offset as nat + length as nat, offset as nat, old(Value()));
        ok == r.ok && Value() == r.message && (ok ==> next as nat == r.offset)
    {
      hide DecodeLength, DecodeField, DecodeIntegers, DecodeVarBinds, BigEndian;
      ok, next := false, offset;
      var end := offset + length;
      ThreeIntegers(b, end as nat, offset as nat);

      var read, at, n := ParseInteger(data, b, end, offset, W32);
      if !read {
        return;
      }
      requestId := n;

      read, at, n := ParseInteger(data, b, end, at, W8);
      if !read {
        return;
      }
      errorStatus := n;

      read, at, n := ParseInteger(data, b, end, at, W8);
      if !read {
        return;
      }
      errorIndex := n;

      if at >= end || At(data, end, at) != TAG_SEQUENCE {
        return;
      }
      var start, stop;
      read, start, stop := ParseHeader(data, b, end, at);
      if !read {
        return;
      }
      ok, next := ParseVariableBindings(data, b, start, stop - start);
    }

    /** data is the lent pointer, null when there is none; the caller vouches for length
        bytes behind it.  Every read is below an end that is at most length, the result
        depends on those bytes alone, and no sum of an offset and a length leaves SizeT. */
    method Parse(data: array?<Byte>, length: SizeT) returns (ok: bool)
      requires data != null ==> length as int <= data.Length <= MAX_OBJECT
      modifies this
      ensures data == null ==> !ok && Value() == old(Value())
      ensures data != null ==>
        var r := DecodeMessage(data[..length], old(Value()));
        ok == r.ok && Value() == r.message
    {
      hide DecodeLength, DecodeField, DecodePdu, BigEndian;
      ok := false;
      if data == null || length == 0 {
        return;
      }
      ghost var b := data[..length];
      var offset: SizeT := 0;

      if offset >= length || At(data, length, offset) != TAG_SEQUENCE {
        return;
      }
      offset := offset + 1;

      var read, start, len := ParseLength(data, b, length, offset);
      if !read {
        return;
      }
      offset := start;
      if len != length - offset {
        return;
      }

      if offset >= length || At(data, length, offset) != TAG_INTEGER {
        return;
      }
      var stop;
      read, start, stop := ParseHeader(data, b, length, offset);
      if !read {
        return;
      }
      if stop - start == 1 {
        version := At(data, length, start);
      } else {
        return;
      }
      offset := stop;

      if offset >= length || At(data, length, offset) != TAG_OCTET_STRING {
        return;
      }
      read, start, stop := ParseHeader(data, b, length, offset);
      if !read {
        return;
      }
      community := data[start..stop];
      offset := stop;

      if offset >= length {
        return;
      }
      pduType := At(data, length, offset);
      read, start, stop := ParseHeader(data, b, length, offset);
      if !read {
        return;
      }
      ok, offset := ParsePduFields(data, b, start, stop - start);
    }

    // ---------------------------------------------------------------- printing

    method SerializeVariableBindings(buffer: ByteBuffer)
      modifies buffer
      ensures buffer.bytes == old(buffer.bytes) + EncodeBinds(varBinds)
    {
      hide EncodeBind;
      var i := 0;
      while i < |varBinds|
        invariant 0 <= i <= |varBinds|
        invariant buffer.bytes + EncodeBinds(varBinds[i..]) == old(buffer.bytes) + EncodeBinds(varBinds)
      {
        var v := varBinds[i];
        SerializeVariableBinding(buffer, v);
        assert varBinds[i..][0] == v && varBinds[i..][1..] == varBinds[i + 1..];
        i := i + 1;
      }
      assert buffer.bytes + [] == buffer.bytes;
    }

    /** The body of the source's loop over the bindings. */
    static method SerializeVariableBinding(buffer: ByteBuffer, v: VarBind)
      modifies buffer
      ensures buffer.bytes == old(buffer.bytes) + EncodeBind(v)
    {
      ghost var before := buffer.bytes;
      buffer.PushBack(TAG_SEQUENCE);
      var lengthPos := |buffer.bytes|;
      buffer.PushBack(0);

      buffer.PushBack(TAG_OID);
      buffer.PushBack(Low(|v.oid|));
      buffer.Append(v.oid);

      buffer.PushBack(v.valueType);
      buffer.PushBack(Low(|v.value|));
      buffer.Append(v.value);

      ghost var body := OneTlv(TAG_OID, v.oid) + OneTlv(v.valueType, v.value);
      assert buffer.bytes == before + ([TAG_SEQUENCE, 0] + body);
      buffer.Patch(lengthPos, Low(|buffer.bytes| - lengthPos - 1));
      assert buffer.bytes == before + OneTlv(TAG_SEQUENCE, body);
    }

    /** An INTEGER of one byte: the version and the two error fields. */
    static method PushSmallInteger(buffer: ByteBuffer, b: Byte)
      modifies buffer
      ensures buffer.bytes == old(buffer.bytes) + OneTlv(TAG_INTEGER, [b])
    {
      buffer.PushBack(TAG_INTEGER);
      buffer.PushBack(1);
      buffer.PushBack(b);
    }

    static method PushRequestId(buffer: ByteBuffer, id: UInt32)
      modifies buffer
      ensures buffer.bytes == old(buffer.bytes) + OneTlv(TAG_INTEGER, Digits(id, 4))
    {
      hide Digits;
      buffer.PushBack(TAG_INTEGER);
      buffer.PushBack(4);
      buffer.PushBack(id / 0x100_0000 % 0x100);
      buffer.PushBack(id / 0x1_0000 % 0x100);
      buffer.PushBack(id / 0x100 % 0x100);
      buffer.PushBack(id % 0x100);
      FourDigits(id);
    }

    method SerializePduFields(buffer: ByteBuffer)
      modifies buffer
      ensures buffer.bytes == old(buffer.bytes) + EncodePdu(Value())
    {
      hide EncodeBinds, OneTlv, Digits;
      ghost var before := buffer.bytes;
      PushRequestId(buffer, requestId);
      PushSmallInteger(buffer, errorStatus);
      PushSmallInteger(buffer, errorIndex);

      ghost var open := buffer.bytes;
      buffer.PushBack(TAG_SEQUENCE);
      var lengthPos := |buffer.bytes|;
      buffer.PushBack(0);
      SerializeVariableBindings(buffer);
      ClosesWith(open, TAG_SEQUENCE, EncodeBinds(varBinds));
      buffer.Patch(lengthPos, Low(|buffer.bytes| - lengthPos - 1));
      Gather(before, OneTlv(TAG_INTEGER, Digits(requestId, 4)), OneTlv(TAG_INTEGER, [errorStatus]),
             OneTlv(TAG_INTEGER, [errorIndex]), OneTlv(TAG_SEQUENCE, EncodeBinds(varBinds)));
    }

    method Serialize(buffer: ByteBuffer) returns (ok: bool)
      modifies buffer
      ensures ok && buffer.bytes == Encode(Value())
    {
      hide EncodePdu, Encode, OneTlv, TreeOf, Grammar.Body, Grammar.PduBody;
      buffer.Clear();
      buffer.PushBack(TAG_SEQUENCE);
      var lengthPos := |buffer.bytes|;
      buffer.PushBack(0);

      ghost var before := buffer.bytes;
      assert before == [] + [TAG_SEQUENCE] + [0];
      PushSmallInteger(buffer, version);
      SerializeCommunity(buffer);

      ghost var open := buffer.bytes;
      buffer.PushBack(pduType);
      var pduLengthPos := |buffer.bytes|;
      buffer.PushBack(0);
      SerializePduFields(buffer);
      ClosesWith(open, pduType, EncodePdu(Value()));
      buffer.Patch(pduLengthPos, Low(|buffer.bytes| - pduLengthPos - 1));
      Gather(before, [], OneTlv(TAG_INTEGER, [version]), OneTlv(TAG_OCTET_STRING, community),
             OneTlv(pduType, EncodePdu(Value())));

      ClosesWith([], TAG_SEQUENCE, EncodeBody(Value()));
      buffer.Patch(lengthPos, Low(|buffer.bytes| - lengthPos - 1));
      OneByteText(Value());
      ok := true;
    }

    method SerializeCommunity(buffer: ByteBuffer)
      modifies buffer
      ensures buffer.bytes == old(buffer.bytes) + OneTlv(TAG_OCTET_STRING, community)
    {
      buffer.PushBack(TAG_OCTET_STRING);
      buffer.PushBack(Low(|community|));
      buffer.Append(community);
    }

    // ---------------------------------------------------------------- setters

    method SetVersion(v: Byte)
      modifies this
      ensures Value() == old(Value()).(version := v)
    {
      version := v;
    }

    method SetPduType(t: Byte)
      modifies this
      ensures Value() == old(Value()).(pduType := t)
    {
      pduType := t;
    }

    method SetCommunity(c: seq<Byte>)
      modifies this
      ensures Value() == old(Value()).(community := c)
    {
      community := c;
    }

    method SetRequestId(id: UInt32)
      modifies this
      ensures Value() == old(Value()).(requestId := id)
    {
      requestId := id;
    }

    method SetErrorStatus(status: Byte)
      modifies this
      ensures Value() == old(Value()).(errorStatus := status)
    {
      errorStatus := status;
    }

    method SetErrorIndex(index: Byte)
      modifies this
      ensures Value() == old(Value()).(errorIndex := index)
    {
      errorIndex := index;
    }

    method AddVariableBinding(v: VarBind)
      modifies this
      ensures Value() == old(Value()).(varBinds := old(varBinds) + [v])
    {
      varBinds := varBinds + [v];
    }
  }
}
