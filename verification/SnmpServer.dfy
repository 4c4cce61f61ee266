/** The server object: from a received datagram to the bytes handed to the socket. */
module SnmpServer {
  import opened Octets
  import opened Packet
  import opened Decoder
  import opened Encoder
  import opened SnmpPacket
  import opened Mib
  import opened Processing

  class SNMPServer {
    const manager: MIBManager

    constructor (m: MIBManager)
      ensures manager == m
    {
      manager := m;
    }

    method ProcessGetRequest(request: SNMPPacket, response: SNMPPacket)
      requires request != response
      modifies response
      ensures response.Value() == GetReply(manager.mib, request.varBinds, old(response.Value()))
    {
      response.SetPduType(PDU_GET_RESPONSE);
      var vs := request.varBinds;
      ghost var start := response.Value();
      var i := 0;
      while i < |vs|
        invariant 0 <= i <= |vs|
        invariant response.Value() ==
          if AnyMissing(manager.mib, vs[..i])
          then start.(varBinds := start.varBinds + GetBinds(manager.mib, vs[..i]),
                      errorStatus := ERROR_NO_SUCH_NAME, errorIndex := |vs| % 0x100)
          else start.(varBinds := start.varBinds + GetBinds(manager.mib, vs[..i]))
      {
        var v := vs[i];
        var bound := NullBind(v.oid);
        var found, value := manager.GetValue(v.oid);
        if found {
          bound := VarBind(v.oid, value.valueType, value.data);
        } else {
          response.SetErrorStatus(ERROR_NO_SUCH_NAME);
          response.SetErrorIndex(Low(|request.varBinds|));
        }
        response.AddVariableBinding(bound);
        AnyMissingGrows(manager.mib, vs, i);
        assert GetBinds(manager.mib, vs[..i + 1]) == GetBinds(manager.mib, vs[..i]) + [bound];
        i := i + 1;
      }
      assert vs[..|vs|] == vs;
    }

    static lemma AnyMissingGrows(m: Mib, vs: seq<VarBind>, i: nat)
      requires i < |vs|
      ensures AnyMissing(m, vs[..i + 1]) <==> AnyMissing(m, vs[..i]) || vs[i].oid !in m.values
    {
      var longer := vs[..i + 1];
      if vs[i].oid !in m.values {
        assert longer[i].oid !in m.values;
      }
      if AnyMissing(m, vs[..i]) {
        var k :| 0 <= k < i && vs[..i][k].oid !in m.values;
        assert longer[k].oid !in m.values;
      }
      if AnyMissing(m, longer) {
        var k :| 0 <= k < i + 1 && longer[k].oid !in m.values;
        assert k < i ==> vs[..i][k].oid !in m.values;
      }
    }

    /** What the source writes out twice, in the GET-NEXT loop and in the GET-BULK loop. */
    method LookUpNext(v: VarBind) returns (bound: VarBind)
      ensures bound == NextBind(manager.mib, v.oid)
    {
      var found, next := manager.GetNextOid(v.oid);
      if found {
        bound := NullBind(next);
        var known, value := manager.GetValue(next);
        if known {
          bound := VarBind(next, value.valueType, value.data);
        }
      } else {
        bound := NullBind(v.oid);
      }
    }

    method ProcessGetNextRequest(request: SNMPPacket, response: SNMPPacket)
      requires request != response
      modifies response
      ensures response.Value() == NextReply(manager.mib, request.varBinds, old(response.Value()))
    {
      response.SetPduType(PDU_GET_RESPONSE);
      var vs := request.varBinds;
      ghost var start := response.Value();
      var i := 0;
      while i < |vs|
        invariant 0 <= i <= |vs|
        invariant response.Value() == start.(varBinds := start.varBinds + NextBinds(manager.mib, vs[..i]))
      {
        var bound := LookUpNext(vs[i]);
        response.AddVariableBinding(bound);
        assert NextBinds(manager.mib, vs[..i + 1]) == NextBinds(manager.mib, vs[..i]) + [bound];
        i := i + 1;
      }
      assert vs[..|vs|] == vs;
    }

    method ProcessGetBulkRequest(request: SNMPPacket, response: SNMPPacket)
      requires request != response
      modifies response
      ensures response.Value() == NextReply(manager.mib, request.varBinds, old(response.Value()))
    {
      response.SetPduType(PDU_GET_RESPONSE);
      var vs := request.varBinds;
      ghost var start := response.Value();
      for i := 0 to |vs|
        invariant response.Value() == start.(varBinds := start.varBinds + NextBinds(manager.mib, vs[..i]))
      {
        var bound := LookUpNext(vs[i]);
        response.AddVariableBinding(bound);
        assert NextBinds(manager.mib, vs[..i + 1]) == NextBinds(manager.mib, vs[..i]) + [bound];
      }
      assert vs[..|vs|] == vs;
    }

    method ProcessSetRequest(policy: Policy, request: SNMPPacket, response: SNMPPacket)
      requires request != response
      modifies response, manager
      ensures
        var c := Context(policy, manager.accepts, request.community);
        && response.Value() == SetReply(c, old(manager.mib), request.varBinds, old(response.Value()))
        && manager.mib == SetEffect(c, old(manager.mib), request.varBinds)
    {
      hide Judge, Settled, SetBinds, LastCode, VerdictAt, Written;
      response.SetPduType(PDU_GET_RESPONSE);
      if !policy.writeAllowed(request.community) {
        response.SetErrorStatus(ERROR_NO_ACCESS);
        return;
      }
      var vs := request.varBinds;
      ghost var start := response.Value();
      ghost var c := Context(policy, manager.accepts, request.community);
      ghost var m := manager.mib;
      SetStart(c, m, vs);
      var i := 0;
      while i < |vs|
        invariant 0 <= i <= |vs|
        invariant manager.mib == Settled(c, m, vs, i)
        invariant response.Value() ==
          if LastCode(c, m, vs, i) == 0
          then start.(varBinds := start.varBinds + SetBinds(c, m, vs, i))
          else start.(varBinds := start.varBinds + SetBinds(c, m, vs, i),
                      errorStatus := LastCode(c, m, vs, i), errorIndex := |vs| % 0x100)
      {
        var v := vs[i];
        SetStep(c, m, vs, i);
        var bound := SetOne(policy, request, response, v);
        response.AddVariableBinding(bound);
        i := i + 1;
      }
    }

    /** One turn of the SET loop, up to adding the binding. */
    method SetOne(policy: Policy, request: SNMPPacket, response: SNMPPacket, v: VarBind)
      returns (bound: VarBind)
      requires request != response
      modifies response, manager
      ensures
        var verdict := Judge(Context(policy, manager.accepts, request.community), old(manager.mib), v);
        && bound == (if verdict.Accepted? then v else NullBind(v.oid))
        && manager.mib == (if verdict.Accepted?
                           then Written(old(manager.mib), v.oid, MibValue(v.valueType, v.value))
                           else old(manager.mib))
        && response.Value() == (if verdict.Accepted? then old(response.Value())
                                else old(response.Value()).(errorStatus := verdict.code,
                                                            errorIndex := |request.varBinds| % 0x100))
    {
      bound := NullBind(v.oid);
      if !policy.oidAllowed(request.community, v.oid) {
        response.SetErrorStatus(ERROR_NO_ACCESS);
        response.SetErrorIndex(Low(|request.varBinds|));
        return;
      }
      var found, value := manager.GetValue(v.oid);
      if found {
        var scalar := manager.IsScalar(v.oid);
        if scalar {
          response.SetErrorStatus(ERROR_READ_ONLY);
          response.SetErrorIndex(Low(|request.varBinds|));
        } else {
          var written := manager.SetValue(v.oid, MibValue(v.valueType, v.value));
          if written {
            bound := v;
          } else {
            response.SetErrorStatus(ERROR_WRONG_VALUE);
            response.SetErrorIndex(Low(|request.varBinds|));
          }
        }
      } else {
        response.SetErrorStatus(ERROR_NO_SUCH_NAME);
        response.SetErrorIndex(Low(|request.varBinds|));
      }
    }

    /** The switch on the PDU type. */
    method Dispatch(policy: Policy, request: SNMPPacket, response: SNMPPacket)
      requires request != response && response.Value() == Prepared(request.Value())
      modifies response, manager
      ensures response.Value() == Reply(policy, manager.accepts, old(manager.mib), request.Value())
      ensures manager.mib == Effect(policy, manager.accepts, old(manager.mib), request.Value())
    {
      hide GetReply, NextReply, SetReply, SetEffect;
      if request.pduType == PDU_GET_REQUEST {
        ProcessGetRequest(request, response);
      } else if request.pduType == PDU_GET_NEXT_REQUEST {
        ProcessGetNextRequest(request, response);
      } else if request.pduType == PDU_GET_BULK_REQUEST {
        if request.version == VERSION_2C || request.version == VERSION_3 {
          ProcessGetBulkRequest(request, response);
        } else {
          response.SetErrorStatus(ERROR_NO_SUCH_NAME);
        }
      } else if request.pduType == PDU_SET_REQUEST {
        ProcessSetRequest(policy, request, response);
      } else if request.pduType == PDU_TRAP {
        if request.version != VERSION_1 {
          response.SetErrorStatus(ERROR_NO_SUCH_NAME);
        }
      } else if request.pduType == PDU_TRAP_V2 {
        if request.version != VERSION_2C {
          response.SetErrorStatus(ERROR_NO_SUCH_NAME);
        }
      } else {
        response.SetErrorStatus(ERROR_NO_SUCH_NAME);
      }
    }

    /** The bytes handed to the socket, if any. */
    method ProcessSnmpRequest(policy: Policy, request: SNMPPacket) returns (sent: Option<seq<Byte>>)
      modifies manager
      ensures sent.Some? <==> policy.rateOk && policy.ipAllowed && policy.accessAllowed(request.community)
      ensures sent.Some? ==>
        && sent.value == Encode(Reply(policy, manager.accepts, old(manager.mib), request.Value()))
        && manager.mib == Effect(policy, manager.accepts, old(manager.mib), request.Value())
      ensures sent.None? ==> manager.mib == old(manager.mib)
    {
      hide Encode, Reply, Effect;
      if !policy.rateOk {
        return None;
      }
      if !policy.ipAllowed {
        return None;
      }
      if !policy.accessAllowed(request.community) {
        return None;
      }
      var response := new SNMPPacket();
      response.SetVersion(request.version);
      response.SetCommunity(request.community);
      response.SetRequestId(request.requestId);

      Dispatch(policy, request, response);
      var buffer := new ByteBuffer();
      var ok := response.Serialize(buffer);
      sent := Some(buffer.bytes);
    }

    /** One turn of the receive loop for a datagram of length octets. */
    method HandleDatagram(policy: Policy, data: array<Byte>, length: SizeT) returns (sent: Option<seq<Byte>>)
      requires length as int <= data.Length <= MAX_OBJECT
      modifies manager
      ensures (sent, manager.mib) == Handled(policy, manager.accepts, old(manager.mib), data[..length])
    {
      hide Encode, Reply, Effect, DecodeMessage;
      sent := None;
      if length == 0 {
        EmptyRefused(data[..length]);
        return;
      }
      var packet := new SNMPPacket();
      var ok := packet.Parse(data, length);
      if ok {
        sent := ProcessSnmpRequest(policy, packet);
      }
    }

    static lemma EmptyRefused(b: seq<Byte>)
      requires b == []
      ensures !DecodeMessage(b, FRESH).ok
    {
    }
  }
}
