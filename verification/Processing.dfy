/** What the server answers, as functions of the request, the MIB and the security
    manager's answers. */
module Processing {
  import opened Octets
  import opened Packet
  import opened Mib
  import opened Decoder
  import opened Encoder

  /** The security manager's answers while one datagram is processed. */
  datatype Policy = Policy(
    rateOk: bool,
    ipAllowed: bool,
    accessAllowed: seq<Byte> -> bool,
    writeAllowed: seq<Byte> -> bool,
    oidAllowed: (seq<Byte>, Oid) -> bool)

  type Setters = (Mib, Oid, MibValue) -> bool

  predicate Admitted(p: Policy, q: Message) {
    p.rateOk && p.ipAllowed && p.accessAllowed(q.community)
  }

  function NullBind(oid: Oid): VarBind {
    VarBind(oid, TAG_NULL, [])
  }

  function Found(m: Mib, oid: Oid): VarBind {
    if oid in m.values then VarBind(oid, m.values[oid].valueType, m.values[oid].data) else NullBind(oid)
  }

  // ------------------------------------------------------------ GET

  predicate AnyMissing(m: Mib, vs: seq<VarBind>) {
    exists i :: 0 <= i < |vs| && vs[i].oid !in m.values
  }

  function GetBinds(m: Mib, vs: seq<VarBind>): seq<VarBind> {
    seq(|vs|, i requires 0 <= i < |vs| => Found(m, vs[i].oid))
  }

  // r is the reply as the dispatcher has prepared it.
  function GetReply(m: Mib, vs: seq<VarBind>, r: Message): Message {
    var answered := r.(pduType := PDU_GET_RESPONSE, varBinds := r.varBinds + GetBinds(m, vs));
    if AnyMissing(m, vs)
    then answered.(errorStatus := ERROR_NO_SUCH_NAME, errorIndex := |vs| % 0x100)
    else answered
  }

  // ------------------------------------------------------------ GET-NEXT

  ghost function NextBind(m: Mib, oid: Oid): VarBind {
    match Next(m.oids, oid)
    case Some(next) => Found(m, next)
    case None => NullBind(oid)
  }

  ghost function NextBinds(m: Mib, vs: seq<VarBind>): seq<VarBind> {
    seq(|vs|, i requires 0 <= i < |vs| => NextBind(m, vs[i].oid))
  }

  ghost function NextReply(m: Mib, vs: seq<VarBind>, r: Message): Message {
    r.(pduType := PDU_GET_RESPONSE, varBinds := r.varBinds + NextBinds(m, vs))
  }

  // ------------------------------------------------------------ SET

  datatype Verdict = Accepted | Refused(code: Byte)

  /** Everything a SET's course depends on besides its bindings. */
  datatype Context = Context(policy: Policy, setters: Setters, community: seq<Byte>)

  function Judge(c: Context, m: Mib, v: VarBind): Verdict {
    if !c.policy.oidAllowed(c.community, v.oid) then Refused(ERROR_NO_ACCESS)
    else if v.oid !in m.values then Refused(ERROR_NO_SUCH_NAME)
    else if v.oid in m.scalars then Refused(ERROR_READ_ONLY)
    else if c.setters(m, v.oid, MibValue(v.valueType, v.value)) then Accepted
    else Refused(ERROR_WRONG_VALUE)
  }

  /** The MIB after the first n bindings of vs, in order. */
  function Settled(c: Context, m: Mib, vs: seq<VarBind>, n: nat): Mib
    requires n <= |vs|
  {
    if n == 0 then m
    else
      var before := Settled(c, m, vs, n - 1);
      var v := vs[n - 1];
      if Judge(c, before, v).Accepted? then Written(before, v.oid, MibValue(v.valueType, v.value)) else before
  }

  /** What becomes of binding i, judged in the MIB its predecessors left. */
  function VerdictAt(c: Context, m: Mib, vs: seq<VarBind>, i: nat): Verdict
    requires i < |vs|
  {
    Judge(c, Settled(c, m, vs, i), vs[i])
  }

  function SetBinds(c: Context, m: Mib, vs: seq<VarBind>, n: nat): seq<VarBind>
    requires n <= |vs|
  {
    seq(n, i requires 0 <= i < n =>
      if VerdictAt(c, m, vs, i).Accepted? then vs[i] else NullBind(vs[i].oid))
  }

  /** The code of the last refusal among the first n bindings, 0 when there is none. */
  function LastCode(c: Context, m: Mib, vs: seq<VarBind>, n: nat): Byte
    requires n <= |vs|
  {
    if n == 0 then 0
    else
      match VerdictAt(c, m, vs, n - 1)
      case Accepted => LastCode(c, m, vs, n - 1)
      case Refused(code) => code
  }

  lemma SetStart(c: Context, m: Mib, vs: seq<VarBind>)
    ensures Settled(c, m, vs, 0) == m && SetBinds(c, m, vs, 0) == [] && LastCode(c, m, vs, 0) == 0
  {
  }

  lemma SetStep(c: Context, m: Mib, vs: seq<VarBind>, i: nat)
    requires i < |vs|
    ensures
      var v := vs[i];
      var verdict := Judge(c, Settled(c, m, vs, i), v);
      && (verdict.Refused? ==> verdict.code != 0)
      && Settled(c, m, vs, i + 1) ==
         (if verdict.Accepted? then Written(Settled(c, m, vs, i), v.oid, MibValue(v.valueType, v.value))
          else Settled(c, m, vs, i))
      && SetBinds(c, m, vs, i + 1) ==
         SetBinds(c, m, vs, i) + [if verdict.Accepted? then v else NullBind(v.oid)]
      && LastCode(c, m, vs, i + 1) ==
         (if verdict.Accepted? then LastCode(c, m, vs, i) else verdict.code)
  {
  }

  function SetReply(c: Context, m: Mib, vs: seq<VarBind>, r: Message): Message {
    var answer := r.(pduType := PDU_GET_RESPONSE);
    if !c.policy.writeAllowed(c.community) then answer.(errorStatus := ERROR_NO_ACCESS)
    else
      var answered := answer.(varBinds := r.varBinds + SetBinds(c, m, vs, |vs|));
      if LastCode(c, m, vs, |vs|) == 0 then answered
      else answered.(errorStatus := LastCode(c, m, vs, |vs|), errorIndex := |vs| % 0x100)
  }

  function SetEffect(c: Context, m: Mib, vs: seq<VarBind>): Mib {
    if c.policy.writeAllowed(c.community) then Settled(c, m, vs, |vs|) else m
  }

  // ------------------------------------------------------------ dispatch

  /** The reply before it is dispatched on. */
  function Prepared(q: Message): Message {
    FRESH.(version := q.version, community := q.community, requestId := q.requestId)
  }

  /** GET-BULK is served to versions 2c and 3 only. */
  predicate BulkServed(q: Message) {
    q.version == VERSION_2C || q.version == VERSION_3
  }

  ghost function Reply(p: Policy, s: Setters, m: Mib, q: Message): Message {
    var r := Prepared(q);
    var refused := r.(errorStatus := ERROR_NO_SUCH_NAME);
    if q.pduType == PDU_GET_REQUEST then GetReply(m, q.varBinds, r)
    else if q.pduType == PDU_GET_NEXT_REQUEST then NextReply(m, q.varBinds, r)
    else if q.pduType == PDU_GET_BULK_REQUEST then
      if BulkServed(q) then NextReply(m, q.varBinds, r) else refused
    else if q.pduType == PDU_SET_REQUEST then SetReply(Context(p, s, q.community), m, q.varBinds, r)
    else if q.pduType == PDU_TRAP then if q.version == VERSION_1 then r else refused
    else if q.pduType == PDU_TRAP_V2 then if q.version == VERSION_2C then r else refused
    else refused
  }

  function Effect(p: Policy, s: Setters, m: Mib, q: Message): Mib {
    if q.pduType == PDU_SET_REQUEST then SetEffect(Context(p, s, q.community), m, q.varBinds) else m
  }

  /** What one datagram b leads to: the octets sent back, if any, and the MIB. */
  ghost function Handled(p: Policy, s: Setters, m: Mib, b: seq<Byte>): (Option<seq<Byte>>, Mib) {
    var r := DecodeMessage(b, FRESH);
    if r.ok && Admitted(p, r.message)
    then (Some(Encode(Reply(p, s, m, r.message))), Effect(p, s, m, r.message))
    else (None, m)
  }
}
