/** The value of an SNMP message, and the constants the daemon gives names to. */
module Packet {
  import opened Octets

  type Oid = seq<Byte>

  const VERSION_1: Byte := 0
  const VERSION_2C: Byte := 1
  const VERSION_3: Byte := 3

  const PDU_GET_REQUEST: Byte := 0xA0
  const PDU_GET_NEXT_REQUEST: Byte := 0xA1
  const PDU_GET_RESPONSE: Byte := 0xA2
  const PDU_SET_REQUEST: Byte := 0xA3
  const PDU_TRAP: Byte := 0xA4
  const PDU_GET_BULK_REQUEST: Byte := 0xA5
  const PDU_TRAP_V2: Byte := 0xA7

  const ERROR_NO_SUCH_NAME: Byte := 2
  const ERROR_READ_ONLY: Byte := 4
  const ERROR_NO_ACCESS: Byte := 6
  const ERROR_WRONG_VALUE: Byte := 10

  const TAG_INTEGER: Byte := 0x02
  const TAG_OCTET_STRING: Byte := 0x04
  const TAG_NULL: Byte := 0x05
  const TAG_OID: Byte := 0x06
  const TAG_SEQUENCE: Byte := 0x30

  datatype VarBind = VarBind(oid: Oid, valueType: Byte, value: seq<Byte>)

  datatype Message = Message(
    version: Byte,
    pduType: Byte,
    community: seq<Byte>,
    requestId: UInt32,
    errorStatus: Byte,
    errorIndex: Byte,
    varBinds: seq<VarBind>)

  // What the constructor of SNMPPacket sets up.
  const FRESH: Message := Message(VERSION_2C, PDU_GET_REQUEST, [], 0, 0, 0, [])

  /** The OID and value bytes of a list of variable bindings, plus six for each. */
  function BindsWeight(vs: seq<VarBind>): (n: nat)
  {
    if vs == [] then 0 else 6 + |vs[0].oid| + |vs[0].value| + BindsWeight(vs[1..])
  }
}
