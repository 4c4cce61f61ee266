# simple-snmpd: a verified model of the message codec, request processing, configuration and lifecycle

simple-snmpd is an SNMP agent. A datagram is parsed by a hand-written BER parser, passed
through the security gates, dispatched on its PDU type, answered from the MIB, and the answer
is printed by a serializer that leaves length bytes open and patches them. The project models
that path, the configuration loader and the thread lifecycle in Dafny 4.11, and proves what a
manager or an operator may rely on. `dafny verify dfyconfig.toml` verifies all of it.

## Layout

| file | contents |
|---|---|
| `Octets.dfy` | bytes, 64-bit `size_t`, big-endian numbers, register folds |
| `Packet.dfy` | the value of a message and the constants |
| `Decoder.dfy` | what `SNMPPacket::parse` computes, as functions of bytes and an offset |
| `Grammar.dfy` | the accepted language as syntax trees; soundness and completeness |
| `Encoder.dfy` | encodings of a message as trees: the printer's, and with minimal length octets |
| `SnmpPacket.dfy` | the packet class: parsing and printing loops |
| `CodecProperties.dfy` | how printer and parser meet |
| `PrinterOctets.dfy` | what is printed, octet by octet |
| `FailedParse.dfy` | what a packet holds after a failed parse |
| `X690.dfy` | both against X.690: length octets and the contents of integers |
| `Mib.dfy`, `Walk.dfy` | the MIB interface, and GET-NEXT walks |
| `Processing.dfy`, `SnmpServer.dfy` | what the server answers; the server's methods |
| `ServerProperties.dfy` | requests, replies, sessions and whole runs |
| `SnmpConfig.dfy`, `ConfigProperties.dfy` | the configuration loader |
| `Lifecycle.dfy` | start, stop and the threads, as steps |

## Main results

1. The parser accepts exactly the texts of a declarative grammar and returns the tree's meaning
   (`Grammar.Language`); every datagram has at most one tree (`Unambiguous`); every form of every
   length field of up to four octets is read, and none that is longer (`AcceptedForms`).
2. A printed message is read back if and only if its contents take at most 127 octets; every
   larger one, of any size, is refused (`RoundTrip`). Up to the same bound the printer writes
   minimal length octets (`PrinterLengths`), but what it writes is X.690 only where the request
   id needs four octets and the one-octet numbers are below 128 (`PrinterIsX690`). The parser
   reads an X.690 encoding back, up to four gibibytes, unless the request id is a negative number
   that fits in three octets, and then loses its sign (`X690Read`, `X690Accepted`). A larger
   message goes out with every length modulo 256 (`PrintedLengths`).
3. Nothing after the variable bindings, and nothing the packet object held before, affects an
   accepted parse (`SlackIgnored`); a failed one leaves the fields up to the failure read and the
   others as they were (`PduStops`, `ListStops` and the lemmas before them).
4. End to end, what goes out is the printed reply, which carries version, community and the
   parsed request id back, and shows the same signed id exactly when that fits in 32 bits and
   was not a short negative (`Answered`). Each kind of request has its whole reply stated
   (`GetAnswers`, `NextAnswers`, `SetAnswers`, `UnservedAnswers`), and a SET what it stores
   (`SetStores`).
5. A GET-NEXT walk visits every OID ahead once, in lexicographic order (`LessIsLexicographic`),
   then stays, a subtree before all that follows it (`SubtreeFirst`), also while values change
   (`WalkVisitsAll`) and other managers write (`WalkAmidWriters`); if OIDs come and go, none that
   stays is missed (`NoneMissed`, `ReachedInTime`). Through the printer and the parser at both
   ends it is the same walk exactly as long as every round is admitted and every message takes at
   most 127 octets, and breaks off otherwise (`RoundExchanged`, `SessionWalks`).
6. Over any run of datagrams no scalar changes, nothing is added or removed, and a value
   changes only through an admitted SET that may write it (`ServerProperties.RunKeeps`).
7. Over any interleaving, threads are accounted for (`ThreadsAccounted`), every request that
   arrives is handled once and nothing else is (`RequestsCounted`), and no request is
   handled after `stop` has returned until `initialize` opens a socket again
   (`NothingServedAfterStop`). While it runs, `stop` and the threads take boundedly many steps
   (`StopEnds`). With no datagram arriving it can return if and only if closing a socket wakes
   its readers or the server thread is not blocked in `recvfrom` (`StopCanReturn`); it does so
   under every scheduling if and only if, besides, the server thread has no open socket to
   block on (`StopMustReturn`); one datagram frees it (`OneDatagramFrees`).

Proofs hide definitions they do not need with `hide`, which keeps each of them small.

## Modelling notes

- `(x << 8) | byte` is `x * 256 + byte` cut to the register's width; `size_t` is a 64-bit
  `newtype`, so every sum of an offset and a length is proved not to wrap.
- A buffer passed as pointer and length may be larger than the length; the contracts speak of
  the first `length` bytes only. No object is larger than 2^63 - 1 bytes.
- The tests "length octets, then contents within the region" and the integer folds, which
  `snmp_packet.cpp` writes out at every field, are one method each.
- The GET-NEXT and GET-BULK loops share the lookup of one binding, and the SET loop's turn is a
  method of its own.
- Lemmas about what goes over the wire give tags, PDU types, versions and error codes as numbers,
  not by the constants' names.
- The security manager's answers during one datagram are a value (`Policy`); so are the
  setters' answers (`Setters`) and `std::stoi` (`Stoi`), arbitrary functions all three.
- Assumed of `MIBManager`, whose implementation is not part of this model: `get_value` is a
  lookup, `get_next_oid` is the least OID strictly greater in byte order, and `set_value` either
  stores the value at that OID alone or changes nothing. What getters do between datagrams is
  modelled for walks, where the MIB may differ in every round; `RunKeeps` and `WalkAmidWriters`
  take values not to change on their own.

Where code and comments or intent differ, the model follows the code:

- Integers are not written or read as section 8.3 of X.690 has them. The printer always takes
  four octets for the request id and one for each error field (`src/core/snmp_packet.cpp:369-384`):
  id 1 goes out as `00 00 00 01`, status 128 as the octet for -128. The parser folds every integer
  without its sign (`:227-230`): the octet `FF`, which is -1, is read as 255. `PrinterShortest`,
  `PrinterIsX690`, `IdRead` and `X690Read` say exactly when that matters.
- Traps are commented as getting no response (`src/core/snmp_server.cpp:492`, `:515`); the
  dispatcher sends one, of PDU type GetRequest, to every trap (`Answered`).
- A walk's end is commented as endOfMibView (`src/core/snmp_server.cpp:369`); the code answers
  NULL (`WalkVisitsAll`).
- The range checks of the ports look at the number after it was cut to 16 bits
  (`src/core/snmp_config.cpp:100-101`, `:160-161`), and the tests against 1 of the two 32-bit
  settings after it became unsigned (`:115-116`, `:128-129`), so that -1 is accepted and stored as
  4294967295; `PortCheck`, `CountCheck` and `InvalidYetStored` say exactly what they miss.
- `stop` closes the socket "to wake up accept" (`src/core/snmp_server.cpp:139-143`). Linux does not
  wake a `recvfrom` (`:176`) already blocked on it, so stopping an idle server waits at the join
  (`:147`) until a datagram happens to arrive (`IdleServerHangs`, `IdleServerReached`).
- `stop` forgets the socket (`src/core/snmp_server.cpp:142`) and `start` (`:106-128`) does not open
  one: a server restarted without `initialize` runs its threads and receives nothing (`DeafStays`).

## Model

| member | source | states |
|---|---|---|
| Octets.FoldStep | src/core/snmp_packet.cpp:227-230 | shifting a byte into an 8- or 32-bit register keeps the low part of the big-endian number, for contents of any length |
| Octets.DigitsValue | src/core/snmp_packet.cpp:371-374 | the bytes written for a number denote it |
| Octets.FourDigits | src/core/snmp_packet.cpp:371-374 | the shifts and masks of the request id are its four base-256 digits |
| Grammar.LengthSound | src/core/snmp_packet.cpp:178-206 | a length that is read is a readable short or long form at that place, with that number, ending there |
| Grammar.LengthComplete | src/core/snmp_packet.cpp:178-206 | every readable form that ends within the region is read as its number |
| Decoder.ThreeIntegers | src/core/snmp_packet.cpp:212-270 | which of the three integer fields have been read when reading stops, and where it stops |
| Grammar.BindSound | src/core/snmp_packet.cpp:321-365 | a binding that is read is the text of an OID field and a value field, and gives exactly their contents and the value's tag |
| Grammar.BindComplete | src/core/snmp_packet.cpp:321-365 | every such text that ends within the region is read as that binding |
| Decoder.DecodeVarBinds | src/core/snmp_packet.cpp:290-319 | bindings read earlier are kept, each further one has consumed at least six octets, also when a later one fails, and a list that parses is consumed exactly to its declared end |
| Grammar.ListSound | src/core/snmp_packet.cpp:290-319 | a list that parses is the text of a list of bindings, to the octet |
| Grammar.ListComplete | src/core/snmp_packet.cpp:290-319 | every text of a list of bindings parses to their meanings, in order |
| SnmpPacket.SNMPPacket.ParseLength | src/core/snmp_packet.cpp:178-206 | the loop reads a short form or one to four octets within the region, without wrapping |
| SnmpPacket.SNMPPacket.ParseHeader | src/core/snmp_packet.cpp:218-225 | length octets whose contents stay within the region |
| SnmpPacket.SNMPPacket.ParseInteger | src/core/snmp_packet.cpp:212-230 | tag, length and contents of an INTEGER, folded to the unsigned value mod 2^8 or 2^32 |
| SnmpPacket.SNMPPacket.ParseVariableBinding | src/core/snmp_packet.cpp:321-365 | OID and value of one binding and where they end |
| SnmpPacket.SNMPPacket.ParseVariableBindings | src/core/snmp_packet.cpp:290-319 | the bindings up to the region's end, six octets or more consumed for each, and, if one fails, the bindings before it and where it starts; the source leaves its offset inside that one |
| SnmpPacket.SNMPPacket.ParsePduFields | src/core/snmp_packet.cpp:208-288 | the PDU's fields in order, and what the object holds after any failure |
| SnmpPacket.SNMPPacket.Parse | src/core/snmp_packet.cpp:32-133 | the whole parse, null pointer and failures included, from the first length bytes alone |
| SnmpPacket.SNMPPacket.constructor | src/core/snmp_packet.cpp:26-28 | the fields of a fresh packet |
| SnmpPacket.ClosesWith | src/core/snmp_packet.cpp:398-399 | patching the byte after a tag with the distance to the end, mod 256, closes the field |
| SnmpPacket.SNMPPacket.SerializeVariableBinding | src/core/snmp_packet.cpp:407-425 | appends one binding with its length patched in |
| SnmpPacket.SNMPPacket.SerializeVariableBindings | src/core/snmp_packet.cpp:404-429 | appends all bindings in order |
| SnmpPacket.SNMPPacket.SerializePduFields | src/core/snmp_packet.cpp:367-402 | appends id, error fields and the binding list |
| SnmpPacket.SNMPPacket.Serialize | src/core/snmp_packet.cpp:135-176 | the buffer ends as the pure encoding, each length byte mod 256 (`Encode`, whose octets are `Printed`) |
| Encoder.OneByteText | src/core/snmp_packet.cpp:135-176 | the pure encoding is the grammar's text under one-byte lengths; its contents take 21 octets, the community, and six more per binding than its OID and value |
| PrinterOctets.PrintedLengths | src/core/snmp_packet.cpp:135-176 | every message, of any size, goes out as a tree that means it, without slack, each length being one octet congruent modulo 256 to the contents it stands before |
| PrinterOctets.Printed | src/core/snmp_packet.cpp:135-176 | the octets written for every message, tags and order included |
| PrinterOctets.MessageRead | src/core/snmp_packet.cpp:32-176 | a datagram of 42 octets, and the seven fields printed as it and read from it |
| FailedParse.LengthOctets | src/core/snmp_packet.cpp:178-206 | which first octets are a length, which announce one of one to four octets, and which are refused |
| FailedParse.NoHeader | src/core/snmp_packet.cpp:37-59 | without a SEQUENCE, or with another length than that of the rest, nothing is read |
| FailedParse.NoVersion | src/core/snmp_packet.cpp:61-67 | without a version nothing is read |
| FailedParse.OddVersion | src/core/snmp_packet.cpp:78-85 | nor with a version of no or several octets |
| FailedParse.NoCommunity | src/core/snmp_packet.cpp:87-93 | without a community only the version is read |
| FailedParse.NoPdu | src/core/snmp_packet.cpp:108-114 | without a PDU the version and the community are |
| FailedParse.PduTooLong | src/core/snmp_packet.cpp:116-125 | with a PDU that claims too much its type is read as well |
| FailedParse.PduStops | src/core/snmp_packet.cpp:208-287 | a PDU that goes wrong at an integer or at the list leaves the integers before that read, and the rest as it was |
| FailedParse.ListStops | src/core/snmp_packet.cpp:290-319 | a list that goes wrong is replaced by the bindings before the failure |
| Encoder.MinimalOctets | src/core/snmp_packet.cpp:186-203 | the octets of the shortest long form: they denote the number, and no fewer can |
| Grammar.Complete | src/core/snmp_packet.cpp:32-365 | every text of a well-formed tree is accepted and read as the tree's meaning, whatever the object held |
| Grammar.Sound | src/core/snmp_packet.cpp:32-365 | every accepted datagram is the text of a well-formed tree |
| Grammar.Language | src/core/snmp_packet.cpp:32-365 | acceptance is membership in the grammar, both ways, and all trees of a datagram mean the same |
| Grammar.Unambiguous | src/core/snmp_packet.cpp:32-365 | a datagram has at most one tree, down to the form of each length field and the slack octets, even among trees with longer length fields than the parser reads |
| Grammar.AcceptedForms | src/core/snmp_packet.cpp:186-203 | a text with length fields of any definite form is accepted if and only if its tree is well formed, so that none with a longer length field gets in by another reading |
| CodecProperties.EveryForm | src/core/snmp_packet.cpp:186-203 | any readable form at each length field, minimal or not, gives the message back |
| CodecProperties.WrappedLength | src/core/snmp_packet.cpp:172-173 | a wrapped length byte read as a long form over the version field never matches, except where it leaves the parser at the community's tag |
| CodecProperties.TooLarge | src/core/snmp_packet.cpp:171-173 | every message above 127 octets of contents is refused by the parser |
| CodecProperties.RoundTrip | src/core/snmp_packet.cpp:32-176 | printing then parsing gives all seven fields back if and only if the contents take at most 127 octets; the printed size |
| X690.FourGibibytes | src/core/snmp_packet.cpp:55-59 | no datagram of 2^32 + 6 octets or more is accepted |
| X690.X690Accepted | src/core/snmp_packet.cpp:178-288 | the X.690 encoding with minimal length octets is accepted if and only if its contents are below 2^32 octets, and read back as the message if and only if the request id is not a negative number that fits in three octets |
| X690.X690Read | src/core/snmp_packet.cpp:32-365 | every X.690 encoding of a message, minimal lengths or not, is accepted if and only if no length field has more than four octets after its count; all is read back, except that a negative id of one to three octets loses its sign |
| X690.IdRead | src/core/snmp_packet.cpp:212-230 | the id read denotes the signed number sent if and only if that fits in 32 bits and was not a negative in fewer than four octets |
| X690.ContentsUnique | src/core/snmp_packet.cpp:369-384 | section 8.3.2 of X.690 leaves one way to write each integer |
| X690.PrinterLengths | src/core/snmp_packet.cpp:141-173 | the printer writes minimal length octets if and only if the contents take at most 127 octets |
| X690.PrinterShortest | src/core/snmp_packet.cpp:367-384 | the output can be read as a message with integers in their shortest contents if and only if the contents take at most 127 octets and the request id needs its four |
| X690.PrinterIsX690 | src/core/snmp_packet.cpp:135-176 | the output is an X.690 encoding of the message, with length fields of any form, if and only if, besides, the version and the error fields are below 128 |
| CodecProperties.TextSplit | src/core/snmp_packet.cpp:123-132 | the octets the grammar lets be anything are the last of a datagram |
| CodecProperties.SlackIgnored | src/core/snmp_packet.cpp:123-132 | octets after the bindings and earlier field values change neither acceptance nor any field |
| CodecProperties.ReprintSize | src/core/snmp_packet.cpp:367-384 | reprinting an accepted datagram takes at most six octets more |
| CodecProperties.ReprintGrows | src/core/snmp_packet.cpp:227-270 | and the six are attained |
| CodecProperties.BindingsFitList | src/core/snmp_packet.cpp:295-316 | six octets per binding plus its OID and value fit in the declared list length |
| CodecProperties.EchoedOctets | src/core/snmp_packet.cpp:371-374 | a four-octet request id is printed as the same octets |
| CodecProperties.EchoedId | src/core/snmp_packet.cpp:227-230 | the printed id denotes the same signed INTEGER if and only if it fits in 32 bits and was not a negative in fewer than four octets |
| Mib.OfUInt32 | include/simple_snmpd/snmp_mib.hpp:53-58 | the four bytes of a 32-bit value denote it |
| Mib.OfUInt64 | include/simple_snmpd/snmp_mib.hpp:59-63 | the eight bytes pushed by the counting-down loop denote the 64-bit value |
| Mib.LessTransitive | include/simple_snmpd/snmp_mib.hpp:126-128 | the key order of the maps is transitive |
| Mib.LessIsLexicographic | include/simple_snmpd/snmp_mib.hpp:126-128 | one key is less than another exactly when it ends, or has the smaller octet, where they first differ |
| Mib.OctetDecides | include/simple_snmpd/snmp_mib.hpp:126-128 | a smaller octet decides whatever follows, and a key's continuations come after it |
| Mib.SubtreeTogether | include/simple_snmpd/snmp_mib.hpp:126-128 | all keys below a root come before any greater key outside |
| Mib.LessTotal | include/simple_snmpd/snmp_mib.hpp:126-128 | and total |
| Mib.NextExists | include/simple_snmpd/snmp_mib.hpp:108-109 | a next OID exists exactly when a greater one does, and is unique |
| Mib.NextConsumesOne | include/simple_snmpd/snmp_mib.hpp:108-109 | moving to it leaves exactly the other greater OIDs |
| Mib.MIBManager.GetValue | include/simple_snmpd/snmp_mib.hpp:106-106 | found exactly for OIDs that have a value, and then that value |
| Mib.MIBManager.GetNextOid | include/simple_snmpd/snmp_mib.hpp:108-109 | the least OID strictly greater in the order of `LessIsLexicographic`, or none |
| Mib.MIBManager.SetValue | include/simple_snmpd/snmp_mib.hpp:107-107 | stores at that OID or changes nothing, as the setter answers |
| Walk.WalkProgress | src/core/snmp_server.cpp:350-376 | while the OIDs stay the same, each round moves one OID from ahead to visited |
| Walk.WalkIncreases | src/core/snmp_server.cpp:353-356 | the OIDs returned strictly increase |
| Walk.WalkStops | src/core/snmp_server.cpp:368-373 | from the last OID on, the same OID with NULL |
| Walk.WalkVisitsAll | src/core/snmp_server.cpp:346-377 | while the OIDs stay the same and the values may change, a walk returns exactly the OIDs ahead of its start, once each, in increasing order, each with its value in that round, and then stays |
| Walk.ValuesDoNotSteer | src/core/snmp_server.cpp:350-376 | MIBs with the same OIDs give the same walk, whatever the values |
| Walk.SubtreeFirst | src/core/snmp_server.cpp:346-377 | a walk from a root returns the keys below it, all of them, before any other, and none of them later |
| Walk.WalkForward | src/core/snmp_server.cpp:350-376 | however the MIB changes, a walk never goes back |
| Walk.NoneMissed | src/core/snmp_server.cpp:346-377 | however the MIB changes, an OID that stays in it is either visited or still ahead, never both |
| Walk.ReachedInTime | src/core/snmp_server.cpp:346-377 | and is reached in no more rounds than there ever were OIDs from the start up to it |
| Walk.ColumnsIndependent | src/core/snmp_server.cpp:350-376 | every binding of a request walks on its own |
| SnmpServer.SNMPServer.ProcessGetRequest | src/core/snmp_server.cpp:320-344 | type, bindings and error fields of the reply, as a function of the MIB, the request's bindings and the prepared reply (`GetReply`, whose meaning is `GetAnswers`) |
| SnmpServer.SNMPServer.LookUpNext | src/core/snmp_server.cpp:353-373 | the binding for the next OID, with the branch for one without a value |
| SnmpServer.SNMPServer.ProcessGetNextRequest | src/core/snmp_server.cpp:346-377 | the reply gets, for each binding, the least greater OID and its value, and no error (`NextReply`, whose meaning is `NextAnswers`) |
| SnmpServer.SNMPServer.ProcessGetBulkRequest | src/core/snmp_server.cpp:379-416 | the index loop of GET-BULK adds the same bindings as the GET-NEXT loop, and no error (`NextAnswers`) |
| SnmpServer.SNMPServer.SetOne | src/core/snmp_server.cpp:436-486 | one binding of a SET: verdict, binding, error fields and MIB (`Judge`, whose meaning is `VerdictIs`) |
| SnmpServer.SNMPServer.ProcessSetRequest | src/core/snmp_server.cpp:418-488 | the reply and the MIB after the loop, denied writers included (`SetReply`, `SetEffect`, whose meaning is `SetAnswers`, `SetKeeps`, `LastWriterWins`) |
| SnmpServer.SNMPServer.Dispatch | src/core/snmp_server.cpp:266-314 | each PDU type and version reaches its branch; the reply and the MIB are those of that branch |
| SnmpServer.SNMPServer.ProcessSnmpRequest | src/core/snmp_server.cpp:225-318 | bytes are sent exactly when the rate, address and access gates are all open, and they encode the reply |
| SnmpServer.SNMPServer.HandleDatagram | src/core/snmp_server.cpp:187-208 | one turn of the receive loop: the bytes sent, if any, and the MIB |
| ServerProperties.GetAnswers | src/core/snmp_server.cpp:320-344 | the whole reply: same OIDs in order, each with its value or NULL; status 2 and the binding count mod 256 if one is absent, else 0 and 0 |
| ServerProperties.NextAnswers | src/core/snmp_server.cpp:346-416 | the whole reply to GET-NEXT and served GET-BULK: for each OID the least greater one with its value or NULL, or the same with NULL if none is greater; status and index 0 |
| ServerProperties.SetKeeps | src/core/snmp_server.cpp:432-487 | a SET keeps OIDs, scalars, the valued OIDs, and the value of every OID that is scalar, forbidden or not named |
| ServerProperties.LastWriterWins | src/core/snmp_server.cpp:462-467 | the last binding that wrote an OID decides its value |
| ServerProperties.UnwrittenKept | src/core/snmp_server.cpp:432-487 | an OID no binding wrote keeps its value |
| ServerProperties.VerdictIs | src/core/snmp_server.cpp:438-484 | exactly when a binding is refused with each code, and exactly when it is written: permitted, existing and not scalar by the MIB before the request, and accepted by its setter in the MIB the earlier bindings left |
| ServerProperties.NoCode | src/core/snmp_server.cpp:432-487 | no error code if and only if every binding was written |
| ServerProperties.CodeOfLastRefusal | src/core/snmp_server.cpp:432-487 | otherwise the code is that of the last binding refused |
| ServerProperties.SetAnswers | src/core/snmp_server.cpp:418-488 | the whole reply; denied: no bindings, status 6, MIB unchanged; otherwise each binding echoed or NULL, status 0 if and only if all were written, else the last refusal's code, index the binding count mod 256 |
| ServerProperties.SetStores | src/core/snmp_server.cpp:418-488 | end to end: an OID's value afterwards is that of the last binding that wrote it, or the one before |
| ServerProperties.UnservedAnswers | src/core/snmp_server.cpp:274-313 | the whole reply to everything else: GET-BULK in version 1, traps of either kind in each version, unknown types; nothing changes |
| ServerProperties.Answered | src/core/snmp_server.cpp:187-317 | end to end: an answer goes out if and only if the rate, address and access gates are all open; it is the printed reply, with the request's version, community and id, of type GetResponse exactly for the requests served and GetRequest for all others, traps included; when a parser reads it; and when the id keeps its sign |
| ServerProperties.ClosedGate | src/core/snmp_server.cpp:232-258 | one closed gate, and nothing is sent and nothing changes, whatever the datagram |
| ServerProperties.Unanswered | src/core/snmp_server.cpp:199-205 | a datagram outside the grammar gets no answer and changes nothing |
| ServerProperties.RoundExchanged | src/core/snmp_server.cpp:346-416 | one GET-NEXT or served GET-BULK round over the wire succeeds if and only if it is admitted and both messages take at most 127 octets; the message received is then the request with type GetResponse, no error and the next binding of every column |
| ServerProperties.SessionWalks | src/core/snmp_server.cpp:346-416 | any number of rounds over the wire, each on a MIB of its own, follow the walk if and only if every round is admitted and every message takes at most 127 octets; otherwise the session breaks off |
| ServerProperties.WalkAmidWriters | src/core/snmp_server.cpp:168-209 | while other managers send anything between rounds, a walk still returns all OIDs ahead, and every value that is scalar or that no admitted SET may have written as it was at the start |
| ServerProperties.HandledKeeps | src/core/snmp_server.cpp:225-318 | one datagram changes nothing but values that an admitted SET names and may write, and no scalar |
| ServerProperties.RunKeeps | src/core/snmp_server.cpp:168-209 | over any run: scalars never change, nothing is added or removed, other values change only through an admitted SET allowed to write them, as long as values do not change on their own |
| SnmpConfig.Find | src/core/snmp_config.cpp:49-64 | the first occurrence, or the length |
| SnmpConfig.SNMPConfig.constructor | src/core/snmp_config.cpp:27-30 | the eight defaults |
| SnmpConfig.SNMPConfig.ParseConfigValue | src/core/snmp_config.cpp:96-177 | the fields after one setting, and whether it is reported |
| SnmpConfig.SNMPConfig.Load | src/core/snmp_config.cpp:34-94 | the fields after a file, by the loop that edits line, key and value |
| ConfigProperties.LoadJoins | src/core/snmp_config.cpp:45-88 | loading two lists of lines is loading the second on top of the first |
| ConfigProperties.EmptyLine | src/core/snmp_config.cpp:48-61 | blank and comment lines are the identity |
| ConfigProperties.LineWithoutSign | src/core/snmp_config.cpp:48-70 | a line without '=' before its comment changes nothing |
| ConfigProperties.SettingLine | src/core/snmp_config.cpp:48-79 | spaces and tabs around key and value, line ends at the ends of the line and a trailing comment never change a setting's effect |
| ConfigProperties.PortUntouched | src/core/snmp_config.cpp:98-170 | without a readable number for it, a port keeps its value |
| ConfigProperties.FinalPort | src/core/snmp_config.cpp:98-170 | a port ends as the low 16 bits of the last readable number given for it, reported as invalid or not |
| ConfigProperties.OwnFieldOnly | src/core/snmp_config.cpp:96-177 | a setting changes its own field and no other |
| ConfigProperties.SettingsCommute | src/core/snmp_config.cpp:96-177 | settings of different keys commute |
| ConfigProperties.LinesSwap | src/core/snmp_config.cpp:45-88 | neighbouring lines that do not set the same key may change places |
| ConfigProperties.LogLevelLegal | src/core/snmp_config.cpp:139-149 | the log level stays one of the five names |
| ConfigProperties.PortCheck | src/core/snmp_config.cpp:98-167 | for both ports: the check accepts every number that is not a multiple of 65536, and is the range check exactly for numbers in range or multiples; 65537 passes as port 1 |
| ConfigProperties.ReportedValid | src/core/snmp_config.cpp:96-177 | exactly which settings are reported as valid, for all keys and values |
| ConfigProperties.LowerCase | src/core/snmp_config.cpp:140-141 | levels and switches are compared in lower case, letter by letter |
| ConfigProperties.CountCheck | src/core/snmp_config.cpp:112-138 | for both 32-bit settings: the check accepts every number but 0, and is "at least 1" exactly for numbers that are not negative; -1 passes as 4294967295 |
| ConfigProperties.InvalidYetStored | src/core/snmp_config.cpp:96-177 | exactly when a setting reported as invalid has changed a field |
| Lifecycle.StepKeeps | src/core/snmp_server.cpp:106-223 | every step of every thread keeps the invariant |
| Lifecycle.ThreadsAccounted | src/core/snmp_server.cpp:106-166 | between calls the workers and the server thread run or none does; spawned is joined plus held; start never overwrites a running thread; stop is idempotent |
| Lifecycle.QuietAfterStop | src/core/snmp_server.cpp:130-166 | after stop has returned nothing moves until the next start, except that a socket may be opened |
| Lifecycle.StartTwice | src/core/snmp_server.cpp:106-111 | start changes nothing while the server runs |
| Lifecycle.RequestsCounted | src/core/snmp_server.cpp:168-209 | over any run, requests handled and in hand are those that arrived: none is dropped, and no other datagram is handled |
| Lifecycle.IdleServerServes | src/core/snmp_server.cpp:168-209 | a server waiting on an open socket handles a request that arrives, drops a datagram that is none, and waits again |
| Lifecycle.DeafStays | src/core/snmp_server.cpp:106-142 | without a socket no request is handled, over any number of starts and stops, until initialize |
| Lifecycle.NothingServedAfterStop | src/core/snmp_server.cpp:106-209 | from the return of any stop, under any scheduling, no request is handled until initialize |
| Lifecycle.StuckMeans | src/core/snmp_server.cpp:139-155 | stop waits for a datagram exactly while it joins a server thread blocked in recvfrom that closing did not wake, the workers having returned |
| Lifecycle.StopCanReturn | src/core/snmp_server.cpp:130-176 | with no datagram arriving, some scheduling lets stop return if and only if closing wakes recvfrom or the server thread is not blocked in it |
| Lifecycle.StopMustReturn | src/core/snmp_server.cpp:130-176 | with no datagram arriving, no scheduling leaves stop waiting if and only if closing wakes recvfrom, or the server thread is neither blocked nor about to call recvfrom on an open socket |
| Lifecycle.OneDatagramFrees | src/core/snmp_server.cpp:168-209 | one datagram of whatever contents frees a blocked stop, under every scheduling |
| Lifecycle.IdleServerHangs | src/core/snmp_server.cpp:139-176 | stop called on an idle server never returns without a datagram, where closing does not wake recvfrom |
| Lifecycle.IdleServerReached | src/core/snmp_server.cpp:76-176 | initialize and start lead to such a server, for any number of workers |
| Lifecycle.StopEnds | src/core/snmp_server.cpp:130-223 | a run during which stop has not returned has a bounded number of steps under any scheduling and any arrivals, and handles at most one more request; when stop returns the socket is closed |

## Left out

- Sockets, Winsock, signals, what `initialize()` does beyond opening the socket, `main()` and the Windows service: I/O and plumbing; a datagram is a byte sequence in and an optional byte sequence out.
- Logging, error handling, platform helpers, metrics, health checks, memory pools and the unused thread pool: no effect on what is modelled.
- `MIBManager`, `OIDUtils`, `SecurityManager`, SNMPv3, USM and VACM implementations: their code is not part of this model; the interfaces are modelled as stated under Modelling notes.
- `SNMPConnection`: it repeats parse and serialize over a stream socket; the list of connections that `stop` closes is never filled.
- GET-BULK repetitions, simultaneous SET and the SNMPv1 Trap-PDU layout: the code does not implement them.
- The cut of datagrams at the receive buffer's 4096 octets, which happens before the model's datagram begins.
- Running out of memory while a buffer or string grows.
- Lifecycle.Step: start, stop, server_loop and worker_thread are steps on values and not methods of a class, because their threads interleave; `running_` and `server_socket_` are read and written in single steps, though the code leaves them unsynchronised; whether closing a socket wakes its readers is a parameter; `initialize()` always succeeds, since `main` ends the program when it fails, and is not called while a socket is open.
- SnmpConfig.SNMPConfig.Load: takes the file's lines, without modelling how getline splits a file; `std::stoi` is an arbitrary partial function and `tolower` is that of the C locale.
- Mib.MIBManager.SetValue: a setter's effects on other OIDs are not modelled, because the header does not say them.
- SnmpPacket.SNMPPacket.ParseVariableBindings: on failure the source's by-reference offset stands inside the binding that failed, and the model's at its start; no caller looks at it.
- X690.PrinterIsX690: whether the tags and the contents of variable bindings, which are copied as they come, conform to X.690 is not judged.
- X690.X690Accepted: the long form is written for any length, while section 8.1.3.5 of X.690 stops at 126 length octets, far above any `size_t`.
