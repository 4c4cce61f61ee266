/** What a manager talking to the server can rely on, request by request and over runs. */
module ServerProperties {
  import opened Octets
  import opened Packet
  import opened Decoder
  import opened Grammar
  import opened Encoder
  import opened CodecProperties
  import opened Mib
  import opened Processing
  import opened Walk

  // PDU types, versions, error codes and tags are written here as the numbers that go over
  // the wire.

  // ------------------------------------------------------------ GET

  /** v is the OID o with the MIB's value for it, or with NULL where it has none. */
  predicate HasValue(m: Mib, o: Oid, v: VarBind) {
    && v.oid == o
    && (o in m.values ==> MibValue(v.valueType, v.value) == m.values[o])
    && (o !in m.values ==> v.valueType == 0x05 && v.value == [])
  }

  lemma GetAnswers(p: Policy, s: Setters, m: Mib, q: Message)
    requires q.pduType == 0xA0
    ensures
      var r := Reply(p, s, m, q);
      var n := |q.varBinds|;
      var missing := exists i :: 0 <= i < n && q.varBinds[i].oid !in m.values;
      && |r.varBinds| == n && (forall i :: 0 <= i < n ==> HasValue(m, q.varBinds[i].oid, r.varBinds[i]))
      && r == Message(q.version, 0xA2, q.community, q.requestId,
                      if missing then 2 else 0, if missing then n % 256 else 0, r.varBinds)
  {
    hide HasValue;
    assert [] + GetBinds(m, q.varBinds) == GetBinds(m, q.varBinds);
    assert AnyMissing(m, q.varBinds) <==> exists i :: 0 <= i < |q.varBinds| && q.varBinds[i].oid !in m.values;
    forall i | 0 <= i < |q.varBinds|
      ensures HasValue(m, q.varBinds[i].oid, GetBinds(m, q.varBinds)[i])
    {
      FoundIs(m, q.varBinds[i].oid);
    }
  }

  lemma FoundIs(m: Mib, o: Oid)
    ensures HasValue(m, o, Found(m, o))
  {
  }

  // ------------------------------------------------------------ GET-NEXT and GET-BULK

  // The requests that are answered with the next bindings.
  predicate AsksNext(q: Message) {
    q.pduType == 0xA1 || (q.pduType == 0xA5 && (q.version == 1 || q.version == 3))
  }

  /** v is the least OID greater than o with its value, or o with NULL when none is greater. */
  predicate IsNextOf(m: Mib, o: Oid, v: VarBind) {
    if exists k :: k in m.oids && Less(o, k) then
      && v.oid in m.oids && Less(o, v.oid)
      && (forall k :: k in m.oids && Less(o, k) ==> k == v.oid || Less(v.oid, k))
      && HasValue(m, v.oid, v)
    else v == VarBind(o, 0x05, [])
  }

  lemma NextBindIs(m: Mib, o: Oid)
    ensures IsNextOf(m, o, NextBind(m, o))
  {
    hide Less;
    NextExists(m.oids, o);
    if k :| k in m.oids && Less(o, k) {
      assert k in After(m.oids, o);
      assert IsNext(m.oids, o, NextBind(m, o).oid);
      assert forall j :: j in m.oids && Less(o, j) ==> j in After(m.oids, o);
    } else {
      assert After(m.oids, o) == {};
    }
  }

  /** GET-NEXT, and GET-BULK where the version allows it, are answered without an error, with
      the next OID and its value for each of the request's, in order. */
  lemma NextAnswers(p: Policy, s: Setters, m: Mib, q: Message)
    requires AsksNext(q)
    ensures
      var r := Reply(p, s, m, q);
      && |r.varBinds| == |q.varBinds|
      && (forall i :: 0 <= i < |q.varBinds| ==> IsNextOf(m, q.varBinds[i].oid, r.varBinds[i]))
      && r == Message(q.version, 0xA2, q.community, q.requestId, 0, 0, r.varBinds)
      && r.varBinds == NextBinds(m, q.varBinds)
  {
    hide IsNextOf, NextBind;
    assert [] + NextBinds(m, q.varBinds) == NextBinds(m, q.varBinds);
    forall i | 0 <= i < |q.varBinds|
      ensures IsNextOf(m, q.varBinds[i].oid, NextBind(m, q.varBinds[i].oid))
    {
      NextBindIs(m, q.varBinds[i].oid);
    }
  }

  // ------------------------------------------------------------ SET

  /** Binding i of a SET changes the MIB. */
  predicate Writes(c: Context, m: Mib, vs: seq<VarBind>, i: nat)
    requires i < |vs|
  {
    VerdictAt(c, m, vs, i).Accepted?
  }

  /** Of the first n bindings, i is the last that writes o. */
  predicate IsLastWrite(c: Context, m: Mib, vs: seq<VarBind>, n: nat, o: Oid, i: nat)
    requires i < n <= |vs|
  {
    && vs[i].oid == o && Writes(c, m, vs, i)
    && forall j: nat :: i < j < n && vs[j].oid == o ==> !Writes(c, m, vs, j)
  }

  predicate IsLastRefusal(c: Context, m: Mib, vs: seq<VarBind>, n: nat, i: nat)
    requires i < n <= |vs|
  {
    !Writes(c, m, vs, i) && forall j: nat :: i < j < n ==> Writes(c, m, vs, j)
  }

  predicate Names(vs: seq<VarBind>, o: Oid) {
    exists i :: 0 <= i < |vs| && vs[i].oid == o
  }

  predicate OutOfReach(c: Context, m: Mib, vs: seq<VarBind>, o: Oid) {
    o in m.scalars || !c.policy.oidAllowed(c.community, o) || !Names(vs, o)
  }

  /** Whatever a SET contains, the MIB keeps its OIDs, its scalars and the set of OIDs that
      have a value, and the value of every OID that is a scalar, is forbidden to the
      community, or is not named. */
  lemma {:induction false} SetKeeps(c: Context, m: Mib, vs: seq<VarBind>, n: nat)
    requires n <= |vs|
    ensures
      var after := Settled(c, m, vs, n);
      && after.oids == m.oids && after.scalars == m.scalars && after.values.Keys == m.values.Keys
      && forall o :: o in m.values && OutOfReach(c, m, vs, o) ==> after.values[o] == m.values[o]
  {
    if n > 0 {
      SetKeeps(c, m, vs, n - 1);
    }
  }

  /** The last binding that wrote an OID decides its value. */
  lemma {:induction false} LastWriterWins(c: Context, m: Mib, vs: seq<VarBind>, n: nat, o: Oid, i: nat)
    requires i < n <= |vs| && IsLastWrite(c, m, vs, n, o, i)
    ensures o in Settled(c, m, vs, n).values
    ensures Settled(c, m, vs, n).values[o] == MibValue(vs[i].valueType, vs[i].value)
  {
    if i < n - 1 {
      assert vs[n - 1].oid == o ==> !Writes(c, m, vs, n - 1);
      assert IsLastWrite(c, m, vs, n - 1, o, i);
      LastWriterWins(c, m, vs, n - 1, o, i);
    }
  }

  /** An OID that no binding wrote keeps its value. */
  lemma {:induction false} UnwrittenKept(c: Context, m: Mib, vs: seq<VarBind>, n: nat, o: Oid)
    requires n <= |vs| && o in m.values
    requires forall i: nat :: i < n && vs[i].oid == o ==> !Writes(c, m, vs, i)
    ensures o in Settled(c, m, vs, n).values && Settled(c, m, vs, n).values[o] == m.values[o]
  {
    if n > 0 {
      UnwrittenKept(c, m, vs, n - 1, o);
      assert vs[n - 1].oid == o ==> !Writes(c, m, vs, n - 1);
    }
  }

  /** What becomes of a binding: it is refused for access, existence or as read-only by the
      MIB before the request, whatever earlier bindings wrote; and otherwise written or
      refused as a wrong value, as the setter answers in the MIB they left. */
  lemma VerdictIs(c: Context, m: Mib, vs: seq<VarBind>, i: nat)
    requires i < |vs|
    ensures
      var o := vs[i].oid;
      var allowed := c.policy.oidAllowed(c.community, o);
      var setter := c.setters(Settled(c, m, vs, i), o, MibValue(vs[i].valueType, vs[i].value));
      var verdict := VerdictAt(c, m, vs, i);
      && (verdict == Refused(6) <==> !allowed)
      && (verdict == Refused(2) <==> allowed && o !in m.values)
      && (verdict == Refused(4) <==> allowed && o in m.values && o in m.scalars)
      && (verdict == Refused(10) <==> allowed && o in m.values && o !in m.scalars && !setter)
      && (Writes(c, m, vs, i) <==> allowed && o in m.values && o !in m.scalars && setter)
  {
    SetKeeps(c, m, vs, i);
  }

  /** No code means that everything was written. */
  lemma {:induction false} NoCode(c: Context, m: Mib, vs: seq<VarBind>, n: nat)
    requires n <= |vs|
    ensures LastCode(c, m, vs, n) == 0 <==> forall i: nat :: i < n ==> Writes(c, m, vs, i)
  {
    hide Judge, Settled;
    if n > 0 {
      NoCode(c, m, vs, n - 1);
      SetStep(c, m, vs, n - 1);
      assert Writes(c, m, vs, n - 1) == VerdictAt(c, m, vs, n - 1).Accepted?;
      assert (forall i: nat :: i < n ==> Writes(c, m, vs, i)) <==>
        (forall i: nat :: i < n - 1 ==> Writes(c, m, vs, i)) && Writes(c, m, vs, n - 1);
    }
  }

  /** Otherwise the code is that of the last binding refused. */
  lemma {:induction false} CodeOfLastRefusal(c: Context, m: Mib, vs: seq<VarBind>, n: nat, i: nat)
    requires i < n <= |vs| && IsLastRefusal(c, m, vs, n, i)
    ensures VerdictAt(c, m, vs, i) == Refused(LastCode(c, m, vs, n))
  {
    hide Judge, Settled;
    if i < n - 1 {
      assert Writes(c, m, vs, n - 1);
      assert IsLastRefusal(c, m, vs, n - 1, i);
      CodeOfLastRefusal(c, m, vs, n - 1, i);
    }
  }

  /** The reply to a SET: nothing but the error when the community may not write; otherwise
      one binding for each in the request, echoed if it was written and NULL if not, with
      the last refusal's code and the number of bindings as the error. */
  lemma SetAnswers(p: Policy, s: Setters, m: Mib, q: Message)
    requires q.pduType == 0xA3
    ensures
      var c := Context(p, s, q.community);
      var r := Reply(p, s, m, q);
      var n := |q.varBinds|;
      if !p.writeAllowed(q.community) then
        r == Message(q.version, 0xA2, q.community, q.requestId, 6, 0, []) && Effect(p, s, m, q) == m
      else
        && r == Message(q.version, 0xA2, q.community, q.requestId, r.errorStatus, r.errorIndex, r.varBinds)
        && Effect(p, s, m, q) == Settled(c, m, q.varBinds, n)
        && |r.varBinds| == n
        && (forall i :: 0 <= i < n ==>
            r.varBinds[i] ==
            if Writes(c, m, q.varBinds, i) then q.varBinds[i] else VarBind(q.varBinds[i].oid, 0x05, []))
        && (r.errorStatus == 0 <==> forall i: nat :: i < n ==> Writes(c, m, q.varBinds, i))
        && r.errorIndex == (if r.errorStatus == 0 then 0 else n % 0x100)
        && (forall i: nat :: i < n && IsLastRefusal(c, m, q.varBinds, n, i) ==>
            VerdictAt(c, m, q.varBinds, i) == Refused(r.errorStatus))
  {
    hide Settled, VerdictAt, LastCode;
    var c := Context(p, s, q.community);
    var n := |q.varBinds|;
    NoCode(c, m, q.varBinds, n);
    forall i: nat | i < n && IsLastRefusal(c, m, q.varBinds, n, i)
      ensures VerdictAt(c, m, q.varBinds, i) == Refused(LastCode(c, m, q.varBinds, n))
    {
      CodeOfLastRefusal(c, m, q.varBinds, n, i);
    }
    assert [] + SetBinds(c, m, q.varBinds, |q.varBinds|) == SetBinds(c, m, q.varBinds, |q.varBinds|);
  }

  // ------------------------------------------------------------ every reply

  /** GET, GET-NEXT, SET, and GET-BULK in versions 2c and 3. */
  predicate Served(q: Message) {
    q.pduType == 0xA0 || q.pduType == 0xA3 || AsksNext(q)
  }

  /** The traps the server takes note of: of version 1, and of version 2c. */
  predicate Trap(q: Message) {
    (q.pduType == 0xA4 && q.version == 0) || (q.pduType == 0xA7 && q.version == 1)
  }

  /** All other requests are answered with no bindings, under the type of a GET request, with
      status 0 for the traps and noSuchName for the rest, and change nothing. */
  lemma UnservedAnswers(p: Policy, s: Setters, m: Mib, q: Message)
    requires !Served(q)
    ensures
      Reply(p, s, m, q) == Message(q.version, 0xA0, q.community, q.requestId, if Trap(q) then 0 else 2, 0, [])
    ensures Effect(p, s, m, q) == m
  {
  }

  lemma ReplyType(p: Policy, s: Setters, m: Mib, q: Message)
    ensures Reply(p, s, m, q).pduType == if Served(q) then 0xA2 else 0xA0
  {
  }

  /** The end-to-end path of a datagram, written as a syntax tree.  An answer goes out
      exactly when the gates admit the sender, and it is the printed reply.  That carries
      the version, the community and the parsed request id back, under the type GetResponse
      if the request was served and GetRequest if not; a manager's parser reads it if its
      contents take at most 127 octets and refuses it otherwise; and the id it shows
      denotes the number that was sent exactly when that fits in 32 bits and was not a
      negative number in fewer than four octets. */
  lemma Answered(p: Policy, s: Setters, m: Mib, t: MessageTree, before: Message)
    requires WellFormed(t)
    ensures
      var q := Meaning(t);
      var reply := Reply(p, s, m, q);
      var sent := Handled(p, s, m, Text(t)).0;
      && (sent.Some? <==> p.rateOk && p.ipAllowed && p.accessAllowed(q.community))
      && reply.version == t.version && reply.community == t.community
      && reply.requestId == q.requestId == BigEndian(t.id) % 0x1_0000_0000
      && reply.pduType == (if Served(q) then 0xA2 else 0xA0)
      && (sent.Some? ==>
          && sent.value == Encode(reply)
          && (DecodeMessage(sent.value, before).ok <==> Size(reply) <= 127)
          && (Size(reply) <= 127 ==> DecodeMessage(sent.value, before).message == reply)
          && (|t.id| == 4 ==> Digits(reply.requestId, 4) == t.id)
          && (Signed(Digits(reply.requestId, 4)) == Signed(t.id) <==>
              -0x8000_0000 <= Signed(t.id) < 0x8000_0000 && (|t.id| >= 4 || Signed(t.id) >= 0)))
  {
    hide DecodeMessage, Encode, Text, WellFormed, Signed, Digits, BigEndian, Size, GetBinds, NextBinds,
      SetBinds, AnyMissing, LastCode, BindMeanings;
    var q := Meaning(t);
    Complete(t, FRESH);
    RoundTrip(Reply(p, s, m, q), before);
    ReplyType(p, s, m, q);
    EchoedId(t.id);
    if |t.id| == 4 {
      EchoedOctets(t.id);
    }
  }

  /** One closed gate is enough: whatever the datagram, nothing is sent and nothing changes. */
  lemma ClosedGate(p: Policy, s: Setters, m: Mib, b: seq<Byte>)
    ensures !p.rateOk || !p.ipAllowed ==> Handled(p, s, m, b) == (None, m)
    ensures (forall c :: !p.accessAllowed(c)) ==> Handled(p, s, m, b) == (None, m)
    ensures !p.accessAllowed(DecodeMessage(b, FRESH).message.community) ==> Handled(p, s, m, b) == (None, m)
  {
    hide DecodeMessage, Encode, Reply, Effect;
  }

  /** What a SET leaves behind, end to end: the value of an OID is that of the last binding
      that wrote it, or the one before where none did or the community may not write. */
  lemma SetStores(p: Policy, s: Setters, m: Mib, t: MessageTree, o: Oid, i: nat)
    requires WellFormed(t) && t.pduType == 0xA3 && o in m.values
    requires p.rateOk && p.ipAllowed && p.accessAllowed(t.community)
    ensures
      var c := Context(p, s, t.community);
      var vs := Meaning(t).varBinds;
      var after := Handled(p, s, m, Text(t)).1;
      && after.oids == m.oids && after.scalars == m.scalars && after.values.Keys == m.values.Keys
      && (!p.writeAllowed(t.community) ==> after == m)
      && (p.writeAllowed(t.community) && i < |vs| && IsLastWrite(c, m, vs, |vs|, o, i) ==>
          after.values[o] == MibValue(vs[i].valueType, vs[i].value))
      && ((forall j: nat :: j < |vs| && vs[j].oid == o ==> !Writes(c, m, vs, j)) ==> after.values[o] == m.values[o])
  {
    hide DecodeMessage, Encode, Text, WellFormed, Reply, Settled, Writes, IsLastWrite, BindMeanings, BigEndian;
    var c := Context(p, s, t.community);
    var vs := Meaning(t).varBinds;
    Complete(t, FRESH);
    SetKeeps(c, m, vs, |vs|);
    if p.writeAllowed(t.community) {
      if i < |vs| && IsLastWrite(c, m, vs, |vs|, o, i) {
        LastWriterWins(c, m, vs, |vs|, o, i);
      }
      if forall j: nat :: j < |vs| && vs[j].oid == o ==> !Writes(c, m, vs, j) {
        UnwrittenKept(c, m, vs, |vs|, o);
      }
    }
  }

  /** A datagram that is not a text of the grammar gets no answer and changes nothing. */
  lemma Unanswered(p: Policy, s: Setters, m: Mib, b: seq<Byte>)
    requires !exists t :: WellFormed(t) && Text(t) == b
    ensures Handled(p, s, m, b) == (None, m)
  {
    hide WellFormed, Text, DecodeMessage;
    Language(b, FRESH);
  }

  /** What a manager reads of the answer to the request it sends, if there is one. */
  ghost function Exchange(p: Policy, s: Setters, m: Mib, q: Message): Option<Message> {
    match Handled(p, s, m, Encode(q)).0
    case None => None
    case Some(b) =>
      var r := DecodeMessage(b, FRESH);
      if r.ok then Some(r.message) else None
  }

  /** The bindings a manager holds after n rounds of sending back those it received, ps
      being the security manager's answers and ms the MIBs, round by round; none if a round
      failed. */
  ghost function Session(ps: nat -> Policy, s: Setters, ms: nat -> Mib, q: Message, n: nat): Option<seq<VarBind>> {
    if n == 0 then Some(q.varBinds)
    else
      match Session(ps, s, ms, q, n - 1)
      case None => None
      case Some(vs) =>
        match Exchange(ps(n - 1), s, ms(n - 1), q.(varBinds := vs))
        case None => None
        case Some(r) => Some(r.varBinds)
  }

  /** The messages of the first n rounds of a walk are small enough for the printer: the
      requests of the rounds and their answers, whose sizes are those of the next requests. */
  ghost predicate SmallRounds(ms: nat -> Mib, q: Message, n: nat) {
    forall k: nat :: k <= n ==> Size(q.(varBinds := Polled(ms, q.varBinds, k))) <= 127
  }

  ghost predicate AdmittedRounds(ps: nat -> Policy, q: Message, n: nat) {
    forall k: nat :: k < n ==> Admitted(ps(k), q)
  }

  /** One round over the wire succeeds exactly when the gates admit the manager and both
      messages are small enough for the printer, and then returns the next bindings. */
  lemma RoundExchanged(p: Policy, s: Setters, m: Mib, q: Message)
    requires AsksNext(q)
    ensures
      var r := Exchange(p, s, m, q);
      && (r.Some? <==>
          Admitted(p, q) && Size(q) <= 127 && Size(q.(varBinds := NextBinds(m, q.varBinds))) <= 127)
      && (r.Some? ==>
          r.value == Message(q.version, 0xA2, q.community, q.requestId, 0, 0, NextBinds(m, q.varBinds)))
  {
    hide DecodeMessage, Encode, BindsWeight;
    NextAnswers(p, s, m, q);
    var reply := Reply(p, s, m, q);
    RoundTrip(q, FRESH);
    RoundTrip(reply, FRESH);
  }

  /** A walk over the wire, printed and parsed at both ends in every round, is the walk of
      the MIBs of its rounds for as long as every round is admitted and every message is small enough
      for the printer, and breaks off for good in the first round where one is not. */
  lemma {:induction false} SessionWalks(ps: nat -> Policy, s: Setters, ms: nat -> Mib, q: Message, n: nat)
    requires AsksNext(q)
    ensures n > 0 ==> (Session(ps, s, ms, q, n).Some? <==> AdmittedRounds(ps, q, n) && SmallRounds(ms, q, n))
    ensures Session(ps, s, ms, q, n).Some? ==> Session(ps, s, ms, q, n).value == Polled(ms, q.varBinds, n)
  {
    hide Exchange, NextBinds, Size;
    if n > 0 {
      SessionWalks(ps, s, ms, q, n - 1);
      var now := q.(varBinds := Polled(ms, q.varBinds, n - 1));
      RoundExchanged(ps(n - 1), s, ms(n - 1), now);
      RoundsGrow(ps, ms, q, n);
    }
  }

  lemma RoundsGrow(ps: nat -> Policy, ms: nat -> Mib, q: Message, n: nat)
    requires n > 0
    ensures AdmittedRounds(ps, q, n) <==> AdmittedRounds(ps, q, n - 1) && Admitted(ps(n - 1), q)
    ensures SmallRounds(ms, q, n) <==>
      SmallRounds(ms, q, n - 1) && Size(q.(varBinds := Polled(ms, q.varBinds, n))) <= 127
    ensures n == 1 ==> (SmallRounds(ms, q, 0) <==> Size(q) <= 127)
    ensures SmallRounds(ms, q, n - 1) ==> Size(q.(varBinds := Polled(ms, q.varBinds, n - 1))) <= 127
  {
    hide Size, NextBinds, Admitted;
    assert q.(varBinds := Polled(ms, q.varBinds, 0)) == q;
  }

  // ------------------------------------------------------------ runs

  // A datagram and what the security manager and the setters answer while it is handled.
  datatype Event = Event(policy: Policy, setters: Setters, datagram: seq<Byte>)

  ghost function Run(m: Mib, events: seq<Event>): Mib
    decreases |events|
  {
    if events == [] then m
    else Run(Handled(events[0].policy, events[0].setters, m, events[0].datagram).1, events[1..])
  }

  /** e is an admitted SET from a community that may write. */
  predicate MayWrite(e: Event) {
    var r := DecodeMessage(e.datagram, FRESH);
    && r.ok && r.message.pduType == 0xA3
    && Admitted(e.policy, r.message) && e.policy.writeAllowed(r.message.community)
  }

  /** e is an admitted SET that names o and whose community may write o. */
  predicate MayWriteOid(e: Event, o: Oid) {
    var q := DecodeMessage(e.datagram, FRESH).message;
    MayWrite(e) && e.policy.oidAllowed(q.community, o) && Names(q.varBinds, o)
  }

  // o is scalar, or none of the events is such a SET.
  predicate Untouched(m: Mib, events: seq<Event>, o: Oid) {
    o in m.scalars || forall i :: 0 <= i < |events| ==> !MayWriteOid(events[i], o)
  }

  lemma HandledKeeps(e: Event, m: Mib)
    ensures
      var after := Handled(e.policy, e.setters, m, e.datagram).1;
      && after.oids == m.oids && after.scalars == m.scalars && after.values.Keys == m.values.Keys
      && (!MayWrite(e) ==> after == m)
      && forall o :: o in m.values && (o in m.scalars || !MayWriteOid(e, o)) ==> after.values[o] == m.values[o]
  {
    hide DecodeMessage, Settled, Names, Encode, Reply;
    var q := DecodeMessage(e.datagram, FRESH).message;
    SetKeeps(Context(e.policy, e.setters, q.community), m, q.varBinds, |q.varBinds|);
  }

  /** Over any run of datagrams, well formed or not, and whatever the security manager and
      the setters answer: no scalar ever changes, nothing is added or removed, and a value
      changes only if some admitted SET from a community that may write its OID names it. */
  lemma {:induction false} RunKeeps(m: Mib, events: seq<Event>)
    ensures
      var after := Run(m, events);
      && after.oids == m.oids && after.scalars == m.scalars && after.values.Keys == m.values.Keys
      && ((forall i :: 0 <= i < |events| ==> !MayWrite(events[i])) ==> after == m)
      && forall o :: o in m.values && Untouched(m, events, o) ==> after.values[o] == m.values[o]
    decreases |events|
  {
    hide Handled, MayWrite, MayWriteOid;
    if events != [] {
      var e := events[0];
      HandledKeeps(e, m);
      var next := Handled(e.policy, e.setters, m, e.datagram).1;
      RunKeeps(next, events[1..]);
      assert forall i :: 0 <= i < |events| - 1 ==> events[1..][i] == events[i + 1];
    }
  }

  /** A walk while other managers send whatever they like: runs(k) is what the server has
      handled before round k.  It returns the OIDs ahead of its start as if it were alone,
      and with the value at its beginning each one that is scalar or that no admitted SET
      before that round may have written. */
  lemma WalkAmidWriters(m: Mib, runs: nat -> seq<Event>, ms: nat -> Mib, o: Oid)
    requires forall k: nat :: ms(k) == Run(m, runs(k))
    ensures
      var total := |After(m.oids, o)|;
      && Steady(ms, m.oids)
      && Visited(ms, o, total) == After(m.oids, o)
      && (forall n: nat :: n < total && Untouched(m, runs(n), WalkTo(ms, o, n + 1)) ==>
          NextBind(ms(n), WalkTo(ms, o, n)) == Found(m, WalkTo(ms, o, n + 1)))
      && (forall n: nat :: n >= total ==> NextBind(ms(n), WalkTo(ms, o, n)) == NullBind(WalkTo(ms, o, total)))
  {
    hide Run, MayWriteOid, MayWrite, WalkTo, Visited, After, NextBind;
    forall k: nat
      ensures ms(k).oids == m.oids
    {
      RunKeeps(m, runs(k));
    }
    WalkVisitsAll(ms, m.oids, o);
    forall n: nat | n < |After(m.oids, o)| && Untouched(m, runs(n), WalkTo(ms, o, n + 1))
      ensures NextBind(ms(n), WalkTo(ms, o, n)) == Found(m, WalkTo(ms, o, n + 1))
    {
      RunKeeps(m, runs(n));
    }
  }
}
