/** The MIB as the server sees it: lookup, the least OID after a given one, and set. */
module Mib {
  import opened Octets
  import opened Packet

  type UInt64 = n: int | 0 <= n < 0x1_0000_0000_0000_0000

  datatype MibValue = MibValue(valueType: Byte, data: seq<Byte>)

  /** oids is what get_next_oid ranges over, values what get_value finds, scalars what
      is_scalar says yes to.  Nothing ties the three together. */
  datatype Mib = Mib(oids: set<Oid>, values: map<Oid, MibValue>, scalars: set<Oid>)

  // ------------------------------------------------------------ the order of std::map

  /** Lexicographic order of byte strings, a proper prefix coming first. */
  predicate Less(a: Oid, b: Oid) {
    b != [] && (a == [] || a[0] < b[0] || (a[0] == b[0] && Less(a[1..], b[1..])))
  }

  lemma {:induction false} LessIrreflexive(a: Oid)
    ensures !Less(a, a)
  {
    if a != [] {
      LessIrreflexive(a[1..]);
    }
  }

  lemma {:induction false} LessTransitive(a: Oid, b: Oid, c: Oid)
    requires Less(a, b) && Less(b, c)
    ensures Less(a, c)
  {
    if a != [] && a[0] == b[0] == c[0] {
      LessTransitive(a[1..], b[1..], c[1..]);
    }
  }

  lemma {:induction false} LessTotal(a: Oid, b: Oid)
    ensures a == b || Less(a, b) || Less(b, a)
  {
    if a != [] && b != [] && a[0] == b[0] {
      LessTotal(a[1..], b[1..]);
      assert a == [a[0]] + a[1..] && b == [b[0]] + b[1..];
    }
  }

  /** a comes before b where they first differ: a ends there, or has the smaller octet. */
  predicate SmallerAt(a: Oid, b: Oid, i: nat) {
    i <= |a| && i < |b| && a[..i] == b[..i] && (i == |a| || a[i] < b[i])
  }

  /** The order is the lexicographic one. */
  lemma {:induction false} LessIsLexicographic(a: Oid, b: Oid)
    ensures Less(a, b) <==> exists i: nat :: SmallerAt(a, b, i)
  {
    if b != [] && a != [] && a[0] == b[0] {
      LessIsLexicographic(a[1..], b[1..]);
      if i: nat :| SmallerAt(a[1..], b[1..], i) {
        assert a[..i + 1] == [a[0]] + a[1..][..i] && b[..i + 1] == [b[0]] + b[1..][..i];
        assert SmallerAt(a, b, i + 1);
      }
      if i: nat :| SmallerAt(a, b, i) {
        assert i > 0 && a[1..][..i - 1] == a[..i][1..] && b[1..][..i - 1] == b[..i][1..];
        assert SmallerAt(a[1..], b[1..], i - 1);
      }
    } else if b != [] && (a == [] || a[0] < b[0]) {
      assert SmallerAt(a, b, 0);
    } else {
      assert forall i: nat :: 0 < i <= |a| && i < |b| ==> a[..i][0] == a[0] && b[..i][0] == b[0];
    }
  }

  /** A smaller octet decides, whatever follows; and what continues an OID comes after it. */
  lemma OctetDecides(p: Oid, a: Byte, x: Oid, b: Byte, y: Oid)
    ensures a < b ==> Less(p + [a] + x, p + [b] + y)
    ensures x != [] ==> Less(p, p + x)
  {
    LessIsLexicographic(p + [a] + x, p + [b] + y);
    LessIsLexicographic(p, p + x);
    assert (p + [a] + x)[..|p|] == p == (p + [b] + y)[..|p|] == (p + x)[..|p|];
    assert a < b ==> SmallerAt(p + [a] + x, p + [b] + y, |p|);
    assert x != [] ==> SmallerAt(p, p + x, |p|);
  }

  /** The OIDs below a root lie together: what comes after the root and is not below it comes
      after all of them. */
  lemma SubtreeTogether(root: Oid, s: Oid, k: Oid)
    requires root <= s && !(root <= k) && Less(root, k)
    ensures Less(s, k)
  {
    LessIsLexicographic(root, k);
    LessIsLexicographic(s, k);
    assert root[..|root|] == root;
    var i: nat :| SmallerAt(root, k, i);
    if i < |root| {
      assert s[..i] == root[..i] && s[i] == root[i];
      assert SmallerAt(s, k, i);
    }
  }

  // ------------------------------------------------------------ the next OID

  /** The OIDs a walk from o has still to visit. */
  function After(oids: set<Oid>, o: Oid): set<Oid> {
    set k | k in oids && Less(o, k)
  }

  /** k is the least OID strictly greater than o. */
  predicate IsNext(oids: set<Oid>, o: Oid, k: Oid) {
    k in After(oids, o) && forall j :: j in After(oids, o) ==> j == k || Less(k, j)
  }

  ghost function Next(oids: set<Oid>, o: Oid): (r: Option<Oid>)
    ensures r.Some? ==> IsNext(oids, o, r.value)
  {
    if k :| IsNext(oids, o, k) then Some(k) else None
  }

  lemma {:induction false} Least(s: set<Oid>) returns (k: Oid)
    requires s != {}
    ensures k in s && forall j :: j in s ==> j == k || Less(k, j)
    decreases |s|
  {
    k :| k in s;
    if s != {k} {
      var rest := Least(s - {k});
      LessTotal(k, rest);
      if Less(rest, k) {
        k := rest;
      } else {
        forall j | j in s
          ensures j == k || Less(k, j)
        {
          if j != k && j != rest {
            LessTransitive(k, rest, j);
          }
        }
      }
    }
  }

  /** There is a next OID exactly when some OID is greater, and only one. */
  lemma NextExists(oids: set<Oid>, o: Oid)
    ensures Next(oids, o).None? <==> After(oids, o) == {}
    ensures forall k :: IsNext(oids, o, k) ==> Next(oids, o) == Some(k)
  {
    if After(oids, o) != {} {
      var k := Least(After(oids, o));
      assert IsNext(oids, o, k);
    }
    forall k | IsNext(oids, o, k)
      ensures Next(oids, o) == Some(k)
    {
      var n := Next(oids, o).value;
      if n != k {
        LessTransitive(n, k, n);
        LessIrreflexive(n);
      }
    }
  }

  /** Moving to the next OID leaves all of the others, and only those, to visit. */
  lemma NextConsumesOne(oids: set<Oid>, o: Oid)
    requires Next(oids, o).Some?
    ensures After(oids, o) == {Next(oids, o).value} + After(oids, Next(oids, o).value)
    ensures Next(oids, o).value !in After(oids, Next(oids, o).value)
  {
    var k := Next(oids, o).value;
    LessIrreflexive(k);
    forall j | j in After(oids, k)
      ensures j in After(oids, o)
    {
      LessTransitive(o, k, j);
    }
  }

  // ------------------------------------------------------------ the manager

  class MIBManager {
    var mib: Mib

    // What the registered setters answer; their code is not part of this model.
    const accepts: (Mib, Oid, MibValue) -> bool

    constructor (m: Mib, setters: (Mib, Oid, MibValue) -> bool)
      ensures mib == m && accepts == setters
    {
      mib, accepts := m, setters;
    }

    method GetValue(oid: Oid) returns (found: bool, value: MibValue)
      ensures found == (oid in mib.values)
      ensures found ==> value == mib.values[oid]
    {
      found, value := false, MibValue(TAG_NULL, []);
      if oid in mib.values {
        found, value := true, mib.values[oid];
      }
    }

    method GetNextOid(oid: Oid) returns (found: bool, next: Oid)
      ensures Next(mib.oids, oid) == if found then Some(next) else None
    {
      NextExists(mib.oids, oid);
      if k :| k in mib.oids && IsNext(mib.oids, oid, k) {
        found, next := true, k;
      } else {
        found, next := false, [];
      }
    }

    method IsScalar(oid: Oid) returns (r: bool)
      ensures r == (oid in mib.scalars)
    {
      r := oid in mib.scalars;
    }

    method SetValue(oid: Oid, value: MibValue) returns (ok: bool)
      modifies this
      ensures ok == accepts(old(mib), oid, value)
      ensures mib == if ok then Written(old(mib), oid, value) else old(mib)
    {
      ok := accepts(mib, oid, value);
      if ok {
        mib := Written(mib, oid, value);
      }
    }
  }

  function Written(m: Mib, oid: Oid, value: MibValue): Mib {
    m.(values := m.values[oid := value])
  }

  // ------------------------------------------------------------ integer values

  method OfUInt32(valueType: Byte, n: UInt32) returns (v: MibValue)
    ensures v.valueType == valueType && |v.data| == 4 && BigEndian(v.data) == n
  {
    FourDigits(n);
    FourOctets();
    DigitsValue(n, 4);
    v := MibValue(valueType, [n / 0x100_0000 % 0x100] + [n / 0x1_0000 % 0x100] + [n / 0x100 % 0x100] + [n % 0x100]);
    assert v.data == Digits(n, 4);
  }

  /** n >> 8 * i */
  function Shift(n: nat, i: nat): nat {
    if i == 0 then n else Shift(n, i - 1) / 0x100
  }

  lemma {:induction false} ShiftBound(n: nat, i: nat, k: nat)
    requires n < Pow256(k + i)
    ensures Shift(n, i) < Pow256(k)
  {
    if i > 0 {
      ShiftBound(n, i - 1, k + 1);
    }
  }

  method OfUInt64(valueType: Byte, n: UInt64) returns (v: MibValue)
    ensures v.valueType == valueType && |v.data| == 8 && BigEndian(v.data) == n
  {
    EightOctets();
    ShiftBound(n, 8, 0);
    var data: seq<Byte> := [];
    var i := 7;
    while i >= 0
      invariant -1 <= i <= 7 && |data| == 7 - i
      invariant BigEndian(data) == Shift(n, i + 1)
    {
      BigEndianPush(data, Shift(n, i) % 0x100);
      data := data + [Shift(n, i) % 0x100];
      i := i - 1;
    }
    v := MibValue(valueType, data);
  }

  lemma EightOctets()
    ensures Pow256(8) == 0x1_0000_0000_0000_0000 && Pow256(0) == 1
  {
    FourOctets();
    assert Pow256(8) == 256 * Pow256(7) && Pow256(7) == 256 * Pow256(6);
    assert Pow256(6) == 256 * Pow256(5) && Pow256(5) == 256 * Pow256(4);
  }
}
