/** Interrupt-controller tables written byte by byte from typed records, and that reading such a
    table gives the records back. */
module MadtTables {
  import opened Madt

  /** The records of a table, laid out as the packed structures that the kernel reads them with. */
  datatype Rec =
    | CpuRec(procId: Byte, apicId: Byte, flags: nat)
    | IoApicRec(id: Byte, addr: nat, base: nat)
    | IsoRec(bus: Byte, source: Byte, gsi: nat, flags: nat)
    | NmiRec(number: Byte, flags: nat, gsi: nat)
    | LapicNmiRec(procId: Byte, flags: nat, lint: Byte)
    | LapicRec(addr: nat)
    | OtherRec(kind: Byte, body: seq<Byte>)

  /** The fields fit their widths; other records have types of their own and one-byte lengths. */
  predicate Fits(r: Rec) {
    match r
    case CpuRec(_, _, flags) => flags < 0x1_0000_0000
    case IoApicRec(_, addr, base) => addr < 0x1_0000_0000 && base < 0x1_0000_0000
    case IsoRec(_, _, gsi, flags) => gsi < 0x1_0000_0000 && flags < 0x1_0000
    case NmiRec(_, flags, gsi) => flags < 0x1_0000 && gsi < 0x1_0000_0000
    case LapicNmiRec(_, flags, _) => flags < 0x1_0000
    case LapicRec(addr) => addr < 0x1_0000_0000_0000_0000
    case OtherRec(kind, body) => kind > 5 && |body| <= 253
  }

  function Le16(x: nat): (b: seq<Byte>)
    requires x < 0x1_0000
    ensures |b| == 2
  {
    [x % 0x100, x / 0x100]
  }

  function Le32(x: nat): (b: seq<Byte>)
    requires x < 0x1_0000_0000
    ensures |b| == 4
  {
    Le16(x % 0x1_0000) + Le16(x / 0x1_0000)
  }

  function Le64(x: nat): (b: seq<Byte>)
    requires x < 0x1_0000_0000_0000_0000
    ensures |b| == 8
  {
    Le32(x % 0x1_0000_0000) + Le32(x / 0x1_0000_0000)
  }

  function Kind(r: Rec): nat {
    match r
    case CpuRec(_, _, _) => 0
    case IoApicRec(_, _, _) => 1
    case IsoRec(_, _, _, _) => 2
    case NmiRec(_, _, _) => 3
    case LapicNmiRec(_, _, _) => 4
    case LapicRec(_) => 5
    case OtherRec(kind, _) => kind
  }

  function Encode(r: Rec): (b: seq<Byte>)
    requires Fits(r)
    ensures 2 <= |b| < 256 && b[0] == Kind(r) && b[1] == |b|
  {
    match r
    case CpuRec(procId, apicId, flags) => [0, 8, procId, apicId] + Le32(flags)
    case IoApicRec(id, addr, base) => [1, 12, id, 0] + Le32(addr) + Le32(base)
    case IsoRec(bus, source, gsi, flags) => [2, 10, bus, source] + Le32(gsi) + Le16(flags)
    case NmiRec(number, flags, gsi) => [3, 10, number, 0] + Le16(flags) + Le32(gsi)
    case LapicNmiRec(procId, flags, lint) => [4, 6, procId] + Le16(flags) + [lint]
    case LapicRec(addr) => [5, 12, 0, 0] + Le64(addr)
    case OtherRec(kind, body) => [kind, 2 + |body|] + body
  }

  predicate AllFit(rs: seq<Rec>) { forall i | 0 <= i < |rs| :: Fits(rs[i]) }

  function EncodeAll(rs: seq<Rec>): (b: seq<Byte>)
    requires AllFit(rs)
  {
    if |rs| == 0 then [] else Encode(rs[0]) + EncodeAll(rs[1..])
  }

  // ---------------------------------------------------------------- fields

  /** The bytes b stand in memory at p. */
  predicate Stands(mem: seq<Byte>, p: nat, b: seq<Byte>) { p + |b| <= |mem| && mem[p..p + |b|] == b }

  lemma StandsAt(mem: seq<Byte>, p: nat, b: seq<Byte>, k: nat)
    requires Stands(mem, p, b) && k < |b|
    ensures mem[p + k] == b[k]
  {
    assert mem[p..p + |b|][k] == mem[p + k];
  }

  lemma StandsParts(mem: seq<Byte>, p: nat, a: seq<Byte>, b: seq<Byte>)
    ensures Stands(mem, p, a + b) <==> Stands(mem, p, a) && Stands(mem, p + |a|, b)
  {
    if p + |a| + |b| <= |mem| {
      var m := mem[p..p + |a| + |b|];
      assert m[..|a|] == mem[p..p + |a|] && m[|a|..] == mem[p + |a|..p + |a| + |b|];
      assert m == m[..|a|] + m[|a|..] && (a + b)[..|a|] == a && (a + b)[|a|..] == b;
    }
  }

  lemma Read16(mem: seq<Byte>, p: nat, x: nat)
    requires x < 0x1_0000 && Stands(mem, p, Le16(x))
    ensures U16(mem, p) == x
  {
    StandsAt(mem, p, Le16(x), 0);
    StandsAt(mem, p, Le16(x), 1);
  }

  lemma Read32(mem: seq<Byte>, p: nat, x: nat)
    requires x < 0x1_0000_0000 && Stands(mem, p, Le32(x))
    ensures U32(mem, p) == x
  {
    StandsParts(mem, p, Le16(x % 0x1_0000), Le16(x / 0x1_0000));
    Read16(mem, p, x % 0x1_0000);
    Read16(mem, p + 2, x / 0x1_0000);
  }

  lemma Read64(mem: seq<Byte>, p: nat, x: nat)
    requires x < 0x1_0000_0000_0000_0000 && Stands(mem, p, Le64(x))
    ensures U64(mem, p) == x
  {
    StandsParts(mem, p, Le32(x % 0x1_0000_0000), Le32(x / 0x1_0000_0000));
    Read32(mem, p, x % 0x1_0000_0000);
    Read32(mem, p + 4, x / 0x1_0000_0000);
  }

  // ---------------------------------------------------------------- one record

  /** What each reader makes of a record of its type. The processor id is the one field not given
      back: the interrupt controller's id is read in its place. */
  lemma ReadRecord(mem: seq<Byte>, p: nat, r: Rec)
    requires Fits(r) && Stands(mem, p, Encode(r)) && p + 12 <= |mem|
    ensures mem[p] == Kind(r) && mem[p + 1] == |Encode(r)|
    ensures match r
            case CpuRec(_, apicId, flags) => CpuAt(mem, p) == Cpu(apicId, apicId, flags)
            case IoApicRec(id, addr, base) => IoApicAt(mem, p) == IoApic(id, addr, base)
            case IsoRec(bus, source, gsi, flags) => IsoAt(mem, p) == Iso(bus, source, gsi, flags)
            case NmiRec(_, flags, gsi) => NmiAt(mem, p) == Nmi(gsi, flags)
            case LapicNmiRec(procId, flags, lint) => LapicNmiAt(mem, p) == LapicNmi(procId, lint, flags)
            case LapicRec(addr) => U64(mem, p + 4) == addr
            case OtherRec(_, _) => true
  {
    hide Stands, U16, U32, U64, Le16, Le32, Le64;
    StandsAt(mem, p, Encode(r), 0);
    StandsAt(mem, p, Encode(r), 1);
    match r {
      case CpuRec(procId, apicId, flags) =>
        StandsAt(mem, p, Encode(r), 3);
        StandsParts(mem, p, [0, 8, procId, apicId], Le32(flags));
        Read32(mem, p + 4, flags);
      case IoApicRec(id, addr, base) => ReadIoApic(mem, p, id, addr, base);
      case IsoRec(bus, source, gsi, flags) => ReadIso(mem, p, bus, source, gsi, flags);
      case NmiRec(number, flags, gsi) =>
        StandsParts(mem, p, [3, 10, number, 0] + Le16(flags), Le32(gsi));
        StandsParts(mem, p, [3, 10, number, 0], Le16(flags));
        Read16(mem, p + 4, flags);
        Read32(mem, p + 6, gsi);
      case LapicNmiRec(procId, flags, lint) => ReadLapicNmi(mem, p, procId, flags, lint);
      case LapicRec(addr) =>
        StandsParts(mem, p, [5, 12, 0, 0], Le64(addr));
        Read64(mem, p + 4, addr);
      case OtherRec(_, _) =>
    }
  }

  lemma ReadIoApic(mem: seq<Byte>, p: nat, id: Byte, addr: nat, base: nat)
    requires addr < 0x1_0000_0000 && base < 0x1_0000_0000 && p + 12 <= |mem|
    requires Stands(mem, p, [1, 12, id, 0] + Le32(addr) + Le32(base))
    ensures IoApicAt(mem, p) == IoApic(id, addr, base)
  {
    hide Stands, U32, Le32;
    StandsAt(mem, p, [1, 12, id, 0] + Le32(addr) + Le32(base), 2);
    StandsParts(mem, p, [1, 12, id, 0] + Le32(addr), Le32(base));
    StandsParts(mem, p, [1, 12, id, 0], Le32(addr));
    Read32(mem, p + 4, addr);
    Read32(mem, p + 8, base);
  }

  lemma ReadIso(mem: seq<Byte>, p: nat, bus: Byte, source: Byte, gsi: nat, flags: nat)
    requires gsi < 0x1_0000_0000 && flags < 0x1_0000 && p + 12 <= |mem|
    requires Stands(mem, p, [2, 10, bus, source] + Le32(gsi) + Le16(flags))
    ensures IsoAt(mem, p) == Iso(bus, source, gsi, flags)
  {
    hide Stands, U16, U32, Le16, Le32;
    StandsAt(mem, p, [2, 10, bus, source] + Le32(gsi) + Le16(flags), 2);
    StandsAt(mem, p, [2, 10, bus, source] + Le32(gsi) + Le16(flags), 3);
    StandsParts(mem, p, [2, 10, bus, source] + Le32(gsi), Le16(flags));
    StandsParts(mem, p, [2, 10, bus, source], Le32(gsi));
    Read32(mem, p + 4, gsi);
    Read16(mem, p + 8, flags);
  }

  lemma ReadLapicNmi(mem: seq<Byte>, p: nat, procId: Byte, flags: nat, lint: Byte)
    requires flags < 0x1_0000 && p + 12 <= |mem|
    requires Stands(mem, p, [4, 6, procId] + Le16(flags) + [lint])
    ensures LapicNmiAt(mem, p) == LapicNmi(procId, lint, flags)
  {
    hide Stands, U16, Le16;
    StandsAt(mem, p, [4, 6, procId] + Le16(flags) + [lint], 2);
    StandsAt(mem, p, [4, 6, procId] + Le16(flags) + [lint], 5);
    StandsParts(mem, p, [4, 6, procId] + Le16(flags), [lint]);
    StandsParts(mem, p, [4, 6, procId], Le16(flags));
    Read16(mem, p + 3, flags);
  }

  /** The processor id given for a processor is the table's exactly when it is its controller's id. */
  lemma ProcessorIdIff(mem: seq<Byte>, p: nat, r: Rec)
    requires Fits(r) && r.CpuRec? && Stands(mem, p, Encode(r)) && p + 12 <= |mem|
    ensures CpuAt(mem, p).acpiId == r.procId <==> r.procId == r.apicId
  {
    ReadRecord(mem, p, r);
  }

  /** A non-maskable interrupt record as section 5.2.12.6 of the ACPI specification lays it out: eight
      bytes, flags at 2 and the interrupt at 4. The kernel's structure has two bytes more in front, so
      it takes the interrupt's low half for the flags, and reads past the record. */
  lemma StandardNmiMisread(mem: seq<Byte>, p: nat, flags: nat, gsi: nat)
    requires flags < 0x1_0000 && gsi < 0x1_0000_0000 && p + 12 <= |mem|
    requires Stands(mem, p, [3, 8] + Le16(flags) + Le32(gsi))
    ensures NmiAt(mem, p) == Nmi(gsi / 0x1_0000 + 0x1_0000 * U16(mem, p + 8), gsi % 0x1_0000)
  {
    StandsParts(mem, p, [3, 8] + Le16(flags), Le32(gsi));
    StandsParts(mem, p + 4, Le16(gsi % 0x1_0000), Le16(gsi / 0x1_0000));
    Read16(mem, p + 4, gsi % 0x1_0000);
    Read16(mem, p + 6, gsi / 0x1_0000);
  }

  // ---------------------------------------------------------------- whole tables

  /** Where the records start, one behind the other from p. */
  function Places(p: nat, rs: seq<Rec>): (ps: seq<nat>)
    requires AllFit(rs)
    ensures |ps| == |rs|
    decreases |rs|
  {
    if |rs| == 0 then [] else [p] + Places(p + |Encode(rs[0])|, rs[1..])
  }

  function OfKind(rs: seq<Rec>, t: nat): (r: seq<Rec>)
    requires AllFit(rs)
    ensures forall i | 0 <= i < |r| :: Fits(r[i]) && Kind(r[i]) == t
  {
    if |rs| == 0 then [] else (if Kind(rs[0]) == t then [rs[0]] else []) + OfKind(rs[1..], t)
  }

  /** A memory that holds the table: header, controller address, flags, then the records up to `end`. */
  predicate Holds(mem: seq<Byte>, end: nat, lapic: nat, flags: nat, rs: seq<Rec>) {
    && lapic < 0x1_0000_0000 && flags < 0x1_0000_0000 && AllFit(rs)
    && Stands(mem, 0x24, Le32(lapic)) && Stands(mem, 0x28, Le32(flags)) && Stands(mem, 0x2C, EncodeAll(rs))
    && end == 0x2C + |EncodeAll(rs)| && end + 12 <= |mem|
  }

  lemma FirstStands(mem: seq<Byte>, p: nat, rs: seq<Rec>)
    requires AllFit(rs) && |rs| > 0 && Stands(mem, p, EncodeAll(rs))
    ensures Stands(mem, p, Encode(rs[0])) && Stands(mem, p + |Encode(rs[0])|, EncodeAll(rs[1..]))
    ensures mem[p] == Kind(rs[0]) && mem[p + 1] == |Encode(rs[0])|
  {
    hide Encode, Kind, Stands;
    StandsParts(mem, p, Encode(rs[0]), EncodeAll(rs[1..]));
    StandsAt(mem, p, Encode(rs[0]), 0);
    StandsAt(mem, p, Encode(rs[0]), 1);
  }

  /** Reading finds the records where they were written, all of them and no more. */
  lemma {:induction false} RecordsFound(mem: seq<Byte>, p: nat, end: nat, rs: seq<Rec>)
    requires Readable(mem, end) && AllFit(rs) && Stands(mem, p, EncodeAll(rs)) && end == p + |EncodeAll(rs)|
    ensures Records(mem, p, end) == Places(p, rs)
    decreases |rs|
  {
    hide Encode, Kind, Fits;
    if |rs| > 0 {
      FirstStands(mem, p, rs);
      RecordsFound(mem, p + |Encode(rs[0])|, end, rs[1..]);
    }
  }

  lemma {:induction false} OfTypeFirst(mem: seq<Byte>, q: nat, ps: seq<nat>, t: nat)
    requires q < |mem| && forall i | 0 <= i < |ps| :: ps[i] < |mem|
    ensures OfType(mem, [q] + ps, t) == (if mem[q] == t then [q] else []) + OfType(mem, ps, t)
    decreases |ps|
  {
    if |ps| == 0 {
      assert [q] + ps == [] + [q];
      OfTypeStep(mem, [], q, t);
    } else {
      var front, last := ps[..|ps| - 1], ps[|ps| - 1];
      assert [q] + ps == ([q] + front) + [last] && ps == front + [last];
      OfTypeFirst(mem, q, front, t);
      OfTypeStep(mem, [q] + front, last, t);
      OfTypeStep(mem, front, last, t);
    }
  }

  /** The places qs hold the records `rs`. */
  ghost predicate Hold(mem: seq<Byte>, qs: seq<nat>, rs: seq<Rec>)
    requires AllFit(rs)
  {
    |qs| == |rs| && forall i | 0 <= i < |qs| :: qs[i] + 12 <= |mem| && Stands(mem, qs[i], Encode(rs[i]))
  }

  lemma {:induction false} PlacesInside(p: nat, rs: seq<Rec>)
    requires AllFit(rs)
    ensures forall i | 0 <= i < |rs| :: Places(p, rs)[i] <= p + |EncodeAll(rs)|
    decreases |rs|
  {
    if |rs| > 0 {
      PlacesInside(p + |Encode(rs[0])|, rs[1..]);
    }
  }

  lemma NoneOfKind(mem: seq<Byte>, t: nat)
    ensures AllFit([]) && Hold(mem, [], OfKind([], t))
  {
  }

  lemma FirstHolds(mem: seq<Byte>, p: nat, rs: seq<Rec>, t: nat, qs: seq<nat>)
    requires AllFit(rs) && |rs| > 0 && p + 12 <= |mem| && Stands(mem, p, Encode(rs[0]))
    requires Hold(mem, qs, OfKind(rs[1..], t))
    ensures Hold(mem, (if Kind(rs[0]) == t then [p] else []) + qs, OfKind(rs, t))
  {
    hide Encode, Kind, Fits, Stands;
  }

  /** The places of one type hold the records of that type, in order. */
  lemma {:induction false} KindFound(mem: seq<Byte>, p: nat, rs: seq<Rec>, t: nat)
    requires AllFit(rs) && Stands(mem, p, EncodeAll(rs)) && p + |EncodeAll(rs)| + 12 <= |mem|
    ensures forall i | 0 <= i < |rs| :: Places(p, rs)[i] + 12 <= |mem|
    ensures Hold(mem, OfType(mem, Places(p, rs), t), OfKind(rs, t))
    decreases |rs|
  {
    hide Encode, Kind, Fits, OfType, Hold, Stands, OfKind;
    PlacesInside(p, rs);
    if |rs| == 0 {
      NoneOfKind(mem, t);
      assert OfType(mem, [], t) == [];
    } else {
      FirstStands(mem, p, rs);
      var next := p + |Encode(rs[0])|;
      KindFound(mem, next, rs[1..], t);
      OfTypeFirst(mem, p, Places(next, rs[1..]), t);
      FirstHolds(mem, p, rs, t, OfType(mem, Places(next, rs[1..]), t));
    }
  }

  /** What the five arrays hold: the fields of the records, type by type, in table order. */
  ghost predicate CpusAre(a: seq<Cpu>, rs: seq<Rec>)
    requires AllFit(rs)
  {
    |a| == |OfKind(rs, 0)| &&
    forall i | 0 <= i < |a| :: var r := OfKind(rs, 0)[i]; r.CpuRec? && a[i] == Cpu(r.apicId, r.apicId, r.flags)
  }

  ghost predicate IoApicsAre(a: seq<IoApic>, rs: seq<Rec>)
    requires AllFit(rs)
  {
    |a| == |OfKind(rs, 1)| &&
    forall i | 0 <= i < |a| :: var r := OfKind(rs, 1)[i]; r.IoApicRec? && a[i] == IoApic(r.id, r.addr, r.base)
  }

  ghost predicate IsosAre(a: seq<Iso>, rs: seq<Rec>)
    requires AllFit(rs)
  {
    |a| == |OfKind(rs, 2)| &&
    forall i | 0 <= i < |a| :: var r := OfKind(rs, 2)[i]; r.IsoRec? && a[i] == Iso(r.bus, r.source, r.gsi, r.flags)
  }

  ghost predicate NmisAre(a: seq<Nmi>, rs: seq<Rec>)
    requires AllFit(rs)
  {
    |a| == |OfKind(rs, 3)| &&
    forall i | 0 <= i < |a| :: var r := OfKind(rs, 3)[i]; r.NmiRec? && a[i] == Nmi(r.gsi, r.flags)
  }

  ghost predicate LapicNmisAre(a: seq<LapicNmi>, rs: seq<Rec>)
    requires AllFit(rs)
  {
    |a| == |OfKind(rs, 4)| &&
    forall i | 0 <= i < |a| :: var r := OfKind(rs, 4)[i]; r.LapicNmiRec? && a[i] == LapicNmi(r.procId, r.lint, r.flags)
  }

  /** The controller address: that of the last record of type 5, or else the header's. */
  function Controller(lapic: nat, rs: seq<Rec>): nat
    requires AllFit(rs)
  {
    var fives := OfKind(rs, 5);
    if |fives| > 0 && fives[|fives| - 1].LapicRec? then fives[|fives| - 1].addr else lapic
  }

  lemma ReadOne(mem: seq<Byte>, qs: seq<nat>, rs: seq<Rec>, i: nat)
    requires AllFit(rs) && Hold(mem, qs, rs) && i < |qs|
    ensures Fits(rs[i]) && Stands(mem, qs[i], Encode(rs[i])) && qs[i] + 12 <= |mem|
  {
  }

  lemma CpusRead(mem: seq<Byte>, qs: seq<nat>, rs: seq<Rec>)
    requires AllFit(rs) && Hold(mem, qs, OfKind(rs, 0))
    ensures CpusAre(Each(mem, qs, CpuAt), rs)
  {
    forall i: nat | i < |qs|
      ensures OfKind(rs, 0)[i].CpuRec?
      ensures var r := OfKind(rs, 0)[i]; CpuAt(mem, qs[i]) == Cpu(r.apicId, r.apicId, r.flags)
    {
      ReadOne(mem, qs, OfKind(rs, 0), i);
      ReadRecord(mem, qs[i], OfKind(rs, 0)[i]);
    }
  }

  lemma IoApicsRead(mem: seq<Byte>, qs: seq<nat>, rs: seq<Rec>)
    requires AllFit(rs) && Hold(mem, qs, OfKind(rs, 1))
    ensures IoApicsAre(Each(mem, qs, IoApicAt), rs)
  {
    forall i: nat | i < |qs|
      ensures OfKind(rs, 1)[i].IoApicRec?
      ensures var r := OfKind(rs, 1)[i]; IoApicAt(mem, qs[i]) == IoApic(r.id, r.addr, r.base)
    {
      ReadOne(mem, qs, OfKind(rs, 1), i);
      ReadRecord(mem, qs[i], OfKind(rs, 1)[i]);
    }
  }

  lemma IsosRead(mem: seq<Byte>, qs: seq<nat>, rs: seq<Rec>)
    requires AllFit(rs) && Hold(mem, qs, OfKind(rs, 2))
    ensures IsosAre(Each(mem, qs, IsoAt), rs)
  {
    forall i: nat | i < |qs|
      ensures OfKind(rs, 2)[i].IsoRec?
      ensures var r := OfKind(rs, 2)[i]; IsoAt(mem, qs[i]) == Iso(r.bus, r.source, r.gsi, r.flags)
    {
      ReadOne(mem, qs, OfKind(rs, 2), i);
      ReadRecord(mem, qs[i], OfKind(rs, 2)[i]);
    }
  }

  lemma NmisRead(mem: seq<Byte>, qs: seq<nat>, rs: seq<Rec>)
    requires AllFit(rs) && Hold(mem, qs, OfKind(rs, 3))
    ensures NmisAre(Each(mem, qs, NmiAt), rs)
  {
    forall i: nat | i < |qs|
      ensures OfKind(rs, 3)[i].NmiRec?
      ensures var r := OfKind(rs, 3)[i]; NmiAt(mem, qs[i]) == Nmi(r.gsi, r.flags)
    {
      ReadOne(mem, qs, OfKind(rs, 3), i);
      ReadRecord(mem, qs[i], OfKind(rs, 3)[i]);
    }
  }

  lemma LapicNmisRead(mem: seq<Byte>, qs: seq<nat>, rs: seq<Rec>)
    requires AllFit(rs) && Hold(mem, qs, OfKind(rs, 4))
    ensures LapicNmisAre(Each(mem, qs, LapicNmiAt), rs)
  {
    forall i: nat | i < |qs|
      ensures OfKind(rs, 4)[i].LapicNmiRec?
      ensures var r := OfKind(rs, 4)[i]; LapicNmiAt(mem, qs[i]) == LapicNmi(r.procId, r.lint, r.flags)
    {
      ReadOne(mem, qs, OfKind(rs, 4), i);
      ReadRecord(mem, qs[i], OfKind(rs, 4)[i]);
    }
  }

  lemma ControllerRead(mem: seq<Byte>, end: nat, lapic: nat, flags: nat, rs: seq<Rec>)
    requires Holds(mem, end, lapic, flags, rs)
    ensures InMem(mem, Places(0x2C, rs))
    ensures LapicAddr(mem, Places(0x2C, rs)) == Controller(lapic, rs) && U32(mem, 0x28) == flags
  {
    hide Encode, OfType, OfKind, EncodeAll, Stands, U32, U64, Le32;
    Read32(mem, 0x24, lapic);
    Read32(mem, 0x28, flags);
    KindFound(mem, 0x2C, rs, 5);
    var fives, qs := OfKind(rs, 5), OfType(mem, Places(0x2C, rs), 5);
    if |fives| > 0 {
      ReadOne(mem, qs, fives, |qs| - 1);
      ReadRecord(mem, qs[|qs| - 1], fives[|qs| - 1]);
    }
  }

  /** Reading a table written from typed records gives the records back: all five arrays, record by
      record, and the controller address and flags. */
  lemma TableRead(info: MadtInfo, mem: seq<Byte>, end: nat, lapic: nat, flags: nat, rs: seq<Rec>)
    requires Holds(mem, end, lapic, flags, rs) && Readable(mem, end)
    requires info.Sized(mem, Records(mem, FIRST_RECORD, end)) && info.Filled(mem, Records(mem, FIRST_RECORD, end))
    requires info.lapicAddr == LapicAddr(mem, Records(mem, FIRST_RECORD, end)) && info.madtFlags == U32(mem, 0x28)
    ensures CpusAre(info.cpus[..], rs) && IoApicsAre(info.ioapics[..], rs) && IsosAre(info.isos[..], rs)
    ensures NmisAre(info.nmis[..], rs) && LapicNmisAre(info.lapicNmis[..], rs)
    ensures info.cpuCount == |OfKind(rs, 0)| && info.ioapicCount == |OfKind(rs, 1)| && info.isoCount == |OfKind(rs, 2)|
    ensures info.nmiCount == |OfKind(rs, 3)| && info.lapicNmiCount == |OfKind(rs, 4)|
    ensures info.lapicAddr == Controller(lapic, rs) && info.madtFlags == flags
  {
    hide CpusAre, IoApicsAre, IsosAre, NmisAre, LapicNmisAre, OfKind, OfType, Places, EncodeAll, Each;
    RecordsFound(mem, 0x2C, end, rs);
    var ps := Records(mem, FIRST_RECORD, end);
    KindFound(mem, 0x2C, rs, 0);
    CpusRead(mem, OfType(mem, ps, 0), rs);
    KindFound(mem, 0x2C, rs, 1);
    IoApicsRead(mem, OfType(mem, ps, 1), rs);
    KindFound(mem, 0x2C, rs, 2);
    IsosRead(mem, OfType(mem, ps, 2), rs);
    KindFound(mem, 0x2C, rs, 3);
    NmisRead(mem, OfType(mem, ps, 3), rs);
    KindFound(mem, 0x2C, rs, 4);
    LapicNmisRead(mem, OfType(mem, ps, 4), rs);
    ControllerRead(mem, end, lapic, flags, rs);
    assert info.cpus[..info.cpuCount] == info.cpus[..] && info.ioapics[..info.ioapicCount] == info.ioapics[..];
    assert info.isos[..info.isoCount] == info.isos[..] && info.nmis[..info.nmiCount] == info.nmis[..];
    assert info.lapicNmis[..info.lapicNmiCount] == info.lapicNmis[..];
  }

  /** Any records that fit can be written as a table. */
  lemma TableHolds(head: seq<Byte>, lapic: nat, flags: nat, rs: seq<Rec>, rest: seq<Byte>)
    requires |head| == 0x24 && |rest| >= 12 && lapic < 0x1_0000_0000 && flags < 0x1_0000_0000 && AllFit(rs)
    ensures Holds(head + Le32(lapic) + Le32(flags) + EncodeAll(rs) + rest, 0x2C + |EncodeAll(rs)|, lapic, flags, rs)
  {
    hide Le32, EncodeAll;
    var mem := head + Le32(lapic) + Le32(flags) + EncodeAll(rs) + rest;
    assert mem[0x24..0x28] == Le32(lapic) && mem[0x28..0x2C] == Le32(flags);
    assert mem[0x2C..0x2C + |EncodeAll(rs)|] == EncodeAll(rs);
  }
}
