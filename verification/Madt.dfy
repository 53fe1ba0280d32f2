/** The interrupt-controller table: one pass counts the records, a second fills arrays sized by
    the counts (the MADT of the ACPI specification, section 5.2.12). */
module Madt {

  type Byte = b: nat | b < 256

  const FIRST_RECORD: nat := 0x2C          // behind the header, the controller address and flags
  const LONGEST_READ: nat := 12            // the most bytes of a record that are read

  datatype Cpu = Cpu(acpiId: nat, apicId: nat, flags: nat)
  datatype IoApic = IoApic(id: nat, addr: nat, gsiBase: nat)
  datatype Iso = Iso(bus: nat, sourceIrq: nat, gsi: nat, flags: nat)
  datatype Nmi = Nmi(gsi: nat, flags: nat)
  datatype LapicNmi = LapicNmi(acpiId: nat, lint: nat, flags: nat)

  // ---------------------------------------------------------------- reading

  /** Little-endian fields; `mem` reaches past the table, as short records are read beyond. */
  function U16(mem: seq<Byte>, p: nat): nat
    requires p + 2 <= |mem|
  {
    var lo: nat, hi: nat := mem[p], mem[p + 1];
    lo + 0x100 * hi
  }

  function U32(mem: seq<Byte>, p: nat): nat
    requires p + 4 <= |mem|
  {
    U16(mem, p) + 0x1_0000 * U16(mem, p + 2)
  }

  function U64(mem: seq<Byte>, p: nat): nat
    requires p + 8 <= |mem|
  {
    U32(mem, p) + 0x1_0000_0000 * U32(mem, p + 4)
  }

  predicate Readable(mem: seq<Byte>, end: nat) { FIRST_RECORD <= |mem| && end + LONGEST_READ <= |mem| }

  /** A record starts at p: its two header bytes and its whole length lie before `end`. */
  predicate RecordAt(mem: seq<Byte>, p: nat, end: nat)
    requires Readable(mem, end)
  {
    p + 2 <= end && mem[p + 1] >= 2 && p + mem[p + 1] <= end
  }

  /** Where the records from p on start, in table order. */
  function Records(mem: seq<Byte>, p: nat, end: nat): (ps: seq<nat>)
    requires Readable(mem, end)
    ensures forall i | 0 <= i < |ps| :: RecordAt(mem, ps[i], end)
    decreases end - p
  {
    if RecordAt(mem, p, end) then [p] + Records(mem, p + mem[p + 1], end) else []
  }

  /** The place where reading stops. */
  function StopAt(mem: seq<Byte>, p: nat, end: nat): (e: nat)
    requires Readable(mem, end)
    ensures !RecordAt(mem, e, end) && e >= p
    decreases end - p
  {
    if RecordAt(mem, p, end) then StopAt(mem, p + mem[p + 1], end) else p
  }

  /** The records lie one behind the other from p to the place where reading stops. */
  lemma {:induction false} RecordsTile(mem: seq<Byte>, p: nat, end: nat, i: nat)
    requires Readable(mem, end) && i < |Records(mem, p, end)|
    ensures var ps := Records(mem, p, end);
            && ps[0] == p
            && ps[i] + mem[ps[i] + 1] == (if i + 1 < |ps| then ps[i + 1] else StopAt(mem, p, end))
    decreases end - p
  {
    var next := p + mem[p + 1];
    if i > 0 {
      RecordsTile(mem, next, end, i - 1);
    } else if |Records(mem, next, end)| > 0 {
      RecordsTile(mem, next, end, 0);
    }
  }

  /** The records of one type, in table order. */
  function OfType(mem: seq<Byte>, ps: seq<nat>, t: nat): (r: seq<nat>)
    requires forall i | 0 <= i < |ps| :: ps[i] < |mem|
    ensures |r| <= |ps| && forall i | 0 <= i < |r| :: r[i] in ps && mem[r[i]] == t
  {
    if |ps| == 0 then []
    else
      var q := ps[|ps| - 1];
      var rest := OfType(mem, ps[..|ps| - 1], t);
      if mem[q] == t then rest + [q] else rest
  }

  /** Every record of type t is listed, as often as it occurs. */
  lemma {:induction false} OfTypeAll(mem: seq<Byte>, ps: seq<nat>, t: nat, p: nat)
    requires forall i | 0 <= i < |ps| :: ps[i] < |mem|
    requires p < |mem| && mem[p] == t
    ensures multiset(OfType(mem, ps, t))[p] == multiset(ps)[p]
  {
    if |ps| > 0 {
      var q, front := ps[|ps| - 1], ps[..|ps| - 1];
      OfTypeAll(mem, front, t, p);
      assert multiset(ps) == multiset(front) + multiset{q} by {
        assert ps == front + [q];
      }
      var rest := OfType(mem, front, t);
      assert multiset(rest + [q]) == multiset(rest) + multiset{q};
      assert OfType(mem, ps, t) == if mem[q] == t then rest + [q] else rest;
    }
  }

  // ---------------------------------------------------------------- entries

  function CpuAt(mem: seq<Byte>, p: nat): Cpu
    requires p + LONGEST_READ <= |mem|
  {
    Cpu(mem[p + 3], mem[p + 3], U32(mem, p + 4))
  }

  function IoApicAt(mem: seq<Byte>, p: nat): IoApic
    requires p + LONGEST_READ <= |mem|
  {
    IoApic(mem[p + 2], U32(mem, p + 4), U32(mem, p + 8))
  }

  function IsoAt(mem: seq<Byte>, p: nat): Iso
    requires p + LONGEST_READ <= |mem|
  {
    Iso(mem[p + 2], mem[p + 3], U32(mem, p + 4), U16(mem, p + 8))
  }

  function NmiAt(mem: seq<Byte>, p: nat): Nmi
    requires p + LONGEST_READ <= |mem|
  {
    Nmi(U32(mem, p + 6), U16(mem, p + 4))
  }

  function LapicNmiAt(mem: seq<Byte>, p: nat): LapicNmi
    requires p + LONGEST_READ <= |mem|
  {
    LapicNmi(mem[p + 2], mem[p + 5], U16(mem, p + 3))
  }

  ghost predicate InMem(mem: seq<Byte>, ps: seq<nat>) {
    forall i | 0 <= i < |ps| :: ps[i] + LONGEST_READ <= |mem|
  }

  /** The entries read from records at these places, in the same order. */
  ghost function Each<T>(mem: seq<Byte>, ps: seq<nat>, at: (seq<Byte>, nat) --> T): (r: seq<T>)
    requires forall i | 0 <= i < |ps| :: at.requires(mem, ps[i])
    ensures |r| == |ps|
  {
    seq(|ps|, i requires 0 <= i < |ps| => at(mem, ps[i]))
  }

  /** The controller address: the header's, unless records of type 5 replace it; the last one
      counts. */
  ghost function LapicAddr(mem: seq<Byte>, ps: seq<nat>): nat
    requires FIRST_RECORD <= |mem| && InMem(mem, ps)
  {
    var fives := OfType(mem, ps, 5);
    if |fives| == 0 then U32(mem, 0x24) else U64(mem, fives[|fives| - 1] + 4)
  }

  // ---------------------------------------------------------------- the buffer

  const INFO_BYTES: nat := 72
  const CPU_BYTES: nat := 8
  const IOAPIC_BYTES: nat := 12
  const ISO_BYTES: nat := 12
  const NMI_BYTES: nat := 8
  const LAPIC_NMI_BYTES: nat := 4

  /** Offsets of the five arrays in the one allocation, and its size. */
  datatype Buffer = Buffer(cpus: nat, ioapics: nat, isos: nat, nmis: nat, lapicNmis: nat, total: nat)

  function Plan(nCpu: nat, nIo: nat, nIso: nat, nNmi: nat, nLnmi: nat): Buffer {
    var total := INFO_BYTES + nCpu * CPU_BYTES + nIo * IOAPIC_BYTES + nIso * ISO_BYTES + nNmi * NMI_BYTES
                 + nLnmi * LAPIC_NMI_BYTES;
    var cpus := INFO_BYTES;
    var ioapics := cpus + nCpu * CPU_BYTES;
    var isos := ioapics + nIo * IOAPIC_BYTES;
    var nmis := isos + nIso * ISO_BYTES;
    var lapicNmis := nmis + nNmi * NMI_BYTES;
    Buffer(cpus, ioapics, isos, nmis, lapicNmis, total)
  }

  /** Entry k of an array at `base`, of `bytes` bytes each, ends no later than `next`. */
  predicate EntryEnds(base: nat, bytes: nat, k: nat, next: nat) { base + (k + 1) * bytes <= next }

  predicate EntriesFit(base: nat, bytes: nat, n: nat, next: nat) {
    forall k: nat | k < n :: EntryEnds(base, bytes, k, next)
  }

  /** The arrays follow the header and each other without overlap and end with the allocation. */
  lemma PlanFits(nCpu: nat, nIo: nat, nIso: nat, nNmi: nat, nLnmi: nat)
    ensures var b := Plan(nCpu, nIo, nIso, nNmi, nLnmi);
            && INFO_BYTES <= b.cpus <= b.ioapics <= b.isos <= b.nmis <= b.lapicNmis <= b.total
            && EntriesFit(b.cpus, CPU_BYTES, nCpu, b.ioapics) && EntriesFit(b.ioapics, IOAPIC_BYTES, nIo, b.isos)
            && EntriesFit(b.isos, ISO_BYTES, nIso, b.nmis) && EntriesFit(b.nmis, NMI_BYTES, nNmi, b.lapicNmis)
            && EntriesFit(b.lapicNmis, LAPIC_NMI_BYTES, nLnmi, b.total)
            && b.cpus == 72 && b.total == 72 + 8 * nCpu + 12 * nIo + 12 * nIso + 8 * nNmi + 4 * nLnmi
            && b.lapicNmis + 4 * nLnmi == b.total
  {
  }

  // ---------------------------------------------------------------- walking the records

  /** Where the reading pointer stands after k records. */
  ghost function PlaceOf(mem: seq<Byte>, end: nat, k: nat): nat
    requires Readable(mem, end) && k <= |Records(mem, FIRST_RECORD, end)|
  {
    var ps := Records(mem, FIRST_RECORD, end);
    if k < |ps| then ps[k] else StopAt(mem, FIRST_RECORD, end)
  }

  /** The pointer is at a record exactly while records are left, and stepping over it gets to the
      next place. */
  lemma PlaceStep(mem: seq<Byte>, end: nat, k: nat)
    requires Readable(mem, end) && k <= |Records(mem, FIRST_RECORD, end)|
    ensures var ps := Records(mem, FIRST_RECORD, end); var p := PlaceOf(mem, end, k);
            && (RecordAt(mem, p, end) <==> k < |ps|)
            && (k < |ps| ==> ps[..k + 1] == ps[..k] + [p] && p + mem[p + 1] == PlaceOf(mem, end, k + 1))
  {
    if k < |Records(mem, FIRST_RECORD, end)| {
      RecordsTile(mem, FIRST_RECORD, end, k);
    }
  }

  lemma PlaceStart(mem: seq<Byte>, end: nat)
    requires Readable(mem, end)
    ensures PlaceOf(mem, end, 0) == FIRST_RECORD
  {
  }

  /** Adding a record to those read adds it to its type's list and to no other. */
  lemma OfTypeStep(mem: seq<Byte>, ps: seq<nat>, p: nat, t: nat)
    requires p < |mem| && forall i | 0 <= i < |ps| :: ps[i] < |mem|
    ensures OfType(mem, ps + [p], t) == if mem[p] == t then OfType(mem, ps, t) + [p] else OfType(mem, ps, t)
  {
    assert (ps + [p])[..|ps|] == ps;
  }

  lemma {:induction false} OfTypePrefix(mem: seq<Byte>, ps: seq<nat>, k: nat, t: nat)
    requires k <= |ps| && forall i | 0 <= i < |ps| :: ps[i] < |mem|
    ensures |OfType(mem, ps[..k], t)| <= |OfType(mem, ps, t)|
    decreases |ps|
  {
    if k < |ps| {
      assert ps[..|ps| - 1][..k] == ps[..k];
      OfTypePrefix(mem, ps[..|ps| - 1], k, t);
    } else {
      assert ps[..k] == ps;
    }
  }

  /** The number of records of type t among the first k. */
  ghost function Seen(mem: seq<Byte>, end: nat, k: nat, t: nat): (n: nat)
    requires Readable(mem, end) && k <= |Records(mem, FIRST_RECORD, end)|
  {
    |OfType(mem, Records(mem, FIRST_RECORD, end)[..k], t)|
  }

  /** The k-th record counts for its own type and no other. */
  lemma SeenStep(mem: seq<Byte>, end: nat, k: nat, t: nat)
    requires Readable(mem, end) && k < |Records(mem, FIRST_RECORD, end)|
    ensures var p := Records(mem, FIRST_RECORD, end)[k];
            Seen(mem, end, k + 1, t) == Seen(mem, end, k, t) + if mem[p] == t then 1 else 0
  {
    var ps := Records(mem, FIRST_RECORD, end);
    assert ps[..k + 1] == ps[..k] + [ps[k]];
    OfTypeStep(mem, ps[..k], ps[k], t);
  }

  lemma SeenEnds(mem: seq<Byte>, end: nat)
    requires Readable(mem, end)
    ensures var ps := Records(mem, FIRST_RECORD, end);
            forall t: nat :: Seen(mem, end, 0, t) == 0 && Seen(mem, end, |ps|, t) == |OfType(mem, ps, t)|
  {
    var ps := Records(mem, FIRST_RECORD, end);
    assert ps[..|ps|] == ps;
  }

  lemma RecordsInMem(mem: seq<Byte>, end: nat)
    requires Readable(mem, end)
    ensures var ps := Records(mem, FIRST_RECORD, end);
            InMem(mem, ps) && forall k | 0 <= k <= |ps| :: InMem(mem, ps[..k])
  {
  }

  /** The pointer is past the last record exactly when every record is counted. */
  lemma AtRecord(mem: seq<Byte>, end: nat, k: nat)
    requires Readable(mem, end) && k <= |Records(mem, FIRST_RECORD, end)|
    ensures var ps := Records(mem, FIRST_RECORD, end); var p := PlaceOf(mem, end, k);
            && (k < |ps| <==> p + 2 <= end && mem[p + 1] >= 2 && p + mem[p + 1] <= end)
            && (k < |ps| ==> p == ps[k] && p + mem[p + 1] == PlaceOf(mem, end, k + 1))
  {
    PlaceStep(mem, end, k);
  }

  /** The first pass: how many records there are of each type. */
  method CountRecords(mem: seq<Byte>, end: nat) returns (nCpu: nat, nIo: nat, nIso: nat, nNmi: nat, nLnmi: nat)
    requires Readable(mem, end)
    ensures var ps := Records(mem, FIRST_RECORD, end);
            && nCpu == |OfType(mem, ps, 0)| && nIo == |OfType(mem, ps, 1)| && nIso == |OfType(mem, ps, 2)|
            && nNmi == |OfType(mem, ps, 3)| && nLnmi == |OfType(mem, ps, 4)|
  {
    hide Records, OfType, Seen, PlaceOf, StopAt, RecordAt;
    nCpu, nIo, nIso, nNmi, nLnmi := 0, 0, 0, 0, 0;
    ghost var ps, k := Records(mem, FIRST_RECORD, end), 0;
    var p := FIRST_RECORD;
    PlaceStart(mem, end);
    SeenEnds(mem, end);
    while p + 2 <= end
      invariant k <= |ps| && p == PlaceOf(mem, end, k)
      invariant nCpu == Seen(mem, end, k, 0) && nIo == Seen(mem, end, k, 1) && nIso == Seen(mem, end, k, 2)
      invariant nNmi == Seen(mem, end, k, 3) && nLnmi == Seen(mem, end, k, 4)
      decreases |ps| - k
    {
      AtRecord(mem, end, k);
      var kind, len := mem[p], mem[p + 1];
      if len < 2 || p + len > end {
        break;
      }
      SeenStep(mem, end, k, 0);
      SeenStep(mem, end, k, 1);
      SeenStep(mem, end, k, 2);
      SeenStep(mem, end, k, 3);
      SeenStep(mem, end, k, 4);
      match kind {
        case 0 => nCpu := nCpu + 1;
        case 1 => nIo := nIo + 1;
        case 2 => nIso := nIso + 1;
        case 3 => nNmi := nNmi + 1;
        case 4 => nLnmi := nLnmi + 1;
        case _ =>
      }
      p := p + len;
      k := k + 1;
    }
    AtRecord(mem, end, k);
  }

  // ---------------------------------------------------------------- filling the arrays

  /** The first n slots of an array hold the entries read from the records `ps`. */
  ghost predicate Holds<T>(a: array<T>, n: nat, mem: seq<Byte>, ps: seq<nat>, at: (seq<Byte>, nat) --> T)
    requires forall i | 0 <= i < |ps| :: at.requires(mem, ps[i])
    reads a
  {
    n == |ps| && n <= a.Length && a[..n] == Each(mem, ps, at)
  }

  ghost predicate Reads<T>(mem: seq<Byte>, at: (seq<Byte>, nat) --> T) {
    forall p: nat | p + LONGEST_READ <= |mem| :: at.requires(mem, p)
  }

  /** Writes the entry of one more record into the next slot. */
  method Append<T>(a: array<T>, n: nat, x: T, ghost mem: seq<Byte>, ghost p: nat, ghost ps: seq<nat>,
                   ghost at: (seq<Byte>, nat) --> T) returns (next: nat)
    requires InMem(mem, ps) && p + LONGEST_READ <= |mem| && Reads(mem, at) && x == at(mem, p)
    requires n < a.Length && Holds(a, n, mem, ps, at)
    modifies a
    ensures InMem(mem, ps + [p])
    ensures next == n + 1 && Holds(a, next, mem, ps + [p], at)
  {
    a[n] := x;
    next := n + 1;
    assert a[..next] == a[..n] + [x];
    assert a[..n] == old(a[..n]);
    assert Each(mem, ps + [p], at) == Each(mem, ps, at) + [x];
  }

  /** A record adds nothing to the lists of the other types. */
  lemma OthersStay(mem: seq<Byte>, ps: seq<nat>, p: nat)
    requires InMem(mem, ps) && p + LONGEST_READ <= |mem|
    ensures InMem(mem, ps + [p])
    ensures forall t: nat | t != mem[p] :: OfType(mem, ps + [p], t) == OfType(mem, ps, t)
  {
    forall t: nat | t != mem[p]
      ensures OfType(mem, ps + [p], t) == OfType(mem, ps, t)
    {
      OfTypeStep(mem, ps, p, t);
    }
  }

  /** A record of type 5 replaces the controller address; no other does. */
  lemma LapicStep(mem: seq<Byte>, ps: seq<nat>, p: nat)
    requires FIRST_RECORD <= |mem| && InMem(mem, ps) && p + LONGEST_READ <= |mem|
    ensures InMem(mem, ps + [p])
    ensures LapicAddr(mem, ps + [p]) == if mem[p] == 5 then U64(mem, p + 4) else LapicAddr(mem, ps)
  {
    hide U32, U64;
    OfTypeStep(mem, ps, p, 5);
  }

  /** What the second pass leaves behind, in terms of the records alone. */
  class MadtInfo {
    var lapicAddr: nat
    var madtFlags: nat
    var cpuCount: nat
    var ioapicCount: nat
    var isoCount: nat
    var nmiCount: nat
    var lapicNmiCount: nat
    const cpus: array<Cpu>
    const ioapics: array<IoApic>
    const isos: array<Iso>
    const nmis: array<Nmi>
    const lapicNmis: array<LapicNmi>

    /** The allocation: one slot for each counted record, all counters zero. */
    constructor (nCpu: nat, nIo: nat, nIso: nat, nNmi: nat, nLnmi: nat, address: nat, flags: nat)
      ensures cpus.Length == nCpu && ioapics.Length == nIo && isos.Length == nIso && nmis.Length == nNmi
      ensures lapicNmis.Length == nLnmi && lapicAddr == address && madtFlags == flags
      ensures cpuCount == ioapicCount == isoCount == nmiCount == lapicNmiCount == 0
      ensures fresh(cpus) && fresh(ioapics) && fresh(isos) && fresh(nmis) && fresh(lapicNmis)
    {
      cpus := new Cpu[nCpu](_ => Cpu(0, 0, 0));
      ioapics := new IoApic[nIo](_ => IoApic(0, 0, 0));
      isos := new Iso[nIso](_ => Iso(0, 0, 0, 0));
      nmis := new Nmi[nNmi](_ => Nmi(0, 0));
      lapicNmis := new LapicNmi[nLnmi](_ => LapicNmi(0, 0, 0));
      lapicAddr, madtFlags := address, flags;
      cpuCount, ioapicCount, isoCount, nmiCount, lapicNmiCount := 0, 0, 0, 0, 0;
    }

    /** The first slots of all five arrays hold the entries of these records, in table order. */
    ghost predicate Filled(mem: seq<Byte>, ps: seq<nat>)
      requires InMem(mem, ps)
      reads this, cpus, ioapics, isos, nmis, lapicNmis
    {
      && Holds(cpus, cpuCount, mem, OfType(mem, ps, 0), CpuAt)
      && Holds(ioapics, ioapicCount, mem, OfType(mem, ps, 1), IoApicAt)
      && Holds(isos, isoCount, mem, OfType(mem, ps, 2), IsoAt)
      && Holds(nmis, nmiCount, mem, OfType(mem, ps, 3), NmiAt)
      && Holds(lapicNmis, lapicNmiCount, mem, OfType(mem, ps, 4), LapicNmiAt)
    }

    /** One more record is written into its type's array. */
    method FillRecord(mem: seq<Byte>, p: nat, ghost ps: seq<nat>)
      requires p + LONGEST_READ <= |mem| && InMem(mem, ps) && InMem(mem, ps + [p]) && Filled(mem, ps)
      requires mem[p] == 0 ==> cpuCount < cpus.Length
      requires mem[p] == 1 ==> ioapicCount < ioapics.Length
      requires mem[p] == 2 ==> isoCount < isos.Length
      requires mem[p] == 3 ==> nmiCount < nmis.Length
      requires mem[p] == 4 ==> lapicNmiCount < lapicNmis.Length
      modifies this, cpus, ioapics, isos, nmis, lapicNmis
      ensures Filled(mem, ps + [p])
      ensures madtFlags == old(madtFlags)
      ensures lapicAddr == if mem[p] == 5 then U64(mem, p + 4) else old(lapicAddr)
    {
      hide Holds, OfType, Each;
      OthersStay(mem, ps, p);
      OfTypeStep(mem, ps, p, mem[p]);
      match mem[p] {
        case 0 => cpuCount := Append(cpus, cpuCount, CpuAt(mem, p), mem, p, OfType(mem, ps, 0), CpuAt);
        case 1 => ioapicCount := Append(ioapics, ioapicCount, IoApicAt(mem, p), mem, p, OfType(mem, ps, 1), IoApicAt);
        case 2 => isoCount := Append(isos, isoCount, IsoAt(mem, p), mem, p, OfType(mem, ps, 2), IsoAt);
        case 3 => nmiCount := Append(nmis, nmiCount, NmiAt(mem, p), mem, p, OfType(mem, ps, 3), NmiAt);
        case 4 =>
          lapicNmiCount := Append(lapicNmis, lapicNmiCount, LapicNmiAt(mem, p), mem, p, OfType(mem, ps, 4), LapicNmiAt);
        case 5 => lapicAddr := U64(mem, p + 4);
        case _ =>
      }
    }

    /** A slot for every record of each type. */
    ghost predicate Sized(mem: seq<Byte>, ps: seq<nat>)
      requires InMem(mem, ps)
    {
      && cpus.Length == |OfType(mem, ps, 0)| && ioapics.Length == |OfType(mem, ps, 1)|
      && isos.Length == |OfType(mem, ps, 2)| && nmis.Length == |OfType(mem, ps, 3)|
      && lapicNmis.Length == |OfType(mem, ps, 4)|
    }

    /** The next record still has a free slot. */
    lemma RoomLeft(mem: seq<Byte>, ps: seq<nat>, k: nat)
      requires InMem(mem, ps) && Sized(mem, ps) && k < |ps| && InMem(mem, ps[..k]) && Filled(mem, ps[..k])
      ensures mem[ps[k]] == 0 ==> cpuCount < cpus.Length
      ensures mem[ps[k]] == 1 ==> ioapicCount < ioapics.Length
      ensures mem[ps[k]] == 2 ==> isoCount < isos.Length
      ensures mem[ps[k]] == 3 ==> nmiCount < nmis.Length
      ensures mem[ps[k]] == 4 ==> lapicNmiCount < lapicNmis.Length
    {
      var t: nat := mem[ps[k]];
      assert ps[..k + 1] == ps[..k] + [ps[k]];
      OfTypeStep(mem, ps[..k], ps[k], t);
      OfTypePrefix(mem, ps, k + 1, t);
    }

    lemma NothingFilled(mem: seq<Byte>)
      requires cpuCount == ioapicCount == isoCount == nmiCount == lapicNmiCount == 0 && FIRST_RECORD <= |mem|
      ensures InMem(mem, []) && Filled(mem, []) && LapicAddr(mem, []) == U32(mem, 0x24)
    {
    }

    /** The second pass. With one slot counted for each record it never writes outside an array and
        leaves every slot written. */
    method Fill(mem: seq<Byte>, end: nat)
      requires Readable(mem, end) && Sized(mem, Records(mem, FIRST_RECORD, end))
      requires cpuCount == ioapicCount == isoCount == nmiCount == lapicNmiCount == 0
      requires lapicAddr == U32(mem, 0x24)
      modifies this, cpus, ioapics, isos, nmis, lapicNmis
      ensures Filled(mem, Records(mem, FIRST_RECORD, end)) && madtFlags == old(madtFlags)
      ensures lapicAddr == LapicAddr(mem, Records(mem, FIRST_RECORD, end))
    {
      hide Holds, Sized, Filled, LapicAddr, Records, OfType, PlaceOf, StopAt, RecordAt, InMem;
      ghost var ps, k := Records(mem, FIRST_RECORD, end), 0;
      var p := FIRST_RECORD;
      PlaceStart(mem, end);
      RecordsInMem(mem, end);
      NothingFilled(mem);
      assert ps[..0] == [];
      while p + 2 <= end
        invariant k <= |ps| && p == PlaceOf(mem, end, k) && InMem(mem, ps[..k])
        invariant Filled(mem, ps[..k]) && madtFlags == old(madtFlags)
        invariant lapicAddr == LapicAddr(mem, ps[..k])
        decreases |ps| - k
      {
        AtRecord(mem, end, k);
        var len := mem[p + 1];
        if len < 2 || p + len > end {
          break;
        }
        assert ps[..k + 1] == ps[..k] + [p];
        RoomLeft(mem, ps, k);
        FillRecord(mem, p, ps[..k]);
        LapicStep(mem, ps[..k], p);
        p := p + len;
        k := k + 1;
      }
      AtRecord(mem, end, k);
      assert ps[..|ps|] == ps;
    }
  }

  /** How a call ends: the table is filled; nothing was allocated and the null test says so; or the
      heap's failure value passed the test and is written through, which is not modelled further. */
  datatype Outcome = Done(info: MadtInfo) | Refused | Stray

  const FRAME_ALLOC_FAILED: nat := 0xFFFF_FFFF_FFFF_FFFF

  /** Both passes. `ptr` is what the heap returned for the counted total: an address, null when its
      growth could not be mapped, or FRAME_ALLOC_FAILED. */
  method HandleMadt(mem: seq<Byte>, end: nat, ptr: nat) returns (outcome: Outcome, total: nat)
    requires Readable(mem, end)
    ensures outcome.Refused? <==> ptr == 0
    ensures outcome.Stray? <==> ptr == FRAME_ALLOC_FAILED
    ensures var ps := Records(mem, FIRST_RECORD, end);
            total == Plan(|OfType(mem, ps, 0)|, |OfType(mem, ps, 1)|, |OfType(mem, ps, 2)|, |OfType(mem, ps, 3)|,
                          |OfType(mem, ps, 4)|).total
    ensures outcome.Done? ==>
      var ps, info := Records(mem, FIRST_RECORD, end), outcome.info;
      && fresh(info) && info.Sized(mem, ps) && info.Filled(mem, ps)
      && info.lapicAddr == LapicAddr(mem, ps) && info.madtFlags == U32(mem, 0x28)
  {
    var nCpu, nIo, nIso, nNmi, nLnmi := CountRecords(mem, end);
    total := Plan(nCpu, nIo, nIso, nNmi, nLnmi).total;
    if ptr == 0 {
      return Refused, total;
    }
    if ptr == FRAME_ALLOC_FAILED {
      return Stray, total;
    }
    var info := new MadtInfo(nCpu, nIo, nIso, nNmi, nLnmi, U32(mem, 0x24), U32(mem, 0x28));
    info.Fill(mem, end);
    outcome := Done(info);
  }
}
