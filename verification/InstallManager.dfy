/** The partition allocator (`InstallManager`): numbering, space accounting, placement. */
module InstallManager {
  import opened Wrappers
  import opened QtMap
  import opened PartitionLayout

  const RISCOS_SECTOR_OFFSET := 1760 * 2048

  /** A device file: none yet, or "/dev/mmcblk0p" followed by the number. */
  datatype Device = NoDevice | MmcBlk0p(number: int)

  class PartitionInfo {
    const fsType: string
    const partitionType: string
    const nominal: int
    const wantMaximised: bool
    const active: bool
    var requiredNumber: int
    var offset: int
    var sizeSectors: int
    var device: Device

    constructor (fsType: string, partitionType: string, nominal: int, wantMaximised: bool, active: bool,
                 requiredNumber: int, offset: int)
      ensures this.fsType == fsType && this.partitionType == partitionType && this.nominal == nominal
      ensures this.wantMaximised == wantMaximised && this.active == active
      ensures this.requiredNumber == requiredNumber && this.offset == offset
    {
      this.fsType, this.partitionType, this.nominal := fsType, partitionType, nominal;
      this.wantMaximised, this.active := wantMaximised, active;
      this.requiredNumber, this.offset, this.sizeSectors, this.device := requiredNumber, offset, 0, NoDevice;
    }

    /** The constructor for system partitions. */
    constructor System(number: int, offset: int, sectors: int, partitionType: string)
      ensures this.requiredNumber == number && this.offset == offset && this.sizeSectors == sectors
      ensures this.partitionType == partitionType && !active
    {
      this.fsType, this.partitionType, this.nominal := "", partitionType, 0;
      this.wantMaximised, this.active := false, false;
      this.requiredNumber, this.offset, this.sizeSectors, this.device := number, offset, sectors, NoDevice;
    }

    function EndSector(): int
      reads this`offset, this`sizeSectors
    {
      offset + sizeSectors
    }

    function Charged(): int {
      Charge(nominal, wantMaximised)
    }

    function AsSlot(): Slot
      reads this`offset, this`sizeSectors
    {
      Slot(offset, sizeSectors)
    }

    function AsRequest(): Request
      reads this`offset
    {
      Request(nominal, wantMaximised, fsType == "raw", offset)
    }
  }

  type PartitionMap = OrderedMap<PartitionInfo>

  /** The number given to a partition that asks for none. */
  function AutoNumber<V>(m: OrderedMap<V>): int {
    if m == [] then 6
    else
      var last := m[|m| - 1].key;
      (if last > 5 then last else 5) + 1
  }

  /** An automatic number is new and above the system partitions. */
  lemma {:induction false} AutoNumberIsFresh<V>(m: OrderedMap<V>)
    requires Ascending(m)
    ensures AutoNumber(m) >= 6 && !Contains(m, AutoNumber(m))
    ensures forall i | 0 <= i < |m| :: m[i].key < AutoNumber(m)
    ensures AutoNumber(m) == 6 || (m != [] && AutoNumber(m) == m[|m| - 1].key + 1)
  {
    if m != [] {
      assert forall i | 0 <= i < |m| - 1 :: m[i].key < m[|m| - 1].key;
    }
  }

  /** Numbers an operating system may hold; 0 stands for none, and negative ones are not refused. */
  predicate OsNumber(k: int) {
    k != 0 && k != 1 && k != 5
  }

  predicate NumbersOk(m: PartitionMap) {
    && Ascending(m)
    && (forall i | 0 <= i < |m| :: OsNumber(m[i].key))
    && !(Contains(m, 2) && Contains(m, 4))
  }

  /** No number is negative: the numbers are 2 to 4, or at least 6. */
  predicate Regular(m: PartitionMap) {
    forall e | e in m :: e.key >= 2
  }

  ghost function TotalCharge(m: PartitionMap): int {
    if m == [] then 0 else m[0].value.Charged() + TotalCharge(m[1..])
  }

  ghost function CountMaximised(m: PartitionMap): nat {
    if m == [] then 0 else (if m[0].value.wantMaximised then 1 else 0) + CountMaximised(m[1..])
  }

  lemma {:induction false} TotalsConcat(m: PartitionMap, n: PartitionMap)
    ensures TotalCharge(m + n) == TotalCharge(m) + TotalCharge(n)
    ensures CountMaximised(m + n) == CountMaximised(m) + CountMaximised(n)
  {
    if m == [] {
      assert m + n == n;
    } else {
      assert (m + n)[1..] == m[1..] + n;
      TotalsConcat(m[1..], n);
    }
  }

  lemma {:induction false} TotalsSplice(a: PartitionMap, e: Entry<PartitionInfo>, b: PartitionMap)
    ensures TotalCharge(a + [e] + b) == TotalCharge(a + b) + e.value.Charged()
    ensures CountMaximised(a + [e] + b) == CountMaximised(a + b) + if e.value.wantMaximised then 1 else 0
  {
    TotalsConcat(a, b);
    TotalsConcat(a + [e], b);
    TotalsConcat(a, [e]);
    assert [e][1..] == [];
  }

  /** A new entry adds its own charge, wherever it is inserted. */
  lemma {:induction false} TotalsInsert(m: PartitionMap, k: int, p: PartitionInfo)
    requires Ascending(m) && !Contains(m, k)
    ensures TotalCharge(Insert(m, k, p)) == TotalCharge(m) + p.Charged()
    ensures CountMaximised(Insert(m, k, p)) == CountMaximised(m) + if p.wantMaximised then 1 else 0
  {
    var i := Position(m, k);
    InsertShape(m, k, p);
    assert m == m[..i] + m[i..];
    TotalsSplice(m[..i], Entry(k, p), m[i..]);
  }

  lemma {:induction false} NumbersInsert(m: PartitionMap, n: int, p: PartitionInfo)
    requires NumbersOk(m) && OsNumber(n) && !Contains(m, n)
    requires !(n == 2 && Contains(m, 4)) && !(n == 4 && Contains(m, 2))
    ensures NumbersOk(Insert(m, n, p))
  {
    InsertShape(m, n, p);
    InsertFresh(m, n, p, 2);
    InsertFresh(m, n, p, 4);
  }

  /** Only a negative number spoils the regularity of the map. */
  lemma {:induction false} RegularInsert(m: PartitionMap, n: int, p: PartitionInfo)
    requires Ascending(m) && OsNumber(n) && !Contains(m, n)
    ensures Regular(Insert(m, n, p)) <==> Regular(m) && n >= 0
  {
    MembersInsert(m, n, p);
    assert Entry(n, p) in Insert(m, n, p);
  }

  ghost predicate Distinct(m: PartitionMap) {
    forall i, j | 0 <= i < j < |m| :: m[i].value != m[j].value
  }

  ghost function InfosOf(m: PartitionMap): set<PartitionInfo> {
    set e | e in m :: e.value
  }

  lemma {:induction false} SpliceMembers(a: PartitionMap, e: Entry<PartitionInfo>, b: PartitionMap)
    ensures forall x :: x in a + [e] + b <==> x in a + b || x == e
  {
  }

  lemma {:induction false} SpliceDistinct(a: PartitionMap, e: Entry<PartitionInfo>, b: PartitionMap)
    requires Distinct(a + b) && forall x | x in a + b :: x.value != e.value
    ensures Distinct(a + [e] + b)
  {
    var m, n, i := a + b, a + [e] + b, |a|;
    assert forall j | 0 <= j < i :: n[j] == m[j];
    assert forall j | i < j < |n| :: n[j] == m[j - 1];
    assert n[i] == e;
    assert forall j | 0 <= j < |m| :: m[j] in m;
  }

  lemma {:induction false} InfosInsert(m: PartitionMap, e: Entry<PartitionInfo>, n: PartitionMap)
    requires forall x :: x in n <==> x in m || x == e
    ensures InfosOf(n) == InfosOf(m) + {e.value}
  {
    forall p ensures p in InfosOf(n) <==> p in InfosOf(m) || p == e.value {
      assert e in n;
      if p in InfosOf(m) {
        var x :| x in m && x.value == p;
        assert x in n;
      }
    }
  }

  lemma {:induction false} MembersInsert(m: PartitionMap, n: int, p: PartitionInfo)
    requires Ascending(m) && !Contains(m, n)
    ensures forall x :: x in Insert(m, n, p) <==> x in m || x == Entry(n, p)
    ensures InfosOf(Insert(m, n, p)) == InfosOf(m) + {p}
    ensures Distinct(m) && p !in InfosOf(m) ==> Distinct(Insert(m, n, p))
  {
    var a, b := m[..Position(m, n)], m[Position(m, n)..];
    InsertShape(m, n, p);
    assert m == a + b;
    SpliceMembers(a, Entry(n, p), b);
    InfosInsert(m, Entry(n, p), Insert(m, n, p));
    if Distinct(m) && p !in InfosOf(m) {
      SpliceDistinct(a, Entry(n, p), b);
    }
  }

  /** All logical partitions by number, then the primary ones. */
  function LogicalThenPrimary<V>(m: OrderedMap<V>): OrderedMap<V> {
    m[Position(m, 6)..] + m[..Position(m, 6)]
  }

  /** `if first()->requiresPartitionNumber() == k then push_back(takeFirst())` on entries. */
  function Rotate<V>(m: OrderedMap<V>, k: int): OrderedMap<V> {
    if m != [] && m[0].key == k then m[1..] + [m[0]] else m
  }

  /** The order in which space is given out. */
  function PlacementOrderOf<V>(m: OrderedMap<V>): OrderedMap<V> {
    Rotate(Rotate(Rotate(m, 2), 3), 4)
  }

  /** The number of primary partitions at the front. */
  ghost function Primaries(m: PartitionMap): nat {
    if |m| == 0 || m[0].key >= 6 then 0 else if |m| == 1 || m[1].key >= 6 then 1 else 2
  }

  lemma {:induction false} PrimariesFirst(m: PartitionMap)
    requires NumbersOk(m) && Regular(m)
    ensures Primaries(m) <= |m| && Position(m, 6) == Primaries(m)
    ensures Primaries(m) == 2 ==> (m[0].key == 2 && m[1].key == 3) || (m[0].key == 3 && m[1].key == 4)
  {
    var n := Primaries(m);
    if m != [] {
      assert m[0] in m;
    }
    if n == 2 {
      ContainsIsMembership(m, 2);
      ContainsIsMembership(m, 4);
      assert m[0].key < m[1].key;
      assert |m| > 2 ==> m[1].key < m[2].key;
    }
    PositionIsUnique(m, 6, n);
  }

  lemma {:induction false} RotateOne(m: PartitionMap, k: int)
    requires m != [] && m[0].key == k && (|m| > 1 ==> m[1].key > 4)
    requires 2 <= k <= 4
    ensures PlacementOrderOf(m) == m[1..] + m[..1]
  {
    var a := m[1..] + [m[0]];
    assert Rotate(m, k) == a;
    assert |m| > 1 ==> a[0] == m[1];
    assert |m| == 1 ==> a == m;
  }

  lemma {:induction false} RotateTwo(m: PartitionMap, k: int)
    requires |m| >= 2 && m[0].key == k && m[1].key == k + 1 && (|m| > 2 ==> m[2].key > 4)
    requires k == 2 || k == 3
    ensures PlacementOrderOf(m) == m[2..] + m[..2]
  {
    var a, b := m[1..] + [m[0]], m[2..] + m[..2];
    assert Rotate(m, k) == a && a[0] == m[1];
    assert a[1..] + [a[0]] == b;
    assert Rotate(a, k + 1) == b;
    assert b[0] == if |m| > 2 then m[2] else m[0];
  }

  lemma {:induction false} RotateNone(m: PartitionMap)
    requires m != [] ==> !(2 <= m[0].key <= 4)
    ensures PlacementOrderOf(m) == m
  {
  }

  /** The three rotations bring the primary partitions, in order, behind the logical ones. */
  lemma {:induction false} RotationsReorder(m: PartitionMap)
    requires NumbersOk(m) && Regular(m)
    ensures PlacementOrderOf(m) == LogicalThenPrimary(m)
  {
    PrimariesFirst(m);
    PositionMeaning(m, 6);
    var n := Primaries(m);
    assert LogicalThenPrimary(m) == m[n..] + m[..n];
    if n == 0 {
      RotateNone(m);
      assert m[0..] + m[..0] == m;
    } else if n == 1 {
      RotateOne(m, m[0].key);
    } else {
      assert |m| > 2 ==> m[2].key > m[1].key;
      RotateTwo(m, m[0].key);
    }
  }

  /** A negative number in front stops the rotations. */
  lemma {:induction false} NegativeComesFirst(m: PartitionMap)
    requires NumbersOk(m) && !Regular(m)
    ensures m != [] && m[0].key < 0 && PlacementOrderOf(m) == m
  {
    var e :| e in m && e.key < 2;
    var i :| 0 <= i < |m| && m[i] == e;
    assert i > 0 ==> m[0].key < m[i].key;
    assert OsNumber(m[0].key);
    RotateNone(m);
  }

  /** The logical partitions are placed first if and only if no number is negative or there is no logical partition. */
  lemma {:induction false} RotationsReorderIff(m: PartitionMap)
    requires NumbersOk(m)
    ensures PlacementOrderOf(m) == LogicalThenPrimary(m) <==> Regular(m) || Position(m, 6) == |m|
  {
    if Regular(m) {
      RotationsReorder(m);
    } else {
      var n := Position(m, 6);
      NegativeComesFirst(m);
      PositionMeaning(m, 6);
      if n == |m| {
        assert m[n..] + m[..n] == m;
      } else {
        assert n > 0 && m[0].key < m[n].key;
        assert LogicalThenPrimary(m)[0] == m[n];
      }
    }
  }

  /** With -1 and 6 the primary partition is placed in front of the logical one. */
  lemma {:induction false} NegativeIsPlacedFirst(p: PartitionInfo, q: PartitionInfo)
    ensures var m := [Entry(-1, p), Entry(6, q)];
            NumbersOk(m) && PlacementOrderOf(m) == m && LogicalThenPrimary(m) == [Entry(6, q), Entry(-1, p)]
  {
    var m := [Entry(-1, p), Entry(6, q)];
    assert NumbersOk(m);
    PositionIsUnique(m, 6, 1);
    RotateNone(m);
    assert m[1..] == [Entry(6, q)] && m[..1] == [Entry(-1, p)];
  }

  function Requests(order: seq<PartitionInfo>): (rs: seq<Request>)
    reads (set p | p in order)`offset
    ensures |rs| == |order| && forall i | 0 <= i < |order| :: rs[i] == order[i].AsRequest()
  {
    if order == [] then [] else [order[0].AsRequest()] + Requests(order[1..])
  }

  function Slots(order: seq<PartitionInfo>): (slots: seq<Slot>)
    reads (set p | p in order)`offset, (set p | p in order)`sizeSectors
    ensures |slots| == |order| && forall i | 0 <= i < |order| :: slots[i] == order[i].AsSlot()
  {
    if order == [] then [] else [order[0].AsSlot()] + Slots(order[1..])
  }

  /** The accounting of the map is the budget of the requests. */
  lemma {:induction false} BudgetIsTotal(m: PartitionMap, rs: seq<Request>, extra: int)
    requires RequestsOf(m, rs)
    ensures Budget(rs, extra) == TotalCharge(m) + CountMaximised(m) * extra
  {
    if m != [] {
      BudgetIsTotal(m[1..], rs[1..], extra);
      assert CountMaximised(m) * extra
          == CountMaximised(m[1..]) * extra + (if m[0].value.wantMaximised then extra else 0);
    }
  }

  lemma {:induction false} SwapParts(a: PartitionMap, b: PartitionMap)
    requires Distinct(a + b)
    ensures Distinct(b + a) && InfosOf(b + a) == InfosOf(a + b)
  {
    var m, t := a + b, b + a;
    assert forall i | 0 <= i < |b| :: t[i] == m[|a| + i];
    assert forall i | |b| <= i < |t| :: t[i] == m[i - |b|];
    assert forall e :: e in t <==> e in m;
  }

  ghost predicate SamePartitions(m: PartitionMap, n: PartitionMap) {
    && (Distinct(m) ==> Distinct(n)) && InfosOf(n) == InfosOf(m)
    && TotalCharge(n) == TotalCharge(m) && CountMaximised(n) == CountMaximised(m)
  }

  lemma {:induction false} RotateKeeps(m: PartitionMap, k: int)
    requires Distinct(m)
    ensures SamePartitions(m, Rotate(m, k))
  {
    if m != [] {
      var a, b := [m[0]], m[1..];
      assert m == a + b;
      TotalsConcat(a, b);
      TotalsConcat(b, a);
      SwapParts(a, b);
    }
  }

  /** Placement order keeps the partitions, their distinctness and their totals. */
  lemma {:induction false} OrderIsPermutation(m: PartitionMap)
    requires Distinct(m)
    ensures SamePartitions(m, PlacementOrderOf(m)) && Distinct(PlacementOrderOf(m))
  {
    RotateKeeps(m, 2);
    RotateKeeps(Rotate(m, 2), 3);
    RotateKeeps(Rotate(Rotate(m, 2), 3), 4);
  }

  /** The list holds exactly the given partitions, each once. */
  ghost predicate Lists(order: seq<PartitionInfo>, infos: set<PartitionInfo>) {
    && (forall p | p in order :: p in infos)
    && (forall p | p in infos :: p in order)
    && (forall i, j | 0 <= i < j < |order| :: order[i] != order[j])
  }

  /** Placement order lists exactly the partitions of the map, each once. */
  lemma {:induction false} OrderListsInfos(m: PartitionMap)
    requires Distinct(m)
    ensures Lists(Values(PlacementOrderOf(m)), InfosOf(m))
  {
    OrderIsPermutation(m);
    ValuesAreInfos(PlacementOrderOf(m));
  }

  lemma {:induction false} ValuesAreInfos(m: PartitionMap)
    ensures forall p :: p in Values(m) <==> p in InfosOf(m)
    ensures Distinct(m) <==> forall i, j | 0 <= i < j < |m| :: Values(m)[i] != Values(m)[j]
  {
    forall p ensures p in Values(m) <==> p in InfosOf(m) {
      if p in InfosOf(m) {
        var e :| e in m && e.value == p;
        var i :| 0 <= i < |m| && m[i] == e;
        assert Values(m)[i] == p;
      }
      if p in Values(m) {
        var i :| 0 <= i < |m| && Values(m)[i] == p;
        assert m[i] in m;
      }
    }
  }

  /** The requests are those of the partitions in the map. */
  ghost predicate RequestsOf(m: PartitionMap, rs: seq<Request>) {
    && |rs| == |m|
    && forall i | 0 <= i < |m| :: rs[i].nominal == m[i].value.nominal && rs[i].maximised == m[i].value.wantMaximised
  }

  /** A tail has a part of the budget. */
  lemma {:induction false} TailBudget(rs: seq<Request>, extra: int)
    requires Positive(rs) && extra >= 0
    ensures Positive(FreeTail(rs)) && 0 <= Budget(FreeTail(rs), extra) <= Budget(rs, extra)
  {
    BudgetPositive(rs, extra);
    if rs != [] && !NoneFixed(rs[1..]) {
      TailBudget(rs[1..], extra);
    }
  }

  /**
   * The slack that makes the check enough: of all partitions when no offset is requested, and of those from the
   * fixed one on when the only offset in use is that of RISC OS, in front of which `reserved` MiB were set aside.
   */
  ghost predicate SlackIsThere(rs: seq<Request>, start: int, extra: int, reserved: int) {
    || (NoneFixed(rs) && TotalSlack(rs, extra) >= 0)
    || (rs != [] && FreeTail(rs)[0].fixed == RISCOS_SECTOR_OFFSET && TotalSlack(FreeTail(rs), extra) >= 0
        && reserved >= Quot(RISCOS_SECTOR_OFFSET - start, SECTORS_PER_MB))
  }

  lemma {:induction false} RiscOsFitsDisk(rs: seq<Request>, start: int, extra: int, total: int, reserved: int)
    requires 0 <= start <= total && Aligned(start + GAP) && total % SECTORS_PER_MB == 0 && extra >= 0 && reserved >= 0
    requires Positive(rs) && rs != [] && Place(rs, start, extra, total).Some?
    requires reserved + Budget(rs, extra) <= Quot(total - start, SECTORS_PER_MB)
    requires FreeTail(rs)[0].fixed == RISCOS_SECTOR_OFFSET && TotalSlack(FreeTail(rs), extra) >= 0
    requires reserved >= Quot(RISCOS_SECTOR_OFFSET - start, SECTORS_PER_MB)
    ensures OnDisk(Place(rs, start, extra, total).value, total)
  {
    var tail := FreeTail(rs);
    OnDiskIff(rs, start, extra, total);
    TailBudget(rs, extra);
    FinalEndOfAligned(tail, RISCOS_SECTOR_OFFSET, extra);
    NeededIsExact(tail, extra);
    WholeMB(start, total, reserved + Budget(tail, extra));
    RiscOsReserve(start, reserved);
  }

  /** The budget is available and the slack is there: every partition ends on the disk. */
  lemma {:induction false} BudgetFitsDisk(rs: seq<Request>, start: int, extra: int, total: int, reserved: int)
    requires 0 <= start <= total && Aligned(start + GAP) && total % SECTORS_PER_MB == 0 && extra >= 0 && reserved >= 0
    requires Positive(rs) && rs != [] && Place(rs, start, extra, total).Some?
    requires reserved + Budget(rs, extra) <= Quot(total - start, SECTORS_PER_MB)
    requires SlackIsThere(rs, start, extra, reserved)
    ensures OnDisk(Place(rs, start, extra, total).value, total)
  {
    if NoneFixed(rs) && TotalSlack(rs, extra) >= 0 {
      PlaceFitsDiskIff(rs, start, extra, total);
    } else {
      RiscOsFitsDisk(rs, start, extra, total, reserved);
    }
  }

  /** The MiB set aside reach from the first aligned start to the RISC OS partition. */
  lemma {:induction false} RiscOsReserve(start: int, reserved: int)
    requires start >= 0 && Aligned(start + GAP) && reserved >= 0
    requires reserved >= Quot(RISCOS_SECTOR_OFFSET - start, SECTORS_PER_MB)
    ensures AlignUp(start + GAP) + SECTORS_PER_MB * reserved >= RISCOS_SECTOR_OFFSET
  {
    var b := (start + GAP) / ALIGNMENT;
    assert start + GAP == 4 * b * SECTORS_PER_MB;
    if start <= RISCOS_SECTOR_OFFSET {
      assert RISCOS_SECTOR_OFFSET - start == (1760 - 4 * b) * SECTORS_PER_MB + GAP;
      MBAndGap(1760 - 4 * b);
    }
  }

  /**
   * What a successful placement promises: slots in order and disjoint, requested offsets kept, the others aligned
   * behind a gap, and the right sizes. All of them end on the disk if and only if the final end does, and so they do when the start is
   * right for the alignment, the disk has whole MiB and the slack is there.
   */
  ghost predicate LaidOut(rs: seq<Request>, slots: seq<Slot>, start: int, extra: int, total: int, reserved: int) {
    && Ordered(slots, start)
    && Respects(rs, slots, start)
    && Sized(rs, slots, extra, total)
    && (rs != [] ==> (OnDisk(slots, total) <==> FinalEnd(FreeTail(rs), TailStart(rs, start), extra) <= total))
    && (Aligned(start + GAP) && total % SECTORS_PER_MB == 0 && SlackIsThere(rs, start, extra, reserved) ==>
          OnDisk(slots, total))
  }

  lemma {:induction false} PlaceIsLaidOut(rs: seq<Request>, start: int, extra: int, total: int, reserved: int)
    requires 0 <= start <= total && extra >= 0 && reserved >= 0 && Positive(rs)
    requires reserved + Budget(rs, extra) <= Quot(total - start, SECTORS_PER_MB)
    requires Place(rs, start, extra, total).Some?
    ensures LaidOut(rs, Place(rs, start, extra, total).value, start, extra, total, reserved)
  {
    PlaceIsWell(rs, start, extra, total);
    PlaceSizes(rs, start, extra, total);
    if rs != [] {
      OnDiskIff(rs, start, extra, total);
      if Aligned(start + GAP) && total % SECTORS_PER_MB == 0 && SlackIsThere(rs, start, extra, reserved) {
        BudgetFitsDisk(rs, start, extra, total, reserved);
      }
    }
  }

  /**
   * A successful placement lays the partitions of the map out well: `rs` are the requests in placement order, `free`
   * the MiB that the charges of the map and those set aside for RISC OS leave.
   */
  lemma {:induction false} LayoutFollows(m: PartitionMap, rs: seq<Request>, start: int, total: int, free: int,
                                         extra: int, reserved: int, slots: seq<Slot>)
    requires Distinct(m) && RequestsOf(PlacementOrderOf(m), rs)
    requires 0 <= start <= total && Positive(rs) && reserved >= 0
    requires reserved + TotalCharge(m) + free <= Quot(total - start, SECTORS_PER_MB)
    requires SharesFit(CountMaximised(m), extra, free)
    requires Place(rs, start, extra, total) == Some(slots)
    ensures LaidOut(rs, slots, start, extra, total, reserved)
  {
    OrderIsPermutation(m);
    BudgetIsTotal(PlacementOrderOf(m), rs, extra);
    PlaceIsLaidOut(rs, start, extra, total, reserved);
  }

  /** The free MiB are enough for the extra space of `n` partitions. */
  ghost predicate SharesFit(n: nat, extra: int, free: int) {
    extra >= 0 && n * extra <= free
  }

  /** Each of `n` partitions gets as many of the free MiB as all of them can get. */
  predicate SharedOut(n: nat, extra: int, free: int) {
    n != 0 ==> n * extra <= free < n * (extra + 1)
  }

  lemma {:induction false} ExtraIsLargest(free: int, n: nat)
    requires free >= 0
    ensures n != 0 ==> SharedOut(n, Quot(free, n), free)
  {
    if n != 0 {
      assert free == n * (free / n) + free % n;
    }
  }

  lemma {:induction false} ExtraIsNonNegative(free: int, n: nat)
    requires free >= 0
    ensures n != 0 ==> Quot(free, n) >= 0 && n * Quot(free, n) <= free
  {
  }

  /** The device name and the requested number, if any, match the key. */
  ghost predicate Labelled(e: Entry<PartitionInfo>)
    reads e.value`device, e.value`requiredNumber
  {
    && e.value.device == MmcBlk0p(e.key)
    && (e.value.requiredNumber == e.key || (e.value.requiredNumber == 0 && e.key >= 6))
  }

  /** The number a partition gets: the one it requires, or the next free one. */
  function NumberIn(m: PartitionMap, required: int): int {
    if required == 0 then AutoNumber(m) else required
  }

  /** The three refusals of `checkPartition`. */
  predicate AcceptedIn(m: PartitionMap, n: int) {
    && !Contains(m, n)
    && n != 1 && n != 5
    && !(n == 2 && Contains(m, 4))
    && !(n == 4 && Contains(m, 2))
  }

  /** A number is refused exactly if it is taken or would break the numbering rules. */
  lemma {:induction false} AcceptedIff(m: PartitionMap, n: int, p: PartitionInfo)
    requires NumbersOk(m) && n != 0
    ensures AcceptedIn(m, n) <==> !Contains(m, n) && NumbersOk(Insert(m, n, p))
  {
    if !Contains(m, n) {
      if AcceptedIn(m, n) {
        NumbersInsert(m, n, p);
      } else {
        MembersInsert(m, n, p);
        InsertFresh(m, n, p, 2);
        InsertFresh(m, n, p, 4);
        InsertFresh(m, n, p, n);
        var i :| 0 <= i < |Insert(m, n, p)| && Insert(m, n, p)[i] == Entry(n, p);
      }
    }
  }

  /** The requested numbers with the partitions that request them. */
  ghost function Wishes(ps: seq<PartitionInfo>): (wishes: seq<Entry<PartitionInfo>>)
    reads (set p | p in ps)`requiredNumber
    ensures |wishes| == |ps| && forall i | 0 <= i < |ps| :: wishes[i] == Entry(ps[i].requiredNumber, ps[i])
  {
    if ps == [] then [] else [Entry(ps[0].requiredNumber, ps[0])] + Wishes(ps[1..])
  }

  /** The map after entering partitions one after the other, or nothing if one of them is refused. */
  ghost function EnterAll(m: PartitionMap, wishes: seq<Entry<PartitionInfo>>): Option<PartitionMap> {
    if wishes == [] then Some(m)
    else
      var last := wishes[|wishes| - 1];
      match EnterAll(m, wishes[..|wishes| - 1])
      case None => None
      case Some(entered) =>
        var n := NumberIn(entered, last.key);
        if AcceptedIn(entered, n) then Some(Insert(entered, n, last.value)) else None
  }

  /** The number of partitions entered before the first refused one. */
  ghost function AcceptedPrefix(m: PartitionMap, wishes: seq<Entry<PartitionInfo>>): (k: nat)
    ensures k <= |wishes|
  {
    if EnterAll(m, wishes).Some? then |wishes| else AcceptedPrefix(m, wishes[..|wishes| - 1])
  }

  lemma {:induction false} EnterStep(m: PartitionMap, wishes: seq<Entry<PartitionInfo>>, i: nat, entered: PartitionMap)
    requires i < |wishes| && EnterAll(m, wishes[..i]) == Some(entered)
    ensures var n := NumberIn(entered, wishes[i].key);
            EnterAll(m, wishes[..i + 1])
            == if AcceptedIn(entered, n) then Some(Insert(entered, n, wishes[i].value)) else None
  {
    assert wishes[..i + 1][..i] == wishes[..i];
  }

  lemma {:induction false} RefusedPrefix(m: PartitionMap, wishes: seq<Entry<PartitionInfo>>, i: nat)
    requires i <= |wishes| && EnterAll(m, wishes[..i]).None?
    ensures EnterAll(m, wishes).None?
  {
    if i < |wishes| {
      assert wishes[..|wishes| - 1][..i] == wishes[..i];
      RefusedPrefix(m, wishes[..|wishes| - 1], i);
    } else {
      assert wishes[..i] == wishes;
    }
  }

  /** The first refusal ends the prefix. */
  lemma {:induction false} PrefixEnds(m: PartitionMap, wishes: seq<Entry<PartitionInfo>>, i: nat)
    requires i < |wishes| && EnterAll(m, wishes[..i]).Some? && EnterAll(m, wishes[..i + 1]).None?
    ensures AcceptedPrefix(m, wishes) == i
  {
    RefusedPrefix(m, wishes, i + 1);
    var init := wishes[..|wishes| - 1];
    if i < |wishes| - 1 {
      assert init[..i] == wishes[..i] && init[..i + 1] == wishes[..i + 1];
      PrefixEnds(m, init, i);
    } else {
      assert init == wishes[..i];
    }
  }

  /** The partitions are distinct and none of them is among `infos`. */
  ghost predicate NewTo(ps: seq<PartitionInfo>, infos: set<PartitionInfo>) {
    && (forall p | p in ps :: p !in infos)
    && (forall i, j | 0 <= i < j < |ps| :: ps[i] != ps[j])
  }

  lemma {:induction false} PrefixInfos(wishes: seq<Entry<PartitionInfo>>, i: nat)
    requires i < |wishes|
    ensures InfosOf(wishes[..i + 1]) == InfosOf(wishes[..i]) + {wishes[i].value}
    ensures Distinct(wishes) ==> wishes[i].value !in InfosOf(wishes[..i])
  {
    var more := wishes[..i + 1];
    assert more == wishes[..i] + [wishes[i]];
    InfosInsert(wishes[..i], wishes[i], more);
  }

  ghost predicate ForRiscOs(first: PartitionInfo, last: PartitionInfo)
    reads first, last
  {
    && first.offset == RISCOS_SECTOR_OFFSET && last.requiredNumber == 7
    && (first != last ==> first.requiredNumber == 6)
  }

  class InstallManager {
    const startSector: int
    const totalSectors: int
    const availableMB: int := Quot(totalSectors - startSector, SECTORS_PER_MB)
    var extraSpacePerPartition: int
    var totalNominal: int
    var numParts: nat
    var numExpandParts: nat
    var partitionMap: PartitionMap
    /** The MiB left free in front of a RISC OS partition. */
    ghost var reserved: int

    constructor (startSector: int, totalSectors: int)
      ensures this.startSector == startSector && this.totalSectors == totalSectors
      ensures partitionMap == [] && Numbered() && Accounted() && reserved == 0
    {
      this.startSector, this.totalSectors := startSector, totalSectors;
      extraSpacePerPartition, totalNominal, numParts, numExpandParts := 0, 0, 0, 0;
      partitionMap := [];
      reserved := 0;
    }

    ghost function Infos(): set<PartitionInfo>
      reads this`partitionMap
    {
      InfosOf(partitionMap)
    }

    /** The numbering invariant: allowed distinct numbers, distinct partitions, device names that match. */
    ghost predicate Numbered()
      reads this`partitionMap, Infos()`device, Infos()`requiredNumber
    {
      && NumbersOk(partitionMap)
      && Distinct(partitionMap)
      && (forall e | e in partitionMap :: Labelled(e))
    }

    /** The totals are those of the partitions in the map and of a refused one. */
    ghost predicate AccountedWith(nominal: int, maximised: nat)
      reads this`totalNominal, this`numExpandParts, this`partitionMap, this`reserved, this`extraSpacePerPartition
    {
      && totalNominal == reserved + TotalCharge(partitionMap) + nominal
      && numExpandParts == CountMaximised(partitionMap) + maximised
      && reserved >= 0
      && (numExpandParts == 0 ==> extraSpacePerPartition >= 0)
    }

    /** The totals are those of the partitions in the map. */
    ghost predicate Accounted()
      reads this`totalNominal, this`numExpandParts, this`partitionMap, this`reserved, this`extraSpacePerPartition
    {
      AccountedWith(0, 0)
    }

    function NumberFor(p: PartitionInfo): int
      reads this`partitionMap, p`requiredNumber
    {
      NumberIn(partitionMap, p.requiredNumber)
    }

    predicate Accepts(n: int)
      reads this`partitionMap
    {
      AcceptedIn(partitionMap, n)
    }

    method Enter(p: PartitionInfo, number: int)
      requires Numbered() && p !in Infos() && Accepts(number) && OsNumber(number)
      requires Labelled(Entry(number, p))
      modifies this`partitionMap
      ensures Numbered()
      ensures partitionMap == Insert(old(partitionMap), number, p)
      ensures Infos() == old(Infos()) + {p}
    {
      NumbersInsert(partitionMap, number, p);
      MembersInsert(partitionMap, number, p);
      partitionMap := Insert(partitionMap, number, p);
    }

    method NameAndEnter(p: PartitionInfo, number: int)
      requires Numbered() && p !in Infos() && Accepts(number) && OsNumber(number)
      requires p.requiredNumber == number || (p.requiredNumber == 0 && number >= 6)
      modifies this`partitionMap, p`device
      ensures Numbered()
      ensures partitionMap == Insert(old(partitionMap), number, p)
      ensures p.device == MmcBlk0p(number) && Infos() == old(Infos()) + {p}
    {
      p.device := MmcBlk0p(number);
      Enter(p, number);
    }

    /** The maximum overhead of a partition for alignment. */
    method ChargeAlignment(p: PartitionInfo)
      modifies this`totalNominal
      ensures totalNominal == old(totalNominal) + p.Charged() - p.nominal
    {
      if p.wantMaximised || Rem(p.nominal * SECTORS_PER_MB, ALIGNMENT) != 0 {
        totalNominal := totalNominal + ALIGNMENT / SECTORS_PER_MB;
      }
    }

    method PickNumber(p: PartitionInfo) returns (number: int)
      requires Numbered()
      ensures number == NumberFor(p) && number != 0
      ensures number == p.requiredNumber || (p.requiredNumber == 0 && number >= 6)
    {
      number := p.requiredNumber;
      if number == 0 {
        AutoNumberIsFresh(partitionMap);
        number := AutoNumber(partitionMap);
      }
    }

    method Acceptable(number: int) returns (ok: bool)
      requires number != 0
      ensures ok == Accepts(number)
      ensures ok ==> OsNumber(number)
    {
      if Contains(partitionMap, number) {
        return false;
      }
      if number == 1 || number == 5 {
        return false;
      }
      if (number == 2 && Contains(partitionMap, 4)) || (number == 4 && Contains(partitionMap, 2)) {
        return false;
      }
      ok := true;
    }

    method CheckPartition(p: PartitionInfo) returns (ok: bool)
      requires Numbered() && p !in Infos()
      modifies this`partitionMap, this`numParts, this`numExpandParts, this`totalNominal, p`device
      ensures Numbered()
      ensures ok == old(Accepts(NumberFor(p)))
      ensures !ok ==> partitionMap == old(partitionMap) && p.device == old(p.device)
      ensures ok ==> partitionMap == Insert(old(partitionMap), old(NumberFor(p)), p)
      ensures ok ==> p.device == MmcBlk0p(old(NumberFor(p))) && Infos() == old(Infos()) + {p}
      ensures ok ==> !Contains(old(partitionMap), old(NumberFor(p))) && OsNumber(old(NumberFor(p)))
      ensures totalNominal == old(totalNominal) + if ok then p.Charged() else p.nominal
      ensures numExpandParts == old(numExpandParts) + if p.wantMaximised then 1 else 0
    {
      numParts := numParts + 1;
      if p.wantMaximised {
        numExpandParts := numExpandParts + 1;
      }
      totalNominal := totalNominal + p.nominal;
      var number := PickNumber(p);
      ok := Acceptable(number);
      if ok {
        NameAndEnter(p, number);
        ChargeAlignment(p);
      }
    }

    /** The same on regular numbers and on the totals: only a negative request leaves the range from 2 on. */
    method CheckOne(p: PartitionInfo) returns (ok: bool)
      requires Numbered() && p !in Infos()
      modifies this`partitionMap, this`numParts, this`numExpandParts, this`totalNominal, p`device
      ensures Numbered()
      ensures Infos() == if ok then old(Infos()) + {p} else old(Infos())
      ensures old(Accounted()) ==>
                if ok then Accounted() else AccountedWith(p.nominal, if p.wantMaximised then 1 else 0)
      ensures Regular(partitionMap) <==> old(Regular(partitionMap)) && (ok ==> p.requiredNumber >= 0)
      ensures ok == old(Accepts(NumberFor(p)))
      ensures partitionMap == if ok then Insert(old(partitionMap), old(NumberFor(p)), p) else old(partitionMap)
    {
      ghost var before, number := partitionMap, NumberFor(p);
      ok := CheckPartition(p);
      if ok {
        TotalsInsert(before, number, p);
        RegularInsert(before, number, p);
        if p.requiredNumber == 0 {
          AutoNumberIsFresh(before);
        }
      }
    }

    /** An image has partitions, and before a RISC OS one there is room for the recovery partition. */
    predicate Admissible(partitions: seq<PartitionInfo>, riscOs: bool) {
      partitions != [] && (riscOs ==> startSector <= RISCOS_SECTOR_OFFSET - 2048)
    }

    twostate predicate Untouched(p: PartitionInfo)
      reads p
    {
      p.offset == old(p.offset) && p.requiredNumber == old(p.requiredNumber)
    }

    /** The first `k` wishes have been met, starting with the map `start`. */
    ghost predicate Entered(start: PartitionMap, wishes: seq<Entry<PartitionInfo>>, k: nat)
      requires k <= |wishes|
      reads this`partitionMap, Infos()`device, Infos()`requiredNumber
    {
      && Numbered()
      && EnterAll(start, wishes[..k]) == Some(partitionMap)
      && Infos() == InfosOf(start) + InfosOf(wishes[..k])
    }

    /** The totals once the partitions after the first `k` have not been entered: the next one has been refused. */
    ghost predicate TotalsAfter(partitions: seq<PartitionInfo>, k: nat)
      requires k <= |partitions|
      reads this`totalNominal, this`numExpandParts, this`partitionMap, this`reserved, this`extraSpacePerPartition
    {
      if k == |partitions| then Accounted()
      else AccountedWith(partitions[k].nominal, if partitions[k].wantMaximised then 1 else 0)
    }

    method CheckImage(partitions: seq<PartitionInfo>, riscOs: bool) returns (ok: bool)
      requires Numbered() && startSector >= 0 && NewTo(partitions, Infos())
      modifies this`partitionMap, this`numParts, this`numExpandParts, this`totalNominal, this`reserved
      modifies set p | p in partitions
      ensures Numbered()
      ensures !Admissible(partitions, riscOs) ==>
                !ok && unchanged(this) && forall p | p in partitions :: unchanged(p)
      ensures Admissible(partitions, riscOs) ==>
                var k := AcceptedPrefix(old(partitionMap), Wishes(partitions));
                && ok == (k == |partitions|)
                && Entered(old(partitionMap), Wishes(partitions), k)
                && (old(Accounted()) ==> TotalsAfter(partitions, k))
                && (riscOs ==> ForRiscOs(partitions[0], partitions[|partitions| - 1]))
                && reserved == old(reserved) + if riscOs then (RISCOS_SECTOR_OFFSET - startSector) / 2048 else 0
      ensures forall p | p in partitions ::
                Untouched(p) || (riscOs && (p == partitions[0] || p == partitions[|partitions| - 1]))
    {
      if partitions == [] {
        return false;
      }
      if riscOs {
        if startSector > RISCOS_SECTOR_OFFSET - 2048 {
          return false;
        }
        ReserveForRiscOs(partitions[0], partitions[|partitions| - 1]);
      }
      ghost var wishes := Wishes(partitions);
      ok := CheckPartitions(partitions, wishes);
      assert Wishes(partitions) == wishes;
    }

    /** The fixed numbers and the fixed offset of a RISC OS image. */
    method ReserveForRiscOs(first: PartitionInfo, last: PartitionInfo)
      requires Numbered() && first !in Infos() && last !in Infos() && 0 <= startSector <= RISCOS_SECTOR_OFFSET - 2048
      modifies this`totalNominal, this`reserved, first`requiredNumber, first`offset, last`requiredNumber
      ensures Numbered() && ForRiscOs(first, last)
      ensures old(Accounted()) ==> Accounted()
      ensures reserved == old(reserved) + (RISCOS_SECTOR_OFFSET - startSector) / 2048
    {
      totalNominal := totalNominal + Quot(RISCOS_SECTOR_OFFSET - startSector, 2048);
      reserved := reserved + (RISCOS_SECTOR_OFFSET - startSector) / 2048;
      first.requiredNumber := 6;
      first.offset := RISCOS_SECTOR_OFFSET;
      last.requiredNumber := 7;
    }

    /** The loop of `checkImage` over the partitions. */
    method CheckPartitions(partitions: seq<PartitionInfo>, ghost wishes: seq<Entry<PartitionInfo>>) returns (ok: bool)
      requires Numbered() && NewTo(partitions, Infos()) && wishes == Wishes(partitions)
      modifies this`partitionMap, this`numParts, this`numExpandParts, this`totalNominal
      modifies (set p | p in partitions)`device
      ensures var k := AcceptedPrefix(old(partitionMap), wishes);
              && ok == (k == |partitions|)
              && Entered(old(partitionMap), wishes, k)
              && (old(Accounted()) ==> TotalsAfter(partitions, k))
    {
      ghost var start, accounted := partitionMap, Accounted();
      ok := true;
      var i := 0;
      NothingEntered(wishes);
      while i < |partitions|
        invariant 0 <= i <= |partitions| && Entered(start, wishes, i)
        invariant forall j | i <= j < |partitions| :: wishes[j] == Entry(partitions[j].requiredNumber, partitions[j])
        invariant accounted ==> Accounted()
      {
        ok := CheckNext(partitions[i], i, start, wishes);
        if !ok {
          return;
        }
        i := i + 1;
      }
      AllEntered(start, wishes);
    }

    lemma {:induction false} NothingEntered(wishes: seq<Entry<PartitionInfo>>)
      requires Numbered()
      ensures Entered(partitionMap, wishes, 0)
    {
      assert wishes[..0] == [];
    }

    lemma {:induction false} AllEntered(start: PartitionMap, wishes: seq<Entry<PartitionInfo>>)
      requires Entered(start, wishes, |wishes|)
      ensures AcceptedPrefix(start, wishes) == |wishes|
    {
      assert wishes[..|wishes|] == wishes;
    }

    /** One round of that loop. */
    method CheckNext(p: PartitionInfo, i: nat, ghost start: PartitionMap, ghost wishes: seq<Entry<PartitionInfo>>)
      returns (ok: bool)
      requires i < |wishes| && wishes[i] == Entry(p.requiredNumber, p) && Entered(start, wishes, i)
      requires Distinct(wishes) && p !in InfosOf(start)
      modifies this`partitionMap, this`numParts, this`numExpandParts, this`totalNominal, p`device
      ensures Entered(start, wishes, if ok then i + 1 else i)
      ensures old(Accounted()) ==>
                if ok then Accounted() else AccountedWith(p.nominal, if p.wantMaximised then 1 else 0)
      ensures !ok ==> AcceptedPrefix(start, wishes) == i
    {
      PrefixInfos(wishes, i);
      EnterStep(start, wishes, i, partitionMap);
      ok := CheckOne(p);
      if !ok {
        PrefixEnds(start, wishes, i);
      }
    }

    /** All partitions in placement order. */
    ghost function Order(): seq<PartitionInfo>
      reads this`partitionMap
    {
      Values(PlacementOrderOf(partitionMap))
    }

    method PlacementOrder() returns (order: seq<PartitionInfo>)
      requires Numbered()
      ensures order == Order()
      ensures Regular(partitionMap) ==> order == Values(LogicalThenPrimary(partitionMap))
    {
      order := Values(partitionMap);
      order := TakeFirstToBack(order, 2, partitionMap);
      order := TakeFirstToBack(order, 3, Rotate(partitionMap, 2));
      order := TakeFirstToBack(order, 4, Rotate(Rotate(partitionMap, 2), 3));
      if Regular(partitionMap) {
        RotationsReorder(partitionMap);
      }
    }

    method TakeFirstToBack(order: seq<PartitionInfo>, k: int, ghost m: PartitionMap) returns (rotated: seq<PartitionInfo>)
      requires order == Values(m) && 2 <= k <= 4
      requires forall e | e in m :: Labelled(e)
      ensures rotated == Values(Rotate(m, k))
      ensures forall e | e in Rotate(m, k) :: Labelled(e)
    {
      rotated := order;
      if order != [] && order[0].requiredNumber == k {
        assert m[0] in m;
        rotated := order[1..] + [order[0]];
      } else if m != [] {
        assert m[0] in m;
      }
    }

    /** One round of the placement loop. */
    method PlaceOne(p: PartitionInfo, offset: int, last: bool) returns (ok: bool, end: int)
      modifies p`offset, p`sizeSectors
      ensures SlotFor(old(p.AsRequest()), last, offset, extraSpacePerPartition, totalSectors)
              == if ok then Some(p.AsSlot()) else None
      ensures ok ==> end == p.EndSector()
    {
      end := offset;
      var r := p.AsRequest();
      if p.offset != 0 {
        if p.offset <= offset {
          return false, offset;
        }
      } else {
        p.offset := AlignUp(offset + GAP);
      }
      var size := WantedSectors(r, extraSpacePerPartition);
      if last {
        var left := totalSectors - p.offset - size;
        if left > 0 && p.wantMaximised {
          size := size + left;
        }
      } else {
        if Rem(size, ALIGNMENT) == 0 && p.fsType != "raw" {
          size := size - GAP;
        }
        if p.wantMaximised && Rem(size + GAP, ALIGNMENT) != 0 {
          size := size + (ALIGNMENT - Rem(size + GAP, ALIGNMENT));
        }
      }
      p.sizeSectors := size;
      ok, end := true, p.offset + size;
    }

    /** The first `i` partitions have their slots, the others are as they were. */
    ghost predicate Progress(order: seq<PartitionInfo>, i: nat, rs: seq<Request>, done: seq<Slot>)
      requires i == |done| <= |order| == |rs|
      reads order
    {
      && (forall j | 0 <= j < i :: order[j].AsSlot() == done[j])
      && (forall j | i <= j < |order| :: order[j].AsRequest() == rs[j])
    }

    method PlaceNext(order: seq<PartitionInfo>, i: nat, p: PartitionInfo, offset: int, ghost infos: set<PartitionInfo>,
                     ghost rs: seq<Request>, ghost done: seq<Slot>) returns (ok: bool, end: int)
      requires Lists(order, infos) && |order| == |rs| && i == |done| < |order| && p == order[i]
      requires Progress(order, i, rs, done)
      modifies p`offset, p`sizeSectors
      ensures SlotFor(rs[i], i == |order| - 1, offset, extraSpacePerPartition, totalSectors)
              == if ok then Some(p.AsSlot()) else None
      ensures ok ==> end == p.EndSector() && Progress(order, i + 1, rs, done + [p.AsSlot()])
    {
      ok, end := PlaceOne(p, offset, p == order[|order| - 1]);
    }

    /** The placement loop; a partition is last when it is the last of the list. */
    method PlaceAll(order: seq<PartitionInfo>, ghost infos: set<PartitionInfo>) returns (ok: bool)
      requires Lists(order, infos)
      modifies infos`offset, infos`sizeSectors
      ensures var slots := Place(old(Requests(order)), startSector, extraSpacePerPartition, totalSectors);
              ok == slots.Some? && (ok ==> Slots(order) == slots.value)
    {
      ghost var rs, extra := Requests(order), extraSpacePerPartition;
      ghost var done: seq<Slot> := [];
      var offset := startSector;
      for i := 0 to |order|
        invariant |done| == i && Progress(order, i, rs, done)
        invariant offset == EndBefore(done, startSector, i)
        invariant Follows(rs, done, startSector, extra, totalSectors)
      {
        var p := order[i];
        ok, offset := PlaceNext(order, i, p, offset, infos, rs, done);
        if !ok {
          FollowsThenNone(rs, done, startSector, extra, totalSectors);
          return;
        }
        FollowsThenSome(rs, done, startSector, extra, totalSectors, p.AsSlot());
        done := done + [p.AsSlot()];
      }
      FollowsToTheEnd(rs, done, startSector, extra, totalSectors);
      assert Slots(order) == done;
      ok := true;
    }

    /** Placement in the given order, which lists the partitions of the map. */
    method PlaceInOrder(ghost order: seq<PartitionInfo>, ghost rs: seq<Request>) returns (ok: bool)
      requires Numbered() && order == Order() && rs == Requests(order)
      modifies Infos()`offset, Infos()`sizeSectors
      ensures var slots := Place(rs, startSector, extraSpacePerPartition, totalSectors);
              ok == slots.Some? && (ok ==> Slots(order) == slots.value)
    {
      var list := PlacementOrder();
      OrderListsInfos(partitionMap);
      ok := PlaceAll(list, Infos());
    }

    /** What a successful placement of the requests `rs` promises. */
    ghost predicate Arranged(rs: seq<Request>, slots: seq<Slot>)
      reads this`extraSpacePerPartition, this`reserved
    {
      Positive(rs) && 0 <= startSector <= totalSectors ==>
        LaidOut(rs, slots, startSector, extraSpacePerPartition, totalSectors, reserved)
    }

    lemma {:induction false} ArrangedFollows(rs: seq<Request>, slots: seq<Slot>)
      requires Distinct(partitionMap) && Accounted() && RequestsOf(PlacementOrderOf(partitionMap), rs)
      requires SharesFit(numExpandParts, extraSpacePerPartition, availableMB - totalNominal)
      requires Place(rs, startSector, extraSpacePerPartition, totalSectors) == Some(slots)
      ensures Arranged(rs, slots)
    {
      if Positive(rs) && 0 <= startSector <= totalSectors {
        LayoutFollows(partitionMap, rs, startSector, totalSectors, availableMB - totalNominal, extraSpacePerPartition,
                      reserved, slots);
      }
    }

    lemma {:induction false} RequestsMatch()
      ensures |Order()| == |partitionMap| && RequestsOf(PlacementOrderOf(partitionMap), Requests(Order()))
    {
    }

    /** The extra space of each partition that wants more, after the totals; without one it stays as it was. */
    function NextExtra(): int
      reads this`numExpandParts, this`totalNominal, this`extraSpacePerPartition
    {
      ExtraSpace(numExpandParts, availableMB - totalNominal, extraSpacePerPartition)
    }

    method ShareOut()
      modifies this`extraSpacePerPartition
      ensures extraSpacePerPartition == old(NextExtra())
      ensures totalNominal <= availableMB ==> SharedOut(numExpandParts, extraSpacePerPartition, availableMB - totalNominal)
      ensures old(Accounted()) && totalNominal <= availableMB ==> AccountedAndShared()
      ensures old(Accounted()) ==> Accounted()
    {
      if totalNominal <= availableMB {
        ExtraIsNonNegative(availableMB - totalNominal, numExpandParts);
        ExtraIsLargest(availableMB - totalNominal, numExpandParts);
      }
      if numExpandParts != 0 {
        extraSpacePerPartition := Quot(availableMB - totalNominal, numExpandParts);
      }
    }

    /** The totals are right, and the free MiB are enough for the extra space. */
    ghost predicate AccountedAndShared()
      reads this`totalNominal, this`numExpandParts, this`partitionMap, this`reserved, this`extraSpacePerPartition
    {
      Accounted() && SharesFit(numExpandParts, extraSpacePerPartition, availableMB - totalNominal)
    }

    /** The placement once the extra space is known. */
    method PlaceShared(ghost order: seq<PartitionInfo>, ghost rs: seq<Request>) returns (ok: bool)
      requires Numbered() && order == Order() && rs == Requests(order)
      modifies Infos()`offset, Infos()`sizeSectors
      ensures Numbered()
      ensures var slots := Place(rs, startSector, extraSpacePerPartition, totalSectors);
              ok == slots.Some? && (ok ==> Slots(order) == slots.value)
      ensures ok && AccountedAndShared() ==> Arranged(rs, Slots(order))
    {
      RequestsMatch();
      ok := PlaceInOrder(order, rs);
      if ok && AccountedAndShared() {
        ArrangedFollows(rs, Slots(order));
      }
    }

    method CalculateSpaceRequirements() returns (ok: bool)
      requires Numbered()
      modifies this`extraSpacePerPartition, Infos()`offset, Infos()`sizeSectors
      ensures Numbered() && (old(Accounted()) ==> Accounted())
      ensures extraSpacePerPartition == old(NextExtra())
      ensures ok ==> SharedOut(numExpandParts, extraSpacePerPartition, availableMB - totalNominal)
      ensures var slots := Place(old(Requests(Order())), startSector, extraSpacePerPartition, totalSectors);
              ok == (totalNominal <= availableMB && slots.Some?) && (ok ==> Slots(Order()) == slots.value)
      ensures ok && old(Accounted()) ==> Arranged(old(Requests(Order())), Slots(Order()))
    {
      ghost var order := Order();
      ghost var rs := Requests(order);
      ShareOut();
      if totalNominal > availableMB {
        return false;
      }
      ok := PlaceShared(order, rs);
    }
  }
}
