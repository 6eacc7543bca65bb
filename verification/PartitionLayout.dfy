/** Placement of partitions in sectors (`InstallManager::calculateSpaceRequirements`). */
module PartitionLayout {
  import opened Wrappers

  const ALIGNMENT := 8192
  const GAP := 2
  const SECTORS_PER_MB := 2048

  /** The remainder of truncating division, as in C++. */
  function Rem(a: int, b: int): int
    requires b > 0
  {
    if a >= 0 then a % b else -((-a) % b)
  }

  /** Truncating division. */
  function Quot(a: int, b: int): int
    requires b > 0
  {
    if a >= 0 then a / b else -((-a) / b)
  }

  /** What placement needs to know of a partition; `fixed` is 0 without a requested offset. */
  datatype Request = Request(nominal: int, maximised: bool, raw: bool, fixed: int)

  datatype Slot = Slot(start: int, size: int) {
    function End(): int { start + size }
  }

  function AlignUp(x: int): int {
    if Rem(x, ALIGNMENT) != 0 then x + (ALIGNMENT - Rem(x, ALIGNMENT)) else x
  }

  /** None when a requested offset is too low. */
  function StartSector(r: Request, offset: int): Option<int> {
    if r.fixed != 0 then
      if r.fixed <= offset then None else Some(r.fixed)
    else Some(AlignUp(offset + GAP))
  }

  function WantedSectors(r: Request, extra: int): int {
    (r.nominal + if r.maximised then extra else 0) * SECTORS_PER_MB
  }

  /** The size of a partition that another one follows. */
  function InnerSize(r: Request, extra: int): int {
    var wanted := WantedSectors(r, extra);
    var shrunk := if Rem(wanted, ALIGNMENT) == 0 && !r.raw then wanted - GAP else wanted;
    if r.maximised && Rem(shrunk + GAP, ALIGNMENT) != 0 then
      shrunk + (ALIGNMENT - Rem(shrunk + GAP, ALIGNMENT))
    else shrunk
  }

  /** The last partition takes what could not be divided evenly. */
  function LastSize(r: Request, start: int, extra: int, total: int): int {
    var wanted := WantedSectors(r, extra);
    var left := total - start - wanted;
    if left > 0 && r.maximised then wanted + left else wanted
  }

  /** Start and size of the partition that comes next behind `offset`. */
  function SlotFor(r: Request, last: bool, offset: int, extra: int, total: int): Option<Slot> {
    match StartSector(r, offset)
    case None => None
    case Some(start) => Some(Slot(start, if last then LastSize(r, start, extra, total) else InnerSize(r, extra)))
  }

  function Place(rs: seq<Request>, offset: int, extra: int, total: int): (slots: Option<seq<Slot>>)
    ensures slots.Some? ==> |slots.value| == |rs|
  {
    if rs == [] then Some([])
    else
      match SlotFor(rs[0], |rs| == 1, offset, extra, total)
      case None => None
      case Some(slot) =>
        match Place(rs[1..], slot.End(), extra, total)
        case None => None
        case Some(rest) => Some([slot] + rest)
  }

  /** The end of the slot before slot `i`. */
  function EndBefore(slots: seq<Slot>, offset: int, i: nat): int
    requires i <= |slots|
  {
    if i == 0 then offset else slots[i - 1].End()
  }

  ghost predicate OrderedAt(slots: seq<Slot>, offset: int, i: nat)
    requires i < |slots|
  {
    slots[i].size > 0 && slots[i].start > EndBefore(slots, offset, i)
  }

  /** Every slot is non-empty and starts behind the previous one. */
  ghost predicate Ordered(slots: seq<Slot>, offset: int) {
    forall i | 0 <= i < |slots| :: OrderedAt(slots, offset, i)
  }

  predicate Aligned(x: int) {
    x % ALIGNMENT == 0
  }

  ghost predicate RespectsAt(rs: seq<Request>, slots: seq<Slot>, offset: int, i: nat)
    requires i < |slots| == |rs|
  {
    if rs[i].fixed != 0 then slots[i].start == rs[i].fixed
    else Aligned(slots[i].start) && EndBefore(slots, offset, i) + GAP <= slots[i].start < EndBefore(slots, offset, i) + GAP + ALIGNMENT
  }

  /** A caller's offset is kept; a chosen start is the first aligned one that leaves the gap. */
  ghost predicate Respects(rs: seq<Request>, slots: seq<Slot>, offset: int) {
    |slots| == |rs| && forall i | 0 <= i < |rs| :: RespectsAt(rs, slots, offset, i)
  }

  ghost predicate FollowsAt(rs: seq<Request>, done: seq<Slot>, offset: int, extra: int, total: int, i: nat)
    requires i < |done| <= |rs|
  {
    SlotFor(rs[i], i == |rs| - 1, EndBefore(done, offset, i), extra, total) == Some(done[i])
  }

  /** The slots given so far are those placement gives. */
  ghost predicate Follows(rs: seq<Request>, done: seq<Slot>, offset: int, extra: int, total: int) {
    |done| <= |rs| && forall i | 0 <= i < |done| :: FollowsAt(rs, done, offset, extra, total, i)
  }

  lemma {:induction false} FollowsThenSome(rs: seq<Request>, done: seq<Slot>, offset: int, extra: int, total: int, slot: Slot)
    requires Follows(rs, done, offset, extra, total) && |done| < |rs|
    requires SlotFor(rs[|done|], |done| == |rs| - 1, EndBefore(done, offset, |done|), extra, total) == Some(slot)
    ensures Follows(rs, done + [slot], offset, extra, total)
  {
    var more := done + [slot];
    forall i | 0 <= i < |more| ensures FollowsAt(rs, more, offset, extra, total, i) {
      assert EndBefore(more, offset, i) == EndBefore(done, offset, i);
      if i < |done| {
        assert FollowsAt(rs, done, offset, extra, total, i);
      }
    }
  }

  /** Placement begins with the first slot given. */
  lemma {:induction false} FollowsTail(rs: seq<Request>, done: seq<Slot>, offset: int, extra: int, total: int)
    requires Follows(rs, done, offset, extra, total) && done != []
    ensures Follows(rs[1..], done[1..], done[0].End(), extra, total)
    ensures EndBefore(done, offset, |done|) == EndBefore(done[1..], done[0].End(), |done| - 1)
    ensures SlotFor(rs[0], |rs| == 1, offset, extra, total) == Some(done[0])
  {
    assert FollowsAt(rs, done, offset, extra, total, 0);
    forall i | 0 <= i < |done| - 1 ensures FollowsAt(rs[1..], done[1..], done[0].End(), extra, total, i) {
      assert EndBefore(done[1..], done[0].End(), i) == EndBefore(done, offset, i + 1);
      assert FollowsAt(rs, done, offset, extra, total, i + 1);
    }
  }

  lemma {:induction false} FollowsToTheEnd(rs: seq<Request>, done: seq<Slot>, offset: int, extra: int, total: int)
    requires Follows(rs, done, offset, extra, total) && |done| == |rs|
    ensures Place(rs, offset, extra, total) == Some(done)
  {
    if done != [] {
      FollowsTail(rs, done, offset, extra, total);
      FollowsToTheEnd(rs[1..], done[1..], done[0].End(), extra, total);
      assert done == [done[0]] + done[1..];
    }
  }

  lemma {:induction false} FollowsThenNone(rs: seq<Request>, done: seq<Slot>, offset: int, extra: int, total: int)
    requires Follows(rs, done, offset, extra, total) && |done| < |rs|
    requires SlotFor(rs[|done|], |done| == |rs| - 1, EndBefore(done, offset, |done|), extra, total).None?
    ensures Place(rs, offset, extra, total).None?
    decreases |done|
  {
    if done != [] {
      FollowsTail(rs, done, offset, extra, total);
      FollowsThenNone(rs[1..], done[1..], done[0].End(), extra, total);
    }
  }

  /** Behind the slots given so far the next request asks for an offset that is too low. */
  ghost predicate TooLow(rs: seq<Request>, done: seq<Slot>, offset: int, extra: int, total: int) {
    && Follows(rs, done, offset, extra, total) && |done| < |rs|
    && rs[|done|].fixed != 0 && rs[|done|].fixed <= EndBefore(done, offset, |done|)
  }

  lemma {:induction false} FollowsCons(rs: seq<Request>, slot: Slot, done: seq<Slot>, offset: int, extra: int, total: int)
    requires rs != [] && SlotFor(rs[0], |rs| == 1, offset, extra, total) == Some(slot)
    requires Follows(rs[1..], done, slot.End(), extra, total)
    ensures Follows(rs, [slot] + done, offset, extra, total)
    ensures EndBefore([slot] + done, offset, |done| + 1) == EndBefore(done, slot.End(), |done|)
  {
    var all := [slot] + done;
    forall i | 0 <= i < |all| ensures FollowsAt(rs, all, offset, extra, total, i) {
      if i > 0 {
        assert FollowsAt(rs[1..], done, slot.End(), extra, total, i - 1);
        assert EndBefore(all, offset, i) == EndBefore(done, slot.End(), i - 1);
      }
    }
  }

  /** Placement fails if and only if a requested offset does not lie behind the partition before it. */
  lemma {:induction false} PlaceFailsIff(rs: seq<Request>, offset: int, extra: int, total: int)
    ensures Place(rs, offset, extra, total).None? <==> exists done :: TooLow(rs, done, offset, extra, total)
  {
    if done :| TooLow(rs, done, offset, extra, total) {
      FollowsThenNone(rs, done, offset, extra, total);
    }
    if Place(rs, offset, extra, total).None? {
      var done := FirstTooLow(rs, offset, extra, total);
    }
  }

  lemma {:induction false} FirstTooLow(rs: seq<Request>, offset: int, extra: int, total: int) returns (done: seq<Slot>)
    requires Place(rs, offset, extra, total).None?
    ensures TooLow(rs, done, offset, extra, total)
  {
    var slot := SlotFor(rs[0], |rs| == 1, offset, extra, total);
    if slot.None? {
      done := [];
    } else {
      var rest := FirstTooLow(rs[1..], slot.value.End(), extra, total);
      FollowsCons(rs, slot.value, rest, offset, extra, total);
      done := [slot.value] + rest;
    }
  }

  predicate Positive(rs: seq<Request>) {
    forall i | 0 <= i < |rs| :: rs[i].nominal >= 1
  }

  lemma {:induction false} AlignUpProperties(x: int)
    requires x >= 0
    ensures x <= AlignUp(x) < x + ALIGNMENT && Aligned(AlignUp(x))
  {
  }

  lemma {:induction false} InnerSizePositive(r: Request, extra: int)
    requires r.nominal >= 1 && extra >= 0
    ensures InnerSize(r, extra) >= SECTORS_PER_MB - GAP
  {
  }

  lemma {:induction false} FirstSlot(r: Request, offset: int)
    requires offset >= 0 && StartSector(r, offset).Some?
    ensures var start := StartSector(r, offset).value;
            && start > offset
            && if r.fixed != 0 then start == r.fixed else Aligned(start) && offset + GAP <= start < offset + GAP + ALIGNMENT
  {
    AlignUpProperties(offset + GAP);
  }

  lemma {:induction false} OrderedCons(slot: Slot, rest: seq<Slot>, offset: int)
    requires slot.size > 0 && slot.start > offset && Ordered(rest, slot.End())
    ensures Ordered([slot] + rest, offset)
  {
    var slots := [slot] + rest;
    forall i | 0 <= i < |slots| ensures OrderedAt(slots, offset, i) {
      if i > 0 {
        assert OrderedAt(rest, slot.End(), i - 1);
        assert EndBefore(slots, offset, i) == EndBefore(rest, slot.End(), i - 1);
      }
    }
  }

  lemma {:induction false} RespectsCons(r: Request, rs: seq<Request>, slot: Slot, rest: seq<Slot>, offset: int)
    requires Respects(rs, rest, slot.End())
    requires if r.fixed != 0 then slot.start == r.fixed
             else Aligned(slot.start) && offset + GAP <= slot.start < offset + GAP + ALIGNMENT
    ensures Respects([r] + rs, [slot] + rest, offset)
  {
    var all, slots := [r] + rs, [slot] + rest;
    forall i | 0 <= i < |all| ensures RespectsAt(all, slots, offset, i) {
      if i > 0 {
        assert RespectsAt(rs, rest, slot.End(), i - 1);
        assert EndBefore(slots, offset, i) == EndBefore(rest, slot.End(), i - 1);
      }
    }
  }

  /** Successful placement of positive sizes keeps the order, the requested offsets, the alignment and the gaps. */
  lemma {:induction false} PlaceIsWell(rs: seq<Request>, offset: int, extra: int, total: int)
    requires offset >= 0 && extra >= 0 && Positive(rs)
    requires Place(rs, offset, extra, total).Some?
    ensures Ordered(Place(rs, offset, extra, total).value, offset)
    ensures Respects(rs, Place(rs, offset, extra, total).value, offset)
  {
    if rs != [] {
      var slot := SlotFor(rs[0], |rs| == 1, offset, extra, total).value;
      FirstSlot(rs[0], offset);
      InnerSizePositive(rs[0], extra);
      PlaceIsWell(rs[1..], slot.End(), extra, total);
      var rest := Place(rs[1..], slot.End(), extra, total).value;
      OrderedCons(slot, rest, offset);
      RespectsCons(rs[0], rs[1..], slot, rest, offset);
      assert rs == [rs[0]] + rs[1..];
    }
  }

  /**
   * The sectors a partition gets. It wants its MiB, and the extra space if it is to be maximised. The last one takes
   * what is left of the disk if it is to be maximised. Another one gives two sectors to the next partition if it wants
   * a multiple of 4 MiB and is not raw; a maximised one is enlarged to end two sectors before the next alignment boundary.
   */
  predicate SizeIs(r: Request, last: bool, start: int, extra: int, total: int, size: int) {
    var mb := r.nominal + if r.maximised then extra else 0;
    var wanted := mb * SECTORS_PER_MB;
    if last then if r.maximised && start + wanted < total then start + size == total else size == wanted
    else if mb % 4 == 0 && !r.raw then size == wanted - 2
    else if r.maximised then Aligned(size + 2) && wanted <= size < wanted + ALIGNMENT
    else size == wanted
  }

  ghost predicate SizedAt(rs: seq<Request>, slots: seq<Slot>, extra: int, total: int, i: nat)
    requires i < |slots| == |rs|
  {
    SizeIs(rs[i], i == |rs| - 1, slots[i].start, extra, total, slots[i].size)
  }

  ghost predicate Sized(rs: seq<Request>, slots: seq<Slot>, extra: int, total: int) {
    |slots| == |rs| && forall i | 0 <= i < |rs| :: SizedAt(rs, slots, extra, total, i)
  }

  lemma {:induction false} InnerSizeIs(r: Request, start: int, extra: int, total: int)
    requires r.nominal >= 1 && extra >= 0
    ensures SizeIs(r, false, start, extra, total, InnerSize(r, extra))
  {
    var mb := r.nominal + if r.maximised then extra else 0;
    InnerSizeShape(r, extra, mb);
    AlignUpProperties(mb * SECTORS_PER_MB + GAP);
    AlignUpWithGap(mb);
  }

  lemma {:induction false} SizedCons(r: Request, rs: seq<Request>, slot: Slot, rest: seq<Slot>, extra: int, total: int)
    requires Sized(rs, rest, extra, total) && SizeIs(r, rs == [], slot.start, extra, total, slot.size)
    ensures Sized([r] + rs, [slot] + rest, extra, total)
  {
    forall i | 0 <= i < |rs| + 1 ensures SizedAt([r] + rs, [slot] + rest, extra, total, i) {
      if i > 0 {
        assert SizedAt(rs, rest, extra, total, i - 1);
      }
    }
  }

  /** Every partition gets the size it should. */
  lemma {:induction false} PlaceSizes(rs: seq<Request>, offset: int, extra: int, total: int)
    requires Positive(rs) && extra >= 0 && Place(rs, offset, extra, total).Some?
    ensures Sized(rs, Place(rs, offset, extra, total).value, extra, total)
  {
    if rs != [] {
      var slot := SlotFor(rs[0], |rs| == 1, offset, extra, total).value;
      PlaceSizes(rs[1..], slot.End(), extra, total);
      if |rs| > 1 {
        InnerSizeIs(rs[0], slot.start, extra, total);
      }
      SizedCons(rs[0], rs[1..], slot, Place(rs[1..], slot.End(), extra, total).value, extra, total);
      assert rs == [rs[0]] + rs[1..];
    }
  }

  /** Any two slots are disjoint, in placement order. */
  lemma {:induction false} SlotsAreDisjoint(slots: seq<Slot>, offset: int, i: nat, j: nat)
    requires Ordered(slots, offset) && i < j < |slots|
    ensures slots[i].End() < slots[j].start
    decreases j
  {
    assert OrderedAt(slots, offset, j);
    if i + 1 < j {
      SlotsAreDisjoint(slots, offset, i, j - 1);
      assert OrderedAt(slots, offset, j - 1);
    }
  }

  lemma {:induction false} SlotsAfterOffset(slots: seq<Slot>, offset: int, i: nat)
    requires Ordered(slots, offset) && i < |slots|
    ensures offset < slots[i].start
  {
    assert OrderedAt(slots, offset, i);
    if i > 0 {
      SlotsAfterOffset(slots, offset, i - 1);
      assert OrderedAt(slots, offset, i - 1);
    }
  }

  /** The MiB `checkPartition` charges for a partition. */
  function Charge(nominal: int, maximised: bool): int {
    nominal + if maximised || Rem(nominal * SECTORS_PER_MB, ALIGNMENT) != 0 then ALIGNMENT / SECTORS_PER_MB else 0
  }

  /** The MiB a partition may take up: its charge and its share of the extra space. */
  function Allowance(r: Request, extra: int): int {
    Charge(r.nominal, r.maximised) + if r.maximised then extra else 0
  }

  /** All charges plus the extra space of the maximised partitions. */
  function Budget(rs: seq<Request>, extra: int): int {
    if rs == [] then 0 else Allowance(rs[0], extra) + Budget(rs[1..], extra)
  }

  /** The one kind of partition that outgrows its charge: raw, not maximised, a multiple of 4 MiB. */
  predicate Undercharged(r: Request) {
    r.raw && !r.maximised && Rem(r.nominal * SECTORS_PER_MB, ALIGNMENT) == 0
  }

  predicate NoneFixed(rs: seq<Request>) {
    forall i | 0 <= i < |rs| :: rs[i].fixed == 0
  }

  /** The sectors a partition takes from its own aligned start to the next one, or to its end if it is the last. */
  function Extent(r: Request, last: bool, extra: int): int {
    if last then WantedSectors(r, extra) else AlignUp(InnerSize(r, extra) + GAP)
  }

  /** The sectors all partitions take from an aligned start on. */
  function Needed(rs: seq<Request>, extra: int): int {
    if rs == [] then 0 else Extent(rs[0], |rs| == 1, extra) + Needed(rs[1..], extra)
  }

  /** The MiB of its allowance that a partition does not use; an undercharged one lacks 4 MiB unless it is the last. */
  function Slack(r: Request, last: bool, extra: int): int {
    var mb := r.nominal + if r.maximised then extra else 0;
    if last then if r.maximised || mb % 4 != 0 then 4 else 0
    else if Undercharged(r) then -4
    else if r.maximised && mb % 4 == 0 && !r.raw then 4
    else mb % 4
  }

  function TotalSlack(rs: seq<Request>, extra: int): int {
    if rs == [] then 0 else Slack(rs[0], |rs| == 1, extra) + TotalSlack(rs[1..], extra)
  }

  lemma {:induction false} AlignUpOfAligned(start: int, x: int)
    requires start >= 0 && Aligned(start) && x >= 0
    ensures AlignUp(start + x) == start + AlignUp(x)
  {
    assert (start + x) % ALIGNMENT == x % ALIGNMENT;
  }

  /** Whole MiB are four to an alignment unit. */
  lemma {:induction false} WholeUnits(mb: int)
    requires mb >= 0
    ensures Rem(mb * SECTORS_PER_MB, ALIGNMENT) == SECTORS_PER_MB * (mb % 4)
  {
    var q, j := mb / 4, mb % 4;
    assert mb * SECTORS_PER_MB == q * ALIGNMENT + j * SECTORS_PER_MB;
    assert j * SECTORS_PER_MB < ALIGNMENT;
  }

  /** The gap behind whole MiB takes the rest of the alignment unit. */
  lemma {:induction false} AlignUpWithGap(mb: int)
    requires mb >= 0
    ensures AlignUp(mb * SECTORS_PER_MB + GAP) == (mb + 4 - mb % 4) * SECTORS_PER_MB
  {
    var q, j := mb / 4, mb % 4;
    assert mb * SECTORS_PER_MB + GAP == q * ALIGNMENT + (j * SECTORS_PER_MB + GAP);
    assert 0 < j * SECTORS_PER_MB + GAP < ALIGNMENT;
    assert (mb * SECTORS_PER_MB + GAP) % ALIGNMENT == j * SECTORS_PER_MB + GAP;
  }

  lemma {:induction false} AlignUpTwice(x: int)
    requires x >= 0
    ensures AlignUp(AlignUp(x)) == AlignUp(x)
  {
    AlignUpProperties(x);
  }

  /** The three shapes an inner partition with its gap can take. */
  lemma {:induction false} InnerSizeShape(r: Request, extra: int, mb: int)
    requires mb >= 0 && mb == r.nominal + if r.maximised then extra else 0
    ensures InnerSize(r, extra) + GAP
            == if mb % 4 == 0 && !r.raw then mb * SECTORS_PER_MB
               else if r.maximised then AlignUp(mb * SECTORS_PER_MB + GAP)
               else mb * SECTORS_PER_MB + GAP
  {
    WholeUnits(mb);
  }

  lemma {:induction false} ChargeCases(nominal: int, maximised: bool)
    requires nominal >= 0
    ensures Charge(nominal, maximised) == if maximised || nominal % 4 != 0 then nominal + 4 else nominal
  {
    WholeUnits(nominal);
  }

  lemma {:induction false} InnerExtent(r: Request, extra: int, mb: int)
    requires mb >= 0 && mb == r.nominal + if r.maximised then extra else 0
    ensures Extent(r, false, extra)
            == (if mb % 4 == 0 && !r.raw then mb else mb + 4 - mb % 4) * SECTORS_PER_MB
  {
    InnerSizeShape(r, extra, mb);
    WholeUnits(mb);
    AlignUpWithGap(mb);
    AlignUpTwice(mb * SECTORS_PER_MB + GAP);
  }

  /** What a partition takes up is its allowance less its slack, to the sector. */
  lemma {:induction false} ExtentIsExact(r: Request, last: bool, extra: int)
    requires r.nominal >= 1 && extra >= 0
    ensures Extent(r, last, extra) == SECTORS_PER_MB * (Allowance(r, extra) - Slack(r, last, extra))
  {
    var mb := r.nominal + if r.maximised then extra else 0;
    InnerExtent(r, extra, mb);
    ChargeCases(r.nominal, r.maximised);
    WholeUnits(r.nominal);
  }

  /** An inner partition and the gap to the next start stay within the charge unless it is undercharged. */
  lemma {:induction false} InnerSizeWithinCharge(r: Request, extra: int)
    requires r.nominal >= 1 && extra >= 0
    ensures AlignUp(InnerSize(r, extra) + GAP) <= SECTORS_PER_MB * Allowance(r, extra) <==> !Undercharged(r)
  {
    ExtentIsExact(r, false, extra);
  }

  /** What all partitions take up is the budget less the slack. */
  lemma {:induction false} NeededIsExact(rs: seq<Request>, extra: int)
    requires Positive(rs) && extra >= 0
    ensures Needed(rs, extra) == SECTORS_PER_MB * (Budget(rs, extra) - TotalSlack(rs, extra))
  {
    if rs != [] {
      ExtentIsExact(rs[0], |rs| == 1, extra);
      NeededIsExact(rs[1..], extra);
    }
  }

  /** No slack is missing if no partition before the last is undercharged. */
  predicate Chargeable(rs: seq<Request>) {
    Positive(rs) && forall i | 0 <= i < |rs| - 1 :: !Undercharged(rs[i])
  }

  lemma {:induction false} ChargeableHasSlack(rs: seq<Request>, extra: int)
    requires Chargeable(rs) && extra >= 0
    ensures TotalSlack(rs, extra) >= 0
  {
    if rs != [] {
      assert |rs| > 1 ==> !Undercharged(rs[0]);
      ChargeableHasSlack(rs[1..], extra);
    }
  }

  predicate OnDisk(slots: seq<Slot>, total: int) {
    forall i | 0 <= i < |slots| :: slots[i].End() <= total
  }

  /** The sector behind the last partition, before it takes what could not be divided, when the first is at `start`. */
  function FinalEnd(rs: seq<Request>, start: int, extra: int): int {
    if rs == [] then start
    else if |rs| == 1 then start + WantedSectors(rs[0], extra)
    else FinalEnd(rs[1..], AlignUp(start + InnerSize(rs[0], extra) + GAP), extra)
  }

  /** From an aligned start every inner partition takes its extent. */
  lemma {:induction false} FinalEndOfAligned(rs: seq<Request>, start: int, extra: int)
    requires start >= 0 && Aligned(start) && Positive(rs) && extra >= 0
    ensures FinalEnd(rs, start, extra) == start + Needed(rs, extra)
  {
    if |rs| == 1 {
      assert rs[1..] == [];
    } else if |rs| > 1 {
      var size := InnerSize(rs[0], extra);
      InnerSizePositive(rs[0], extra);
      AlignUpOfAligned(start, size + GAP);
      AlignUpProperties(start + size + GAP);
      FinalEndOfAligned(rs[1..], AlignUp(start + size + GAP), extra);
    }
  }

  /** The requests from the last one with a requested offset on; all of them if there is none. */
  function FreeTail(rs: seq<Request>): (tail: seq<Request>)
    ensures |tail| <= |rs| && (rs != [] ==> tail != [] && NoneFixed(tail[1..]))
    ensures rs != [] && tail[0].fixed == 0 ==> tail == rs
  {
    if rs == [] || NoneFixed(rs[1..]) then rs else FreeTail(rs[1..])
  }

  /** Where the first of those requests is placed. */
  function TailStart(rs: seq<Request>, offset: int): int
    requires rs != []
  {
    var first := FreeTail(rs)[0];
    if first.fixed != 0 then first.fixed else AlignUp(offset + GAP)
  }

  /** Only a requested offset can be refused. */
  lemma {:induction false} NoneFixedPlaces(rs: seq<Request>, offset: int, extra: int, total: int)
    requires NoneFixed(rs)
    ensures Place(rs, offset, extra, total).Some?
  {
    if rs != [] {
      var slot := SlotFor(rs[0], |rs| == 1, offset, extra, total).value;
      NoneFixedPlaces(rs[1..], slot.End(), extra, total);
    }
  }

  lemma {:induction false} OnDiskCons(slot: Slot, rest: seq<Slot>, total: int)
    ensures OnDisk([slot] + rest, total) <==> slot.End() <= total && OnDisk(rest, total)
  {
    var slots := [slot] + rest;
    assert slots[0] == slot;
    assert forall i | 0 <= i < |rest| :: slots[i + 1] == rest[i];
  }

  /** A slot before another one ends on the disk if that one does. */
  lemma {:induction false} EarlierOnDisk(slots: seq<Slot>, offset: int, total: int)
    requires Ordered(slots, offset) && slots != [] && OnDisk(slots, total)
    ensures offset < total
  {
    assert OrderedAt(slots, offset, 0);
  }

  /** The last slot ends on the disk exactly if the size it asks for does. */
  lemma {:induction false} LastOnDisk(r: Request, start: int, extra: int, total: int)
    ensures start + LastSize(r, start, extra, total) <= total <==> start + WantedSectors(r, extra) <= total
  {
  }

  lemma {:induction false} PlaceOfOne(rs: seq<Request>, offset: int, extra: int, total: int)
    requires |rs| == 1 && Place(rs, offset, extra, total).Some?
    ensures StartSector(rs[0], offset).Some?
    ensures var start := StartSector(rs[0], offset).value;
            Place(rs, offset, extra, total).value == [Slot(start, LastSize(rs[0], start, extra, total))]
  {
    var start := StartSector(rs[0], offset).value;
    var slot := Slot(start, LastSize(rs[0], start, extra, total));
    assert rs[1..] == [];
    assert Place(rs[1..], slot.End(), extra, total) == Some([]);
  }

  /** Placement, unfolded once. */
  lemma {:induction false} PlaceCons(rs: seq<Request>, offset: int, extra: int, total: int)
    requires |rs| > 1 && Place(rs, offset, extra, total).Some?
    ensures StartSector(rs[0], offset).Some?
    ensures var slot := Slot(StartSector(rs[0], offset).value, InnerSize(rs[0], extra));
            && Place(rs[1..], slot.End(), extra, total).Some?
            && Place(rs, offset, extra, total).value == [slot] + Place(rs[1..], slot.End(), extra, total).value
  {
  }

  /** The rest after a first slot of positive size: all of it ends on the disk exactly if the rest does. */
  lemma {:induction false} RestDecides(rs: seq<Request>, offset: int, extra: int, total: int)
    requires offset >= 0 && extra >= 0 && Positive(rs) && |rs| > 1 && Place(rs, offset, extra, total).Some?
    ensures StartSector(rs[0], offset).Some?
    ensures var end := StartSector(rs[0], offset).value + InnerSize(rs[0], extra);
            && end >= 0 && Place(rs[1..], end, extra, total).Some?
            && (OnDisk(Place(rs, offset, extra, total).value, total)
                <==> OnDisk(Place(rs[1..], end, extra, total).value, total))
  {
    PlaceCons(rs, offset, extra, total);
    var start := StartSector(rs[0], offset).value;
    var slot := Slot(start, InnerSize(rs[0], extra));
    FirstSlot(rs[0], offset);
    InnerSizePositive(rs[0], extra);
    PlaceIsWell(rs[1..], slot.End(), extra, total);
    var rest := Place(rs[1..], slot.End(), extra, total).value;
    OnDiskCons(slot, rest, total);
    if OnDisk(rest, total) {
      EarlierOnDisk(rest, slot.End(), total);
    }
  }

  /** Behind a given first start and without further requested offsets, the final end decides. */
  lemma {:induction false} FinalEndDecides(rs: seq<Request>, offset: int, extra: int, total: int)
    requires offset >= 0 && extra >= 0 && Positive(rs) && rs != [] && NoneFixed(rs[1..])
    requires Place(rs, offset, extra, total).Some?
    ensures StartSector(rs[0], offset).Some?
    ensures OnDisk(Place(rs, offset, extra, total).value, total)
            <==> FinalEnd(rs, StartSector(rs[0], offset).value, extra) <= total
    decreases |rs|
  {
    if |rs| == 1 {
      PlaceOfOne(rs, offset, extra, total);
      var start := StartSector(rs[0], offset).value;
      OnDiskCons(Slot(start, LastSize(rs[0], start, extra, total)), [], total);
      LastOnDisk(rs[0], start, extra, total);
    } else {
      RestDecides(rs, offset, extra, total);
      var end := StartSector(rs[0], offset).value + InnerSize(rs[0], extra);
      assert rs[1..][0].fixed == 0;
      FinalEndDecides(rs[1..], end, extra, total);
    }
  }

  /**
   * All partitions of a successful placement end on the disk if and only if the final end does, counted from the
   * last requested offset, or from the first aligned start if no offset is requested.
   */
  lemma {:induction false} OnDiskIff(rs: seq<Request>, offset: int, extra: int, total: int)
    requires offset >= 0 && extra >= 0 && Positive(rs) && rs != [] && Place(rs, offset, extra, total).Some?
    ensures OnDisk(Place(rs, offset, extra, total).value, total)
            <==> FinalEnd(FreeTail(rs), TailStart(rs, offset), extra) <= total
    decreases |rs|
  {
    if NoneFixed(rs[1..]) {
      FinalEndDecides(rs, offset, extra, total);
    } else {
      RestDecides(rs, offset, extra, total);
      var end := StartSector(rs[0], offset).value + InnerSize(rs[0], extra);
      OnDiskIff(rs[1..], end, extra, total);
    }
  }

  /** Without requested offsets: all partitions end on the disk if and only if what they need fits. */
  lemma {:induction false} NeededDecides(rs: seq<Request>, offset: int, extra: int, total: int)
    requires offset >= 0 && extra >= 0 && Positive(rs) && rs != [] && NoneFixed(rs)
    ensures Place(rs, offset, extra, total).Some?
    ensures OnDisk(Place(rs, offset, extra, total).value, total)
            <==> AlignUp(offset + GAP) + Needed(rs, extra) <= total
  {
    NoneFixedPlaces(rs, offset, extra, total);
    FinalEndDecides(rs, offset, extra, total);
    AlignUpProperties(offset + GAP);
    FinalEndOfAligned(rs, AlignUp(offset + GAP), extra);
  }

  lemma {:induction false} MBAndGap(mb: int)
    requires mb >= 0
    ensures (mb * SECTORS_PER_MB) % SECTORS_PER_MB == 0
    ensures Quot(mb * SECTORS_PER_MB + GAP, SECTORS_PER_MB) == mb
  {
  }

  /** A start two sectors before an alignment boundary and a disk of whole MiB lose nothing in whole MiB. */
  lemma {:induction false} WholeMB(offset: int, total: int, mb: int)
    requires 0 <= offset <= total && Aligned(offset + GAP) && total % SECTORS_PER_MB == 0
    ensures mb <= Quot(total - offset, SECTORS_PER_MB) <==> AlignUp(offset + GAP) + SECTORS_PER_MB * mb <= total
  {
    var a, b := total / SECTORS_PER_MB, (offset + GAP) / ALIGNMENT;
    assert total == a * SECTORS_PER_MB && offset + GAP == b * ALIGNMENT;
    assert total - offset == (a - 4 * b) * SECTORS_PER_MB + GAP;
    MBAndGap(a - 4 * b);
    assert AlignUp(offset + GAP) == 4 * b * SECTORS_PER_MB;
  }

  /**
   * The whole-MiB accounting to the MiB: with the start two sectors before an alignment boundary, as the settings
   * partition leaves it, and a disk of whole MiB, every partition ends on the disk if and only if the budget less
   * the slack is available.
   */
  lemma {:induction false} PlaceFitsDiskIff(rs: seq<Request>, offset: int, extra: int, total: int)
    requires 0 <= offset <= total && extra >= 0 && Positive(rs) && NoneFixed(rs) && rs != []
    requires Aligned(offset + GAP) && total % SECTORS_PER_MB == 0
    ensures Place(rs, offset, extra, total).Some?
    ensures OnDisk(Place(rs, offset, extra, total).value, total)
            <==> Budget(rs, extra) - TotalSlack(rs, extra) <= Quot(total - offset, SECTORS_PER_MB)
  {
    NeededDecides(rs, offset, extra, total);
    NeededIsExact(rs, extra);
    WholeMB(offset, total, Budget(rs, extra) - TotalSlack(rs, extra));
  }

  /** The MiB each partition that wants more gets on top. */
  function ExtraSpace(numExpandParts: nat, free: int, otherwise: int): int {
    if numExpandParts != 0 then Quot(free, numExpandParts) else otherwise
  }

  /** The number of partitions that want more. */
  function Maximised(rs: seq<Request>): nat {
    if rs == [] then 0 else (if rs[0].maximised then 1 else 0) + Maximised(rs[1..])
  }

  lemma {:induction false} BudgetSplit(rs: seq<Request>, extra: int)
    ensures Budget(rs, extra) == Budget(rs, 0) + Maximised(rs) * extra
  {
    if rs != [] {
      BudgetSplit(rs[1..], extra);
    }
  }

  /** The slack repeats with every 4 MiB of extra space. */
  lemma {:induction false} SlackIsPeriodic(rs: seq<Request>, extra: int)
    requires extra >= 0
    ensures TotalSlack(rs, extra) == TotalSlack(rs, extra % 4)
  {
    if rs != [] {
      assert (rs[0].nominal + extra) % 4 == (rs[0].nominal + extra % 4) % 4;
      SlackIsPeriodic(rs[1..], extra);
    }
  }

  /** The extra space on a disk that leaves `free` MiB beyond the charges. */
  function ExtraFor(rs: seq<Request>, free: int): int {
    ExtraSpace(Maximised(rs), free, 0)
  }

  /** The MiB that could not be divided. */
  function Undivided(rs: seq<Request>, free: int): int {
    free - Maximised(rs) * ExtraFor(rs, free)
  }

  lemma {:induction false} UndividedIsRest(n: int, free: int)
    requires free >= 0 && n > 0
    ensures Quot(free, n) >= 0 && free - n * Quot(free, n) == free % n >= 0
  {
  }

  /**
   * On a disk that passes the check, with the extra space the code computes: every partition ends on it if and only
   * if the slack and the MiB that could not be divided make up for what is undercharged.
   */
  lemma {:induction false} CheckedFitsIff(rs: seq<Request>, offset: int, total: int, free: int)
    requires 0 <= offset <= total && Positive(rs) && NoneFixed(rs) && rs != []
    requires Aligned(offset + GAP) && total % SECTORS_PER_MB == 0
    requires free == Quot(total - offset, SECTORS_PER_MB) - Budget(rs, 0) && free >= 0
    ensures Place(rs, offset, ExtraFor(rs, free), total).Some?
    ensures OnDisk(Place(rs, offset, ExtraFor(rs, free), total).value, total)
            <==> TotalSlack(rs, ExtraFor(rs, free)) + Undivided(rs, free) >= 0
  {
    var extra := ExtraFor(rs, free);
    if Maximised(rs) > 0 {
      UndividedIsRest(Maximised(rs), free);
    }
    BudgetSplit(rs, extra);
    PlaceFitsDiskIff(rs, offset, extra, total);
  }

  /** The check charges <= available lets only placements through that end on the disk, with the space the code adds. */
  ghost predicate CheckSuffices(rs: seq<Request>, offset: int) {
    forall total | offset <= total && total % SECTORS_PER_MB == 0 :: CheckSufficesOn(rs, offset, total)
  }

  ghost predicate CheckSufficesOn(rs: seq<Request>, offset: int, total: int) {
    var free := Quot(total - offset, SECTORS_PER_MB) - Budget(rs, 0);
    var slots := Place(rs, offset, ExtraFor(rs, free), total);
    free >= 0 ==> slots.Some? && OnDisk(slots.value, total)
  }

  /** The slack is not negative, whatever the extra space. */
  predicate SlackCovers(rs: seq<Request>) {
    forall extra | 0 <= extra < 4 :: TotalSlack(rs, extra) >= 0
  }

  lemma {:induction false} SlackSuffices(rs: seq<Request>, offset: int)
    requires 0 <= offset && Positive(rs) && NoneFixed(rs) && rs != [] && Aligned(offset + GAP)
    requires SlackCovers(rs)
    ensures CheckSuffices(rs, offset)
  {
    forall total | offset <= total && total % SECTORS_PER_MB == 0 ensures CheckSufficesOn(rs, offset, total) {
      var free := Quot(total - offset, SECTORS_PER_MB) - Budget(rs, 0);
      if free >= 0 {
        CheckedFitsIff(rs, offset, total, free);
        if Maximised(rs) > 0 {
          UndividedIsRest(Maximised(rs), free);
        }
        SlackIsPeriodic(rs, ExtraFor(rs, free));
      }
    }
  }

  /** A disk on which everything free can be divided. */
  lemma {:induction false} MissingSlackOverflows(rs: seq<Request>, offset: int, extra: int)
    requires 0 <= offset && Positive(rs) && NoneFixed(rs) && rs != [] && Aligned(offset + GAP)
    requires 0 <= extra < 4 && TotalSlack(rs, extra) < 0
    ensures !CheckSuffices(rs, offset)
  {
    var n := Maximised(rs);
    var free := n * extra;
    BudgetPositive(rs, 0);
    var total := TightDisk(offset, Budget(rs, 0) + free);
    CheckedFitsIff(rs, offset, total, free);
    if n > 0 {
      DividesEvenly(n, extra, free);
    } else {
      NothingMaximised(rs, extra);
    }
    assert !CheckSufficesOn(rs, offset, total);
  }

  lemma {:induction false} MultipleIsFar(n: int, k: int)
    requires n > 0
    ensures k >= 1 ==> n * k >= n
    ensures k <= -1 ==> n * k <= -n
  {
  }

  lemma {:induction false} DividesEvenly(n: int, extra: int, free: int)
    requires n > 0 && free >= 0 && free == n * extra
    ensures Quot(free, n) == extra
  {
    MultipleIsFar(n, extra - free / n);
    assert n * (extra - free / n) == free % n;
  }

  lemma {:induction false} NothingMaximised(rs: seq<Request>, extra: int)
    requires Maximised(rs) == 0
    ensures TotalSlack(rs, extra) == TotalSlack(rs, 0)
  {
    if rs != [] {
      NothingMaximised(rs[1..], extra);
    }
  }

  /** The disk on which the budget just passes. */
  lemma {:induction false} TightDisk(offset: int, budget: int) returns (total: int)
    requires offset >= 0 && budget >= 0 && Aligned(offset + GAP)
    ensures offset <= total && total % SECTORS_PER_MB == 0
    ensures Quot(total - offset, SECTORS_PER_MB) == budget
  {
    var b := (offset + GAP) / ALIGNMENT;
    total := (4 * b + budget) * SECTORS_PER_MB;
    assert offset + GAP == 4 * b * SECTORS_PER_MB;
    MBAndGap(4 * b + budget);
    MBAndGap(budget);
  }

  /** The check is enough on disks of every size if and only if the slack makes up for what is undercharged. */
  lemma {:induction false} CheckSufficesIff(rs: seq<Request>, offset: int)
    requires 0 <= offset && Positive(rs) && NoneFixed(rs) && rs != [] && Aligned(offset + GAP)
    ensures CheckSuffices(rs, offset) <==> SlackCovers(rs)
    ensures Chargeable(rs) ==> CheckSuffices(rs, offset)
  {
    if Chargeable(rs) {
      forall extra | 0 <= extra < 4 ensures TotalSlack(rs, extra) >= 0 {
        ChargeableHasSlack(rs, extra);
      }
    }
    if SlackCovers(rs) {
      SlackSuffices(rs, offset);
    } else {
      var extra :| 0 <= extra < 4 && TotalSlack(rs, extra) < 0;
      MissingSlackOverflows(rs, offset, extra);
    }
  }

  lemma {:induction false} BudgetPositive(rs: seq<Request>, extra: int)
    requires extra >= 0 && Positive(rs)
    ensures Budget(rs, extra) >= 0
  {
    if rs != [] {
      BudgetPositive(rs[1..], extra);
    }
  }

  /** 4 MiB raw and 4 MiB pass the check on a disk with 8 MiB free, and end behind it. */
  lemma {:induction false} UnderchargedOverflows()
    ensures var rs := [Request(4, false, true, 0), Request(4, false, false, 0)];
            && Positive(rs) && Undercharged(rs[0])
            && Budget(rs, 0) <= Quot(24576 - 8190, SECTORS_PER_MB)
            && Place(rs, 8190, 0, 24576).Some?
            && !OnDisk(Place(rs, 8190, 0, 24576).value, 24576)
  {
    var rs := [Request(4, false, true, 0), Request(4, false, false, 0)];
    assert rs[1..] == [Request(4, false, false, 0)];
    assert rs[1..][1..] == [];
    assert Budget(rs[1..], 0) == 4 && TotalSlack(rs[1..], 0) == 0;
    assert Budget(rs, 0) == 8 && TotalSlack(rs, 0) == -4;
    PlaceFitsDiskIff(rs, 8190, 0, 24576);
  }

  /** A maximised last partition fills the disk whenever there is space left. */
  lemma {:induction false} LastFillsDisk(r: Request, start: int, extra: int, total: int)
    requires r.maximised && start + WantedSectors(r, extra) <= total
    ensures start + LastSize(r, start, extra, total) == total
  {
  }
}
