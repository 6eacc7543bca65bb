/** Writing the partition table (`InstallManager::writePartitionTable`, `PreSetup::resizePartitions`). */
module PartitionTable {
  import opened Wrappers
  import opened QtMap
  import opened PartitionLayout
  import opened InstallManager

  const SETTINGS_PARTITION_SIZE := 32 * 2048 - GAP

  /** Where `resizePartitions` puts the settings partition. */
  function SettingsStart(startExtended: int): int {
    AlignUp(startExtended + GAP)
  }

  /** The settings partition lies inside the extended one and leaves the start the placement relies on. */
  lemma {:induction false} SettingsPlacement(startExtended: int)
    requires startExtended >= 0
    ensures SettingsStart(startExtended) >= startExtended + GAP
    ensures Aligned(SettingsStart(startExtended))
    ensures Aligned(SettingsStart(startExtended) + SETTINGS_PARTITION_SIZE + GAP)
  {
    AlignUpProperties(startExtended + GAP);
    var units := SettingsStart(startExtended) / ALIGNMENT;
    assert SettingsStart(startExtended) + SETTINGS_PARTITION_SIZE + GAP == (units + 8) * ALIGNMENT;
  }

  /** `number` renders an integer (`QByteArray::number`). */
  function Row(p: PartitionInfo, number: int -> string): string
    reads p`offset, p`sizeSectors
  {
    var fields := number(p.offset) + "," + number(p.sizeSectors) + "," + p.partitionType;
    if p.active then fields + " *" else fields
  }

  /** Line `i` describes partition `i`, or leaves its place free. */
  ghost function Line(m: PartitionMap, i: int, number: int -> string): string
    reads InfosOf(m)`offset, InfosOf(m)`sizeSectors
  {
    if Contains(m, i) then Row(Lookup(m, i), number) else "0,0"
  }

  ghost function Lines(m: PartitionMap, n: nat, number: int -> string): (ls: seq<string>)
    reads InfosOf(m)`offset, InfosOf(m)`sizeSectors
    ensures |ls| == n
  {
    if n == 0 then [] else Lines(m, n - 1, number) + [Line(m, n, number)]
  }

  lemma {:induction false} LinesAt(m: PartitionMap, n: nat, number: int -> string, i: nat)
    requires i < n
    ensures Lines(m, n, number)[i] == Line(m, i + 1, number)
  {
    if i < n - 1 {
      LinesAt(m, n - 1, number, i);
    }
  }

  predicate OneLine(s: string) {
    '\n' !in s
  }

  /** Every line ends with a newline. */
  function Text(lines: seq<string>): string {
    if lines == [] then "" else Text(lines[..|lines| - 1]) + lines[|lines| - 1] + "\n"
  }

  /** The lines of a text; what follows the last newline is dropped. */
  function SplitLines(text: string, line: string): seq<string> {
    if text == "" then []
    else if text[0] == '\n' then [line] + SplitLines(text[1..], "")
    else SplitLines(text[1..], line + [text[0]])
  }

  lemma {:induction false} SplitOneLine(line: string, rest: string, before: string)
    requires OneLine(line)
    ensures SplitLines(line + "\n" + rest, before) == [before + line] + SplitLines(rest, "")
  {
    var text := line + "\n" + rest;
    if line == "" {
      assert text == "\n" + rest && text[1..] == rest;
      assert before + line == before;
    } else {
      assert text[1..] == line[1..] + "\n" + rest;
      SplitOneLine(line[1..], rest, before + [line[0]]);
      assert before + [line[0]] + line[1..] == before + line;
    }
  }

  lemma {:induction false} SplitTextAndRest(lines: seq<string>, rest: string)
    requires forall i | 0 <= i < |lines| :: OneLine(lines[i])
    ensures SplitLines(Text(lines) + rest, "") == lines + SplitLines(rest, "")
  {
    if lines == [] {
      assert Text(lines) + rest == rest;
    } else {
      var n := |lines| - 1;
      var last := lines[n] + "\n" + rest;
      assert Text(lines) + rest == Text(lines[..n]) + last;
      SplitTextAndRest(lines[..n], last);
      SplitOneLine(lines[n], rest, "");
      assert "" + lines[n] == lines[n];
      assert lines == lines[..n] + [lines[n]];
    }
  }

  /** Cutting the text at its newlines gives back the lines. */
  lemma {:induction false} SplitInvertsText(lines: seq<string>)
    requires forall i | 0 <= i < |lines| :: OneLine(lines[i])
    ensures SplitLines(Text(lines), "") == lines
  {
    SplitTextAndRest(lines, "");
    assert Text(lines) + "" == Text(lines);
  }

  /** Neither a number nor a partition type is printed over several lines. */
  ghost predicate Printable(m: PartitionMap, number: int -> string) {
    && (forall x: int {:trigger number(x)} :: OneLine(number(x)))
    && (forall e | e in m :: OneLine(e.value.partitionType))
  }

  /** The lines of a written table contain no newline of their own. */
  lemma {:induction false} LinesOnOneLine(m: PartitionMap, n: nat, number: int -> string)
    requires Printable(m, number)
    ensures forall i | 0 <= i < n :: OneLine(Lines(m, n, number)[i])
  {
    forall i | 0 <= i < n ensures OneLine(Lines(m, n, number)[i]) {
      LinesAt(m, n, number, i);
      LineOnOneLine(m, i + 1, number);
    }
  }

  lemma {:induction false} LineOnOneLine(m: PartitionMap, i: int, number: int -> string)
    requires Printable(m, number)
    ensures OneLine(Line(m, i, number))
  {
    if Contains(m, i) {
      var p := Lookup(m, i);
      assert m[Position(m, i)] in m;
      var offset, sectors := p.offset, p.sizeSectors;
      assert OneLine(number(offset)) && OneLine(number(sectors));
    }
  }

  /** The number of the extended partition: 2, unless an operating system holds it. */
  function ExtendedNumber(m: PartitionMap): int {
    if Contains(m, 2) then 4 else 2
  }

  /** The end of the entry with the highest number once the settings partition is in the map. */
  ghost function ExtendedEnd(m: PartitionMap, settingsEnd: int): int
    reads InfosOf(m)`offset, InfosOf(m)`sizeSectors
  {
    if m != [] && m[|m| - 1].key >= 6 then
      assert m[|m| - 1] in m;
      m[|m| - 1].value.EndSector()
    else settingsEnd
  }

  /** The written map: the partitions of the operating systems, untouched, and the three system partitions. */
  ghost predicate Extends(m: PartitionMap, written: PartitionMap, p1: PartitionInfo, p5: PartitionInfo, ext: PartitionInfo) {
    && Ascending(written)
    && (forall k: int :: Contains(written, k) <==> Contains(m, k) || k == 1 || k == 5 || k == ExtendedNumber(m))
    && (forall k: int | Contains(m, k) :: Lookup(written, k) == Lookup(m, k))
    && Lookup(written, 1) == p1 && Lookup(written, 5) == p5 && Lookup(written, ExtendedNumber(m)) == ext
  }

  ghost predicate IsSystem(p: PartitionInfo, slot: Slot, partitionType: string)
    reads p`offset, p`sizeSectors
  {
    p.AsSlot() == slot && p.partitionType == partitionType && !p.active
  }

  lemma {:induction false} NotInMap(m: PartitionMap, k: int)
    requires NumbersOk(m) && !OsNumber(k)
    ensures !Contains(m, k)
  {
    ContainsIsMembership(m, k);
  }

  /** `n` is `m` with the new entry `k`. */
  ghost predicate Adds(m: PartitionMap, n: PartitionMap, k: int, p: PartitionInfo) {
    && Ascending(n)
    && (forall j: int :: Contains(n, j) <==> Contains(m, j) || j == k)
    && (forall j: int | Contains(m, j) :: Lookup(n, j) == Lookup(m, j))
    && Lookup(n, k) == p
  }

  lemma {:induction false} InsertAdds(m: PartitionMap, k: int, p: PartitionInfo)
    requires Ascending(m) && !Contains(m, k)
    ensures Adds(m, Insert(m, k, p), k, p)
  {
    forall j: int
      ensures Contains(Insert(m, k, p), j) <==> Contains(m, j) || j == k
      ensures Contains(m, j) ==> Lookup(Insert(m, k, p), j) == Lookup(m, j)
    {
      InsertFresh(m, k, p, j);
    }
    InsertFresh(m, k, p, k);
  }

  lemma {:induction false} AddsThrice(m: PartitionMap, with1: PartitionMap, with5: PartitionMap, all: PartitionMap,
                                      p1: PartitionInfo, p5: PartitionInfo, ext: PartitionInfo)
    requires Adds(m, with1, 1, p1) && Adds(with1, with5, 5, p5) && Adds(with5, all, ExtendedNumber(m), ext)
    ensures Extends(m, all, p1, p5, ext)
  {
    assert Contains(with1, 1) && Contains(with5, 1) && Contains(with5, 5);
    forall k: int | Contains(m, k) ensures Lookup(all, k) == Lookup(m, k) {
      assert Contains(with1, k) && Contains(with5, k);
    }
  }

  /** Adding the system partitions overwrites nothing. */
  lemma {:induction false} SystemPartitionsFit(m: PartitionMap, p1: PartitionInfo, p5: PartitionInfo, ext: PartitionInfo)
    requires NumbersOk(m)
    ensures var with1 := Insert(m, 1, p1);
            var with5 := Insert(with1, 5, p5);
            Extends(m, Insert(with5, ExtendedNumber(m), ext), p1, p5, ext)
  {
    var with1 := Insert(m, 1, p1);
    var with5, n := Insert(with1, 5, p5), ExtendedNumber(m);
    NotInMap(m, 1);
    NotInMap(m, 5);
    InsertAdds(m, 1, p1);
    InsertAdds(with1, 5, p5);
    InsertAdds(with5, n, ext);
    AddsThrice(m, with1, with5, Insert(with5, n, ext), p1, p5, ext);
  }

  lemma {:induction false} InsertLast(m: PartitionMap, k: int, p: PartitionInfo)
    requires Ascending(m) && !Contains(m, k)
    ensures var n := Insert(m, k, p);
            n != [] && n[|n| - 1] == if m != [] && m[|m| - 1].key > k then m[|m| - 1] else Entry(k, p)
  {
    InsertShape(m, k, p);
    PositionMeaning(m, k);
    if m != [] && m[|m| - 1].key < k {
      assert forall j | 0 <= j < |m| - 1 :: m[j].key < m[|m| - 1].key;
      PositionIsUnique(m, k, |m|);
    } else if m != [] {
      ContainsIsMembership(m, k);
      assert Position(m, k) < |m|;
    }
  }

  /** The last entry once the two fixed system partitions are in the map. */
  lemma {:induction false} LastEntry(m: PartitionMap, p1: PartitionInfo, p5: PartitionInfo)
    requires NumbersOk(m)
    ensures var with5 := Insert(Insert(m, 1, p1), 5, p5);
            with5 != [] && with5[|with5| - 1] == if m != [] && m[|m| - 1].key >= 6 then m[|m| - 1] else Entry(5, p5)
  {
    NotInMap(m, 1);
    NotInMap(m, 5);
    InsertLast(m, 1, p1);
    InsertFresh(m, 1, p1, 5);
    InsertLast(Insert(m, 1, p1), 5, p5);
  }

  /** The system partitions and the map with them. */
  method AddSystemPartitions(m: PartitionMap, p1: Slot, p5: Slot)
    returns (written: PartitionMap, boot: PartitionInfo, settings: PartitionInfo, extended: PartitionInfo)
    requires NumbersOk(m)
    ensures Extends(m, written, boot, settings, extended)
    ensures SystemPartitions(boot, settings, extended, p1, p5, ExtendedEnd(m, p5.End()))
  {
    boot := new PartitionInfo.System(1, p1.start, p1.size, "0E");
    settings := new PartitionInfo.System(5, p5.start, p5.size, "L");
    LastEntry(m, boot, settings);
    written := Insert(Insert(m, 1, boot), 5, settings);
    var startExtended := p1.start + p1.size;
    var sizeExtended := written[|written| - 1].value.EndSector() - startExtended;
    extended := new PartitionInfo.System(ExtendedNumber(m), startExtended, sizeExtended, "E");
    SystemPartitionsFit(m, boot, settings, extended);
    written := Insert(written, ExtendedNumber(m), extended);
  }

  lemma {:induction false} LastKeyIsPositive(m: PartitionMap, k: int)
    requires Ascending(m) && Contains(m, k)
    ensures m != [] && LastKey(m) >= k
  {
    ContainsIsMembership(m, k);
  }

  /** The entries `partitions` and the text `table` are what is written for the map `m`. */
  datatype Written = Written(table: string, partitions: PartitionMap, boot: PartitionInfo, settings: PartitionInfo,
                             extended: PartitionInfo)

  /** The system partitions: two as read from the running system, the third up to the sector `end`. */
  ghost predicate SystemPartitions(boot: PartitionInfo, settings: PartitionInfo, extended: PartitionInfo,
                                   p1: Slot, p5: Slot, end: int)
    reads boot, settings, extended
  {
    && IsSystem(boot, p1, "0E")
    && IsSystem(settings, p5, "L")
    && IsSystem(extended, Slot(p1.End(), end - p1.End()), "E")
  }

  /** A logical partition lies within the sectors `from` to `to`, a primary one of an operating system behind them. */
  ghost predicate Beside(e: Entry<PartitionInfo>, from: int, to: int)
    reads e.value`offset, e.value`sizeSectors
  {
    if e.key >= 6 then from < e.value.offset && e.value.EndSector() <= to else to < e.value.offset
  }

  /** The partitions have been placed in order behind the settings partition, which lies behind the boot partition. */
  ghost predicate PlacedBehind(m: PartitionMap, p1: Slot, p5: Slot)
    reads InfosOf(m)`offset, InfosOf(m)`sizeSectors
  {
    && p1.End() <= p5.start && p5.size >= 0
    && Ordered(SlotsInOrder(m), p5.End())
  }

  ghost function SlotsInOrder(m: PartitionMap): (slots: seq<Slot>)
    reads InfosOf(m)`offset, InfosOf(m)`sizeSectors
  {
    assert forall p | p in Values(LogicalThenPrimary(m)) :: p in InfosOf(m) by { LogicalThenPrimaryKeeps(m); }
    Slots(Values(LogicalThenPrimary(m)))
  }

  lemma {:induction false} LogicalThenPrimaryKeeps(m: PartitionMap)
    ensures forall e :: e in LogicalThenPrimary(m) <==> e in m
    ensures forall p | p in Values(LogicalThenPrimary(m)) :: p in InfosOf(m)
  {
    var a, b := m[..Position(m, 6)], m[Position(m, 6)..];
    assert m == a + b;
    forall p | p in Values(LogicalThenPrimary(m)) ensures p in InfosOf(m) {
      var i :| 0 <= i < |m| && Values(LogicalThenPrimary(m))[i] == p;
      assert LogicalThenPrimary(m)[i] in m;
    }
  }

  /** What the extended partition encloses: the settings partition and all logical ones. */
  ghost predicate Encloses(w: Written, m: PartitionMap)
    reads w.settings, w.extended, InfosOf(m)`offset, InfosOf(m)`sizeSectors
  {
    && w.extended.offset <= w.settings.offset && w.settings.EndSector() <= w.extended.EndSector()
    && forall e | e in m :: Beside(e, w.extended.offset, w.extended.EndSector())
  }

  lemma {:induction false} PlacedIsEnclosed(m: PartitionMap, p1: Slot, p5: Slot)
    requires Ascending(m) && PlacedBehind(m, p1, p5)
    ensures p5.End() <= ExtendedEnd(m, p5.End())
    ensures forall e | e in m :: Beside(e, p1.End(), ExtendedEnd(m, p5.End()))
  {
    var slots, end := SlotsInOrder(m), ExtendedEnd(m, p5.End());
    ExtendedEndIsLastLogical(m, p5.End());
    ExtendedEncloses(m, slots, p1.End(), p5.start, p5.size, end);
    forall e | e in m ensures Beside(e, p1.End(), end) {
      var i := PlaceInSlots(m, e);
    }
  }

  lemma {:induction false} PlaceInSlots(m: PartitionMap, e: Entry<PartitionInfo>) returns (i: nat)
    requires e in m
    ensures i < |m| && LogicalThenPrimary(m)[i] == e && SlotsInOrder(m)[i] == e.value.AsSlot()
  {
    var placed := LogicalThenPrimary(m);
    LogicalThenPrimaryKeeps(m);
    i :| 0 <= i < |m| && placed[i] == e;
  }

  /**
   * A successful `calculateSpaceRequirements` leaves the partitions as the table wants them, unless a negative number
   * stands in front of a logical one.
   */
  lemma {:induction false} LaidOutIsPlaced(m: PartitionMap, rs: seq<Request>, p1: Slot, p5: Slot, extra: int,
                                           total: int, reserved: int)
    requires NumbersOk(m) && (Regular(m) || Position(m, 6) == |m|) && p1.End() <= p5.start && p5.size >= 0
    requires LaidOut(rs, Slots(Values(PlacementOrderOf(m))), p5.End(), extra, total, reserved)
    ensures PlacedBehind(m, p1, p5)
  {
    RotationsReorderIff(m);
  }

  lemma {:induction false} WrittenEncloses(m: PartitionMap, w: Written, p1: Slot, p5: Slot)
    requires Ascending(m) && PlacedBehind(m, p1, p5)
    requires SystemPartitions(w.boot, w.settings, w.extended, p1, p5, ExtendedEnd(m, p5.End()))
    ensures Encloses(w, m)
  {
    PlacedIsEnclosed(m, p1, p5);
    assert w.extended.AsSlot().End() == ExtendedEnd(m, p5.End());
  }

  /** The map with the system partitions, and its text. */
  method Write(m: PartitionMap, p1: Slot, p5: Slot, number: int -> string) returns (w: Written)
    requires NumbersOk(m)
    ensures Extends(m, w.partitions, w.boot, w.settings, w.extended)
    ensures SystemPartitions(w.boot, w.settings, w.extended, p1, p5, ExtendedEnd(m, p5.End()))
    ensures IsTable(w.table, w.partitions, number)
  {
    var written, boot, settings, extended := AddSystemPartitions(m, p1, p5);
    LastKeyIsPositive(written, 5);
    var table := TableText(written, number);
    w := Written(table, written, boot, settings, extended);
  }

  ghost predicate HasNumber(m: PartitionMap, p: PartitionInfo, n: int) {
    Entry(n, p) in m
  }

  lemma {:induction false} SystemNumbers(m: PartitionMap, w: Written)
    requires Ascending(m) && Extends(m, w.partitions, w.boot, w.settings, w.extended)
    ensures HasNumber(w.partitions, w.boot, 1) && HasNumber(w.partitions, w.settings, 5)
    ensures HasNumber(w.partitions, w.extended, if exists e :: e in m && e.key == 2 then 4 else 2)
  {
    forall n: int | Contains(w.partitions, n) ensures Entry(n, Lookup(w.partitions, n)) in w.partitions {
      assert w.partitions[Position(w.partitions, n)] in w.partitions;
    }
    assert Contains(w.partitions, 1) && Contains(w.partitions, 5) && Contains(w.partitions, ExtendedNumber(m));
    ContainsIsMembership(m, 2);
    if Contains(m, 2) {
      assert m[Position(m, 2)] in m && m[Position(m, 2)].key == 2;
    }
  }

  /** None when the existing partition table could not be read. */
  method WritePartitionTable(m: PartitionMap, p1: Slot, p5: Slot, number: int -> string) returns (w: Option<Written>)
    requires NumbersOk(m)
    ensures w.Some? <==> p1.start != 0 && p1.size != 0 && p5.start != 0 && p5.size != 0
    ensures w.Some? ==> Extends(m, w.value.partitions, w.value.boot, w.value.settings, w.value.extended)
    ensures w.Some? ==> SystemPartitions(w.value.boot, w.value.settings, w.value.extended,
                                         p1, p5, ExtendedEnd(m, p5.End()))
    ensures w.Some? ==>
              HasNumber(w.value.partitions, w.value.boot, 1) && HasNumber(w.value.partitions, w.value.settings, 5)
              && HasNumber(w.value.partitions, w.value.extended, if exists e :: e in m && e.key == 2 then 4 else 2)
    ensures w.Some? && PlacedBehind(m, p1, p5) ==> Encloses(w.value, m)
    ensures w.Some? ==> IsTable(w.value.table, w.value.partitions, number)
    ensures w.Some? && Printable(m, number) ==> Reads(w.value.table, w.value.partitions, number)
    ensures w.Some? && AllPlain(m, number) ==> ReadsBack(w.value.table, w.value.partitions, number)
  {
    if p1.start == 0 || p1.size == 0 || p5.start == 0 || p5.size == 0 {
      return None;
    }
    var written := Write(m, p1, p5, number);
    SystemNumbers(m, written);
    if PlacedBehind(m, p1, p5) {
      WrittenEncloses(m, written, p1, p5);
    }
    if Printable(m, number) {
      WrittenReads(m, written, p1, p5, number);
    }
    if AllPlain(m, number) {
      WrittenReadsBack(m, written, p1, p5, number);
    }
    w := Some(written);
  }

  /** Line `i` of the text, cut at its newlines, describes partition `i`. */
  ghost predicate Reads(table: string, m: PartitionMap, number: int -> string)
    reads InfosOf(m)`offset, InfosOf(m)`sizeSectors
  {
    var lines := SplitLines(table, "");
    && m != [] && |lines| == LastKey(m)
    && forall i | 0 <= i < |lines| :: lines[i] == Line(m, i + 1, number)
  }

  lemma {:induction false} TableReads(table: string, m: PartitionMap, number: int -> string)
    requires IsTable(table, m, number) && Printable(m, number)
    ensures Reads(table, m, number)
  {
    var n := LastKey(m);
    LinesOnOneLine(m, n, number);
    SplitInvertsText(Lines(m, n, number));
    forall i | 0 <= i < n ensures Lines(m, n, number)[i] == Line(m, i + 1, number) {
      LinesAt(m, n, number, i);
    }
  }

  lemma {:induction false} WrittenIsPrintable(m: PartitionMap, written: PartitionMap, boot: PartitionInfo,
                                              settings: PartitionInfo, extended: PartitionInfo, number: int -> string)
    requires NumbersOk(m) && Extends(m, written, boot, settings, extended) && Printable(m, number)
    requires OneLine(boot.partitionType) && OneLine(settings.partitionType) && OneLine(extended.partitionType)
    ensures Printable(written, number)
  {
    forall e | e in written ensures OneLine(e.value.partitionType) {
      var i :| 0 <= i < |written| && written[i] == e;
      LookupOfEntry(written, i);
      if Contains(m, e.key) {
        assert m[Position(m, e.key)] in m;
      }
    }
  }

  lemma {:induction false} WrittenReads(m: PartitionMap, w: Written, p1: Slot, p5: Slot, number: int -> string)
    requires NumbersOk(m) && Extends(m, w.partitions, w.boot, w.settings, w.extended) && Printable(m, number)
    requires SystemPartitions(w.boot, w.settings, w.extended, p1, p5, ExtendedEnd(m, p5.End()))
    requires IsTable(w.table, w.partitions, number)
    ensures Reads(w.table, w.partitions, number)
  {
    assert OneLine("0E") && OneLine("L") && OneLine("E");
    WrittenIsPrintable(m, w.partitions, w.boot, w.settings, w.extended, number);
    TableReads(w.table, w.partitions, number);
  }

  // Reading a line back

  /** What stands between the commas. */
  function Fields(text: string, field: string): seq<string> {
    if text == "" then [field]
    else if text[0] == ',' then [field] + Fields(text[1..], "")
    else Fields(text[1..], field + [text[0]])
  }

  predicate Plain(s: string) {
    ',' !in s && ' ' !in s && '\n' !in s
  }

  lemma {:induction false} LastField(field: string, before: string)
    requires ',' !in field
    ensures Fields(field, before) == [before + field]
  {
    if field == "" {
      assert before + field == before;
    } else {
      LastField(field[1..], before + [field[0]]);
      assert before + [field[0]] + field[1..] == before + field;
    }
  }

  lemma {:induction false} FieldThenRest(field: string, rest: string, before: string)
    requires ',' !in field
    ensures Fields(field + "," + rest, before) == [before + field] + Fields(rest, "")
  {
    var text := field + "," + rest;
    if field == "" {
      assert text == "," + rest && text[1..] == rest;
      assert before + field == before;
    } else {
      assert text[1..] == field[1..] + "," + rest;
      FieldThenRest(field[1..], rest, before + [field[0]]);
      assert before + [field[0]] + field[1..] == before + field;
    }
  }

  /** The fields of a line, and whether it marks the partition as active. */
  datatype TableLine = TableLine(fields: seq<string>, active: bool)

  /** A line of `sfdisk`: fields between commas, and a star at the end for the active partition. */
  function ReadLine(line: string): TableLine {
    var n := |line|;
    if n >= 2 && line[n - 2] == ' ' && line[n - 1] == '*' then TableLine(Fields(line[..n - 2], ""), true)
    else TableLine(Fields(line, ""), false)
  }

  lemma {:induction false} ReadThree(a: string, b: string, kind: string, active: bool)
    requires Plain(a) && Plain(b) && Plain(kind)
    ensures var body := a + "," + b + "," + kind;
            ReadLine(if active then body + " *" else body) == TableLine([a, b, kind], active)
  {
    var body := a + "," + b + "," + kind;
    var tail := b + "," + kind;
    assert body == a + "," + tail;
    FieldThenRest(a, tail, "");
    FieldThenRest(b, kind, "");
    LastField(kind, "");
    assert "" + a == a && "" + b == b && "" + kind == kind;
    assert [a] + ([b] + [kind]) == [a, b, kind];
    if active {
      var line := body + " *";
      assert line[..|line| - 2] == body && line[|line| - 2] == ' ' && line[|line| - 1] == '*';
    } else {
      assert ' ' !in body;
    }
  }

  lemma {:induction false} ReadFree()
    ensures ReadLine("0,0") == TableLine(["0", "0"], false)
  {
    assert "0,0" == "0" + "," + "0";
    FieldThenRest("0", "0", "");
    LastField("0", "");
    assert "" + "0" == "0";
  }

  /** Numbers and partition types are printed without commas, blanks and newlines. */
  ghost predicate AllPlain(m: PartitionMap, number: int -> string) {
    && (forall x: int {:trigger number(x)} :: Plain(number(x)))
    && (forall e | e in m :: Plain(e.value.partitionType))
  }

  /** The line says where the partition starts, how long it is, of what type, and whether it is active. */
  ghost predicate Describes(line: string, p: PartitionInfo, number: int -> string)
    reads p`offset, p`sizeSectors
  {
    ReadLine(line) == TableLine([number(p.offset), number(p.sizeSectors), p.partitionType], p.active)
  }

  /** Cut at newlines, the text has one line for each number up to the last: of that partition, or 0,0 if it is free. */
  ghost predicate ReadsBack(table: string, m: PartitionMap, number: int -> string)
    reads InfosOf(m)`offset, InfosOf(m)`sizeSectors
  {
    var lines := SplitLines(table, "");
    && m != [] && |lines| == m[|m| - 1].key
    && (forall e | e in m && 1 <= e.key <= |lines| :: Describes(lines[e.key - 1], e.value, number))
    && (forall i | 0 <= i < |lines| ::
          (exists e :: e in m && e.key == i + 1) || ReadLine(lines[i]) == TableLine(["0", "0"], false))
  }

  lemma {:induction false} LineReadsBack(m: PartitionMap, i: int, number: int -> string)
    requires Ascending(m) && AllPlain(m, number)
    ensures forall e | e in m && e.key == i :: Describes(Line(m, i, number), e.value, number)
    ensures (exists e :: e in m && e.key == i) || ReadLine(Line(m, i, number)) == TableLine(["0", "0"], false)
  {
    ReadFree();
    forall e | e in m && e.key == i ensures Describes(Line(m, i, number), e.value, number) {
      var j :| 0 <= j < |m| && m[j] == e;
      LookupOfEntry(m, j);
      var p := e.value;
      var offset, sectors := p.offset, p.sizeSectors;
      ReadThree(number(offset), number(sectors), p.partitionType, p.active);
    }
    if Contains(m, i) {
      var e := m[Position(m, i)];
      assert e in m && e.key == i;
    }
  }

  lemma {:induction false} PlainIsPrintable(m: PartitionMap, number: int -> string)
    requires AllPlain(m, number)
    ensures Printable(m, number)
  {
    forall x: int ensures OneLine(number(x)) {
      assert Plain(number(x));
    }
  }

  lemma {:induction false} TableReadsBack(table: string, m: PartitionMap, number: int -> string)
    requires Ascending(m) && IsTable(table, m, number) && AllPlain(m, number)
    ensures ReadsBack(table, m, number)
  {
    PlainIsPrintable(m, number);
    TableReads(table, m, number);
    var lines := SplitLines(table, "");
    forall i | 0 <= i < |lines|
      ensures forall e | e in m && e.key == i + 1 :: Describes(lines[i], e.value, number)
      ensures (exists e :: e in m && e.key == i + 1) || ReadLine(lines[i]) == TableLine(["0", "0"], false)
    {
      LineReadsBack(m, i + 1, number);
      assert lines[i] == Line(m, i + 1, number);
    }
  }

  lemma {:induction false} WrittenIsPlain(m: PartitionMap, w: Written, p1: Slot, p5: Slot, number: int -> string)
    requires NumbersOk(m) && Extends(m, w.partitions, w.boot, w.settings, w.extended) && AllPlain(m, number)
    requires SystemPartitions(w.boot, w.settings, w.extended, p1, p5, ExtendedEnd(m, p5.End()))
    ensures AllPlain(w.partitions, number)
  {
    assert Plain("0E") && Plain("L") && Plain("E");
    forall e | e in w.partitions ensures Plain(e.value.partitionType) {
      var i :| 0 <= i < |w.partitions| && w.partitions[i] == e;
      LookupOfEntry(w.partitions, i);
      if Contains(m, e.key) {
        assert m[Position(m, e.key)] in m;
      }
    }
  }

  lemma {:induction false} WrittenReadsBack(m: PartitionMap, w: Written, p1: Slot, p5: Slot, number: int -> string)
    requires NumbersOk(m) && Extends(m, w.partitions, w.boot, w.settings, w.extended) && AllPlain(m, number)
    requires SystemPartitions(w.boot, w.settings, w.extended, p1, p5, ExtendedEnd(m, p5.End()))
    requires IsTable(w.table, w.partitions, number)
    ensures ReadsBack(w.table, w.partitions, number)
  {
    WrittenIsPlain(m, w, p1, p5, number);
    TableReadsBack(w.table, w.partitions, number);
  }

  lemma {:induction false} LookupOfEntry(m: PartitionMap, i: nat)
    requires Ascending(m) && i < |m|
    ensures Contains(m, m[i].key) && Lookup(m, m[i].key) == m[i].value
  {
    PositionIsUnique(m, m[i].key, i);
  }

  /** One line for every number up to the last. */
  ghost predicate IsTable(table: string, m: PartitionMap, number: int -> string)
    reads InfosOf(m)`offset, InfosOf(m)`sizeSectors
  {
    m != [] && LastKey(m) >= 5 && table == Text(Lines(m, LastKey(m), number))
  }

  function LastKey(m: PartitionMap): int
    requires m != []
  {
    m[|m| - 1].key
  }

  lemma {:induction false} NextLine(m: PartitionMap, i: nat, number: int -> string)
    ensures Text(Lines(m, i + 1, number)) == Text(Lines(m, i, number)) + Line(m, i + 1, number) + "\n"
  {
    var before, line := Lines(m, i, number), Line(m, i + 1, number);
    assert (before + [line])[..|before|] == before;
  }

  method TableText(m: PartitionMap, number: int -> string) returns (table: string)
    requires m != [] && LastKey(m) >= 5
    ensures IsTable(table, m, number)
  {
    table := "";
    for i := 1 to LastKey(m) + 1
      invariant table == Text(Lines(m, i - 1, number))
    {
      NextLine(m, i - 1, number);
      if Contains(m, i) {
        table := table + Row(Lookup(m, i), number) + "\n";
      } else {
        table := table + "0,0" + "\n";
      }
    }
  }

  /**
   * With the slots of a placement in order behind the settings partition, the extended partition holds the
   * settings partition and every logical one, and every primary one of an operating system lies behind it.
   */
  lemma {:induction false} ExtendedEncloses(m: PartitionMap, slots: seq<Slot>, startExtended: int, startP5: int, sizeP5: int, end: int)
    requires Ascending(m) && |slots| == |m| && Ordered(slots, startP5 + sizeP5)
    requires startExtended <= startP5 && sizeP5 >= 0
    requires var n := |m| - Position(m, 6);
             end == if n > 0 then slots[n - 1].End() else startP5 + sizeP5
    ensures startExtended <= startP5 && startP5 + sizeP5 <= end
    ensures forall i | 0 <= i < |m| ::
              if LogicalThenPrimary(m)[i].key >= 6
              then startExtended < slots[i].start && slots[i].End() <= end
              else slots[i].start > end
  {
    forall i | 0 <= i < |m|
      ensures if LogicalThenPrimary(m)[i].key >= 6
              then startExtended < slots[i].start && slots[i].End() <= end
              else slots[i].start > end
    {
      LogicalComeFirst(m, i);
      SlotBesideEnd(slots, startP5 + sizeP5, |m| - Position(m, 6), end, i);
    }
    var n := |m| - Position(m, 6);
    if n > 0 {
      SlotBesideEnd(slots, startP5 + sizeP5, n, end, n - 1);
    }
  }

  lemma {:induction false} LogicalComeFirst(m: PartitionMap, i: nat)
    requires Ascending(m) && i < |m|
    ensures LogicalThenPrimary(m)[i].key >= 6 <==> i < |m| - Position(m, 6)
  {
    PositionMeaning(m, 6);
    var p := Position(m, 6);
    if i < |m| - p {
      assert p < |m| && m[p].key <= m[p + i].key;
    }
  }

  /** Where slot `i` lies when `end` is the end of slot `n - 1`, or the offset if there is none. */
  lemma {:induction false} SlotBesideEnd(slots: seq<Slot>, offset: int, n: nat, end: int, i: nat)
    requires Ordered(slots, offset) && i < |slots| && n <= |slots|
    requires end == if n > 0 then slots[n - 1].End() else offset
    ensures offset < slots[i].start < slots[i].End()
    ensures if i < n then slots[i].End() <= end else slots[i].start > end
  {
    SlotsAfterOffset(slots, offset, i);
    assert OrderedAt(slots, offset, i);
    if i < n - 1 {
      SlotsAreDisjoint(slots, offset, i, n - 1);
      assert OrderedAt(slots, offset, n - 1);
    } else if n > 0 && n <= i {
      SlotsAreDisjoint(slots, offset, n - 1, i);
    }
  }

  /** The end used there is the end the table is written with. */
  lemma {:induction false} ExtendedEndIsLastLogical(m: PartitionMap, settingsEnd: int)
    requires Ascending(m)
    ensures var n := |m| - Position(m, 6);
            ExtendedEnd(m, settingsEnd)
            == if n > 0 then Slots(Values(LogicalThenPrimary(m)))[n - 1].End() else settingsEnd
  {
    var n := |m| - Position(m, 6);
    PositionMeaning(m, 6);
    if n > 0 {
      assert m[Position(m, 6)].key <= m[|m| - 1].key;
      assert LogicalThenPrimary(m)[n - 1] == m[|m| - 1];
    }
  }
}
