/** The dual-partition table generated when an OTA helper partition is configured without
    a custom partitions file: a layout per supported flash size, the five rows written to
    `partitions.csv`, and where ESP-IDF's partition table tool places those rows. */
module PartitionLayout {
  import opened Base
  import opened EspIdf
  import opened OtaConfig

  /** Sizes of the main app, the helper app and the NVS partition. */
  datatype Layout = Layout(mainSize: nat, helperSize: nat, nvsSize: nat)

  /** The flash sizes a layout exists for. */
  const SupportedFlashSizes: seq<seq<char>> := ["4MB", "8MB", "16MB", "32MB"]

  /** The main app partition is placed explicitly at 64 KiB. */
  const MainOffset: nat := 0x10000

  /** NVS is placed explicitly right after the partition table. */
  const NvsOffset: nat := 0x9000

  /** The NVS size that leaves room for otadata and phy_init below `MainOffset`. */
  const FittingNvsSize: nat := 0x4000

  /** The number of bytes a supported flash size names. */
  function FlashBytes(flashSize: seq<char>): (n: Option<nat>)
    ensures n.Some? <==> flashSize in SupportedFlashSizes
  {
    if flashSize == "4MB" then Some(0x40_0000)
    else if flashSize == "8MB" then Some(0x80_0000)
    else if flashSize == "16MB" then Some(0x100_0000)
    else if flashSize == "32MB" then Some(0x200_0000)
    else None
  }

  /** The layout table as the source writes it: NVS is 0x6000 for every size. */
  function LayoutAsWritten(flashSize: seq<char>): (r: Result<Layout, ConfigError>)
    ensures r.Success? <==> flashSize in SupportedFlashSizes
    ensures r.Failure? ==> r.error == UnsupportedFlashSize(flashSize)
  {
    if flashSize == "4MB" then Success(Layout(0x2F_0000, 0x10_0000, 0x6000))
    else if flashSize == "8MB" then Success(Layout(0x6F_0000, 0x10_0000, 0x6000))
    else if flashSize == "16MB" then Success(Layout(0xEF_0000, 0x10_0000, 0x6000))
    else if flashSize == "32MB" then Success(Layout(0x1EF_0000, 0x10_0000, 0x6000))
    else Failure(UnsupportedFlashSize(flashSize))
  }

  /** The layout the rest of this model uses: the same app sizes, NVS shrunk to fit. */
  function LayoutFor(flashSize: seq<char>): (r: Result<Layout, ConfigError>)
    ensures r.Success? <==> flashSize in SupportedFlashSizes
    ensures r.Failure? ==> r.error == UnsupportedFlashSize(flashSize)
    ensures r.Success? ==> r.value.nvsSize == FittingNvsSize
  {
    match LayoutAsWritten(flashSize)
    case Failure(e) => Failure(e)
    case Success(l) => Success(l.(nvsSize := FittingNvsSize))
  }

  /** In every layout the main app from 64 KiB on, followed by the 1 MiB helper,
      fills the flash exactly. */
  lemma AppsFillFlash(flashSize: seq<char>)
    requires flashSize in SupportedFlashSizes
    ensures var l := LayoutFor(flashSize).value;
      MainOffset + l.mainSize + l.helperSize == FlashBytes(flashSize).value
      && l.helperSize == 0x10_0000
      && l.mainSize % 0x10000 == 0
  {
  }

  /** One row of the generated CSV; `offset` None is the blank Offset column. */
  datatype Row = Row(name: seq<char>, kind: PartitionType, subtype: seq<char>, offset: Option<nat>, size: nat)

  /** The five rows `partition_content` holds, in order: nvs, otadata, phy_init, main
      and the helper. */
  function Rows(helper: seq<char>, l: Layout): (rows: seq<Row>)
    ensures |rows| == 5
  {
    [ Row("nvs", Data, "nvs", Some(NvsOffset), l.nvsSize),
      Row("otadata", Data, "ota", None, 0x2000),
      Row("phy_init", Data, "phy", None, 0x1000),
      Row("main", App, "ota_0", Some(MainOffset), l.mainSize),
      Row(helper, App, "ota_1", None, l.helperSize) ]
  }

  /** `_generate_dual_partition_table` with the fitting NVS size: the rows to write, or
      the unsupported-size error. */
  function GenerateDualPartitionTable(helper: seq<char>, flashSize: seq<char>): (r: Result<seq<Row>, ConfigError>)
    ensures r.Success? <==> flashSize in SupportedFlashSizes
    ensures r.Failure? ==> r.error == UnsupportedFlashSize(flashSize)
    ensures r.Success? ==> |r.value| == 5 && r.value[4].name == helper && r.value[4].kind == App
    ensures r.Success? ==>
              && r.value[0] == Row("nvs", Data, "nvs", Some(NvsOffset), FittingNvsSize)
              && r.value[1] == Row("otadata", Data, "ota", None, 0x2000)
              && r.value[2] == Row("phy_init", Data, "phy", None, 0x1000)
              && r.value[3] == Row("main", App, "ota_0", Some(MainOffset), FlashBytes(flashSize).value - MainOffset - 0x10_0000)
              && r.value[4] == Row(helper, App, "ota_1", None, 0x10_0000)
  {
    match LayoutFor(flashSize)
    case Failure(e) => Failure(e)
    case Success(l) => Success(Rows(helper, l))
  }

  /** The same with the layout table as written. */
  function GenerateAsWritten(helper: seq<char>, flashSize: seq<char>): (r: Result<seq<Row>, ConfigError>)
    ensures r.Success? <==> flashSize in SupportedFlashSizes
    ensures r.Success? ==> |r.value| == 5 && r.value[0].size == 0x6000
  {
    match LayoutAsWritten(flashSize)
    case Failure(e) => Failure(e)
    case Success(l) => Success(Rows(helper, l))
  }

  // ---------------------------------------------------------------- placement

  /** Where a partition ends up: its first byte and its length. */
  datatype Span = Span(offset: nat, size: nat)

  /** A blank offset is rounded up to this boundary: 64 KiB for apps, 4 KiB for data. */
  function Alignment(kind: PartitionType): (a: nat)
    ensures a > 0
  {
    match kind
    case App => 0x10000
    case Data => 0x1000
  }

  /** The first offset at or after `x` on the alignment boundary of `kind`. */
  function RoundUp(x: nat, kind: PartitionType): (r: nat)
    ensures x <= r < x + Alignment(kind) && r % Alignment(kind) == 0
  {
    match kind
    case App => if x % 0x10000 == 0 then x else x + (0x10000 - x % 0x10000)
    case Data => if x % 0x1000 == 0 then x else x + (0x1000 - x % 0x1000)
  }

  /** ESP-IDF's partition table tool: an explicit offset is kept; a blank one starts at the
      end of the previous row, rounded up to the row's alignment. `next` starts at the end
      of the partition table. */
  function Place(rows: seq<Row>, next: nat): (spans: seq<Span>)
    ensures |spans| == |rows|
    ensures forall k :: 0 <= k < |rows| ==> spans[k].size == rows[k].size
  {
    if rows == [] then []
    else
      var r := rows[0];
      var at := if r.offset.Some? then r.offset.value else RoundUp(next, r.kind);
      [Span(at, r.size)] + Place(rows[1..], at + r.size)
  }

  /** Two spans share a byte. */
  predicate Overlap(a: Span, b: Span)
  {
    a.size > 0 && b.size > 0 && a.offset < b.offset + b.size && b.offset < a.offset + a.size
  }

  /** No two partitions share a byte and all of them lie inside `flash` bytes; the
      partition table tool refuses any other table. */
  predicate FitsFlash(spans: seq<Span>, flash: nat)
  {
    && (forall i, j :: 0 <= i < j < |spans| ==> !Overlap(spans[i], spans[j]))
    && (forall i :: 0 <= i < |spans| ==> spans[i].offset + spans[i].size <= flash)
  }

  /** The rows placed from the end of the partition table. */
  function Placed(rows: seq<Row>): seq<Span>
  {
    Place(rows, NvsOffset)
  }

  /** The spans the five generated rows get, in row order. */
  lemma PlacedRows(helper: seq<char>, l: Layout)
    requires l.mainSize % 0x10000 == 0
    ensures var s := Placed(Rows(helper, l));
      && s[0] == Span(NvsOffset, l.nvsSize)
      && s[1] == Span(RoundUp(NvsOffset + l.nvsSize, Data), 0x2000)
      && s[2] == Span(s[1].offset + 0x2000, 0x1000)
      && s[3] == Span(MainOffset, l.mainSize)
      && s[4] == Span(MainOffset + l.mainSize, l.helperSize)
  {
    var rows := Rows(helper, l);
    var s1 := RoundUp(NvsOffset + l.nvsSize, Data);
    assert Place(rows[4..], MainOffset + l.mainSize) == [Span(MainOffset + l.mainSize, l.helperSize)];
    assert Place(rows[3..], s1 + 0x3000) == [Span(MainOffset, l.mainSize)] + Place(rows[4..], MainOffset + l.mainSize);
    assert Place(rows[2..], s1 + 0x2000) == [Span(s1 + 0x2000, 0x1000)] + Place(rows[3..], s1 + 0x3000);
    assert Place(rows[1..], NvsOffset + l.nvsSize) == [Span(s1, 0x2000)] + Place(rows[2..], s1 + 0x2000);
  }

  /** The table as written does not fit: for every supported flash size otadata
      (0xF000-0x11000) and phy_init (0x11000-0x12000) lie inside the main app, which starts
      at 0x10000. */
  lemma AsWrittenTableOverlaps(helper: seq<char>, flashSize: seq<char>)
    requires flashSize in SupportedFlashSizes
    ensures var s := Placed(GenerateAsWritten(helper, flashSize).value);
      && s[1] == Span(0xF000, 0x2000) && s[2] == Span(0x11000, 0x1000)
      && Overlap(s[1], s[3]) && Overlap(s[2], s[3])
      && !FitsFlash(s, FlashBytes(flashSize).value)
  {
    var l := LayoutAsWritten(flashSize).value;
    PlacedRows(helper, l);
  }

  /** The generated table with the fitting NVS size is accepted: NVS, otadata and phy_init
      exactly fill 0x9000-0x10000, the two apps follow, and the helper ends at the last
      byte of flash. */
  lemma GeneratedTableFits(helper: seq<char>, flashSize: seq<char>)
    requires flashSize in SupportedFlashSizes
    ensures var s := Placed(GenerateDualPartitionTable(helper, flashSize).value);
      && FitsFlash(s, FlashBytes(flashSize).value)
      && s[0].offset == NvsOffset
      && s[2].offset + s[2].size == MainOffset
      && s[4].offset + s[4].size == FlashBytes(flashSize).value
  {
    var l := LayoutFor(flashSize).value;
    AppsFillFlash(flashSize);
    PlacedRows(helper, l);
  }
}
