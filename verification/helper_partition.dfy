/** `_validate_ota_helper_partition`: find the helper partition the `esphome` OTA entries
    ask for, and make sure the partition table the build will use contains it as an app
    partition, either by checking the user's partitions file or by generating a table. */
module HelperPartition {
  import opened Base
  import opened EspIdf
  import opened Text
  import opened OtaConfig
  import opened PartitionLayout

  // ---------------------------------------------------------------- the partitions file

  /** A line the comprehension keeps: not blank and not a `#` comment once stripped. */
  predicate Listed(line: seq<char>)
  {
    Strip(line) != [] && Strip(line)[0] != '#'
  }

  /** The columns of a line; the reader skips initial spaces, and every column used is
      stripped afterwards anyway. */
  function Columns(line: seq<char>): (cols: seq<seq<char>>)
    ensures |cols| >= 1
  {
    Split(line, ',')
  }

  /** The stripped Name column. */
  function RowName(line: seq<char>): seq<char>
  {
    Strip(Columns(line)[0])
  }

  /** The stripped, lower-cased Type column, or None when the line has no second column
      (the reader then fills in None, and `.strip()` on it raises). */
  function RowType(line: seq<char>): Option<seq<char>>
  {
    var cols := Columns(line);
    if |cols| < 2 then None else Some(Lower(Strip(cols[1])))
  }

  /** The line is a listed row whose Name is `helper`. */
  predicate Names(line: seq<char>, helper: seq<char>)
  {
    Listed(line) && RowName(line) == helper
  }

  /** What the scan of a partitions file concludes. */
  datatype CsvVerdict = HelperIsApp | HelperNotListed | Unparsable(problem: CsvProblem)

  /** The verdict on the first row naming the helper: its Type must be `app`. */
  function Judge(line: seq<char>): (v: CsvVerdict)
    ensures v != HelperNotListed
    ensures v == HelperIsApp <==> RowType(line) == Some("app")
    ensures v == Unparsable(TypeMissing) <==> RowType(line).None?
  {
    match RowType(line)
    case None => Unparsable(TypeMissing)
    case Some(t) => if t == "app" then HelperIsApp else Unparsable(NotAnApp(t))
  }

  /** For each line, whether it is a listed row named `helper`. */
  function Naming(lines: seq<seq<char>>, helper: seq<char>): (named: seq<bool>)
    ensures |named| == |lines|
    ensures forall k :: 0 <= k < |lines| ==> named[k] == Names(lines[k], helper)
  {
    seq(|lines|, k requires 0 <= k < |lines| => Names(lines[k], helper))
  }

  /** The comprehension and the reader loop, fused: skip the lines not `named`, stop at
      the first that is, and judge that row by its Type. */
  function ScanFrom(lines: seq<seq<char>>, named: seq<bool>, i: nat): CsvVerdict
    requires |named| == |lines| && i <= |lines|
    decreases |lines| - i
  {
    if i == |lines| then HelperNotListed
    else if named[i] then Judge(lines[i])
    else ScanFrom(lines, named, i + 1)
  }

  function ScanPartitionsFile(lines: seq<seq<char>>, helper: seq<char>): CsvVerdict
  {
    ScanFrom(lines, Naming(lines, helper), 0)
  }

  /** `i` is the first marked position at or after `from`. */
  predicate FirstMarked(named: seq<bool>, from: nat, i: int)
  {
    from <= i < |named| && named[i] && forall j :: from <= j < i ==> !named[j]
  }

  /** The first line at or after `from` that names the helper. */
  predicate FirstNaming(lines: seq<seq<char>>, helper: seq<char>, from: nat, i: int)
  {
    from <= i < |lines| && Names(lines[i], helper)
    && forall j :: from <= j < i ==> !Names(lines[j], helper)
  }

  /** The scan reports the helper missing exactly when no line from `from` on is marked. */
  lemma {:induction false} ScanFromMissing(lines: seq<seq<char>>, named: seq<bool>, from: nat)
    requires |named| == |lines| && from <= |lines|
    ensures ScanFrom(lines, named, from) == HelperNotListed <==>
              forall j :: from <= j < |lines| ==> !named[j]
    decreases |lines| - from
  {
    if from < |lines| && !named[from] {
      ScanFromMissing(lines, named, from + 1);
    }
  }

  /** The scan judges the first marked line from `from` on. */
  lemma {:induction false} ScanFromJudges(lines: seq<seq<char>>, named: seq<bool>, from: nat, i: int)
    requires |named| == |lines| && from <= |lines|
    requires FirstMarked(named, from, i)
    ensures ScanFrom(lines, named, from) == Judge(lines[i])
    decreases |lines| - from
  {
    if from < i {
      ScanFromJudges(lines, named, from + 1, i);
    }
  }

  /** Some position is marked, so a first one is. */
  lemma FirstTrue(flags: seq<bool>) returns (i: nat)
    requires exists j :: 0 <= j < |flags| && flags[j]
    ensures FirstMarked(flags, 0, i)
  {
    var j :| 0 <= j < |flags| && flags[j];
    i := 0;
    while !flags[i]
      invariant i <= j
      invariant forall k :: 0 <= k < i ==> !flags[k]
      decreases j - i
    {
      i := i + 1;
    }
  }

  /** The scan against a definition that does not walk the file: the helper is an app
      partition exactly when the first row naming it has Type `app` (in any case, around
      any spaces); it is missing exactly when no listed row names it; otherwise the file
      is reported unparsable with the first naming row's problem. */
  lemma ScanPartitionsFileSpec(lines: seq<seq<char>>, helper: seq<char>)
    ensures ScanPartitionsFile(lines, helper) == HelperIsApp <==>
              exists i :: FirstNaming(lines, helper, 0, i) && RowType(lines[i]) == Some("app")
    ensures ScanPartitionsFile(lines, helper) == HelperNotListed <==>
              forall j :: 0 <= j < |lines| ==> !Names(lines[j], helper)
    ensures ScanPartitionsFile(lines, helper) == Unparsable(TypeMissing) <==>
              exists i :: FirstNaming(lines, helper, 0, i) && RowType(lines[i]).None?
  {
    var named := Naming(lines, helper);
    ScanFromMissing(lines, named, 0);
    if exists j :: 0 <= j < |named| && named[j] {
      var i := FirstTrue(named);
      ScanFromJudges(lines, named, 0, i);
      FirstNamingUnique(lines, helper, i);
      var v := Judge(lines[i]);
      assert v == HelperIsApp ==> FirstNaming(lines, helper, 0, i) && RowType(lines[i]) == Some("app");
      assert v == Unparsable(TypeMissing) ==> FirstNaming(lines, helper, 0, i) && RowType(lines[i]).None?;
    } else {
      forall i' ensures !FirstNaming(lines, helper, 0, i') {
        if 0 <= i' < |lines| {
          assert !named[i'];
        }
      }
    }
  }

  /** The first marked line is the one first naming the helper, and the only such line. */
  lemma FirstNamingUnique(lines: seq<seq<char>>, helper: seq<char>, i: int)
    requires FirstMarked(Naming(lines, helper), 0, i)
    ensures FirstNaming(lines, helper, 0, i)
    ensures forall i' :: FirstNaming(lines, helper, 0, i') ==> i' == i
  {
    var named := Naming(lines, helper);
    forall i' | FirstNaming(lines, helper, 0, i') ensures i' == i {
      assert named[i'];
    }
  }

  // ---------------------------------------------------------------- the validation

  /** What the build needs to know that lies outside the OTA entries: whether the target
      is an ESP32, the `esp32: partitions:` path if any, the lines of that file (None when
      it does not exist), and `esp32: flash_size:` if given. */
  datatype BuildEnv = BuildEnv(
    isEsp32: bool,
    partitionsPath: Option<seq<char>>,
    partitionsFile: Option<seq<seq<char>>>,
    flashSize: Option<seq<char>>)

  /** The flash size assumed when none is configured. */
  const DefaultFlashSize: seq<char> := "4MB"

  /** How the helper partition is provided: not at all, by the user's file, or by the
      generated rows (the content written to `partitions.csv`). */
  datatype HelperPlan = NoHelper | CustomTable(helper: seq<char>) | GeneratedTable(rows: seq<Row>)

  /** Some `esphome` entry of `confs` at or after `from` has the helper key. */
  predicate AsksForHelper(c: OtaConf)
  {
    IsEsphome(c) && c.helperPartition.Some?
  }

  /** The lookup loop: the value of the first `esphome` entry that has the key, even an
      empty one; None when there is none. */
  function HelperSetting(confs: seq<OtaConf>): (r: Option<seq<char>>)
    ensures r.None? <==> forall k :: 0 <= k < |confs| ==> !AsksForHelper(confs[k])
    ensures r.Some? ==> exists k :: 0 <= k < |confs| && AsksForHelper(confs[k])
                                    && confs[k].helperPartition.value == r.value
                                    && forall j :: 0 <= j < k ==> !AsksForHelper(confs[j])
  {
    if |confs| == 0 then None
    else if AsksForHelper(confs[0]) then Some(confs[0].helperPartition.value)
    else
      var r := HelperSetting(confs[1..]);
      if r.Some? then
        ghost var k :| 0 <= k < |confs[1..]| && AsksForHelper(confs[1..][k])
                       && confs[1..][k].helperPartition.value == r.value
                       && forall j :: 0 <= j < k ==> !AsksForHelper(confs[1..][j]);
        assert AsksForHelper(confs[k + 1]) && forall j :: 0 <= j < k + 1 ==> !AsksForHelper(confs[j]);
        r
      else
        assert forall k :: 1 <= k < |confs| ==> confs[k] == confs[1..][k - 1];
        r
  }

  /** The path test of `if custom_partitions_path:`: present and non-empty. */
  predicate HasCustomPath(env: BuildEnv)
  {
    env.partitionsPath.Some? && env.partitionsPath.value != []
  }

  /** `_validate_ota_helper_partition`. */
  function ValidateHelperPartition(confs: seq<OtaConf>, env: BuildEnv): (r: Result<HelperPlan, ConfigError>)
    ensures var h := HelperSetting(confs);
      (h.None? || h.value == []) <==> r == Success(NoHelper)
    ensures var h := HelperSetting(confs);
      h.Some? && h.value != [] && !env.isEsp32 ==> r == Failure(HelperNeedsEsp32)
    ensures var h := HelperSetting(confs);
      h.Some? && h.value != [] && env.isEsp32 && HasCustomPath(env) ==>
        var path := env.partitionsPath.value;
        && (env.partitionsFile.None? ==> r == Failure(PartitionsFileMissing(path)))
        && (env.partitionsFile.Some? ==>
              var v := ScanPartitionsFile(env.partitionsFile.value, h.value);
              && (v == HelperIsApp ==> r == Success(CustomTable(h.value)))
              && (v == HelperNotListed ==> r == Failure(HelperPartitionMissing(path, h.value)))
              && (v.Unparsable? ==> r == Failure(PartitionsFileUnparsable(path, v.problem))))
    ensures var h := HelperSetting(confs);
      h.Some? && h.value != [] && env.isEsp32 && !HasCustomPath(env) ==>
        var size := if env.flashSize.Some? then env.flashSize.value else DefaultFlashSize;
        && (size !in SupportedFlashSizes <==> r == Failure(UnsupportedFlashSize(size)))
        && (size in SupportedFlashSizes ==>
              r.Success? && r.value == GeneratedTable(GenerateDualPartitionTable(h.value, size).value))
  {
    var h := HelperSetting(confs);
    if h.None? || h.value == [] then Success(NoHelper)
    else if !env.isEsp32 then Failure(HelperNeedsEsp32)
    else if HasCustomPath(env) then
      var path := env.partitionsPath.value;
      match env.partitionsFile
      case None => Failure(PartitionsFileMissing(path))
      case Some(lines) =>
        match ScanPartitionsFile(lines, h.value)
        case HelperIsApp => Success(CustomTable(h.value))
        case HelperNotListed => Failure(HelperPartitionMissing(path, h.value))
        case Unparsable(problem) => Failure(PartitionsFileUnparsable(path, problem))
    else
      var size := if env.flashSize.Some? then env.flashSize.value else DefaultFlashSize;
      match GenerateDualPartitionTable(h.value, size)
      case Failure(e) => Failure(e)
      case Success(rows) => Success(GeneratedTable(rows))
  }

  /** Whenever validation lets a configured helper through, the table the build uses has
      it as an app partition: the user's file has a first row of that name with Type
      `app`, or the generated rows end with it as the `ota_1` app. */
  lemma AcceptedHelperIsApp(confs: seq<OtaConf>, env: BuildEnv)
    requires ValidateHelperPartition(confs, env).Success?
    requires ValidateHelperPartition(confs, env).value != NoHelper
    ensures var h := HelperSetting(confs).value;
      match ValidateHelperPartition(confs, env).value
      case CustomTable(name) =>
        && name == h
        && env.partitionsFile.Some?
        && exists i :: FirstNaming(env.partitionsFile.value, h, 0, i)
                       && RowType(env.partitionsFile.value[i]) == Some("app")
      case GeneratedTable(rows) =>
        && !HasCustomPath(env)
        && rows[4] == Row(h, App, "ota_1", None, 0x10_0000)
        && FitsFlash(Placed(rows), FlashBytes(if env.flashSize.Some? then env.flashSize.value else DefaultFlashSize).value)
      case NoHelper => false
  {
    var h := HelperSetting(confs).value;
    if HasCustomPath(env) {
      ScanPartitionsFileSpec(env.partitionsFile.value, h);
    } else {
      var size := if env.flashSize.Some? then env.flashSize.value else DefaultFlashSize;
      GeneratedTableFits(h, size);
    }
  }

  /** A custom file decides: with the helper configured on an ESP32 and a partitions path
      given, validation passes exactly when the file exists and its first row naming the
      helper is an app. */
  lemma CustomFileDecides(confs: seq<OtaConf>, env: BuildEnv)
    requires HelperSetting(confs).Some? && HelperSetting(confs).value != []
    requires env.isEsp32 && HasCustomPath(env)
    ensures ValidateHelperPartition(confs, env).Success? <==>
              && env.partitionsFile.Some?
              && exists i :: FirstNaming(env.partitionsFile.value, HelperSetting(confs).value, 0, i)
                             && RowType(env.partitionsFile.value[i]) == Some("app")
  {
    if env.partitionsFile.Some? {
      ScanPartitionsFileSpec(env.partitionsFile.value, HelperSetting(confs).value);
    }
  }
}
