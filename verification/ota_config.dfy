/** One `ota:` entry after schema validation, the configuration errors the build-time code
    raises, and the schema limits the entry must meet. */
module OtaConfig {
  import opened Base
  import opened BackendState

  /** The `esphome` platform name that the merge and the helper lookup select on. */
  const EsphomePlatform: seq<char> := "esphome"

  /** The version the schema fills in when the entry names none. */
  const DefaultVersion: int := 2

  /** One entry of the `ota:` list. `port` is None where the platform has no default port;
      `password`, `targetPartition` and `helperPartition` are None when the key is absent,
      which is not the same as present and empty. `idManual` says whether the user wrote
      the `id:` rather than letting it be generated. */
  datatype OtaConf = OtaConf(
    platform: seq<char>,
    port: Option<int>,
    version: int,
    idManual: bool,
    password: Option<seq<char>>,
    targetPartition: Option<seq<char>>,
    helperPartition: Option<seq<char>>,
    psramMode: bool)

  predicate IsEsphome(c: OtaConf)
  {
    c.platform == EsphomePlatform
  }

  /** Why a custom partitions file could not be read as a partition table. */
  datatype CsvProblem =
    | TypeMissing          // the helper's row has no Type column, so `.strip()` fails on None
    | NotAnApp(got: seq<char>)   // the helper's row has another Type; the Invalid is re-wrapped

  /** The `cv.Invalid` errors the OTA build-time code raises. */
  datatype ConfigError =
    | VersionNotAllowed(version: int)
    | PartitionNameTooLong(name: seq<char>)
    | VersionInconsistent
    | IdInconsistent
    | PasswordInconsistent
    | HelperNeedsEsp32
    | PartitionsFileMissing(path: seq<char>)
    | PartitionsFileUnparsable(path: seq<char>, problem: CsvProblem)
    | HelperPartitionMissing(path: seq<char>, helper: seq<char>)
    | UnsupportedFlashSize(flashSize: seq<char>)

  /** `cv.Optional(CONF_VERSION, default=2): cv.one_of(1, 2, int=True)`. */
  function CheckVersion(version: Option<int>): (r: Result<int, ConfigError>)
    ensures r.Success? <==> version.None? || version.value in {1, 2}
    ensures version.None? ==> r == Success(DefaultVersion)
    ensures version.Some? && r.Success? ==> r.value == version.value
    ensures r.Failure? ==> r.error == VersionNotAllowed(version.value)
  {
    match version
    case None => Success(DefaultVersion)
    case Some(v) => if v == 1 || v == 2 then Success(v) else Failure(VersionNotAllowed(v))
  }

  /** `cv.All(cv.string, cv.Length(max=16))` on `target_partition` and
      `ota_helper_partition`: an absent key passes, a present one at most 16 long. */
  function CheckPartitionName(name: Option<seq<char>>): (r: Result<Option<seq<char>>, ConfigError>)
    ensures r.Success? <==> name.None? || |name.value| <= MaxLabelLength
    ensures r.Success? ==> r.value == name
    ensures r.Failure? ==> r.error == PartitionNameTooLong(name.value)
  {
    if name.Some? && |name.value| > MaxLabelLength then Failure(PartitionNameTooLong(name.value))
    else Success(name)
  }

  /** The schema bound and the backend's label array agree: a `target_partition` the
      schema accepts, handed to `set_target_partition`, is stored whole, because the
      16-byte truncation never cuts into it. The bound counts characters and the copy
      counts bytes, so this holds for ASCII names, one byte per character. */
  lemma AcceptedTargetStoredWhole(b: Backend, name: seq<char>)
    requires CheckPartitionName(Some(name)).Success?
    requires '\0' !in name && name != []
    requires forall c :: c in name ==> c < 128 as char
    ensures SetTargetPartition(b, Some(name)).targetLabel == name
  {
    CStringOfPlain(name);
  }
}
