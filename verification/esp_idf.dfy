/** The part of ESP-IDF the OTA code calls: error codes, the partition table and its
    lookup, and the partition-level flash and boot operations. Whatever the hardware
    decides (an error code, a cell that does not take the value written) arrives as a
    parameter; only the bookkeeping ESP-IDF documents is written out. */
module EspIdf {
  import opened Base

  /** The `esp_err_t` values the OTA code tells apart; every other code is `OtherErr`. */
  datatype EspErr =
    | EspOk
    | ErrInvalidArg
    | ErrInvalidSize
    | ErrFlashOpTimeout
    | ErrFlashOpFail
    | ErrOtaValidateFailed
    | OtherErr(code: int)

  datatype PartitionType = App | Data

  datatype Subtype = Factory | OtaSlot(index: nat) | OtherSubtype(code: nat)

  /** The subtype filter of `esp_partition_find_first`; `AnySubtype` is ESP_PARTITION_SUBTYPE_ANY. */
  datatype SubtypeQuery = AnySubtype | OnlySubtype(subtype: Subtype)

  /** One row of the partition table as the OTA code sees it. */
  datatype Partition = Partition(name: seq<char>, kind: PartitionType, subtype: Subtype, size: nat)

  /** What `esp_partition_find_first(kind, query, name)` accepts; a null name accepts any. */
  predicate Matches(p: Partition, kind: PartitionType, query: SubtypeQuery, name: Option<seq<char>>)
  {
    && p.kind == kind
    && (query.AnySubtype? || p.subtype == query.subtype)
    && (name.None? || p.name == name.value)
  }

  /** Index of the first row at or after `from` that matches. */
  function FindFrom(table: seq<Partition>, kind: PartitionType, query: SubtypeQuery,
                    name: Option<seq<char>>, from: nat): (r: Option<nat>)
    requires from <= |table|
    decreases |table| - from
    ensures r.Some? ==> from <= r.value < |table| && Matches(table[r.value], kind, query, name)
    ensures r.Some? ==> forall j :: from <= j < r.value ==> !Matches(table[j], kind, query, name)
    ensures r.None? ==> forall j :: from <= j < |table| ==> !Matches(table[j], kind, query, name)
  {
    if from == |table| then None
    else if Matches(table[from], kind, query, name) then Some(from)
    else FindFrom(table, kind, query, name, from + 1)
  }

  /** `esp_partition_find_first`: the first matching row of the table, or null. */
  function FindFirst(table: seq<Partition>, kind: PartitionType, query: SubtypeQuery,
                     name: Option<seq<char>>): (r: Option<Partition>)
    ensures r.Some? ==> r.value in table && Matches(r.value, kind, query, name)
    ensures r.Some? ==> exists i :: 0 <= i < |table| && table[i] == r.value
                                    && forall j :: 0 <= j < i ==> !Matches(table[j], kind, query, name)
    ensures r.None? ==> forall p :: p in table ==> !Matches(p, kind, query, name)
  {
    match FindFrom(table, kind, query, name, 0)
    case None => None
    case Some(i) => Some(table[i])
  }

  /** The part of the chip an update can change: each partition's bytes and the boot pointer. */
  datatype Device = Device(flash: map<Partition, seq<byte>>, boot: Option<Partition>)

  /** The byte a flash cell at `offset` holds after being programmed with `b`:
      a cell named in `stuck` keeps the value given there instead. */
  function Landed(stuck: nat -> Option<byte>, offset: nat, b: byte): byte
  {
    match stuck(offset)
    case Some(v) => v
    case None => b
  }

  /** `esp_partition_write` on a partition whose bytes are `region`. An access past the end
      is refused with ESP_ERR_INVALID_SIZE; otherwise `err` is what the driver reports. */
  function PartitionWrite(region: seq<byte>, offset: nat, data: seq<byte>, err: EspErr,
                          stuck: nat -> Option<byte>): (r: Result<seq<byte>, EspErr>)
    ensures r.Success? <==> offset + |data| <= |region| && err == EspOk
    ensures r.Failure? ==> r.error != EspOk
    ensures r.Success? ==> |r.value| == |region|
    ensures r.Success? ==> forall i :: 0 <= i < |region| ==>
              r.value[i] == (if offset <= i < offset + |data| then Landed(stuck, i, data[i - offset]) else region[i])
  {
    if offset + |data| > |region| then Failure(ErrInvalidSize)
    else if err != EspOk then Failure(err)
    else
      var programmed := seq(|data|, k requires 0 <= k < |data| => Landed(stuck, offset + k, data[k]));
      Success(region[..offset] + programmed + region[offset + |data|..])
  }

  /** `esp_partition_read`: `len` bytes at `offset`, with the same range check as a write. */
  function PartitionRead(region: seq<byte>, offset: nat, len: nat, err: EspErr): (r: Result<seq<byte>, EspErr>)
    ensures r.Success? <==> offset + len <= |region| && err == EspOk
    ensures r.Failure? ==> r.error != EspOk
    ensures r.Success? ==> offset + len <= |region| && r.value == region[offset..offset + len]
  {
    if offset + len > |region| then Failure(ErrInvalidSize)
    else if err != EspOk then Failure(err)
    else Success(region[offset..offset + len])
  }

  /** The outcome of `esp_ota_set_boot_partition`: the device afterwards and the code returned. */
  datatype BootSwitch = BootSwitch(device: Device, err: EspErr)

  /** `esp_ota_set_boot_partition`: a null partition is refused with ESP_ERR_INVALID_ARG;
      otherwise `err` is what ESP-IDF reports, and only ESP_OK moves the boot pointer. */
  function SetBootPartition(dev: Device, p: Option<Partition>, err: EspErr): (r: BootSwitch)
    ensures r.err == EspOk <==> p.Some? && err == EspOk
    ensures r.err == EspOk ==> r.device == dev.(boot := p)
    ensures r.err != EspOk ==> r.device == dev
  {
    if p.None? then BootSwitch(dev, ErrInvalidArg)
    else if err != EspOk then BootSwitch(dev, err)
    else BootSwitch(dev.(boot := p), EspOk)
  }
}
