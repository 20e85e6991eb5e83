/** The fields of `IDFOTABackend`, the response codes it returns, and the small setters
    its header defines inline. */
module BackendState {
  import opened Base
  import opened EspIdf

  /** The OTA_RESPONSE_* codes this backend can return. */
  datatype ResponseCode =
    | ResponseOk
    | ErrorMagic
    | ErrorWritingFlash
    | ErrorUpdateEnd
    | ErrorEsp32NotEnoughSpace
    | ErrorNoUpdatePartition
    | ErrorMd5Mismatch
    | ErrorUnknown

  /** `target_partition_label_` is a 17-byte array: at most 16 characters and a NUL. */
  const MaxLabelLength: nat := 16

  /** `set_update_md5` copies this many hex characters of the expected digest. */
  const Md5HexLength: nat := 32

  /** One backend object. `buffer` is `psram_buffer_` (None for nullptr); `md5Input` is
      every byte fed to `md5_` since its last `init()`, which is all the digest depends on;
      `targetLabel` is the label array read as a C string. */
  datatype Backend = Backend(
    updateHandle: nat,
    partition: Option<Partition>,
    md5Input: seq<byte>,
    expectedMd5: seq<char>,
    md5Set: bool,
    usePsram: bool,
    buffer: Option<seq<byte>>,
    bufferSize: nat,
    bytesReceived: nat,
    targetLabel: seq<char>)

  /** What every operation keeps true: the counter never passes the buffer size, a
      buffer is exactly `buffer_size_` bytes, and the label fits its array. */
  predicate Valid(b: Backend)
  {
    && b.bytesReceived <= b.bufferSize
    && (b.buffer.Some? ==> |b.buffer.value| == b.bufferSize)
    && (b.buffer.None? ==> b.bufferSize == 0)
    && |b.targetLabel| <= MaxLabelLength
    && '\0' !in b.targetLabel
    && (b.md5Set ==> |b.expectedMd5| == Md5HexLength)
  }

  /** Nothing is held: no buffer, no open OTA handle, both counters zero. */
  predicate Released(b: Backend)
  {
    b.buffer.None? && b.updateHandle == 0 && b.bufferSize == 0 && b.bytesReceived == 0
  }

  /** The image the buffered `end` flashes: all `buffer_size_` bytes of the buffer,
      whether or not they were received. */
  function Image(b: Backend): (image: seq<byte>)
    requires Valid(b)
    ensures |image| == b.bufferSize
  {
    if b.buffer.Some? then b.buffer.value else []
  }

  /** A newly constructed backend: direct mode, nothing held, no expected digest, no label. */
  function Fresh(): (b: Backend)
    ensures Valid(b) && Released(b)
    ensures b.partition.None? && !b.md5Set && !b.usePsram && b.targetLabel == []
  {
    Backend(0, None, [], [], false, false, None, 0, 0, [])
  }

  /** `supports_compression`: this backend never takes compressed images. */
  function SupportsCompression(): (r: bool)
    ensures !r
  {
    false
  }

  /** `set_psram_mode`: selects the buffered variant and changes nothing else. */
  function SetPsramMode(b: Backend, enable: bool): (r: Backend)
    ensures r.usePsram == enable
    ensures r.(usePsram := b.usePsram) == b
  {
    b.(usePsram := enable)
  }

  /** `make_ota_backend`: a fresh backend, switched to the buffered variant when the build
      enables PSRAM mode. */
  function MakeBackend(psramBuild: bool): (b: Backend)
    ensures Valid(b) && Released(b)
    ensures b.usePsram == psramBuild
    ensures b.(usePsram := false) == Fresh()
  {
    if psramBuild then SetPsramMode(Fresh(), true) else Fresh()
  }

  /** `set_target_partition`: a null or empty label is ignored; otherwise the first 16
      characters of the C string are kept and the array stays NUL-terminated. */
  function SetTargetPartition(b: Backend, name: Option<seq<char>>): (r: Backend)
    ensures name.None? || CString(name.value) == [] ==> r == b
    ensures name.Some? && CString(name.value) != [] ==>
              && r.(targetLabel := b.targetLabel) == b
              && r.targetLabel <= CString(name.value)
              && |r.targetLabel| == Min(|CString(name.value)|, MaxLabelLength)
    ensures Valid(b) ==> Valid(r)
  {
    if name.None? then b
    else
      var s := CString(name.value);
      if |s| == 0 then b
      else b.(targetLabel := s[..Min(|s|, MaxLabelLength)])
  }

  /** `set_update_md5`: copies 32 characters of the expected digest and arms the check. */
  function SetUpdateMd5(b: Backend, expected: seq<char>): (r: Backend)
    requires |expected| >= Md5HexLength
    ensures r.md5Set && r.expectedMd5 == expected[..Md5HexLength]
    ensures r.(md5Set := b.md5Set, expectedMd5 := b.expectedMd5) == b
    ensures Valid(b) ==> Valid(r)
  {
    b.(expectedMd5 := expected[..Md5HexLength], md5Set := true)
  }

  /** The check at the top of `end`: passes when no digest was set, or when the digest of
      every byte fed since the last `init()` equals the expected one. */
  predicate Md5Accepted(b: Backend, md5Hex: seq<byte> -> seq<char>)
  {
    !b.md5Set || md5Hex(b.md5Input) == b.expectedMd5
  }
}
