/** `IDFOTABackend::begin`, `write`, `end` and `abort` as pure transitions of the backend
    record. Each takes the results of the ESP-IDF calls it makes as parameters; `end`
    also takes the device (partition contents and boot pointer) and returns the new one. */
module IdfBackend {
  import opened Base
  import opened EspIdf
  import opened Chunking
  import opened BackendState

  /** The backend after an operation, and the response code it returned. */
  datatype Step = Step(backend: Backend, code: ResponseCode)

  /** The backend and device after `end`, and the response code it returned. */
  datatype EndStep = EndStep(backend: Backend, device: Device, code: ResponseCode)

  /** The results of the heap calls in a buffered `begin`: the free PSRAM reported, and
      the block `heap_caps_malloc` handed out (its bytes are whatever was there). */
  datatype HeapCalls = HeapCalls(freePsram: nat, block: Option<seq<byte>>)

  /** The results of the ESP-IDF calls in a direct `begin`. */
  datatype OtaBeginCalls = OtaBeginCalls(nextUpdate: Option<Partition>, beginErr: EspErr, handle: nat)

  /** The results of the ESP-IDF calls `end` may make. `writeErr` and `readErr` give the
      driver's answer for the chunk at each offset; `stuck` names the cells of the target
      partition that do not take the value written. */
  datatype EndCalls = EndCalls(
    eraseErr: EspErr,
    writeErr: nat -> EspErr,
    stuck: nat -> Option<byte>,
    readErr: nat -> EspErr,
    otaEndErr: EspErr,
    setBootErr: EspErr)

  // ---------------------------------------------------------------- abort

  /** `abort`: frees the buffer, closes any OTA session and zeroes the counters. The
      partition, the expected digest and `md5_set_` survive. */
  function Abort(b: Backend): (r: Backend)
    ensures Released(r)
    ensures r.partition == b.partition && r.md5Input == b.md5Input
    ensures r.md5Set == b.md5Set && r.expectedMd5 == b.expectedMd5
    ensures r.usePsram == b.usePsram && r.targetLabel == b.targetLabel
    ensures Valid(b) ==> Valid(r)
  {
    b.(buffer := None, updateHandle := 0, bufferSize := 0, bytesReceived := 0)
  }

  /** The ESP-IDF calls one `abort` makes: `heap_caps_free` when a buffer is held and
      `esp_ota_abort` on the handle when one is open. */
  datatype AbortCalls = AbortCalls(freesBuffer: bool, abortsHandle: Option<nat>)

  function AbortCallsOf(b: Backend): (c: AbortCalls)
    ensures c.freesBuffer <==> b.buffer.Some?
    ensures c.abortsHandle.Some? <==> b.updateHandle != 0
    ensures c.abortsHandle.Some? ==> c.abortsHandle.value == b.updateHandle
  {
    AbortCalls(b.buffer.Some?, if b.updateHandle != 0 then Some(b.updateHandle) else None)
  }

  /** A second `abort` ends in the same state as the first and releases nothing twice. */
  lemma AbortIdempotent(b: Backend)
    ensures Abort(Abort(b)) == Abort(b)
    ensures AbortCallsOf(Abort(b)) == AbortCalls(false, None)
  {
  }

  // ---------------------------------------------------------------- begin

  /** How `begin` maps an `esp_ota_begin` failure onto a response code. */
  function BeginErrorCode(err: EspErr): ResponseCode
  {
    if err == ErrInvalidSize then ErrorEsp32NotEnoughSpace
    else if err == ErrFlashOpTimeout || err == ErrFlashOpFail then ErrorWritingFlash
    else ErrorUnknown
  }

  /** `begin(image_size)`. Buffered: check free PSRAM and allocate exactly `image_size`
      bytes. Direct: open an OTA session on the next update partition. */
  function Begin(b: Backend, imageSize: nat, heap: HeapCalls, ota: OtaBeginCalls): (s: Step)
    requires heap.block.Some? ==> |heap.block.value| == imageSize
    ensures Valid(b) ==> Valid(s.backend)
    ensures b.usePsram && heap.freePsram == 0 ==> s == Step(b, ErrorNoUpdatePartition)
    ensures b.usePsram && 0 < heap.freePsram < imageSize ==> s == Step(b, ErrorEsp32NotEnoughSpace)
    ensures b.usePsram && 0 < heap.freePsram && imageSize <= heap.freePsram && heap.block.None? ==>
              s == Step(b, ErrorEsp32NotEnoughSpace)
    ensures b.usePsram ==>
              (s.code == ResponseOk <==> 0 < heap.freePsram && imageSize <= heap.freePsram && heap.block.Some?)
    ensures b.usePsram && s.code != ResponseOk ==> s.backend == b
    ensures b.usePsram && s.code == ResponseOk ==>
              && s.backend.buffer == heap.block
              && s.backend.bufferSize == imageSize
              && s.backend.bytesReceived == 0
              && s.backend.md5Input == []
              && s.backend.(buffer := b.buffer, bufferSize := b.bufferSize,
                            bytesReceived := b.bytesReceived, md5Input := b.md5Input) == b
    ensures !b.usePsram ==> s.backend.partition == ota.nextUpdate
    ensures !b.usePsram ==>
              s.backend.(partition := b.partition, updateHandle := b.updateHandle, md5Input := b.md5Input) == b
    ensures !b.usePsram && ota.nextUpdate.None? ==> s == Step(b.(partition := None), ErrorNoUpdatePartition)
    ensures !b.usePsram ==> (s.code == ResponseOk <==> ota.nextUpdate.Some? && ota.beginErr == EspOk)
    ensures !b.usePsram && s.code == ResponseOk ==>
              s.backend.updateHandle == ota.handle && s.backend.md5Input == []
    ensures !b.usePsram && ota.nextUpdate.Some? && ota.beginErr != EspOk ==>
              && s.backend.updateHandle == 0
              && (ota.beginErr == ErrInvalidSize ==> s.code == ErrorEsp32NotEnoughSpace)
              && (ota.beginErr in {ErrFlashOpTimeout, ErrFlashOpFail} ==> s.code == ErrorWritingFlash)
              && (ota.beginErr !in {ErrInvalidSize, ErrFlashOpTimeout, ErrFlashOpFail} ==> s.code == ErrorUnknown)
  {
    if b.usePsram then
      if heap.freePsram == 0 then Step(b, ErrorNoUpdatePartition)
      else if heap.freePsram < imageSize then Step(b, ErrorEsp32NotEnoughSpace)
      else if heap.block.None? then Step(b, ErrorEsp32NotEnoughSpace)
      else Step(b.(buffer := heap.block, bufferSize := imageSize, bytesReceived := 0, md5Input := []), ResponseOk)
    else
      var b1 := b.(partition := ota.nextUpdate);
      if ota.nextUpdate.None? then Step(b1, ErrorNoUpdatePartition)
      else if ota.beginErr != EspOk then Step(b1.(updateHandle := 0), BeginErrorCode(ota.beginErr))
      else Step(b1.(updateHandle := ota.handle, md5Input := []), ResponseOk)
  }

  // ---------------------------------------------------------------- write

  /** `data` copied over `m` at offset `at`. */
  function Splice(m: seq<byte>, at: nat, data: seq<byte>): (r: seq<byte>)
    requires at + |data| <= |m|
    ensures |r| == |m|
    ensures r[at..at + |data|] == data
    ensures forall i :: 0 <= i < |m| && !(at <= i < at + |data|) ==> r[i] == m[i]
  {
    m[..at] + data + m[at + |data|..]
  }

  /** `write(data, len)`. Buffered: append to the buffer unless that would pass its end.
      Direct: hand the bytes to `esp_ota_write`, whose result is `writeErr`; the digest is
      fed before that result is looked at. */
  function Write(b: Backend, data: seq<byte>, writeErr: EspErr): (s: Step)
    requires Valid(b)
    ensures Valid(s.backend)
    ensures b.usePsram ==> (s.code == ResponseOk <==> b.bytesReceived + |data| <= b.bufferSize)
    ensures b.usePsram && s.code != ResponseOk ==> s == Step(b, ErrorUnknown)
    ensures b.usePsram && s.code == ResponseOk ==>
              && s.backend.bufferSize == b.bufferSize
              && s.backend.bytesReceived == b.bytesReceived + |data|
              && s.backend.md5Input == b.md5Input + data
              && Image(s.backend)[b.bytesReceived..s.backend.bytesReceived] == data
              && (forall i :: 0 <= i < b.bufferSize && !(b.bytesReceived <= i < s.backend.bytesReceived) ==>
                    Image(s.backend)[i] == Image(b)[i])
              && s.backend.buffer.Some? == b.buffer.Some?
              && s.backend.(buffer := b.buffer, bytesReceived := b.bytesReceived, md5Input := b.md5Input) == b
    ensures !b.usePsram ==> s.backend == b.(md5Input := b.md5Input + data)
    ensures !b.usePsram ==>
              && (writeErr == EspOk ==> s.code == ResponseOk)
              && (writeErr == ErrOtaValidateFailed ==> s.code == ErrorMagic)
              && (writeErr in {ErrFlashOpTimeout, ErrFlashOpFail} ==> s.code == ErrorWritingFlash)
              && (writeErr !in {EspOk, ErrOtaValidateFailed, ErrFlashOpTimeout, ErrFlashOpFail} ==>
                    s.code == ErrorUnknown)
  {
    if b.usePsram then
      if b.bytesReceived + |data| > b.bufferSize then Step(b, ErrorUnknown)
      else
        var buffer := if b.buffer.Some? then Some(Splice(b.buffer.value, b.bytesReceived, data)) else None;
        Step(b.(buffer := buffer, bytesReceived := b.bytesReceived + |data|, md5Input := b.md5Input + data),
             ResponseOk)
    else
      var b1 := b.(md5Input := b.md5Input + data);
      if writeErr == EspOk then Step(b1, ResponseOk)
      else if writeErr == ErrOtaValidateFailed then Step(b1, ErrorMagic)
      else if writeErr == ErrFlashOpTimeout || writeErr == ErrFlashOpFail then Step(b1, ErrorWritingFlash)
      else Step(b1, ErrorUnknown)
  }

  /** After a successful buffered `begin`, the digest has seen exactly the bytes received
      so far, and they sit at the front of the buffer. */
  predicate Staged(b: Backend)
    requires Valid(b)
  {
    b.buffer.Some? && b.md5Input == Image(b)[..b.bytesReceived]
  }

  /** A buffered `write` keeps the digest input equal to the received prefix of the
      buffer, whether it succeeds or hits the overflow check. */
  lemma WriteKeepsStaged(b: Backend, data: seq<byte>, writeErr: EspErr)
    requires Valid(b) && b.usePsram && Staged(b)
    ensures Staged(Write(b, data, writeErr).backend)
  {
    var s := Write(b, data, writeErr);
    if s.code == ResponseOk {
      var n := b.bytesReceived;
      assert Image(s.backend)[..n] == Image(b)[..n];
      assert Image(s.backend)[..n + |data|] == Image(s.backend)[..n] + Image(s.backend)[n..n + |data|];
    }
  }

  /** A successful buffered `begin` starts a staged transfer with nothing received. */
  lemma BeginStages(b: Backend, imageSize: nat, heap: HeapCalls, ota: OtaBeginCalls)
    requires heap.block.Some? ==> |heap.block.value| == imageSize
    requires Valid(b) && b.usePsram
    requires Begin(b, imageSize, heap, ota).code == ResponseOk
    ensures Staged(Begin(b, imageSize, heap, ota).backend)
  {
  }

  /** Concatenation of the chunks of a transfer, in arrival order. */
  function Flatten(chunks: seq<seq<byte>>): seq<byte>
  {
    if |chunks| == 0 then [] else chunks[0] + Flatten(chunks[1..])
  }

  /** A run of writes, stopping at the first that does not return OK; `writeErr(k)` is the
      `esp_ota_write` result for the k-th chunk. */
  function WriteAll(b: Backend, chunks: seq<seq<byte>>, writeErr: nat -> EspErr): (s: Step)
    requires Valid(b)
    ensures Valid(s.backend)
    decreases |chunks|
  {
    if |chunks| == 0 then Step(b, ResponseOk)
    else
      var s := Write(b, chunks[0], writeErr(0));
      if s.code != ResponseOk then s
      else WriteAll(s.backend, chunks[1..], (k: nat) => writeErr(k + 1))
  }

  /** Buffered writes that fit all succeed and lay the chunks end to end after what was
      already received, and the digest sees the same bytes in the same order. */
  lemma WriteAllBuffered(b: Backend, chunks: seq<seq<byte>>, writeErr: nat -> EspErr)
    requires Valid(b) && b.usePsram
    requires b.bytesReceived + |Flatten(chunks)| <= b.bufferSize
    ensures var s := WriteAll(b, chunks, writeErr);
      && s.code == ResponseOk
      && s.backend.bytesReceived == b.bytesReceived + |Flatten(chunks)|
      && s.backend.md5Input == b.md5Input + Flatten(chunks)
      && Image(s.backend)[b.bytesReceived..s.backend.bytesReceived] == Flatten(chunks)
      && Image(s.backend)[..b.bytesReceived] == Image(b)[..b.bytesReceived]
      && s.backend.buffer.Some? == b.buffer.Some?
      && s.backend.(buffer := b.buffer, bytesReceived := b.bytesReceived, md5Input := b.md5Input) == b
  {
    WriteAllCounts(b, chunks, writeErr);
    WriteAllDigest(b, chunks, writeErr);
    WriteAllImage(b, chunks, writeErr);
  }

  /** The bookkeeping part of `WriteAllBuffered`: every write returns OK, the counter
      grows by the data, and no field but the buffer, the counter and the digest input
      changes. */
  lemma {:induction false} WriteAllCounts(b: Backend, chunks: seq<seq<byte>>, writeErr: nat -> EspErr)
    requires Valid(b) && b.usePsram
    requires b.bytesReceived + |Flatten(chunks)| <= b.bufferSize
    ensures var s := WriteAll(b, chunks, writeErr);
      && s.code == ResponseOk
      && s.backend.bytesReceived == b.bytesReceived + |Flatten(chunks)|
      && s.backend.buffer.Some? == b.buffer.Some?
      && s.backend.(buffer := b.buffer, bytesReceived := b.bytesReceived, md5Input := b.md5Input) == b
    decreases |chunks|
  {
    if |chunks| > 0 {
      var s1 := Write(b, chunks[0], writeErr(0));
      assert |Flatten(chunks)| == |chunks[0]| + |Flatten(chunks[1..])|;
      WriteAllCounts(s1.backend, chunks[1..], (k: nat) => writeErr(k + 1));
    }
  }

  /** The digest part of `WriteAllBuffered`: the digest is fed the chunks in order. */
  lemma {:induction false} WriteAllDigest(b: Backend, chunks: seq<seq<byte>>, writeErr: nat -> EspErr)
    requires Valid(b) && b.usePsram
    requires b.bytesReceived + |Flatten(chunks)| <= b.bufferSize
    ensures WriteAll(b, chunks, writeErr).backend.md5Input == b.md5Input + Flatten(chunks)
    decreases |chunks|
  {
    if |chunks| > 0 {
      var s1 := Write(b, chunks[0], writeErr(0));
      assert Flatten(chunks) == chunks[0] + Flatten(chunks[1..]);
      WriteAllDigest(s1.backend, chunks[1..], (k: nat) => writeErr(k + 1));
      assert b.md5Input + Flatten(chunks) == (b.md5Input + chunks[0]) + Flatten(chunks[1..]);
    }
  }

  /** The contents part of `WriteAllBuffered`: the data sits right after what was already
      received, which is kept. */
  lemma {:induction false} WriteAllImage(b: Backend, chunks: seq<seq<byte>>, writeErr: nat -> EspErr)
    requires Valid(b) && b.usePsram
    requires b.bytesReceived + |Flatten(chunks)| <= b.bufferSize
    ensures var s := WriteAll(b, chunks, writeErr);
      && s.backend.bytesReceived == b.bytesReceived + |Flatten(chunks)|
      && Image(s.backend)[b.bytesReceived..s.backend.bytesReceived] == Flatten(chunks)
      && Image(s.backend)[..b.bytesReceived] == Image(b)[..b.bytesReceived]
    decreases |chunks|
  {
    WriteAllCounts(b, chunks, writeErr);
    if |chunks| > 0 {
      var s1 := Write(b, chunks[0], writeErr(0));
      assert Flatten(chunks) == chunks[0] + Flatten(chunks[1..]);
      var b1 := s1.backend;
      WriteAllImage(b1, chunks[1..], (k: nat) => writeErr(k + 1));
      var s := WriteAll(b1, chunks[1..], (k: nat) => writeErr(k + 1));
      SpliceTwice(Image(b), Image(b1), Image(s.backend), b.bytesReceived, b1.bytesReceived,
                  s.backend.bytesReceived, chunks[0], Flatten(chunks[1..]));
    }
  }

  /** Two splices in a row, the second right after the first: together they lay both
      pieces end to end and keep what came before the first. */
  lemma SpliceTwice(m0: seq<byte>, m1: seq<byte>, m2: seq<byte>, n: nat, m: nat, e: nat,
                    first: seq<byte>, second: seq<byte>)
    requires |m0| == |m1| == |m2| && n <= m <= e <= |m0|
    requires m1[n..m] == first && forall i :: 0 <= i < n ==> m1[i] == m0[i]
    requires m2[..m] == m1[..m] && m2[m..e] == second
    ensures m2[n..e] == first + second
    ensures m2[..n] == m0[..n]
  {
    assert m2[n..m] == m1[n..m] by {
      forall i | n <= i < m ensures m2[i] == m1[i] { assert m2[..m][i] == m1[..m][i]; }
    }
    assert m2[n..e] == m2[n..m] + m2[m..e];
    forall i | 0 <= i < n ensures m2[i] == m0[i] { assert m2[..m][i] == m1[..m][i]; }
  }

  // ---------------------------------------------------------------- end

  /** The partition the buffered `end` flashes: the app partition named by the target
      name when one is set, otherwise the first app partition of subtype ota_0. */
  function ResolveTarget(name: seq<char>, table: seq<Partition>): (r: Option<Partition>)
    ensures r.Some? ==> r.value in table && r.value.kind == App
    ensures r.Some? && name != [] ==> r.value.name == name
    ensures r.Some? && name == [] ==> r.value.subtype == OtaSlot(0)
    ensures r.None? && name != [] ==> forall p :: p in table && p.kind == App ==> p.name != name
    ensures r.None? && name == [] ==> forall p :: p in table && p.kind == App ==> p.subtype != OtaSlot(0)
  {
    if name != [] then FindFirst(table, App, AnySubtype, Some(name))
    else FindFirst(table, App, OnlySubtype(OtaSlot(0)), None)
  }

  /** How the direct `end` maps an ESP-IDF failure onto a response code. */
  function EndErrorCode(err: EspErr): ResponseCode
  {
    if err == ErrOtaValidateFailed then ErrorUpdateEnd
    else if err == ErrFlashOpTimeout || err == ErrFlashOpFail then ErrorWritingFlash
    else ErrorUnknown
  }

  /** The buffered half of `end`, after the digest check: resolve, erase, write, verify,
      and only then move the boot pointer. Every exit releases the buffer. */
  function EndBuffered(b: Backend, dev: Device, table: seq<Partition>, calls: EndCalls): (e: EndStep)
    requires Valid(b)
    ensures Valid(e.backend) && Released(e.backend)
    ensures e.backend.partition == ResolveTarget(b.targetLabel, table)
  {
    var target := ResolveTarget(b.targetLabel, table);
    var b1 := b.(partition := target);
    if target.None? then EndStep(Abort(b1), dev, ErrorNoUpdatePartition)
    else
      var p := target.value;
      if calls.eraseErr != EspOk then EndStep(Abort(b1), dev, ErrorWritingFlash)
      else
        var image := Image(b);
        var w := WriteChunks(Fill(0xFF, p.size), image, 0, calls.writeErr, calls.stuck);
        var dev1 := dev.(flash := dev.flash[p := w.region]);
        if w.err != EspOk then EndStep(Abort(b1), dev1, ErrorWritingFlash)
        else if !VerifyChunks(w.region, image, 0, calls.readErr) then EndStep(Abort(b1), dev1, ErrorWritingFlash)
        else
          var sw := SetBootPartition(dev1, target, calls.setBootErr);
          if sw.err != EspOk then EndStep(Abort(b1), sw.device, ErrorUpdateEnd)
          else EndStep(Abort(b1), sw.device, ResponseOk)
  }

  /** The direct half of `end`: close the OTA session, then move the boot pointer to the
      partition opened in `begin`. */
  function EndDirect(b: Backend, dev: Device, calls: EndCalls): (e: EndStep)
    ensures e.backend == b.(updateHandle := 0)
    ensures e.device.flash == dev.flash
  {
    var b1 := b.(updateHandle := 0);
    if calls.otaEndErr != EspOk then EndStep(b1, dev, EndErrorCode(calls.otaEndErr))
    else
      var sw := SetBootPartition(dev, b.partition, calls.setBootErr);
      if sw.err == EspOk then EndStep(b1, sw.device, ResponseOk)
      else EndStep(b1, sw.device, EndErrorCode(sw.err))
  }

  /** `end`: check the digest when one was set, then finish the transfer in the mode
      selected. `md5Hex` is the digest, as hex, of a byte sequence. */
  function End(b: Backend, dev: Device, table: seq<Partition>, calls: EndCalls,
               md5Hex: seq<byte> -> seq<char>): (e: EndStep)
    requires Valid(b)
    ensures Valid(e.backend)
    ensures !Md5Accepted(b, md5Hex) ==>
              e.code == ErrorMd5Mismatch && e.device == dev && e.backend == Abort(b)
    ensures e.code != ResponseOk ==> e.device.boot == dev.boot
    ensures b.usePsram ==> Released(e.backend)
  {
    if !Md5Accepted(b, md5Hex) then EndStep(Abort(b), dev, ErrorMd5Mismatch)
    else if b.usePsram then EndBuffered(b, dev, table, calls)
    else EndDirect(b, dev, calls)
  }

  // ---------------------------------------------------------------- what end guarantees

  /** The partition calls of a buffered `end` all go through for `image` on `p`: the image
      fits, every chunk write and every read-back is accepted, and every cell takes the
      byte written to it. */
  predicate FlashesCleanly(image: seq<byte>, p: Partition, calls: EndCalls)
  {
    && |image| <= p.size
    && ChunkCallsSucceed(calls.writeErr, |image|, 0)
    && (forall i :: 0 <= i < |image| ==> Landed(calls.stuck, i, image[i]) == image[i])
    && ChunkCallsSucceed(calls.readErr, |image|, 0)
  }

  /** A buffered `end` returns OK exactly when the digest check passes, the target
      partition exists, the erase, every chunk write and every read-back succeed with the
      flash holding the image, and the boot partition can be set. */
  lemma EndBufferedSucceedsIff(b: Backend, dev: Device, table: seq<Partition>, calls: EndCalls,
                               md5Hex: seq<byte> -> seq<char>)
    requires Valid(b) && b.usePsram
    ensures var target := ResolveTarget(b.targetLabel, table);
      End(b, dev, table, calls, md5Hex).code == ResponseOk <==>
        && Md5Accepted(b, md5Hex)
        && target.Some?
        && calls.eraseErr == EspOk
        && FlashesCleanly(Image(b), target.value, calls)
        && calls.setBootErr == EspOk
  {
    var target := ResolveTarget(b.targetLabel, table);
    if Md5Accepted(b, md5Hex) && target.Some? && calls.eraseErr == EspOk {
      var p := target.value;
      var image := Image(b);
      var erased := Fill(0xFF, p.size);
      WriteChunksSucceedIff(erased, image, 0, calls.writeErr, calls.stuck);
      var w := WriteChunks(erased, image, 0, calls.writeErr, calls.stuck);
      if w.err == EspOk {
        WriteChunksContents(erased, image, 0, calls.writeErr, calls.stuck);
        VerifyChunksSpec(w.region, image, 0, calls.readErr);
      }
    }
  }

  /** After a buffered `end` returns OK, the target partition holds the whole buffer from
      offset 0, the rest of it is erased, no other partition changed, the boot pointer
      names the target, and the buffer has been released. */
  lemma EndBufferedCommitsImage(b: Backend, dev: Device, table: seq<Partition>, calls: EndCalls,
                                md5Hex: seq<byte> -> seq<char>)
    requires Valid(b) && b.usePsram
    requires End(b, dev, table, calls, md5Hex).code == ResponseOk
    ensures ResolveTarget(b.targetLabel, table).Some?
    ensures var e := End(b, dev, table, calls, md5Hex);
            var p := ResolveTarget(b.targetLabel, table).value;
      && e.device.boot == Some(p)
      && e.device.flash.Keys == dev.flash.Keys + {p}
      && |e.device.flash[p]| == p.size
      && b.bufferSize <= p.size
      && e.device.flash[p][..b.bufferSize] == Image(b)
      && (forall i :: b.bufferSize <= i < p.size ==> e.device.flash[p][i] == 0xFF)
      && (forall q :: q in dev.flash && q != p ==> e.device.flash[q] == dev.flash[q])
      && Released(e.backend)
  {
    EndBufferedSucceedsIff(b, dev, table, calls, md5Hex);
    var p := ResolveTarget(b.targetLabel, table).value;
    var image := Image(b);
    var erased := Fill(0xFF, p.size);
    WriteChunksContents(erased, image, 0, calls.writeErr, calls.stuck);
    var w := WriteChunks(erased, image, 0, calls.writeErr, calls.stuck);
    VerifyChunksSpec(w.region, image, 0, calls.readErr);
    assert w.region[..b.bufferSize] == image;
  }

  /** The direct `end` after the digest check: it closes the OTA session, reports OK exactly
      when both `esp_ota_end` and the boot switch succeed, and maps failures onto codes. */
  lemma EndDirectOutcome(b: Backend, dev: Device, table: seq<Partition>, calls: EndCalls,
                         md5Hex: seq<byte> -> seq<char>)
    requires Valid(b) && !b.usePsram && Md5Accepted(b, md5Hex)
    ensures var e := End(b, dev, table, calls, md5Hex);
      && e.backend == b.(updateHandle := 0)
      && e.device.flash == dev.flash
      && (e.code == ResponseOk <==> calls.otaEndErr == EspOk && b.partition.Some? && calls.setBootErr == EspOk)
      && (e.code == ResponseOk ==> e.device.boot == b.partition)
      && (calls.otaEndErr == ErrOtaValidateFailed ==> e.code == ErrorUpdateEnd)
      && (calls.otaEndErr in {ErrFlashOpTimeout, ErrFlashOpFail} ==> e.code == ErrorWritingFlash)
      && (calls.otaEndErr !in {EspOk, ErrOtaValidateFailed, ErrFlashOpTimeout, ErrFlashOpFail} ==>
            e.code == ErrorUnknown)
      && (calls.otaEndErr == EspOk && b.partition.None? ==> e.code == ErrorUnknown)
      && (calls.otaEndErr == EspOk && b.partition.Some? && calls.setBootErr == ErrOtaValidateFailed ==>
            e.code == ErrorUpdateEnd)
      && (calls.otaEndErr == EspOk && b.partition.Some? && calls.setBootErr in {ErrFlashOpTimeout, ErrFlashOpFail} ==>
            e.code == ErrorWritingFlash)
      && (calls.otaEndErr == EspOk && b.partition.Some? &&
          calls.setBootErr !in {EspOk, ErrOtaValidateFailed, ErrFlashOpTimeout, ErrFlashOpFail} ==>
            e.code == ErrorUnknown)
  {
  }

  /** Which code a failing buffered `end` returns, and that no failure before the erase
      touches the flash. */
  lemma EndBufferedFailureCodes(b: Backend, dev: Device, table: seq<Partition>, calls: EndCalls,
                                md5Hex: seq<byte> -> seq<char>)
    requires Valid(b) && b.usePsram && Md5Accepted(b, md5Hex)
    ensures var e := End(b, dev, table, calls, md5Hex);
            var target := ResolveTarget(b.targetLabel, table);
      && (target.None? ==> e.code == ErrorNoUpdatePartition && e.device == dev)
      && (target.Some? && calls.eraseErr != EspOk ==> e.code == ErrorWritingFlash && e.device == dev)
      && (target.Some? && calls.eraseErr == EspOk && !FlashesCleanly(Image(b), target.value, calls) ==>
            e.code == ErrorWritingFlash && e.device.boot == dev.boot)
      && ((target.Some? && calls.eraseErr == EspOk && FlashesCleanly(Image(b), target.value, calls)
           && calls.setBootErr != EspOk) ==> e.code == ErrorUpdateEnd && e.device.boot == dev.boot)
  {
    var target := ResolveTarget(b.targetLabel, table);
    if target.Some? && calls.eraseErr == EspOk {
      EndBufferedSucceedsIff(b, dev, table, calls, md5Hex);
      EndBufferedSucceedsIff(b, dev, table, calls.(setBootErr := EspOk), md5Hex);
    }
  }

  /** The buffered `end` flashes all `buffer_size_` bytes: how many of them were actually
      received plays no part in its outcome. */
  lemma EndIgnoresBytesReceived(b: Backend, k: nat, dev: Device, table: seq<Partition>,
                                calls: EndCalls, md5Hex: seq<byte> -> seq<char>)
    requires Valid(b) && b.usePsram && k <= b.bufferSize
    ensures Valid(b.(bytesReceived := k))
    ensures End(b.(bytesReceived := k), dev, table, calls, md5Hex) == End(b, dev, table, calls, md5Hex)
  {
  }

  /** A run of buffered writes that passes the size given to `begin` fails with the
      overflow code; the counter still never passes the buffer size. */
  lemma {:induction false} WriteAllOverflow(b: Backend, chunks: seq<seq<byte>>, writeErr: nat -> EspErr)
    requires Valid(b) && b.usePsram
    requires b.bytesReceived + |Flatten(chunks)| > b.bufferSize
    ensures WriteAll(b, chunks, writeErr).code == ErrorUnknown
    ensures WriteAll(b, chunks, writeErr).backend.bytesReceived <= b.bufferSize
    decreases |chunks|
  {
    assert |chunks| > 0;
    assert Flatten(chunks) == chunks[0] + Flatten(chunks[1..]);
    var s := Write(b, chunks[0], writeErr(0));
    if s.code == ResponseOk {
      WriteAllOverflow(s.backend, chunks[1..], (k: nat) => writeErr(k + 1));
    }
  }

  /** `begin`, `set_update_md5` and a run of writes that delivers exactly `image`: every
      step returns OK, and the backend holds the image with the digest fed the same bytes. */
  lemma StageImage(b: Backend, chunks: seq<seq<byte>>, heap: HeapCalls, ota: OtaBeginCalls,
                   writeErr: nat -> EspErr, expected: seq<char>)
    requires Valid(b) && b.usePsram
    requires 0 < heap.freePsram && |Flatten(chunks)| <= heap.freePsram
    requires heap.block.Some? && |heap.block.value| == |Flatten(chunks)|
    requires |expected| == Md5HexLength
    ensures var image := Flatten(chunks);
            var s0 := Begin(b, |image|, heap, ota);
            var s1 := WriteAll(SetUpdateMd5(s0.backend, expected), chunks, writeErr);
      && s0.code == ResponseOk
      && s1.code == ResponseOk
      && s1.backend.usePsram
      && Image(s1.backend) == image
      && s1.backend.md5Input == image
      && s1.backend.md5Set && s1.backend.expectedMd5 == expected
      && s1.backend.targetLabel == b.targetLabel
  {
    var image := Flatten(chunks);
    var s0 := Begin(b, |image|, heap, ota);
    var b1 := SetUpdateMd5(s0.backend, expected);
    assert expected[..Md5HexLength] == expected;
    WriteAllBuffered(b1, chunks, writeErr);
    var s1 := WriteAll(b1, chunks, writeErr);
    assert Image(s1.backend) == Image(s1.backend)[0..|image|];
  }

  /** A whole buffered update: `begin` with enough PSRAM, the expected digest of the image,
      the image in any chunking, then `end` on healthy flash. Every step returns OK, the
      target holds the image and the device will boot from it. */
  lemma BufferedUpdateCommits(b: Backend, chunks: seq<seq<byte>>, heap: HeapCalls, ota: OtaBeginCalls,
                              writeErr: nat -> EspErr, dev: Device, table: seq<Partition>,
                              calls: EndCalls, md5Hex: seq<byte> -> seq<char>)
    requires Valid(b) && b.usePsram
    requires 0 < heap.freePsram && |Flatten(chunks)| <= heap.freePsram
    requires heap.block.Some? && |heap.block.value| == |Flatten(chunks)|
    requires |md5Hex(Flatten(chunks))| == Md5HexLength
    requires ResolveTarget(b.targetLabel, table).Some?
    requires calls.eraseErr == EspOk && calls.setBootErr == EspOk
    requires FlashesCleanly(Flatten(chunks), ResolveTarget(b.targetLabel, table).value, calls)
    ensures var image := Flatten(chunks);
            var s0 := Begin(b, |image|, heap, ota);
            var s1 := WriteAll(SetUpdateMd5(s0.backend, md5Hex(image)), chunks, writeErr);
            var e := End(s1.backend, dev, table, calls, md5Hex);
            var p := ResolveTarget(b.targetLabel, table).value;
      && s0.code == ResponseOk
      && s1.code == ResponseOk
      && e.code == ResponseOk
      && e.device.boot == Some(p)
      && p in e.device.flash
      && |image| <= |e.device.flash[p]|
      && e.device.flash[p][..|image|] == image
  {
    var image := Flatten(chunks);
    StageImage(b, chunks, heap, ota, writeErr, md5Hex(image));
    var s0 := Begin(b, |image|, heap, ota);
    var s1 := WriteAll(SetUpdateMd5(s0.backend, md5Hex(image)), chunks, writeErr);
    EndBufferedSucceedsIff(s1.backend, dev, table, calls, md5Hex);
    EndBufferedCommitsImage(s1.backend, dev, table, calls, md5Hex);
  }

  /** The same update with a wrong expected digest: `end` reports the mismatch and leaves
      the flash and the boot pointer exactly as they were. */
  lemma BufferedUpdateWrongDigest(b: Backend, chunks: seq<seq<byte>>, heap: HeapCalls, ota: OtaBeginCalls,
                                  writeErr: nat -> EspErr, wrong: seq<char>, dev: Device,
                                  table: seq<Partition>, calls: EndCalls, md5Hex: seq<byte> -> seq<char>)
    requires Valid(b) && b.usePsram
    requires 0 < heap.freePsram && |Flatten(chunks)| <= heap.freePsram
    requires heap.block.Some? && |heap.block.value| == |Flatten(chunks)|
    requires |wrong| == Md5HexLength && wrong != md5Hex(Flatten(chunks))
    ensures var image := Flatten(chunks);
            var s0 := Begin(b, |image|, heap, ota);
            var s1 := WriteAll(SetUpdateMd5(s0.backend, wrong), chunks, writeErr);
            var e := End(s1.backend, dev, table, calls, md5Hex);
      && s1.code == ResponseOk
      && e.code == ErrorMd5Mismatch
      && e.device == dev
      && Released(e.backend)
  {
    StageImage(b, chunks, heap, ota, writeErr, wrong);
  }
}
