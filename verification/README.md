# ESPHome ESP-IDF OTA backend, in Dafny

This project models the ESP-IDF storage side of ESPHome's over-the-air update and proves
properties about that model.

- **`IDFOTABackend`** (`begin`, `write`, `end`, `abort`) has two variants.
  - The *buffered* variant collects the whole image in PSRAM. Its `end` checks the MD5 digest and resolves the target app partition. It then erases the partition, programs it in 4096-byte chunks, reads every chunk back, and only then switches the boot partition.
  - The *direct* variant streams into an ESP-IDF OTA handle and maps ESP-IDF error codes onto OTA response codes.
- **The header setters**: the fresh state, `set_target_partition`, `set_psram_mode` and `supports_compression`.
- **`automation.h`**: the guard chain of `SwitchPartitionAndRebootAction::play`, and the state filter of each OTA trigger.
- **`esphome/ota/__init__.py`** (build-time validation):
  - the generated dual-partition table for each flash size;
  - the check that a custom partitions CSV declares the helper partition as an app;
  - merging of `esphome` OTA entries that share a port;
  - the schema limits on version and partition names.

The backend is an immutable record (`BackendState.Backend`), and every operation is a pure function from the record to a new record and a response code.

Whatever ESP-IDF or the hardware decides is passed in as a parameter:
- the free PSRAM and the allocated block;
- the error code of each `esp_ota_*` / `esp_partition_*` call;
- flash cells that do not take the value written;
- the MD5 of a byte sequence, as an uninterpreted function.

The model also carries:
- the partition table, as a list of `{name, type, subtype, size}`;
- the device, as a map from partition to its bytes (`seq<bv8>`) plus a boot pointer.

The digest is a function of `md5Input`, the bytes fed to `md5_` since its last `init()`.

On the build side:
- the partitions file is a list of lines;
- `merge_config` is an opaque function.

| file | module | what it holds |
|---|---|---|
| base.dfy | `Base` | bytes, `Option`, `Result`, `Min`, `Fill`, C-string reading |
| esp_idf.dfy | `EspIdf` | error codes, partition lookup, partition write/read, boot switch |
| backend_state.dfy | `BackendState` | the backend record, its invariant, response codes, header setters |
| chunking.dfy | `Chunking` | the 4096-byte write and read-back loops of the buffered `end` |
| idf_backend.dfy | `IdfBackend` | `begin`, `write`, `end`, `abort` and the theorems about them |
| automation.dfy | `Automation` | partition switch action and trigger filtering |
| ota_config.dfy | `OtaConfig` | OTA entry, configuration errors, schema limits |
| text.dfy | `Text` | ASCII `strip`, `lower`, comma splitting |
| partition_layout.dfy | `PartitionLayout` | layouts per flash size, generated rows, placement of those rows |
| helper_partition.dfy | `HelperPartition` | the partitions-file scan and `_validate_ota_helper_partition` |
| ota_merge.dfy | `OtaMerge` | merge by port and `ota_esphome_final_validate` |

## Model

| member | source | states |
|---|---|---|
| BackendState.Fresh | esphome/components/ota/ota_backend_esp_idf.h:31-42 | A new backend holds no buffer or handle, both counters are zero, there is no partition, no expected digest and no label, and the direct variant is selected. |
| BackendState.MakeBackend | esphome/components/ota/ota_backend_esp_idf.cpp:19-25 | The factory yields the fresh backend, switched to the buffered variant exactly when the build enables PSRAM mode. |
| BackendState.SupportsCompression | esphome/components/ota/ota_backend_esp_idf.h:20 | The backend never accepts compressed images. |
| BackendState.SetPsramMode | esphome/components/ota/ota_backend_esp_idf.h:22 | Selects the variant and leaves every other field as it was. |
| BackendState.SetTargetPartition | esphome/components/ota/ota_backend_esp_idf.h:23-28 | A null label, or one that is empty as a C string, changes nothing. Otherwise only the label changes: it becomes the first min(length, 16) characters of the C string. The record invariant (label at most 16, no NUL) is kept. |
| BackendState.SetUpdateMd5 | esphome/components/ota/ota_backend_esp_idf.cpp:97-100 | Stores exactly the first 32 characters of the expected digest, arms the check, and changes nothing else. |
| IdfBackend.Begin | esphome/components/ota/ota_backend_esp_idf.cpp:27-95 | Buffered variant: no free PSRAM gives NO_UPDATE_PARTITION, and too little gives NOT_ENOUGH_SPACE; on either, nothing changes. Enough free PSRAM but a failed allocation also gives NOT_ENOUGH_SPACE, and the model leaves the backend unchanged. That matches the program for a backend that holds no buffer; see Left out for one that already holds a buffer. OK exactly when enough PSRAM is free and the block is allocated; then the buffer is image-size bytes, the counter is 0 and the digest is reset. Direct variant: only the partition, handle and digest change, and the partition becomes the next update slot. With no slot the code is NO_UPDATE_PARTITION and nothing else changes. OK means a slot exists and `esp_ota_begin` succeeded. A failed `esp_ota_begin` zeroes the handle, and its code maps INVALID_SIZE to NOT_ENOUGH_SPACE, flash timeout or failure to WRITING_FLASH, anything else to UNKNOWN. |
| IdfBackend.Write | esphome/components/ota/ota_backend_esp_idf.cpp:102-127 | Buffered variant: OK exactly when the data fits after the bytes already received. Overflow returns UNKNOWN with the backend unchanged. Otherwise the data lands at the old counter, nothing else in the buffer moves, the counter grows by the length, and the digest is fed the data. Direct variant: the digest is fed whatever the write reports, and the code maps VALIDATE_FAILED to MAGIC, flash timeout or failure to WRITING_FLASH, other errors to UNKNOWN. The counter never passes the buffer size. |
| IdfBackend.WriteKeepsStaged | esphome/components/ota/ota_backend_esp_idf.cpp:105-112 | A buffered write keeps the digest input equal to the received prefix of the buffer, on success and on overflow alike. |
| IdfBackend.WriteAllBuffered | esphome/components/ota/ota_backend_esp_idf.cpp:105-112 | A run of buffered writes that fits in the buffer all return OK. The chunks are laid end to end after what was already received, the earlier bytes are kept, and the digest sees the same bytes in the same order. |
| IdfBackend.WriteAllOverflow | esphome/components/ota/ota_backend_esp_idf.cpp:105-107 | A run of buffered writes that passes the size given to `begin` ends with UNKNOWN, and the counter still does not pass the buffer size. |
| IdfBackend.Abort | esphome/components/ota/ota_backend_esp_idf.cpp:228-239 | The buffer is freed, the handle and both counters are zero, and the partition, expected digest, `md5_set_`, variant and label survive. |
| IdfBackend.AbortIdempotent | esphome/components/ota/ota_backend_esp_idf.cpp:228-239 | Aborting twice ends in the same state as once, and the second abort frees no buffer and aborts no handle. |
| IdfBackend.ResolveTarget | esphome/components/ota/ota_backend_esp_idf.cpp:143-161 | A non-empty label selects an app partition of that name; with no label, an app partition of subtype ota_0. None means no app partition of the table qualifies. |
| IdfBackend.End | esphome/components/ota/ota_backend_esp_idf.cpp:129-226 | A set digest that does not match the bytes fed gives MD5_MISMATCH. The device is untouched by `end` and the backend is exactly the aborted one, so `end` did no lookup, erase or boot switch. Bytes that direct writes already put in flash are not represented (see Left out). No failing `end` moves the boot pointer. The buffered variant always ends with everything released. |
| IdfBackend.EndBufferedSucceedsIff | esphome/components/ota/ota_backend_esp_idf.cpp:139-207 | A buffered `end` returns OK exactly when all of these hold: the digest check passes, the target exists, the erase succeeds, the image fits, every chunk write and every read-back succeeds with every cell holding the byte written, and the boot switch succeeds. |
| IdfBackend.EndBufferedCommitsImage | esphome/components/ota/ota_backend_esp_idf.cpp:163-207 | After an OK buffered `end` the target partition holds the buffer at offset 0 and 0xFF after it. No other partition changed, the device boots from the target, and the buffer is released. |
| IdfBackend.EndBufferedFailureCodes | esphome/components/ota/ota_backend_esp_idf.cpp:144-203 | A missing target gives NO_UPDATE_PARTITION and a failed erase gives WRITING_FLASH, both with the device untouched. A write or read-back failure gives WRITING_FLASH, and a refused boot switch gives UPDATE_END; in both cases the boot pointer is unchanged. |
| IdfBackend.EndIgnoresBytesReceived | esphome/components/ota/ota_backend_esp_idf.cpp:172-175 | The buffered `end` flashes all `buffer_size_` bytes: how many were actually received does not affect its outcome. |
| IdfBackend.EndDirectOutcome | esphome/components/ota/ota_backend_esp_idf.cpp:210-226 | The direct `end` zeroes the handle, and `end` itself writes no flash. It returns OK exactly when `esp_ota_end` succeeds, a partition was opened and the boot switch succeeds, and then the device boots from that partition. The same mapping applies to an `esp_ota_end` error and, after it succeeds, to a boot-switch error: VALIDATE_FAILED gives UPDATE_END, flash timeout or failure gives WRITING_FLASH, and any other error gives UNKNOWN. A missing partition gives UNKNOWN. |
| IdfBackend.BufferedUpdateCommits | esphome/components/ota/ota_backend_esp_idf.cpp:27-207 | `begin`, the right expected digest, the image in any chunking, and `end` on healthy flash all return OK. The target then starts with the image and the device boots from it. |
| IdfBackend.BufferedUpdateWrongDigest | esphome/components/ota/ota_backend_esp_idf.cpp:129-137 | The same update with a wrong expected digest ends in MD5_MISMATCH with the device exactly as before and everything released. |
| Chunking.ChunkLen | esphome/components/ota/ota_backend_esp_idf.cpp:174 | A chunk is never empty, never longer than 4096, and never runs past the image; it is shorter than 4096 only when it ends at the image end. |
| Chunking.ChunksShape | esphome/components/ota/ota_backend_esp_idf.cpp:172-174 | The k-th chunk starts at k·4096 and has length min(4096, size − start). The last chunk ends at the image size, and there are no chunks exactly when the image is empty. |
| Chunking.ChunksTile | esphome/components/ota/ota_backend_esp_idf.cpp:173-175 | The chunks, taken in loop order, gather back exactly the image: they cover [0, size) once. |
| Chunking.WriteChunksSucceedIff | esphome/components/ota/ota_backend_esp_idf.cpp:173-182 | The write loop succeeds exactly when the image fits in the partition and every chunk write is accepted. |
| Chunking.WriteChunksContents | esphome/components/ota/ota_backend_esp_idf.cpp:173-182 | After a successful write loop every image byte has been programmed at its own offset, and the rest of the partition is untouched. |
| Chunking.VerifyChunksSpec | esphome/components/ota/ota_backend_esp_idf.cpp:185-195 | The read-back loop passes exactly when the image fits, every read succeeds, and the partition holds the image byte for byte. |
| Chunking.LoopsFollowChunks | esphome/components/ota/ota_backend_esp_idf.cpp:173-195 | The write loop and the read-back loop visit exactly the chunk list, in order, and each writes or compares the image bytes of its chunk; those bytes, in order, are the whole image. |
| EspIdf.FindFirst | esphome/components/ota/automation.h:96-97 | The partition lookup returns the first row of the table that matches the type, subtype filter and name, and None only when no row matches. |
| EspIdf.PartitionWrite | esphome/components/ota/ota_backend_esp_idf.cpp:175 | A partition write succeeds exactly when it stays in range and the driver accepts it. Only the addressed bytes change, each to the value the cell takes. |
| EspIdf.SetBootPartition | esphome/components/ota/ota_backend_esp_idf.cpp:198 | The boot pointer moves, to the partition given, exactly when a partition is given and ESP-IDF accepts the switch; otherwise the device is unchanged. |
| Automation.SwitchPartitionAndReboot | esphome/components/ota/automation.h:88-116 | The action restarts exactly when all hold: the build is ESP32, the label is non-empty, an app partition of any subtype carries it, and the boot switch succeeds. It restarts only after the boot pointer names that partition; without a restart the device is unchanged. |
| Automation.SwitchRestartsIntoLabelledApp | esphome/components/ota/automation.h:96-112 | When it restarts, the device boots an app partition from the table whose name is the requested label, and no flash changed. |
| Automation.Deliver | esphome/components/ota/automation.h:16-80 | A trigger fires exactly when its component is not failed and it is the state-change trigger or the state is its own. The state-change trigger passes the state, the error trigger the error byte, the progress trigger the progress, and the others nothing. |
| Automation.ExactlyOneSpecificTriggerFires | esphome/components/ota/automation.h:27-80 | For every callback of a healthy component exactly one state-specific trigger fires, the one for that state, together with the state-change trigger. For a failed component none fires. |
| Automation.WatchedInvertsTriggerFor | esphome/components/ota/automation.h:27-80 | The state-specific triggers and the OTA states are in one-to-one correspondence. |
| OtaConfig.CheckVersion | esphome/components/esphome/ota/__init__.py:252 | A version is accepted exactly when absent, which becomes 2, or 1 or 2, which is kept. Anything else is rejected with that value. |
| OtaConfig.CheckPartitionName | esphome/components/esphome/ota/__init__.py:254-255 | A partition name is accepted exactly when absent or at most 16 characters, and is kept as given. |
| OtaConfig.AcceptedTargetStoredWhole | esphome/components/esphome/ota/__init__.py:254 | A non-empty ASCII `target_partition` that the schema accepts is stored by `set_target_partition` without truncation. The schema counts characters and the copy counts bytes, so the promise covers names with one byte per character. |
| PartitionLayout.LayoutFor | esphome/components/esphome/ota/__init__.py:135-147 | A layout exists exactly for 4MB, 8MB, 16MB and 32MB, and any other size is rejected naming that size. NVS is the fitting size (see Findings), not the 0x6000 the program writes. |
| PartitionLayout.AppsFillFlash | esphome/components/esphome/ota/__init__.py:136-139 | For each supported size, 0x10000 plus the main size plus the 1 MiB helper is exactly the flash size. |
| PartitionLayout.GenerateDualPartitionTable | esphome/components/esphome/ota/__init__.py:131-160 | Rows are generated exactly for the supported sizes, and any other size fails naming it. The rows are nvs at 0x9000 with the fitting size, otadata 0x2000, phy_init 0x1000, main `ota_0` at 0x10000 filling the flash up to the last 1 MB, and the helper as a 1 MB `ota_1` app. |
| PartitionLayout.AsWrittenTableOverlaps | esphome/components/esphome/ota/__init__.py:136-158 | With the NVS size as written, the tool places otadata at 0xF000 and phy_init at 0x11000, both inside the main app at 0x10000, so the table does not fit for any supported size. |
| PartitionLayout.GeneratedTableFits | esphome/components/esphome/ota/__init__.py:152-160 | With the fitting NVS size, no two partitions overlap and all lie in flash. NVS starts at 0x9000, phy_init ends at 0x10000, and the helper ends at the last byte of flash. |
| Text.StripIsSlice | esphome/components/esphome/ota/__init__.py:99 | Strip removes only spaces, and only from the two ends. |
| Text.StripIdempotent | esphome/components/esphome/ota/__init__.py:92 | Stripping twice is stripping once. |
| Text.JoinSplit | esphome/components/esphome/ota/__init__.py:93-97 | Splitting a line at commas loses nothing: the fields joined again give the line. |
| Text.SplitJoin | esphome/components/esphome/ota/__init__.py:93-97 | Splitting the join of comma-free fields gives those fields back. |
| HelperPartition.Judge | esphome/components/esphome/ota/__init__.py:102-108 | The first row naming the helper passes exactly when its Type is `app` after strip and lower-casing. A row without a Type column is unparsable rather than missing. |
| HelperPartition.ScanPartitionsFileSpec | esphome/components/esphome/ota/__init__.py:86-119 | The helper passes exactly when the first listed row named after it has Type `app` after strip and lower-casing. It is reported missing exactly when no listed row names it. The file is reported unparsable for a missing Type exactly when that first row has no second column. |
| HelperPartition.HelperSetting | esphome/components/esphome/ota/__init__.py:57-62 | The helper setting is the value in the first `esphome` entry that has the key, even an empty value; None when no such entry exists. |
| HelperPartition.ValidateHelperPartition | esphome/components/esphome/ota/__init__.py:54-128 | No setting, or an empty one, is accepted with no effect, and nothing else is. A set helper on a non-ESP32 target is rejected. With a custom path: a missing file is rejected naming the path. If the helper's first row is an app, the custom table is accepted; a helper not listed is rejected naming path and helper; an unparsable file is rejected naming the path and the problem. Without one: the flash size defaults to 4MB, an unsupported size is rejected naming it, and a supported one yields the generated rows. |
| HelperPartition.AcceptedHelperIsApp | esphome/components/esphome/ota/__init__.py:77-128 | A helper that validation lets through is an app partition of the table the build uses. Either the custom file's first row for it has Type `app`, or the generated rows end with it as the `ota_1` app in a table that fits the flash. The fit holds for the corrected NVS size only (see Findings). |
| HelperPartition.CustomFileDecides | esphome/components/esphome/ota/__init__.py:77-119 | On ESP32 with a custom file path, validation passes exactly when the file exists and its first row naming the helper is an app. |
| OtaMerge.Conflict | esphome/components/esphome/ota/__init__.py:189-210 | Two entries on one port conflict exactly when any of these holds: the versions differ, both ids are manual, or both have passwords and those differ. The checks run in that order and the first that holds names the error: VERSION, then ID, then PASSWORD inconsistency. |
| OtaMerge.MergeByPortSpec | esphome/components/esphome/ota/__init__.py:182-219 | The merge succeeds exactly when every port's entries each agree with the merge of the earlier ones. The result is then the other platforms' entries in order, followed by one left-to-right merge per port in first-seen port order. |
| OtaMerge.MergedPortsDistinct | esphome/components/esphome/ota/__init__.py:182-219 | If `merge_config` keeps the shared port, the merged entries sit on pairwise different ports, one per port used. |
| OtaMerge.DistinctPortsUnmerged | esphome/components/esphome/ota/__init__.py:182-219 | When no two `esphome` entries share a port, nothing is merged: the other entries come first, then the `esphome` entries in their original order. |
| OtaMerge.FinalValidate | esphome/components/esphome/ota/__init__.py:176-234 | A merge conflict is reported before any helper problem. After a successful merge, the helper is validated on the merged list: its error is passed through unchanged, and its plan is returned with the merged list. |

## Left out

- `size_t` arithmetic. Counters, sizes and offsets are unbounded naturals. `bytes_received_ + len` cannot wrap for the sizes a PSRAM block can have, so this model does not represent the 32-bit overflow.
- The MD5 algorithm and `equals_hex`. The digest is an uninterpreted function of the bytes fed since the last `init()`, compared for equality with the 32 stored characters.
- ESP-IDF internals (`esp_ota_*`, `esp_partition_*`, `heap_caps_*`). Their results are parameters. Two documented facts are written out: out-of-range partition accesses return ESP_ERR_INVALID_SIZE, and a boot switch to a null partition returns ESP_ERR_INVALID_ARG.
- The two `heap_caps_get_free_size` calls in the buffered `begin`. They are one value: the free size is taken not to change between them.
- A failed erase. It is modelled as leaving the partition untouched; what a partially completed erase leaves behind is not represented.
- The cells of a partition being programmed. They are modelled as erased to 0xFF first, then each takes the byte written unless the `stuck` parameter names it.
- The watchdog reconfiguration and resets, logging, `delay`, and `esp_restart`. The restart is a boolean outcome.
- The trigger and callback registration framework, and the float progress value, which the progress trigger forwards but the model does not carry.
- `esp_partition_find_first` compares labels up to the 16 characters of the label field. The lookup here compares whole names.
- `tools/extract_ota_app_partition.py`. It copies a file and prints.
- `to_code`, `AUTO_LOAD`, `supports_sha256` and `_consume_ota_sockets`. These are code generation and framework glue.
- The network transfer and authentication protocol, and password hashing. They are not part of this model.
- `merge_config`. It is an opaque parameter, assumed in `OtaMerge.MergedPortsDistinct` only to keep a port both entries share.
- Reading and writing `partitions.csv`. The custom file is a list of lines plus an "exists" flag. The generated file is the list of rows it would contain.
- `BackendState.SetTargetPartition`: labels are modelled with one character per byte, which is exact for ASCII only. For a non-ASCII label, `strncpy` into the 16-byte array cuts at 16 UTF-8 bytes. The model cuts at 16 characters. `OtaConfig.AcceptedTargetStoredWhole` is therefore stated for ASCII names only, since the schema's `cv.Length(max=16)` counts characters.
- Python `str.strip()`, `str.lower()` and the `csv` module. They are modelled on ASCII only. Non-ASCII whitespace, non-ASCII case mapping, and CSV quoting and escaping are not modelled.
- `HelperPartition.ValidateHelperPartition`: the paths are strings. Resolution of the custom path against the configuration directory is not modelled.
- `PartitionLayout.GenerateDualPartitionTable`: this uses the fitting NVS size of the Findings table, not the 0x6000 as written. `PartitionLayout.GenerateAsWritten` keeps the written value.
- `PartitionLayout.LayoutFor`: the NVS size is the corrected 0x4000, not the program's 0x6000. The as-written layout is `PartitionLayout.LayoutAsWritten`, and `PartitionLayout.AsWrittenTableOverlaps` shows it overlapping.
- `HelperPartition.ValidateHelperPartition`: the generated branch builds the corrected table, so its rows differ from the program's in the NVS size. Acceptance, rejection and error values are the same as the program's.
- `HelperPartition.AcceptedHelperIsApp`: the fit of the generated table holds only for the corrected NVS size. As written, the accepted generated table overlaps (see Findings).
- `IdfBackend.Begin`: a buffered `begin` on a backend that already holds a buffer loses the pointer when the allocation fails (cpp:41). The old block leaks, the buffer pointer becomes null, and the size and counter keep their old values, so a later `write` copies into a null buffer. The model keeps the old buffer instead. Every update in the program starts from a freshly made backend, which holds no buffer.
- `IdfBackend.Begin`: in the direct variant, the erase that `esp_ota_begin` performs on the update partition is not represented. The device map changes only at `end`.
- `IdfBackend.Write`: in the direct variant, the flash programming by `esp_ota_write` is not represented. The model therefore does not show that a direct update ending in MD5_MISMATCH or a failed `esp_ota_end` leaves the partition partially programmed (not bootable, since the boot pointer does not move).

## Findings

| source | as written | input that shows it | evidently intended | confidence | as-written member | corrected member |
|---|---|---|---|---|---|---|
| esphome/components/esphome/ota/__init__.py:136-158 | Every layout gives NVS 0x6000 bytes at 0x9000. otadata (0x2000) and phy_init (0x1000) have blank offsets, so the partition table tool places them after NVS, at 0xF000 and 0x11000. The main app is pinned at 0x10000. | `ota_helper_partition: ota_helper` with flash size 4MB and no custom partitions file: otadata covers 0xF000-0x11000 and phy_init covers 0x11000-0x12000, both inside main at 0x10000-0x300000 | A table whose data partitions fit below 0x10000, e.g. NVS 0x4000 (the ESP-IDF two-OTA default). Then otadata is at 0xD000, phy_init at 0xF000, and the helper ends at the flash end. | high; not executed (ESP-IDF's placement rule is modelled, not run) | PartitionLayout.AsWrittenTableOverlaps | PartitionLayout.GeneratedTableFits |
