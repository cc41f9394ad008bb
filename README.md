# Marvell PlatformFlashAccessLib: verified model

A Dafny model of the capsule-update flash access library for Marvell
platforms (`PlatformFlashAccessLib.c`). The library does two things:

- **CheckImageHeader** validates the boot-image prolog header
  (`MV_FIRMWARE_IMAGE_HEADER`). It compares `Magic` with `MAIN_HDR_MAGIC`
  (`0xB105B002`). It then zeroes `PrologChecksum` in the caller's buffer and
  computes the wrap-around 32-bit sum of the first `PrologSize` bytes
  (`CalculateSum32`). That sum must equal the saved checksum. The saved value
  is written back only when it does.
- **PerformFlashWrite** serves absolute-address writes of system firmware
  only. It locates the SPI flash and SPI master protocols, checks the header
  and sets up an SPI device (`SetupDevice` with `Cs` 0 and `Mode` 0). It then probes the device
  (`SpiFlashProbe`: `ReadId`, then `Init`), writes `Length` bytes of the
  buffer at flash offset 0 and frees the device. The goto-based cleanup frees
  the device exactly once on every path after a device was handed back, and
  never before.

Layout:

- `efi.dfy` (module `Efi`): `EFI_STATUS` as a 64-bit value, `EFI_ERROR` as
  "top bit set", and the codes `EFI_SUCCESS`, `EFI_INVALID_PARAMETER`
  (`ENCODE_ERROR (2)`) and `EFI_DEVICE_ERROR` (`ENCODE_ERROR (7)`).
- `checksum.dfy` (module `Checksum`): UINT32 words as integers in
  [0, 2^32). `Sum32` is the wrap-around sum. `CalculateSum32` is its loop,
  proved against `Sum32`. Lemmas cover concatenation and single-word updates.
- `image_header.dfy` (module `ImageHeader`): the header predicates and the
  in-place `CheckImageHeader` on an `array<Word>`. The lemmas relate the
  check to the checksum a producer seals into the header, and show that it
  detects single-word corruption.
- `flash_access.dfy` (module `FlashAccess`): a class `FlashAccessLib`. Its
  two fields are the STATIC protocol pointers `SpiFlashProtocol` and
  `SpiMasterProtocol` (true = located, false = NULL). Its methods are
  `SpiFlashProbe` and `PerformFlashWrite`. The boot services and SPI drivers
  are an oracle (`Collaborators`): one outcome per call. Every call made is
  returned, in order, as a trace of `Event`s. `PerformFlashWrite` is proved
  equal to the specification function `FlashWrite`. The lemmas state the
  ordering and device-handle properties of `FlashWrite`.

`CalculateSum32` belongs to EDK2's BaseLib, which is not among the source
files of this repository. It is modelled from its documented behaviour: a forward loop adding
`Length / 4` UINT32 words with wrap-around. The routine cannot know the
buffer's size, so the only precondition kept is that the words it reads
exist. `CheckImageHeader` calls it only when the magic is right, so
`Admissible` demands this only in that case.
`PerformFlashWrite` first reads the buffer at the header check (line 195), so
its specification `FlashWrite` and the lemmas about it demand `Admissible`
only of requests that reach that check.

`CheckImageHeader` writes the saved checksum back only on success (lines
114-123). When the magic is right and the sum is wrong, `PrologChecksum` is
left as 0 in the caller's buffer, and `PerformFlashWrite` passes that on. A
wrong magic (lines 108-111) returns before anything is written. The magic and
checksum failures both return `EFI_DEVICE_ERROR` (lines 110 and 119).

## Model

| member | source | states |
|---|---|---|
| `Checksum.CalculateSum32` | Silicon/Marvell/Feature/Capsule/PlatformFlashAccessLib/PlatformFlashAccessLib.c:116 | The sum of the first `length / 4` UINT32 words of the buffer, added with wrap-around, is `Sum32` of those words. Requires only that those words exist. |
| `Checksum.TotalAppend` | Silicon/Marvell/Feature/Capsule/PlatformFlashAccessLib/PlatformFlashAccessLib.c:116 | The word sum of a concatenation is the sum of the two parts' sums. |
| `Checksum.TotalUpdate` | Silicon/Marvell/Feature/Capsule/PlatformFlashAccessLib/PlatformFlashAccessLib.c:114-116 | Overwriting one word changes the exact sum by the new word minus the old one. This is why zeroing `PrologChecksum` removes it from the sum. |
| `Checksum.Sum32Update` | Silicon/Marvell/Feature/Capsule/PlatformFlashAccessLib/PlatformFlashAccessLib.c:116-117 | Overwriting one word shifts the 32-bit sum by the difference modulo 2^32. The sum is unchanged if and only if the word is unchanged. |
| `ImageHeader.CheckImageHeader` | Silicon/Marvell/Feature/Capsule/PlatformFlashAccessLib/PlatformFlashAccessLib.c:96-126 | Returns success (0) if and only if the magic is `0xB105B002` and the sum of the covered words, with `PrologChecksum` counted as 0, equals the stored checksum. Otherwise it returns `EFI_DEVICE_ERROR`. A bad magic leaves the buffer untouched. Success leaves it identical to the input. A checksum mismatch leaves word 2 as 0 and every other word unchanged. |
| `ImageHeader.ExpectedChecksumWithoutZeroing` | Silicon/Marvell/Feature/Capsule/PlatformFlashAccessLib/PlatformFlashAccessLib.c:113-116 | The checksum the header must carry is the sum of the covered words minus the stored checksum (when word 2 is covered), modulo 2^32. Stated without the in-place zeroing. |
| `ImageHeader.ValidIffSumIsTwiceChecksum` | Silicon/Marvell/Feature/Capsule/PlatformFlashAccessLib/PlatformFlashAccessLib.c:113-125 | With the right magic and word 2 covered, the header passes exactly when the plain sum of the covered words is twice the stored checksum modulo 2^32. Both directions are proved. |
| `ImageHeader.SealedHeaderValid` | Silicon/Marvell/Feature/Capsule/PlatformFlashAccessLib/PlatformFlashAccessLib.c:113-125 | A header with the right magic whose checksum word holds the sum computed with that word zeroed always passes, whatever its other words. This is the producer/checker round trip. |
| `ImageHeader.ValidHeaderIsSealed` | Silicon/Marvell/Feature/Capsule/PlatformFlashAccessLib/PlatformFlashAccessLib.c:116-125 | A header that passes already carries the sealed checksum, so the stored value is the only one accepted. |
| `ImageHeader.CorruptedWordDetected` | Silicon/Marvell/Feature/Capsule/PlatformFlashAccessLib/PlatformFlashAccessLib.c:108-120 | Changing any single covered word of a valid header makes it fail. This excludes `PrologSize`, which moves the covered range, and the checksum word itself. |
| `ImageHeader.MinimalHeaderValid` | Silicon/Marvell/Feature/Capsule/PlatformFlashAccessLib/PlatformFlashAccessLib.c:49-125 | A 64-byte header holding only the magic, `PrologSize` 64 and the checksum `0xB105B002 + 64` passes, followed by any payload. |
| `FlashAccess.FlashAccessLib.constructor` | Silicon/Marvell/Feature/Capsule/PlatformFlashAccessLib/PlatformFlashAccessLib.c:46-47 | Both STATIC protocol pointers start out NULL. |
| `FlashAccess.FlashAccessLib.SpiFlashProbe` | Silicon/Marvell/Feature/Capsule/PlatformFlashAccessLib/PlatformFlashAccessLib.c:73-92 | `ReadId` is always called first. `Init` is called if and only if `ReadId` succeeded. The result is `EFI_SUCCESS` exactly when both succeed, otherwise `EFI_DEVICE_ERROR`. |
| `FlashAccess.FlashAccessLib.PerformFlashWrite` | Silicon/Marvell/Feature/Capsule/PlatformFlashAccessLib/PlatformFlashAccessLib.c:145-232 | Status and call trace equal `FlashWrite` of the request, the buffer's original words and the collaborators' outcomes. The buffer changes only through the header check, as that check states: it is unchanged when the header check is not reached, when the magic is wrong and when the header is valid. An unsupported request changes nothing. Each protocol pointer records whether its lookup succeeded. |
| `FlashAccess.FlashWriteReleasesDeviceOnce` | Silicon/Marvell/Feature/Capsule/PlatformFlashAccessLib/PlatformFlashAccessLib.c:195-231 | On every path, `FreeDevice` is called once if `SetupDevice` handed back a device, never otherwise, and always as the last call. The status is one of `EFI_SUCCESS`, `EFI_INVALID_PARAMETER` or `EFI_DEVICE_ERROR`. |
| `FlashAccess.UnsupportedRequestRefused` | Silicon/Marvell/Feature/Capsule/PlatformFlashAccessLib/PlatformFlashAccessLib.c:156-169 | A non-absolute address type or a non-system firmware type yields `EFI_INVALID_PARAMETER` and an empty trace. Both directions are proved, so supported requests never get `EFI_INVALID_PARAMETER`. |
| `FlashAccess.LookupFailureTouchesNothing` | Silicon/Marvell/Feature/Capsule/PlatformFlashAccessLib/PlatformFlashAccessLib.c:171-192 | If either protocol lookup fails, the result is `EFI_DEVICE_ERROR` and only lookups were made: the flash protocol first, with no header check and no `FreeDevice`. |
| `FlashAccess.NoDeviceNoFree` | Silicon/Marvell/Feature/Capsule/PlatformFlashAccessLib/PlatformFlashAccessLib.c:194-204 | A rejected header, or a `SetupDevice` that returns NULL, yields `EFI_DEVICE_ERROR` with no `FreeDevice`. A rejected header also means no `SetupDevice`. |
| `FlashAccess.ProbeFailureFreesOnce` | Silicon/Marvell/Feature/Capsule/PlatformFlashAccessLib/PlatformFlashAccessLib.c:206-231 | After a device is set up, a failed probe yields `EFI_DEVICE_ERROR` and exactly one `FreeDevice`, as the last call, with no `Update`. `Init` appears only if `ReadId` succeeded. |
| `FlashAccess.ProbedDeviceUpdatedThenFreed` | Silicon/Marvell/Feature/Capsule/PlatformFlashAccessLib/PlatformFlashAccessLib.c:212-225 | After a successful probe, there is exactly one `Update(offset 0, Length, image)`, followed by exactly one `FreeDevice` whatever it returned. The result is `EFI_SUCCESS` if and only if the update succeeded, otherwise `EFI_DEVICE_ERROR`. |
| `FlashAccess.SuccessNeedsEveryStep` | Silicon/Marvell/Feature/Capsule/PlatformFlashAccessLib/PlatformFlashAccessLib.c:156-225 | A flash write succeeds if and only if the request is supported, both lookups succeed, the header is valid, a device is set up, and `ReadId`, `Init` and `Update` all succeed. |
| `FlashAccess.MinimalImageWritten` | Silicon/Marvell/Feature/Capsule/PlatformFlashAccessLib/PlatformFlashAccessLib.c:195-225 | The minimal valid header plus any payload, with all collaborators succeeding, gives `EFI_SUCCESS` and one `Update` at offset 0 of the whole image. |
| `FlashAccess.ClearedMagicRejected` | Silicon/Marvell/Feature/Capsule/PlatformFlashAccessLib/PlatformFlashAccessLib.c:107-111 | The same image with magic 0 gives `EFI_DEVICE_ERROR` right after the header check, with no device set up. |

## Left out

- `gBS->LocateProtocol` and the boot-services tables: only each lookup's status is modelled. A failed lookup is assumed to leave the pointer NULL, as the EDK2 core clears the interface pointer first.
- The Marvell SPI driver (`SetupDevice`, `ReadId`, `Init`, `Update`, `FreeDevice`): only each call's outcome is modelled. What happens on the bus and the flash contents after `Update` belong to the driver. A device handle is modelled by whether `SetupDevice` returned non-NULL.
- `Print` and `DEBUG` diagnostics: output with no effect on behaviour.
- The header fields other than `Magic`, `PrologSize` and `PrologChecksum` (lines 49-69): they are opaque words that only enter the sum.
- The `UINTN *` to header pointer cast, alignment, and byte order: the buffer is taken directly as UINT32 words. The model does not check that `Length` fits the buffer, and neither does the source; `Length` is only passed on to `Update`.
- `CalculateSum32`'s assertion that the buffer does not wrap around the address space: addresses are not modelled.
- `FlashAddress`: the source never reads it. The model takes it as a parameter and no contract depends on it.
- CheckImageHeader: a `PrologSize` whose words run past the end of the buffer is an out-of-bounds read at line 116 that nothing in the source guards against. The model requires those words to exist (`Admissible`) and does not model the overrun.
- PerformFlashWrite: passes the capsule-supplied buffer to the header check without checking `PrologSize` against `Length`. Requests that reach the check (supported, both protocols found) therefore carry the same `Admissible` requirement (`BufferReadableWhenChecked`), and the same overrun is not modelled. Requests refused earlier (lines 156-192) accept any buffer, as the source does.
- CalculateSum32: the DEBUG-build assertions (length a multiple of 4, aligned non-NULL buffer) are not modelled. The model sums `length / 4` words, as a release build does.
