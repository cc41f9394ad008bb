/** PerformFlashWrite and SpiFlashProbe: the ordered sequence of calls into
    the UEFI boot services and the Marvell SPI flash/master drivers, with the
    goto-based cleanup that releases the SPI device handle.

    The collaborators are an oracle: each call's outcome is given in advance
    (Collaborators), and every call made is recorded, in order, in a trace of
    Events that the method returns. */
module FlashAccess {
  import opened Efi
  import opened Checksum
  import opened ImageHeader

  /** PLATFORM_FIRMWARE_TYPE */
  datatype FirmwareType = SystemFirmware | NvRam

  /** FLASH_ADDRESS_TYPE */
  datatype FlashAddressType = RelativeAddress | AbsoluteAddress

  /** The two protocols located through the boot services. */
  datatype Protocol = SpiFlashProtocol | SpiMasterProtocol

  /** One observable step of a flash write. */
  datatype Event =
    | LocateProtocol(protocol: Protocol)
      /** CheckImageHeader run on the caller's buffer. */
    | CheckHeader
      /** SpiMasterProtocol->SetupDevice with its Cs and Mode arguments, and
          whether it handed back a device (non-NULL). */
    | SetupDevice(cs: nat, mode: nat, gotDevice: bool)
    | ReadId
    | Init
      /** SpiFlashProtocol->Update with the flash offset, the byte length and
          the image words the buffer holds at the time of the call. */
    | Update(offset: nat, length: nat, image: seq<Word>)
    | FreeDevice

  /** The outcomes the boot services and the SPI drivers return, one per call. */
  datatype Collaborators = Collaborators(
    locateFlash: EfiStatus,
    locateMaster: EfiStatus,
    setupAllocates: bool,
    readId: EfiStatus,
    init: EfiStatus,
    update: EfiStatus)

  /** The only request the library serves. */
  predicate Supported(firmwareType: FirmwareType, flashAddressType: FlashAddressType) {
    flashAddressType == AbsoluteAddress && firmwareType == SystemFirmware
  }

  /** Both protocol lookups succeed. */
  predicate ProtocolsFound(env: Collaborators) {
    !EfiError(env.locateFlash) && !EfiError(env.locateMaster)
  }

  /** Both steps of the probe succeed. */
  predicate ProbeSucceeds(env: Collaborators) {
    !EfiError(env.readId) && !EfiError(env.init)
  }

  /** The header check is the first and only reader of the caller's buffer:
      only requests that reach it (supported, both protocols found) need a
      buffer CheckImageHeader can read. */
  predicate BufferReadableWhenChecked(firmwareType: FirmwareType, flashAddressType: FlashAddressType,
                                      image: seq<Word>, env: Collaborators) {
    Supported(firmwareType, flashAddressType) && ProtocolsFound(env) ==> Admissible(image)
  }

  /** The resource discipline on the SPI device handle: FreeDevice is called
      once if SetupDevice handed back a device and never otherwise, and
      nothing follows it. */
  predicate DeviceReleasedOnce(calls: seq<Event>) {
    && multiset(calls)[FreeDevice] == (if SetupDevice(0, 0, true) in calls then 1 else 0)
    && (FreeDevice in calls ==> calls[|calls| - 1] == FreeDevice)
  }

  /** The calls made before the header check when both lookups succeed. */
  const Located: seq<Event> := [LocateProtocol(SpiFlashProtocol), LocateProtocol(SpiMasterProtocol)]

  /** What a flash write returns and which calls it makes, given the request,
      the image words in the caller's buffer and the collaborators' outcomes. */
  datatype Outcome = Outcome(status: EfiStatus, calls: seq<Event>)

  /** The specification of PerformFlashWrite. */
  function FlashWrite(firmwareType: FirmwareType, flashAddressType: FlashAddressType,
                      image: seq<Word>, length: nat, env: Collaborators): Outcome
    requires BufferReadableWhenChecked(firmwareType, flashAddressType, image, env)
  {
    if !Supported(firmwareType, flashAddressType) then
      Outcome(EfiInvalidParameter, [])
    else if EfiError(env.locateFlash) then
      Outcome(EfiDeviceError, [LocateProtocol(SpiFlashProtocol)])
    else if EfiError(env.locateMaster) then
      Outcome(EfiDeviceError, Located)
    else if !HeaderValid(image) then
      Outcome(EfiDeviceError, Located + [CheckHeader])
    else if !env.setupAllocates then
      Outcome(EfiDeviceError, Located + [CheckHeader, SetupDevice(0, 0, false)])
    else if EfiError(env.readId) then
      Outcome(EfiDeviceError, Located + [CheckHeader, SetupDevice(0, 0, true), ReadId, FreeDevice])
    else if EfiError(env.init) then
      Outcome(EfiDeviceError, Located + [CheckHeader, SetupDevice(0, 0, true), ReadId, Init, FreeDevice])
    else
      Outcome(if EfiError(env.update) then EfiDeviceError else EfiSuccess,
              Located + [CheckHeader, SetupDevice(0, 0, true), ReadId, Init,
                         Update(0, length, image), FreeDevice])
  }

  /** The calls made up to a successful SetupDevice. */
  const SetUp: seq<Event> := Located + [CheckHeader, SetupDevice(0, 0, true)]

  /** A flash write that set up a device keeps the discipline when it ends
      with one FreeDevice and frees nothing in between. */
  lemma ReleasedOnceAfterSetUp(middle: seq<Event>)
    requires FreeDevice !in middle
    ensures DeviceReleasedOnce(SetUp + middle + [FreeDevice])
  {
    var calls := SetUp + middle + [FreeDevice];
    assert multiset(SetUp + middle) == multiset(SetUp) + multiset(middle);
    assert multiset(calls) == multiset(SetUp + middle) + multiset([FreeDevice]);
    assert multiset(SetUp)[FreeDevice] == 0;
    assert SetUp[3] == SetupDevice(0, 0, true) && calls[3] == SetUp[3];
  }

  /** Every flash write keeps the device-handle discipline and answers with
      one of the three codes the library documents. */
  lemma FlashWriteReleasesDeviceOnce(firmwareType: FirmwareType, flashAddressType: FlashAddressType,
                                     image: seq<Word>, length: nat, env: Collaborators)
    requires BufferReadableWhenChecked(firmwareType, flashAddressType, image, env)
    ensures var o := FlashWrite(firmwareType, flashAddressType, image, length, env);
      && DeviceReleasedOnce(o.calls)
      && (o.status == EfiSuccess || o.status == EfiInvalidParameter || o.status == EfiDeviceError)
  {
    var o := FlashWrite(firmwareType, flashAddressType, image, length, env);
    if !Supported(firmwareType, flashAddressType) || !ProtocolsFound(env)
       || !HeaderValid(image) || !env.setupAllocates {
      assert FreeDevice !in o.calls && SetupDevice(0, 0, true) !in o.calls;
    } else if EfiError(env.readId) {
      assert o.calls == SetUp + [ReadId] + [FreeDevice];
      ReleasedOnceAfterSetUp([ReadId]);
    } else if EfiError(env.init) {
      assert o.calls == SetUp + [ReadId, Init] + [FreeDevice];
      ReleasedOnceAfterSetUp([ReadId, Init]);
    } else {
      assert o.calls == SetUp + [ReadId, Init, Update(0, length, image)] + [FreeDevice];
      ReleasedOnceAfterSetUp([ReadId, Init, Update(0, length, image)]);
    }
  }

  /** A request other than an absolute-address write of system firmware is
      refused with EFI_INVALID_PARAMETER before any call is made. */
  lemma UnsupportedRequestRefused(firmwareType: FirmwareType, flashAddressType: FlashAddressType,
                                  image: seq<Word>, length: nat, env: Collaborators)
    requires BufferReadableWhenChecked(firmwareType, flashAddressType, image, env)
    ensures var o := FlashWrite(firmwareType, flashAddressType, image, length, env);
      !Supported(firmwareType, flashAddressType) <==> o.status == EfiInvalidParameter
    ensures var o := FlashWrite(firmwareType, flashAddressType, image, length, env);
      !Supported(firmwareType, flashAddressType) <==> o.calls == []
  {
  }

  /** A failed protocol lookup ends the write with EFI_DEVICE_ERROR before the
      header is checked or a device is set up; the flash driver is looked up first. */
  lemma LookupFailureTouchesNothing(firmwareType: FirmwareType, flashAddressType: FlashAddressType,
                                    image: seq<Word>, length: nat, env: Collaborators)
    requires Supported(firmwareType, flashAddressType) && !ProtocolsFound(env)
    ensures var o := FlashWrite(firmwareType, flashAddressType, image, length, env);
      && o.status == EfiDeviceError
      && o.calls[0] == LocateProtocol(SpiFlashProtocol)
      && CheckHeader !in o.calls && FreeDevice !in o.calls
      && (forall e :: e in o.calls ==> e.LocateProtocol?)
  {
  }

  /** A rejected header, or a SetupDevice that hands back no device, ends the
      write with EFI_DEVICE_ERROR and FreeDevice is never called; on a rejected
      header SetupDevice is not called either. */
  lemma NoDeviceNoFree(firmwareType: FirmwareType, flashAddressType: FlashAddressType,
                       image: seq<Word>, length: nat, env: Collaborators)
    requires Admissible(image)
    requires Supported(firmwareType, flashAddressType) && ProtocolsFound(env)
    requires !HeaderValid(image) || !env.setupAllocates
    ensures var o := FlashWrite(firmwareType, flashAddressType, image, length, env);
      && o.status == EfiDeviceError
      && FreeDevice !in o.calls
      && (!HeaderValid(image) ==> forall e :: e in o.calls ==> !e.SetupDevice?)
  {
  }

  /** After a device is set up, a failed probe frees it exactly once, as the
      last call, and nothing is written. */
  lemma ProbeFailureFreesOnce(firmwareType: FirmwareType, flashAddressType: FlashAddressType,
                              image: seq<Word>, length: nat, env: Collaborators)
    requires Admissible(image)
    requires Supported(firmwareType, flashAddressType) && ProtocolsFound(env)
    requires HeaderValid(image) && env.setupAllocates && !ProbeSucceeds(env)
    ensures var o := FlashWrite(firmwareType, flashAddressType, image, length, env);
      && o.status == EfiDeviceError
      && multiset(o.calls)[FreeDevice] == 1 && o.calls[|o.calls| - 1] == FreeDevice
      && (forall e :: e in o.calls ==> !e.Update?)
      && (Init in o.calls <==> !EfiError(env.readId))
  {
  }

  /** After a successful probe the whole image is written once at offset 0,
      the device is freed once afterwards whatever the write returned, and the
      write succeeds exactly when the update did. */
  lemma ProbedDeviceUpdatedThenFreed(firmwareType: FirmwareType, flashAddressType: FlashAddressType,
                                     image: seq<Word>, length: nat, env: Collaborators)
    requires Admissible(image)
    requires Supported(firmwareType, flashAddressType) && ProtocolsFound(env)
    requires HeaderValid(image) && env.setupAllocates && ProbeSucceeds(env)
    ensures var o := FlashWrite(firmwareType, flashAddressType, image, length, env);
      && |o.calls| >= 2
      && o.calls[|o.calls| - 2] == Update(0, length, image)
      && o.calls[|o.calls| - 1] == FreeDevice
      && multiset(o.calls)[FreeDevice] == 1
      && (forall e :: e in o.calls[..|o.calls| - 2] ==> !e.Update?)
      && (o.status == EfiSuccess <==> !EfiError(env.update))
      && (o.status == EfiSuccess || o.status == EfiDeviceError)
  {
  }

  /** A write succeeds exactly when the request is supported, the header is
      valid and every collaborator succeeded (the image then handed to the
      driver is stated by ProbedDeviceUpdatedThenFreed). */
  lemma SuccessNeedsEveryStep(firmwareType: FirmwareType, flashAddressType: FlashAddressType,
                              image: seq<Word>, length: nat, env: Collaborators)
    requires BufferReadableWhenChecked(firmwareType, flashAddressType, image, env)
    ensures var o := FlashWrite(firmwareType, flashAddressType, image, length, env);
      o.status == EfiSuccess <==>
        && Supported(firmwareType, flashAddressType) && ProtocolsFound(env)
        && HeaderValid(image) && env.setupAllocates && ProbeSucceeds(env)
        && !EfiError(env.update)
  {
  }

  /** Collaborators that all succeed. */
  predicate AllSucceed(env: Collaborators) {
    ProtocolsFound(env) && env.setupAllocates && ProbeSucceeds(env) && !EfiError(env.update)
  }

  /** A minimal 64-byte header followed by any payload, with every
      collaborator succeeding, is written whole at offset 0 in one update. */
  lemma MinimalImageWritten(payload: seq<Word>, env: Collaborators)
    requires AllSucceed(env)
    ensures var image := MinimalHeader() + payload;
      && Admissible(image)
      && FlashWrite(SystemFirmware, AbsoluteAddress, image, 4 * |image|, env) ==
           Outcome(EfiSuccess, Located + [CheckHeader, SetupDevice(0, 0, true), ReadId, Init,
                                          Update(0, 4 * |image|, image), FreeDevice])
  {
    MinimalHeaderValid(payload);
  }

  /** The same image with its magic cleared is rejected before any device is
      set up, whatever the collaborators would have done. */
  lemma ClearedMagicRejected(payload: seq<Word>, env: Collaborators)
    requires ProtocolsFound(env)
    ensures var image := MinimalHeader()[MagicIndex := 0] + payload;
      && Admissible(image)
      && FlashWrite(SystemFirmware, AbsoluteAddress, image, 4 * |image|, env) ==
           Outcome(EfiDeviceError, Located + [CheckHeader])
  {
    var image := MinimalHeader()[MagicIndex := 0] + payload;
    assert image[MagicIndex] == 0;
  }

  /** The library's module state: the two STATIC protocol pointers, each
      modelled by whether it refers to a located protocol (true) or is NULL. */
  class FlashAccessLib {
    var spiFlashProtocol: bool
    var spiMasterProtocol: bool

    /** STATIC pointers start out NULL. */
    constructor ()
      ensures !spiFlashProtocol && !spiMasterProtocol
    {
      spiFlashProtocol := false;
      spiMasterProtocol := false;
    }

    /** SpiFlashProbe: reads the flash ID, then initialises the flash device;
        Init is only attempted after ReadId succeeded. */
    method SpiFlashProbe(env: Collaborators) returns (status: EfiStatus, calls: seq<Event>)
      requires spiFlashProtocol
      ensures |calls| > 0 && calls[0] == ReadId
      ensures Init in calls <==> !EfiError(env.readId)
      ensures calls == [ReadId] || calls == [ReadId, Init]
      ensures status == EfiSuccess <==> ProbeSucceeds(env)
      ensures status == EfiSuccess || status == EfiDeviceError
    {
      calls := [ReadId];
      if EfiError(env.readId) {
        return EfiDeviceError, calls;
      }
      calls := calls + [Init];
      if EfiError(env.init) {
        return EfiDeviceError, calls;
      }
      return EfiSuccess, calls;
    }

    /** PerformFlashWrite: checks the request, locates the two protocols,
        validates the image header, sets up a device with Cs 0 and Mode 0, probes
        it, writes the whole buffer at flash offset 0 and frees the device.
        FlashAddress is accepted and never read. */
    method PerformFlashWrite(firmwareType: FirmwareType, flashAddress: nat,
                             flashAddressType: FlashAddressType,
                             buffer: array<Word>, length: nat, env: Collaborators)
      returns (status: EfiStatus, calls: seq<Event>)
      requires BufferReadableWhenChecked(firmwareType, flashAddressType, buffer[..], env)
      modifies this, buffer
      ensures Outcome(status, calls) == FlashWrite(firmwareType, flashAddressType, old(buffer[..]), length, env)
      // The buffer is only touched by the header check, and only past its magic test.
      ensures CheckHeader !in calls ==> buffer[..] == old(buffer[..])
      ensures buffer.Length > MagicIndex && old(buffer[MagicIndex]) != MainHdrMagic ==> buffer[..] == old(buffer[..])
      ensures Admissible(old(buffer[..])) && HeaderValid(old(buffer[..])) ==> buffer[..] == old(buffer[..])
      ensures CheckHeader in calls && Admissible(old(buffer[..]))
              && old(buffer[MagicIndex]) == MainHdrMagic && !HeaderValid(old(buffer[..])) ==>
                buffer[..] == old(buffer[..])[PrologChecksumIndex := 0]
      // The protocol pointers record the lookups made.
      ensures !Supported(firmwareType, flashAddressType) ==> unchanged(this)
      ensures Supported(firmwareType, flashAddressType) ==> spiFlashProtocol == !EfiError(env.locateFlash)
      ensures Supported(firmwareType, flashAddressType) && !EfiError(env.locateFlash) ==>
                spiMasterProtocol == !EfiError(env.locateMaster)
      ensures Supported(firmwareType, flashAddressType) && EfiError(env.locateFlash) ==>
                spiMasterProtocol == old(spiMasterProtocol)
    {
      calls := [];

      if flashAddressType != AbsoluteAddress {
        return EfiInvalidParameter, calls;
      }

      if firmwareType != SystemFirmware {
        return EfiInvalidParameter, calls;
      }

      // Locate SPI protocols.
      calls := calls + [LocateProtocol(SpiFlashProtocol)];
      spiFlashProtocol := !EfiError(env.locateFlash);
      if EfiError(env.locateFlash) {
        return EfiDeviceError, calls;
      }

      calls := calls + [LocateProtocol(SpiMasterProtocol)];
      spiMasterProtocol := !EfiError(env.locateMaster);
      if EfiError(env.locateMaster) {
        return EfiDeviceError, calls;
      }

      // Check image checksum and magic.
      calls := calls + [CheckHeader];
      status := CheckImageHeader(buffer);
      if EfiError(status) {
        // HeaderError
        return EfiDeviceError, calls;
      }

      // Set up and probe the SPI flash.
      var slave := env.setupAllocates;
      calls := calls + [SetupDevice(0, 0, slave)];
      if !slave {
        // HeaderError
        return EfiDeviceError, calls;
      }

      var probeCalls;
      status, probeCalls := SpiFlashProbe(env);
      calls := calls + probeCalls;
      if EfiError(status) {
        // FlashProbeError
        calls := calls + [FreeDevice];
        return EfiDeviceError, calls;
      }

      // Update the firmware image in flash at offset 0.
      calls := calls + [Update(0, length, buffer[..])];
      status := env.update;

      // Release resources.
      calls := calls + [FreeDevice];

      if EfiError(status) {
        return EfiDeviceError, calls;
      }
      return EfiSuccess, calls;
    }
  }
}
