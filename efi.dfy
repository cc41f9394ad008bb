/** UEFI status codes as used by the flash access library, on a 64-bit target.
    An EFI_STATUS is a UINTN; error codes have the top bit set. */
module Efi {

  /** A 64-bit UINTN status value. */
  type EfiStatus = x: int | 0 <= x < 0x1_0000_0000_0000_0000

  /** MAX_BIT of a 64-bit UINTN: the bit that marks an error code. */
  const ErrorBit: EfiStatus := 0x8000_0000_0000_0000

  const EfiSuccess: EfiStatus := 0
  /** ENCODE_ERROR (2) */
  const EfiInvalidParameter: EfiStatus := ErrorBit + 2
  /** ENCODE_ERROR (7) */
  const EfiDeviceError: EfiStatus := ErrorBit + 7

  /** EFI_ERROR: the status, read as a signed INTN, is negative, that is,
      its top bit is set. */
  predicate EfiError(status: EfiStatus) {
    status >= ErrorBit
  }
}
