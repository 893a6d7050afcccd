/**
 The argument check in front of every EEPROM transfer in eeprom.c
 (`check_io_params`), and the test `eeprom_do_io` applies to its result before it
 opens the device.

 eeprom.c names its parameter types `enum eeprom_cmd` and `enum access_mode`; the
 values used here are those of `enum action` and `enum mode` in eeprom.h, which
 list the same constants (READ = 0, WRITE = 1; DRIVER = 0, I2C = 1).
 */
module Eeprom {
  import opened CText

  /* `enum eeprom_errors` */
  const Success: int := 0
  const NullPtr: int := 1
  const InvalMode: int := 2
  const InvalOffset: int := 3
  const InvalSize: int := 4
  const NoSuchFunction: int := 6

  const ActionRead: int := 0
  const ActionWrite: int := 1
  const DriverMode: int := 0
  const I2cMode: int := 1

  const EepromSize: int := 256

  /** The C `int` range of `offset` and `size`. */
  predicate IsInt32(v: int) {
    -0x8000_0000 <= v < 0x8000_0000
  }

  /** A transfer that lies inside the chip: a buffer, a read or a write, a known
      mode, and a non-negative offset whose range ends by EEPROM_SIZE. `size` is
      allowed to be negative. */
  predicate ValidIo(bufPresent: bool, action: int, mode: int, offset: int, size: int) {
    bufPresent && (action == ActionRead || action == ActionWrite)
    && (mode == DriverMode || mode == I2cMode)
    && 0 <= offset && offset + size <= EepromSize
  }

  /** `check_io_params`: the checks in order, the first failing one giving its code.
      `offset + size` is computed in `int`; it is taken to wrap, as the usual
      two's-complement code for the signed overflow does. */
  function CheckIoParams(bufPresent: bool, action: int, mode: int, offset: int, size: int): (r: int)
    requires IsInt32(offset) && IsInt32(size)
    ensures r in {Success, NullPtr, NoSuchFunction, InvalMode, InvalOffset, InvalSize}
    ensures !bufPresent ==> r == NullPtr
    ensures bufPresent && action != ActionRead && action != ActionWrite ==> r == NoSuchFunction
    ensures r == InvalMode ==> bufPresent && action in {ActionRead, ActionWrite} && mode !in {DriverMode, I2cMode}
    ensures r == InvalOffset ==> bufPresent && action in {ActionRead, ActionWrite} && mode in {DriverMode, I2cMode} && offset < 0
    ensures bufPresent && action in {ActionRead, ActionWrite} && mode !in {DriverMode, I2cMode} ==> r == InvalMode
    ensures bufPresent && action in {ActionRead, ActionWrite} && mode in {DriverMode, I2cMode} && offset < 0 ==>
      r == InvalOffset
    ensures r == InvalSize ==> 0 <= offset
  {
    if !bufPresent then NullPtr
    else if action != ActionRead && action != ActionWrite then NoSuchFunction
    else if mode != I2cMode && mode != DriverMode then InvalMode
    else if offset < 0 then InvalOffset
    else if ToInt32(offset + size) > EepromSize then InvalSize
    else Success
  }

  /** Without overflow, the check accepts exactly the transfers inside the chip. */
  lemma AcceptedIffValid(bufPresent: bool, action: int, mode: int, offset: int, size: int)
    requires IsInt32(offset) && IsInt32(size) && IsInt32(offset + size)
    ensures CheckIoParams(bufPresent, action, mode, offset, size) == Success <==>
      ValidIo(bufPresent, action, mode, offset, size)
    ensures CheckIoParams(bufPresent, action, mode, offset, size) == InvalSize <==>
      (bufPresent && action in {ActionRead, ActionWrite} && mode in {DriverMode, I2cMode}
       && 0 <= offset && offset + size > EepromSize)
  {
  }

  /** A range that ends exactly at the last byte is accepted; one byte further is not. */
  lemma LastByteBoundary(action: int, mode: int, offset: int)
    requires action in {ActionRead, ActionWrite} && mode in {DriverMode, I2cMode}
    requires 0 <= offset <= EepromSize
    ensures CheckIoParams(true, action, mode, offset, EepromSize - offset) == Success
    ensures CheckIoParams(true, action, mode, offset, EepromSize - offset + 1) == InvalSize
  {
  }

  /** A negative size passes the check. */
  lemma NegativeSizeAccepted(action: int, mode: int, offset: int, size: int)
    requires action in {ActionRead, ActionWrite} && mode in {DriverMode, I2cMode}
    requires 0 <= offset <= EepromSize && -0x8000_0000 <= size < 0
    ensures CheckIoParams(true, action, mode, offset, size) == Success
  {
  }

  /** A size so large that `offset + size` wraps below zero passes the check too. */
  lemma WrappedSizeAccepted(action: int, mode: int)
    requires action in {ActionRead, ActionWrite} && mode in {DriverMode, I2cMode}
    ensures CheckIoParams(true, action, mode, 1, 0x7fff_ffff) == Success
    ensures !ValidIo(true, action, mode, 1, 0x7fff_ffff)
  {
  }

  /* ---------------- the test in eeprom_do_io ---------------- */

  /** What `eeprom_do_io` does with the result of `check_io_params`: `Some(code)` when
      it returns at once, `None` when it goes on to open the device. As written the
      test is `res < 0`, which no code of `check_io_params` meets. */
  function IoGate(res: int): (r: Option<int>)
    ensures r.Some? ==> r.value == res && res < 0
  {
    if res < 0 then Some(res) else None
  }

  /** As written, every argument error, a missing buffer included, reaches the device. */
  lemma GateLetsErrorsThrough(bufPresent: bool, action: int, mode: int, offset: int, size: int)
    requires IsInt32(offset) && IsInt32(size)
    ensures IoGate(CheckIoParams(bufPresent, action, mode, offset, size)).None?
  {
  }

  /** The test as the error codes require it: any non-zero result is returned. */
  function IoGateChecked(res: int): (r: Option<int>)
    ensures r.None? <==> res == Success
    ensures r.Some? ==> r.value == res
  {
    if res != Success then Some(res) else None
  }

  /** With that test the device is opened exactly for valid transfers, and a
      rejected one reports the code of the first failing check. */
  lemma CheckedGateStopsErrors(bufPresent: bool, action: int, mode: int, offset: int, size: int)
    requires IsInt32(offset) && IsInt32(size) && IsInt32(offset + size)
    ensures IoGateChecked(CheckIoParams(bufPresent, action, mode, offset, size)).None? <==>
      ValidIo(bufPresent, action, mode, offset, size)
    ensures !bufPresent ==> IoGateChecked(CheckIoParams(bufPresent, action, mode, offset, size)) == Some(NullPtr)
  {
    AcceptedIffValid(bufPresent, action, mode, offset, size);
  }
}
