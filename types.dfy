/** Values shared by the on-screen-keyboard dialog model: machine integer
    types, the two guest parameter blocks, the utility status, the
    controller buttons and the result codes. */
module OskTypes {

  /** An unsigned 32-bit guest word (addresses, limits, lengths). */
  newtype u32 = x: int | 0 <= x < 0x1_0000_0000

  /** An unsigned 16-bit guest unit (one UCS-2 code unit). */
  newtype u16 = x: int | 0 <= x < 0x1_0000

  /** One byte of host text. */
  newtype u8 = x: int | 0 <= x < 0x100

  const U32Modulus: int := 0x1_0000_0000

  datatype Option<T> = None | Some(value: T)

  /** The status of a utility dialog, as the guest observes it. */
  datatype Status =
    | StatusNone
    | StatusInitialize
    | StatusRunning
    | StatusFinished
    | StatusShutdown

  /** The fade the dialog last asked its base dialog to start: the
      entrance fade after a successful Init, the exit fade on Start. */
  datatype FadeRequest = NoFade | FadeIn | FadeOut

  /** The controller buttons the dialog reacts to. */
  datatype Button = Up | Down | Left | Right | Cross | Circle | Select | Start

  /** The top-level parameter block the guest hands to Init. Only the
      fields this dialog reads or writes are named; `otherFields` carries
      every other field unchanged (the empty sequence stands for the
      all-zero fields of a cleared block). */
  datatype ParamsBlock = ParamsBlock(baseResult: int, dataPtr: u32, otherFields: seq<int>)

  /** The nested data block the parameter block points to. */
  datatype DataBlock = DataBlock(
    descPtr: u32,
    intextPtr: u32,
    outtextPtr: u32,
    outtextlimit: u32,
    outtextlength: u32,
    result: int,
    otherFields: seq<int>)

  /** The blocks as the dialog clears them before reading the guest's. */
  const ZeroParams := ParamsBlock(0, 0, [])
  const ZeroData := DataBlock(0, 0, 0, 0, 0, 0, [])

  /** Result code stored in the data block on every Update: text changed. */
  const OskResultChanged: int := 2

  /** Init return codes, as the signed 32-bit int Init returns: success,
      the generic failure for an invalid parameter address, and the
      utility "invalid status" error, whose bit pattern 0x80110001 reads
      as a negative int. */
  const InitOk: int := 0
  const InitBadAddress: int := -1
  const ErrorUtilityInvalidStatus: int := 0x8011_0001 - 0x1_0000_0000
}
