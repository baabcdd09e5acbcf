/**
 * Shared data model of the QR encoder: the value types of src/types.ts, the
 * error conditions the pipeline can raise, and a Result wrapper standing in
 * for JavaScript exceptions.
 */
module Types {

  /** Error-correction level of a symbol (src/types.ts). */
  datatype ErrorCorrectionLevel = L | M | Q | H

  /** Encoding mode. Kanji exists in the tables but the mode selector never picks it. */
  datatype QRMode = Numeric | Alphanumeric | Byte | Kanji

  /** One row of the static version table. */
  datatype VersionInfo = VersionInfo(
    version: nat,
    totalCodewords: nat,
    errorCorrectionCodewords: nat,
    dataCodewords: nat,
    blocks: nat,
    size: nat)

  /**
   * The options record after the generator's constructor has filled in its
   * defaults. `version == 0` means "choose automatically".
   */
  datatype QRCodeOptions = QRCodeOptions(errorCorrectionLevel: ErrorCorrectionLevel, version: int)

  /** The record a successful `generate` call returns. */
  datatype QRCodeData = QRCodeData(
    modules: array2<bool>,
    version: int,
    size: int,
    errorCorrectionLevel: ErrorCorrectionLevel)

  /** Everything the pipeline can throw. */
  datatype Error =
    | DataTooLarge                 // no version 1..40 holds the estimated bit count
    | InvalidVersion(version: int) // no version-table row for the requested version
    | UnsupportedMode(mode: QRMode)
    | InvalidMaskPattern(pattern: int)
    | DivisionByZero
    | NegativeRepeat(count: int)   // "0".repeat(count) with count < 0 throws a RangeError
    | RowOutOfRange(row: int)      // matrix[row] is undefined: writing into it throws a TypeError

  datatype Result<T> = Ok(value: T) | Err(error: Error) {
    predicate IsFailure() { Err? }
    function PropagateFailure<U>(): Result<U>
      requires Err?
    {
      Err(error)
    }
    function Extract(): T
      requires Ok?
    {
      value
    }
  }

  /** A JavaScript number known to hold a byte value. */
  type byte = x: int | 0 <= x < 256

  /** A string over the characters '0' and '1'. */
  predicate IsBits(s: string) {
    forall i :: 0 <= i < |s| ==> s[i] == '0' || s[i] == '1'
  }
}
