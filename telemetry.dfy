/**
 * Decoding of the desk's position telemetry: the raw sample is the first
 * unsigned 16-bit word of the characteristic's value (little-endian host),
 * and the height is `Math.round(381 / 3815 * raw + lowestPosMm)`, computed
 * here exactly over the integers. `Math.round(x)` is `floor(x + 1/2)`.
 */
module Telemetry {
  import opened Wrappers
  import opened JsValues

  type Byte = b: int | 0 <= b < 256

  /** Slope of the calibration: 381 mm of travel per 3815 raw units. */
  const SlopeNum: int := 381
  const SlopeDen: int := 3815

  /** Largest raw sample a 16-bit word holds. */
  const MaxRaw: int := 65535

  /** Element 0 of `new Uint16Array(buffer)`. */
  datatype Sample = Word(v: int) | Undefined

  /** `new Uint16Array(buffer)` throws a RangeError on an odd byte length. */
  datatype ReadError = OddLengthBuffer

  function BufferToNum(buff: seq<Byte>): (r: Result<Sample, ReadError>)
    ensures r.Failure? <==> |buff| % 2 == 1
    ensures r == Success(Undefined) <==> |buff| == 0
    ensures r.Success? && r.value.Word? ==> 0 <= r.value.v <= MaxRaw
    ensures 2 <= |buff| && |buff| % 2 == 0 ==> r == Success(Word(buff[0] as int + 256 * (buff[1] as int)))
  {
    if |buff| % 2 == 1 then Failure(OddLengthBuffer)
    else if |buff| == 0 then Success(Undefined)
    else Success(Word(buff[0] as int + 256 * (buff[1] as int)))
  }

  /** The little-endian encoding of a 16-bit word. */
  function EncodeWord(v: int): (bytes: seq<Byte>)
    requires 0 <= v <= MaxRaw
    ensures |bytes| == 2
  {
    [v % 256, v / 256]
  }

  /** The word at the front of a buffer is decoded whatever follows it. */
  lemma BufferToNumReadsFirstWord(v: int, rest: seq<Byte>)
    requires 0 <= v <= MaxRaw
    requires |rest| % 2 == 0
    ensures BufferToNum(EncodeWord(v) + rest) == Success(Word(v))
  {
  }

  /**
   * The height in mm for raw sample `value` and calibration offset `offset`:
   * `floor((2*381*value + 2*3815*offset + 3815) / (2*3815))`.
   * Its contract says it is the nearest integer to `381*value/3815 + offset`,
   * halves going up.
   */
  function PositionToMm(value: int, offset: int): (mm: int)
    ensures 2 * SlopeDen * mm - SlopeDen <= 2 * (SlopeNum * value + SlopeDen * offset)
    ensures 2 * (SlopeNum * value + SlopeDen * offset) < 2 * SlopeDen * mm + SlopeDen
  {
    (2 * SlopeNum * value + 2 * SlopeDen * offset + SlopeDen) / (2 * SlopeDen)
  }

  /** Round half down: the nearest integer, halves going down. */
  function PositionToMmHalfDown(value: int, offset: int): (mm: int)
    ensures 2 * SlopeDen * mm - SlopeDen < 2 * (SlopeNum * value + SlopeDen * offset)
    ensures 2 * (SlopeNum * value + SlopeDen * offset) <= 2 * SlopeDen * mm + SlopeDen
  {
    -((SlopeDen - 2 * SlopeNum * value - 2 * SlopeDen * offset) / (2 * SlopeDen))
  }

  /** `positionToMm` as JavaScript evaluates it: an undefined sample or a NaN offset gives NaN. */
  function PositionToMmJs(sample: Sample, offset: Number): (mm: Number)
    ensures mm.Finite? <==> sample.Word? && offset.Finite?
    ensures mm.Finite? ==> mm.n == PositionToMm(sample.v, offset.n)
  {
    if sample.Word? && offset.Finite? then Finite(PositionToMm(sample.v, offset.n)) else NaN
  }

  /** `bufferPositionToMm`: decode the buffer, then calibrate. */
  function BufferPositionToMm(buff: seq<Byte>, offset: Number): (r: Result<Number, ReadError>)
    ensures r.Failure? <==> |buff| % 2 == 1
    ensures |buff| == 0 ==> r == Success(NaN)
    ensures 2 <= |buff| && |buff| % 2 == 0 && offset.Finite? ==>
      r == Success(Finite(PositionToMm(buff[0] as int + 256 * (buff[1] as int), offset.n)))
    ensures |buff| % 2 == 0 && offset.NaN? ==> r == Success(NaN)
  {
    match BufferToNum(buff)
    case Failure(e) => Failure(e)
    case Success(sample) => Success(PositionToMmJs(sample, offset))
  }

  /** Twice the exact height, in units of 1/3815 mm, is even; an exact half would be odd. */
  lemma NeverHalf(value: int, offset: int, k: int)
    ensures 2 * (SlopeNum * value + SlopeDen * offset) != SlopeDen * (2 * k + 1)
  {
    var lhs := 2 * (SlopeNum * value + SlopeDen * offset);
    var rhs := SlopeDen * (2 * k + 1);
    assert lhs % 2 == 0;
    assert rhs == 2 * (SlopeDen * k + 1907) + 1;
    assert rhs % 2 == 1;
  }

  /** Since no exact half occurs, the tie-breaking rule of the rounding does not matter. */
  lemma TieRuleIrrelevant(value: int, offset: int)
    ensures PositionToMm(value, offset) == PositionToMmHalfDown(value, offset)
  {
    var up := PositionToMm(value, offset);
    var down := PositionToMmHalfDown(value, offset);
    if up != down {
      NeverHalf(value, offset, down);
      NeverHalf(value, offset, up - 1);
    }
  }

  lemma PositionAtZero(offset: int)
    ensures PositionToMm(0, offset) == offset
  {
  }

  lemma PositionMonotone(v1: int, v2: int, offset: int)
    requires v1 <= v2
    ensures PositionToMm(v1, offset) <= PositionToMm(v2, offset)
  {
  }

  /** Over the 16-bit range the height lies between the offset and the offset plus 6545 mm. */
  lemma PositionRange(value: int, offset: int)
    requires 0 <= value <= MaxRaw
    ensures offset <= PositionToMm(value, offset) <= offset + 6545
    ensures PositionToMm(MaxRaw, offset) == offset + 6545
  {
    PositionMonotone(0, value, offset);
    PositionMonotone(value, MaxRaw, offset);
  }

  /** A larger offset lifts the height by exactly that many millimetres. */
  lemma PositionShift(value: int, offset: int, d: int)
    ensures PositionToMm(value, offset + d) == PositionToMm(value, offset) + d
  {
  }
}
