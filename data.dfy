/**
 * The field codecs of package `data` that a RouterAddress is assembled from
 * (Integer, Date, I2PString, Mapping). Their byte layouts and their error
 * conditions are not part of this model: each codec is a function value in a
 * `Codecs` record, and the only thing assumed of them is `SuffixContract`, that
 * every decoder hands back a suffix of the buffer it was given.
 */
module CommonData {
  import opened Wrappers

  newtype byte = b: int | 0 <= b < 256

  /** A Go `error`; only its message is modelled. */
  datatype Error = Error(message: string)

  /** The value types of package `data`, kept abstract. */
  type Integer
  type Date
  type I2PString
  type Mapping

  /**
   * What one field decoder returns: the pointer it produced (Go's `*Integer`,
   * `*Date`, `*I2PString`, possibly nil), the unconsumed remainder and an error.
   */
  datatype Decoded<T> = Decoded(value: Option<T>, remainder: seq<byte>, err: Option<Error>)

  /** What `NewMapping` returns: its error result is a list. */
  datatype MappingDecoded = MappingDecoded(value: Option<Mapping>, remainder: seq<byte>, errs: seq<Error>)

  /** What `I2PString.Data()` returns: the payload and an error. */
  datatype Payload = Payload(bytes: seq<byte>, err: Option<Error>)

  /** The operations of package `data` that the RouterAddress code calls. */
  datatype Codecs = Codecs(
    newInteger: (seq<byte>, int) -> Decoded<Integer>,
    newDate: seq<byte> -> Decoded<Date>,
    newI2PString: seq<byte> -> Decoded<I2PString>,
    newMapping: seq<byte> -> MappingDecoded,
    integerInt: Integer -> int,
    integerBytes: Integer -> seq<byte>,
    dateBytes: Date -> seq<byte>,
    stringData: I2PString -> Payload)

  /** `s` is what is left of `t` after some prefix of `t` was consumed. */
  predicate IsSuffix(s: seq<byte>, t: seq<byte>)
  {
    |s| <= |t| && s == t[|t| - |s|..]
  }

  /** The one property relied on of every decoder: its remainder is a suffix of its input. */
  ghost predicate SuffixContract(c: Codecs)
  {
    && (forall b, n :: IsSuffix(c.newInteger(b, n).remainder, b))
    && (forall b :: IsSuffix(c.newDate(b).remainder, b))
    && (forall b :: IsSuffix(c.newI2PString(b).remainder, b))
    && (forall b :: IsSuffix(c.newMapping(b).remainder, b))
  }
}
