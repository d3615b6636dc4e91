/** The thin surface the civil types share with encoding.TextMarshaler,
    encoding.TextUnmarshaler, database/sql's Scanner and driver.Valuer: text as
    bytes, the kinds of value Scan can receive, the errors the adapters return,
    and the (value, error) pair the parse functions return. */
module Driver {

  import opened Wrappers
  import TimeParse

  newtype byte = b: int | 0 <= b < 256

  /** string(b): each byte becomes the character with that code. */
  function Text(b: seq<byte>): (s: string)
    ensures |s| == |b|
    ensures forall i | 0 <= i < |b| :: s[i] as int == b[i] as int
  {
    seq(|b|, i requires 0 <= i < |b| => b[i] as int as char)
  }

  predicate IsAscii(s: string) {
    forall i | 0 <= i < |s| :: s[i] as int < 128
  }

  /** []byte(s) for ASCII text, where UTF-8 keeps one byte per character. */
  function Bytes(s: string): (b: seq<byte>)
    requires IsAscii(s)
    ensures |b| == |s|
    ensures Text(b) == s
  {
    seq(|s|, i requires 0 <= i < |s| => s[i] as int as byte)
  }

  /** What database/sql hands to Scan: NULL, a byte slice, a string, or a
      value of any other Go type. */
  datatype ScanValue = Nil | BytesValue(bytes: seq<byte>) | StringValue(str: string) | Other

  /** The errors the adapters return: a parse error passed through, or
      "Can't convert %T to ..." for an unsupported Scan input. */
  datatype Error = ParseFailed(parse: TimeParse.ParseError) | ConversionTypeError

  /** The (value, error) pair ParseDate, ParseTime and ParseDateTime return. */
  datatype Parsed<T> = Parsed(value: T, err: Option<TimeParse.ParseError>)

  /** driver.Value: a string, or nil. */
  type DriverValue = Option<string>

  /** The text a Scan input of a supported kind carries. */
  function ScanText(v: ScanValue): string
    requires v.BytesValue? || v.StringValue?
  {
    if v.BytesValue? then Text(v.bytes) else v.str
  }
}
