/** Values stored in the attribute dictionaries of nodes and edges, the
    exceptions the Python code can raise, and Python's str() on values. */
module Values {

  datatype Option<+T> = None | Some(value: T) {
    function GetOr(default: T): T {
      match this
      case Some(v) => v
      case None => default
    }
  }

  datatype Result<+T, +E> = Ok(value: T) | Err(error: E)

  /** The Python exception an operation would raise. */
  datatype Error = KeyError | IndexError | ValueError | TypeError | AttributeError

  /** Outcome of an operation that returns nothing on success. */
  datatype Outcome = Pass | Fail(error: Error)

  /** An attribute value: None, a string, an integer or a list of strings. */
  datatype Value = Nil | Str(s: string) | Int(i: int) | Strs(items: seq<string>)

  /** An attribute dictionary. */
  type Attrs = map<string, Value>

  /** Decimal digits of a natural number, most significant first. */
  function Digits(n: nat): string
    decreases n
  {
    if n < 10 then [Digit(n)] else Digits(n / 10) + [Digit(n % 10)]
  }

  function Digit(d: nat): char
    requires d < 10
  {
    "0123456789"[d]
  }

  /** Python's str(i) for an integer. */
  function Decimal(i: int): string {
    if i < 0 then "-" + Digits(-i) else Digits(i)
  }

  /** Python's ", ".join(repr(s) for s in items), for strings that need no escaping. */
  function ReprItems(items: seq<string>): string
    decreases |items|
  {
    if items == [] then ""
    else if |items| == 1 then "'" + items[0] + "'"
    else "'" + items[0] + "', " + ReprItems(items[1..])
  }

  /** Python's str(v). */
  function Render(v: Value): string {
    match v
    case Nil => "None"
    case Str(s) => s
    case Int(i) => Decimal(i)
    case Strs(items) => "[" + ReprItems(items) + "]"
  }
}
