/** SQL values and rows. A string has one character for each byte of the Go string it stands for. */
module Cells {

  datatype Result<+T> = Ok(value: T) | Err

  /**
   What evaluating part of a query gives. Errors whose text says that something was not found are kept apart from the
   others, because a comparison reads such an operand as NULL.
   */
  datatype Outcome<+T> = Done(value: T) | NotFound | Failed {
    function Rethrow<U>(): Outcome<U>
      requires !Done?
    {
      if NotFound? then NotFound else Failed
    }
  }

  /** A `Count` is what COUNT gives: a number of a Go type of its own, which no row can store. */
  datatype Cell = Null | Int(n: int) | Real(r: real) | Text(s: string) | Bool(b: bool) | Time(t: int) | Count(size: nat)

  /** A row can store anything but NULL and a COUNT; a column inserted as NULL is kept apart from that. */
  predicate CanStore(c: Cell) { !c.Null? && !c.Count? }

  /** A column that was not given a value is absent; one given NULL is present. */
  type Row = map<string, Cell>

  datatype Number = Num(r: real) | NotANumber

  /** How text is read as a number, a call outside this model. */
  type Parse = string -> Number

  /** The number a value stands for in comparisons and aggregates; numeric text counts as its number. */
  function NumericValue(parse: Parse, c: Cell): Number {
    match c
    case Int(n) => Num(n as real)
    case Count(n) => Num(n as real)
    case Real(r) => Num(r)
    case Text(s) => parse(s)
    case _ => NotANumber
  }
}
