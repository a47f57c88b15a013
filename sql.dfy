/**
 * The few pieces of SQLite's semantics that the statements of the NOTE table
 * depend on: nullable values, three-valued comparison logic, and the text an
 * integer becomes when it is compared with a TEXT column.
 */
module Sql {

  /** A nullable column or parameter: `None` is SQL NULL. */
  datatype Option<T> = None | Some(value: T)

  /** SQL's three truth values; a WHERE clause keeps a row only on `True`. */
  datatype Truth = True | False | Unknown

  function FromBool(b: bool): (r: Truth)
    ensures r != Unknown
    ensures r == True <==> b
  {
    if b then True else False
  }

  /** Kleene conjunction, as SQL evaluates `AND`. */
  function And(a: Truth, b: Truth): (r: Truth)
    ensures r == True <==> a == True && b == True
    ensures r == False <==> a == False || b == False
  {
    match (a, b)
    case (False, _) => False
    case (_, False) => False
    case (True, True) => True
    case _ => Unknown
  }

  /** Kleene disjunction, as SQL evaluates `OR`. */
  function Or(a: Truth, b: Truth): (r: Truth)
    ensures r == True <==> a == True || b == True
    ensures r == False <==> a == False && b == False
  {
    match (a, b)
    case (True, _) => True
    case (_, True) => True
    case (False, False) => False
    case _ => Unknown
  }

  /** `x = y` (also spelled `x == y`) on nullable operands: NULL on either side gives Unknown. */
  function Equal<T(==)>(x: Option<T>, y: Option<T>): (r: Truth)
    ensures r == Unknown <==> x.None? || y.None?
    ensures r == True <==> x.Some? && y.Some? && x.value == y.value
  {
    if x.None? || y.None? then Unknown else FromBool(x.value == y.value)
  }

  /** `x != y` on nullable operands. */
  function NotEqual<T(==)>(x: Option<T>, y: Option<T>): (r: Truth)
    ensures r == Unknown <==> x.None? || y.None?
    ensures r == True <==> x.Some? && y.Some? && x.value != y.value
  {
    if x.None? || y.None? then Unknown else FromBool(x.value != y.value)
  }

  /** `x IS NULL`, which unlike `x = NULL` is never Unknown. */
  function IsNull<T>(x: Option<T>): (r: Truth)
    ensures r == True <==> x.None?
    ensures r == False <==> x.Some?
  {
    FromBool(x.None?)
  }

  function DigitChar(d: nat): (c: char)
    requires d < 10
    ensures '0' <= c <= '9'
  {
    (('0' as int) + d) as char
  }

  /** Decimal digits of a natural number, most significant first. */
  function Digits(n: nat): (s: string)
    ensures |s| >= 1
    ensures forall i | 0 <= i < |s| :: '0' <= s[i] <= '9'
    decreases n
  {
    if n < 10 then [DigitChar(n)] else Digits(n / 10) + [DigitChar(n % 10)]
  }

  /**
   * The text SQLite compares against when an integer parameter meets a TEXT
   * column: an optional minus sign followed by decimal digits.
   */
  function IntegerText(i: int): (s: string)
    ensures |s| >= 1
    ensures s[0] == '-' || '0' <= s[0] <= '9'
  {
    if i < 0 then "-" + Digits(-i) else Digits(i)
  }
}
