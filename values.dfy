/** Values found in the cells of a table read from CSV, and Python's int() on them. */
module Values {

  datatype Option<+T> = None | Some(value: T)

  /** A Python value held in a table cell or in a list built from cells. */
  datatype Cell =
    | Int(n: int)       // a Python int
    | Float(x: real)    // a finite Python float
    | NaN               // float('nan'), pandas' marker for an empty cell
    | Str(s: string)    // a Python str
    | Null              // Python None

  /** pandas' isnull: None and NaN are the missing values. */
  predicate IsNA(c: Cell) {
    c == NaN || c == Null
  }

  /** What Python's int(c) does: return an integer, raise ValueError or raise TypeError. */
  datatype Conversion = Converted(n: int) | RaisesValueError | RaisesTypeError

  /** int() on a float truncates toward zero. */
  function Trunc(x: real): (r: int)
    ensures 0.0 <= x ==> 0 <= r && r as real <= x < r as real + 1.0
    ensures x < 0.0 ==> r <= 0 && r as real - 1.0 < x <= r as real
  {
    if x >= 0.0 then x.Floor else -((-x).Floor)
  }

  predicate IsDigit(c: char) {
    '0' <= c <= '9'
  }

  predicate AllDigits(s: string) {
    forall i :: 0 <= i < |s| ==> IsDigit(s[i])
  }

  /** The value of a string of decimal digits, most significant first. */
  function DigitsValue(s: string): nat
    requires AllDigits(s)
  {
    if s == [] then 0 else DigitsValue(s[..|s| - 1]) * 10 + (s[|s| - 1] as int - '0' as int)
  }

  /** int() on a str: an optional sign followed by at least one decimal digit. */
  function ParseInt(s: string): (r: Option<int>)
    ensures r.Some? ==> |s| > 0
    ensures r.Some? && s[0] != '-' ==> r.value >= 0
  {
    if |s| > 1 && (s[0] == '-' || s[0] == '+') && AllDigits(s[1..]) then
      Some(if s[0] == '-' then 0 - DigitsValue(s[1..]) as int else DigitsValue(s[1..]))
    else if |s| > 0 && AllDigits(s) then
      Some(DigitsValue(s))
    else
      None
  }

  /** Python's int(c). */
  function PyInt(c: Cell): (r: Conversion)
    ensures r.RaisesTypeError? <==> c == Null
    ensures r.RaisesValueError? ==> c == NaN || c.Str?
    ensures c == NaN ==> r.RaisesValueError?
    ensures c.Str? ==> (r.RaisesValueError? <==> ParseInt(c.s).None?)
    ensures c.Str? && ParseInt(c.s).Some? ==> r == Converted(ParseInt(c.s).value)
  {
    match c
    case Int(n) => Converted(n)
    case Float(x) => Converted(Trunc(x))
    case NaN => RaisesValueError
    case Str(s) => if ParseInt(s).Some? then Converted(ParseInt(s).value) else RaisesValueError
    case Null => RaisesTypeError
  }

  /** The decimal rendering of a natural number, as str() writes it. */
  function ShowNat(n: nat): (s: string)
    ensures |s| > 0 && AllDigits(s)
  {
    if n < 10 then [('0' as int + n) as char]
    else ShowNat(n / 10) + [('0' as int + n % 10) as char]
  }

  function ShowInt(n: int): string {
    if n < 0 then "-" + ShowNat(-n) else ShowNat(n)
  }

  lemma {:induction false} DigitsValueOfShowNat(n: nat)
    ensures DigitsValue(ShowNat(n)) == n
  {
    if n >= 10 {
      var s := ShowNat(n);
      assert s[..|s| - 1] == ShowNat(n / 10);
      DigitsValueOfShowNat(n / 10);
    }
  }

  /** Every integer written the way str() writes it is read back by int(). */
  lemma ParseShowInt(n: int)
    ensures ParseInt(ShowInt(n)) == Some(n)
    ensures PyInt(Str(ShowInt(n))) == Converted(n)
  {
    if n < 0 {
      assert ShowInt(n)[1..] == ShowNat(-n);
      DigitsValueOfShowNat(-n);
    } else {
      DigitsValueOfShowNat(n);
    }
  }

  /** The two placeholder words of the data are not numbers. */
  lemma PlaceholdersAreNotNumbers()
    ensures PyInt(Str("none")) == RaisesValueError
    ensures PyInt(Str("unknown")) == RaisesValueError
    ensures PyInt(Str("")) == RaisesValueError
  {
    assert !IsDigit('n');
    assert !IsDigit('u');
  }
}
