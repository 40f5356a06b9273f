/** Cell values of a standings table, and the text order used for team names. */
module Cells {

  /**
   * A cell as the table reader delivers it: a number, a text that does not
   * read as a number, or an empty cell (pandas' NaN).
   */
  datatype Cell = Num(n: int) | Text(s: string) | Missing

  /** A row maps each column name of the table to its cell. */
  type Row = map<string, Cell>

  /** The value an unusable ranking cell is replaced with: -10**9. */
  const WORST: int := -1000000000

  /** Numeric coercion of one cell (Assignment1.py:50): a number stays, anything else becomes WORST. */
  function ToNumeric(c: Cell): Cell
  {
    if c.Num? then c else Num(WORST)
  }

  lemma ToNumericMeaning(c: Cell)
    ensures ToNumeric(c).Num?
    ensures c.Num? ==> ToNumeric(c) == c
    ensures !c.Num? ==> ToNumeric(c).n == WORST
    ensures ToNumeric(ToNumeric(c)) == ToNumeric(c)
  {
  }

  function DigitChar(d: int): char
    requires 0 <= d < 10
  {
    "0123456789"[d]
  }

  /** Decimal digits of a natural number, most significant first. */
  function NatText(n: nat): string
    decreases n
  {
    if n < 10 then [DigitChar(n)] else NatText(n / 10) + [DigitChar(n % 10)]
  }

  /** Python's `str()` of a cell. */
  function CellText(c: Cell): string
  {
    match c
    case Text(s) => s
    case Num(n) => if n < 0 then "-" + NatText(-n) else NatText(n)
    case Missing => "nan"
  }

  /** Python's `<` on strings: lexicographic by code point, a proper prefix first. */
  predicate LexLess(s: string, t: string)
    decreases |s|
  {
    if |s| == 0 then |t| > 0
    else if |t| == 0 then false
    else if s[0] != t[0] then s[0] < t[0]
    else LexLess(s[1..], t[1..])
  }

  lemma {:induction false} LexLessIrreflexive(s: string)
    ensures !LexLess(s, s)
    decreases |s|
  {
    if |s| > 0 {
      LexLessIrreflexive(s[1..]);
    }
  }

  lemma {:induction false} LexLessTransitive(s: string, t: string, u: string)
    ensures LexLess(s, t) && LexLess(t, u) ==> LexLess(s, u)
    decreases |s|
  {
    if |s| > 0 && |t| > 0 && |u| > 0 && s[0] == t[0] && t[0] == u[0] {
      LexLessTransitive(s[1..], t[1..], u[1..]);
    }
  }

  /** Any two different strings are ordered one way or the other. */
  lemma {:induction false} LexLessTotal(s: string, t: string)
    ensures s == t || LexLess(s, t) || LexLess(t, s)
    decreases |s|
  {
    if |s| > 0 && |t| > 0 && s[0] == t[0] {
      LexLessTotal(s[1..], t[1..]);
      if s[1..] == t[1..] {
        assert s == [s[0]] + s[1..] && t == [t[0]] + t[1..];
      }
    }
  }

  lemma {:induction false} LexLessAsymmetric(s: string, t: string)
    requires LexLess(s, t)
    ensures !LexLess(t, s)
  {
    LexLessTransitive(s, t, s);
    LexLessIrreflexive(s);
  }
}
