/** The return-date check of `borrowBook` (the regular expression
    `^\d{2}-\d{2}-\d{4}$` used with `std::regex_match`) and the
    `"%d-%m-%Y"` text of the current date. */
module DateFormat {
  import Decimal

  /** One atom of the expression: `\d` or a literal character. */
  datatype CharClass = AnyDigit | Literal(c: char)

  /** An atom repeated a fixed number of times, as `\d{4}`. */
  datatype Piece = Piece(cls: CharClass, count: nat)

  predicate Accepts(cls: CharClass, c: char) {
    match cls
    case AnyDigit => Decimal.IsDigit(c)
    case Literal(l) => c == l
  }

  /** `^\d{2}-\d{2}-\d{4}$`, piece by piece. */
  const DatePattern: seq<Piece> :=
    [Piece(AnyDigit, 2), Piece(Literal('-'), 1), Piece(AnyDigit, 2), Piece(Literal('-'), 1), Piece(AnyDigit, 4)]

  function PatternLength(p: seq<Piece>): nat {
    if p == [] then 0 else p[0].count + PatternLength(p[1..])
  }

  /** `regex_match`: the whole of `s` is matched by the pieces in order. */
  predicate FullMatch(p: seq<Piece>, s: string)
    decreases |p|
  {
    if p == [] then s == []
    else
      && p[0].count <= |s|
      && (forall i :: 0 <= i < p[0].count ==> Accepts(p[0].cls, s[i]))
      && FullMatch(p[1..], s[p[0].count..])
  }

  predicate IsDateFormat(s: string) {
    FullMatch(DatePattern, s)
  }

  /** A fixed-count pattern only matches strings of its own length. */
  lemma {:induction false} FullMatchLength(p: seq<Piece>, s: string)
    requires FullMatch(p, s)
    ensures |s| == PatternLength(p)
    decreases |p|
  {
    if p != [] {
      FullMatchLength(p[1..], s[p[0].count..]);
    }
  }

  /** The expression accepts exactly the ten-character strings with dashes at
      indices 2 and 5 and decimal digits everywhere else. */
  lemma DateFormatExact(s: string)
    ensures IsDateFormat(s) <==>
      && |s| == 10 && s[2] == '-' && s[5] == '-'
      && forall i :: 0 <= i < 10 && i != 2 && i != 5 ==> Decimal.IsDigit(s[i])
  {
  }

  /** `put_time` with `%d` and `%m`: two digits, zero-padded. */
  function TwoDigits(n: nat): string
    requires n < 100
  {
    [Decimal.DigitChar(n / 10), Decimal.DigitChar(n % 10)]
  }

  /** The current date as `put_time(&local_time, "%d-%m-%Y")` writes it;
      `month` is already one-based. */
  function FormatDate(day: nat, month: nat, year: nat): string
    requires 1 <= day <= 31 && 1 <= month <= 12
  {
    TwoDigits(day) + "-" + TwoDigits(month) + "-" + Decimal.NatToDecimal(year)
  }

  /** The captured date passes the return-date check exactly when the year
      has four digits. */
  lemma FormattedDateIsValid(day: nat, month: nat, year: nat)
    requires 1 <= day <= 31 && 1 <= month <= 12
    ensures IsDateFormat(FormatDate(day, month, year)) <==> 1000 <= year <= 9999
  {
    var s := FormatDate(day, month, year);
    var y := Decimal.NatToDecimal(year);
    Decimal.NatToDecimalDigits(year);
    Decimal.FourDigitNumerals(year);
    DateFormatExact(s);
    assert s[6..] == y;
    if 1000 <= year <= 9999 {
      forall i | 0 <= i < 10 && i != 2 && i != 5 ensures Decimal.IsDigit(s[i]) {
        if i >= 6 {
          assert s[i] == y[i - 6];
        }
      }
    }
  }
}
