/** The species record served by the listing service, and the text of each field. */
module Species {

  /** One row of the species list, as fetched. */
  datatype Label = Label(
    burungId: int,
    labelsName: string,
    indoName: string,
    englishName: string,
    latinName: string,
    endemik: string,
    statusPerlindungan: string)

  /** The keys of a `Label` (`keyof Label`), any of which may be the sort key. */
  datatype Field =
    | BurungId
    | LabelsName
    | IndoName
    | EnglishName
    | LatinName
    | Endemik
    | StatusPerlindungan

  function DigitChar(d: nat): char
    requires d < 10
  {
    ('0' as int + d) as char
  }

  predicate IsDigit(c: char) {
    '0' <= c <= '9'
  }

  /** Decimal digits of `n`, most significant first, no leading zero. */
  function NatToString(n: nat): (r: string)
    ensures r != []
    ensures forall i :: 0 <= i < |r| ==> IsDigit(r[i])
    ensures r[0] == '0' ==> r == "0"
    decreases n
  {
    if n < 10 then [DigitChar(n)] else NatToString(n / 10) + [DigitChar(n % 10)]
  }

  /** The number a string of decimal digits denotes. */
  function DigitsValue(s: string): nat
    requires forall i :: 0 <= i < |s| ==> IsDigit(s[i])
  {
    if s == [] then 0
    else
      assert IsDigit(s[|s| - 1]);
      DigitsValue(s[..|s| - 1]) * 10 + (s[|s| - 1] as int - '0' as int)
  }

  /** Reading the decimal rendering back gives the number: `toString` loses nothing. */
  lemma {:induction false} NatToStringRoundTrip(n: nat)
    ensures DigitsValue(NatToString(n)) == n
  {
    if n >= 10 {
      var s := NatToString(n);
      assert s[..|s| - 1] == NatToString(n / 10);
      NatToStringRoundTrip(n / 10);
    }
  }

  /**
   * `Number.prototype.toString()` for an integral id: a minus sign for a
   * negative id, then the digits of its magnitude.
   */
  function IntToString(n: int): (r: string)
    ensures r != [] && (r[0] == '-' <==> n < 0)
    ensures n < 0 ==> r[1..] == NatToString(-n)
    ensures 0 <= n ==> r == NatToString(n)
  {
    if n < 0 then "-" + NatToString(-n) else NatToString(n)
  }

  /** Different ids print differently, so the id's text identifies it. */
  lemma IntToStringInjective(a: int, b: int)
    requires IntToString(a) == IntToString(b)
    ensures a == b
  {
    var s := IntToString(a);
    if a < 0 {
      NatToStringRoundTrip(-a);
      NatToStringRoundTrip(-b);
      assert NatToString(-a) == s[1..] == NatToString(-b);
    } else {
      NatToStringRoundTrip(a);
      NatToStringRoundTrip(b);
    }
  }

  /** `label[key].toString()`: a string field as it is, the id as its decimal text. */
  function FieldText(l: Label, f: Field): (r: string)
    ensures f == BurungId ==> r == IntToString(l.burungId)
    ensures f == LabelsName ==> r == l.labelsName
    ensures f == IndoName ==> r == l.indoName
    ensures f == EnglishName ==> r == l.englishName
    ensures f == LatinName ==> r == l.latinName
    ensures f == Endemik ==> r == l.endemik
    ensures f == StatusPerlindungan ==> r == l.statusPerlindungan
  {
    match f
    case BurungId => IntToString(l.burungId)
    case LabelsName => l.labelsName
    case IndoName => l.indoName
    case EnglishName => l.englishName
    case LatinName => l.latinName
    case Endemik => l.endemik
    case StatusPerlindungan => l.statusPerlindungan
  }
}
