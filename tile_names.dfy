/** Output file names `"{i}.png"`: the tile index written in decimal (as
    C#'s `int.ToString` writes a non-negative number) followed by ".png". */
module TileNames {

  predicate IsDigit(ch: char) {
    '0' <= ch <= '9'
  }

  predicate AllDigits(s: string) {
    forall k :: 0 <= k < |s| ==> IsDigit(s[k])
  }

  function DigitChar(d: nat): (ch: char)
    requires d < 10
    ensures IsDigit(ch) && ch as int - '0' as int == d
  {
    ('0' as int + d) as char
  }

  /** Decimal rendering of `n`: digits only, and no leading zero unless `n`
      itself is zero. */
  function Decimal(n: nat): (s: string)
    ensures |s| >= 1 && AllDigits(s)
    ensures |s| == 1 <==> n < 10
    ensures |s| > 1 ==> s[0] != '0'
  {
    if n < 10 then [DigitChar(n)] else Decimal(n / 10) + [DigitChar(n % 10)]
  }

  /** The number a string of decimal digits denotes. */
  function DigitsValue(s: string): nat
    requires AllDigits(s)
  {
    if s == [] then 0 else DigitsValue(s[..|s| - 1]) * 10 + (s[|s| - 1] as int - '0' as int)
  }

  /** Reading back a decimal rendering gives the number rendered. */
  lemma {:induction false} DecimalRoundTrip(n: nat)
    ensures DigitsValue(Decimal(n)) == n
  {
    if n >= 10 {
      var s := Decimal(n);
      assert s[..|s| - 1] == Decimal(n / 10);
      DecimalRoundTrip(n / 10);
    }
  }

  /** The file a tile is saved as. */
  function FileName(index: nat): (name: string)
    ensures |name| > 4 && name[|name| - 4..] == ".png" && AllDigits(name[..|name| - 4])
    ensures DigitsValue(name[..|name| - 4]) == index
  {
    var digits := Decimal(index);
    DecimalRoundTrip(index);
    assert (digits + ".png")[..|digits|] == digits;
    digits + ".png"
  }

  /** Different tiles are saved under different names, so no tile file
      overwrites another. */
  lemma FileNamesDistinct(i: nat, j: nat)
    requires i != j
    ensures FileName(i) != FileName(j)
  {
  }
}
