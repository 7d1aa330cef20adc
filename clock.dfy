/** A reading of the UTC clock, as `datetime.datetime.utcnow()` returns it, and the decimal
    fields `strftime` prints it with. */
module Clock {

  /** A calendar date and time of day with microseconds (no time zone: the reading is UTC). */
  datatype DateTime = DateTime(year: nat, month: nat, day: nat,
                               hour: nat, minute: nat, second: nat, microsecond: nat)
  {
    /** The ranges `datetime.datetime` enforces on its fields. */
    predicate Valid()
    {
      && 1 <= year <= 9999 && 1 <= month <= 12 && 1 <= day <= 31
      && hour < 24 && minute < 60 && second < 60 && microsecond < 1000000
    }

    /** Two readings that agree down to the second (they may differ in microseconds). */
    predicate SameSecond(other: DateTime)
    {
      && year == other.year && month == other.month && day == other.day
      && hour == other.hour && minute == other.minute && second == other.second
    }
  }

  function Pow10(n: nat): nat
  {
    if n == 0 then 1 else 10 * Pow10(n - 1)
  }

  function DigitChar(d: nat): char
    requires d < 10
  {
    (('0' as int) + d) as char
  }

  /** `n` in decimal in exactly `width` characters: zero-padded on the left, as the `%Y`,
      `%m`, `%d`, `%H`, `%M` and `%S` fields print it, and keeping only the last `width`
      digits of a larger number. */
  function Digits(n: nat, width: nat): (s: string)
    ensures |s| == width
    ensures forall i :: 0 <= i < |s| ==> '0' <= s[i] <= '9'
  {
    if width == 0 then [] else Digits(n / 10, width - 1) + [DigitChar(n % 10)]
  }

  /** Numbers below `10^width` have distinct `width`-digit renderings. */
  lemma {:induction false} DigitsInjective(m: nat, n: nat, width: nat)
    requires m < Pow10(width) && n < Pow10(width)
    requires Digits(m, width) == Digits(n, width)
    ensures m == n
  {
    if width > 0 {
      var dm, dn := Digits(m / 10, width - 1), Digits(n / 10, width - 1);
      assert dm + [DigitChar(m % 10)] == dn + [DigitChar(n % 10)];
      assert dm == Digits(m, width)[..width - 1] == dn;
      assert DigitChar(m % 10) == Digits(m, width)[width - 1] == DigitChar(n % 10);
      DigitsInjective(m / 10, n / 10, width - 1);
    }
  }

  /** Equal concatenations whose right parts have equal lengths have equal parts. */
  lemma ConcatCancel(x: string, y: string, x': string, y': string)
    requires |y| == |y'| && x + y == x' + y'
    ensures x == x' && y == y'
  {
    assert x == (x + y)[..|x|] && x' == (x' + y')[..|x'|];
    assert y == (x + y)[|x|..] && y' == (x' + y')[|x'|..];
  }
}
