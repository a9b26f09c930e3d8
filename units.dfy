/** Unit conversion and rounding of distances: metres are divided by 1000 and
    the kilometre value is then rounded to two decimals the way pandas'
    `Series.round(2)` does (numpy's round: scale by 100, round half to even,
    scale back), on exact reals. */
module Units {

  /** Metres to kilometres. */
  function ToKm(metres: real): (km: real)
    ensures km * 1000.0 == metres
    ensures metres >= 0.0 ==> km >= 0.0
  {
    metres / 1000.0
  }

  /** Rounds to the nearest integer; a value exactly half-way goes to the even neighbour. */
  function RoundHalfEven(y: real): (n: int)
    ensures (n as real) - 0.5 <= y <= (n as real) + 0.5
    ensures y == (n as real) - 0.5 || y == (n as real) + 0.5 ==> n % 2 == 0
  {
    var f := y.Floor;
    var frac := y - f as real;
    if frac < 0.5 then f
    else if frac > 0.5 then f + 1
    else if f % 2 == 0 then f
    else f + 1
  }

  /** The value rounded to two decimals (hundredths), half to even. */
  function Round2(x: real): (r: real)
  {
    RoundHalfEven(x * 100.0) as real / 100.0
  }

  /** A value is a whole number of hundredths. */
  predicate IsHundredths(r: real)
  {
    (r * 100.0).Floor as real == r * 100.0
  }

  /** Round2 lands on a whole number of hundredths at most half a hundredth away,
      and on a tie it picks the even number of hundredths. */
  lemma Round2Spec(x: real)
    ensures IsHundredths(Round2(x))
    ensures -0.005 <= Round2(x) - x <= 0.005
    ensures Round2(x) - x == 0.005 || Round2(x) - x == -0.005 ==> RoundHalfEven(x * 100.0) % 2 == 0
  {
    var n := RoundHalfEven(x * 100.0);
    assert Round2(x) == n as real / 100.0;
  }

  /** A value that already is a whole number of hundredths is left alone. */
  lemma {:induction false} Round2OfHundredths(n: int)
    ensures Round2(n as real / 100.0) == n as real / 100.0
  {
    assert (n as real / 100.0) * 100.0 == n as real;
    RoundHalfEvenOfInteger(n);
  }

  lemma RoundHalfEvenOfInteger(n: int)
    ensures RoundHalfEven(n as real) == n
  {
    assert (n as real).Floor == n;
  }

  /** Rounding twice is rounding once: rounding a column that is already rounded changes nothing. */
  lemma {:induction false} Round2Idempotent(x: real)
    ensures Round2(Round2(x)) == Round2(x)
  {
    Round2OfHundredths(RoundHalfEven(x * 100.0));
  }

  /** Rounding half to even never reverses the order of two values. */
  lemma {:induction false} RoundHalfEvenMonotone(a: real, b: real)
    requires a <= b
    ensures RoundHalfEven(a) <= RoundHalfEven(b)
  {
    var m, n := RoundHalfEven(a), RoundHalfEven(b);
    if m > n {
      assert false;
    }
  }

  /** Rounding to two decimals never reverses the order of two distances. */
  lemma {:induction false} Round2Monotone(a: real, b: real)
    requires a <= b
    ensures Round2(a) <= Round2(b)
  {
    RoundHalfEvenMonotone(a * 100.0, b * 100.0);
  }

  /** The stored distance: convert to kilometres first, then round. */
  function StoredKm(metres: real): (km: real)
    ensures metres >= 0.0 ==> km >= 0.0
    ensures -0.005 <= km - metres / 1000.0 <= 0.005
  {
    var km := ToKm(metres);
    Round2Spec(km);
    if metres >= 0.0 then
      Round2Monotone(0.0, km);
      Round2OfHundredths(0);
      Round2(km)
    else
      Round2(km)
  }

  /** 1234.5 m is stored as 1.23 km (1.2345 km rounds down). */
  lemma StoredKmExample()
    ensures StoredKm(1234.5) == 1.23
    ensures StoredKm(3.0) == 0.0
  {
    assert ToKm(1234.5) * 100.0 == 123.45;
    assert (123.45).Floor == 123;
    assert ToKm(3.0) * 100.0 == 0.3;
    assert (0.3).Floor == 0;
  }

  /** On exact reals 1235 m and 1225 m are ties, at 123.5 and 122.5 hundredths, and
      go to the even hundredth: 1.24 km and 1.22 km. In doubles 1225 / 1000 lies just
      above 1.225, so the script itself stores 1.23 for 1225 m. */
  lemma StoredKmTieExample()
    ensures StoredKm(1235.0) == 1.24
    ensures StoredKm(1225.0) == 1.22
  {
    assert ToKm(1235.0) * 100.0 == 123.5;
    assert (123.5).Floor == 123;
    assert ToKm(1225.0) * 100.0 == 122.5;
    assert (122.5).Floor == 122;
  }

  /** Converting and then rounding differs from rounding the metres and then converting. */
  lemma ConvertThenRoundMatters()
    ensures StoredKm(1234.5) != ToKm(Round2(1234.5))
  {
    StoredKmExample();
    assert 1234.5 * 100.0 == 123450.0;
    RoundHalfEvenOfInteger(123450);
    assert Round2(1234.5) == 1234.5;
  }
}
