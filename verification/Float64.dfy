/**
 float64 arithmetic on non-negative numbers: an operation gives its exact result rounded to 53 significant
 bits, ties to even. Exponents are unbounded here; no value of the limiters comes near the range's ends.
 */
module Float64 {

  const TWO_52 := 0x10_0000_0000_0000
  const TWO_53 := 0x20_0000_0000_0000

  function Nearest(x: real): (n: int)
    ensures -0.5 <= n as real - x <= 0.5
  {
    var rest := x - x.Floor as real;
    if rest < 0.5 || (rest == 0.5 && x.Floor % 2 == 0) then x.Floor else x.Floor + 1
  }

  /** How far x is from having 53 bits before its point. */
  function Distance(x: real): nat
    requires x > 0.0
  {
    if x >= TWO_53 as real then x.Floor
    else if x >= TWO_52 as real then 0
    else 1 + Inverse(x).Floor
  }

  /** 2^53 / x */
  function Inverse(x: real): (r: real)
    requires x > 0.0
    ensures r > 0.0 && r * x == TWO_53 as real
  {
    TWO_53 as real / x
  }

  lemma Nearer(x: real)
    requires x > 0.0
    ensures x >= TWO_53 as real ==> Distance(x / 2.0) < Distance(x)
    ensures x < TWO_52 as real ==> Distance(2.0 * x) < Distance(x)
  {
    if x < TWO_52 as real {
      InverseHalves(x);
      InverseAbove(x);
    }
  }

  lemma InverseHalves(x: real)
    requires x > 0.0
    ensures 2.0 * Inverse(2.0 * x) == Inverse(x)
  {
    var y := Inverse(2.0 * x);
    assert y * (2.0 * x) == (2.0 * y) * x;
    Cancel(2.0 * y, Inverse(x), x);
  }

  lemma Cancel(a: real, b: real, x: real)
    requires x > 0.0 && a * x == b * x
    ensures a == b
  {
  }

  lemma InverseAbove(x: real)
    requires 0.0 < x < TWO_52 as real
    ensures Inverse(x) > 2.0
  {
    AtMostTwice(Inverse(x), x);
  }

  lemma AtMostTwice(y: real, x: real)
    requires x > 0.0
    ensures y <= 2.0 ==> y * x <= 2.0 * x
  {
  }

  function Round(x: real): (r: real)
    requires x >= 0.0
    ensures r >= 0.0 && (x > 0.0 ==> r > 0.0)
    decreases if x == 0.0 then 0 else Distance(x)
  {
    if x == 0.0 then 0.0
    else if x >= TWO_53 as real then
      Nearer(x);
      2.0 * Round(x / 2.0)
    else if x < TWO_52 as real then
      Nearer(x);
      Round(2.0 * x) / 2.0
    else
      Nearest(x) as real
  }

  /** Half a unit in the last place, relative to the number. */
  predicate Close(r: real, x: real) {
    -x <= TWO_53 as real * (r - x) <= x
  }

  lemma {:induction false} RoundClose(x: real)
    requires x >= 0.0
    ensures Close(Round(x), x)
    decreases if x == 0.0 then 0 else Distance(x)
  {
    if x >= TWO_53 as real {
      Nearer(x);
      RoundClose(x / 2.0);
    } else if 0.0 < x < TWO_52 as real {
      Nearer(x);
      RoundClose(2.0 * x);
    }
  }

  lemma RoundTwice(x: real)
    requires x >= 0.0
    ensures Round(2.0 * x) == 2.0 * Round(x)
  {
    assert (2.0 * x) / 2.0 == x;
  }

  // Numbers that are not rounded.

  lemma {:induction false} RoundInt(m: nat)
    requires m <= TWO_53
    ensures Round(m as real) == m as real
    decreases TWO_53 - m
  {
    if 0 < m < TWO_52 {
      RoundInt(2 * m);
      RoundTwice(m as real);
      assert (2 * m) as real == 2.0 * m as real;
    } else if m == TWO_53 {
      assert m as real / 2.0 == TWO_52 as real;
    }
  }

  lemma RoundQuarter(m: nat)
    requires m <= TWO_53
    ensures Round(m as real / 4.0) == m as real / 4.0
  {
    RoundInt(m);
    RoundTwice(m as real / 2.0);
    RoundTwice(m as real / 4.0);
    assert 2.0 * (m as real / 2.0) == m as real;
    assert 2.0 * (m as real / 4.0) == m as real / 2.0;
  }

  /** Rounding twice is rounding once. */
  lemma {:induction false} RoundIdempotent(x: real)
    requires x >= 0.0
    ensures Round(Round(x)) == Round(x)
    decreases if x == 0.0 then 0 else Distance(x)
  {
    if x >= TWO_53 as real {
      Nearer(x);
      RoundIdempotent(x / 2.0);
      RoundTwice(Round(x / 2.0));
    } else if 0.0 < x < TWO_52 as real {
      Nearer(x);
      RoundIdempotent(2.0 * x);
      RoundTwice(Round(x));
      assert 2.0 * Round(x) == Round(2.0 * x);
    } else if x > 0.0 {
      RoundInt(Nearest(x));
    }
  }

  /** x doubled k times. */
  function Doubled(x: real, k: nat): real
    decreases k
  {
    if k == 0 then x else Doubled(2.0 * x, k - 1)
  }

  lemma {:induction false} DoubledMore(x: real, k: nat)
    ensures Doubled(2.0 * x, k) == 2.0 * Doubled(x, k)
    decreases k
  {
    if k > 0 {
      DoubledMore(2.0 * x, k - 1);
    }
  }

  /** A rounded number is an integer over a power of two. */
  lemma {:induction false} RoundIsDyadic(x: real) returns (k: nat, m: int)
    requires x >= 0.0
    ensures Doubled(Round(x), k) == m as real
    decreases if x == 0.0 then 0 else Distance(x)
  {
    if x == 0.0 {
      k, m := 0, 0;
    } else if x >= TWO_53 as real {
      Nearer(x);
      k, m := RoundIsDyadic(x / 2.0);
      DoubledMore(Round(x / 2.0), k);
      m := 2 * m;
    } else if x < TWO_52 as real {
      Nearer(x);
      k, m := RoundIsDyadic(2.0 * x);
      assert 2.0 * Round(x) == Round(2.0 * x);
      k := k + 1;
    } else {
      k, m := 0, Nearest(x);
    }
  }

  /** Rounding commutes with doubling any number of times. */
  lemma {:induction false} RoundDoubled(x: real, k: nat)
    requires x >= 0.0
    ensures Doubled(x, k) >= 0.0 && Doubled(Round(x), k) == Round(Doubled(x, k))
    decreases k
  {
    if k > 0 {
      RoundTwice(x);
      RoundDoubled(2.0 * x, k - 1);
    }
  }

  /** Numbers of 53 bits before the point round to the nearest integer, halves to the even one. */
  lemma TiesToEven(x: real)
    requires TWO_52 as real <= x < TWO_53 as real
    ensures var n := Round(x).Floor;
            Round(x) == n as real && -0.5 <= x - n as real <= 0.5 && (x - n as real in {-0.5, 0.5} ==> n % 2 == 0)
  {
  }
}
