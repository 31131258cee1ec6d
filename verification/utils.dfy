/** The host's numeric helpers: the linear range map `map_value` and the
    truncation Python's `int()` applies to its result. Values are exact
    reals rather than floating-point numbers. */
module Utils {
  import opened Common

  /** `map_value`: maps `x` linearly from [srcMin, srcMax] onto
      [dstMin, dstMax]. `None` models the `ValueError` raised for a
      reversed range; a zero-width source range maps everything to
      `dstMin`. */
  function MapValue(x: real, srcMin: real, srcMax: real, dstMin: real, dstMax: real): (r: Option<real>)
    ensures r.None? <==> srcMax < srcMin || dstMax < dstMin
    ensures r.Some? && srcMax == srcMin ==> r.value == dstMin
  {
    if srcMax < srcMin then None
    else if dstMax < dstMin then None
    else if srcMax - srcMin == 0.0 then Some(dstMin)
    else Some(((x - srcMin) / (srcMax - srcMin)) * (dstMax - dstMin) + dstMin)
  }

  /** The ends of the source range go to the ends of the destination range. */
  lemma MapValueEndpoints(srcMin: real, srcMax: real, dstMin: real, dstMax: real)
    requires srcMin < srcMax && dstMin <= dstMax
    ensures MapValue(srcMin, srcMin, srcMax, dstMin, dstMax) == Some(dstMin)
    ensures MapValue(srcMax, srcMin, srcMax, dstMin, dstMax) == Some(dstMax)
  {
    var w := srcMax - srcMin;
    assert (srcMax - srcMin) / w == 1.0;
    assert 1.0 * (dstMax - dstMin) + dstMin == dstMax;
  }

  /** The map never reverses the order of its inputs. */
  lemma MapValueMonotone(x: real, y: real, srcMin: real, srcMax: real, dstMin: real, dstMax: real)
    requires srcMin <= srcMax && dstMin <= dstMax && x <= y
    ensures MapValue(x, srcMin, srcMax, dstMin, dstMax).value <= MapValue(y, srcMin, srcMax, dstMin, dstMax).value
  {
    if srcMax - srcMin != 0.0 {
      var w := srcMax - srcMin;
      var h := dstMax - dstMin;
      assert (x - srcMin) / w <= (y - srcMin) / w;
      MulMonotone((x - srcMin) / w, (y - srcMin) / w, h);
    }
  }

  lemma MulMonotone(a: real, b: real, h: real)
    requires a <= b && 0.0 <= h
    ensures a * h <= b * h
  {
  }

  /** An input inside the source range lands inside the destination range. */
  lemma MapValueRange(x: real, srcMin: real, srcMax: real, dstMin: real, dstMax: real)
    requires srcMin <= x <= srcMax && dstMin <= dstMax
    ensures dstMin <= MapValue(x, srcMin, srcMax, dstMin, dstMax).value <= dstMax
  {
    if srcMin < srcMax {
      MapValueEndpoints(srcMin, srcMax, dstMin, dstMax);
      MapValueMonotone(srcMin, x, srcMin, srcMax, dstMin, dstMax);
      MapValueMonotone(x, srcMax, srcMin, srcMax, dstMin, dstMax);
    }
  }

  /** Mapping back with the ranges exchanged recovers the input, so the map
      is one-to-one whenever both ranges have positive width. */
  lemma MapValueInverse(x: real, srcMin: real, srcMax: real, dstMin: real, dstMax: real)
    requires srcMin < srcMax && dstMin < dstMax
    ensures MapValue(MapValue(x, srcMin, srcMax, dstMin, dstMax).value, dstMin, dstMax, srcMin, srcMax) == Some(x)
  {
    var w := srcMax - srcMin;
    var h := dstMax - dstMin;
    var t := (x - srcMin) / w;
    var y := t * h + dstMin;
    assert MapValue(x, srcMin, srcMax, dstMin, dstMax).value == ((x - srcMin) / (srcMax - srcMin)) * (dstMax - dstMin) + dstMin;
    assert MapValue(x, srcMin, srcMax, dstMin, dstMax).value == y;
    var u := (y - dstMin) / h;
    assert MapValue(y, dstMin, dstMax, srcMin, srcMax).value == u * w + srcMin;
    DivCancel(t, h);
    assert u == t;
    DivCancel(x - srcMin, w);
    assert u * w + srcMin == x;
    assert MapValue(y, dstMin, dstMax, srcMin, srcMax) == Some(x);
  }

  lemma DivCancel(a: real, b: real)
    requires b != 0.0
    ensures (a * b) / b == a && (a / b) * b == a
  {
  }

  /** Python's `int()` on a real: rounds toward zero. */
  function Trunc(x: real): (n: int)
    ensures 0.0 <= x ==> n as real <= x < n as real + 1.0
    ensures x < 0.0 ==> n as real - 1.0 < x <= n as real
  {
    if x >= 0.0 then x.Floor else -((-x).Floor)
  }

  /** On a non-negative quotient of integers, truncation is integer
      division. */
  lemma TruncQuotient(n: int, d: int)
    requires 0 <= n && 0 < d
    ensures Trunc(n as real / d as real) == n / d
  {
    var q := n / d;
    var r := n % d;
    assert n == q * d + r;
    var x := n as real / d as real;
    assert x == q as real + r as real / d as real;
    assert 0.0 <= r as real / d as real < 1.0;
    assert q as real <= x < q as real + 1.0;
  }
}
