/** Numeric and elements helpers of src/lib/utils.ts: `gcd`, `lcm` and
    `deduplicateArray`. */
module Utils {

  function Abs(x: int): nat
  {
    if x < 0 then -x else x
  }

  function Mul(a: int, b: int): int
  {
    a * b
  }

  /** `d` divides `n`: some integer multiple of `d` is `n`. */
  ghost predicate Divides(d: int, n: int)
  {
    exists k :: Mul(d, k) == n
  }

  /** JavaScript's `%` on integers: truncating division, so the remainder
      carries the sign of the dividend and is smaller than the divisor in
      magnitude. On naturals it is Dafny's `%`. */
  function JsRem(a: int, b: int): (r: int)
    requires b != 0
    ensures Abs(r) < Abs(b)
    ensures a >= 0 ==> r >= 0
    ensures a <= 0 ==> r <= 0
    ensures a >= 0 && b > 0 ==> r == a % b
  {
    if a >= 0 then a % Abs(b) else -((-a) % Abs(b))
  }

  /** The remainder is what is left after subtracting a multiple of `b`. */
  lemma JsRemDivision(a: int, b: int) returns (q: int)
    requires b != 0
    ensures a == b * q + JsRem(a, b)
  {
    var m: int := Abs(b);
    var x: int := Abs(a);
    assert x == m * (x / m) + x % m;
    var t: int := x / m;
    if a >= 0 && b > 0 {
      q := t;
    } else if a >= 0 {
      q := -t;
      assert b * q == m * t;
    } else if b > 0 {
      q := -t;
      assert b * q == -(m * t);
    } else {
      q := t;
      assert b * q == -(m * t);
    }
  }

  lemma DividesCombination(d: int, x: int, y: int, q: int)
    requires Divides(d, x) && Divides(d, y)
    ensures Divides(d, x * q + y) && Divides(d, y - x * q)
  {
    var kx :| Mul(d, kx) == x;
    var ky :| Mul(d, ky) == y;
    assert d * (kx * q) == (d * kx) * q;
    assert Mul(d, kx * q + ky) == x * q + y;
    assert Mul(d, ky - kx * q) == y - x * q;
  }

  /** `gcd`: Euclid's algorithm on JavaScript's remainder. It terminates
      because the second argument shrinks in magnitude at every step. */
  function Gcd(a: int, b: int): (g: int)
    ensures b == 0 ==> g == a
    ensures a >= 0 && b >= 0 ==> g >= 0
    ensures g == 0 <==> a == 0 && b == 0
    decreases Abs(b)
  {
    if b == 0 then a else Gcd(b, JsRem(a, b))
  }

  /** The result divides both arguments. */
  lemma {:induction false} GcdDividesBoth(a: int, b: int)
    ensures Divides(Gcd(a, b), a) && Divides(Gcd(a, b), b)
    decreases Abs(b)
  {
    if b == 0 {
      assert Mul(a, 1) == a && Mul(a, 0) == 0;
    } else {
      var r := JsRem(a, b);
      GcdDividesBoth(b, r);
      var q := JsRemDivision(a, b);
      DividesCombination(Gcd(b, r), b, r, q);
    }
  }

  /** Every common divisor of the arguments divides the result. */
  lemma {:induction false} GcdGreatest(a: int, b: int, d: int)
    requires Divides(d, a) && Divides(d, b)
    ensures Divides(d, Gcd(a, b))
    decreases Abs(b)
  {
    if b != 0 {
      var q := JsRemDivision(a, b);
      DividesCombination(d, b, a, q);
      GcdGreatest(b, JsRem(a, b), d);
    }
  }

  lemma {:induction false} MulAtLeast(g: int, d: int)
    requires g > 0
    ensures d >= 1 ==> g * d >= g
    ensures d <= -1 ==> g * d <= -g
    decreases Abs(d)
  {
    if d > 1 {
      MulAtLeast(g, d - 1);
      assert g * d == g * (d - 1) + g;
    } else if d < -1 {
      MulAtLeast(g, d + 1);
      assert g * d == g * (d + 1) - g;
    }
  }

  /** Dividing an exact multiple gives back the factor. */
  lemma MulDivCancel(g: int, k: int)
    requires g != 0
    ensures (g * k) / g == k
  {
    var n := g * k;
    var q := n / g;
    var r := n % g;
    assert n == g * q + r;
    if g > 0 {
      assert g * (k - q) == r;
      MulAtLeast(g, k - q);
    } else {
      assert (-g) * (q - k) == r;
      MulAtLeast(-g, q - k);
    }
  }

  /** `lcm`: |a| / gcd(a, b) * |b|. The division is exact, so JavaScript's
      floating-point division agrees with integer division here. */
  function Lcm(a: int, b: int): (l: int)
    requires a != 0 || b != 0
    ensures Divides(a, l) && Divides(b, l)
    ensures a > 0 && b > 0 ==> l > 0 && l == a * b / Gcd(a, b)
  {
    var g := Gcd(a, b);
    GcdDividesBoth(a, b);
    var ka :| Mul(g, ka) == a;
    var kb :| Mul(g, kb) == b;
    LcmQuotient(a, g, ka);
    LcmDividesFirst(a, b, g, ka);
    LcmDividesSecond(a, b, g, ka, kb);
    LcmPositive(a, b, g, ka);
    (Abs(a) / g) * Abs(b)
  }

  /** |a| / g is the cofactor of `a`, up to sign. */
  lemma LcmQuotient(a: int, g: int, ka: int)
    requires g != 0 && g * ka == a
    ensures Abs(a) / g == (if a >= 0 then ka else -ka)
  {
    var sa := if a >= 0 then 1 else -1;
    assert Abs(a) == g * (sa * ka);
    MulDivCancel(g, sa * ka);
  }

  lemma LcmDividesFirst(a: int, b: int, g: int, ka: int)
    requires g != 0 && g * ka == a
    requires Abs(a) / g == (if a >= 0 then ka else -ka)
    ensures Divides(b, (Abs(a) / g) * Abs(b))
  {
    var sa := if a >= 0 then 1 else -1;
    var sb := if b >= 0 then 1 else -1;
    assert Mul(b, (sa * ka) * sb) == (sa * ka) * Abs(b);
  }

  lemma LcmDividesSecond(a: int, b: int, g: int, ka: int, kb: int)
    requires g != 0 && g * ka == a && g * kb == b
    requires Abs(a) / g == (if a >= 0 then ka else -ka)
    ensures Divides(a, (Abs(a) / g) * Abs(b))
  {
    var sa := if a >= 0 then 1 else -1;
    var sb := if b >= 0 then 1 else -1;
    var l := (sa * ka) * Abs(b);
    assert Mul(a, sa * sb * kb) == l by {
      assert l == (sa * ka) * (sb * b);
      assert l == (sa * ka) * (sb * (g * kb));
      assert a * (sa * sb * kb) == (g * ka) * (sa * sb * kb);
    }
  }

  lemma LcmPositive(a: int, b: int, g: int, ka: int)
    requires g != 0 && g * ka == a
    requires Abs(a) / g == (if a >= 0 then ka else -ka)
    ensures a > 0 && b > 0 && g > 0 ==> (Abs(a) / g) * Abs(b) > 0 && (Abs(a) / g) * Abs(b) == a * b / g
  {
    if a > 0 && b > 0 && g > 0 {
      assert ka > 0;
      MulDivCancel(g, ka * b);
      assert a * b == g * (ka * b);
    }
  }

  /** No element occurs twice. */
  ghost predicate NoDuplicates<T>(s: seq<T>)
  {
    forall i, j | 0 <= i < j < |s| :: s[i] != s[j]
  }

  /** The position of the first occurrence of `x` in `s`. */
  function FirstIndex<T(==)>(s: seq<T>, x: T): (i: nat)
    requires x in s
    ensures i < |s| && s[i] == x && x !in s[..i]
  {
    if s[0] == x then 0 else 1 + FirstIndex(s[1..], x)
  }

  /** What the `deduplicateArray` loop has built after reading all of `s`:
      each element is appended unless it is already present. */
  function Dedup<T(==)>(s: seq<T>): (r: seq<T>)
    ensures NoDuplicates(r)
    ensures forall x | x in r :: x in s
    ensures forall x | x in s :: x in r
    ensures |r| <= |s|
  {
    if s == [] then []
    else
      var d := Dedup(s[..|s| - 1]);
      if s[|s| - 1] in d then d else d + [s[|s| - 1]]
  }

  /** `deduplicateArray`. */
  method DeduplicateArray<T(==)>(elements: seq<T>) returns (deduped: seq<T>)
    ensures NoDuplicates(deduped)
    ensures forall x :: x in elements <==> x in deduped
    ensures deduped == Dedup(elements)
  {
    deduped := [];
    for i := 0 to |elements|
      invariant deduped == Dedup(elements[..i])
    {
      var el := elements[i];
      assert elements[..i + 1][..i] == elements[..i];
      if el in deduped {
        continue;
      }
      deduped := deduped + [el];
    }
    assert elements[..|elements|] == elements;
  }

  lemma {:induction false} FirstIndexPrefix<T>(s: seq<T>, t: seq<T>, x: T)
    requires x in s
    ensures FirstIndex(s + t, x) == FirstIndex(s, x)
  {
    if s[0] != x {
      assert (s + t)[1..] == s[1..] + t;
      FirstIndexPrefix(s[1..], t, x);
    }
  }

  /** The output lists the elements in the order of their first appearance;
      read as positions in the input, it is a subsequence of the input made
      of exactly the first occurrences. */
  lemma {:induction false} DedupFirstAppearance<T>(s: seq<T>)
    ensures forall i, j | 0 <= i < j < |Dedup(s)| :: FirstIndex(s, Dedup(s)[i]) < FirstIndex(s, Dedup(s)[j])
    ensures forall i | 0 <= i < |s| && s[i] !in s[..i] :: s[i] in Dedup(s)
  {
    if s != [] {
      var p := s[..|s| - 1];
      var x := s[|s| - 1];
      assert s == p + [x];
      DedupFirstAppearance(p);
      var d := Dedup(p);
      forall y | y in d
        ensures FirstIndex(s, y) == FirstIndex(p, y) < |p|
      {
        FirstIndexPrefix(p, [x], y);
      }
      if x !in d {
        assert x !in p;
        assert FirstIndex(s, x) == |p|;
      }
    }
  }

  /** Input that has no duplicates comes back unchanged. */
  lemma {:induction false} DedupOfDistinct<T>(s: seq<T>)
    requires NoDuplicates(s)
    ensures Dedup(s) == s
  {
    if s != [] {
      var p := s[..|s| - 1];
      DedupOfDistinct(p);
      assert s[|s| - 1] !in p;
      assert p + [s[|s| - 1]] == s;
    }
  }

  /** Deduplicating twice is deduplicating once. */
  lemma {:induction false} DedupIdempotent<T>(s: seq<T>)
    ensures Dedup(Dedup(s)) == Dedup(s)
  {
    DedupOfDistinct(Dedup(s));
  }
}
