/**
  Vieta's formula for the constant term, as solver.js evaluates it: the
  decoded roots are multiplied together, starting from 1, and the product
  is scaled by the leading coefficient k and by the sign (-1)^n.

  The reference meaning is the polynomial k * (x - r_1) * ... * (x - r_m),
  built coefficient by coefficient; its constant coefficient is what the
  formula computes when n is the number of roots.
 */
module Vieta {
  import Decoder

  /** The product of the roots, folded from the left starting at 1, as the
      source's `reduce` does. */
  function Product(roots: seq<int>): int
  {
    if roots == [] then 1 else Product(roots[..|roots| - 1]) * roots[|roots| - 1]
  }

  /** The sign factor: +1 for an even n, -1 for an odd n. */
  function Sign(n: int): (r: int)
    ensures r == 1 || r == -1
  {
    if n % 2 == 0 then 1 else -1
  }

  /** The constant term: k times the sign factor times the product of roots. */
  function ConstantTerm(n: int, k: int, roots: seq<int>): int
  {
    k * Sign(n) * Product(roots)
  }

  // ---------------------------------------------------------------------
  // The product of roots

  lemma {:induction false} ProductAppend(a: seq<int>, b: seq<int>)
    ensures Product(a + b) == Product(a) * Product(b)
  {
    if b == [] {
      assert a + b == a;
    } else {
      var b' := b[..|b| - 1];
      var x := b[|b| - 1];
      assert (a + b)[..|a + b| - 1] == a + b';
      ProductAppend(a, b');
      calc {
        Product(a + b);
        Product(a + b') * x;
        (Product(a) * Product(b')) * x;
        Product(a) * (Product(b') * x);
        Product(a) * Product(b);
      }
    }
  }

  /** The product does not depend on the order of the roots. */
  lemma {:induction false} ProductPermutation(a: seq<int>, b: seq<int>)
    requires multiset(a) == multiset(b)
    ensures Product(a) == Product(b)
    decreases |a|
  {
    if a == [] {
      assert |multiset(b)| == 0;
    } else {
      var a' := a[..|a| - 1];
      var x := a[|a| - 1];
      assert a == a' + [x];
      assert x in multiset(b);
      var j :| 0 <= j < |b| && b[j] == x;
      var rest := b[..j] + b[j + 1..];
      MultisetRemove(a', x, b, j);
      ProductPermutation(a', rest);
      ProductRemove(b, j);
    }
  }

  /** Removing matching elements from two reorderings of one sequence leaves
      two reorderings. */
  lemma MultisetRemove<T>(a': seq<T>, x: T, b: seq<T>, j: nat)
    requires j < |b| && b[j] == x
    requires multiset(a' + [x]) == multiset(b)
    ensures multiset(a') == multiset(b[..j] + b[j + 1..])
  {
    var lo, hi := b[..j], b[j + 1..];
    assert b == lo + [x] + hi;
    calc {
      multiset(a') + multiset([x]);
      multiset(a' + [x]);
      multiset(b);
      multiset(lo + [x] + hi);
      multiset(lo + [x]) + multiset(hi);
      multiset(lo) + multiset([x]) + multiset(hi);
    }
    forall y ensures multiset(a')[y] == (multiset(lo) + multiset(hi))[y] {
      assert (multiset(a') + multiset([x]))[y] == (multiset(lo) + multiset([x]) + multiset(hi))[y];
    }
    assert multiset(lo + hi) == multiset(lo) + multiset(hi);
  }

  /** Putting matching elements back into two reorderings of one sequence
      gives two reorderings. */
  lemma MultisetInsert<T>(a': seq<T>, x: T, b: seq<T>, j: nat)
    requires j < |b| && b[j] == x
    requires multiset(a') == multiset(b[..j] + b[j + 1..])
    ensures multiset(a' + [x]) == multiset(b)
  {
    var lo, hi := b[..j], b[j + 1..];
    assert b == lo + [x] + hi;
    calc {
      multiset(a' + [x]);
      multiset(a') + multiset([x]);
      multiset(lo + hi) + multiset([x]);
      multiset(lo) + multiset(hi) + multiset([x]);
      multiset(lo + [x] + hi);
    }
  }

  /** Taking one root out divides it out of the product. */
  lemma ProductRemove(b: seq<int>, j: nat)
    requires j < |b|
    ensures Product(b) == Product(b[..j] + b[j + 1..]) * b[j]
  {
    var lo, x, hi := b[..j], b[j], b[j + 1..];
    var pl, ph := Product(lo), Product(hi);
    var px := Product(lo + [x]);
    assert Product(b) == px * ph by {
      assert b == (lo + [x]) + hi;
      ProductAppend(lo + [x], hi);
    }
    assert px == pl * x by {
      assert (lo + [x])[..|lo|] == lo;
    }
    assert Product(lo + hi) == pl * ph by {
      ProductAppend(lo, hi);
    }
    MulRotate(pl, x, ph);
  }

  lemma MulRotate(a: int, x: int, c: int)
    ensures a * x * c == (a * c) * x
  {
  }

  /** The product is zero exactly when some root is zero. */
  lemma {:induction false} ProductZero(roots: seq<int>)
    ensures Product(roots) == 0 <==> 0 in roots
  {
    if roots != [] {
      var p := roots[..|roots| - 1];
      var x := roots[|roots| - 1];
      ProductZero(p);
      assert roots == p + [x];
      assert 0 in roots <==> 0 in p || x == 0;
    }
  }

  // ---------------------------------------------------------------------
  // The sign factor

  /** The sign flips with each extra root. */
  lemma SignAlternates(n: int)
    ensures Sign(n + 1) == -Sign(n)
  {
  }

  /** The sign factor is (-1)^n. */
  lemma {:induction false} SignIsPower(n: nat)
    ensures Sign(n) == Decoder.Pow(-1, n)
  {
    if n > 0 {
      SignIsPower(n - 1);
      SignAlternates(n - 1);
    }
  }

  // ---------------------------------------------------------------------
  // The constant term

  /** With no roots the constant term is k times the sign factor. */
  lemma ConstantTermNoRoots(n: int, k: int)
    ensures ConstantTerm(n, k, []) == k * Sign(n)
  {
  }

  /** The constant term is k * (-1)^n * (product of roots). */
  lemma ConstantTermIsPower(n: nat, k: int, roots: seq<int>)
    ensures ConstantTerm(n, k, roots) == k * Decoder.Pow(-1, n) * Product(roots)
  {
    SignIsPower(n);
  }

  /** Reordering the roots does not change the constant term. */
  lemma ConstantTermOrderIndependent(n: int, k: int, a: seq<int>, b: seq<int>)
    requires multiset(a) == multiset(b)
    ensures ConstantTerm(n, k, a) == ConstantTerm(n, k, b)
  {
    ProductPermutation(a, b);
  }

  // ---------------------------------------------------------------------
  // The reference polynomial (coefficients, lowest degree first)

  /** The value of the polynomial with coefficients p at x. */
  function Eval(p: seq<int>, x: int): int
  {
    if p == [] then 0 else p[0] + x * Eval(p[1..], x)
  }

  /** The coefficients of p(x) * (x - r): writing p(x) = a + x * t(x),
      p(x) * (x - r) = -r * a + x * (a + t(x) * (x - r)). */
  function MulByLinear(p: seq<int>, r: int): (q: seq<int>)
    ensures |q| == |p| + 1
    ensures p != [] ==> q[0] == -r * p[0] && q[|p|] == p[|p| - 1]
  {
    if p == [] then [0]
    else [-r * p[0]] + AddToHead(MulByLinear(p[1..], r), p[0])
  }

  /** The coefficients of a + q(x). */
  function AddToHead(q: seq<int>, a: int): (q': seq<int>)
    requires q != []
    ensures |q'| == |q| && q'[0] == q[0] + a
    ensures forall i :: 0 < i < |q| ==> q'[i] == q[i]
  {
    [q[0] + a] + q[1..]
  }

  /** The polynomial k * (x - r_1) * ... * (x - r_m): its degree is the
      number of roots and its leading coefficient is k. */
  function PolyFromRoots(k: int, roots: seq<int>): (p: seq<int>)
    ensures |p| == |roots| + 1 && p[|roots|] == k
  {
    if roots == [] then [k]
    else MulByLinear(PolyFromRoots(k, roots[..|roots| - 1]), roots[|roots| - 1])
  }

  /** Vieta: when n is the number of roots, the formula computes the
      constant coefficient of the polynomial with those roots and leading
      coefficient k. */
  lemma {:induction false} ConstantTermIsVieta(k: int, roots: seq<int>)
    ensures PolyFromRoots(k, roots)[0] == ConstantTerm(|roots|, k, roots)
  {
    if roots != [] {
      var m := |roots| - 1;
      var rs := roots[..m];
      var r := roots[m];
      ConstantTermIsVieta(k, rs);
      SignAlternates(m);
      var c := PolyFromRoots(k, rs)[0];
      assert PolyFromRoots(k, roots)[0] == -r * c;
      Rearrange(k, Sign(m), Product(rs), r);
    }
  }

  /** The source takes n from its input rather than counting the roots; the
      formula is still the constant coefficient whenever n has the parity of
      the number of roots, and only then unless k or some root is zero. */
  lemma ConstantTermWithCount(n: int, k: int, roots: seq<int>)
    ensures n % 2 == |roots| % 2 ==> ConstantTerm(n, k, roots) == PolyFromRoots(k, roots)[0]
    ensures n % 2 != |roots| % 2 && k != 0 && 0 !in roots ==>
      ConstantTerm(n, k, roots) == -PolyFromRoots(k, roots)[0] != 0
  {
    ConstantTermIsVieta(k, roots);
    ProductZero(roots);
    if n % 2 != |roots| % 2 && k != 0 && 0 !in roots {
      assert Sign(n) == -Sign(|roots|);
      NonZeroProduct(k, Sign(n), Product(roots));
    }
  }

  lemma NonZeroProduct(k: int, s: int, p: int)
    requires k != 0 && s != 0 && p != 0
    ensures k * s * p != 0 && k * -s * p == -(k * s * p)
  {
  }

  lemma Rearrange(k: int, s: int, p: int, r: int)
    ensures -r * (k * s * p) == k * -s * (p * r)
  {
  }

  /** The coefficient list of p(x) * (x - r) evaluates to p(x) * (x - r). */
  lemma {:induction false} EvalMulByLinear(p: seq<int>, r: int, x: int)
    ensures Eval(MulByLinear(p, r), x) == Eval(p, x) * (x - r)
  {
    if p == [] {
      assert MulByLinear(p, r) == [0];
    } else {
      var a, t := p[0], p[1..];
      var q' := MulByLinear(t, r);
      var e := Eval(t, x);
      assert Eval(q', x) == e * (x - r) by {
        EvalMulByLinear(t, r, x);
      }
      assert Eval(AddToHead(q', a), x) == a + Eval(q', x) by {
        EvalCons(q'[0] + a, q'[1..], x);
        EvalCons(q'[0], q'[1..], x);
        assert [q'[0]] + q'[1..] == q';
      }
      EvalCons(-r * a, AddToHead(q', a), x);
      LinearStep(a, e, x, r);
    }
  }

  lemma EvalCons(h: int, rest: seq<int>, x: int)
    ensures Eval([h] + rest, x) == h + x * Eval(rest, x)
  {
    assert ([h] + rest)[1..] == rest;
  }

  lemma MulAssoc(a: int, b: int, c: int)
    ensures a * b * c == a * (b * c)
  {
  }

  lemma LinearStep(a: int, e: int, x: int, r: int)
    ensures -r * a + x * (a + e * (x - r)) == (a + x * e) * (x - r)
  {
  }

  /** The differences x - r_i, in order. */
  function Differences(x: int, roots: seq<int>): (d: seq<int>)
    ensures |d| == |roots| && forall i :: 0 <= i < |roots| ==> d[i] == x - roots[i]
  {
    seq(|roots|, i requires 0 <= i < |roots| => x - roots[i])
  }

  /** The reference polynomial's value at x is k * (x - r_1) * ... * (x - r_m). */
  lemma {:induction false} EvalPolyFromRoots(k: int, roots: seq<int>, x: int)
    ensures Eval(PolyFromRoots(k, roots), x) == k * Product(Differences(x, roots))
  {
    if roots == [] {
      assert Eval([k], x) == k + x * Eval([], x);
    } else {
      var rs := roots[..|roots| - 1];
      var r := roots[|roots| - 1];
      var d := Product(Differences(x, rs));
      assert Eval(PolyFromRoots(k, roots), x) == k * d * (x - r) by {
        EvalPolyFromRoots(k, rs, x);
        EvalMulByLinear(PolyFromRoots(k, rs), r, x);
      }
      assert Product(Differences(x, roots)) == d * (x - r) by {
        assert Differences(x, roots)[..|roots| - 1] == Differences(x, rs);
      }
      MulAssoc(k, d, x - r);
    }
  }

  /** Every root is a root of the reference polynomial. */
  lemma RootsAreRoots(k: int, roots: seq<int>, i: nat)
    requires i < |roots|
    ensures Eval(PolyFromRoots(k, roots), roots[i]) == 0
  {
    var d := Differences(roots[i], roots);
    EvalPolyFromRoots(k, roots, roots[i]);
    assert d[i] == 0;
    ProductZero(d);
  }
}
