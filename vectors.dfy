/** Real vectors, the dot product and the Euclidean norm used by cosine similarity (`np.dot`,
    `np.linalg.norm`). The norm is not computed: it is any function that returns the non-negative
    square root of a vector's dot product with itself, which pins it down to the Euclidean norm. */
module Vectors {

  function Dot(u: seq<real>, v: seq<real>): real
    requires |u| == |v|
  {
    if u == [] then 0.0 else Dot(u[..|u| - 1], v[..|v| - 1]) + Prod(u[|u| - 1], v[|v| - 1])
  }

  /** All components are zero. */
  predicate IsZero(v: seq<real>)
  {
    forall i :: 0 <= i < |v| ==> v[i] == 0.0
  }

  /** `norm` is the Euclidean norm. */
  ghost predicate IsEuclideanNorm(norm: seq<real> -> real)
  {
    forall v :: norm(v) >= 0.0 && norm(v) * norm(v) == Dot(v, v)
  }

  /* Nonlinear facts are stated over Sq and Prod so that the solver treats the products as terms. */

  function Sq(x: real): real
  {
    x * x
  }

  function Prod(a: real, b: real): real
  {
    a * b
  }

  lemma ProdPositive(a: real, b: real)
    requires a > 0.0 && b > 0.0
    ensures Prod(a, b) > 0.0
  {
  }

  lemma ProdNonNegative(a: real, b: real)
    requires a >= 0.0 && b >= 0.0
    ensures Prod(a, b) >= 0.0
  {
  }

  lemma SqPositive(x: real)
    requires x != 0.0
    ensures Sq(x) > 0.0
  {
    if x > 0.0 {
      ProdPositive(x, x);
    } else {
      ProdPositive(-x, -x);
      assert Prod(-x, -x) == Sq(x);
    }
  }

  lemma SqNonNegative(x: real)
    ensures Sq(x) >= 0.0
  {
    if x >= 0.0 {
      ProdNonNegative(x, x);
    } else {
      ProdNonNegative(-x, -x);
      assert Prod(-x, -x) == Sq(x);
    }
  }

  /** Squaring is strictly increasing on the non-negative reals. */
  lemma SqIncreasing(p: real, d: real)
    requires 0.0 <= p < d
    ensures Sq(p) < Sq(d)
  {
    ProdPositive(d - p, d + p);
    assert Prod(d - p, d + p) == Sq(d) - Sq(p);
  }

  lemma {:induction false} DotSelfZeroIff(v: seq<real>)
    ensures Dot(v, v) >= 0.0
    ensures Dot(v, v) == 0.0 <==> IsZero(v)
  {
    if v != [] {
      var v', x := v[..|v| - 1], v[|v| - 1];
      DotSelfZeroIff(v');
      assert Dot(v, v) == Dot(v', v') + Sq(x);
      SqNonNegative(x);
      if x != 0.0 {
        SqPositive(x);
        assert !IsZero(v) by { assert v[|v| - 1] != 0.0; }
      } else if IsZero(v') {
        forall i | 0 <= i < |v| ensures v[i] == 0.0 {
          if i < |v'| { assert v[i] == v'[i]; }
        }
      } else {
        var i :| 0 <= i < |v'| && v'[i] != 0.0;
        assert v[i] == v'[i];
      }
    }
  }

  /** A zero vector is orthogonal to every vector of its length. */
  lemma {:induction false} DotZero(u: seq<real>, v: seq<real>)
    requires |u| == |v| && (IsZero(u) || IsZero(v))
    ensures Dot(u, v) == 0.0
  {
    if u != [] {
      var n := |u| - 1;
      assert IsZero(u) ==> IsZero(u[..n]) && u[n] == 0.0;
      assert IsZero(v) ==> IsZero(v[..n]) && v[n] == 0.0;
      DotZero(u[..n], v[..n]);
    }
  }

  /** The Euclidean norm is zero exactly for the zero vector. */
  lemma NormZeroIff(norm: seq<real> -> real, v: seq<real>)
    requires IsEuclideanNorm(norm)
    ensures norm(v) >= 0.0
    ensures norm(v) == 0.0 <==> IsZero(v)
  {
    DotSelfZeroIff(v);
    assert norm(v) >= 0.0 && Sq(norm(v)) == Dot(v, v);
    if norm(v) != 0.0 {
      SqPositive(norm(v));
    }
  }

  lemma ProdNegate(a: real, b: real)
    ensures Prod(a, -b) == -Prod(a, b)
  {
  }

  lemma QuadraticFormIdentity(A: real, B: real, C: real, x: real, y: real)
    ensures Prod(B, B * Sq(x) - 2.0 * x * y * C + A * Sq(y)) == Sq(B * x - C * y) + Prod(Prod(A, B) - Sq(C), Sq(y))
  {
  }

  /** The quadratic form B x^2 - 2 C x y + A y^2 is non-negative when C^2 <= A B. */
  lemma QuadraticFormNonNegative(A: real, B: real, C: real, x: real, y: real)
    requires A >= 0.0 && B >= 0.0 && Sq(C) <= Prod(A, B)
    ensures 2.0 * x * y * C <= A * Sq(y) + B * Sq(x)
  {
    SqNonNegative(y);
    ProdNonNegative(A, Sq(y));
    if B == 0.0 {
      if C != 0.0 {
        SqPositive(C);
      }
    } else {
      var e := B * Sq(x) - 2.0 * x * y * C + A * Sq(y);
      QuadraticFormIdentity(A, B, C, x, y);
      SqNonNegative(B * x - C * y);
      ProdNonNegative(Prod(A, B) - Sq(C), Sq(y));
      if e < 0.0 {
        ProdPositive(B, -e);
        ProdNegate(B, e);
      }
    }
  }

  lemma ExpandSquares(A: real, B: real, C: real, a: real, b: real)
    ensures Sq(C + Prod(a, b)) == Sq(C) + 2.0 * a * b * C + Prod(Sq(a), Sq(b))
    ensures Prod(A + Sq(a), B + Sq(b)) == Prod(A, B) + A * Sq(b) + B * Sq(a) + Prod(Sq(a), Sq(b))
  {
  }

  /** One step of the Cauchy-Schwarz induction: adding a component to both vectors keeps the inequality. */
  lemma CauchySchwarzStep(A: real, B: real, C: real, a: real, b: real)
    requires A >= 0.0 && B >= 0.0 && Sq(C) <= Prod(A, B)
    ensures Sq(C + Prod(a, b)) <= Prod(A + Sq(a), B + Sq(b))
  {
    QuadraticFormNonNegative(A, B, C, a, b);
    ExpandSquares(A, B, C, a, b);
  }

  lemma DotLast(u: seq<real>, v: seq<real>)
    requires |u| == |v| && u != []
    ensures Dot(u, v) == Dot(u[..|u| - 1], v[..|v| - 1]) + Prod(u[|u| - 1], v[|v| - 1])
  {
  }

  lemma DotLastSelf(u: seq<real>)
    requires u != []
    ensures Dot(u, u) == Dot(u[..|u| - 1], u[..|u| - 1]) + Sq(u[|u| - 1])
  {
    DotLast(u, u);
  }

  /** The Cauchy-Schwarz inequality. */
  lemma {:induction false} CauchySchwarz(u: seq<real>, v: seq<real>)
    requires |u| == |v|
    ensures Sq(Dot(u, v)) <= Prod(Dot(u, u), Dot(v, v))
  {
    if u != [] {
      var n := |u| - 1;
      var u', a, v', b := u[..n], u[n], v[..n], v[n];
      CauchySchwarz(u', v');
      DotSelfZeroIff(u');
      DotSelfZeroIff(v');
      CauchySchwarzStep(Dot(u', u'), Dot(v', v'), Dot(u', v'), a, b);
      DotLast(u, v);
      DotLastSelf(u);
      DotLastSelf(v);
    }
  }

  /** From d^2 <= p^2 and p >= 0 follows |d| <= p. */
  lemma AbsBoundFromSquares(d: real, p: real)
    requires p >= 0.0 && Sq(d) <= Sq(p)
    ensures -p <= d <= p
  {
    if d > p {
      SqIncreasing(p, d);
    } else if d < -p {
      SqIncreasing(p, -d);
    }
  }

  lemma SqOfProd(x: real, y: real)
    ensures Sq(Prod(x, y)) == Prod(Sq(x), Sq(y))
  {
  }

  /** |u . v| <= |u| |v|. */
  lemma DotBound(norm: seq<real> -> real, u: seq<real>, v: seq<real>)
    requires IsEuclideanNorm(norm) && |u| == |v|
    ensures norm(u) * norm(v) >= 0.0
    ensures -(norm(u) * norm(v)) <= Dot(u, v) <= norm(u) * norm(v)
  {
    CauchySchwarz(u, v);
    var nu, nv := norm(u), norm(v);
    assert nu >= 0.0 && Sq(nu) == Dot(u, u);
    assert nv >= 0.0 && Sq(nv) == Dot(v, v);
    ProdNonNegative(nu, nv);
    SqOfProd(nu, nv);
    AbsBoundFromSquares(Dot(u, v), Prod(nu, nv));
  }
}
