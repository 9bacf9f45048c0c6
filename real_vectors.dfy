/** Finite real vectors: the dot product and the two identities the Levinson-Durbin
    correctness proof needs (reversal and linearity). */
module RealVectors {

  /** Sum of the pairwise products of two vectors of equal length, folded from the back. */
  function Dot(u: seq<real>, v: seq<real>): real
    requires |u| == |v|
    decreases |u|
  {
    if |u| == 0 then 0.0 else Dot(u[..|u| - 1], v[..|v| - 1]) + u[|u| - 1] * v[|v| - 1]
  }

  /** The vector read backwards. */
  function Rev(u: seq<real>): seq<real>
  {
    seq(|u|, i requires 0 <= i < |u| => u[|u| - 1 - i])
  }

  /** The vector u + r·w, element by element. */
  function Combine(u: seq<real>, r: real, w: seq<real>): seq<real>
    requires |u| == |w|
  {
    seq(|u|, i requires 0 <= i < |u| => u[i] + r * w[i])
  }

  lemma DotAppend(u: seq<real>, a: real, v: seq<real>, b: real)
    requires |u| == |v|
    ensures Dot(u + [a], v + [b]) == Dot(u, v) + a * b
  {
    assert (u + [a])[..|u|] == u;
    assert (v + [b])[..|v|] == v;
  }

  /** The back-folded dot product also splits off its first term. */
  lemma {:induction false} DotFront(u: seq<real>, v: seq<real>)
    requires |u| == |v| && |u| > 0
    ensures Dot(u, v) == u[0] * v[0] + Dot(u[1..], v[1..])
    decreases |u|
  {
    var n := |u|;
    if n == 1 {
      assert u[..0] == [] && v[..0] == [];
      assert u[1..] == [] && v[1..] == [];
    } else {
      DotFront(u[..n - 1], v[..n - 1]);
      assert u[..n - 1][1..] == u[1..][..n - 2];
      assert v[..n - 1][1..] == v[1..][..n - 2];
    }
  }

  /** Reversing one factor is the same as reversing the other. */
  lemma {:induction false} DotRev(u: seq<real>, v: seq<real>)
    requires |u| == |v|
    ensures Dot(Rev(u), v) == Dot(u, Rev(v))
    decreases |u|
  {
    var n := |u|;
    if n > 0 {
      assert Rev(u)[..n - 1] == Rev(u[1..]);
      DotRev(u[1..], v[..n - 1]);
      DotFront(u, Rev(v));
      assert Rev(v)[1..] == Rev(v[..n - 1]);
    }
  }

  /** The dot product is linear in its first factor. */
  lemma {:induction false} DotCombine(u: seq<real>, r: real, w: seq<real>, v: seq<real>)
    requires |u| == |w| == |v|
    ensures Dot(Combine(u, r, w), v) == Dot(u, v) + r * Dot(w, v)
    decreases |u|
  {
    var n := |u|;
    if n > 0 {
      var front := Combine(u[..n - 1], r, w[..n - 1]);
      forall i | 0 <= i < n - 1
        ensures Combine(u, r, w)[..n - 1][i] == front[i]
      {
        assert u[..n - 1][i] == u[i] && w[..n - 1][i] == w[i];
      }
      assert Combine(u, r, w)[..n - 1] == front;
      DotCombine(u[..n - 1], r, w[..n - 1], v[..n - 1]);
      var a, b, c := u[n - 1], w[n - 1], v[n - 1];
      assert (a + r * b) * c == a * c + r * (b * c);
      assert r * (Dot(w[..n - 1], v[..n - 1]) + b * c) == r * Dot(w[..n - 1], v[..n - 1]) + r * (b * c);
    }
  }
}
