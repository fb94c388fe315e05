/**
  The fixed-size numeric vector that a line is built from. A vector of
  dimension D is a sequence of D coordinates; coordinates are exact reals.
  Only the componentwise operations the line needs are given here.
 */
module Vectors {

  type Vec = seq<real>

  /** The value-initialised vector of dimension n: every coordinate is zero. */
  function Zero(n: nat): (r: Vec)
    ensures |r| == n
    ensures forall i :: 0 <= i < n ==> r[i] == 0.0
  {
    seq(n, i => 0.0)
  }

  /** Componentwise sum. */
  function Add(u: Vec, v: Vec): (r: Vec)
    requires |u| == |v|
    ensures |r| == |u|
    ensures forall i :: 0 <= i < |r| ==> r[i] == u[i] + v[i]
  {
    seq(|u|, i requires 0 <= i < |u| => u[i] + v[i])
  }

  /** Componentwise difference. */
  function Sub(u: Vec, v: Vec): (r: Vec)
    requires |u| == |v|
    ensures |r| == |u|
    ensures forall i :: 0 <= i < |r| ==> r[i] == u[i] - v[i]
  {
    seq(|u|, i requires 0 <= i < |u| => u[i] - v[i])
  }

  /** Every coordinate multiplied by the scalar k. */
  function Scale(v: Vec, k: real): (r: Vec)
    ensures |r| == |v|
    ensures forall i :: 0 <= i < |r| ==> r[i] == k * v[i]
  {
    seq(|v|, i requires 0 <= i < |v| => k * v[i])
  }

  /** Every coordinate divided by the non-zero scalar k. */
  function Divide(v: Vec, k: real): (r: Vec)
    requires k != 0.0
    ensures |r| == |v|
    ensures forall i :: 0 <= i < |r| ==> r[i] * k == v[i]
  {
    seq(|v|, i requires 0 <= i < |v| => v[i] / k)
  }

  /** Dividing a vector by one of its own non-zero coordinates turns that coordinate into 1. */
  lemma DivideOwnCoordinate(v: Vec, i: nat)
    requires i < |v| && v[i] != 0.0
    ensures Divide(v, v[i])[i] == 1.0
  {
  }

  /**
    The vector of dimension n that keeps the first coordinates of v,
    dropping those beyond n and filling the missing ones with zero.
   */
  function Resize(v: Vec, n: nat): (r: Vec)
    ensures |r| == n
    ensures forall i :: 0 <= i < n && i < |v| ==> r[i] == v[i]
    ensures forall i :: |v| <= i < n ==> r[i] == 0.0
  {
    seq(n, i requires 0 <= i < n => if i < |v| then v[i] else 0.0)
  }
}
