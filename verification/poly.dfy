/** Share evaluation f_x(alpha_i) by Horner's rule (include/poly.hpp). The k - 1 random
    coefficients are drawn from a PRG; the constant term is the element x itself. */
module Poly {
  import opened Types
  import opened Gf128
  import opened HashPrg

  /** Horner's rule over coefficients rs[0..], highest degree last:
      acc = rs[|rs|-1], then acc = acc * alpha + rs[d] for d going down to 0. */
  function Horner(rs: seq<Block128>, alpha: Block128): Block128
    requires |rs| >= 1
    decreases |rs|
  {
    if |rs| == 1 then rs[0] else GfAdd(GfMul(Horner(rs[1..], alpha), alpha), rs[0])
  }

  /** f_x(alpha) for the drawn coefficients rs: the Horner value times alpha, plus x.
      Without coefficients (k <= 1) it is x. */
  function EvalFx(rs: seq<Block128>, alpha: Block128, x: Block128): Block128
  {
    if |rs| == 0 then x else GfAdd(GfMul(Horner(rs, alpha), alpha), x)
  }

  /** How many blocks poly_eval_fx_at_i draws for threshold k. */
  function CoefficientCount(k: int): nat
  {
    if k <= 1 then 0 else k - 1
  }

  /** The draw loop: count calls of next_block128, in order. */
  method DrawCoefficients(eng: Engine, prg: Prg, count: nat) returns (r: seq<Block128>, p: Prg)
    ensures (r, p) == DrawBlocks(eng, prg, count)
  {
    r, p := [], prg;
    for d := 0 to count
      invariant (r, p) == DrawBlocks(eng, prg, d)
    {
      var b;
      b, p := NextBlock128(eng, p).0, NextBlock128(eng, p).1;
      r := r + [b];
    }
  }

  /** The Horner loop: start from the last coefficient and fold the others in from the
      top down. */
  method HornerLoop(r: seq<Block128>, alpha: Block128) returns (acc: Block128)
    requires |r| >= 1
    ensures acc == Horner(r, alpha)
  {
    acc := r[|r| - 1];
    var d := |r| - 2;
    while d >= 0
      invariant -1 <= d <= |r| - 2
      invariant acc == Horner(r[d + 1..], alpha)
    {
      assert r[d..][1..] == r[d + 1..];
      acc := GfAdd(GfMul(acc, alpha), r[d]);
      d := d - 1;
    }
    assert r[0..] == r;
  }

  /** poly_eval_fx_at_i: draw k - 1 blocks r[0..k-2], then evaluate by Horner's rule
      from r[k-2] down to r[0], and finally multiply by alpha and add x. */
  method PolyEvalFxAtI(eng: Engine, x: Block128, alpha: Block128, k: int, prg: Prg)
    returns (y: Block128, prg': Prg)
    ensures k <= 1 ==> y == x && prg' == prg
    ensures prg' == Prg(prg.seed, prg.drawn + 2 * CoefficientCount(k))
    ensures y == EvalFx(DrawBlocks(eng, prg, CoefficientCount(k)).0, alpha, x)
  {
    DrawBlocksClosedForm(eng, prg, CoefficientCount(k));
    if k <= 1 {
      return x, prg;
    }
    var r, p := DrawCoefficients(eng, prg, k - 1);
    var acc := HornerLoop(r, alpha);
    y, prg' := GfAdd(GfMul(acc, alpha), x), p;
  }

  /** With k == 2 the share is r[0] * alpha + x. */
  lemma EvalFxOneCoefficient(r0: Block128, alpha: Block128, x: Block128)
    ensures EvalFx([r0], alpha, x) == GfAdd(GfMul(r0, alpha), x)
  {
  }

  /** The share masks x additively: share + x depends on the coefficients and alpha only. */
  lemma {:induction false} EvalFxMasksX(rs: seq<Block128>, alpha: Block128, x: Block128, x': Block128)
    requires |rs| >= 1
    ensures GfAdd(EvalFx(rs, alpha, x), x) == GfAdd(EvalFx(rs, alpha, x'), x')
    ensures GfAdd(EvalFx(rs, alpha, x), x) == GfMul(Horner(rs, alpha), alpha)
  {
    GfAddCancel(GfMul(Horner(rs, alpha), alpha), x);
    GfAddCancel(GfMul(Horner(rs, alpha), alpha), x');
  }
}
