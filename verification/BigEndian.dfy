/** Runs of octets as numbers, most significant first. */
module BigEndian {
  import opened Arith
  import opened Basics

  /** The number a run of octets spells, most significant first. */
  function BE(b: bytes): nat {
    if b == [] then 0 else 256 * BE(b[..|b| - 1]) + b[|b| - 1]
  }

  /** And the run of n octets that spells a number. */
  function Spell(v: nat, n: nat): (b: bytes)
    ensures |b| == n
  {
    if n == 0 then [] else Spell(v / 256, n - 1) + [v % 256]
  }

  function Pow256(n: nat): (r: nat)
    ensures r >= 1
  {
    if n == 0 then 1 else 256 * Pow256(n - 1)
  }

  lemma {:induction false} SpellInverse(b: bytes)
    ensures BE(b) < Pow256(|b|) && Spell(BE(b), |b|) == b
    decreases |b|
  {
    if b != [] {
      var n := |b| - 1;
      SpellInverse(b[..n]);
      DivModUnique(BE(b), 256, BE(b[..n]), b[n]);
      assert b == b[..n] + [b[n]];
    }
  }

  lemma {:induction false} BEInverse(v: nat, n: nat)
    requires v < Pow256(n)
    ensures BE(Spell(v, n)) == v
    decreases n
  {
    if n > 0 {
      BEInverse(v / 256, n - 1);
      var b := Spell(v, n);
      assert b[..n - 1] == Spell(v / 256, n - 1);
    }
  }

  lemma {:induction false} BEJoin(x: bytes, y: bytes)
    ensures BE(x + y) == BE(x) * Pow256(|y|) + BE(y)
    decreases |y|
  {
    if y == [] {
      assert x + y == x;
    } else {
      var n := |y| - 1;
      BEJoin(x, y[..n]);
      assert (x + y)[..|x + y| - 1] == x + y[..n];
      assert 256 * (BE(x) * Pow256(n)) == BE(x) * (256 * Pow256(n));
    }
  }

  lemma BESnoc(b: bytes, x: byte)
    ensures BE(b + [x]) == 256 * BE(b) + x
  {
    assert (b + [x])[..|b|] == b;
  }

  lemma PowStep(n: nat)
    ensures Pow256(n + 1) == 256 * Pow256(n)
  {
  }

  lemma {:induction false} PowMono(m: nat, n: nat)
    requires m <= n
    ensures Pow256(m) <= Pow256(n)
    decreases n
  {
    if m < n { PowMono(m, n - 1); }
  }

  lemma EmptyIsZero()
    ensures BE([]) == 0
  {
  }

  lemma SpellLength(v: nat, n: nat)
    ensures |Spell(v, n)| == n
  {
  }
}
