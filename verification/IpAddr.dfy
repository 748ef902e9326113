/** Network-order address arithmetic (addr_offset, addr_delta and the prefix mask of
    ippool_create in task/src/ippool.c), against addresses read as numbers. */
module IpAddr {
  import opened Arith
  import opened Basics
  import opened BigEndian

  /** addr_offset: out = addr + index, carrying towards the front. */
  method AddrOffset(addr: bytes, index: nat) returns (out: bytes)
    ensures |out| == |addr|
    ensures out == Spell((BE(addr) + index) % Pow256(|addr|), |addr|)
    ensures BE(out) == (BE(addr) + index) % Pow256(|addr|)
  {
    hide BE, Pow256, Spell;
    out := addr;
    var carry: nat, i: nat := index, |addr|;
    OffsetStart(addr, index);
    while i > 0 && carry > 0
      invariant 0 <= i <= |addr| == |out|
      invariant Carried(addr, index, out, i, carry)
      decreases i
    {
      i := i - 1;
      OffsetStep(addr, index, out, i, carry);
      carry := carry + out[i] as nat;
      out := out[i := carry % 256];
      carry := carry / 256;
    }
    OffsetEnd(addr, index, out, i, carry);
  }

  /** The sum, with the carry still to go in at octet i. */
  ghost predicate Carried(addr: bytes, index: nat, out: bytes, i: nat, carry: nat) {
    i <= |out| == |addr| && BE(addr) + index == BE(out) + carry * Pow256(|out| - i)
  }

  lemma OffsetStart(addr: bytes, index: nat)
    ensures Carried(addr, index, addr, |addr|, index)
  {
  }

  /** Changing octet i changes the number by that many units of its place. */
  lemma BEUpdate(b: bytes, i: nat, x: byte)
    requires i < |b|
    ensures BE(b[i := x]) + b[i] * Pow256(|b| - i - 1) == BE(b) + x * Pow256(|b| - i - 1)
  {
    hide BE, Pow256;
    var tail, p := b[i + 1..], Pow256(|b| - i - 1);
    assert b == (b[..i] + [b[i]]) + tail && b[i := x] == (b[..i] + [x]) + tail;
    BEJoin(b[..i] + [b[i]], tail);
    BEJoin(b[..i] + [x], tail);
    BESnoc(b[..i], b[i]);
    BESnoc(b[..i], x);
    Spread(BE(b[..i]), b[i], p);
    Spread(BE(b[..i]), x, p);
  }

  lemma Spread(a: nat, x: nat, p: nat)
    ensures (256 * a + x) * p == 256 * a * p + x * p
  {
  }

  lemma OffsetStep(addr: bytes, index: nat, out: bytes, i: nat, carry: nat)
    requires i < |out| && Carried(addr, index, out, i + 1, carry)
    ensures var c := carry + out[i] as nat;
            Carried(addr, index, out[i := c % 256], i, c / 256)
  {
    hide BE, Pow256;
    var c := carry + out[i] as nat;
    BEUpdate(out, i, c % 256);
    var p := Pow256(|out| - i - 1);
    PowStep(|out| - i - 1);
    CarrySplit(carry, out[i], p);
  }

  lemma CarrySplit(carry: nat, x: nat, p: nat)
    ensures var c := carry + x; carry * p + x * p == (c % 256) * p + (c / 256) * (256 * p)
  {
    var c := carry + x;
    assert c == 256 * (c / 256) + c % 256;
    assert (256 * (c / 256) + c % 256) * p == (c / 256) * (256 * p) + (c % 256) * p;
  }

  lemma OffsetEnd(addr: bytes, index: nat, out: bytes, i: nat, carry: nat)
    requires Carried(addr, index, out, i, carry) && (i == 0 || carry == 0)
    ensures out == Spell((BE(addr) + index) % Pow256(|addr|), |addr|)
    ensures BE(out) == (BE(addr) + index) % Pow256(|addr|)
  {
    hide BE, Pow256, Spell;
    SpellInverse(out);
    if i == 0 {
      DivModUnique(BE(addr) + index, Pow256(|addr|), carry, BE(out));
    } else {
      DivModUnique(BE(addr) + index, Pow256(|addr|), 0, BE(out));
    }
  }

  /** addr_delta: a - b, when it is not negative and fits 64 bits. */
  method AddrDelta(a: bytes, b: bytes) returns (d: Option<nat>)
    requires |a| == |b|
    ensures d.Some? <==> BE(b) <= BE(a) < BE(b) + Pow256(8)
    ensures d.Some? ==> d.value == BE(a) - BE(b)
  {
    hide BE, Pow256;
    var diff: bytes, borrow: nat, i: nat := a, 0, |a|;
    DeltaStart(a, b);
    while i > 0
      invariant 0 <= i <= |a| == |diff| && 0 <= borrow <= 1
      invariant Borrowed(a, b, diff, i, borrow)
    {
      i := i - 1;
      DeltaStep(a, b, diff, i, borrow);
      var v: int := a[i] as int - b[i] as int - borrow;
      borrow := if v < 0 then 1 else 0;
      diff := diff[i := if v < 0 then v + 256 else v];
    }
    DeltaEnd(a, b, diff, borrow);
    if borrow == 1 { return None; }
    var skip := if |a| > 8 then |a| - 8 else 0;
    BEParts(diff, skip);
    i := 0;
    while i + 8 < |a|
      invariant 0 <= i && (i > 0 ==> i + 7 < |a|)
      invariant AllZero(diff[..i])
    {
      if diff[i] != 0 {
        NotAllZero(diff[..skip], i);
        return None;
      }
      i := i + 1;
      assert diff[..i] == diff[..i - 1] + [0];
    }
    assert diff[..i] == diff[..skip];
    ZeroIsZero(diff[..skip]);
    i := skip;
    var n: nat := 0;
    assert diff[skip..i] == [];
    EmptyIsZero();
    while i < |a|
      invariant skip <= i <= |a| && n == BE(diff[skip..i])
    {
      BESnoc(diff[skip..i], diff[i]);
      assert diff[skip..i + 1] == diff[skip..i] + [diff[i]];
      n := n * 256 + diff[i];
      i := i + 1;
    }
    assert diff[skip..i] == diff[skip..];
    return Some(n);
  }

  predicate AllZero(b: bytes) { forall i :: 0 <= i < |b| ==> b[i] == 0 }

  lemma {:induction false} ZeroIsZero(b: bytes)
    requires AllZero(b)
    ensures BE(b) == 0
    decreases |b|
  {
    if b != [] { ZeroIsZero(b[..|b| - 1]); }
  }

  lemma {:induction false} NotAllZero(b: bytes, i: nat)
    requires i < |b| && b[i] != 0
    ensures BE(b) > 0
    decreases |b|
  {
    if i < |b| - 1 { NotAllZero(b[..|b| - 1], i); }
  }

  /** A run is wider than 64 bits exactly when something above its last eight octets is set. */
  lemma BEParts(b: bytes, skip: nat)
    requires skip == if |b| > 8 then |b| - 8 else 0
    ensures BE(b[..skip]) == 0 ==> BE(b) == BE(b[skip..]) < Pow256(8)
    ensures BE(b[..skip]) > 0 ==> BE(b) >= Pow256(8)
  {
    hide BE, Pow256;
    assert b == b[..skip] + b[skip..];
    BEJoin(b[..skip], b[skip..]);
    SpellInverse(b[skip..]);
    PowMono(|b[skip..]|, 8);
    if BE(b[..skip]) > 0 {
      if skip == 0 { assert b[..skip] == []; EmptyIsZero(); }
      MulMono(1, BE(b[..skip]), Pow256(|b[skip..]|));
    }
  }

  /** The octets from i on of the difference, with a borrow still to come off octet i - 1. */
  ghost predicate Borrowed(a: bytes, b: bytes, diff: bytes, i: nat, borrow: nat) {
    && i <= |diff| == |a| == |b|
    && BE(a[i..]) + borrow * Pow256(|a| - i) == BE(b[i..]) + BE(diff[i..])
  }

  lemma DeltaStart(a: bytes, b: bytes)
    requires |a| == |b|
    ensures Borrowed(a, b, a, |a|, 0)
  {
    assert a[|a|..] == [] && b[|b|..] == [];
  }

  lemma BECons(b: bytes, i: nat)
    requires i < |b|
    ensures BE(b[i..]) == b[i] * Pow256(|b| - i - 1) + BE(b[i + 1..])
  {
    hide BE, Pow256;
    assert b[i..] == [b[i]] + b[i + 1..];
    BEJoin([b[i]], b[i + 1..]);
    EmptyIsZero();
    BESnoc([], b[i]);
    assert [] + [b[i]] == [b[i]];
  }

  lemma DeltaStep(a: bytes, b: bytes, diff: bytes, i: nat, borrow: nat)
    requires i < |diff| && borrow <= 1 && Borrowed(a, b, diff, i + 1, borrow)
    ensures var v := a[i] as int - b[i] as int - borrow;
            var w := if v < 0 then v + 256 else v;
            0 <= w < 256 && Borrowed(a, b, diff[i := w], i, if v < 0 then 1 else 0)
  {
    hide BE, Pow256;
    var v := a[i] as int - b[i] as int - borrow;
    var w := if v < 0 then v + 256 else v;
    var d := diff[i := w];
    assert d[i + 1..] == diff[i + 1..];
    BECons(a, i);
    BECons(b, i);
    BECons(d, i);
    PowStep(|a| - i - 1);
    BorrowSplit(a[i], b[i], borrow, w, if v < 0 then 1 else 0, Pow256(|a| - i - 1));
  }

  lemma BorrowSplit(x: nat, y: nat, borrow: nat, w: nat, next: nat, p: nat)
    requires x + 256 * next == y + borrow + w
    ensures x * p + next * (256 * p) == y * p + borrow * p + w * p
  {
    assert (x + 256 * next) * p == x * p + next * (256 * p);
    assert (y + borrow + w) * p == y * p + borrow * p + w * p;
  }

  lemma DeltaEnd(a: bytes, b: bytes, diff: bytes, borrow: nat)
    requires Borrowed(a, b, diff, 0, borrow) && borrow <= 1
    ensures borrow == 1 <==> BE(a) < BE(b)
    ensures borrow == 0 ==> BE(diff) == BE(a) - BE(b)
  {
    hide BE, Pow256;
    assert a[0..] == a && b[0..] == b && diff[0..] == diff;
    SpellInverse(diff);
  }

  // ---------- prefixes ----------

  /** Host bits among the first i octets. */
  function HostBits(plen: nat, i: nat): nat { if 8 * i <= plen then 0 else 8 * i - plen }

  /** The greatest multiple of p that is not above v. */
  function Floor(v: nat, p: nat): (r: nat)
    requires p > 0
    ensures r <= v < r + p
  {
    FloorIs(v, p);
    v - v % p
  }

  lemma FloorIs(v: nat, p: nat)
    requires p > 0
    ensures 0 <= v - v % p == v / p * p
  {
    MulMono(0, v / p, p);
  }

  /** The mask loop of ippool_create: the prefix with its host part cleared. */
  method MaskPrefix(p: bytes, plen: nat) returns (net: bytes)
    ensures |net| == |p|
    ensures BE(net) == Floor(BE(p), Pow2(HostBits(plen, |p|)))
  {
    hide BE, Floor, HostBits;
    net := [];
    MaskStart(p, plen);
    for i := 0 to |p|
      invariant |net| == i
      invariant BE(net) == Floor(BE(p[..i]), Pow2(HostBits(plen, i)))
    {
      var keep := if plen > i * 8 then plen - i * 8 else 0;
      var unit := if keep >= 8 then 1 else Sh(8 - keep);   // the mask clears what is below it
      MaskStep(p, plen, i, net, p[i] / unit * unit);
      net := net + [p[i] / unit * unit];
    }
    assert p[..|p|] == p;
  }

  lemma MaskStart(p: bytes, plen: nat)
    ensures BE([]) == Floor(BE(p[..0]), Pow2(HostBits(plen, 0)))
  {
  }

  lemma MaskStep(p: bytes, plen: nat, i: nat, net: bytes, m: byte)
    requires i < |p| && BE(net) == Floor(BE(p[..i]), Pow2(HostBits(plen, i)))
    requires var keep := if plen > i * 8 then plen - i * 8 else 0;
             var unit := if keep >= 8 then 1 else Sh(8 - keep); m == p[i] / unit * unit
    ensures BE(net + [m]) == Floor(BE(p[..i + 1]), Pow2(HostBits(plen, i + 1)))
  {
    hide BE, Pow2, Sh, Floor;
    BESnoc(net, m);
    BESnoc(p[..i], p[i]);
    assert p[..i + 1] == p[..i] + [p[i]];
    var x, h := BE(p[..i]), HostBits(plen, i);
    Pow2One();
    if plen >= 8 * (i + 1) {
      FloorOne(x);
      FloorOne(256 * x + p[i]);
    } else if plen > 8 * i {
      var t := 8 * (i + 1) - plen;
      FloorOne(x);
      Pow2Small(t);
      ShDivides(t);
      PartialOctet(x, p[i], Sh(t), 256 / Sh(t));
    } else {
      ShTop();
      Pow2Add(8, h);
      Pow2Small(8);
      WholeOctet(x, p[i], Pow2(h));
    }
  }

  lemma FloorOne(x: nat)
    ensures Floor(x, 1) == x
  {
  }

  lemma Pow2One()
    ensures Pow2(0) == 1
  {
  }

  lemma ShTop()
    ensures Sh(8) == 256
  {
  }

  lemma ShDivides(t: nat)
    requires t <= 8
    ensures 256 == (256 / Sh(t)) * Sh(t)
  {
  }

  lemma PartialOctet(x: nat, b: nat, m: nat, q: nat)
    requires m > 0 && 256 == q * m
    ensures Floor(256 * x + b, m) == 256 * x + b / m * m
  {
    FloorIs(256 * x + b, m);
    assert 256 * x == (x * q) * m by { assert (x * q) * m == x * (q * m); }
    AddMultiple(b, x * q, m);
    assert (b / m + x * q) * m == b / m * m + (x * q) * m;
  }

  lemma WholeOctet(x: nat, b: nat, p: nat)
    requires b < 256 && p > 0
    ensures 256 * p > 0 && Floor(256 * x + b, 256 * p) == 256 * Floor(x, p)
  {
    FloorIs(x, p);
    FloorIs(256 * x + b, 256 * p);
    DivModUnique(256 * x + b, 256, x, b);
    DivDiv(256 * x + b, 256, p);
    assert (x / p) * (256 * p) == 256 * (x / p * p);
  }
}
