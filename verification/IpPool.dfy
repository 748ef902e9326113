/** The address pool as a set of slots with a rotating cursor, and what its reuse discipline
    means over whole runs (task/inc/ippool.h). */
module PoolSpec {
  datatype Pool = Pool(size: nat, taken: set<nat>, cursor: nat)

  predicate Ok(p: Pool) {
    p.cursor < p.size && forall i :: i in p.taken ==> i < p.size
  }

  /** Places from the cursor round to slot x. */
  function Dist(p: Pool, x: nat): (d: nat)
    requires Ok(p) && x < p.size
    ensures d < p.size
  {
    if x >= p.cursor then x - p.cursor else x + p.size - p.cursor
  }

  /** What a call did; Refused covers every call that changes nothing. */
  datatype Event = Took(slot: nat) | Full | Reserved(slot: nat) | Freed(slot: nat) | Refused

  /** x is the first free slot in cyclic order from the cursor. */
  ghost predicate FirstFree(p: Pool, x: nat)
    requires Ok(p)
  {
    && x < p.size && x !in p.taken
    && forall y :: 0 <= y < p.size && Dist(p, y) < Dist(p, x) ==> y in p.taken
  }

  function Next(p: Pool, x: nat): nat { if x + 1 < p.size then x + 1 else 0 }

  ghost predicate Step(p: Pool, e: Event, q: Pool)
    requires Ok(p)
  {
    match e
    case Took(x) => FirstFree(p, x) && q == Pool(p.size, p.taken + {x}, Next(p, x))
    case Full => q == p && forall i :: 0 <= i < p.size ==> i in p.taken
    case Reserved(x) => x < p.size && x !in p.taken && q == p.(taken := p.taken + {x})
    case Freed(x) => x in p.taken && q == p.(taken := p.taken - {x})
    case Refused => q == p
  }

  ghost predicate StepAt(ps: seq<Pool>, es: seq<Event>, i: nat)
    requires i < |es| && |ps| == |es| + 1
  {
    Ok(ps[i]) && Ok(ps[i + 1]) && ps[i].size == ps[0].size && Step(ps[i], es[i], ps[i + 1])
  }

  /** A run of calls without a reset. */
  ghost predicate Run(ps: seq<Pool>, es: seq<Event>) {
    && |ps| == |es| + 1 && Ok(ps[0])
    && forall i :: 0 <= i < |es| ==> StepAt(ps, es, i)
  }

  /** The allocation's sweep passed y: it handed y out, or found it allocated. */
  ghost predicate Swept(p: Pool, e: Event, y: nat)
    requires Ok(p) && y < p.size
  {
    e.Took? && e.slot < p.size && Dist(p, y) <= Dist(p, e.slot)
  }

  lemma SweptMeans(p: Pool, e: Event, q: Pool, y: nat)
    requires Ok(p) && y < p.size && Step(p, e, q)
    ensures Swept(p, e, y) ==> y == e.slot || y in p.taken
  {
  }

  /** Two slots keep their order from the cursor until the nearer one is swept. */
  lemma OneStep(p: Pool, e: Event, q: Pool, x: nat, y: nat)
    requires Ok(p) && Ok(q) && Step(p, e, q) && x < p.size && y < p.size
    requires Dist(p, y) < Dist(p, x) && !Swept(p, e, y)
    ensures q.size == p.size && Dist(q, y) < Dist(q, x) && !Swept(p, e, x)
  {
  }

  /** Nothing sweeps x before y has been swept. */
  lemma {:induction false} NearerFirst(ps: seq<Pool>, es: seq<Event>, i: nat, j: nat, x: nat, y: nat)
    requires Run(ps, es) && i <= j < |es| && x < ps[0].size && y < ps[0].size
    requires StepAt(ps, es, i) && StepAt(ps, es, j) && Dist(ps[i], y) < Dist(ps[i], x) && Swept(ps[j], es[j], x)
    ensures exists r :: i <= r <= j && SweptAt(ps, es, r, y)
    decreases j - i
  {
    if Swept(ps[i], es[i], y) {
      assert SweptAt(ps, es, i, y);
    } else {
      OneStep(ps[i], es[i], ps[i + 1], x, y);
      assert i < j;
      assert StepAt(ps, es, i + 1);
      NearerFirst(ps, es, i + 1, j, x, y);
    }
  }

  ghost predicate SweptAt(ps: seq<Pool>, es: seq<Event>, r: nat, y: nat)
    requires |ps| == |es| + 1
  {
    r < |es| && Ok(ps[r]) && y < ps[r].size && Swept(ps[r], es[r], y)
  }

  /** Between two hand-outs of one slot every other slot is swept: it is handed out, or it is found
      taken. */
  lemma ReuseSweepsAll(ps: seq<Pool>, es: seq<Event>, i: nat, j: nat, x: nat, y: nat)
    requires Run(ps, es) && i < j < |es| && es[i] == Took(x) && es[j] == Took(x)
    requires y < ps[0].size && y != x
    ensures exists r :: i < r <= j && SweptAt(ps, es, r, y) && (es[r] == Took(y) || y in ps[r].taken)
  {
    assert StepAt(ps, es, i) && StepAt(ps, es, i + 1) && StepAt(ps, es, j);
    assert ps[i + 1].cursor == Next(ps[i], x);
    assert Dist(ps[i + 1], x) == ps[0].size - 1;
    NearerFirst(ps, es, i + 1, j, x, y);
    var r :| i < r <= j && SweptAt(ps, es, r, y);
    assert StepAt(ps, es, r);
    SweptMeans(ps[r], es[r], ps[r + 1], y);
  }

  /** Successful allocations among es[i..j]. */
  ghost function Hands(es: seq<Event>, i: nat, j: nat): nat
    requires i <= j <= |es|
    decreases j - i
  {
    if i == j then 0 else (if es[i].Took? then 1 else 0) + Hands(es, i + 1, j)
  }

  /** A free slot nobody reserves waits for at most the slots ahead of it. */
  lemma {:induction false} FreeWait(ps: seq<Pool>, es: seq<Event>, i: nat, j: nat, y: nat)
    requires Run(ps, es) && i <= j <= |es| && Ok(ps[i]) && ps[i].size == ps[0].size
    requires y < ps[0].size && y !in ps[i].taken
    requires forall r :: i <= r < j ==> es[r] != Reserved(y) && es[r] != Took(y)
    ensures Hands(es, i, j) <= Dist(ps[i], y)
    decreases j - i
  {
    if i < j {
      assert StepAt(ps, es, i);
      FreeWait(ps, es, i + 1, j, y);
    }
  }

  /** So it is handed out within at most size successful allocations. */
  lemma FreeIsHandedOut(ps: seq<Pool>, es: seq<Event>, i: nat, j: nat, y: nat)
    requires Run(ps, es) && i <= j <= |es| && Ok(ps[i]) && ps[i].size == ps[0].size
    requires y < ps[0].size && y !in ps[i].taken && Hands(es, i, j) >= ps[0].size
    requires forall r :: i <= r < j ==> es[r] != Reserved(y)
    ensures exists r :: i <= r < j && es[r] == Took(y)
  {
    if forall r :: i <= r < j ==> es[r] != Took(y) {
      FreeWait(ps, es, i, j, y);
    }
  }

  // ---------- how long a released slot rests ----------

  /** Every run from p that hands x out has swept y by then. */
  ghost predicate Rests(p: Pool, x: nat, y: nat) {
    forall ps: seq<Pool>, es: seq<Event> {:trigger Run(ps, es)} ::
      Run(ps, es) && ps[0] == p && |es| > 0 && es[|es| - 1] == Took(x)
      ==> exists r :: 0 <= r < |es| && SweptAt(ps, es, r, y)
  }

  /** The header says a released address goes out again only after the cursor has swept the
      rest of the pool. That is so exactly for the slots nearer to the cursor. */
  lemma RestsExactly(p: Pool, x: nat, y: nat)
    requires Ok(p) && x < p.size && y < p.size && x != y && x !in p.taken
    ensures Rests(p, x, y) <==> Dist(p, y) < Dist(p, x)
  {
    if Dist(p, y) < Dist(p, x) {
      forall ps: seq<Pool>, es: seq<Event> |
        Run(ps, es) && ps[0] == p && |es| > 0 && es[|es| - 1] == Took(x)
        ensures exists r :: 0 <= r < |es| && SweptAt(ps, es, r, y)
      {
        assert StepAt(ps, es, 0) && StepAt(ps, es, |es| - 1);
        NearerFirst(ps, es, 0, |es| - 1, x, y);
      }
    } else {
      var ps, es := StraightTo(p, x, y, 0);
      assert Run(ps, es);
      assert !exists r :: 0 <= r < |es| && SweptAt(ps, es, r, y);
    }
  }

  /** Reserving whatever is free before x makes x the next hand-out: a run that never looks
      past x. */
  lemma {:induction false} StraightTo(p: Pool, x: nat, y: nat, k: nat) returns (ps: seq<Pool>, es: seq<Event>)
    requires Ok(p) && x < p.size && y < p.size && x !in p.taken && Dist(p, x) < Dist(p, y)
    requires k <= Dist(p, x)
    requires forall z :: 0 <= z < p.size && Dist(p, z) < k ==> z in p.taken
    ensures Run(ps, es) && ps[0] == p && |es| > 0 && es[|es| - 1] == Took(x)
    ensures forall r :: 0 <= r < |es| ==> !SweptAt(ps, es, r, y)
    decreases Dist(p, x) - k
  {
    if k == Dist(p, x) {
      ps, es := [p, Pool(p.size, p.taken + {x}, Next(p, x))], [Took(x)];
      assert StepAt(ps, es, 0);
    } else {
      var z := if p.cursor + k < p.size then p.cursor + k else p.cursor + k - p.size;
      assert Dist(p, z) == k;
      if z in p.taken {
        ps, es := StraightTo(p, x, y, k + 1);
      } else {
        var q := p.(taken := p.taken + {z});
        var qs, fs := StraightTo(q, x, y, k + 1);
        ps, es := [p] + qs, [Reserved(z)] + fs;
        Prepend(p, z, qs, fs, y);
      }
    }
  }

  lemma Prepend(p: Pool, z: nat, qs: seq<Pool>, fs: seq<Event>, y: nat)
    requires Ok(p) && z < p.size && z !in p.taken
    requires Run(qs, fs) && qs[0] == p.(taken := p.taken + {z})
    requires forall r :: 0 <= r < |fs| ==> !SweptAt(qs, fs, r, y)
    ensures Run([p] + qs, [Reserved(z)] + fs)
    ensures forall r :: 0 <= r < |fs| + 1 ==> !SweptAt([p] + qs, [Reserved(z)] + fs, r, y)
  {
    var ps, es := [p] + qs, [Reserved(z)] + fs;
    forall i | 0 <= i < |es| ensures StepAt(ps, es, i) && !SweptAt(ps, es, i, y) {
      if i > 0 { assert StepAt(qs, fs, i - 1) && !SweptAt(qs, fs, i - 1, y); }
    }
  }

  /** With two slots: hand out both, release 1, release 0, allocate. Slot 0 goes out again at
      once, and the free slot 1 is not looked at. */
  lemma ReleasedGoesOutAtOnce()
    ensures var ps := [Pool(2, {}, 0), Pool(2, {0}, 1), Pool(2, {0, 1}, 0), Pool(2, {0}, 0), Pool(2, {}, 0), Pool(2, {0}, 1)];
            var es := [Took(0), Took(1), Freed(1), Freed(0), Took(0)];
            Run(ps, es) && !SweptAt(ps, es, 4, 1)
  {
    var ps := [Pool(2, {}, 0), Pool(2, {0}, 1), Pool(2, {0, 1}, 0), Pool(2, {0}, 0), Pool(2, {}, 0), Pool(2, {0}, 1)];
    var es := [Took(0), Took(1), Freed(1), Freed(0), Took(0)];
    assert {0} + {1} == {0, 1} && {0, 1} - {1} == {0} && {0} - {0} == {};
    forall i | 0 <= i < 5 ensures StepAt(ps, es, i) {
    }
  }
}

/** The pool as the code keeps it: an occupancy bitmap in 64-bit words, a counter and a cursor
    (task/src/ippool.c). */
module IpPool {
  import opened Arith
  import opened Basics
  import opened BigEndian
  import opened IpAddr
  import PoolSpec

  const MAX_SIZE := 0x100_0000

  /** A 64-bit word as its bits, bit k at index k. */
  type word = w: seq<bool> | |w| == 64 witness seq(64, _ => false)

  function Zero(): word { seq(64, _ => false) }

  function Ones(): word { seq(64, _ => true) }

  /** ~0 << k */
  function From(k: nat): word { seq(64, i => i >= k) }

  /** ~w & mask */
  function FreeIn(w: word, mask: word): word { seq(64, i requires 0 <= i < 64 => !w[i] && mask[i]) }

  /** Count trailing zeros of a nonzero word. */
  method Lowest(w: word) returns (k: nat)
    requires true in w
    ensures k < 64 && w[k] && forall j :: 0 <= j < k ==> !w[j]
  {
    ghost var i :| 0 <= i < 64 && w[i];
    k := 0;
    while !w[k]
      invariant 0 <= k <= i
      invariant forall j :: 0 <= j < k ==> !w[j]
      decreases i - k
    {
      k := k + 1;
    }
  }

  datatype Result = Done | Full | Range | InUse | NotTaken

  predicate On(bs: seq<word>, i: nat)
    requires i / 64 < |bs|
  {
    bs[i / 64][i % 64]
  }

  ghost function TakenIn(bs: seq<word>, size: nat): set<nat>
    requires |bs| == (size + 63) / 64
  {
    set i: nat | i < size && On(bs, i)
  }

  /** The bits past size are set. */
  ghost predicate Padded(bs: seq<word>, size: nat) {
    forall i: nat :: size <= i < 64 * |bs| ==> On(bs, i)
  }

  /** What changing one bit does to the set. */
  lemma SetOne(bs: seq<word>, size: nat, i: nat, on: bool)
    requires |bs| == (size + 63) / 64 && i < size && Padded(bs, size)
    ensures var cs := bs[i / 64 := bs[i / 64][i % 64 := on]];
            && Padded(cs, size)
            && TakenIn(cs, size) == if on then TakenIn(bs, size) + {i} else TakenIn(bs, size) - {i}
  {
    var cs := bs[i / 64 := bs[i / 64][i % 64 := on]];
    forall k: nat | k < 64 * |bs| ensures On(cs, k) == if k == i then on else On(bs, k) {
      if k / 64 == i / 64 && k != i { assert k % 64 != i % 64; }
    }
  }

  lemma NotTakenYet(bs: seq<word>, size: nat, i: nat)
    requires |bs| == (size + 63) / 64 && i < size
    ensures i in TakenIn(bs, size) <==> On(bs, i)
  {
  }

  class Pool {
    const base: bytes
    const size: nat
    var used: nat
    var cursor: nat
    const bits: array<word>

    predicate Bit(i: nat)
      reads this, bits
      requires i / 64 < bits.Length
      ensures Bit(i) == On(bits[..], i)
    {
      bits[i / 64][i % 64]
    }

    /** Padding past size is set, used counts the rest, and the last address does not pass the
        width. */
    ghost predicate Valid()
      reads this, bits
    {
      && Shaped(base, size) && bits.Length == (size + 63) / 64 && cursor < size
      && Padded(bits[..], size) && used == |Taken()|
    }

    ghost function Taken(): set<nat>
      reads this, bits
      requires bits.Length == (size + 63) / 64
    {
      TakenIn(bits[..], size)
    }

    ghost function View(): (p: PoolSpec.Pool)
      reads this, bits
      requires Valid()
      ensures PoolSpec.Ok(p)
    {
      PoolSpec.Pool(size, Taken(), cursor)
    }

    /** pool_new. */
    constructor (first: bytes, n: nat)
      requires n > 0 && Shaped(first, Clamped(n))
      ensures Valid() && fresh(bits)
      ensures base == first && size == Clamped(n)
      ensures View() == PoolSpec.Pool(size, {}, 0)
    {
      var count := if n > MAX_SIZE then MAX_SIZE else n;
      base, size, used, cursor := first, count, 0, 0;
      bits := new word[(count + 63) / 64](_ => Zero());
      new;
      MarkTail();
    }

    /** mark_tail: slots past size share the last word and are pre-set. */
    method MarkTail()
      requires size > 0 && bits.Length == (size + 63) / 64
      requires forall w :: 0 <= w < bits.Length ==> bits[w] == Zero()
      modifies bits
      ensures Padded(bits[..], size) && TakenIn(bits[..], size) == {}
    {
      var tail := size % 64;
      if tail > 0 {
        bits[bits.Length - 1] := From(tail);
      }
      forall i: nat | i < 64 * bits.Length ensures On(bits[..], i) == (i >= size) {
        assert i / 64 < bits.Length - 1 ==> bits[i / 64] == Zero();
      }
    }

    /** Where the sweep stands after n words: what it has passed is set. */
    ghost predicate Passed(n: nat, w: nat)
      reads this, bits
      requires bits.Length == (size + 63) / 64
    {
      var first := cursor / 64;
      if first + n < bits.Length then
        w == first + n && forall y :: cursor <= y < 64 * w && y < size ==> Bit(y)
      else
        && w == first + n - bits.Length
        && (forall y :: cursor <= y < size ==> Bit(y))
        && (forall y :: 0 <= y < 64 * w && y < size ==> Bit(y))
    }

    /** The word at w is full under the mask: the sweep has passed it. */
    lemma PassWord(n: nat, w: nat, mask: word)
      requires Valid() && n <= bits.Length && Passed(n, w) && w < bits.Length
      requires mask == if n == 0 then From(cursor % 64) else Ones()
      requires true !in FreeIn(bits[w], mask)
      ensures n < bits.Length ==> Passed(n + 1, if w + 1 == bits.Length then 0 else w + 1)
      ensures n == bits.Length ==> forall y :: 0 <= y < size ==> Bit(y)
    {
      forall y: nat | 64 * w <= y < 64 * w + 64 && (n == 0 ==> y >= cursor) ensures Bit(y) {
        var f := FreeIn(bits[w], mask);
        assert !f[y % 64];
      }
    }

    /** The lowest free bit found is the first free slot from the cursor. */
    lemma FoundFirst(n: nat, w: nat, mask: word, k: nat)
      requires Valid() && n <= bits.Length && Passed(n, w) && w < bits.Length && k < 64
      requires mask == if n == 0 then From(cursor % 64) else Ones()
      requires var f := FreeIn(bits[w], mask); f[k] && forall j :: 0 <= j < k ==> !f[j]
      ensures PoolSpec.FirstFree(View(), 64 * w + k)
    {
      var slot, f, p := 64 * w + k, FreeIn(bits[w], mask), View();
      assert slot / 64 == w && slot % 64 == k;
      assert !Bit(slot) && (n == 0 ==> slot >= cursor);
      assert slot < size;
      forall y | 0 <= y < size && PoolSpec.Dist(p, y) < PoolSpec.Dist(p, slot) ensures y in p.taken {
        if 64 * w <= y < slot && (n == 0 ==> y >= cursor) {
          assert y / 64 == w && !f[y % 64];
        }
        assert Bit(y);
      }
    }

    /** Setting a free bit. */
    method Claim(i: nat)
      requires Valid() && i < size && !Bit(i)
      modifies this`used, bits
      ensures Valid() && cursor == old(cursor)
      ensures Taken() == old(Taken()) + {i}
    {
      hide BE, Pow256, TakenIn;
      NotTakenYet(bits[..], size, i);
      SetOne(bits[..], size, i, true);
      bits[i / 64] := bits[i / 64][i % 64 := true];
      used := used + 1;
    }

    /** The sweep of ippool_alloc: one word at a time from the cursor, the first word masked. */
    method Sweep() returns (r: Option<nat>)
      requires Valid()
      ensures r.Some? ==> PoolSpec.FirstFree(View(), r.value)
      ensures r.None? ==> forall y :: 0 <= y < size ==> y in Taken()
    {
      hide BE, Pow256, TakenIn, Passed, FreeIn, Padded;
      var w, mask, n := cursor / 64, From(cursor % 64), 0;
      PassedNone();
      while n <= bits.Length
        invariant 0 <= n <= bits.Length + 1 && 0 <= w < bits.Length
        invariant n <= bits.Length ==> Passed(n, w)
        invariant mask == if n == 0 then From(cursor % 64) else Ones()
        invariant n > bits.Length ==> forall y :: 0 <= y < size ==> Bit(y)
        decreases bits.Length + 1 - n
      {
        var free := FreeIn(bits[w], mask);
        if true in free {
          var k := Lowest(free);
          FoundFirst(n, w, mask, k);
          return Some(64 * w + k);
        }
        PassWord(n, w, mask);
        w := if w + 1 == bits.Length then 0 else w + 1;
        mask := Ones();
        n := n + 1;
      }
      forall y | 0 <= y < size ensures y in Taken() {
        assert Bit(y);
        NotTakenYet(bits[..], size, y);
      }
      return None;
    }

    lemma PassedNone()
      requires Valid()
      ensures Passed(0, cursor / 64)
    {
    }

    /** ippool_alloc. */
    method Alloc() returns (r: Result, out: bytes, ghost slot: nat)
      requires Valid()
      modifies this`used, this`cursor, bits
      ensures Valid()
      ensures r == Done || r == Result.Full
      ensures r == Done ==> PoolSpec.Step(old(View()), PoolSpec.Took(slot), View())
                            && out == Spell(BE(base) + slot, |base|)
      ensures r == Result.Full ==> PoolSpec.Step(old(View()), PoolSpec.Full, View())
    {
      hide BE, Pow256, Spell, Padded, TakenIn;
      AllTaken();
      out, slot := [], 0;
      if used == size { return Result.Full, out, slot; }
      var found := Sweep();
      if found.None? { return Result.Full, out, slot; }
      var i := found.value;
      slot := i;
      NotTakenYet(bits[..], size, i);
      Claim(i);
      cursor := if i + 1 < size then i + 1 else 0;
      out := SlotAddr(i);
      r := Done;
    }

    /** The counter says full exactly when every slot is taken. */
    lemma AllTaken()
      requires Valid()
      ensures used == size <==> forall i :: 0 <= i < size ==> i in Taken()
    {
      hide BE, Pow256, Padded;
      FullIff(Taken(), size);
    }

    /** slot_addr. */
    method SlotAddr(i: nat) returns (out: bytes)
      requires Shaped(base, size) && i < size
      ensures out == Spell(BE(base) + i, |base|)
      ensures |out| == |base| && BE(out) == BE(base) + i
    {
      hide BE, Pow256, Spell;
      out := AddrOffset(base, i);
      DivModUnique(BE(base) + i, Pow256(|base|), 0, BE(base) + i);
    }

    /** ippool_addr_at. */
    method AddrAt(i: nat) returns (r: Option<bytes>)
      requires Valid()
      ensures r == if i < size then Some(Spell(BE(base) + i, |base|)) else None
    {
      if i >= size { return None; }
      var out := SlotAddr(i);
      return Some(out);
    }

    /** ippool_index_of. */
    method IndexOf(addr: bytes) returns (r: Option<nat>)
      requires Valid()
      ensures r == SlotOf(base, size, addr)
    {
      hide BE, Pow256;
      if |addr| != |base| { return None; }
      var d := AddrDelta(addr, base);
      SmallPool();
      if d.None? || d.value >= size { return None; }
      return d;
    }

    /** ippool_reserve. */
    method Reserve(addr: bytes) returns (r: Result)
      requires Valid()
      modifies this`used, bits
      ensures Valid()
      ensures var i := SlotOf(base, size, addr);
              if i.None? then r == Range && View() == old(View())
              else if i.value in old(Taken()) then r == InUse && View() == old(View())
              else r == Done && PoolSpec.Step(old(View()), PoolSpec.Reserved(i.value), View())
    {
      hide BE, Pow256;
      var i := IndexOf(addr);
      if i.None? { return Range; }
      if Bit(i.value) { return InUse; }
      Claim(i.value);
      return Done;
    }

    /** ippool_free. */
    method Free(addr: bytes) returns (r: Result)
      requires Valid()
      modifies this`used, bits
      ensures Valid()
      ensures var i := SlotOf(base, size, addr);
              if i.None? then r == Range && View() == old(View())
              else if i.value !in old(Taken()) then r == NotTaken && View() == old(View())
              else r == Done && PoolSpec.Step(old(View()), PoolSpec.Freed(i.value), View())
    {
      hide BE, Pow256;
      var i := IndexOf(addr);
      if i.None? { return Range; }
      if !Bit(i.value) { return NotTaken; }
      SetOne(bits[..], size, i.value, false);
      assert i.value in Taken();
      assert Taken() == (Taken() - {i.value}) + {i.value};
      bits[i.value / 64] := bits[i.value / 64][i.value % 64 := false];
      used := used - 1;
      return Done;
    }

    /** ippool_is_allocated. */
    method IsAllocated(addr: bytes) returns (r: bool)
      requires Valid()
      ensures r <==> SlotOf(base, size, addr).Some? && SlotOf(base, size, addr).value in Taken()
    {
      hide BE, Pow256;
      var i := IndexOf(addr);
      return i.Some? && Bit(i.value);
    }

    /** ippool_reset. */
    method Reset()
      requires Valid()
      modifies this`used, this`cursor, bits
      ensures Valid() && View() == PoolSpec.Pool(size, {}, 0)
    {
      hide BE, Pow256;
      forall w | 0 <= w < bits.Length { bits[w] := Zero(); }
      MarkTail();
      used, cursor := 0, 0;
    }
  }

  /** An address run of either family whose last slot stays within the address width. */
  predicate Shaped(base: bytes, size: nat) {
    (|base| == 4 || |base| == 16) && 0 < size <= MAX_SIZE && BE(base) + size <= Pow256(|base|)
  }

  /** The slot an address names. */
  function SlotOf(base: bytes, size: nat, addr: bytes): Option<nat> {
    if |addr| == |base| && BE(base) <= BE(addr) < BE(base) + size then Some(BE(addr) - BE(base)) else None
  }

  /** Slots and addresses name each other. */
  lemma SlotAddrInverse(base: bytes, size: nat, i: nat, addr: bytes)
    requires Shaped(base, size)
    ensures i < size ==> SlotOf(base, size, Spell(BE(base) + i, |base|)) == Some(i)
    ensures SlotOf(base, size, addr).Some? ==>
              SlotOf(base, size, addr).value < size && Spell(BE(base) + SlotOf(base, size, addr).value, |base|) == addr
  {
    hide BE, Pow256, Spell;
    if i < size { BEInverse(BE(base) + i, |base|); SpellLength(BE(base) + i, |base|); }
    SpellInverse(addr);
  }

  lemma SmallPool()
    ensures MAX_SIZE < Pow256(8)
  {
  }

  ghost function Upto(n: nat): (s: set<nat>)
    ensures |s| == n && forall i: nat :: i in s <==> i < n
  {
    if n == 0 then {} else Upto(n - 1) + {n - 1}
  }

  lemma FullIff(t: set<nat>, size: nat)
    requires forall i :: i in t ==> i < size
    ensures |t| == size <==> forall i :: 0 <= i < size ==> i in t
  {
    var rest := Upto(size) - t;
    Split(t, Upto(size));
    if rest == {} {
      forall i | 0 <= i < size ensures i in t {
        assert i in Upto(size) && i !in rest;
      }
    } else {
      var x :| x in rest;
      assert x < size && x !in t && |rest| > 0;
    }
  }

  lemma Split(a: set<nat>, b: set<nat>)
    requires a <= b
    ensures |b| == |a| + |b - a|
  {
    assert b == a + (b - a);
  }

  // ---------- construction ----------

  lemma {:induction false} PowersAgree(n: nat)
    ensures Pow256(n) == Pow2(8 * n)
  {
    if n > 0 {
      PowersAgree(n - 1);
      Pow2Add(8, 8 * (n - 1));
      Pow2Small(8);
      ShTop();
    }
  }

  /** A block of p numbers that starts at a multiple of p stays below any multiple of p above
      its start. */
  lemma FloorRoom(v: nat, p: nat, q: nat)
    requires p > 0 && v < q * p
    ensures Floor(v, p) + p <= q * p
  {
    hide Floor;
    FloorTimes(v, p);
    if v / p >= q {
      MulMono(q, v / p, p);
    } else {
      MulMono(v / p + 1, q, p);
      assert (v / p + 1) * p == v / p * p + p;
    }
  }

  lemma FloorTimes(v: nat, p: nat)
    requires p > 0
    ensures Floor(v, p) == v / p * p <= v
  {
    FloorIs(v, p);
  }

  /** The block a prefix names lies within the address width. */
  lemma PrefixRoom(prefix: bytes, plen: nat)
    requires plen <= 8 * |prefix|
    ensures var block := Pow2(HostBits(plen, |prefix|));
            Floor(BE(prefix), block) + block <= Pow256(|prefix|)
  {
    hide BE, Pow2, Pow256, Floor;
    var h := HostBits(plen, |prefix|);
    PowersAgree(|prefix|);
    Pow2Add(plen, h);
    SpellInverse(prefix);
    FloorRoom(BE(prefix), Pow2(h), Pow2(plen));
  }

  /** The addresses a CIDR prefix gives a pool: the whole block, or, for an IPv4 block of at
      least four, the block without its first and last address. */
  function FirstOf(prefix: bytes, plen: nat): nat {
    var h := HostBits(plen, |prefix|);
    Floor(BE(prefix), Pow2(h)) + if |prefix| == 4 && h >= 2 then 1 else 0
  }

  function CountOf(prefix: bytes, plen: nat): (n: nat)
    ensures n > 0
  {
    var h := HostBits(plen, |prefix|);
    if |prefix| == 4 && h >= 2 then Pow2AtLeast4(h); Pow2(h) - 2 else Pow2(h)
  }

  lemma Pow2AtLeast4(h: nat)
    requires h >= 2
    ensures Pow2(h) >= 4
  {
    assert Pow2(h) == 2 * Pow2(h - 1) && Pow2(h - 1) == 2 * Pow2(h - 2);
  }

  lemma Pow2Large(h: nat)
    requires h >= 64
    ensures Pow2(h) >= MAX_SIZE
  {
    hide Pow2;
    Pow2Positive(h - 24);
    Pow2Add(24, h - 24);
    Pow2Add(8, 16);
    Pow2Add(8, 8);
    Pow2Small(8);
    ShTop();
    MulMono(1, Pow2(h - 24), Pow2(24));
  }

  /** At most 2^24 addresses. */
  function Clamped(n: nat): nat { if n > 0x100_0000 then 0x100_0000 else n }

  /** ippool_create. */
  method Create(prefix: bytes, plen: nat) returns (p: Pool?)
    ensures p != null <==> (|prefix| == 4 || |prefix| == 16) && plen <= 8 * |prefix|
    ensures p != null ==>
              && fresh(p) && fresh(p.bits) && p.Valid() && |p.base| == |prefix|
              && BE(p.base) == FirstOf(prefix, plen) && p.size == Clamped(CountOf(prefix, plen))
              && p.View() == PoolSpec.Pool(p.size, {}, 0)
  {
    hide BE, Pow256, Pow2, Floor, Spell;
    if |prefix| != 4 && |prefix| != 16 { return null; }
    if plen > 8 * |prefix| { return null; }
    var h := 8 * |prefix| - plen;
    var net := MaskPrefix(prefix, plen);
    PrefixRoom(prefix, plen);
    Pow2Positive(h);
    if h >= 64 {
      Pow2Large(h);
      p := new Pool(net, MAX_SIZE);
      return;
    }
    var size := Pow2(h);
    if |prefix| == 4 && h >= 2 {
      Pow2AtLeast4(h);
      DivModUnique(BE(net) + 1, Pow256(4), 0, BE(net) + 1);
      var first := AddrOffset(net, 1);
      p := new Pool(first, size - 2);
      return;
    }
    p := new Pool(net, size);
  }

  lemma Pow2Positive(h: nat)
    ensures Pow2(h) >= 1
  {
  }

  /** The ranges that make a pool. */
  predicate RangeOk(first: bytes, last: bytes) {
    && |first| == |last| && (|first| == 4 || |first| == 16)
    && BE(first) <= BE(last) < BE(first) + Pow256(8)
  }

  /** Not from :: to 0:0:0:1::, whose ends are 2^64 apart. */
  lemma WideRangeRefused()
    ensures var first, last := Spell(0, 16), Spell(Pow256(8), 16);
            |first| == |last| == 16 && BE(first) <= BE(last) && !RangeOk(first, last)
  {
    hide Pow256, Spell, BE;
    PowMono(0, 16);
    PowMono(9, 16);
    PowStep(8);
    PowerAtLeastOne(8);
    SpellLength(0, 16);
    SpellLength(Pow256(8), 16);
    BEInverse(0, 16);
    BEInverse(Pow256(8), 16);
  }

  lemma PowerAtLeastOne(n: nat)
    ensures 1 <= Pow256(n) && Pow256(0) == 1
  {
  }

  /** ippool_create_range. */
  method CreateRange(first: bytes, last: bytes) returns (p: Pool?)
    ensures p != null <==> RangeOk(first, last)
    ensures p != null ==>
              && fresh(p) && fresh(p.bits) && p.Valid() && p.base == first
              && p.size == Clamped(BE(last) - BE(first) + 1)
              && p.View() == PoolSpec.Pool(p.size, {}, 0)
  {
    hide BE, Pow256, Spell;
    if |first| != |last| || (|first| != 4 && |first| != 16) { return null; }
    var delta := AddrDelta(last, first);
    if delta.None? { return null; }
    SpellInverse(last);
    SmallPool();
    if delta.value == Pow256(8) - 1 {
      p := new Pool(first, MAX_SIZE);
      return;
    }
    p := new Pool(first, delta.value + 1);
  }
}
