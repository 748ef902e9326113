/** The generic type-length-value codec (task/inc/tlv.h): what its wire form means. */
module TlvWire {
  import opened Arith
  import opened Basics
  import opened BigEndian

  /** A wire-format descriptor. `big` is the effective byte order of the header fields. */
  datatype Prof = Prof(hdrLen: nat, typeOff: nat, typeSize: nat, lenOff: nat, lenSize: nat,
                       metaOff: Option<nat>, align: nat, inclHdr: bool, big: bool)

  const GTP2C := Prof(4, 0, 1, 1, 2, Some(3), 1, false, true)
  const DIAMETER := Prof(8, 0, 4, 5, 3, Some(4), 4, true, true)
  const NETLINK := Prof(4, 2, 2, 0, 2, None, 4, true, false)

  /** The fields lie in the header and do not overlap. */
  predicate Wf(p: Prof) {
    && 1 <= p.typeSize <= 4 && 1 <= p.lenSize <= 4 && p.align >= 1
    && (!p.big ==> p.typeSize != 3 && p.lenSize != 3)
    && p.typeOff + p.typeSize <= p.hdrLen <= 255 && p.lenOff + p.lenSize <= p.hdrLen
    && (p.typeOff + p.typeSize <= p.lenOff || p.lenOff + p.lenSize <= p.typeOff)
    && (p.metaOff.Some? ==>
          && p.metaOff.value < p.hdrLen
          && !(p.typeOff <= p.metaOff.value < p.typeOff + p.typeSize)
          && !(p.lenOff <= p.metaOff.value < p.lenOff + p.lenSize))
  }

  function Reverse(b: bytes): (r: bytes)
    ensures |r| == |b|
    ensures forall i :: 0 <= i < |b| ==> r[i] == b[|b| - 1 - i]
  {
    if b == [] then [] else Reverse(b[1..]) + [b[0]]
  }

  /** A header field, and reading one. */
  function Field(v: nat, n: nat, big: bool): (r: bytes)
    ensures |r| == n
  {
    if big then Spell(v, n) else Reverse(Spell(v, n))
  }

  function Load(b: bytes, big: bool): nat { if big then BE(b) else BE(Reverse(b)) }

  lemma LoadField(v: nat, n: nat, big: bool)
    requires v < Pow256(n)
    ensures Load(Field(v, n, big), big) == v
  {
    hide Pow256, BE;
    BEInverse(v, n);
    var s := Spell(v, n);
    assert Reverse(Reverse(s)) == s;
  }

  /** The run with f written over it at position at. */
  function Splice(b: bytes, at: nat, f: bytes): (r: bytes)
    requires at + |f| <= |b|
    ensures |r| == |b|
    ensures forall i :: 0 <= i < |b| ==> r[i] == if at <= i < at + |f| then f[i - at] else b[i]
  {
    b[..at] + f + b[at + |f|..]
  }

  function Zeros(n: nat): (r: bytes)
    ensures |r| == n && forall i :: 0 <= i < n ==> r[i] == 0
  {
    seq(n, _ => 0)
  }

  /** The fixed header with the given length field. */
  function Header(p: Prof, typ: nat, meta: byte, lfield: nat): (h: bytes)
    requires Wf(p)
    ensures |h| == p.hdrLen
  {
    var h := Splice(Splice(Zeros(p.hdrLen), p.typeOff, Field(typ, p.typeSize, p.big)), p.lenOff, Field(lfield, p.lenSize, p.big));
    if p.metaOff.Some? then Splice(h, p.metaOff.value, [meta]) else h
  }

  /** The fields stand where they are looked for. */
  lemma HeaderFields(p: Prof, typ: nat, meta: byte, lfield: nat)
    requires Wf(p)
    ensures var h := Header(p, typ, meta, lfield);
            && h[p.typeOff..p.typeOff + p.typeSize] == Field(typ, p.typeSize, p.big)
            && h[p.lenOff..p.lenOff + p.lenSize] == Field(lfield, p.lenSize, p.big)
            && (p.metaOff.Some? ==> h[p.metaOff.value] == meta)
  {
    hide Field, Splice;
    SpliceAt(Zeros(p.hdrLen), p.typeOff, Field(typ, p.typeSize, p.big));
  }

  lemma SpliceAt(b: bytes, at: nat, f: bytes)
    requires at + |f| <= |b|
    ensures Splice(b, at, f)[at..at + |f|] == f
  {
  }

  lemma SpliceOver(b: bytes, at: nat, f: bytes, g: bytes)
    requires |f| == |g| && at + |f| <= |b|
    ensures Splice(Splice(b, at, f), at, g) == Splice(b, at, g)
  {
  }

  lemma SpliceSwap(b: bytes, at: nat, f: bytes, to: nat, g: bytes)
    requires at + |f| <= |b| && to + |g| <= |b| && (at + |f| <= to || to + |g| <= at)
    ensures Splice(Splice(b, at, f), to, g) == Splice(Splice(b, to, g), at, f)
  {
  }

  /** Rewriting the length field leaves the rest of the header alone. */
  lemma HeaderRelength(p: Prof, typ: nat, meta: byte, was: nat, lfield: nat)
    requires Wf(p)
    ensures Splice(Header(p, typ, meta, was), p.lenOff, Field(lfield, p.lenSize, p.big)) == Header(p, typ, meta, lfield)
  {
    FieldLength(typ, p.typeSize, p.big);
    FieldLength(was, p.lenSize, p.big);
    FieldLength(lfield, p.lenSize, p.big);
    var b := Splice(Zeros(p.hdrLen), p.typeOff, Field(typ, p.typeSize, p.big));
    var f, g := Field(was, p.lenSize, p.big), Field(lfield, p.lenSize, p.big);
    SpliceOver(b, p.lenOff, f, g);
    if p.metaOff.Some? {
      SpliceSwap(Splice(b, p.lenOff, f), p.metaOff.value, [meta], p.lenOff, g);
    }
  }

  lemma FieldLength(v: nat, n: nat, big: bool)
    ensures |Field(v, n, big)| == n
  {
  }

  function LField(p: Prof, vlen: nat): nat { if p.inclHdr then p.hdrLen + vlen else vlen }

  /** The largest value the length field can carry. */
  function LenMax(p: Prof): nat { Pow256(p.lenSize) - 1 }

  /** Padding after n octets of an entry. */
  function Pad(p: Prof, n: nat): (k: nat)
    requires p.align >= 1
    ensures (n + k) % p.align == 0 && k < p.align
  {
    var rem := n % p.align;
    PadIs(n, p.align);
    if rem == 0 then 0 else p.align - rem
  }

  lemma PadIs(n: nat, a: nat)
    requires a >= 1
    ensures n % a > 0 ==> (n + (a - n % a)) % a == 0
  {
    if n % a > 0 {
      assert n == n / a * a + n % a;
      assert n + (a - n % a) == (n / a + 1) * a by { assert (n / a + 1) * a == n / a * a + a; }
      DivModUnique(n + (a - n % a), a, n / a + 1, 0);
    }
  }

  /** One entry on the wire: header, value, padding. */
  function Wire(p: Prof, typ: nat, meta: byte, val: bytes): (w: bytes)
    requires Wf(p)
    ensures |w| == p.hdrLen + |val| + Pad(p, p.hdrLen + |val|)
  {
    Header(p, typ, meta, LField(p, |val|)) + val + Zeros(Pad(p, p.hdrLen + |val|))
  }

  // ---------- reading ----------

  datatype View = View(typ: nat, meta: byte, val: bytes)

  datatype Got = Got(view: View, adv: nat)

  /** tlv_iter_next on what is left of the stream. */
  function Next(p: Prof, b: bytes): (r: Option<Got>)
    requires Wf(p)
    ensures r.Some? ==> 0 < r.value.adv <= |b| && |r.value.view.val| < |b|
  {
    if |b| < p.hdrLen then None else
    var lfield := Load(b[p.lenOff..p.lenOff + p.lenSize], p.big);
    if p.inclHdr && lfield < p.hdrLen then None else
    var vlen := if p.inclHdr then lfield - p.hdrLen else lfield;
    if vlen > |b| - p.hdrLen then None else
    var adv := p.hdrLen + vlen + Pad(p, p.hdrLen + vlen);
    Some(Got(View(Load(b[p.typeOff..p.typeOff + p.typeSize], p.big),
                  if p.metaOff.Some? then b[p.metaOff.value] else 0,
                  b[p.hdrLen..p.hdrLen + vlen]),
             if adv < |b| then adv else |b|))
  }

  /** The buffer starts with an entry: its header names type, meta octet and length, the value follows,
      and the next entry starts behind the padding or, when that is missing, at the end. */
  predicate EntryAt(p: Prof, b: bytes, v: View, adv: nat)
    requires Wf(p)
  {
    var n := p.hdrLen + |v.val|;
    && n <= |b| && v.val == b[p.hdrLen..n]
    && v.typ == Load(b[p.typeOff..p.typeOff + p.typeSize], p.big)
    && v.meta == (if p.metaOff.Some? then b[p.metaOff.value] else 0)
    && Load(b[p.lenOff..p.lenOff + p.lenSize], p.big) == (if p.inclHdr then n else |v.val|)
    && n <= adv < n + p.align && (if adv < |b| then adv % p.align == 0 else adv == |b|)
    && forall k :: n <= k < adv ==> k % p.align != 0
  }

  /** A step finds an entry exactly where there is one. */
  lemma NextShape(p: Prof, b: bytes, v: View, adv: nat)
    requires Wf(p)
    ensures Next(p, b) == Some(Got(v, adv)) <==> EntryAt(p, b, v, adv)
  {
    hide Load;
    var n := p.hdrLen + |v.val|;
    var k := Pad(p, n);
    NoneBetween(p, n);
    if n <= |b| && |v.val| == |b[p.hdrLen..n]| {
      hide Pad;
      if EntryAt(p, b, v, adv) && adv < |b| { assert adv == n + k by { OnlyOne(p, n, adv); } }
      if EntryAt(p, b, v, adv) && adv == |b| { assert |b| <= n + k; }
    }
  }

  lemma NoneBetween(p: Prof, n: nat)
    requires p.align >= 1
    ensures forall k :: n <= k < n + Pad(p, n) ==> k % p.align != 0
  {
    forall k | n <= k < n + Pad(p, n) ensures k % p.align != 0 {
      if k % p.align == 0 { ModGap(k, n + Pad(p, n), p.align); }
    }
  }

  lemma OnlyOne(p: Prof, n: nat, adv: nat)
    requires p.align >= 1 && n <= adv < n + p.align && adv % p.align == 0
    ensures adv == n + Pad(p, n)
  {
    var m := n + Pad(p, n);
    if adv < m { ModGap(adv, m, p.align); } else if m < adv { ModGap(m, adv, p.align); }
  }

  /** An entry's fields fit the profile. */
  predicate Fits(p: Prof, typ: nat, meta: byte, vlen: nat) {
    typ < Pow256(p.typeSize) && (p.metaOff.None? ==> meta == 0) && LField(p, vlen) <= LenMax(p)
  }

  /** An entry that fits reads back, whatever follows it. */
  lemma NextReads(p: Prof, typ: nat, meta: byte, val: bytes, rest: bytes)
    requires Wf(p) && Fits(p, typ, meta, |val|)
    ensures Next(p, Wire(p, typ, meta, val) + rest) == Some(Got(View(typ, meta, val), |Wire(p, typ, meta, val)|))
  {
    hide Field, Load, Header, Pow256, Pad, Zeros, Next;
    var n := LField(p, |val|);
    var h, tail := Header(p, typ, meta, n), Zeros(Pad(p, p.hdrLen + |val|)) + rest;
    var b := Wire(p, typ, meta, val) + rest;
    HeaderLength(p, typ, meta, n);
    HeaderFields(p, typ, meta, n);
    assert b == h + (val + tail);
    Front(h, val + tail, p.lenOff, p.lenOff + p.lenSize);
    Front(h, val + tail, p.typeOff, p.typeOff + p.typeSize);
    LoadField(typ, p.typeSize, p.big);
    LoadField(n, p.lenSize, p.big);
    assert b[p.hdrLen..p.hdrLen + |val|] == val;
    WireLength(p, typ, meta, val);
    assert p.metaOff.Some? ==> b[p.metaOff.value] == h[p.metaOff.value];
    NextIs(p, b, typ, meta, val);
  }

  /** What a step reads off a stream whose fields are these. */
  lemma NextIs(p: Prof, b: bytes, typ: nat, meta: byte, val: bytes)
    requires Wf(p) && p.hdrLen + |val| + Pad(p, p.hdrLen + |val|) <= |b|
    requires Load(b[p.lenOff..p.lenOff + p.lenSize], p.big) == LField(p, |val|)
    requires Load(b[p.typeOff..p.typeOff + p.typeSize], p.big) == typ
    requires (if p.metaOff.Some? then b[p.metaOff.value] else 0) == meta && b[p.hdrLen..p.hdrLen + |val|] == val
    ensures Next(p, b) == Some(Got(View(typ, meta, val), p.hdrLen + |val| + Pad(p, p.hdrLen + |val|)))
  {
    hide Load, Pad;
  }

  lemma WireLength(p: Prof, typ: nat, meta: byte, val: bytes)
    requires Wf(p)
    ensures |Wire(p, typ, meta, val)| == p.hdrLen + |val| + Pad(p, p.hdrLen + |val|)
  {
  }

  lemma Front(h: bytes, t: bytes, i: nat, j: nat)
    requires i <= j <= |h|
    ensures (h + t)[i..j] == h[i..j]
  {
  }

  lemma HeaderLength(p: Prof, typ: nat, meta: byte, lfield: nat)
    requires Wf(p)
    ensures |Header(p, typ, meta, lfield)| == p.hdrLen
  {
  }

  // ---------- trees ----------

  datatype Entry = Leaf(typ: nat, meta: byte, val: bytes) | Group(typ: nat, meta: byte, kids: seq<Entry>)

  function Value(p: Prof, e: Entry): bytes
    requires Wf(p)
    decreases e, 0
  {
    match e case Leaf(_, _, v) => v case Group(_, _, ks) => WireAll(p, ks)
  }

  function WireOf(p: Prof, e: Entry): bytes
    requires Wf(p)
    decreases e, 1
  {
    Wire(p, e.typ, e.meta, Value(p, e))
  }

  function WireAll(p: Prof, es: seq<Entry>): bytes
    requires Wf(p)
    decreases es
  {
    if es == [] then [] else WireOf(p, es[0]) + WireAll(p, es[1..])
  }

  /** Every entry fits the profile, and exactly the groups have grouped types. */
  predicate Good(p: Prof, grouped: set<nat>, e: Entry)
    requires Wf(p)
    decreases e, 0
  {
    && Fits(p, e.typ, e.meta, |Value(p, e)|)
    && (e.Group? <==> e.typ in grouped)
    && (e.Group? ==> AllGood(p, grouped, e.kids))
  }

  predicate AllGood(p: Prof, grouped: set<nat>, es: seq<Entry>)
    requires Wf(p)
    decreases es
  {
    es != [] ==> Good(p, grouped, es[0]) && AllGood(p, grouped, es[1..])
  }

  /** Walking a stream, with a nested walk over each value of a grouped type. */
  function Read(p: Prof, grouped: set<nat>, b: bytes): seq<Entry>
    requires Wf(p)
    decreases |b|, 0
  {
    match Next(p, b)
    case None => []
    case Some(g) => [Shaped(p, grouped, g.view)] + Read(p, grouped, b[g.adv..])
  }

  function Shaped(p: Prof, grouped: set<nat>, v: View): Entry
    requires Wf(p)
    decreases |v.val|, 1
  {
    if v.typ in grouped then Group(v.typ, v.meta, Read(p, grouped, v.val)) else Leaf(v.typ, v.meta, v.val)
  }

  /** Nested iterators return exactly the tree that was written. */
  lemma {:induction false} TreeRoundTrip(p: Prof, grouped: set<nat>, es: seq<Entry>)
    requires Wf(p) && AllGood(p, grouped, es)
    ensures Read(p, grouped, WireAll(p, es)) == es
    decreases es
  {
    hide Wire, Fits, Next;
    if es == [] {
      NextEmpty(p);
    } else {
      var e, rest := es[0], WireAll(p, es[1..]);
      NextReads(p, e.typ, e.meta, Value(p, e), rest);
      var b := WireOf(p, e) + rest;
      assert b[|WireOf(p, e)|..] == rest;
      TreeRoundTrip(p, grouped, es[1..]);
      if e.Group? { TreeRoundTrip(p, grouped, e.kids); }
      assert es == [e] + es[1..];
    }
  }

  lemma NextEmpty(p: Prof)
    requires Wf(p)
    ensures Next(p, []).None?
  {
  }

  lemma ProfilesWellFormed()
    ensures Wf(GTP2C) && Wf(DIAMETER) && Wf(NETLINK)
  {
  }

  // ---------- the shipped profiles, octet by octet ----------

  /** n octets and no more than three zeros fill whole 32-bit words of w. */
  predicate Padded(w: bytes, n: nat) {
    n <= |w| < n + 4 && |w| % 4 == 0 && forall i :: n <= i < |w| ==> w[i] == 0
  }

  /** Section 4.1 of RFC 6733: code, flags, a length that counts the header, data, padding. */
  lemma DiameterOctets(code: nat, flags: byte, val: bytes)
    requires code < 0x1_0000_0000 && 8 + |val| < 0x100_0000
    ensures var w := Wire(DIAMETER, code, flags, val);
            && |w| >= 8 + |val| && BE(w[0..4]) == code && w[4] == flags && BE(w[5..8]) == 8 + |val|
            && w[8..8 + |val|] == val && Padded(w, 8 + |val|)
  {
    ProfilesWellFormed();
    Powers();
    WireParts(DIAMETER, code, flags, val);
    hide Wire, BE, Spell, Pow256, Field, Pad;
    BEInverse(code, 4);
    BEInverse(8 + |val|, 3);
    BigField(code, 4);
    BigField(8 + |val|, 3);
    PadFour(DIAMETER, 8 + |val|);
  }

  /** Section 8.2 of TS 29.274: type, a length that leaves the header out, instance, value. */
  lemma Gtp2cOctets(typ: byte, instance: byte, val: bytes)
    requires |val| < 0x1_0000
    ensures var w := Wire(GTP2C, typ, instance, val);
            |w| == 4 + |val| && w[0] == typ && BE(w[1..3]) == |val| && w[3] == instance && w[4..] == val
  {
    ProfilesWellFormed();
    Powers();
    WireParts(GTP2C, typ, instance, val);
    hide Wire, BE, Spell, Pow256, Field, Pad;
    BEInverse(typ, 1);
    BEInverse(|val|, 2);
    BigField(typ, 1);
    BigField(|val|, 2);
    OneOctet(Wire(GTP2C, typ, instance, val)[0..1]);
    PadOne(GTP2C, 4 + |val|);
  }

  /** Section 2.3.2 of RFC 3549 on a little-endian host: a length that counts the header, type,
      value, padding. */
  lemma NetlinkOctets(typ: nat, val: bytes)
    requires typ < 0x1_0000 && 4 + |val| < 0x1_0000
    ensures var w := Wire(NETLINK, typ, 0, val);
            && |w| >= 4 + |val| && w[0] as int + 256 * w[1] as int == 4 + |val| && w[2] as int + 256 * w[3] as int == typ
            && w[4..4 + |val|] == val && Padded(w, 4 + |val|)
  {
    ProfilesWellFormed();
    WireParts(NETLINK, typ, 0, val);
    hide Wire, Pad;
    LittleField(typ);
    LittleField(4 + |val|);
    PadFour(NETLINK, 4 + |val|);
    var w := Wire(NETLINK, typ, 0, val);
    assert w[0] == w[0..2][0] && w[1] == w[0..2][1] && w[2] == w[2..4][0] && w[3] == w[2..4][1];
  }

  lemma Powers()
    ensures Pow256(1) == 0x100 && Pow256(2) == 0x1_0000 && Pow256(3) == 0x100_0000 && Pow256(4) == 0x1_0000_0000
  {
    assert Pow256(0) == 1;
  }

  lemma OneOctet(b: bytes)
    requires |b| == 1
    ensures BE(b) == b[0]
  {
    assert b[..0] == [];
  }

  lemma BigField(v: nat, n: nat)
    ensures Field(v, n, true) == Spell(v, n)
  {
  }

  lemma LittleField(v: nat)
    requires v < 0x1_0000
    ensures var f := Field(v, 2, false); |f| == 2 && f[0] as int + 256 * f[1] as int == v
  {
    assert Spell(v, 2) == [v / 256, v % 256] by {
      assert Spell(v / 256, 1) == [v / 256] by { assert Spell(v / 256 / 256, 0) == []; }
    }
  }

  lemma PadFour(p: Prof, n: nat)
    requires p.align == 4
    ensures (n + Pad(p, n)) % 4 == 0 && Pad(p, n) < 4
  {
  }

  lemma PadOne(p: Prof, n: nat)
    requires p.align == 1
    ensures Pad(p, n) == 0
  {
  }

  /** An entry by its slices. */
  lemma WireParts(p: Prof, typ: nat, meta: byte, val: bytes)
    requires Wf(p)
    ensures var w := Wire(p, typ, meta, val);
            && |w| == p.hdrLen + |val| + Pad(p, p.hdrLen + |val|)
            && w[p.typeOff..p.typeOff + p.typeSize] == Field(typ, p.typeSize, p.big)
            && w[p.lenOff..p.lenOff + p.lenSize] == Field(LField(p, |val|), p.lenSize, p.big)
            && (p.metaOff.Some? ==> w[p.metaOff.value] == meta)
            && w[p.hdrLen..p.hdrLen + |val|] == val
            && forall i :: p.hdrLen + |val| <= i < |w| ==> w[i] == 0
  {
    hide Field, Header, Pad;
    var n := LField(p, |val|);
    var h, tail := Header(p, typ, meta, n), val + Zeros(Pad(p, p.hdrLen + |val|));
    HeaderLength(p, typ, meta, n);
    HeaderFields(p, typ, meta, n);
    assert Wire(p, typ, meta, val) == h + tail;
    Front(h, tail, p.lenOff, p.lenOff + p.lenSize);
    Front(h, tail, p.typeOff, p.typeOff + p.typeSize);
  }
}

/** The write buffer and the iterator, as the code moves them. */
module Tlv {
  import opened Arith
  import opened Basics
  import opened BigEndian
  import opened TlvWire

  datatype Code = Okay | Overflow | Inval

  class Wbuf {
    const buf: array<byte>
    var off: nat
    var overflow: bool

    ghost predicate Valid()
      reads this
    {
      off <= buf.Length
    }

    /** What has been written so far. */
    ghost function Written(): bytes
      reads this, buf
      requires Valid()
    {
      buf[..off]
    }

    /** tlv_wbuf_init. */
    constructor (b: array<byte>)
      ensures Valid() && buf == b && off == 0 && !overflow
    {
      buf, off, overflow := b, 0, false;
    }

    /** tlv_wbuf_reserve. */
    method Reserve(n: nat) returns (ok: bool)
      requires Valid()
      modifies this`overflow
      ensures ok <==> !old(overflow) && off + n <= buf.Length
      ensures overflow == !ok
    {
      if overflow { return false; }
      if n > buf.Length - off {
        overflow := true;
        return false;
      }
      return true;
    }

    /** tlv_store: octet by octet from the last for a big-endian field, a plain copy otherwise. */
    method Store(at: nat, n: nat, big: bool, v: nat)
      requires at + n <= buf.Length
      modifies buf
      ensures buf[..] == Splice(old(buf[..]), at, Field(v, n, big))
    {
      hide Pow256, Digit, Splice, Spell;
      SpellAt(v, n);
      if !big {
        FieldLength(v, n, big);
        Copy(at, Field(v, n, big));
        return;
      }
      ghost var was, f := buf[..], Spell(v, n);
      var i, rest := n, v;
      SpliceNone(was, at + n, f[n..]);
      while i > 0
        invariant 0 <= i <= n && rest == v / Pow256(n - i)
        invariant buf[..] == Splice(was, at + i, f[i..])
      {
        i := i - 1;
        DigitStep(v, n - 1 - i);
        SpliceMore(was, at + i, f[i..]);
        assert f[i..][1..] == f[i + 1..];
        buf[at + i] := rest % 256;
        rest := rest / 256;
      }
      assert f[0..] == f;
    }

    /** memset and memcpy. */
    method Copy(at: nat, f: bytes)
      requires at + |f| <= buf.Length
      modifies buf
      ensures buf[..] == Splice(old(buf[..]), at, f)
    {
      forall k | 0 <= k < |f| { buf[at + k] := f[k]; }
    }

    /** The header part of tlv_put and tlv_begin. */
    method StoreHeader(p: Prof, typ: nat, meta: byte, lfield: nat)
      requires Wf(p) && off + p.hdrLen <= buf.Length
      modifies buf
      ensures buf[..] == Splice(old(buf[..]), off, Header(p, typ, meta, lfield))
    {
      hide Field, Splice;
      ghost var b := buf[..];
      Copy(off, Zeros(p.hdrLen));
      SpliceIn(b, off, Zeros(p.hdrLen), p.typeOff, Field(typ, p.typeSize, p.big));
      Store(off + p.typeOff, p.typeSize, p.big, typ);
      ghost var h := Splice(Zeros(p.hdrLen), p.typeOff, Field(typ, p.typeSize, p.big));
      SpliceIn(b, off, h, p.lenOff, Field(lfield, p.lenSize, p.big));
      Store(off + p.lenOff, p.lenSize, p.big, lfield);
      if p.metaOff.Some? {
        SpliceIn(b, off, Splice(h, p.lenOff, Field(lfield, p.lenSize, p.big)), p.metaOff.value, [meta]);
        Copy(off + p.metaOff.value, [meta]);
      }
    }

    /** tlv_put. */
    method Put(p: Prof, typ: nat, meta: byte, val: bytes) returns (r: Code)
      requires Valid() && Wf(p) && |val| < 0x1_0000_0000
      modifies this`off, this`overflow, buf
      ensures Valid()
      ensures LField(p, |val|) > LenMax(p) ==> r == Inval && unchanged(this) && buf[..] == old(buf[..])
      ensures LField(p, |val|) <= LenMax(p) ==>
                Appended(old(overflow), old(Written()), Wire(p, typ, meta, val), buf.Length, r, overflow, Written())
    {
      hide Wire, Pow256, Pad, LenMax;
      var wide := if p.inclHdr then p.hdrLen + |val| else |val|;
      var lfield := wide % 0x1_0000_0000;   // a 32-bit sum
      LenMaxBound(p);
      SumWraps(wide, |val|);
      if lfield < |val| || lfield > LenMax(p) { return Inval; }
      WireLength(p, typ, meta, val);
      var ok := Reserve(p.hdrLen + |val| + Pad(p, p.hdrLen + |val|));
      if !ok { return Overflow; }
      Emit(p, typ, meta, val, lfield);
      return Okay;
    }

    /** The writing half of tlv_put. */
    method Emit(p: Prof, typ: nat, meta: byte, val: bytes, lfield: nat)
      requires Valid() && Wf(p) && lfield == LField(p, |val|)
      requires off + |Wire(p, typ, meta, val)| <= buf.Length
      modifies this`off, buf
      ensures Valid() && Written() == old(Written()) + Wire(p, typ, meta, val)
    {
      hide Header, Field, Pow256, Pad, Splice, Zeros;
      var pad := Pad(p, p.hdrLen + |val|);
      var total := p.hdrLen + |val| + pad;
      ghost var b, h := buf[..], Header(p, typ, meta, lfield);
      HeaderLength(p, typ, meta, lfield);
      ZerosLength(pad);
      StoreHeader(p, typ, meta, lfield);
      SpliceJoin(b, off, h, val);
      Copy(off + p.hdrLen, val);
      SpliceJoin(b, off, h + val, Zeros(pad));
      Copy(off + p.hdrLen + |val|, Zeros(pad));
      SpliceEnd(b, off, h + val + Zeros(pad));
      assert buf[..][..off + total] == buf[..off + total];
      off := off + total;
    }

    /** tlv_begin; the handle is the entry's offset. */
    method Begin(p: Prof, typ: nat, meta: byte) returns (r: Option<nat>)
      requires Valid() && Wf(p)
      modifies this`off, this`overflow, buf
      ensures Valid() && r == if overflow then None else Some(old(off))
      ensures Appended(old(overflow), old(Written()), Header(p, typ, meta, 0), buf.Length,
                       if r.Some? then Okay else Overflow, overflow, Written())
    {
      hide Header, Field;
      HeaderLength(p, typ, meta, 0);
      var ok := Reserve(p.hdrLen);
      if !ok { return None; }
      StoreHeader(p, typ, meta, 0);
      off := off + p.hdrLen;
      assert buf[..off] == old(buf[..off]) + Header(p, typ, meta, 0);
      return Some(off - p.hdrLen);
    }

    /** Raw append, as the Diameter binding does between begin and end. */
    method Append(f: bytes) returns (r: Code)
      requires Valid()
      modifies this`off, this`overflow, buf
      ensures Valid() && Appended(old(overflow), old(Written()), f, buf.Length, r, overflow, Written())
    {
      var ok := Reserve(|f|);
      if !ok { return Overflow; }
      Copy(off, f);
      off := off + |f|;
      assert buf[..off] == old(buf[..off]) + f;
      return Okay;
    }

    /** tlv_end: backfill the length at the handle and pad the stream. A length that does not fit
        its field, or padding that does not fit the buffer, is an overflow. */
    method End(p: Prof, handle: int) returns (r: Code)
      requires Valid() && Wf(p)
      modifies this`off, this`overflow, buf
      ensures Valid()
      ensures !old(overflow) && !(0 <= handle && handle + p.hdrLen <= old(off)) ==>
                r == Inval && unchanged(this) && buf[..] == old(buf[..])
      ensures old(overflow) ==> r == Overflow && unchanged(this) && buf[..] == old(buf[..])
      ensures !old(overflow) && 0 <= handle && handle + p.hdrLen <= old(off) ==>
                Ended(p, handle, old(Written()), buf.Length, r, Written())
      ensures r == Okay ==> !overflow
    {
      hide Field, Pow256, Pad, LenMax, Splice, Zeros;
      if overflow { return Overflow; }
      if handle < 0 { return Inval; }
      if handle + p.hdrLen > off { return Inval; }
      var content := off - handle;
      var lfield := if p.inclHdr then content else content - p.hdrLen;
      if lfield > LenMax(p) { return Overflow; }
      FieldLength(lfield, p.lenSize, p.big);
      Store(handle + p.lenOff, p.lenSize, p.big, lfield);
      SpliceFront(old(buf[..]), off, handle + p.lenOff, Field(lfield, p.lenSize, p.big));
      SpliceBefore(old(buf[..off]), handle + p.lenOff, Field(lfield, p.lenSize, p.big), handle);
      assert buf[..off] == buf[..][..off] && old(buf[..])[..off] == old(buf[..off]);
      var pad := Pad(p, content);
      ZerosLength(pad);
      if pad > 0 {
        var ok := Reserve(pad);
        if !ok { return Overflow; }
        SpliceEnd(buf[..], off, Zeros(pad));
        Copy(off, Zeros(pad));
        assert buf[..off + pad] == buf[..][..off + pad];
        off := off + pad;
      } else {
        NoZeros();
      }
      return Okay;
    }
  }

  /** An append either takes all of f or sets the sticky flag and takes nothing. */
  ghost predicate Appended(over: bool, was: bytes, f: bytes, cap: nat, r: Code, over': bool, now: bytes) {
    if over || |was| + |f| > cap then r == Overflow && over' && now == was
    else r == Okay && !over' && now == was + f
  }

  /** What ending the entry at handle h does to the run. */
  ghost predicate Ended(p: Prof, h: nat, was: bytes, cap: nat, r: Code, now: bytes)
    requires Wf(p) && h + p.hdrLen <= |was|
  {
    var content := |was| - h;
    var l := LField(p, content - p.hdrLen);
    if l > LenMax(p) then r == Overflow && now == was
    else
      FieldLength(l, p.lenSize, p.big);
      if |was| + Pad(p, content) > cap then r == Overflow && |now| == |was| && now[..h] == was[..h]
      else r == Okay && now == Splice(was, h + p.lenOff, Field(l, p.lenSize, p.big)) + Zeros(Pad(p, content))
  }

  lemma ZerosLength(n: nat)
    ensures |Zeros(n)| == n
  {
  }

  /** A sum past 32 bits is seen to be less than its part. */
  lemma SumWraps(wide: nat, n: nat)
    requires n <= wide <= n + 255 && n < 0x1_0000_0000
    ensures if wide < 0x1_0000_0000 then wide % 0x1_0000_0000 == wide else wide % 0x1_0000_0000 < n
  {
  }

  lemma LenMaxBound(p: Prof)
    requires Wf(p)
    ensures LenMax(p) < 0x1_0000_0000
  {
    PowMono(p.lenSize, 4);
  }

  // ---------- digits ----------

  function Digit(v: nat, k: nat): byte { v / Pow256(k) % 256 }

  lemma DigitStep(v: nat, k: nat)
    ensures (v / Pow256(k)) / 256 == v / Pow256(k + 1)
    ensures v / Pow256(k) % 256 == Digit(v, k)
  {
    hide Pow256;
    PowStep(k);
    DivDiv(v, Pow256(k), 256);
  }

  lemma {:induction false} SpellAt(v: nat, n: nat)
    ensures |Spell(v, n)| == n && Pow256(0) == 1
    ensures forall k :: 0 <= k < n ==> Spell(v, n)[k] == Digit(v, n - 1 - k)
    decreases n
  {
    if n > 0 {
      SpellAt(v / 256, n - 1);
      forall k | 0 <= k < n ensures Spell(v, n)[k] == Digit(v, n - 1 - k) {
        if k < n - 1 {
          PowStep(n - 2 - k);
          DivDiv(v, 256, Pow256(n - 2 - k));
        }
      }
    }
  }

  lemma SpliceNone(b: bytes, at: nat, f: bytes)
    requires f == [] && at <= |b|
    ensures Splice(b, at, f) == b
  {
  }

  lemma SpliceMore(b: bytes, at: nat, f: bytes)
    requires f != [] && at + |f| <= |b|
    ensures Splice(b, at + 1, f[1..])[at := f[0]] == Splice(b, at, f)
  {
  }

  /** Two pieces written one after the other. */
  lemma SpliceJoin(b: bytes, at: nat, f: bytes, g: bytes)
    requires at + |f| + |g| <= |b|
    ensures Splice(Splice(b, at, f), at + |f|, g) == Splice(b, at, f + g)
  {
  }

  lemma SpliceFront(b: bytes, n: nat, at: nat, f: bytes)
    requires at + |f| <= n <= |b|
    ensures Splice(b, at, f)[..n] == Splice(b[..n], at, f)
  {
  }

  lemma SpliceBefore(b: bytes, at: nat, f: bytes, k: nat)
    requires k <= at && at + |f| <= |b|
    ensures |Splice(b, at, f)| == |b| && Splice(b, at, f)[..k] == b[..k]
  {
  }

  lemma NoZeros()
    ensures forall b: bytes :: b + Zeros(0) == b
  {
  }

  lemma SpliceEnd(b: bytes, at: nat, f: bytes)
    requires at + |f| <= |b|
    ensures Splice(b, at, f)[..at + |f|] == b[..at] + f
  {
  }

  /** Writing into a header that stands in a run. */
  lemma SpliceIn(b: bytes, at: nat, h: bytes, k: nat, f: bytes)
    requires at + |h| <= |b| && k + |f| <= |h|
    ensures Splice(Splice(b, at, h), at + k, f) == Splice(b, at, Splice(h, k, f))
  {
  }

  // ---------- writing a tree ----------

  /** Ending an entry whose header and value stand at the end of the run completes it. */
  lemma EndGroup(p: Prof, pre: bytes, typ: nat, meta: byte, val: bytes, cap: nat, r: Code, now: bytes)
    requires Wf(p) && |pre| + p.hdrLen + |val| <= cap
    requires |pre + Header(p, typ, meta, 0) + val| == |pre| + p.hdrLen + |val|
    requires Ended(p, |pre|, pre + Header(p, typ, meta, 0) + val, cap, r, now)
    ensures r == Okay <==> LField(p, |val|) <= LenMax(p) && |pre| + |Wire(p, typ, meta, val)| <= cap
    ensures r == Okay ==> now == pre + Wire(p, typ, meta, val)
    ensures |pre| <= |now| && now[..|pre|] == pre
  {
    hide Field, Pow256, Pad, Splice, Header, Zeros, LenMax;
    var h, l := Header(p, typ, meta, 0), LField(p, |val|);
    var was := pre + h + val;
    WireLength(p, typ, meta, val);
    HeaderLength(p, typ, meta, 0);
    FieldLength(l, p.lenSize, p.big);
    assert was[..|pre|] == pre;
    if r == Okay {
      HeaderRelength(p, typ, meta, 0, l);
      SpliceInside(pre, h, val, p.lenOff, Field(l, p.lenSize, p.big));
      var n, z := Header(p, typ, meta, l), Zeros(Pad(p, p.hdrLen + |val|));
      assert (pre + n + val) + z == pre + (n + val + z);
    }
  }

  lemma SpliceInside(pre: bytes, h: bytes, val: bytes, k: nat, f: bytes)
    requires k + |f| <= |h|
    ensures Splice(pre + h + val, |pre| + k, f) == pre + Splice(h, k, f) + val
  {
  }

  /** The length fields of an entry and everything inside it can carry their lengths. */
  predicate Lens(p: Prof, e: Entry)
    requires Wf(p)
    decreases e, 0
  {
    LField(p, |Value(p, e)|) <= LenMax(p) && (e.Group? ==> AllLens(p, e.kids))
  }

  predicate AllLens(p: Prof, es: seq<Entry>)
    requires Wf(p)
    decreases es
  {
    es != [] ==> Lens(p, es[0]) && AllLens(p, es[1..])
  }

  /** Leaf values have 32-bit lengths. */
  predicate Small(e: Entry)
    decreases e, 0
  {
    match e case Leaf(_, _, v) => |v| < 0x1_0000_0000 case Group(_, _, ks) => AllSmall(ks)
  }

  predicate AllSmall(es: seq<Entry>)
    decreases es
  {
    es != [] ==> Small(es[0]) && AllSmall(es[1..])
  }

  /** How writing `wire` at the end of `was` may come out. */
  ghost predicate Wrote(can: bool, was: bytes, wire: bytes, cap: nat, r: Code, over: bool, now: bytes) {
    && (r == Okay <==> can && |was| + |wire| <= cap)
    && (r == Okay ==> !over && now == was + wire)
    && |was| <= |now| && now[..|was|] == was
  }

  /** Leaves with Put, groups with Begin, their children and End. */
  method WriteEntry(w: Wbuf, p: Prof, e: Entry) returns (r: Code)
    requires w.Valid() && Wf(p) && Small(e)
    modifies w`off, w`overflow, w.buf
    ensures w.Valid()
    ensures Wrote(!old(w.overflow) && Lens(p, e), old(w.Written()), WireOf(p, e), w.buf.Length, r, w.overflow, w.Written())
    decreases e, 2
  {
    hide Wire, Pow256, LenMax;
    match e {
      case Leaf(typ, meta, val) =>
        r := w.Put(p, typ, meta, val);
      case Group(typ, meta, kids) =>
        r := WriteGroup(w, p, typ, meta, kids);
    }
  }

  method WriteGroup(w: Wbuf, p: Prof, typ: nat, meta: byte, kids: seq<Entry>) returns (r: Code)
    requires w.Valid() && Wf(p) && AllSmall(kids)
    modifies w`off, w`overflow, w.buf
    ensures w.Valid()
    ensures Wrote(!old(w.overflow) && LField(p, |WireAll(p, kids)|) <= LenMax(p) && AllLens(p, kids), old(w.Written()),
                  Wire(p, typ, meta, WireAll(p, kids)), w.buf.Length, r, w.overflow, w.Written())
    decreases kids, 1
  {
    hide Wire, Pow256, LenMax, Header, WireAll, AllLens, AllSmall, Ended, Pad;
    ghost var was, val := w.Written(), WireAll(p, kids);
    WireLength(p, typ, meta, val);
    HeaderLength(p, typ, meta, 0);
    var h := w.Begin(p, typ, meta);
    if h.None? { return Overflow; }
    ghost var open := w.Written();
    r := WriteEntries(w, p, kids);
    assert w.Written()[..|was|] == w.Written()[..|open|][..|was|] == was;
    if r != Okay { return; }
    r := w.End(p, h.value);
    EndGroup(p, was, typ, meta, val, w.buf.Length, r, w.Written());
  }

  method WriteEntries(w: Wbuf, p: Prof, es: seq<Entry>) returns (r: Code)
    requires w.Valid() && Wf(p) && AllSmall(es) && !w.overflow
    modifies w`off, w`overflow, w.buf
    ensures w.Valid()
    ensures Wrote(AllLens(p, es), old(w.Written()), WireAll(p, es), w.buf.Length, r, w.overflow, w.Written())
    decreases es, 0
  {
    hide Wire, Lens, Small, WireOf;
    ghost var was := w.Written();
    if es == [] {
      assert was + [] == was;
      return Okay;
    }
    r := WriteEntry(w, p, es[0]);
    if r != Okay { return; }
    ghost var mid := w.Written();
    r := WriteEntries(w, p, es[1..]);
    assert w.Written()[..|was|] == w.Written()[..|mid|][..|was|];
    assert was + WireOf(p, es[0]) + WireAll(p, es[1..]) == was + WireAll(p, es);
  }

  // ---------- the iterator ----------

  class Iter {
    const prof: Prof
    const buf: bytes
    var cur: nat

    ghost predicate Valid()
      reads this
    {
      Wf(prof) && cur <= |buf|
    }

    /** tlv_iter_init and tlv_iter_grouped. */
    constructor (p: Prof, payload: bytes)
      requires Wf(p)
      ensures Valid() && prof == p && buf == payload && cur == 0
    {
      prof, buf, cur := p, payload, 0;
    }

    /** tlv_iter_next. */
    method Step() returns (r: Option<View>)
      requires Valid()
      modifies this
      ensures Valid()
      ensures var g := Next(prof, buf[old(cur)..]);
              if g.None? then r == None && cur == old(cur)
              else r == Some(g.value.view) && cur == old(cur) + g.value.adv
    {
      hide Load, Pad;
      var p, avail := prof, |buf| - cur;
      ghost var b := buf[cur..];
      if avail < p.hdrLen { return None; }
      assert b[p.lenOff..p.lenOff + p.lenSize] == buf[cur + p.lenOff..cur + p.lenOff + p.lenSize];
      var lfield := Load(buf[cur + p.lenOff..cur + p.lenOff + p.lenSize], p.big);
      if p.inclHdr && lfield < p.hdrLen { return None; }
      var vlen := if p.inclHdr then lfield - p.hdrLen else lfield;
      if vlen > avail - p.hdrLen { return None; }
      assert b[p.typeOff..p.typeOff + p.typeSize] == buf[cur + p.typeOff..cur + p.typeOff + p.typeSize];
      assert b[p.hdrLen..p.hdrLen + vlen] == buf[cur + p.hdrLen..cur + p.hdrLen + vlen];
      var v := View(Load(buf[cur + p.typeOff..cur + p.typeOff + p.typeSize], p.big),
                    if p.metaOff.Some? then buf[cur + p.metaOff.value] else 0,
                    buf[cur + p.hdrLen..cur + p.hdrLen + vlen]);
      var adv := p.hdrLen + vlen + Pad(p, p.hdrLen + vlen);
      cur := cur + if adv < avail then adv else avail;
      return Some(v);
    }
  }

  /** A walk with nested iterators. */
  method ReadTree(p: Prof, grouped: set<nat>, b: bytes) returns (es: seq<Entry>)
    requires Wf(p)
    ensures es == Read(p, grouped, b)
    decreases |b|
  {
    hide Next, Read;
    var it := new Iter(p, b);
    es := [];
    assert b[0..] == b;
    var more := true;
    while more
      invariant it.Valid() && it.prof == p && it.buf == b && fresh(it)
      invariant more ==> Read(p, grouped, b) == es + Read(p, grouped, b[it.cur..])
      invariant !more ==> Read(p, grouped, b) == es
      decreases if more then |b| - it.cur + 1 else 0
    {
      ghost var at := it.cur;
      NextBounds(p, b[at..]);
      ReadSplit(p, grouped, b[at..]);
      var v := it.Step();
      if v.None? {
        assert es + [] == es;
        more := false;
      } else {
        var e;
        if v.value.typ in grouped {
          var kids := ReadTree(p, grouped, v.value.val);
          e := Group(v.value.typ, v.value.meta, kids);
        } else {
          e := Leaf(v.value.typ, v.value.meta, v.value.val);
        }
        assert b[at..][it.cur - at..] == b[it.cur..];
        assert e == Shaped(p, grouped, v.value);
        Regroup(es, e, Read(p, grouped, b[it.cur..]));
        es := es + [e];
      }
    }
  }

  lemma Regroup(es: seq<Entry>, e: Entry, rest: seq<Entry>)
    ensures es + ([e] + rest) == (es + [e]) + rest
  {
  }

  lemma ReadSplit(p: Prof, grouped: set<nat>, b: bytes)
    requires Wf(p)
    ensures Next(p, b).None? ==> Read(p, grouped, b) == []
    ensures Next(p, b).Some? ==>
              var g := Next(p, b).value;
              g.adv <= |b| && Read(p, grouped, b) == [Shaped(p, grouped, g.view)] + Read(p, grouped, b[g.adv..])
  {
    NextBounds(p, b);
    hide Next;
  }

  lemma NextBounds(p: Prof, b: bytes)
    requires Wf(p)
    ensures Next(p, b).Some? ==> 0 < Next(p, b).value.adv <= |b| && |Next(p, b).value.view.val| < |b|
  {
  }
}
