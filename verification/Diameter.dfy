/** Diameter messages (RFC 6733 sections 3 and 4.1) over the TLV codec: what the wire form of
    an AVP tree and of a header means (diam/src/diam.c). */
module DiamWire {
  import opened Basics
  import opened BigEndian
  import opened TlvWire

  const F_VENDOR: byte := 0x80

  datatype Avp = Data(code: nat, flags: byte, vendor: nat, val: bytes)
               | Grouped(code: nat, flags: byte, vendor: nat, kids: seq<Avp>)

  /** diam_flags: a vendor id sets the V bit; a V bit without one is refused. */
  predicate FlagsOk(flags: byte, vendor: nat) { vendor != 0 || flags < F_VENDOR }

  function Flagged(flags: byte, vendor: nat): byte {
    if vendor != 0 && flags < F_VENDOR then flags + F_VENDOR else flags
  }

  function Vid(vendor: nat): bytes { if vendor == 0 then [] else Spell(vendor, 4) }

  /** The octets after the AVP header: Vendor-ID if any, then data or children. */
  function Body(a: Avp): bytes
    decreases a, 0
  {
    Vid(a.vendor) + match a case Data(_, _, _, v) => v case Grouped(_, _, _, ks) => WireAvps(ks)
  }

  function WireAvp(a: Avp): bytes
    decreases a, 1
  {
    Wire(DIAMETER, a.code, Flagged(a.flags, a.vendor), Body(a))
  }

  function WireAvps(xs: seq<Avp>): bytes
    decreases xs
  {
    if xs == [] then [] else WireAvp(xs[0]) + WireAvps(xs[1..])
  }

  /** What a receiver sees: the V bit shows wherever there is a vendor id. */
  function Seen(a: Avp): Avp
    decreases a
  {
    match a
    case Data(c, f, v, d) => Data(c, Flagged(f, v), v, d)
    case Grouped(c, f, v, ks) => Grouped(c, Flagged(f, v), v, SeenAll(ks))
  }

  function SeenAll(xs: seq<Avp>): seq<Avp>
    decreases xs
  {
    if xs == [] then [] else [Seen(xs[0])] + SeenAll(xs[1..])
  }

  /** Fields in range, lengths within 24 bits, and exactly the grouped AVPs have grouped codes. */
  predicate Good(grouped: set<(nat, nat)>, a: Avp)
    decreases a, 0
  {
    && a.code < Pow256(4) && a.vendor < Pow256(4) && FlagsOk(a.flags, a.vendor)
    && LField(DIAMETER, |Body(a)|) <= LenMax(DIAMETER)
    && (a.Grouped? <==> (a.code, a.vendor) in grouped)
    && (a.Grouped? ==> AllGood(grouped, a.kids))
  }

  predicate AllGood(grouped: set<(nat, nat)>, xs: seq<Avp>)
    decreases xs
  {
    xs != [] ==> Good(grouped, xs[0]) && AllGood(grouped, xs[1..])
  }

  // ---------- reading ----------

  datatype AvpView = AvpView(code: nat, flags: byte, vendor: nat, val: bytes)

  /** diam_avp_iter_next, from the TLV entry under it. */
  function Unwrap(v: View): (r: Option<AvpView>)
    ensures r.Some? ==> |r.value.val| <= |v.val|
  {
    if v.meta < F_VENDOR then Some(AvpView(v.typ, v.meta, 0, v.val))
    else if |v.val| < 4 then None
    else Some(AvpView(v.typ, v.meta, BE(v.val[..4]), v.val[4..]))
  }

  function ReadAvps(grouped: set<(nat, nat)>, b: bytes): seq<Avp>
    decreases |b|, 0
  {
    match Next(DIAMETER, b)
    case None => []
    case Some(g) =>
      match Unwrap(g.view)
      case None => []
      case Some(v) => [Shaped(grouped, v)] + ReadAvps(grouped, b[g.adv..])
  }

  function Shaped(grouped: set<(nat, nat)>, v: AvpView): Avp
    decreases |v.val|, 1
  {
    if (v.code, v.vendor) in grouped then Grouped(v.code, v.flags, v.vendor, ReadAvps(grouped, v.val))
    else Data(v.code, v.flags, v.vendor, v.val)
  }

  lemma UnwrapReads(code: nat, flags: byte, vendor: nat, val: bytes)
    requires FlagsOk(flags, vendor) && vendor < Pow256(4)
    ensures Unwrap(View(code, Flagged(flags, vendor), Vid(vendor) + val))
            == Some(AvpView(code, Flagged(flags, vendor), vendor, val))
  {
    hide BE, Spell, Pow256;
    if vendor == 0 {
      assert [] + val == val;
    } else {
      SpellLength(vendor, 4);
      BEInverse(vendor, 4);
      var b := Spell(vendor, 4) + val;
      assert b[..4] == Spell(vendor, 4) && b[4..] == val;
    }
  }

  /** Nested AVP iterators return the tree that was written, vendor ids and flags included. */
  lemma {:induction false} AvpsRoundTrip(grouped: set<(nat, nat)>, xs: seq<Avp>)
    requires AllGood(grouped, xs)
    ensures ReadAvps(grouped, WireAvps(xs)) == SeenAll(xs)
    decreases xs
  {
    hide Wire, Next, Vid, Unwrap, Pow256, BE, Spell;
    if xs == [] {
      NextEmpty(DIAMETER);
    } else {
      var a, rest := xs[0], WireAvps(xs[1..]);
      var val := match a case Data(_, _, _, v) => v case Grouped(_, _, _, ks) => WireAvps(ks);
      NextReads(DIAMETER, a.code, Flagged(a.flags, a.vendor), Body(a), rest);
      UnwrapReads(a.code, a.flags, a.vendor, val);
      var b := WireAvp(a) + rest;
      assert b[|WireAvp(a)|..] == rest;
      AvpsRoundTrip(grouped, xs[1..]);
      if a.Grouped? { AvpsRoundTrip(grouped, a.kids); }
    }
  }

  /** AVPs fill whole 32-bit words. */
  lemma {:induction false} AvpsAligned(xs: seq<Avp>)
    ensures |WireAvps(xs)| % 4 == 0
    decreases xs
  {
    hide Wire;
    if xs != [] {
      AvpsAligned(xs[1..]);
      WireAligned(xs[0].code, Flagged(xs[0].flags, xs[0].vendor), Body(xs[0]));
    }
  }

  lemma WireAligned(typ: nat, meta: byte, val: bytes)
    ensures |Wire(DIAMETER, typ, meta, val)| % 4 == 0
  {
  }

  // ---------- the message header ----------

  datatype Hdr = Hdr(length: nat, request: bool, proxiable: bool, error: bool, retransmit: bool,
                     code: nat, app: nat, hbh: nat, e2e: nat)

  function Bit(b: bool, v: nat): nat { if b then v else 0 }

  function HdrFlags(h: Hdr): byte {
    Bit(h.request, 128) + Bit(h.proxiable, 64) + Bit(h.error, 32) + Bit(h.retransmit, 16)
  }

  /** The twenty header octets (diam_hdr_encode). */
  function HdrBytes(h: Hdr): (r: bytes)
    ensures |r| == 20
  {
    [1] + Spell(h.length, 3) + HdrTail(h)
  }

  function HdrTail(h: Hdr): (r: bytes)
    ensures |r| == 16
  {
    [HdrFlags(h)] + Spell(h.code, 3) + Spell(h.app, 4) + Spell(h.hbh, 4) + Spell(h.e2e, 4)
  }

  datatype HdrErr = Short | Version | Length

  datatype HdrRes = Ok(hdr: Hdr) | Fail(err: HdrErr)

  /** diam_hdr_decode. */
  function HdrDecode(b: bytes): HdrRes {
    if |b| < 20 then Fail(Short) else
    var f := b[4];
    var h := Hdr(BE(b[1..4]), f / 128 % 2 == 1, f / 64 % 2 == 1, f / 32 % 2 == 1, f / 16 % 2 == 1,
                 BE(b[5..8]), BE(b[8..12]), BE(b[12..16]), BE(b[16..20]));
    if b[0] != 1 then Fail(Version)
    else if h.length < 20 || h.length > |b| || h.length % 4 != 0 then Fail(Length)
    else Ok(h)
  }

  predicate HdrFits(h: Hdr) {
    && h.length < Pow256(3) && h.code < Pow256(3)
    && h.app < Pow256(4) && h.hbh < Pow256(4) && h.e2e < Pow256(4)
  }

  lemma HdrSlices(h: Hdr, rest: bytes)
    ensures var b := HdrBytes(h) + rest;
            && |b| == 20 + |rest| && b[0] == 1 && b[4] == HdrFlags(h) && b[1..4] == Spell(h.length, 3)
            && b[5..8] == Spell(h.code, 3) && b[8..12] == Spell(h.app, 4)
            && b[12..16] == Spell(h.hbh, 4) && b[16..20] == Spell(h.e2e, 4)
  {
    hide Spell, HdrFlags;
    SpellLength(h.length, 3);
    SpellLength(h.code, 3);
    SpellLength(h.app, 4);
    SpellLength(h.hbh, 4);
    SpellLength(h.e2e, 4);
    var b, f := HdrBytes(h) + rest, [HdrFlags(h)];
    var s0, s1, s2, s3, s4 := Spell(h.length, 3), Spell(h.code, 3), Spell(h.app, 4), Spell(h.hbh, 4), Spell(h.e2e, 4);
    SliceOf([1], s0, HdrTail(h) + rest, b);
    SliceOf([1] + s0, f, s1 + s2 + s3 + s4 + rest, b);
    SliceOf([1] + s0 + f, s1, s2 + s3 + s4 + rest, b);
    SliceOf([1] + s0 + f + s1, s2, s3 + s4 + rest, b);
    SliceOf([1] + s0 + f + s1 + s2, s3, s4 + rest, b);
    SliceOf([1] + s0 + f + s1 + s2 + s3, s4, rest, b);
  }

  lemma SliceOf(x: bytes, y: bytes, z: bytes, b: bytes)
    requires b == x + y + z
    ensures b[|x|..|x| + |y|] == y && (|y| == 1 ==> b[|x|] == y[0])
  {
  }

  /** Section 3 of RFC 6733, octet by octet: version 1, length, the R, P, E and T bits, command code,
      application, hop-by-hop and end-to-end identifiers. */
  lemma HdrOctets(h: Hdr)
    requires h.length < 0x100_0000 && h.code < 0x100_0000
    requires h.app < 0x1_0000_0000 && h.hbh < 0x1_0000_0000 && h.e2e < 0x1_0000_0000
    ensures var b := HdrBytes(h);
            && |b| == 20 && b[0] == 1 && BE(b[1..4]) == h.length
            && b[4] == (if h.request then 0x80 else 0) + (if h.proxiable then 0x40 else 0)
                       + (if h.error then 0x20 else 0) + (if h.retransmit then 0x10 else 0)
            && BE(b[5..8]) == h.code && BE(b[8..12]) == h.app && BE(b[12..16]) == h.hbh && BE(b[16..20]) == h.e2e
  {
    Powers();
    HdrSlices(h, []);
    hide Spell, BE, Pow256, HdrBytes;
    assert HdrBytes(h) + [] == HdrBytes(h);
    BEInverse(h.length, 3);
    BEInverse(h.code, 3);
    BEInverse(h.app, 4);
    BEInverse(h.hbh, 4);
    BEInverse(h.e2e, 4);
  }

  /** A vendor id stands between the header and the data, and the V bit says so. */
  lemma VendorOctets(a: Avp)
    requires a.Data? && 0 < a.vendor < 0x1_0000_0000 && a.code < 0x1_0000_0000 && |a.val| < 0x100_0000 - 12
    ensures var w := WireAvp(a);
            && |w| >= 12 + |a.val| && BE(w[0..4]) == a.code
            && w[4] == (if a.flags < 0x80 then a.flags + 0x80 else a.flags) && BE(w[5..8]) == 12 + |a.val|
            && BE(w[8..12]) == a.vendor && w[12..12 + |a.val|] == a.val
  {
    hide Wire, BE, Spell, Pow256;
    Powers();
    SpellLength(a.vendor, 4);
    BEInverse(a.vendor, 4);
    var v := Vid(a.vendor);
    DiameterOctets(a.code, Flagged(a.flags, a.vendor), Body(a));
    var w := WireAvp(a);
    assert w[8..12] == w[8..8 + |Body(a)|][..4] == v;
    assert w[12..12 + |a.val|] == w[8..8 + |Body(a)|][4..] == a.val;
  }

  /** A header decodes to itself exactly when its length is that of a message in the buffer. */
  lemma HdrRoundTrip(h: Hdr, rest: bytes)
    requires HdrFits(h)
    ensures HdrDecode(HdrBytes(h) + rest)
            == if 20 <= h.length <= 20 + |rest| && h.length % 4 == 0 then Ok(h) else Fail(Length)
  {
    hide Spell, BE, Pow256, HdrBytes, HdrFlags;
    HdrSlices(h, rest);
    HdrBits(h);
    BEInverse(h.length, 3);
    BEInverse(h.code, 3);
    BEInverse(h.app, 4);
    BEInverse(h.hbh, 4);
    BEInverse(h.e2e, 4);
  }

  /** A header is accepted exactly when the buffer starts with its octets, up to four bits nobody
      reads, and with as long a message; a wrong version is told from a wrong length. */
  lemma HdrShape(b: bytes, h: Hdr)
    ensures HdrDecode(b) == Ok(h) <==>
            && |b| >= 20 && HdrFits(h) && 20 <= h.length <= |b| && h.length % 4 == 0
            && b[..4] == HdrBytes(h)[..4] && b[4] / 16 == HdrFlags(h) / 16 && b[5..20] == HdrBytes(h)[5..]
    ensures HdrDecode(b) == Fail(Short) <==> |b| < 20
    ensures HdrDecode(b) == Fail(Version) <==> |b| >= 20 && b[0] != 1
  {
    if |b| >= 20 { HdrFields(b, h); }
  }

  lemma HdrFields(b: bytes, h: Hdr)
    requires |b| >= 20
    ensures HdrDecode(b) == Ok(h) <==>
            && HdrFits(h) && 20 <= h.length <= |b| && h.length % 4 == 0
            && b[..4] == HdrBytes(h)[..4] && b[4] / 16 == HdrFlags(h) / 16 && b[5..20] == HdrBytes(h)[5..]
  {
    HdrSlices(h, []);
    var w := HdrBytes(h);
    assert w + [] == w;
    FieldShape(b[1..4], h.length);
    FieldShape(b[5..8], h.code);
    FieldShape(b[8..12], h.app);
    FieldShape(b[12..16], h.hbh);
    FieldShape(b[16..20], h.e2e);
    FlagBits(b[4], h);
    hide Spell, BE, Pow256, HdrBytes, HdrFlags;
    assert b[..4] == w[..4] <==> b[0] == w[0] && b[1..4] == w[1..4] by { Halves(b[..4], w[..4], 1); }
    Quarters(b, w);
  }

  lemma FieldShape(x: bytes, v: nat)
    ensures BE(x) == v <==> v < Pow256(|x|) && x == Spell(v, |x|)
  {
    hide BE, Spell, Pow256;
    SpellInverse(x);
    if v < Pow256(|x|) { BEInverse(v, |x|); }
  }

  lemma FlagBits(f: byte, h: Hdr)
    ensures f / 16 == HdrFlags(h) / 16 <==>
            && (f / 128 % 2 == 1) == h.request && (f / 64 % 2 == 1) == h.proxiable
            && (f / 32 % 2 == 1) == h.error && (f / 16 % 2 == 1) == h.retransmit
  {
    HdrBits(h);
    hide HdrFlags;
    HighBits(f);
    HighBits(HdrFlags(h));
  }

  lemma HighBits(f: byte)
    ensures f / 16 == f / 128 % 2 * 8 + f / 64 % 2 * 4 + f / 32 % 2 * 2 + f / 16 % 2
  {
  }

  lemma Halves(x: bytes, y: bytes, k: nat)
    requires k <= |x| == |y|
    ensures x == y <==> x[..k] == y[..k] && x[k..] == y[k..]
  {
    assert x == x[..k] + x[k..] && y == y[..k] + y[k..];
  }

  lemma Quarters(b: bytes, w: bytes)
    requires |b| >= 20 && |w| == 20
    ensures b[5..20] == w[5..] <==>
            b[5..8] == w[5..8] && b[8..12] == w[8..12] && b[12..16] == w[12..16] && b[16..20] == w[16..20]
  {
    var x, y := b[5..20], w[5..];
    assert x == b[5..8] + b[8..12] + b[12..16] + b[16..20] && y == w[5..8] + w[8..12] + w[12..16] + w[16..20];
    assert x[..3] == b[5..8] && x[3..7] == b[8..12] && x[7..11] == b[12..16] && x[11..] == b[16..20];
    assert y[..3] == w[5..8] && y[3..7] == w[8..12] && y[7..11] == w[12..16] && y[11..] == w[16..20];
  }

  lemma HdrBits(h: Hdr)
    ensures var f := HdrFlags(h);
            && (f / 128 % 2 == 1 <==> h.request) && (f / 64 % 2 == 1 <==> h.proxiable)
            && (f / 32 % 2 == 1 <==> h.error) && (f / 16 % 2 == 1 <==> h.retransmit)
  {
  }

  /** A finalized message: header and AVPs, with the length of both. */
  function Message(h: Hdr, xs: seq<Avp>): bytes {
    HdrBytes(h.(length := 20 + |WireAvps(xs)|)) + WireAvps(xs)
  }

  /** A finalized message decodes with its own length, a multiple of four, and its AVPs. */
  lemma MessageRoundTrip(grouped: set<(nat, nat)>, h: Hdr, xs: seq<Avp>)
    requires HdrFits(h.(length := 20 + |WireAvps(xs)|)) && AllGood(grouped, xs)
    ensures var m := Message(h, xs);
            && HdrDecode(m) == Ok(h.(length := |m|)) && |m| % 4 == 0
            && ReadAvps(grouped, m[20..]) == SeenAll(xs)
  {
    hide HdrDecode, ReadAvps, SeenAll, WireAvps, HdrBytes, AllGood, HdrFits;
    var h' := h.(length := 20 + |WireAvps(xs)|);
    AvpsAligned(xs);
    HdrRoundTrip(h', WireAvps(xs));
    AvpsRoundTrip(grouped, xs);
    HdrLength(h');
    assert Message(h, xs)[20..] == WireAvps(xs);
  }

  lemma HdrLength(h: Hdr)
    ensures |HdrBytes(h)| == 20
  {
  }
}

/** The Diameter binding as the code drives the shared write buffer and iterator. */
module Diam {
  import opened Basics
  import opened BigEndian
  import opened TlvWire
  import opened Tlv
  import opened DiamWire

  /** diam_hdr_encode into the front of the buffer. */
  method HdrEncode(buf: array<byte>, h: Hdr) returns (r: Code)
    modifies buf
    ensures r == if buf.Length < 20 then Overflow
                 else if h.length > 0xFF_FFFF || h.code > 0xFF_FFFF then Inval else Okay
    ensures r != Okay ==> buf[..] == old(buf[..])
    ensures r == Okay ==> buf[..20] == HdrBytes(h) && buf[20..] == old(buf[20..])
  {
    hide HdrBytes;
    if buf.Length < 20 { return Overflow; }
    if h.length > 0xFF_FFFF { return Inval; }
    if h.code > 0xFF_FFFF { return Inval; }
    var b := HdrBytes(h);
    HdrLength(h);
    forall i | 0 <= i < 20 { buf[i] := b[i]; }
    assert buf[..20] == b;
    return Okay;
  }

  /** The state of an AVP begun: header with the length to come, Vendor-ID if any. */
  ghost predicate Begun(over: bool, was: bytes, code: nat, flags: byte, vendor: nat, cap: nat, r: Option<nat>, over': bool, now: bytes) {
    var f := Header(DIAMETER, code, Flagged(flags, vendor), 0) + Vid(vendor);
    && (r.Some? <==> !over && FlagsOk(flags, vendor) && |was| + |f| <= cap)
    && (r.Some? ==> r.value == |was| && !over' && now == was + f)
    && |was| <= |now| && now[..|was|] == was
  }

  /** diam_avp_begin; c is the error when there is no handle. */
  method AvpBegin(w: Wbuf, code: nat, flags: byte, vendor: nat) returns (r: Option<nat>, c: Code)
    requires w.Valid()
    modifies w`off, w`overflow, w.buf
    ensures w.Valid()
    ensures c == if !FlagsOk(flags, vendor) then Inval else if r.None? then Overflow else Okay
    ensures Begun(old(w.overflow), old(w.Written()), code, flags, vendor, w.buf.Length, r, w.overflow, w.Written())
  {
    hide Header, Spell;
    ghost var was := w.Written();
    HeaderLength(DIAMETER, code, Flagged(flags, vendor), 0);
    SpellLength(vendor, 4);
    if !FlagsOk(flags, vendor) { return None, Inval; }
    r := w.Begin(DIAMETER, code, Flagged(flags, vendor));
    if r.None? { return None, Overflow; }
    c := Okay;
    ghost var open := w.Written();
    if vendor != 0 {
      c := w.Append(Spell(vendor, 4));
      assert (was + Header(DIAMETER, code, Flagged(flags, vendor), 0))[..|was|] == was;
      if c != Okay { return None, Overflow; }
      assert open + Vid(vendor) == was + (Header(DIAMETER, code, Flagged(flags, vendor), 0) + Vid(vendor));
    } else {
      assert open == was + (Header(DIAMETER, code, Flagged(flags, vendor), 0) + []);
    }
  }

  /** diam_avp_end. */
  method AvpEnd(w: Wbuf, handle: int) returns (r: Code)
    requires w.Valid()
    modifies w`off, w`overflow, w.buf
    ensures w.Valid()
    ensures !old(w.overflow) && 0 <= handle && handle + 8 <= old(w.off) ==>
              Ended(DIAMETER, handle, old(w.Written()), w.buf.Length, r, w.Written())
    ensures old(w.overflow) ==> r == Overflow && unchanged(w) && w.buf[..] == old(w.buf[..])
    ensures !old(w.overflow) && !(0 <= handle && handle + 8 <= old(w.off)) ==>
              r == Inval && unchanged(w) && w.buf[..] == old(w.buf[..])
    ensures r == Okay ==> !w.overflow
  {
    hide Ended;
    r := w.End(DIAMETER, handle);
  }

  /** An AVP fits its length field. */
  predicate Fit(vendor: nat, val: bytes) { LField(DIAMETER, |Vid(vendor) + val|) <= LenMax(DIAMETER) }

  /** diam_avp_put. */
  method AvpPut(w: Wbuf, code: nat, flags: byte, vendor: nat, val: bytes) returns (r: Code)
    requires w.Valid() && |val| < 0x1_0000_0000
    modifies w`off, w`overflow, w.buf
    ensures w.Valid()
    ensures Wrote(!old(w.overflow) && FlagsOk(flags, vendor) && Fit(vendor, val), old(w.Written()),
                  Wire(DIAMETER, code, Flagged(flags, vendor), Vid(vendor) + val), w.buf.Length, r, w.overflow, w.Written())
    ensures r != Okay ==> r == if !FlagsOk(flags, vendor) || (vendor == 0 && !Fit(vendor, val)) then Inval else Overflow
  {
    hide Wire, Spell, Header, LenMax, Ended;
    ghost var was := w.Written();
    if !FlagsOk(flags, vendor) { return Inval; }
    if vendor == 0 {
      assert Vid(0) + val == val;
      r := w.Put(DIAMETER, code, flags, val);
      return;
    }
    r := PutWithVendor(w, code, flags, vendor, val);
  }

  method PutWithVendor(w: Wbuf, code: nat, flags: byte, vendor: nat, val: bytes) returns (r: Code)
    requires w.Valid() && vendor != 0 && FlagsOk(flags, vendor)
    modifies w`off, w`overflow, w.buf
    ensures w.Valid()
    ensures Wrote(!old(w.overflow) && Fit(vendor, val), old(w.Written()),
                  Wire(DIAMETER, code, Flagged(flags, vendor), Vid(vendor) + val), w.buf.Length, r, w.overflow, w.Written())
    ensures r == Okay || r == Overflow
  {
    hide Wire, Header, LenMax, Vid, Pad;
    ghost var was, h, body := w.Written(), Header(DIAMETER, code, Flagged(flags, vendor), 0), Vid(vendor) + val;
    HeaderLength(DIAMETER, code, Flagged(flags, vendor), 0);
    WireLength(DIAMETER, code, Flagged(flags, vendor), body);
    var at, c := AvpBegin(w, code, flags, vendor);
    if at.None? { return c; }
    ghost var open := w.Written();
    r := w.Append(val);
    assert open[..|was|] == was;
    if r != Okay { return; }
    assert w.Written() == was + h + body;
    r := w.End(DIAMETER, at.value);
    EndGroup(DIAMETER, was, code, Flagged(flags, vendor), body, w.buf.Length, r, w.Written());
  }

  // ---------- whole trees and messages ----------

  /** What the writer demands of an AVP and everything inside it. */
  predicate Writable(a: Avp)
    decreases a, 0
  {
    && FlagsOk(a.flags, a.vendor) && LField(DIAMETER, |Body(a)|) <= LenMax(DIAMETER)
    && (a.Grouped? ==> AllWritable(a.kids))
  }

  predicate AllWritable(xs: seq<Avp>)
    decreases xs
  {
    xs != [] ==> Writable(xs[0]) && AllWritable(xs[1..])
  }

  predicate SmallAvp(a: Avp)
    decreases a, 0
  {
    match a case Data(_, _, _, v) => |v| < 0x1_0000_0000 case Grouped(_, _, _, ks) => AllSmallAvps(ks)
  }

  predicate AllSmallAvps(xs: seq<Avp>)
    decreases xs
  {
    xs != [] ==> SmallAvp(xs[0]) && AllSmallAvps(xs[1..])
  }

  method WriteAvp(w: Wbuf, a: Avp) returns (r: Code)
    requires w.Valid() && SmallAvp(a)
    modifies w`off, w`overflow, w.buf
    ensures w.Valid()
    ensures Wrote(!old(w.overflow) && Writable(a), old(w.Written()), WireAvp(a), w.buf.Length, r, w.overflow, w.Written())
    decreases a, 2
  {
    hide Wire, LenMax, Spell;
    match a {
      case Data(code, flags, vendor, val) => r := AvpPut(w, code, flags, vendor, val);
      case Grouped(code, flags, vendor, kids) => r := WriteGroupedAvp(w, code, flags, vendor, kids);
    }
  }

  method WriteGroupedAvp(w: Wbuf, code: nat, flags: byte, vendor: nat, kids: seq<Avp>) returns (r: Code)
    requires w.Valid() && AllSmallAvps(kids)
    modifies w`off, w`overflow, w.buf
    ensures w.Valid()
    ensures Wrote(!old(w.overflow) && FlagsOk(flags, vendor) && Fit(vendor, WireAvps(kids)) && AllWritable(kids),
                  old(w.Written()), Wire(DIAMETER, code, Flagged(flags, vendor), Vid(vendor) + WireAvps(kids)),
                  w.buf.Length, r, w.overflow, w.Written())
    decreases kids, 1
  {
    hide Wire, Header, LenMax, Ended, Vid, Pad, WireAvps, AllWritable, AllSmallAvps;
    ghost var h, val := Header(DIAMETER, code, Flagged(flags, vendor), 0), WireAvps(kids);
    ghost var was, body := w.Written(), Vid(vendor) + val;
    HeaderLength(DIAMETER, code, Flagged(flags, vendor), 0);
    WireLength(DIAMETER, code, Flagged(flags, vendor), body);
    var at, c := AvpBegin(w, code, flags, vendor);
    if at.None? { return c; }
    ghost var open := w.Written();
    assert open[..|was|] == was;
    r := WriteAvps(w, kids);
    assert w.Written()[..|was|] == w.Written()[..|open|][..|was|] == was;
    if r != Okay { return; }
    assert w.Written() == was + h + body;
    r := w.End(DIAMETER, at.value);
    EndGroup(DIAMETER, was, code, Flagged(flags, vendor), body, w.buf.Length, r, w.Written());
  }

  method WriteAvps(w: Wbuf, xs: seq<Avp>) returns (r: Code)
    requires w.Valid() && AllSmallAvps(xs) && !w.overflow
    modifies w`off, w`overflow, w.buf
    ensures w.Valid()
    ensures Wrote(AllWritable(xs), old(w.Written()), WireAvps(xs), w.buf.Length, r, w.overflow, w.Written())
    decreases xs, 0
  {
    hide WireAvp, Writable, SmallAvp;
    ghost var was := w.Written();
    if xs == [] {
      assert was + [] == was;
      return Okay;
    }
    r := WriteAvp(w, xs[0]);
    if r != Okay { return; }
    ghost var mid := w.Written();
    r := WriteAvps(w, xs[1..]);
    assert w.Written()[..|was|] == w.Written()[..|mid|][..|was|];
    assert was + WireAvp(xs[0]) + WireAvps(xs[1..]) == was + WireAvps(xs);
  }

  /** diam_hdr_finalize: the length of everything from the header on. */
  method HdrFinalize(w: Wbuf, at: nat) returns (r: Code)
    requires w.Valid()
    modifies w.buf
    ensures w.Valid()
    ensures r == if w.overflow then Overflow else if at + 20 > w.off then Inval
                 else if w.off - at > 0xFF_FFFF then Overflow else Okay
    ensures r != Okay ==> w.buf[..] == old(w.buf[..])
    ensures r == Okay ==> w.Written() == Splice(old(w.Written()), at + 1, Field(w.off - at, 3, true))
  {
    hide Field, Splice;
    if w.overflow { return Overflow; }
    if at + 20 > w.off { return Inval; }
    var total := w.off - at;
    if total > 0xFF_FFFF { return Overflow; }
    FieldLength(total, 3, true);
    w.Store(at + 1, 3, true, total);
    SpliceFront(old(w.buf[..]), w.off, at + 1, Field(total, 3, true));
    assert w.buf[..][..w.off] == w.buf[..w.off] && old(w.buf[..])[..w.off] == old(w.buf[..w.off]);
    return Okay;
  }

  /** Header, AVPs, finalize: the way a message is put together. */
  method WriteMessage(w: Wbuf, h: Hdr, xs: seq<Avp>) returns (r: Code)
    requires w.Valid() && w.off == 0 && !w.overflow && AllSmallAvps(xs)
    modifies w`off, w`overflow, w.buf
    ensures w.Valid()
    ensures r == Okay <==> && AllWritable(xs) && h.length <= 0xFF_FFFF && h.code <= 0xFF_FFFF
                           && 20 + |WireAvps(xs)| <= 0xFF_FFFF && 20 + |WireAvps(xs)| <= w.buf.Length
    ensures r == Okay ==> w.Written() == Message(h, xs)
  {
    hide WireAvps, AllWritable, AllSmallAvps, HdrBytes, Field, Splice;
    r := HdrEncode(w.buf, h);
    if r != Okay { return; }
    w.off := 20;
    ghost var was := w.Written();
    r := WriteAvps(w, xs);
    if r != Okay { return; }
    r := HdrFinalize(w, 0);
    Relength(h, WireAvps(xs));
  }

  /** Backfilling the length of a header in front of some AVPs. */
  lemma Relength(h: Hdr, rest: bytes)
    ensures |HdrBytes(h) + rest| == 20 + |rest| && |Field(20 + |rest|, 3, true)| == 3
    ensures Splice(HdrBytes(h) + rest, 1, Field(20 + |rest|, 3, true)) == HdrBytes(h.(length := 20 + |rest|)) + rest
  {
    var n := 20 + |rest|;
    SpellLength(h.length, 3);
    SpellLength(n, 3);
    SpliceSecond([1], Spell(h.length, 3), HdrTail(h) + rest, Spell(n, 3));
    assert HdrTail(h.(length := n)) == HdrTail(h);
    hide Spell, HdrTail;
    assert HdrBytes(h) + rest == [1] + Spell(h.length, 3) + (HdrTail(h) + rest);
    assert HdrBytes(h.(length := n)) + rest == [1] + Spell(n, 3) + (HdrTail(h) + rest);
    HdrLength(h);
  }

  lemma SpliceSecond(a: bytes, f: bytes, t: bytes, g: bytes)
    requires |f| == |g|
    ensures Splice(a + f + t, |a|, g) == a + g + t
  {
  }

  /** diam_avp_iter_next. */
  method AvpStep(it: Iter) returns (r: Option<AvpView>)
    requires it.Valid() && it.prof == DIAMETER
    modifies it
    ensures it.Valid()
    ensures var g := Next(DIAMETER, it.buf[old(it.cur)..]);
            if g.None? then r == None && it.cur == old(it.cur)
            else r == Unwrap(g.value.view) && it.cur == old(it.cur) + g.value.adv
  {
    hide Next;
    var v := it.Step();
    if v.None? { return None; }
    return Unwrap(v.value);
  }
}
