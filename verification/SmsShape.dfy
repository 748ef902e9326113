/** The layout of SMS transfer PDUs (section 9.2.2 of TS 23.040), told without the reader, and the
    reader of sms/src/sms.c proved to accept exactly it. */
module TpduShape {
  import opened Arith
  import opened Basics
  import opened SmsPack
  import opened SmsText
  import opened SmsUserData
  import opened SmsTime
  import opened TpduSpec

  // ---------- the fields ----------

  /** Semi-octet i of a run, the low nibble of an octet first. */
  function SemiAt(v: bytes, i: nat): nat
    requires i / 2 < |v|
  {
    if i % 2 == 0 then v[i / 2] % 16 else v[i / 2] / 16
  }

  const SYMBOLS: string := "0123456789*#abc"

  predicate NumberIs(v: bytes, d: bytes) {
    && |v| == (|d| + 1) / 2
    && forall i :: 0 <= i < |d| ==> SemiAt(v, i) < 15 && d[i] == SYMBOLS[SemiAt(v, i)] as int
  }

  /** A text fills its octets with as many septets as they hold. */
  predicate TextIs(v: bytes, d: bytes) {
    d == SeptetText(Unpacked(v, 0, 8 * |v| / 7))
  }

  /** The count of semi-octets, the type of address with a bit nobody reads, the value. */
  predicate AddrIs(p: bytes, a: Addr) {
    && a.ton < 8 && a.npi < 16
    && |p| >= 2 && p[0] <= 20 && |p| == 2 + (p[0] + 1) / 2
    && (p[1] == 16 * a.ton + a.npi || p[1] == 128 + 16 * a.ton + a.npi)
    && if a.ton == 5 then TextIs(p[2..], a.digits) else |a.digits| == p[0] && NumberIs(p[2..], a.digits)
  }

  /** Two decimal digits in one octet, the tens in the low nibble. */
  predicate PairIs(o: byte, v: int) { 0 <= v < 100 && o == v % 10 * 16 + v / 10 }

  /** Quarter hours in the same form, the sign in the bit of weight eight. */
  predicate ZoneIs(o: byte, tz: int) {
    && -48 <= tz <= 48
    && ((tz >= 0 && o == tz % 10 * 16 + tz / 10) || (tz <= 0 && o == (0 - tz) % 10 * 16 + (0 - tz) / 10 + 8))
  }

  predicate TsIs(p: bytes, t: Ts) {
    && |p| == 7 && 1970 <= t.year <= 2069 && PairIs(p[0], t.year % 100)
    && PairIs(p[1], t.mon) && PairIs(p[2], t.day) && PairIs(p[3], t.hour) && PairIs(p[4], t.min) && PairIs(p[5], t.sec)
    && ZoneIs(p[6], t.tz)
  }

  /** TP-UDL counts septets under the 7-bit alphabet, the last octet filled up, and octets
      otherwise. */
  predicate GoodUd(dcs: byte, u: UdField) {
    && |u.octets| <= 140
    && var udl: int := u.udl;
       if AlphabetOf(dcs) == Default then 7 * udl <= 8 * |u.octets| <= 7 * udl + 7 else |u.octets| == udl
  }

  lemma UdCounts(dcs: byte, u: UdField)
    ensures GoodUd(dcs, u) <==> |u.octets| == UdOctets(dcs, u.udl) <= UD_MAX
  {
    hide AlphabetOf;
  }

  predicate UdIs(dcs: byte, p: bytes, u: UdField) { p == [u.udl] + u.octets && GoodUd(dcs, u) }

  predicate On(o: byte, mask: nat)
    requires mask > 0
  {
    o / mask % 2 == 1
  }

  function UdPart(u: Option<UdField>): bytes { if u.Some? then [u.value.udl] + u.value.octets else [] }

  /** The fields TP-PI announces, in the order of its bits; user data without TP-DCS is read as
      under TP-DCS 0. */
  predicate TailIs(pi: byte, p: bytes, t: Tail) {
    && t.pid.Some? == On(pi, 1) && t.dcs.Some? == On(pi, 2) && t.ud.Some? == On(pi, 4)
    && p == OptByte(t.pid) + OptByte(t.dcs) + UdPart(t.ud)
    && (t.ud.Some? ==> GoodUd(Dcs0(t.dcs), t.ud.value))
  }

  predicate VpIs(format: nat, p: bytes, v: Vp) {
    match v
    case NoVp => format == 0 && p == []
    case Enhanced(o) => format == 1 && p == o && |o| == 7
    case Relative(r) => format == 2 && p == [r]
    case Absolute(t) => format == 3 && TsIs(p, t)
  }

  /** A status report may stop before TP-PI, at the end of the buffer only. */
  predicate PiTailIs(p: bytes, pi: Option<byte>, t: Tail, w: bytes) {
    if pi.None? then p == [] && w == [] && t == NO_TAIL else p != [] && p[0] == pi.value && TailIs(p[0], p[1..], t)
  }

  // ---------- the six types ----------

  /** The buffer is the TPDU, its fields of varying length in the pieces ps, and then w. */
  ghost predicate Laid(dir: Dir, b: bytes, t: Tpdu, ps: seq<bytes>, w: bytes) {
    b != [] && var o := b[0];
    match t
    case Deliver(mms, lp, sri, udhi, rp, a, pid, dcs, scts, ud) =>
      && dir.fromSc && o % 4 == 0 && |ps| == 3
      && b == [o] + ps[0] + [pid, dcs] + ps[1] + ps[2] + w
      && AddrIs(ps[0], a) && TsIs(ps[1], scts) && UdIs(dcs, ps[2], ud)
      && mms == On(o, 0x04) && lp == On(o, 0x08) && sri == On(o, 0x20) && udhi == On(o, 0x40) && rp == On(o, 0x80)
    case Submit(rd, srr, udhi, rp, mr, a, pid, dcs, vp, ud) =>
      && !dir.fromSc && o % 4 == 1 && |ps| == 3
      && b == [o, mr] + ps[0] + [pid, dcs] + ps[1] + ps[2] + w
      && AddrIs(ps[0], a) && VpIs(o / 8 % 4, ps[1], vp) && UdIs(dcs, ps[2], ud)
      && rd == On(o, 0x04) && srr == On(o, 0x20) && udhi == On(o, 0x40) && rp == On(o, 0x80)
    case StatusReport(mms, lp, srq, udhi, mr, a, scts, dt, st, pi, tail) =>
      && dir.fromSc && o % 4 == 2 && |ps| == 4
      && b == [o, mr] + ps[0] + ps[1] + ps[2] + [st] + ps[3] + w
      && AddrIs(ps[0], a) && TsIs(ps[1], scts) && TsIs(ps[2], dt) && PiTailIs(ps[3], pi, tail, w)
      && mms == On(o, 0x04) && lp == On(o, 0x08) && srq == On(o, 0x20) && udhi == On(o, 0x40)
    case Command(srr, udhi, mr, pid, ct, mn, a, cd) =>
      && !dir.fromSc && o % 4 == 2 && |ps| == 1 && |cd| <= 156
      && b == [o, mr, pid, ct, mn] + ps[0] + [|cd|] + cd + w
      && AddrIs(ps[0], a)
      && srr == On(o, 0x20) && udhi == On(o, 0x40)
    case DeliverReport(udhi, fcs, ind, tail) =>
      && !dir.fromSc && o % 4 == 0 && |ps| == 1 && fcs.Some? == dir.negative
      && b == [o] + OptByte(fcs) + [ind] + ps[0] + w
      && TailIs(ind, ps[0], tail) && udhi == On(o, 0x40)
    case SubmitReport(udhi, fcs, ind, scts, tail) =>
      && dir.fromSc && o % 4 == 1 && |ps| == 2 && fcs.Some? == dir.negative
      && b == [o] + OptByte(fcs) + [ind] + ps[0] + ps[1] + w
      && TsIs(ps[0], scts) && TailIs(ind, ps[1], tail) && udhi == On(o, 0x40)
  }

  // ---------- fields read and found ----------

  /** What was taken off the front of s when w is left. */
  predicate Ends(s: bytes, w: bytes) { |w| <= |s| && s[|s| - |w|..] == w }

  function Front(s: bytes, w: bytes): bytes
    requires |w| <= |s|
  {
    s[..|s| - |w|]
  }

  lemma UnsemiLength(b: bytes, n: nat)
    requires |b| == (n + 1) / 2
    ensures match Unsemi(b, n) case Ok(d) => |d| == n case Fail(e) => e == Length
    decreases n
  {
    hide Symbol;
    if n >= 2 { UnsemiLength(b[1..], n - 2); }
  }

  lemma SymbolIs(n: nat)
    requires n < 15
    ensures Symbol(n) == SYMBOLS[n] as int
  {
  }

  lemma SemiTail(b: bytes, i: nat)
    requires 2 <= i && i / 2 < |b|
    ensures SemiAt(b, i) == SemiAt(b[1..], i - 2)
  {
  }

  lemma {:induction false} UnsemiIs(b: bytes, n: nat, d: bytes)
    requires |b| == (n + 1) / 2 && |d| == n
    ensures Unsemi(b, n) == Ok(d) <==> NumberIs(b, d)
    decreases n
  {
    hide Symbol;
    if n > 0 && SemiAt(b, 0) < 15 { SymbolIs(SemiAt(b, 0)); }
    if n >= 2 {
      if SemiAt(b, 1) < 15 { SymbolIs(SemiAt(b, 1)); }
      UnsemiIs(b[1..], n - 2, d[2..]);
      UnsemiLength(b[1..], n - 2);
      forall i | 2 <= i < n ensures SemiAt(b, i) == SemiAt(b[1..], i - 2) && d[i] == d[2..][i - 2] { SemiTail(b, i); }
      if NumberIs(b, d) {
        assert SemiAt(b, 0) < 15 && SemiAt(b, 1) < 15;
        forall i | 0 <= i < n - 2 ensures SemiAt(b[1..], i) < 15 && d[2..][i] == SYMBOLS[SemiAt(b[1..], i)] as int {
          assert SemiAt(b, i + 2) < 15;
        }
        assert d == [d[0], d[1]] + d[2..];
      }
      if Unsemi(b, n) == Ok(d) {
        assert d[2..] == Unsemi(b[1..], n - 2).val;
        forall i | 0 <= i < n ensures SemiAt(b, i) < 15 && d[i] == SYMBOLS[SemiAt(b, i)] as int {
          if i >= 2 { assert SemiAt(b[1..], i - 2) < 15; }
        }
      }
    } else if n == 1 {
      assert d == [d[0]];
    }
  }

  lemma ToaIs(o: byte, ton: nat, npi: nat)
    requires ton < 8 && npi < 16
    ensures o / 16 % 8 == ton && o % 16 == npi <==> o == 16 * ton + npi || o == 128 + 16 * ton + npi
  {
    var x: int := o;
    assert x == x / 16 * 16 + x % 16;
    if o == 16 * ton + npi { DivModUnique(o, 16, ton, npi); DivModUnique(ton, 8, 0, ton); }
    if o == 128 + 16 * ton + npi { DivModUnique(o, 16, 8 + ton, npi); DivModUnique(8 + ton, 8, 1, ton); }
  }

  lemma AddrShape(s: bytes, a: Addr, w: bytes)
    ensures ReadAddr(s) == Ok(Got(a, w)) <==> Ends(s, w) && AddrIs(Front(s, w), a)
  {
    hide Unsemi, NumberIs, SeptetText, Unpacked;
    if |s| >= 2 && s[0] <= 20 && |s| >= 2 + (s[0] + 1) / 2 {
      var n: nat := 2 + (s[0] + 1) / 2;
      if a.ton < 8 && a.npi < 16 { ToaIs(s[1], a.ton, a.npi); }
      var v := s[2..n];
      UnsemiLength(v, s[0]);
      if |a.digits| == s[0] { UnsemiIs(v, s[0], a.digits); }
      if |w| == |s| - n {
        assert Front(s, w)[2..] == v && Front(s, w)[0] == s[0] && Front(s, w)[1] == s[1];
      }
    }
    if Ends(s, w) && AddrIs(Front(s, w), a) { assert Front(s, w)[0] == s[0]; }
  }

  lemma PairShape(o: byte, v: int)
    ensures Bcd(o) == Some(v) <==> PairIs(o, v)
  {
    var x: int := o;
    assert x == x / 16 * 16 + x % 16;
    if PairIs(o, v) { DivModUnique(o, 16, v % 10, v / 10); }
    if Bcd(o) == Some(v) { DivModUnique(v, 10, x % 16, x / 16); }
  }

  lemma ZoneShape(o: byte, tz: int)
    ensures Zone(o) == Some(tz) <==> ZoneIs(o, tz)
  {
    var q, neg := if tz < 0 then 0 - tz else tz, if o / 8 % 2 == 1 then 1 else 0;
    if ZoneIs(o, tz) {
      var sign := if o == q % 10 * 16 + q / 10 then 0 else 1;
      ZoneParts(q % 10, sign, q / 10);
    }
    if Zone(o) == Some(tz) {
      ZoneSum(o);
      var u, d := o / 16, o % 8;
      DivModUnique(d * 10 + u, 10, d, u);
    }
  }

  lemma TsShape(s: bytes, t: Ts, w: bytes)
    ensures ReadTs(s) == Ok(Got(t, w)) <==> Ends(s, w) && TsIs(Front(s, w), t)
  {
    hide Bcd, Zone, PairIs, ZoneIs;
    if |s| >= 7 {
      PairShape(s[0], t.year % 100);
      PairShape(s[1], t.mon);
      PairShape(s[2], t.day);
      PairShape(s[3], t.hour);
      PairShape(s[4], t.min);
      PairShape(s[5], t.sec);
      ZoneShape(s[6], t.tz);
      YearIs(s[0], t.year);
      if |w| == |s| - 7 { assert forall i :: 0 <= i < 7 ==> Front(s, w)[i] == s[i]; }
    }
  }

  lemma YearIs(o: byte, y: int)
    ensures Bcd(o).Some? && FullYear(Bcd(o).value) == y <==> 1970 <= y <= 2069 && Bcd(o) == Some(y % 100)
  {
    if Bcd(o).Some? { BcdWrites(o); DigitYear(Bcd(o).value); }
    if 1970 <= y <= 2069 { YearDigits(y); }
  }

  lemma UdShape(dcs: byte, s: bytes, u: UdField, w: bytes)
    ensures ReadUd(dcs, s) == Ok(Got(u, w)) <==> Ends(s, w) && UdIs(dcs, Front(s, w), u)
  {
    UdCounts(dcs, u);
    hide UdOctets, GoodUd;
    if Ends(s, w) && UdIs(dcs, Front(s, w), u) {
      assert s == [u.udl] + u.octets + w;
    }
    if ReadUd(dcs, s) == Ok(Got(u, w)) { assert Front(s, w) == [u.udl] + u.octets; }
  }

  lemma VpShape(format: nat, s: bytes, v: Vp, w: bytes)
    requires format < 4
    ensures ReadVp(format, s) == Ok(Got(v, w)) <==> Ends(s, w) && VpIs(format, Front(s, w), v)
  {
    hide ReadTs, TsIs;
    if v.Absolute? { TsShape(s, v.at, w); }
    if |s| >= 7 && |w| == |s| - 7 { assert Front(s, w) == s[..7]; }
    if s != [] && |w| == |s| - 1 { assert Front(s, w) == [s[0]]; }
    if Ends(s, w) && Front(s, w) == [] { assert s == w; }
  }

  lemma FrontSplit(s: bytes, m: bytes, w: bytes)
    requires Ends(s, m) && Ends(m, w)
    ensures Ends(s, w) && Front(s, w) == Front(s, m) + Front(m, w)
  {
  }

  lemma Joined(p: bytes, w: bytes)
    ensures Ends(p + w, w) && Front(p + w, w) == p
  {
  }

  lemma OptShape(on: bool, s: bytes, o: Option<byte>, w: bytes)
    ensures ReadOpt(on, s) == Ok(Got(o, w)) <==> Ends(s, w) && Front(s, w) == OptByte(o) && o.Some? == on
  {
    if Ends(s, w) && Front(s, w) == OptByte(o) { assert s == OptByte(o) + w; }
  }

  lemma TailTakes(pi: byte, p: bytes, t: Tail, w: bytes)
    requires TailIs(pi, p, t)
    ensures ReadTail(pi, p + w) == Ok(Got(t, w))
  {
    hide ReadUd, ReadOpt, GoodUd, OptByte, Ends, Front, Dcs0;
    var a, b, u := OptByte(t.pid), OptByte(t.dcs), UdPart(t.ud);
    assert p + w == a + (b + (u + w));
    Joined(a, b + (u + w));
    OptShape(On(pi, 1), a + (b + (u + w)), t.pid, b + (u + w));
    Joined(b, u + w);
    OptShape(On(pi, 2), b + (u + w), t.dcs, u + w);
    if t.ud.Some? {
      Joined(u, w);
      UdShape(Dcs0(t.dcs), u + w, t.ud.value, w);
    } else {
      assert u + w == w;
    }
  }

  lemma TailFound(pi: byte, s: bytes)
    requires ReadTail(pi, s).Ok?
    ensures var Ok(g) := ReadTail(pi, s); Ends(s, g.rest) && TailIs(pi, Front(s, g.rest), g.val)
  {
    hide ReadUd, ReadOpt, GoodUd, OptByte, Dcs0;
    var Ok(g) := ReadTail(pi, s);
    var p := ReadOpt(On(pi, 1), s).val;
    OptShape(On(pi, 1), s, p.val, p.rest);
    var d := ReadOpt(On(pi, 2), p.rest).val;
    OptShape(On(pi, 2), p.rest, d.val, d.rest);
    hide Ends, Front;
    FrontSplit(s, p.rest, d.rest);
    if g.val.ud.Some? {
      UdShape(Dcs0(d.val), d.rest, g.val.ud.value, g.rest);
      FrontSplit(s, d.rest, g.rest);
    }
  }

  // ---------- the types read ----------

  lemma AddrTakes(p: bytes, a: Addr, w: bytes)
    requires AddrIs(p, a)
    ensures ReadAddr(p + w) == Ok(Got(a, w))
  {
    hide AddrIs, ReadAddr;
    Joined(p, w);
    AddrShape(p + w, a, w);
  }

  lemma TsTakes(p: bytes, t: Ts, w: bytes)
    requires TsIs(p, t)
    ensures ReadTs(p + w) == Ok(Got(t, w))
  {
    hide TsIs, ReadTs;
    Joined(p, w);
    TsShape(p + w, t, w);
  }

  lemma UdTakes(dcs: byte, p: bytes, u: UdField, w: bytes)
    requires UdIs(dcs, p, u)
    ensures ReadUd(dcs, p + w) == Ok(Got(u, w))
  {
    hide UdIs, ReadUd;
    Joined(p, w);
    UdShape(dcs, p + w, u, w);
  }

  lemma VpTakes(format: nat, p: bytes, v: Vp, w: bytes)
    requires VpIs(format, p, v)
    ensures ReadVp(format, p + w) == Ok(Got(v, w))
  {
    hide ReadVp, TsIs;
    Joined(p, w);
    VpShape(format, p + w, v, w);
  }

  lemma OptTakes(o: Option<byte>, w: bytes)
    ensures ReadOpt(o.Some?, OptByte(o) + w) == Ok(Got(o, w))
  {
    hide ReadOpt;
    Joined(OptByte(o), w);
    OptShape(o.Some?, OptByte(o) + w, o, w);
  }

  lemma OctetTakes(x: byte, w: bytes)
    ensures ReadU8([x] + w) == Ok(Got(x, w))
  {
    assert ([x] + w)[1..] == w;
  }

  lemma CdTakes(cd: bytes, w: bytes)
    requires |cd| <= 156
    ensures ReadCd([|cd|] + (cd + w)) == Ok(Got(cd, w))
  {
    var s := [|cd|] + (cd + w);
    assert s[1..1 + |cd|] == cd && s[1 + |cd|..] == w;
  }

  lemma PiTailTakes(p: bytes, pi: Option<byte>, t: Tail, w: bytes)
    requires PiTailIs(p, pi, t, w)
    ensures ReadPiTail(p + w) == Ok(Got((pi, t), w))
  {
    hide TailIs, ReadTail;
    if pi.Some? {
      assert p + w == [p[0]] + (p[1..] + w);
      OctetTakes(p[0], p[1..] + w);
      TailTakes(p[0], p[1..], t, w);
    }
  }

  lemma DeliverTakes(dir: Dir, b: bytes, t: Tpdu, ps: seq<bytes>, w: bytes)
    requires t.Deliver? && Laid(dir, b, t, ps, w)
    ensures ReadTpdu(dir, b) == Ok(Got(t, w))
  {
    hide AddrIs, TsIs, UdIs, ReadAddr, ReadTs, ReadUd, ReadU8;
    var s3 := ps[1] + (ps[2] + w);
    var s2 := [t.dcs] + s3;
    var s1 := [t.pid] + s2;
    assert b[1..] == ps[0] + s1;
    AddrTakes(ps[0], t.addr, s1);
    OctetTakes(t.pid, s2);
    OctetTakes(t.dcs, s3);
    TsTakes(ps[1], t.scts, ps[2] + w);
    UdTakes(t.dcs, ps[2], t.ud, w);
  }

  lemma SubmitTakes(dir: Dir, b: bytes, t: Tpdu, ps: seq<bytes>, w: bytes)
    requires t.Submit? && Laid(dir, b, t, ps, w)
    ensures ReadTpdu(dir, b) == Ok(Got(t, w))
  {
    hide AddrIs, VpIs, UdIs, ReadAddr, ReadVp, ReadUd, ReadU8;
    var s4 := ps[1] + (ps[2] + w);
    var s3 := [t.dcs] + s4;
    var s2 := [t.pid] + s3;
    var s1 := ps[0] + s2;
    assert b[1..] == [t.mr] + s1;
    OctetTakes(t.mr, s1);
    AddrTakes(ps[0], t.addr, s2);
    OctetTakes(t.pid, s3);
    OctetTakes(t.dcs, s4);
    VpTakes(b[0] / 8 % 4, ps[1], t.vp, ps[2] + w);
    UdTakes(t.dcs, ps[2], t.ud, w);
  }

  lemma StatusTakes(dir: Dir, b: bytes, t: Tpdu, ps: seq<bytes>, w: bytes)
    requires t.StatusReport? && Laid(dir, b, t, ps, w)
    ensures ReadTpdu(dir, b) == Ok(Got(t, w))
  {
    hide AddrIs, TsIs, PiTailIs, ReadAddr, ReadTs, ReadPiTail, ReadU8;
    var s4 := [t.st] + (ps[3] + w);
    var s3 := ps[2] + s4;
    var s2 := ps[1] + s3;
    var s1 := ps[0] + s2;
    assert b[1..] == [t.mr] + s1;
    OctetTakes(t.mr, s1);
    AddrTakes(ps[0], t.addr, s2);
    TsTakes(ps[1], t.scts, s3);
    TsTakes(ps[2], t.dt, s4);
    OctetTakes(t.st, ps[3] + w);
    PiTailTakes(ps[3], t.pi, t.tail, w);
  }

  lemma CommandTakes(dir: Dir, b: bytes, t: Tpdu, ps: seq<bytes>, w: bytes)
    requires t.Command? && Laid(dir, b, t, ps, w)
    ensures ReadTpdu(dir, b) == Ok(Got(t, w))
  {
    hide AddrIs, ReadAddr, ReadCd, ReadU8;
    var s5 := [|t.cd|] + (t.cd + w);
    var s4 := ps[0] + s5;
    var s3 := [t.mn] + s4;
    var s2 := [t.ct] + s3;
    var s1 := [t.pid] + s2;
    assert b[1..] == [t.mr] + s1;
    OctetTakes(t.mr, s1);
    OctetTakes(t.pid, s2);
    OctetTakes(t.ct, s3);
    OctetTakes(t.mn, s4);
    AddrTakes(ps[0], t.addr, s5);
    CdTakes(t.cd, w);
  }

  lemma ReportTakes(dir: Dir, b: bytes, t: Tpdu, ps: seq<bytes>, w: bytes)
    requires (t.DeliverReport? || t.SubmitReport?) && Laid(dir, b, t, ps, w)
    ensures ReadTpdu(dir, b) == Ok(Got(t, w))
  {
    hide TsIs, TailIs, ReadTs, ReadTail, ReadU8, ReadOpt, OptByte;
    var s2 := if t.DeliverReport? then ps[0] + w else ps[0] + (ps[1] + w);
    var s1 := [t.ind] + s2;
    assert b[1..] == OptByte(t.fcs) + s1;
    OptTakes(t.fcs, s1);
    OctetTakes(t.ind, s2);
    if t.DeliverReport? {
      TailTakes(t.ind, ps[0], t.tail, w);
    } else {
      TsTakes(ps[0], t.scts, ps[1] + w);
      TailTakes(t.ind, ps[1], t.tail, w);
    }
  }

  // ---------- the types found ----------

  lemma AddrFound(s: bytes)
    requires ReadAddr(s).Ok?
    ensures var Ok(g) := ReadAddr(s); |g.rest| <= |s| && s == Front(s, g.rest) + g.rest && AddrIs(Front(s, g.rest), g.val)
  {
    AddrShape(s, ReadAddr(s).val.val, ReadAddr(s).val.rest);
    hide ReadAddr, AddrIs;
  }

  lemma TsFound(s: bytes)
    requires ReadTs(s).Ok?
    ensures var Ok(g) := ReadTs(s); |g.rest| <= |s| && s == Front(s, g.rest) + g.rest && TsIs(Front(s, g.rest), g.val)
  {
    TsShape(s, ReadTs(s).val.val, ReadTs(s).val.rest);
    hide ReadTs, TsIs;
  }

  lemma UdFound(dcs: byte, s: bytes)
    requires ReadUd(dcs, s).Ok?
    ensures var Ok(g) := ReadUd(dcs, s); |g.rest| <= |s| && s == Front(s, g.rest) + g.rest && UdIs(dcs, Front(s, g.rest), g.val)
  {
    UdShape(dcs, s, ReadUd(dcs, s).val.val, ReadUd(dcs, s).val.rest);
    hide ReadUd, UdIs;
  }

  lemma VpFound(format: nat, s: bytes)
    requires format < 4 && ReadVp(format, s).Ok?
    ensures var Ok(g) := ReadVp(format, s);
            |g.rest| <= |s| && s == Front(s, g.rest) + g.rest && VpIs(format, Front(s, g.rest), g.val)
  {
    VpShape(format, s, ReadVp(format, s).val.val, ReadVp(format, s).val.rest);
    hide ReadVp, VpIs;
  }

  lemma OctetFound(s: bytes)
    requires ReadU8(s).Ok?
    ensures var Ok(g) := ReadU8(s); s == [g.val] + g.rest
  {
  }

  lemma OptFound(on: bool, s: bytes)
    requires ReadOpt(on, s).Ok?
    ensures var Ok(g) := ReadOpt(on, s); s == OptByte(g.val) + g.rest && g.val.Some? == on
  {
  }

  lemma CdFound(s: bytes)
    requires ReadCd(s).Ok?
    ensures var Ok(g) := ReadCd(s); |g.val| <= 156 && s == [|g.val|] + g.val + g.rest
  {
  }

  lemma PiTailFound(s: bytes)
    requires ReadPiTail(s).Ok?
    ensures var Ok(g) := ReadPiTail(s);
            |g.rest| <= |s| && s == Front(s, g.rest) + g.rest && PiTailIs(Front(s, g.rest), g.val.0, g.val.1, g.rest)
  {
    hide ReadTail, TailIs;
    if s != [] {
      var Ok(g) := ReadTail(s[0], s[1..]);
      TailFound(s[0], s[1..]);
      assert Front(s, g.rest)[1..] == Front(s[1..], g.rest);
    }
  }

  /** The type is TP-MTI and the direction. */
  lemma TypeFollows(dir: Dir, b: bytes)
    requires ReadTpdu(dir, b).Ok?
    ensures b != []
    ensures var t := ReadTpdu(dir, b).val.val;
            && (dir.fromSc && b[0] % 4 == 0 <==> t.Deliver?) && (!dir.fromSc && b[0] % 4 == 1 <==> t.Submit?)
            && (dir.fromSc && b[0] % 4 == 2 <==> t.StatusReport?) && (!dir.fromSc && b[0] % 4 == 2 <==> t.Command?)
            && (!dir.fromSc && b[0] % 4 == 0 <==> t.DeliverReport?) && (dir.fromSc && b[0] % 4 == 1 <==> t.SubmitReport?)
  {
    hide ReadAddr, ReadTs, ReadUd, ReadU8, ReadVp, ReadPiTail, ReadTail, ReadOpt, ReadCd;
  }

  lemma DeliverFound(dir: Dir, b: bytes) returns (ps: seq<bytes>)
    requires ReadTpdu(dir, b).Ok? && ReadTpdu(dir, b).val.val.Deliver?
    ensures Laid(dir, b, ReadTpdu(dir, b).val.val, ps, ReadTpdu(dir, b).val.rest)
  {
    hide AddrIs, TsIs, UdIs, ReadAddr, ReadTs, ReadUd, ReadU8, Front;
    TypeFollows(dir, b);
    var s := b[1..];
    var Ok(a) := ReadAddr(s);
    AddrFound(s);
    var Ok(p) := ReadU8(a.rest);
    OctetFound(a.rest);
    var Ok(d) := ReadU8(p.rest);
    OctetFound(p.rest);
    var Ok(t) := ReadTs(d.rest);
    TsFound(d.rest);
    var Ok(u) := ReadUd(d.val, t.rest);
    UdFound(d.val, t.rest);
    ps := [Front(s, a.rest), Front(d.rest, t.rest), Front(t.rest, u.rest)];
    assert b == [b[0]] + s;
  }

  lemma SubmitFound(dir: Dir, b: bytes) returns (ps: seq<bytes>)
    requires ReadTpdu(dir, b).Ok? && ReadTpdu(dir, b).val.val.Submit?
    ensures Laid(dir, b, ReadTpdu(dir, b).val.val, ps, ReadTpdu(dir, b).val.rest)
  {
    hide AddrIs, VpIs, UdIs, ReadAddr, ReadVp, ReadUd, ReadU8, Front;
    TypeFollows(dir, b);
    var s, format := b[1..], b[0] / 8 % 4;
    var Ok(m) := ReadU8(s);
    OctetFound(s);
    var Ok(a) := ReadAddr(m.rest);
    AddrFound(m.rest);
    var Ok(p) := ReadU8(a.rest);
    OctetFound(a.rest);
    var Ok(d) := ReadU8(p.rest);
    OctetFound(p.rest);
    var Ok(v) := ReadVp(format, d.rest);
    VpFound(format, d.rest);
    var Ok(u) := ReadUd(d.val, v.rest);
    UdFound(d.val, v.rest);
    ps := [Front(m.rest, a.rest), Front(d.rest, v.rest), Front(v.rest, u.rest)];
    assert b == [b[0]] + s;
  }

  lemma StatusFound(dir: Dir, b: bytes) returns (ps: seq<bytes>)
    requires ReadTpdu(dir, b).Ok? && ReadTpdu(dir, b).val.val.StatusReport?
    ensures Laid(dir, b, ReadTpdu(dir, b).val.val, ps, ReadTpdu(dir, b).val.rest)
  {
    hide AddrIs, TsIs, PiTailIs, ReadAddr, ReadTs, ReadPiTail, ReadU8, Front;
    TypeFollows(dir, b);
    var s := b[1..];
    var Ok(m) := ReadU8(s);
    OctetFound(s);
    var Ok(a) := ReadAddr(m.rest);
    AddrFound(m.rest);
    var Ok(t) := ReadTs(a.rest);
    TsFound(a.rest);
    var Ok(d) := ReadTs(t.rest);
    TsFound(t.rest);
    var Ok(st) := ReadU8(d.rest);
    OctetFound(d.rest);
    var Ok(x) := ReadPiTail(st.rest);
    PiTailFound(st.rest);
    ps := [Front(m.rest, a.rest), Front(a.rest, t.rest), Front(t.rest, d.rest), Front(st.rest, x.rest)];
    assert b == [b[0]] + s;
  }

  lemma CommandFound(dir: Dir, b: bytes) returns (ps: seq<bytes>)
    requires ReadTpdu(dir, b).Ok? && ReadTpdu(dir, b).val.val.Command?
    ensures Laid(dir, b, ReadTpdu(dir, b).val.val, ps, ReadTpdu(dir, b).val.rest)
  {
    hide AddrIs, ReadAddr, ReadCd, ReadU8, Front;
    TypeFollows(dir, b);
    var s := b[1..];
    var Ok(m) := ReadU8(s);
    OctetFound(s);
    var Ok(p) := ReadU8(m.rest);
    OctetFound(m.rest);
    var Ok(c) := ReadU8(p.rest);
    OctetFound(p.rest);
    var Ok(n) := ReadU8(c.rest);
    OctetFound(c.rest);
    var Ok(a) := ReadAddr(n.rest);
    AddrFound(n.rest);
    var Ok(d) := ReadCd(a.rest);
    CdFound(a.rest);
    ps := [Front(n.rest, a.rest)];
    CommandOrder(b, [m.val], [p.val], [c.val], [n.val], ps[0], [|d.val|], d.val, m.rest, p.rest, c.rest, n.rest, a.rest, d.rest);
  }

  lemma CommandOrder(b: bytes, m: bytes, p: bytes, c: bytes, n: bytes, a: bytes, l: bytes, d: bytes,
                     r1: bytes, r2: bytes, r3: bytes, r4: bytes, r5: bytes, w: bytes)
    requires b != [] && b[1..] == m + r1 && r1 == p + r2 && r2 == c + r3 && r3 == n + r4 && r4 == a + r5 && r5 == l + d + w
    ensures b == [b[0]] + m + p + c + n + a + l + d + w
  {
    assert b == [b[0]] + b[1..];
    assert r4 == a + l + d + w;
    assert r2 == c + n + r4;
  }

  lemma ReportFound(dir: Dir, b: bytes) returns (ps: seq<bytes>)
    requires ReadTpdu(dir, b).Ok? && (ReadTpdu(dir, b).val.val.DeliverReport? || ReadTpdu(dir, b).val.val.SubmitReport?)
    ensures Laid(dir, b, ReadTpdu(dir, b).val.val, ps, ReadTpdu(dir, b).val.rest)
  {
    hide TsIs, TailIs, ReadTs, ReadTail, ReadU8, ReadOpt, OptByte, Front, Ends;
    TypeFollows(dir, b);
    var s := b[1..];
    var Ok(f) := ReadOpt(dir.negative, s);
    OptFound(dir.negative, s);
    var Ok(i) := ReadU8(f.rest);
    OctetFound(f.rest);
    if dir.fromSc {
      var Ok(t) := ReadTs(i.rest);
      TsFound(i.rest);
      var Ok(x) := ReadTail(i.val, t.rest);
      TailFound(i.val, t.rest);
      Rejoined(t.rest, x.rest);
      ps := [Front(i.rest, t.rest), Front(t.rest, x.rest)];
    } else {
      var Ok(x) := ReadTail(i.val, i.rest);
      TailFound(i.val, i.rest);
      Rejoined(i.rest, x.rest);
      ps := [Front(i.rest, x.rest)];
    }
    assert b == [b[0]] + s;
  }

  lemma Rejoined(s: bytes, w: bytes)
    requires Ends(s, w)
    ensures |w| <= |s| && s == Front(s, w) + w
  {
  }

  /** The decoder accepts exactly the layout: what it returns is laid out in the buffer in front of
      what it leaves, and everything laid out so is returned. */
  lemma DecodeShape(dir: Dir, b: bytes, t: Tpdu, w: bytes)
    ensures ReadTpdu(dir, b) == Ok(Got(t, w)) <==> exists ps :: Laid(dir, b, t, ps, w)
  {
    hide Laid, ReadTpdu;
    if ps :| Laid(dir, b, t, ps, w) {
      match t {
        case Deliver(_, _, _, _, _, _, _, _, _, _) => DeliverTakes(dir, b, t, ps, w);
        case Submit(_, _, _, _, _, _, _, _, _, _) => SubmitTakes(dir, b, t, ps, w);
        case StatusReport(_, _, _, _, _, _, _, _, _, _, _) => StatusTakes(dir, b, t, ps, w);
        case Command(_, _, _, _, _, _, _, _) => CommandTakes(dir, b, t, ps, w);
        case _ => ReportTakes(dir, b, t, ps, w);
      }
    }
    if ReadTpdu(dir, b) == Ok(Got(t, w)) {
      var ps;
      match t {
        case Deliver(_, _, _, _, _, _, _, _, _, _) => ps := DeliverFound(dir, b);
        case Submit(_, _, _, _, _, _, _, _, _, _) => ps := SubmitFound(dir, b);
        case StatusReport(_, _, _, _, _, _, _, _, _, _, _) => ps := StatusFound(dir, b);
        case Command(_, _, _, _, _, _, _, _) => ps := CommandFound(dir, b);
        case _ => ps := ReportFound(dir, b);
      }
    }
  }

  // ---------- when the verdict is settled ----------

  /** More octets behind do not change a verdict other than short. */
  ghost predicate Keeps<T>(r: Res<Got<T>>, more: Res<Got<T>>, w: bytes) {
    match r case Ok(g) => more == Ok(Got(g.val, g.rest + w)) case Fail(e) => e == Short || more == Fail(e)
  }

  /** At most n octets are taken, and with n of them the verdict is not short. */
  ghost predicate Within<T>(r: Res<Got<T>>, s: bytes, n: nat) {
    match r case Ok(g) => |g.rest| <= |s| <= |g.rest| + n case Fail(e) => e == Length || (e == Short && |s| < n)
  }

  lemma AddrKeeps(s: bytes, w: bytes)
    ensures Keeps(ReadAddr(s), ReadAddr(s + w), w) && Within(ReadAddr(s), s, 12)
  {
    hide Unsemi, SeptetText, Unpacked;
    if |s| >= 2 && s[0] <= 20 && |s| >= 2 + (s[0] + 1) / 2 {
      var n := 2 + (s[0] + 1) / 2;
      UnsemiLength(s[2..n], s[0]);
      assert (s + w)[2..n] == s[2..n] && (s + w)[n..] == s[n..] + w;
    }
  }

  lemma TsKeeps(s: bytes, w: bytes)
    ensures Keeps(ReadTs(s), ReadTs(s + w), w) && Within(ReadTs(s), s, 7)
  {
    hide Bcd, Zone, FullYear;
    if |s| >= 7 { assert (s + w)[7..] == s[7..] + w; }
  }

  lemma UdKeeps(dcs: byte, s: bytes, w: bytes)
    ensures Keeps(ReadUd(dcs, s), ReadUd(dcs, s + w), w) && Within(ReadUd(dcs, s), s, 141)
  {
    hide UdOctets;
    if s != [] && |s| >= 1 + UdOctets(dcs, s[0]) {
      var n := 1 + UdOctets(dcs, s[0]);
      assert (s + w)[1..n] == s[1..n] && (s + w)[n..] == s[n..] + w;
    }
  }

  lemma OctetKeeps(s: bytes, w: bytes)
    ensures Keeps(ReadU8(s), ReadU8(s + w), w) && Within(ReadU8(s), s, 1)
  {
    if s != [] { assert (s + w)[1..] == s[1..] + w; }
  }

  lemma OptKeeps(on: bool, s: bytes, w: bytes)
    ensures Keeps(ReadOpt(on, s), ReadOpt(on, s + w), w) && Within(ReadOpt(on, s), s, 1)
  {
    OctetKeeps(s, w);
  }

  lemma VpKeeps(format: nat, s: bytes, w: bytes)
    ensures Keeps(ReadVp(format, s), ReadVp(format, s + w), w) && Within(ReadVp(format, s), s, 7)
  {
    hide ReadTs;
    OctetKeeps(s, w);
    TsKeeps(s, w);
    if |s| >= 7 { assert (s + w)[..7] == s[..7] && (s + w)[7..] == s[7..] + w; }
  }

  lemma CdKeeps(s: bytes, w: bytes)
    ensures Keeps(ReadCd(s), ReadCd(s + w), w) && Within(ReadCd(s), s, 157)
  {
    if s != [] && |s| >= 1 + s[0] as nat {
      var n := 1 + s[0] as nat;
      assert (s + w)[1..n] == s[1..n] && (s + w)[n..] == s[n..] + w;
    }
  }

  lemma TailKeeps(pi: byte, s: bytes, w: bytes)
    ensures Keeps(ReadTail(pi, s), ReadTail(pi, s + w), w) && Within(ReadTail(pi, s), s, 143)
  {
    hide ReadOpt, ReadUd;
    OptKeeps(On(pi, 1), s, w);
    if ReadOpt(On(pi, 1), s).Ok? {
      var Ok(p) := ReadOpt(On(pi, 1), s);
      OptKeeps(On(pi, 2), p.rest, w);
      if ReadOpt(On(pi, 2), p.rest).Ok? {
        var Ok(d) := ReadOpt(On(pi, 2), p.rest);
        UdKeeps(Dcs0(d.val), d.rest, w);
      }
    }
  }

  lemma DeliverKeeps(o: byte, s: bytes, w: bytes)
    ensures Keeps(ReadDeliver(o, s), ReadDeliver(o, s + w), w) && Within(ReadDeliver(o, s), s, 162)
  {
    hide ReadAddr, ReadU8, ReadTs, ReadUd;
    AddrKeeps(s, w);
    if ReadAddr(s).Ok? {
      var s1 := ReadAddr(s).val.rest;
      OctetKeeps(s1, w);
      if ReadU8(s1).Ok? {
        var s2 := ReadU8(s1).val.rest;
        OctetKeeps(s2, w);
        if ReadU8(s2).Ok? {
          var s3 := ReadU8(s2).val.rest;
          TsKeeps(s3, w);
          if ReadTs(s3).Ok? { UdKeeps(ReadU8(s2).val.val, ReadTs(s3).val.rest, w); }
        }
      }
    }
  }

  lemma SubmitKeeps(o: byte, s: bytes, w: bytes)
    ensures Keeps(ReadSubmit(o, s), ReadSubmit(o, s + w), w) && Within(ReadSubmit(o, s), s, 163)
  {
    hide ReadAddr, ReadU8, ReadVp, ReadUd;
    OctetKeeps(s, w);
    if ReadU8(s).Ok? {
      var s0 := ReadU8(s).val.rest;
      AddrKeeps(s0, w);
      if ReadAddr(s0).Ok? {
        var s1 := ReadAddr(s0).val.rest;
        OctetKeeps(s1, w);
        if ReadU8(s1).Ok? {
          var s2 := ReadU8(s1).val.rest;
          OctetKeeps(s2, w);
          if ReadU8(s2).Ok? {
            var s3 := ReadU8(s2).val.rest;
            VpKeeps(o / 8 % 4, s3, w);
            if ReadVp(o / 8 % 4, s3).Ok? { UdKeeps(ReadU8(s2).val.val, ReadVp(o / 8 % 4, s3).val.rest, w); }
          }
        }
      }
    }
  }

  lemma StatusHeadKeeps(o: byte, s: bytes, w: bytes)
    ensures Keeps(ReadStatusHead(o, s), ReadStatusHead(o, s + w), w) && Within(ReadStatusHead(o, s), s, 28)
  {
    hide ReadAddr, ReadU8, ReadTs;
    OctetKeeps(s, w);
    if ReadU8(s).Ok? {
      var s0 := ReadU8(s).val.rest;
      AddrKeeps(s0, w);
      if ReadAddr(s0).Ok? {
        var s1 := ReadAddr(s0).val.rest;
        TsKeeps(s1, w);
        if ReadTs(s1).Ok? {
          var s2 := ReadTs(s1).val.rest;
          TsKeeps(s2, w);
          if ReadTs(s2).Ok? { OctetKeeps(ReadTs(s2).val.rest, w); }
        }
      }
    }
  }

  lemma CommandKeeps(o: byte, s: bytes, w: bytes)
    ensures Keeps(ReadCommand(o, s), ReadCommand(o, s + w), w) && Within(ReadCommand(o, s), s, 173)
  {
    hide ReadAddr, ReadU8, ReadCd;
    OctetKeeps(s, w);
    if ReadU8(s).Ok? {
      var s1 := ReadU8(s).val.rest;
      OctetKeeps(s1, w);
      if ReadU8(s1).Ok? {
        var s2 := ReadU8(s1).val.rest;
        OctetKeeps(s2, w);
        if ReadU8(s2).Ok? {
          var s3 := ReadU8(s2).val.rest;
          OctetKeeps(s3, w);
          if ReadU8(s3).Ok? {
            var s4 := ReadU8(s3).val.rest;
            AddrKeeps(s4, w);
            if ReadAddr(s4).Ok? { CdKeeps(ReadAddr(s4).val.rest, w); }
          }
        }
      }
    }
  }

  lemma ReportKeeps(o: byte, dir: Dir, s: bytes, w: bytes)
    ensures Keeps(ReadReport(o, dir, s), ReadReport(o, dir, s + w), w) && Within(ReadReport(o, dir, s), s, 152)
  {
    hide ReadOpt, ReadU8, ReadTs, ReadTail;
    OptKeeps(dir.negative, s, w);
    if ReadOpt(dir.negative, s).Ok? {
      var s1 := ReadOpt(dir.negative, s).val.rest;
      OctetKeeps(s1, w);
      if ReadU8(s1).Ok? {
        var Ok(p) := ReadU8(s1);
        TailKeeps(p.val, p.rest, w);
        TsKeeps(p.rest, w);
        if ReadTs(p.rest).Ok? { TailKeeps(p.val, ReadTs(p.rest).val.rest, w); }
      }
    }
  }

  /** A status report that stopped before TP-PI. */
  predicate Bare(r: Res<Got<Tpdu>>) { r.Ok? && r.val.val.StatusReport? && r.val.val.pi.None? }

  lemma HeadIsStatus(o: byte, s: bytes)
    ensures var r := ReadStatusHead(o, s); r.Ok? ==> r.val.val.StatusReport?
  {
  }

  lemma StatusKeeps(o: byte, s: bytes, w: bytes)
    ensures Bare(ReadStatus(o, s)) || Keeps(ReadStatus(o, s), ReadStatus(o, s + w), w)
    ensures Within(ReadStatus(o, s), s, 172)
    ensures Bare(ReadStatus(o, s)) ==> Within(ReadStatus(o, s), s, 28)
    ensures Bare(ReadStatus(o, s)) && w == [0] ==> ReadStatus(o, s + w).Ok? && !Bare(ReadStatus(o, s + w))
  {
    HeadIsStatus(o, s);
    HeadIsStatus(o, s + w);
    hide ReadStatusHead, ReadTail;
    StatusHeadKeeps(o, s, w);
    if ReadStatusHead(o, s).Ok? {
      var s1 := ReadStatusHead(o, s).val.rest;
      OctetKeeps(s1, w);
      if s1 != [] {
        TailKeeps(s1[0], s1[1..], w);
        assert (s1 + w)[1..] == s1[1..] + w;
      } else if w == [0] {
        assert s1 + w == [0];
        ZeroTail();
      }
    }
  }

  lemma ZeroTail()
    ensures ReadPiTail([0]) == Ok(Got((Some(0), NO_TAIL), []))
  {
    assert ReadU8([0]).val.rest == [];
  }

  function Verdict(r: Res<Got<Tpdu>>): Res<Tpdu> {
    match r case Ok(g) => Ok(g.val) case Fail(e) => Fail(e)
  }

  /** What follows the buffer makes no difference. */
  ghost predicate Settled(dir: Dir, b: bytes) {
    forall w: bytes :: Verdict(ReadTpdu(dir, b + w)) == Verdict(ReadTpdu(dir, b))
  }

  lemma TpduKeeps(dir: Dir, b: bytes, w: bytes)
    ensures Bare(ReadTpdu(dir, b)) || Keeps(ReadTpdu(dir, b), ReadTpdu(dir, b + w), w)
    ensures Bare(ReadTpdu(dir, b)) && w == [0] ==> ReadTpdu(dir, b + w).Ok? && !Bare(ReadTpdu(dir, b + w))
    ensures ReadTpdu(dir, b) == Fail(Short) ==> |b| < 174
    ensures match ReadTpdu(dir, b)
            case Ok(g) => |g.rest| <= |b| <= |g.rest| + 174
            case Fail(e) => e == if b != [] && b[0] % 4 == 3 then Mti else if e == Short then Short else Length
  {
    hide ReadDeliver, ReadSubmit, ReadStatus, ReadCommand, ReadReport;
    if b != [] {
      var o, s := b[0], b[1..];
      assert (b + w)[1..] == s + w;
      DeliverKeeps(o, s, w);
      SubmitKeeps(o, s, w);
      StatusKeeps(o, s, w);
      CommandKeeps(o, s, w);
      ReportKeeps(o, dir, s, w);
      if Bare(ReadTpdu(dir, b)) { TypeFollows(dir, b); }
    }
  }

  /** Only a short verdict, and that of a status report that stopped before TP-PI, can change with
      what follows; 174 octets are never short. */
  lemma SettledWhen(dir: Dir, b: bytes)
    ensures Settled(dir, b) <==> ReadTpdu(dir, b) != Fail(Short) && !Bare(ReadTpdu(dir, b))
  {
    hide ReadTpdu;
    if ReadTpdu(dir, b) == Fail(Short) {
      var w := seq(174, _ => 0);
      TpduKeeps(dir, b + w, []);
      assert Verdict(ReadTpdu(dir, b + w)) != Fail(Short);
    } else if Bare(ReadTpdu(dir, b)) {
      TpduKeeps(dir, b, [0]);
      assert Verdict(ReadTpdu(dir, b + [0])) != Verdict(ReadTpdu(dir, b));
    } else {
      forall w: bytes ensures Verdict(ReadTpdu(dir, b + w)) == Verdict(ReadTpdu(dir, b)) { TpduKeeps(dir, b, w); }
    }
  }

  // ---------- what the writer writes ----------

  lemma PiReads(pi: byte, t: Tail)
    ensures var o := PiOf(pi, t);
            && (o % 2 == 1 <==> t.pid.Some?) && (o / 2 % 2 == 1 <==> t.dcs.Some?) && (o / 4 % 2 == 1 <==> t.ud.Some?)
            && o / 128 == pi / 128 && o / 8 % 16 == 0
  {
    var x, a, b, c := pi / 128, if t.pid.Some? then 1 else 0, if t.dcs.Some? then 1 else 0, if t.ud.Some? then 1 else 0;
    var o := x * 128 + a + 2 * b + 4 * c;
    DivModUnique(o, 2, 64 * x + 2 * c + b, a);
    DivModUnique(64 * x + 2 * c + b, 2, 32 * x + c, b);
    DivModUnique(o, 4, 32 * x + c, 2 * b + a);
    DivModUnique(32 * x + c, 2, 16 * x, c);
    DivModUnique(o, 128, x, a + 2 * b + 4 * c);
    DivModUnique(o, 8, 16 * x, a + 2 * b + 4 * c);
    DivModUnique(16 * x, 16, x, 0);
  }

  lemma Octet0Reads(mti: nat, b2: int, b3: int, b4: int, b5: int, b6: int, b7: int)
    requires mti < 4 && 0 <= b2 < 2 && 0 <= b3 < 2 && 0 <= b4 < 2 && 0 <= b5 < 2 && 0 <= b6 < 2 && 0 <= b7 < 2
    ensures var o := Octet0(mti, b2, b3, b4, b5, b6, b7);
            && o % 4 == mti && o / 4 % 2 == b2 && o / 8 % 2 == b3 && o / 8 % 4 == b3 + 2 * b4
            && o / 32 % 2 == b5 && o / 64 % 2 == b6 && o / 128 % 2 == b7
  {
    var o := Octet0(mti, b2, b3, b4, b5, b6, b7);
    var q2, q3 := b2 + 2 * b3 + 4 * b4 + 8 * b5 + 16 * b6 + 32 * b7, b3 + 2 * b4 + 4 * b5 + 8 * b6 + 16 * b7;
    var q5, q6 := b5 + 2 * b6 + 4 * b7, b6 + 2 * b7;
    DivModUnique(o, 4, q2, mti);
    DivModUnique(q2, 2, q3, b2);
    DivModUnique(o, 8, q3, mti + 4 * b2);
    DivModUnique(q3, 2, b4 + 2 * q5, b3);
    DivModUnique(q3, 4, q5, b3 + 2 * b4);
    DivModUnique(o, 32, q5, mti + 4 * b2 + 8 * b3 + 16 * b4);
    DivModUnique(q5, 2, q6, b5);
    DivModUnique(o, 64, q6, mti + 4 * b2 + 8 * b3 + 16 * b4 + 32 * b5);
    DivModUnique(q6, 2, b7, b6);
    DivModUnique(o, 128, b7, mti + 4 * b2 + 8 * b3 + 16 * b4 + 32 * b5 + 64 * b6);
    DivModUnique(b7, 2, 0, b7);
  }

  lemma VpFormatBits(v: Vp)
    ensures 0 <= VpFormat(v) % 2 < 2 && 0 <= VpFormat(v) / 2 < 2
    ensures VpFormat(v) % 2 + 2 * (VpFormat(v) / 2) == VpFormat(v)
  {
  }

  predicate CanAddr(a: Addr) {
    && a.ton <= 7 && a.npi <= 15
    && if a.ton == 5 then Chars(Default, a.digits, 0).Ok? && |Code(Default, Chars(Default, a.digits, 0).val)| <= 11
       else |a.digits| <= 20 && forall i :: 0 <= i < |a.digits| ==> Known(a.digits[i])
  }

  /** A symbol, or one of the letters in upper case. */
  predicate Known(c: byte) { (exists k :: 0 <= k < 15 && c == SYMBOLS[k] as int) || Upper(c) }

  predicate Upper(c: byte) { 65 <= c <= 67 }

  lemma NibbleIs(c: byte)
    ensures Known(c) <==> Nibble(c).Some?
    ensures Known(c) ==> Nibble(c).value < 15 && SYMBOLS[Nibble(c).value] as int == if Upper(c) then c as int + 32 else c
  {
    if Nibble(c).Some? && !Upper(c) { assert SYMBOLS[Nibble(c).value] as int == c; }
  }

  lemma Halves(hi: nat, lo: nat)
    requires hi < 16 && lo < 16
    ensures (hi * 16 + lo) / 16 == hi && (hi * 16 + lo) % 16 == lo
  {
    DivModUnique(hi * 16 + lo, 16, hi, lo);
  }

  /** Written digits stand at their places, and an odd one out is followed by the filler. */
  lemma {:induction false} SemiPlaces(d: bytes)
    ensures Semi(d) == Fail(Inval) || (Semi(d).Ok? && forall i :: 0 <= i < |d| ==> Known(d[i]))
    ensures (forall i :: 0 <= i < |d| ==> Known(d[i])) ==> Semi(d).Ok?
    ensures Semi(d).Ok? ==> |Semi(d).val| == (|d| + 1) / 2
    ensures Semi(d).Ok? ==> forall i :: 0 <= i < |d| ==> Nibble(d[i]).Some? && SemiAt(Semi(d).val, i) == Nibble(d[i]).value
    ensures Semi(d).Ok? && |d| % 2 == 1 ==> SemiAt(Semi(d).val, |d|) == 15
    decreases |d|
  {
    hide Nibble, Known;
    if d != [] {
      NibbleIs(d[0]);
      if |d| == 1 {
        SemiNone();
        if Nibble(d[0]).Some? { Halves(15, Nibble(d[0]).value); }
      } else {
        NibbleIs(d[1]);
        SemiPlaces(d[2..]);
        if Semi(d).Ok? {
          Halves(Nibble(d[1]).value, Nibble(d[0]).value);
          var b := Semi(d).val;
          assert b[1..] == Semi(d[2..]).val;
          forall i | 2 <= i <= |d| && i / 2 < |b| ensures SemiAt(b, i) == SemiAt(Semi(d[2..]).val, i - 2) { SemiTail(b, i); }
        }
      }
    }
  }

  /** A number reads back as written exactly when its letters are in lower case. */
  lemma NumberWritten(d: bytes)
    requires Semi(d).Ok?
    ensures |Semi(d).val| == (|d| + 1) / 2
    ensures NumberIs(Semi(d).val, d) <==> forall i :: 0 <= i < |d| ==> !Upper(d[i])
  {
    SemiPlaces(d);
    hide Semi, Nibble, Known, SemiAt;
    forall i | 0 <= i < |d| ensures SemiAt(Semi(d).val, i) < 15 && (d[i] == SYMBOLS[SemiAt(Semi(d).val, i)] as int <==> !Upper(d[i])) {
      NibbleIs(d[i]);
    }
  }

  /** The octets of a text of n septets hold one more when n is seven. */
  lemma Whole(n: nat)
    requires n <= 11
    ensures 8 * Octets(n) / 7 == if n == 7 then 8 else n
    ensures Octets(n) <= 10
  {
  }

  /** A text is read back with an at sign behind it when it is seven septets, and as it was otherwise. */
  lemma TextWritten(cs: seq<nat>)
    requires AllHeld(Default, cs) && |Code(Default, cs)| <= 11
    ensures var code := Code(Default, cs);
            var v := Packed(SmsUserData.Zeros(Octets(|code|)), 0, code);
            && |v| == Octets(|code|)
            && SeptetText(Unpacked(v, 0, 8 * |v| / 7)) == Text(Default, cs) + (if |code| == 7 then [64] else [])
  {
    var code := Code(Default, cs);
    hide *;
    ZerosLength(Octets(|code|));
    CodesPacked(SmsUserData.Zeros(Octets(|code|)), code);
    CodesShow(cs);
    if |code| == 7 {
      AtSign(cs);
      CodesShow(cs + [64]);
    }
  }

  lemma CodesShow(cs: seq<nat>)
    requires AllHeld(Default, cs)
    ensures SeptetText(Code(Default, cs)) == Text(Default, cs)
  {
    CodeReads(Default, cs);
    hide Code, Text, SeptetText;
  }

  lemma CodesPacked(z: bytes, code: seq<septet>)
    requires |code| <= 11 && |z| == Octets(|code|)
    ensures var v := Packed(z, 0, code);
            |v| == |z| && Unpacked(v, 0, 8 * |v| / 7) == if |code| == 7 then code + [0] else code
  {
    Whole(|code|);
    hide Packed, Unpacked, Octets, Pow2, LE;
    PackedLength(z, 0, code);
    UnpackPacked(z, 0, code);
    var v := Packed(z, 0, code);
    assert v[..|z|] == v;
    if |code| == 7 {
      assert |z| == 7 by { assert Octets(7) == 7; }
      SevenSmall(z, code);
      OneMore(v);
    }
  }

  lemma AtSign(cs: seq<nat>)
    requires AllHeld(Default, cs)
    ensures AllHeld(Default, cs + [64])
    ensures Code(Default, cs + [64]) == Code(Default, cs) + [0] && Text(Default, cs + [64]) == Text(Default, cs) + [64]
  {
    assert Gsm7(64) == Some([0]);
    CodeSplit(Default, cs, [64]);
  }

  lemma SevenSmall(z: bytes, code: seq<septet>)
    requires |code| == 7 && |z| == 7
    ensures |Packed(z, 0, code)| == 7 && LE(Packed(z, 0, code)) < Pow2(49)
  {
    var v := Packed(z, 0, code);
    assert Octets(0 + |code|) == 7;
    assert Pow2(7 * 0) == 1;
    hide *;
    PackedLength(z, 0, code);
    assert v[..7] == v;
    PackedValue(z, 0, code);
    OverOne(LE(z[..7]), B128(code));
    B128Bound(code);
    assert 7 * |code| == 49;
  }

  lemma OverOne(x: int, y: int)
    ensures x % 1 + y * 1 == y
  {
  }

  lemma EighthIsZero(v: bytes)
    requires |v| == 7 && LE(v) < Pow2(49)
    ensures Septet(v, 7) == 0
  {
    hide Pow2, LE, Septet;
    SeptetIsDigit(v, 7);
    DivModUnique(LE(v), Pow2(49), 0, LE(v));
  }

  lemma OneMore(v: bytes)
    requires |v| == 7 && LE(v) < Pow2(49)
    ensures Unpacked(v, 0, 8) == Unpacked(v, 0, 7) + [0]
  {
    EighthIsZero(v);
    hide Septet;
  }

  lemma AddrWrites(a: Addr)
    ensures AddrBytes(a).Ok? <==> CanAddr(a)
  {
    hide Semi, Chars, Code, Packed, Known;
    if a.ton == 5 {
      if Chars(Default, a.digits, 0).Ok? && |Code(Default, Chars(Default, a.digits, 0).val)| <= 11 {
        Whole(|Code(Default, Chars(Default, a.digits, 0).val)|);
      }
    } else {
      SemiPlaces(a.digits);
    }
  }

  /** An address is read back as it was written: letters in lower case, a text not of seven septets. */
  predicate GoodAddr(a: Addr) {
    && CanAddr(a)
    && if a.ton == 5 then |Code(Default, Chars(Default, a.digits, 0).val)| != 7
       else forall i :: 0 <= i < |a.digits| ==> !Upper(a.digits[i])
  }

  lemma AddrWritten(a: Addr)
    requires AddrBytes(a).Ok?
    ensures var p := AddrBytes(a).val; 2 <= |p| <= 12 && p[0] <= 20 && |p| == 2 + (p[0] + 1) / 2
    ensures AddrIs(AddrBytes(a).val, a) <==> GoodAddr(a)
  {
    AddrWrites(a);
    hide CanAddr, Semi, NumberIs, SeptetText, Unpacked, Packed, Known;
    var p := AddrBytes(a).val;
    if a.ton == 5 {
      TextAddr(a);
    } else {
      NumberWritten(a.digits);
      assert p[2..] == Semi(a.digits).val;
    }
  }

  lemma TextAddr(a: Addr)
    requires AddrBytes(a).Ok? && a.ton == 5
    ensures Chars(Default, a.digits, 0).Ok?
    ensures var p, n := AddrBytes(a).val, |Code(Default, Chars(Default, a.digits, 0).val)|;
            && 2 <= |p| <= 12 && p[0] <= 20 && |p| == 2 + (p[0] + 1) / 2 && p[1] == 128 + 16 * a.ton + a.npi
            && SeptetText(Unpacked(p[2..], 0, 8 * |p[2..]| / 7)) == a.digits + (if n == 7 then [64] else [])
  {
    AddrWrites(a);
    var cs := Chars(Default, a.digits, 0).val;
    var p := AddrBytes(a).val;
    hide Chars, Code, Packed, Text, SeptetText, Unpacked;
    Whole(|Code(Default, cs)|);
    TextWritten(cs);
    CharsText(Default, a.digits, 0);
    assert p[2..] == Packed(SmsUserData.Zeros(Octets(|Code(Default, cs)|)), 0, Code(Default, cs));
    assert Text(Default, cs) == a.digits;
  }

  /** What an address comes back as: a text of seven septets with an at sign behind it, letters of a
      number in lower case. */
  function Returned(a: Addr): bytes
    requires CanAddr(a)
  {
    if a.ton == 5 then a.digits + (if |Code(Default, Chars(Default, a.digits, 0).val)| == 7 then [64] else [])
    else seq(|a.digits|, i requires 0 <= i < |a.digits| => if Upper(a.digits[i]) then a.digits[i] + 32 else a.digits[i])
  }

  lemma AddrReads(a: Addr, w: bytes)
    requires CanAddr(a)
    ensures AddrBytes(a).Ok? && ReadAddr(AddrBytes(a).val + w) == Ok(Got(a.(digits := Returned(a)), w))
  {
    AddrWrites(a);
    AddrWritten(a);
    assert AddrIs(AddrBytes(a).val, a.(digits := Returned(a))) by {
      if a.ton == 5 { TextAddr(a); } else { NumberFolds(a); }
      hide Semi, NumberIs, SeptetText, Unpacked, Packed, Chars, Code, CanAddr;
    }
    hide AddrBytes, AddrIs, CanAddr, Returned;
    AddrTakes(AddrBytes(a).val, a.(digits := Returned(a)), w);
  }

  lemma NumberFolds(a: Addr)
    requires CanAddr(a) && a.ton != 5 && AddrBytes(a).Ok?
    ensures var p := AddrBytes(a).val; p[2..] == Semi(a.digits).val && NumberIs(p[2..], Returned(a))
  {
    var d := a.digits;
    SemiPlaces(d);
    assert AddrBytes(a).val[2..] == Semi(d).val;
    hide Semi, Nibble, Known, SemiAt, AddrBytes;
    forall i | 0 <= i < |d| ensures SemiAt(Semi(d).val, i) < 15 && Returned(a)[i] == SYMBOLS[SemiAt(Semi(d).val, i)] as int {
      NibbleIs(d[i]);
    }
  }

  lemma PairWritten(v: nat)
    requires v < 100
    ensures PairIs(BcdOf(v), v)
  {
    DivModUnique(v / 10, 10, 0, v / 10);
  }

  lemma TsWritten(t: Ts)
    ensures TsBytes(t).Ok? <==> Writable(t)
    ensures TsBytes(t).Ok? ==> |TsBytes(t).val| == 7 && TsIs(TsBytes(t).val, t)
  {
    if Writable(t) {
      assert ZoneIs(ZoneOf(t.tz), t.tz);
      hide PairIs, BcdOf, ZoneIs, ZoneOf;
      PairWritten(t.year % 100);
      PairWritten(t.mon);
      PairWritten(t.day);
      PairWritten(t.hour);
      PairWritten(t.min);
      PairWritten(t.sec);
    }
  }

  predicate GoodTail(t: Tail) { t.ud.Some? ==> GoodUd(Dcs0(t.dcs), t.ud.value) }

  lemma TailWritten(pi: byte, t: Tail)
    requires TailBytes(t).Ok?
    ensures TailIs(PiOf(pi, t), TailBytes(t).val, t) <==> GoodTail(t)
  {
    hide GoodUd, PiOf;
    PiReads(pi, t);
  }

  predicate GoodVp(v: Vp) {
    match v case Enhanced(o) => |o| == 7 case Absolute(t) => Writable(t) case _ => true
  }

  lemma VpWritten(v: Vp)
    requires VpBytes(v).Ok?
    ensures VpIs(VpFormat(v), VpBytes(v).val, v) <==> GoodVp(v)
  {
    hide TsIs, TsBytes, Writable;
    if v.Absolute? { TsWritten(v.at); }
  }

  /** Read back as it was written: the addresses, lengths that agree with their length fields, TP-PI
      equal to what the fields it announces make it. */
  predicate Good(t: Tpdu) {
    match t
    case Deliver(_, _, _, _, _, a, _, dcs, scts, ud) => GoodAddr(a) && Writable(scts) && GoodUd(dcs, ud)
    case Submit(_, _, _, _, _, a, _, dcs, vp, ud) => GoodAddr(a) && GoodVp(vp) && GoodUd(dcs, ud)
    case StatusReport(_, _, _, _, _, a, scts, dt, _, pi, tail) =>
      && GoodAddr(a) && Writable(scts) && Writable(dt) && GoodTail(tail)
      && (if pi.Some? then pi.value == PiOf(pi.value, tail) else tail == NO_TAIL)
    case Command(_, _, _, _, _, _, a, cd) => GoodAddr(a) && |cd| <= 156
    case DeliverReport(_, _, ind, tail) => GoodTail(tail) && ind == PiOf(ind, tail)
    case SubmitReport(_, _, ind, scts, tail) => GoodTail(tail) && ind == PiOf(ind, tail) && Writable(scts)
  }

  /** The fields of varying length, as the writer makes them. */
  function Pieces(t: Tpdu): seq<bytes>
    requires Rest(t).Ok?
  {
    match t
    case Deliver(_, _, _, _, _, a, _, _, scts, ud) => [AddrBytes(a).val, TsBytes(scts).val, UdBytes(ud).val]
    case Submit(_, _, _, _, _, a, _, _, vp, ud) => [AddrBytes(a).val, VpBytes(vp).val, UdBytes(ud).val]
    case StatusReport(_, _, _, _, _, a, scts, dt, _, pi, tail) =>
      [AddrBytes(a).val, TsBytes(scts).val, TsBytes(dt).val, PiTail(pi, tail).val]
    case Command(_, _, _, _, _, _, a, _) => [AddrBytes(a).val]
    case DeliverReport(_, _, _, tail) => [TailBytes(tail).val]
    case SubmitReport(_, _, _, scts, tail) => [TsBytes(scts).val, TailBytes(tail).val]
  }

  lemma Octet0Shows(mti: nat, b2: bool, b3: bit, b4: bit, b5: bool, b6: bool, b7: bool)
    requires mti < 4
    ensures var o := Octet0(mti, Bit(b2), b3, b4, Bit(b5), Bit(b6), Bit(b7));
            && o % 4 == mti && On(o, 0x04) == b2 && On(o, 0x08) == (b3 == 1) && o / 8 % 4 == b3 as int + 2 * b4 as int
            && On(o, 0x20) == b5 && On(o, 0x40) == b6 && On(o, 0x80) == b7
  {
    hide Octet0;
    Octet0Reads(mti, Bit(b2), b3, b4, Bit(b5), Bit(b6), Bit(b7));
  }

  predicate FlagsShow(o: byte, t: Tpdu) {
    match t
    case Deliver(mms, lp, sri, udhi, rp, _, _, _, _, _) =>
      o % 4 == 0 && mms == On(o, 0x04) && lp == On(o, 0x08) && sri == On(o, 0x20) && udhi == On(o, 0x40) && rp == On(o, 0x80)
    case Submit(rd, srr, udhi, rp, _, _, _, _, vp, _) =>
      && o % 4 == 1 && rd == On(o, 0x04) && srr == On(o, 0x20) && udhi == On(o, 0x40) && rp == On(o, 0x80)
      && o / 8 % 4 == VpFormat(vp)
    case StatusReport(mms, lp, srq, udhi, _, _, _, _, _, _, _) =>
      o % 4 == 2 && mms == On(o, 0x04) && lp == On(o, 0x08) && srq == On(o, 0x20) && udhi == On(o, 0x40)
    case Command(srr, udhi, _, _, _, _, _, _) => o % 4 == 2 && srr == On(o, 0x20) && udhi == On(o, 0x40)
    case DeliverReport(udhi, _, _, _) => o % 4 == 0 && udhi == On(o, 0x40)
    case SubmitReport(udhi, _, _, _, _) => o % 4 == 1 && udhi == On(o, 0x40)
  }

  lemma Flags(t: Tpdu)
    ensures FlagsShow(First(t), t)
  {
    hide Octet0, On, VpFormat;
    assert Bit(false) == 0 && forall b :: (Bit(b) == 1 <==> b);
    match t {
      case Deliver(mms, lp, sri, udhi, rp, _, _, _, _, _) => Octet0Shows(0, mms, Bit(lp), 0, sri, udhi, rp);
      case Submit(rd, srr, udhi, rp, _, _, _, _, vp, _) =>
        VpFormatBits(vp);
        Octet0Shows(1, rd, VpFormat(vp) % 2, VpFormat(vp) / 2, srr, udhi, rp);
      case StatusReport(mms, lp, srq, udhi, _, _, _, _, _, _, _) => Octet0Shows(2, mms, Bit(lp), 0, srq, udhi, false);
      case Command(srr, udhi, _, _, _, _, _, _) => Octet0Shows(2, false, 0, 0, srr, udhi, false);
      case DeliverReport(udhi, _, _, _) => Octet0Shows(0, false, 0, 0, false, udhi, false);
      case SubmitReport(udhi, _, _, _, _) => Octet0Shows(1, false, 0, 0, false, udhi, false);
    }
  }

  /** Pieces and plain octets in their order, nothing between them. */
  predicate Ordered(b: bytes, o: byte, t: Tpdu, ps: seq<bytes>)
    requires |ps| == match t case Deliver(_, _, _, _, _, _, _, _, _, _) => 3 case Submit(_, _, _, _, _, _, _, _, _, _) => 3
                             case StatusReport(_, _, _, _, _, _, _, _, _, _, _) => 4 case SubmitReport(_, _, _, _, _) => 2 case _ => 1
  {
    match t
    case Deliver(_, _, _, _, _, _, pid, dcs, _, _) => b == [o] + ps[0] + [pid, dcs] + ps[1] + ps[2]
    case Submit(_, _, _, _, mr, _, pid, dcs, _, _) => b == [o, mr] + ps[0] + [pid, dcs] + ps[1] + ps[2]
    case StatusReport(_, _, _, _, mr, _, _, _, st, _, _) => b == [o, mr] + ps[0] + ps[1] + ps[2] + [st] + ps[3]
    case Command(_, _, mr, pid, ct, mn, _, cd) => |cd| <= 156 && b == [o, mr, pid, ct, mn] + ps[0] + [|cd|] + cd
    case DeliverReport(_, fcs, ind, tail) => b == [o] + OptByte(fcs) + [PiOf(ind, tail)] + ps[0]
    case SubmitReport(_, fcs, ind, _, tail) => b == [o] + OptByte(fcs) + [PiOf(ind, tail)] + ps[0] + ps[1]
  }

  lemma Order(t: Tpdu)
    requires TpduBytes(t).Ok?
    ensures Rest(t).Ok? && Ordered(TpduBytes(t).val, First(t), t, Pieces(t))
  {
    hide AddrBytes, TsBytes, UdBytes, VpBytes, TailBytes, PiTail, PiOf, OptByte, First;
    match t {
      case Deliver(_, _, _, _, _, _, _, _, _, _) => OrderShort(t);
      case Submit(_, _, _, _, _, _, _, _, _, _) => OrderShort(t);
      case Command(_, _, _, _, _, _, _, _) => OrderLong(t);
      case StatusReport(_, _, _, _, _, _, _, _, _, _, _) => OrderLong(t);
      case _ =>
    }
  }

  lemma OrderShort(t: Tpdu)
    requires TpduBytes(t).Ok? && (t.Deliver? || t.Submit?)
    ensures Rest(t).Ok? && Ordered(TpduBytes(t).val, First(t), t, Pieces(t))
  {
    hide AddrBytes, TsBytes, UdBytes, VpBytes, First;
  }

  lemma OrderLong(t: Tpdu)
    requires TpduBytes(t).Ok? && (t.Command? || t.StatusReport?)
    ensures Rest(t).Ok? && Ordered(TpduBytes(t).val, First(t), t, Pieces(t))
  {
    hide AddrBytes, TsBytes, PiTail, First;
  }

  lemma UdWritten(dcs: byte, u: UdField)
    ensures UdBytes(u).Ok? <==> |u.octets| <= 140
    ensures UdBytes(u).Ok? ==> |UdBytes(u).val| <= 141 && (UdIs(dcs, UdBytes(u).val, u) <==> GoodUd(dcs, u))
  {
    hide GoodUd;
  }

  lemma PiTailWritten(pi: Option<byte>, t: Tail)
    requires PiTail(pi, t).Ok?
    ensures PiTailIs(PiTail(pi, t).val, pi, t, []) <==>
            GoodTail(t) && if pi.Some? then pi.value == PiOf(pi.value, t) else t == NO_TAIL
  {
    hide TailIs, GoodUd, PiOf, TailBytes;
    if pi.Some? || t != NO_TAIL {
      TailWritten(Dcs0(pi), t);
      var p := PiTail(pi, t).val;
      assert p[1..] == TailBytes(t).val;
    }
  }

  /** What each type can carry. */
  predicate CanWrite(t: Tpdu) {
    match t
    case Deliver(_, _, _, _, _, a, _, _, scts, ud) => CanAddr(a) && Writable(scts) && |ud.octets| <= 140
    case Submit(_, _, _, _, _, a, _, _, vp, ud) => CanAddr(a) && (vp.Absolute? ==> Writable(vp.at)) && |ud.octets| <= 140
    case StatusReport(_, _, _, _, _, a, scts, dt, _, _, tail) =>
      CanAddr(a) && Writable(scts) && Writable(dt) && (tail.ud.Some? ==> |tail.ud.value.octets| <= 140)
    case Command(_, _, _, _, _, _, a, cd) => CanAddr(a) && |cd| <= 156
    case DeliverReport(_, _, _, tail) => tail.ud.Some? ==> |tail.ud.value.octets| <= 140
    case SubmitReport(_, _, _, scts, tail) => Writable(scts) && (tail.ud.Some? ==> |tail.ud.value.octets| <= 140)
  }

  lemma EncodeWhen(t: Tpdu)
    ensures TpduBytes(t).Ok? <==> CanWrite(t)
  {
    hide AddrBytes, CanAddr, TsBytes, Writable, First, PiOf;
    match t {
      case Deliver(_, _, _, _, _, a, _, _, scts, _) => AddrWrites(a); TsWritten(scts);
      case Submit(_, _, _, _, _, a, _, _, vp, _) => AddrWrites(a); if vp.Absolute? { TsWritten(vp.at); }
      case StatusReport(_, _, _, _, _, a, scts, dt, _, _, _) => AddrWrites(a); TsWritten(scts); TsWritten(dt);
      case Command(_, _, _, _, _, _, a, _) => AddrWrites(a);
      case SubmitReport(_, _, _, scts, _) => TsWritten(scts);
      case _ =>
    }
  }

  lemma GoodWrites(t: Tpdu)
    requires Good(t)
    ensures TpduBytes(t).Ok? && |TpduBytes(t).val| <= 174
  {
    hide GoodUd, Writable, CanAddr, AddrBytes, TsBytes, UdBytes, PiOf, Known, First;
    match t {
      case Deliver(_, _, _, _, _, a, _, dcs, scts, ud) =>
        AddrWrites(a); AddrWritten(a); TsWritten(scts); GoodUdFits(dcs, ud); UdWritten(dcs, ud);
      case Submit(_, _, _, _, _, a, _, dcs, vp, ud) =>
        AddrWrites(a); AddrWritten(a); GoodUdFits(dcs, ud); UdWritten(dcs, ud);
        if vp.Absolute? { TsWritten(vp.at); }
      case StatusReport(_, _, _, _, _, a, scts, dt, _, pi, tail) =>
        AddrWrites(a); AddrWritten(a); TsWritten(scts); TsWritten(dt); GoodTailWrites(tail);
      case Command(_, _, _, _, _, _, a, cd) => AddrWrites(a); AddrWritten(a);
      case DeliverReport(_, _, ind, tail) => GoodTailWrites(tail);
      case SubmitReport(_, _, ind, scts, tail) => GoodTailWrites(tail); TsWritten(scts);
    }
  }

  lemma GoodUdFits(dcs: byte, u: UdField)
    requires GoodUd(dcs, u)
    ensures |u.octets| <= 140
  {
  }

  lemma GoodTailWrites(t: Tail)
    requires GoodTail(t)
    ensures TailBytes(t).Ok? && |TailBytes(t).val| <= 143
  {
    hide GoodUd, UdBytes;
    if t.ud.Some? { GoodUdFits(Dcs0(t.dcs), t.ud.value); UdWritten(Dcs0(t.dcs), t.ud.value); }
  }

  /** A well-formed TPDU is laid out as its layout says. */
  lemma GoodIsLaid(t: Tpdu)
    requires Good(t)
    ensures TpduBytes(t).Ok? && Rest(t).Ok? && Laid(DirOf(t), TpduBytes(t).val, t, Pieces(t), [])
  {
    GoodWrites(t);
    Order(t);
    Flags(t);
    hide GoodUd, Writable, CanAddr, GoodAddr, GoodVp, AddrBytes, TsBytes, UdBytes, VpBytes, PiTail, TailBytes, PiOf, First, TpduBytes;
    hide AddrIs, TsIs, UdIs, VpIs, TailIs, PiTailIs, On, OptByte;
    var b := TpduBytes(t).val;
    assert b + [] == b;
    match t {
      case Deliver(_, _, _, _, _, a, _, dcs, scts, ud) => AddrWritten(a); TsWritten(scts); UdWritten(dcs, ud);
      case Submit(_, _, _, _, _, a, _, dcs, vp, ud) => AddrWritten(a); VpWritten(vp); UdWritten(dcs, ud);
      case StatusReport(_, _, _, _, _, a, scts, dt, _, pi, tail) =>
        AddrWritten(a); TsWritten(scts); TsWritten(dt); PiTailWritten(pi, tail);
      case Command(_, _, _, _, _, _, a, cd) => AddrWritten(a);
      case DeliverReport(_, _, ind, tail) => TailWritten(ind, tail);
      case SubmitReport(_, _, ind, scts, tail) => TailWritten(ind, tail); TsWritten(scts);
    }
  }

  /** Every field of something written can be written. */
  lemma RestWrites(t: Tpdu)
    requires TpduBytes(t).Ok?
    ensures match t
            case Deliver(_, _, _, _, _, a, _, _, scts, ud) => AddrBytes(a).Ok? && TsBytes(scts).Ok? && UdBytes(ud).Ok?
            case Submit(_, _, _, _, _, a, _, _, vp, ud) => AddrBytes(a).Ok? && VpBytes(vp).Ok? && UdBytes(ud).Ok?
            case StatusReport(_, _, _, _, _, a, scts, dt, _, pi, tail) =>
              AddrBytes(a).Ok? && TsBytes(scts).Ok? && TsBytes(dt).Ok? && PiTail(pi, tail).Ok?
            case Command(_, _, _, _, _, _, a, cd) => AddrBytes(a).Ok? && |cd| <= 156
            case DeliverReport(_, _, _, tail) => TailBytes(tail).Ok?
            case SubmitReport(_, _, _, scts, tail) => TsBytes(scts).Ok? && TailBytes(tail).Ok?
  {
    hide AddrBytes, TsBytes, UdBytes, VpBytes, TailBytes, PiTail, PiOf, OptByte, First;
  }

  lemma SameFront(p: bytes, q: bytes, v: bytes, w: bytes)
    requires p + v == q + w && |p| == |q|
    ensures p == q && v == w
  {
    var s := p + v;
    assert s[..|p|] == p && s[..|p|] == q && s[|p|..] == v && s[|p|..] == w;
  }

  /** An address found where one was written. */
  lemma AddrBack(a: Addr, p: bytes, v: bytes, w: bytes)
    requires AddrBytes(a).Ok? && AddrIs(p, a) && p + v == AddrBytes(a).val + w
    ensures GoodAddr(a) && v == w
  {
    AddrWritten(a);
    var q := AddrBytes(a).val;
    assert |p| == |q| by {
      assert p[0] == (p + v)[0] && q[0] == (q + w)[0];
    }
    hide AddrBytes, AddrIs, GoodAddr;
    SameFront(p, q, v, w);
  }

  lemma UdBack(dcs: byte, p: bytes, u: UdField)
    requires UdIs(dcs, p, u)
    ensures GoodUd(dcs, u)
  {
  }

  lemma VpBack(format: nat, p: bytes, v: Vp)
    requires VpBytes(v).Ok? && VpIs(format, p, v)
    ensures GoodVp(v)
  {
    if v.Absolute? { TsWritten(v.at); }
  }

  lemma TailBack(pi: byte, p: bytes, t: Tail)
    requires TailIs(pi, p, t)
    ensures GoodTail(t)
  {
    hide GoodUd;
  }

  lemma LaidTs(p: bytes, t: Ts)
    requires TsIs(p, t)
    ensures |p| == 7
  {
  }

  /** What stands behind h. */
  lemma Behind(b: bytes, h: bytes, p: bytes, x: bytes, y: bytes, z: bytes)
    requires b == h + p + x + y + z || b == h + p + x + y + z + []
    ensures |h| <= |b| && b[|h|..] == p + (x + y + z)
  {
    assert h + p + x + y + z + [] == h + p + x + y + z;
    assert h + p + x + y + z == h + (p + (x + y + z));
  }

  lemma DeliverGood(t: Tpdu, ps: seq<bytes>)
    requires t.Deliver? && TpduBytes(t).Ok? && Laid(DirOf(t), TpduBytes(t).val, t, ps, [])
    ensures Good(t)
  {
    Order(t);
    RestWrites(t);
    hide Rest, GoodUd, Writable, GoodAddr, AddrBytes, TsBytes, UdBytes, First, TpduBytes, AddrIs, TsIs, UdIs, On;
    var b, qs := TpduBytes(t).val, Pieces(t);
    Behind(b, [b[0]], ps[0], [t.pid, t.dcs], ps[1], ps[2]);
    Behind(b, [b[0]], qs[0], [t.pid, t.dcs], qs[1], qs[2]);
    AddrBack(t.addr, ps[0], [t.pid, t.dcs] + ps[1] + ps[2], [t.pid, t.dcs] + qs[1] + qs[2]);
    TsWritten(t.scts);
    UdBack(t.dcs, ps[2], t.ud);
  }

  lemma SubmitGood(t: Tpdu, ps: seq<bytes>)
    requires t.Submit? && TpduBytes(t).Ok? && Laid(DirOf(t), TpduBytes(t).val, t, ps, [])
    ensures Good(t)
  {
    Order(t);
    RestWrites(t);
    hide Rest, GoodUd, GoodVp, GoodAddr, AddrBytes, VpBytes, UdBytes, First, TpduBytes, AddrIs, VpIs, UdIs, On;
    var b, qs := TpduBytes(t).val, Pieces(t);
    Behind(b, [b[0], t.mr], ps[0], [t.pid, t.dcs], ps[1], ps[2]);
    Behind(b, [b[0], t.mr], qs[0], [t.pid, t.dcs], qs[1], qs[2]);
    AddrBack(t.addr, ps[0], [t.pid, t.dcs] + ps[1] + ps[2], [t.pid, t.dcs] + qs[1] + qs[2]);
    VpBack(b[0] / 8 % 4, ps[1], t.vp);
    UdBack(t.dcs, ps[2], t.ud);
  }

  lemma CommandGood(t: Tpdu, ps: seq<bytes>)
    requires t.Command? && TpduBytes(t).Ok? && Laid(DirOf(t), TpduBytes(t).val, t, ps, [])
    ensures Good(t)
  {
    Order(t);
    RestWrites(t);
    hide Rest, GoodAddr, AddrBytes, First, TpduBytes, AddrIs, On;
    var b, qs := TpduBytes(t).val, Pieces(t);
    var h, l := [b[0], t.mr, t.pid, t.ct, t.mn], [|t.cd|];
    assert l + t.cd + [] == l + t.cd;
    Behind(b, h, ps[0], l, t.cd, []);
    Behind(b, h, qs[0], l, t.cd, []);
    AddrBack(t.addr, ps[0], l + t.cd, l + t.cd);
  }

  lemma StatusBehind(b: bytes, h: bytes, p: bytes, x: bytes, y: bytes, s: bytes, z: bytes)
    requires b == h + p + x + y + s + z || b == h + p + x + y + s + z + []
    ensures |h| <= |b| && b[|h|..] == p + (x + y + s + z)
  {
    assert h + p + x + y + s + z + [] == h + p + x + y + s + z;
    assert h + p + x + y + s + z == h + (p + (x + y + s + z));
  }

  lemma StatusGood(t: Tpdu, ps: seq<bytes>)
    requires t.StatusReport? && TpduBytes(t).Ok? && Laid(DirOf(t), TpduBytes(t).val, t, ps, [])
    ensures Good(t)
  {
    Order(t);
    RestWrites(t);
    hide Rest, GoodTail, GoodAddr, AddrBytes, TsBytes, PiTail, First, TpduBytes, AddrIs, TsIs, PiTailIs, On, PiOf, Writable;
    var b, qs := TpduBytes(t).val, Pieces(t);
    var x, y := ps[1] + ps[2] + [t.st], qs[1] + qs[2] + [t.st];
    StatusBehind(b, [b[0], t.mr], ps[0], ps[1], ps[2], [t.st], ps[3]);
    StatusBehind(b, [b[0], t.mr], qs[0], qs[1], qs[2], [t.st], qs[3]);
    AddrBack(t.addr, ps[0], x + ps[3], y + qs[3]);
    TsWritten(t.scts);
    TsWritten(t.dt);
    LaidTs(ps[1], t.scts);
    LaidTs(ps[2], t.dt);
    SameFront(x, y, ps[3], qs[3]);
    PiTailWritten(t.pi, t.tail);
  }

  lemma ReportGood(t: Tpdu, ps: seq<bytes>)
    requires (t.DeliverReport? || t.SubmitReport?) && TpduBytes(t).Ok? && Laid(DirOf(t), TpduBytes(t).val, t, ps, [])
    ensures Good(t)
  {
    Order(t);
    RestWrites(t);
    hide Rest, GoodTail, TailBytes, TsBytes, First, TpduBytes, TailIs, TsIs, On, PiOf, Writable, OptByte;
    var b, i := TpduBytes(t).val, 1 + |OptByte(t.fcs)|;
    assert b[i] == t.ind && b[i] == PiOf(t.ind, t.tail);
    TailBack(t.ind, ps[|ps| - 1], t.tail);
    if t.SubmitReport? { TsWritten(t.scts); }
  }

  /** A TPDU that can be written decodes, in its direction, to itself and all of it exactly when it is
      well formed; and a well-formed one can be written, in at most 174 octets. */
  lemma TpduRoundTrip(t: Tpdu)
    ensures Good(t) <==> TpduBytes(t).Ok? && ReadTpdu(DirOf(t), TpduBytes(t).val) == Ok(Got(t, []))
    ensures Good(t) ==> |TpduBytes(t).val| <= 174
  {
    hide Good, ReadTpdu, TpduBytes, Laid, Pieces;
    if Good(t) {
      GoodWrites(t);
      GoodIsLaid(t);
      DecodeShape(DirOf(t), TpduBytes(t).val, t, []);
    }
    if TpduBytes(t).Ok? && ReadTpdu(DirOf(t), TpduBytes(t).val) == Ok(Got(t, [])) {
      DecodeShape(DirOf(t), TpduBytes(t).val, t, []);
      var ps :| Laid(DirOf(t), TpduBytes(t).val, t, ps, []);
      match t {
        case Deliver(_, _, _, _, _, _, _, _, _, _) => DeliverGood(t, ps);
        case Submit(_, _, _, _, _, _, _, _, _, _) => SubmitGood(t, ps);
        case StatusReport(_, _, _, _, _, _, _, _, _, _, _) => StatusGood(t, ps);
        case Command(_, _, _, _, _, _, _, _) => CommandGood(t, ps);
        case _ => ReportGood(t, ps);
      }
    }
  }

  /** What sms_ud_from_utf8 builds is user data that agrees with its length field. */
  lemma BuiltIsGood(a: Alphabet, s: bytes, h: bytes, cap: nat, ud: Ud)
    requires HeaderOk(h) && Built(a, s, h, cap, Ok(ud))
    ensures ud.udl < 256 && GoodUd(ud.dcs, UdField(ud.udl, ud.octets))
    ensures UdText(ud.dcs, h != [], ud.octets, ud.udl) == Ok(s)
  {
    hide Chars, UdText, Text, Packed, AlphabetOf;
    var cs := Chars(a, s, 0).val;
    var n := |Code(a, cs)|;
    UdSize(a, h, Code(a, cs));
    hide Code, UdOf, Dcs;
    UdRoundTrip(a, h, cs);
    CharsText(a, s, 0);
    assert s[0..] == s;
    DcsSelects(a);
  }

  lemma UdSize(a: Alphabet, h: bytes, code: bytes)
    requires a == Default ==> forall i :: 0 <= i < |code| ==> code[i] < 128
    ensures var ud := UdOf(a, h, code);
            && |ud.octets| == SmsUserData.Size(a, |h|, |code|) && ud.dcs == Dcs(a)
            && ud.udl == if a == Default then SeptetOff(|h|) + |code| else |h| + |code|
  {
    hide Packed;
    if a == Default {
      HeaderFits(|h|, |code|);
      ZerosLength(Octets(SeptetOff(|h|) + |code|) - |h|);
      PackedLength(h + SmsUserData.Zeros(Octets(SeptetOff(|h|) + |code|) - |h|), SeptetOff(|h|), code);
    }
  }

  /** A text travels: put into user data, into a deliver or submit, onto the wire, off it and out of
      the user data again, it is the text, whatever the other fields are. */
  lemma TextTravels(a: Alphabet, s: bytes, h: bytes, cap: nat, ud: Ud, t: Tpdu)
    requires HeaderOk(h) && Built(a, s, h, cap, Ok(ud)) && (t.Deliver? || t.Submit?)
    requires ud.udl < 256 && t.ud == UdField(ud.udl, ud.octets) && t.dcs == ud.dcs && t.udhi == (h != [])
    requires GoodAddr(t.addr) && (if t.Deliver? then Writable(t.scts) else GoodVp(t.vp))
    ensures TpduBytes(t).Ok? && |TpduBytes(t).val| <= 176
    ensures var r := ReadTpdu(DirOf(t), TpduBytes(t).val);
            && r == Ok(Got(t, []))
            && UdText(r.val.val.dcs, r.val.val.udhi, r.val.val.ud.octets, r.val.val.ud.udl) == Ok(s)
  {
    BuiltIsGood(a, s, h, cap, ud);
    assert Good(t) by { hide GoodUd, Built; }
    hide *;
    TpduRoundTrip(t);
  }

  // ---------- buffers that end too early ----------

  /** Where TP-PI would stand. */
  function StatusEnd(t: Tpdu): nat
    requires t.StatusReport? && AddrBytes(t.addr).Ok?
  {
    17 + |AddrBytes(t.addr).val|
  }

  /** A report cut right after TP-ST is a layout of the report without its tail. */
  lemma StatusCut(t: Tpdu)
    requires t.StatusReport? && Good(t)
    ensures TpduBytes(t).Ok? && AddrBytes(t.addr).Ok? && StatusEnd(t) <= |TpduBytes(t).val|
    ensures ReadTpdu(DirOf(t), TpduBytes(t).val[..StatusEnd(t)]) == Ok(Got(t.(pi := None, tail := NO_TAIL), []))
  {
    GoodIsLaid(t);
    RestWrites(t);
    hide Rest, Good, AddrBytes, TsBytes, PiTail, First, TpduBytes, AddrIs, TsIs, PiTailIs, On, ReadTpdu;
    var b, ps := TpduBytes(t).val, Pieces(t);
    TsWritten(t.scts);
    TsWritten(t.dt);
    var c := [b[0], t.mr] + ps[0] + ps[1] + ps[2] + [t.st];
    assert b == c + ps[3];
    assert b[..StatusEnd(t)] == c;
    assert c + [] == c;
    assert PiTailIs([], None, NO_TAIL, []) by { NoTail(); }
    StatusTakes(DirOf(t), c, t.(pi := None, tail := NO_TAIL), [ps[0], ps[1], ps[2], []], []);
  }

  lemma NoTail()
    ensures PiTailIs([], None, NO_TAIL, [])
  {
  }

  /** A status report that reads bare ends where its address says. */
  lemma BareEnds(t: Tpdu, j: nat)
    requires t.StatusReport? && TpduBytes(t).Ok? && j <= |TpduBytes(t).val|
    requires Bare(ReadTpdu(DirOf(t), TpduBytes(t).val[..j])) && AddrBytes(t.addr).Ok?
    ensures j == StatusEnd(t)
  {
    ThirdOctet(t);
    hide ReadTpdu, TpduBytes, AddrBytes, Laid;
    var b := TpduBytes(t).val;
    var g := ReadTpdu(DirOf(t), b[..j]).val;
    var ps := StatusFound(DirOf(t), b[..j]);
    BareLength(b[..j], t, g.val, ps, g.rest);
    assert b[..j][2] == b[2];
  }

  lemma ThirdOctet(t: Tpdu)
    requires t.StatusReport? && TpduBytes(t).Ok? && AddrBytes(t.addr).Ok?
    ensures |TpduBytes(t).val| > 2 && |AddrBytes(t.addr).val| == 2 + (TpduBytes(t).val[2] as int + 1) / 2
  {
    Order(t);
    AddrWritten(t.addr);
    hide Rest, AddrBytes, TpduBytes, TsBytes, PiTail, First;
    assert TpduBytes(t).val[2] == AddrBytes(t.addr).val[0];
  }

  lemma BareLength(c: bytes, t: Tpdu, u: Tpdu, ps: seq<bytes>, w: bytes)
    requires u.StatusReport? && u.pi.None? && Laid(DirOf(t), c, u, ps, w)
    ensures |c| > 2 && |c| == 17 + 2 + (c[2] as int + 1) / 2
  {
    hide TsIs, TextIs, NumberIs, TailIs, On;
    LaidTs(ps[1], u.scts);
    LaidTs(ps[2], u.dt);
    assert c[2] == ps[0][0];
  }

  /** Every proper prefix of a well-formed TPDU is short; only a status report that carries TP-PI
      may also end right after TP-ST, and then reads as the report without its tail. */
  lemma TpduCut(t: Tpdu, j: nat)
    requires Good(t) && TpduBytes(t).Ok? && j < |TpduBytes(t).val|
    ensures t.StatusReport? ==> AddrBytes(t.addr).Ok?
    ensures ReadTpdu(DirOf(t), TpduBytes(t).val[..j]) ==
              if t.StatusReport? && j == StatusEnd(t) then Ok(Got(t.(pi := None, tail := NO_TAIL), [])) else Fail(Short)
  {
    hide Good, ReadTpdu, TpduBytes, AddrBytes;
    var b := TpduBytes(t).val;
    TpduRoundTrip(t);
    TpduKeeps(DirOf(t), b[..j], b[j..]);
    assert b[..j] + b[j..] == b;
    if t.StatusReport? {
      StatusCut(t);
      if Bare(ReadTpdu(DirOf(t), b[..j])) { BareEnds(t, j); }
    } else if Bare(ReadTpdu(DirOf(t), b[..j])) {
      NotStatus(t, j);
    }
  }

  lemma NotStatus(t: Tpdu, j: nat)
    requires TpduBytes(t).Ok? && j < |TpduBytes(t).val| && Bare(ReadTpdu(DirOf(t), TpduBytes(t).val[..j]))
    ensures t.StatusReport?
  {
    TypeFollows(DirOf(t), TpduBytes(t).val[..j]);
    Order(t);
    Flags(t);
    hide Rest, First, Pieces;
    assert TpduBytes(t).val[..j][0] == First(t);
  }
}
