/** SMS transfer PDUs (TS 23.040 section 9.2.2): the six types on the wire, from sms/src/sms.c
    and sms/src/sms_write.c. */
module TpduSpec {
  import opened Basics
  import opened SmsPack
  import opened SmsText
  import opened SmsUserData
  import opened SmsTime

  const ADDR_MAX := 20
  const CD_MAX := 156
  const ALPHANUM := 5

  /** What a reader took off the front of the buffer, and what is left. */
  datatype Got<+T> = Got(val: T, rest: bytes)

  function ReadU8(s: bytes): Res<Got<byte>> {
    if s == [] then Fail(Short) else Ok(Got(s[0], s[1..]))
  }

  // ---------- addresses ----------

  /** The digits are the characters of sms_bcd_chars; a text for an alphanumeric address. */
  datatype Addr = Addr(ton: nat, npi: nat, digits: bytes)

  /** Nibble to character: 0-9 * # a b c. */
  function Symbol(n: nat): byte
    requires n < 15
  {
    if n < 10 then 48 + n else if n == 10 then 42 else if n == 11 then 35 else 85 + n
  }

  /** Character to nibble; the letters in either case. */
  function Nibble(c: byte): (r: Option<nat>)
    ensures r.Some? ==> r.value < 15
  {
    if 48 <= c <= 57 then Some(c - 48)
    else if c == 42 then Some(10)
    else if c == 35 then Some(11)
    else if 97 <= c <= 99 then Some(c - 85)
    else if 65 <= c <= 67 then Some(c - 53)
    else None
  }

  lemma NibbleBound(c: byte)
    ensures Nibble(c).Some? ==> Nibble(c).value < 15
  {
  }

  /** Digits as swapped nibbles; an odd one out is followed by the filler. */
  function Semi(d: bytes): Res<bytes>
    decreases |d|
  {
    if d == [] then Ok([]) else
    var hi := if |d| == 1 then Some(15) else Nibble(d[1]);
    if Nibble(d[0]).None? || hi.None? then Fail(Inval) else
    match Semi(if |d| == 1 then [] else d[2..])
    case Fail(e) => Fail(e)
    case Ok(b) => Ok([hi.value * 16 + Nibble(d[0]).value] + b)
  }

  lemma SemiNone()
    ensures Semi([]) == Ok([])
  {
  }

  /** The first n digits of a run of semi-octets. */
  function Unsemi(b: bytes, n: nat): Res<bytes>
    requires |b| == (n + 1) / 2
    decreases n
  {
    if n == 0 then Ok([]) else
    if b[0] % 16 == 15 then Fail(Length) else
    var lo := Symbol(b[0] % 16);
    if n == 1 then Ok([lo]) else
    if b[0] / 16 == 15 then Fail(Length) else
    match Unsemi(b[1..], n - 2)
    case Fail(e) => Fail(e)
    case Ok(d) => Ok([lo, Symbol(b[0] / 16)] + d)
  }

  /** sms_addr_decode. */
  function ReadAddr(s: bytes): Res<Got<Addr>> {
    if |s| < 2 then Fail(Short) else
    var alen, ton, npi := s[0], s[1] / 16 % 8, s[1] % 16;
    if alen > ADDR_MAX then Fail(Length) else
    var vlen := (alen + 1) / 2;
    if |s| < 2 + vlen then Fail(Short) else
    var v, rest := s[2..2 + vlen], s[2 + vlen..];
    if ton == ALPHANUM then Ok(Got(Addr(ton, npi, SeptetText(Unpacked(v, 0, vlen * 8 / 7))), rest))
    else
      match Unsemi(v, alen)
      case Fail(e) => Fail(e)
      case Ok(d) => Ok(Got(Addr(ton, npi, d), rest))
  }

  function Toa(a: Addr): byte
    requires a.ton <= 7 && a.npi <= 15
  {
    128 + a.ton * 16 + a.npi
  }

  /** sms_addr_encode, given room. */
  function AddrBytes(a: Addr): Res<bytes> {
    if a.ton > 7 || a.npi > 15 then Fail(Inval)
    else if a.ton == ALPHANUM then
      match Chars(Default, a.digits, 0)
      case Fail(e) => Fail(e)
      case Ok(cs) =>
        var code := Code(Default, cs);
        if |code| > ADDR_MAX then Fail(Overflow)
        else if Octets(|code|) > 10 then Fail(Length)
        else Ok([2 * Octets(|code|), Toa(a)] + Packed(SmsUserData.Zeros(Octets(|code|)), 0, code))
    else if |a.digits| > ADDR_MAX then Fail(Length)
    else
      match Semi(a.digits)
      case Fail(e) => Fail(e)
      case Ok(b) => Ok([|a.digits|, Toa(a)] + b)
  }

  // ---------- the other fields ----------

  function ReadTs(s: bytes): Res<Got<Ts>> {
    match TsDecode(s)
    case Fail(e) => Fail(e)
    case Ok(t) => TsShort(s); Ok(Got(t, s[7..]))
  }

  lemma TsShort(s: bytes)
    ensures TsDecode(s).Ok? ==> |s| >= 7
    ensures |s| < 7 ==> TsDecode(s) == Fail(Short)
  {
  }

  function TsBytes(t: Ts): Res<bytes> { TsEncode(t, 7) }

  lemma TsLength(t: Ts)
    ensures TsEncode(t, 7).Ok? ==> |TsEncode(t, 7).val| == 7
  {
  }

  /** User data as the TPDU carries it: the length field and the octets. */
  datatype UdField = UdField(udl: byte, octets: bytes)

  function UdOctets(dcs: byte, udl: byte): nat {
    if AlphabetOf(dcs) == Default then Octets(udl) else udl
  }

  /** read_ud. */
  function ReadUd(dcs: byte, s: bytes): Res<Got<UdField>> {
    if s == [] then Fail(Short) else
    var n := UdOctets(dcs, s[0]);
    if n > UD_MAX then Fail(Length)
    else if |s| < 1 + n then Fail(Short)
    else Ok(Got(UdField(s[0], s[1..1 + n]), s[1 + n..]))
  }

  function UdBytes(u: UdField): Res<bytes> {
    if |u.octets| > UD_MAX then Fail(Length) else Ok([u.udl] + u.octets)
  }

  /** The fields TP-PI announces. */
  datatype Tail = Tail(pid: Option<byte>, dcs: Option<byte>, ud: Option<UdField>)

  const NO_TAIL := Tail(None, None, None)

  function Dcs0(dcs: Option<byte>): byte { if dcs.Some? then dcs.value else 0 }

  function ReadOpt(on: bool, s: bytes): Res<Got<Option<byte>>> {
    if !on then Ok(Got(None, s)) else
    match ReadU8(s) case Fail(e) => Fail(e) case Ok(g) => Ok(Got(Some(g.val), g.rest))
  }

  /** read_pi_tail. */
  function ReadTail(pi: byte, s: bytes): Res<Got<Tail>> {
    match ReadOpt(pi % 2 == 1, s)
    case Fail(e) => Fail(e)
    case Ok(p) =>
      match ReadOpt(pi / 2 % 2 == 1, p.rest)
      case Fail(e) => Fail(e)
      case Ok(d) =>
        if pi / 4 % 2 == 0 then Ok(Got(Tail(p.val, d.val, None), d.rest)) else
        match ReadUd(Dcs0(d.val), d.rest)
        case Fail(e) => Fail(e)
        case Ok(u) => Ok(Got(Tail(p.val, d.val, Some(u.val)), u.rest))
  }

  /** pi_of: the extension bit and the presence flags. */
  function PiOf(pi: byte, t: Tail): byte {
    pi / 128 * 128 + (if t.pid.Some? then 1 else 0) + (if t.dcs.Some? then 2 else 0) + (if t.ud.Some? then 4 else 0)
  }

  function OptByte(o: Option<byte>): bytes { if o.Some? then [o.value] else [] }

  function TailBytes(t: Tail): Res<bytes> {
    if t.ud.None? then Ok(OptByte(t.pid) + OptByte(t.dcs)) else
    match UdBytes(t.ud.value) case Fail(e) => Fail(e) case Ok(u) => Ok(OptByte(t.pid) + OptByte(t.dcs) + u)
  }

  /** TP-VP in its four forms. */
  datatype Vp = NoVp | Enhanced(octets: bytes) | Relative(rel: byte) | Absolute(at: Ts)

  function VpFormat(v: Vp): (n: nat)
    ensures n < 4
  {
    match v case NoVp => 0 case Enhanced(_) => 1 case Relative(_) => 2 case Absolute(_) => 3
  }

  function ReadVp(fmt: nat, s: bytes): Res<Got<Vp>> {
    if fmt == 0 then Ok(Got(NoVp, s))
    else if fmt == 1 then if |s| < 7 then Fail(Short) else Ok(Got(Enhanced(s[..7]), s[7..]))
    else if fmt == 2 then match ReadU8(s) case Fail(e) => Fail(e) case Ok(g) => Ok(Got(Relative(g.val), g.rest))
    else match ReadTs(s) case Fail(e) => Fail(e) case Ok(g) => Ok(Got(Absolute(g.val), g.rest))
  }

  function VpBytes(v: Vp): Res<bytes> {
    match v
    case NoVp => Ok([])
    case Enhanced(o) => Ok(o)
    case Relative(r) => Ok([r])
    case Absolute(t) => TsBytes(t)
  }

  // ---------- the six types ----------

  datatype Tpdu =
    | Deliver(mms: bool, lp: bool, sri: bool, udhi: bool, rp: bool, addr: Addr, pid: byte, dcs: byte, scts: Ts, ud: UdField)
    | Submit(rd: bool, srr: bool, udhi: bool, rp: bool, mr: byte, addr: Addr, pid: byte, dcs: byte, vp: Vp, ud: UdField)
    | StatusReport(mms: bool, lp: bool, srq: bool, udhi: bool, mr: byte, addr: Addr, scts: Ts, dt: Ts, st: byte, pi: Option<byte>, tail: Tail)
    | Command(srr: bool, udhi: bool, mr: byte, pid: byte, ct: byte, mn: byte, addr: Addr, cd: bytes)
    | DeliverReport(udhi: bool, fcs: Option<byte>, ind: byte, tail: Tail)
    | SubmitReport(udhi: bool, fcs: Option<byte>, ind: byte, scts: Ts, tail: Tail)

  /** Towards the service centre or from it, and whether a report rides an RP-ERROR. */
  datatype Dir = Dir(fromSc: bool, negative: bool)

  function DirOf(t: Tpdu): Dir {
    match t
    case Deliver(_, _, _, _, _, _, _, _, _, _) => Dir(true, false)
    case StatusReport(_, _, _, _, _, _, _, _, _, _, _) => Dir(true, false)
    case SubmitReport(_, f, _, _, _) => Dir(true, f.Some?)
    case DeliverReport(_, f, _, _) => Dir(false, f.Some?)
    case _ => Dir(false, false)
  }

  type bit = b: int | 0 <= b < 2

  function Bit(b: bool): bit { if b then 1 else 0 }

  /** The first octet from its bits, lowest first after the type. */
  function Octet0(mti: nat, b2: bit, b3: bit, b4: bit, b5: bit, b6: bit, b7: bit): byte
    requires mti < 4
  {
    var two: int, three: int, four: int, five: int, six: int, seven: int := b2, b3, b4, b5, b6, b7;
    mti + 4 * two + 8 * three + 16 * four + 32 * five + 64 * six + 128 * seven
  }

  function First(t: Tpdu): (o: byte) {
    match t
    case Deliver(mms, lp, sri, udhi, rp, _, _, _, _, _) => Octet0(0, Bit(mms), Bit(lp), 0, Bit(sri), Bit(udhi), Bit(rp))
    case Submit(rd, srr, udhi, rp, _, _, _, _, vp, _) =>
      Octet0(1, Bit(rd), VpFormat(vp) % 2, VpFormat(vp) / 2, Bit(srr), Bit(udhi), Bit(rp))
    case StatusReport(mms, lp, srq, udhi, _, _, _, _, _, _, _) => Octet0(2, Bit(mms), Bit(lp), 0, Bit(srq), Bit(udhi), 0)
    case Command(srr, udhi, _, _, _, _, _, _) => Octet0(2, 0, 0, 0, Bit(srr), Bit(udhi), 0)
    case DeliverReport(udhi, _, _, _) => Octet0(0, 0, 0, 0, 0, Bit(udhi), 0)
    case SubmitReport(udhi, _, _, _, _) => Octet0(1, 0, 0, 0, 0, Bit(udhi), 0)
  }

  /** Pieces one after the other, or the first that cannot be written. */
  function Then(a: Res<bytes>, b: Res<bytes>): Res<bytes> {
    match (a, b)
    case (Fail(e), _) => Fail(e)
    case (_, Fail(e)) => Fail(e)
    case (Ok(x), Ok(y)) => Ok(x + y)
  }

  /** The octets after the first. */
  function Rest(t: Tpdu): Res<bytes> {
    match t
    case Deliver(_, _, _, _, _, a, pid, dcs, scts, ud) =>
      Then(AddrBytes(a), Then(Ok([pid]), Then(Ok([dcs]), Then(TsBytes(scts), UdBytes(ud)))))
    case Submit(_, _, _, _, mr, a, pid, dcs, vp, ud) =>
      Then(Ok([mr]), Then(AddrBytes(a), Then(Ok([pid]), Then(Ok([dcs]), Then(VpBytes(vp), UdBytes(ud))))))
    case StatusReport(_, _, _, _, mr, a, scts, dt, st, pi, tail) =>
      Then(Ok([mr]), Then(AddrBytes(a), Then(TsBytes(scts), Then(TsBytes(dt), Then(Ok([st]), PiTail(pi, tail))))))
    case Command(_, _, mr, pid, ct, mn, a, cd) =>
      Then(Ok([mr]), Then(Ok([pid]), Then(Ok([ct]), Then(Ok([mn]), Then(AddrBytes(a), CdBytes(cd))))))
    case DeliverReport(_, fcs, ind, tail) =>
      Then(Ok(OptByte(fcs)), Then(Ok([PiOf(ind, tail)]), TailBytes(tail)))
    case SubmitReport(_, fcs, ind, scts, tail) =>
      Then(Ok(OptByte(fcs)), Then(Ok([PiOf(ind, tail)]), Then(TsBytes(scts), TailBytes(tail))))
  }

  /** A status report carries TP-PI when it is asked for or announces something. */
  function PiTail(pi: Option<byte>, tail: Tail): Res<bytes> {
    if pi.None? && tail == NO_TAIL then Ok([])
    else Then(Ok([PiOf(Dcs0(pi), tail)]), TailBytes(tail))
  }

  function CdBytes(cd: bytes): Res<bytes> { if |cd| > CD_MAX then Fail(Length) else Ok([|cd|] + cd) }

  /** sms_tpdu_encode, given room. */
  function TpduBytes(t: Tpdu): Res<bytes> { Then(Ok([First(t)]), Rest(t)) }

  // ---------- reading ----------

  function ReadCd(s: bytes): Res<Got<bytes>> {
    if s == [] then Fail(Short)
    else if s[0] > CD_MAX then Fail(Length)
    else if |s| < 1 + s[0] as nat then Fail(Short)
    else Ok(Got(s[1..1 + s[0] as nat], s[1 + s[0] as nat..]))
  }

  function ReadDeliver(o: byte, s: bytes): Res<Got<Tpdu>> {
    match ReadAddr(s)
    case Fail(e) => Fail(e)
    case Ok(a) => ReadDeliverBody(o, a.val, a.rest)
  }

  function ReadDeliverBody(o: byte, a: Addr, s: bytes): Res<Got<Tpdu>> {
    match ReadU8(s)
    case Fail(e) => Fail(e)
    case Ok(p) => match ReadU8(p.rest)
    case Fail(e) => Fail(e)
    case Ok(d) => match ReadTs(d.rest)
    case Fail(e) => Fail(e)
    case Ok(t) => match ReadUd(d.val, t.rest)
    case Fail(e) => Fail(e)
    case Ok(u) => Ok(Got(DeliverOf(o, a, p.val, d.val, t.val, u.val), u.rest))
  }

  function DeliverOf(o: byte, a: Addr, pid: byte, dcs: byte, scts: Ts, ud: UdField): Tpdu {
    Deliver(o / 4 % 2 == 1, o / 8 % 2 == 1, o / 32 % 2 == 1, o / 64 % 2 == 1, o / 128 % 2 == 1, a, pid, dcs, scts, ud)
  }

  function ReadSubmit(o: byte, s: bytes): Res<Got<Tpdu>> {
    match ReadU8(s)
    case Fail(e) => Fail(e)
    case Ok(m) => match ReadAddr(m.rest)
    case Fail(e) => Fail(e)
    case Ok(a) => ReadSubmitBody(o, m.val, a.val, a.rest)
  }

  function ReadSubmitBody(o: byte, mr: byte, a: Addr, s: bytes): Res<Got<Tpdu>> {
    match ReadU8(s)
    case Fail(e) => Fail(e)
    case Ok(p) => match ReadU8(p.rest)
    case Fail(e) => Fail(e)
    case Ok(d) => match ReadVp(o / 8 % 4, d.rest)
    case Fail(e) => Fail(e)
    case Ok(v) => match ReadUd(d.val, v.rest)
    case Fail(e) => Fail(e)
    case Ok(u) => Ok(Got(SubmitOf(o, mr, a, p.val, d.val, v.val, u.val), u.rest))
  }

  function SubmitOf(o: byte, mr: byte, a: Addr, pid: byte, dcs: byte, vp: Vp, ud: UdField): Tpdu {
    Submit(o / 4 % 2 == 1, o / 32 % 2 == 1, o / 64 % 2 == 1, o / 128 % 2 == 1, mr, a, pid, dcs, vp, ud)
  }

  /** Up to and with TP-ST. */
  function ReadStatusHead(o: byte, s: bytes): (r: Res<Got<Tpdu>>)
    ensures r.Ok? ==> r.val.val.StatusReport?
  {
    match ReadU8(s)
    case Fail(e) => Fail(e)
    case Ok(m) => match ReadAddr(m.rest)
    case Fail(e) => Fail(e)
    case Ok(a) => match ReadTs(a.rest)
    case Fail(e) => Fail(e)
    case Ok(t) => match ReadTs(t.rest)
    case Fail(e) => Fail(e)
    case Ok(d) => match ReadU8(d.rest)
    case Fail(e) => Fail(e)
    case Ok(st) => Ok(Got(StatusOf(o, m.val, a.val, t.val, d.val, st.val), st.rest))
  }

  function StatusOf(o: byte, mr: byte, a: Addr, scts: Ts, dt: Ts, st: byte): Tpdu {
    StatusReport(o / 4 % 2 == 1, o / 8 % 2 == 1, o / 32 % 2 == 1, o / 64 % 2 == 1, mr, a, scts, dt, st, None, NO_TAIL)
  }

  function ReadStatus(o: byte, s: bytes): Res<Got<Tpdu>> {
    match ReadStatusHead(o, s)
    case Fail(e) => Fail(e)
    case Ok(h) => match ReadPiTail(h.rest)
    case Fail(e) => Fail(e)
    case Ok(x) => Ok(Got(h.val.(pi := x.val.0, tail := x.val.1), x.rest))
  }

  /** A buffer that ends after TP-ST is complete, not short. */
  function ReadPiTail(s: bytes): Res<Got<(Option<byte>, Tail)>> {
    match ReadU8(s)
    case Fail(_) => Ok(Got((None, NO_TAIL), []))
    case Ok(p) =>
      match ReadTail(p.val, p.rest)
      case Fail(e) => Fail(e)
      case Ok(t) => Ok(Got((Some(p.val), t.val), t.rest))
  }

  function ReadCommand(o: byte, s: bytes): Res<Got<Tpdu>> {
    match ReadU8(s)
    case Fail(e) => Fail(e)
    case Ok(m) => match ReadU8(m.rest)
    case Fail(e) => Fail(e)
    case Ok(p) => match ReadU8(p.rest)
    case Fail(e) => Fail(e)
    case Ok(c) => match ReadU8(c.rest)
    case Fail(e) => Fail(e)
    case Ok(n) => match ReadAddr(n.rest)
    case Fail(e) => Fail(e)
    case Ok(a) => match ReadCd(a.rest)
    case Fail(e) => Fail(e)
    case Ok(d) =>
      Ok(Got(Command(o / 32 % 2 == 1, o / 64 % 2 == 1, m.val, p.val, c.val, n.val, a.val, d.val), d.rest))
  }

  function ReadReport(o: byte, dir: Dir, s: bytes): Res<Got<Tpdu>> {
    match ReadOpt(dir.negative, s)
    case Fail(e) => Fail(e)
    case Ok(f) => match ReadU8(f.rest)
    case Fail(e) => Fail(e)
    case Ok(p) =>
      if !dir.fromSc then
        match ReadTail(p.val, p.rest)
        case Fail(e) => Fail(e)
        case Ok(t) => Ok(Got(DeliverReport(o / 64 % 2 == 1, f.val, p.val, t.val), t.rest))
      else
        match ReadTs(p.rest)
        case Fail(e) => Fail(e)
        case Ok(ts) => match ReadTail(p.val, ts.rest)
        case Fail(e) => Fail(e)
        case Ok(t) => Ok(Got(SubmitReport(o / 64 % 2 == 1, f.val, p.val, ts.val, t.val), t.rest))
  }

  /** sms_tpdu_decode: the type follows from TP-MTI and the direction. */
  function ReadTpdu(dir: Dir, b: bytes): Res<Got<Tpdu>> {
    if b == [] then Fail(Short) else
    var o, s := b[0], b[1..];
    var mti := o % 4;
    if mti == 3 then Fail(Mti)
    else if mti == 0 then if dir.fromSc then ReadDeliver(o, s) else ReadReport(o, dir, s)
    else if mti == 1 then if dir.fromSc then ReadReport(o, dir, s) else ReadSubmit(o, s)
    else if dir.fromSc then ReadStatus(o, s) else ReadCommand(o, s)
  }
}

/** The encoder as the code runs it: a write cursor over the caller's buffer, advanced field by
    field (sms/src/sms_write.c), and the digit loop of sms_addr_encode. */
module Tpdu {
  import opened Basics
  import opened SmsPack
  import opened SmsUserData
  import opened SmsTime
  import opened TpduSpec

  /** A write either appends what is wanted, or fails and leaves what was there. */
  ghost predicate Wrote(want: Res<bytes>, was: bytes, cap: nat, ok: bool, now: bytes) {
    && (ok <==> want.Ok? && |was| + |want.val| <= cap)
    && (ok ==> now == was + want.val)
    && |was| <= |now| <= cap && now[..|was|] == was
  }

  /** One write, and another if the first succeeded. */
  lemma WroteThen(a: Res<bytes>, b: Res<bytes>, was: bytes, mid: bytes, now: bytes, cap: nat, ok1: bool, ok: bool)
    requires Wrote(a, was, cap, ok1, mid)
    requires ok1 ==> Wrote(b, mid, cap, ok, now)
    requires !ok1 ==> !ok && now == mid
    ensures Wrote(Then(a, b), was, cap, ok, now)
  {
    if ok1 { assert now[..|was|] == now[..|mid|][..|was|]; }
    if ok { assert was + a.val + b.val == was + (a.val + b.val); }
  }

  class Writer {
    const b: array<byte>
    var off: nat

    ghost predicate Valid()
      reads this
    {
      off <= b.Length
    }

    ghost function Written(): bytes
      reads this, b
      requires Valid()
    {
      b[..off]
    }

    constructor (buf: array<byte>)
      ensures Valid() && b == buf && off == 0
    {
      b, off := buf, 0;
    }

    /** room and put8. */
    method Put8(v: byte) returns (ok: bool)
      requires Valid()
      modifies this, b
      ensures Valid() && Wrote(Ok([v]), old(Written()), b.Length, ok, Written())
    {
      if b.Length - off < 1 { return false; }
      b[off] := v;
      off := off + 1;
      return true;
    }

    /** room and memcpy. */
    method Copy(f: bytes) returns (ok: bool)
      requires Valid()
      modifies this, b
      ensures Valid() && Wrote(Ok(f), old(Written()), b.Length, ok, Written())
    {
      if b.Length - off < |f| { return false; }
      forall i | 0 <= i < |f| { b[off + i] := f[i]; }
      off := off + |f|;
      assert b[..off] == old(b[..off]) + f;
      return true;
    }

    method PutOpt(o: Option<byte>) returns (ok: bool)
      requires Valid()
      modifies this, b
      ensures Valid() && Wrote(Ok(OptByte(o)), old(Written()), b.Length, ok, Written())
    {
      if o.None? {
        assert Written() + [] == Written();
        return true;
      }
      ok := Put8(o.value);
    }

    /** write_addr and sms_addr_encode. */
    method PutAddr(a: Addr) returns (ok: bool)
      requires Valid()
      modifies this, b
      ensures Valid() && Wrote(AddrBytes(a), old(Written()), b.Length, ok, Written())
    {
      hide Semi, Toa, Chars, Code, Packed;
      if a.ton > 7 || a.npi > 15 { return false; }
      if a.ton == ALPHANUM {
        ok := PutText(a);
        return;
      }
      if |a.digits| > ADDR_MAX { return false; }
      SemiLength(a.digits);
      if b.Length - off < 2 + (|a.digits| + 1) / 2 { return false; }
      var v := DigitOctets(a.digits);
      if v.None? { return false; }
      ok := Copy([|a.digits|, Toa(a)] + v.value);
    }

    /** An alphanumeric address: packed septets. */
    method PutText(a: Addr) returns (ok: bool)
      requires Valid() && a.ton == ALPHANUM && a.npi <= 15
      modifies this, b
      ensures Valid() && Wrote(AddrBytes(a), old(Written()), b.Length, ok, Written())
    {
      hide Toa, Chars, Code, Packed;
      var sep := SeptetsOf(a.digits, ADDR_MAX);
      if sep.Fail? { return false; }
      var vlen := Octets(|sep.val|);
      if vlen > 10 { return false; }
      var v := new byte[vlen](_ => 0);
      ZeroRun(v[..]);
      var n := Pack(sep.val, 0, v);
      ok := Copy([2 * vlen, Toa(a)] + v[..]);
    }

    /** write_ts. */
    method PutTs(t: Ts) returns (ok: bool)
      requires Valid()
      modifies this, b
      ensures Valid() && Wrote(TsBytes(t), old(Written()), b.Length, ok, Written())
    {
      hide TsEncode;
      TsLength(t);
      var e := TsBytes(t);
      if e.Fail? { return false; }
      ok := Copy(e.val);
    }

    /** write_ud. */
    method PutUd(u: UdField) returns (ok: bool)
      requires Valid()
      modifies this, b
      ensures Valid() && Wrote(UdBytes(u), old(Written()), b.Length, ok, Written())
    {
      if |u.octets| > UD_MAX { return false; }
      if b.Length - off < 1 + |u.octets| { return false; }
      ghost var was := Written();
      ok := Put8(u.udl);
      ok := Copy(u.octets);
      assert was + [u.udl] + u.octets == was + ([u.udl] + u.octets);
    }

    /** write_pi_tail. */
    method PutTail(t: Tail) returns (ok: bool)
      requires Valid()
      modifies this, b
      ensures Valid() && Wrote(TailBytes(t), old(Written()), b.Length, ok, Written())
    {
      hide Wrote, UdBytes;
      ghost var w0 := Written();
      ok := PutOpt(t.pid);
      ghost var w1, ok1 := Written(), ok;
      ghost var w2, ok2 := w1, false;
      if ok {
        ok := PutOpt(t.dcs);
        w2, ok2 := Written(), ok;
        if ok && t.ud.Some? { ok := PutUd(t.ud.value); }
      }
      WroteThen(Ok(OptByte(t.pid)), Ok(OptByte(t.dcs)), w0, w1, w2, b.Length, ok1, ok2);
      if t.ud.Some? {
        WroteThen(Ok(OptByte(t.pid) + OptByte(t.dcs)), UdBytes(t.ud.value), w0, w2, Written(), b.Length, ok2, ok);
      }
    }
  }

  lemma {:induction false} ZeroRun(z: bytes)
    requires forall i :: 0 <= i < |z| ==> z[i] == 0
    ensures z == SmsUserData.Zeros(|z|)
    decreases |z|
  {
    if z != [] { ZeroRun(z[..|z| - 1]); }
  }

  /** sms_tpdu_encode: succeeds exactly when every field can be written and all of them fit, and
      then the buffer starts with the TPDU. */
  method Encode(buf: array<byte>, t: Tpdu) returns (r: Option<nat>)
    modifies buf
    ensures r.Some? <==> TpduBytes(t).Ok? && |TpduBytes(t).val| <= buf.Length
    ensures r.Some? ==> r.value == |TpduBytes(t).val| && buf[..r.value] == TpduBytes(t).val
  {
    hide First, Rest;
    var w := new Writer(buf);
    ghost var w0 := w.Written();
    var ok := w.Put8(First(t));
    ghost var w1, ok1 := w.Written(), ok;
    if ok { ok := EncodeRest(w, t); }
    WroteThen(Ok([First(t)]), Rest(t), w0, w1, w.Written(), buf.Length, ok1, ok);
    if ok { r := Some(w.off); } else { r := None; }
  }

  method EncodeRest(w: Writer, t: Tpdu) returns (ok: bool)
    requires w.Valid()
    modifies w, w.b
    ensures w.Valid() && Wrote(Rest(t), old(w.Written()), w.b.Length, ok, w.Written())
  {
    hide Wrote, Then, AddrBytes, TsBytes, VpBytes, UdBytes, TailBytes, PiTail, CdBytes, PiOf, OptByte;
    match t {
      case Deliver(_, _, _, _, _, a, pid, dcs, scts, ud) => ok := PutDeliver(w, a, pid, dcs, scts, ud);
      case Submit(_, _, _, _, mr, a, pid, dcs, vp, ud) => ok := PutSubmit(w, mr, a, pid, dcs, vp, ud);
      case StatusReport(_, _, _, _, mr, a, scts, dt, st, pi, tail) => ok := PutStatus(w, mr, a, scts, dt, st, pi, tail);
      case Command(_, _, mr, pid, ct, mn, a, cd) => ok := PutCommand(w, mr, pid, ct, mn, a, cd);
      case DeliverReport(_, fcs, ind, tail) => ok := PutReport(w, fcs, ind, None, tail);
      case SubmitReport(_, fcs, ind, scts, tail) => ok := PutReport(w, fcs, ind, Some(scts), tail);
    }
  }

  method PutDeliver(w: Writer, a: Addr, pid: byte, dcs: byte, scts: Ts, ud: UdField) returns (ok: bool)
    requires w.Valid()
    modifies w, w.b
    ensures w.Valid()
    ensures Wrote(Then(AddrBytes(a), Then(Ok([pid]), Then(Ok([dcs]), Then(TsBytes(scts), UdBytes(ud))))),
                  old(w.Written()), w.b.Length, ok, w.Written())
  {
    hide Wrote, Then, AddrBytes, TsBytes, UdBytes;
    ghost var w0 := w.Written();
    ok := w.PutAddr(a);
    ghost var w1, ok1 := w.Written(), ok;
    if ok {
      ok := w.Put8(pid);
      ghost var w2, ok2 := w.Written(), ok;
      if ok {
        ok := w.Put8(dcs);
        ghost var w3, ok3 := w.Written(), ok;
        if ok {
          ok := w.PutTs(scts);
          ghost var w4, ok4 := w.Written(), ok;
          if ok { ok := w.PutUd(ud); }
          WroteThen(TsBytes(scts), UdBytes(ud), w3, w4, w.Written(), w.b.Length, ok4, ok);
        }
        WroteThen(Ok([dcs]), Then(TsBytes(scts), UdBytes(ud)), w2, w3, w.Written(), w.b.Length, ok3, ok);
      }
      WroteThen(Ok([pid]), Then(Ok([dcs]), Then(TsBytes(scts), UdBytes(ud))), w1, w2, w.Written(), w.b.Length, ok2, ok);
    }
    WroteThen(AddrBytes(a), Then(Ok([pid]), Then(Ok([dcs]), Then(TsBytes(scts), UdBytes(ud)))), w0, w1, w.Written(), w.b.Length, ok1, ok);
  }

  method PutVp(w: Writer, v: Vp) returns (ok: bool)
    requires w.Valid()
    modifies w, w.b
    ensures w.Valid() && Wrote(VpBytes(v), old(w.Written()), w.b.Length, ok, w.Written())
  {
    hide TsBytes;
    match v {
      case NoVp => ok := w.Copy([]);
      case Enhanced(o) => ok := w.Copy(o);
      case Relative(r) => ok := w.Put8(r);
      case Absolute(t) => ok := w.PutTs(t);
    }
  }

  method PutSubmit(w: Writer, mr: byte, a: Addr, pid: byte, dcs: byte, vp: Vp, ud: UdField) returns (ok: bool)
    requires w.Valid()
    modifies w, w.b
    ensures w.Valid()
    ensures Wrote(Then(Ok([mr]), Then(AddrBytes(a), Then(Ok([pid]), Then(Ok([dcs]), Then(VpBytes(vp), UdBytes(ud)))))),
                  old(w.Written()), w.b.Length, ok, w.Written())
  {
    hide Wrote, Then, AddrBytes, VpBytes, UdBytes;
    ghost var w0 := w.Written();
    ok := w.Put8(mr);
    ghost var w1, ok1 := w.Written(), ok;
    ghost var tail := Then(Ok([dcs]), Then(VpBytes(vp), UdBytes(ud)));
    if ok {
      ok := w.PutAddr(a);
      ghost var w2, ok2 := w.Written(), ok;
      if ok {
        ok := w.Put8(pid);
        ghost var w3, ok3 := w.Written(), ok;
        if ok {
          ok := w.Put8(dcs);
          ghost var w4, ok4 := w.Written(), ok;
          if ok {
            ok := PutVp(w, vp);
            ghost var w5, ok5 := w.Written(), ok;
            if ok { ok := w.PutUd(ud); }
            WroteThen(VpBytes(vp), UdBytes(ud), w4, w5, w.Written(), w.b.Length, ok5, ok);
          }
          WroteThen(Ok([dcs]), Then(VpBytes(vp), UdBytes(ud)), w3, w4, w.Written(), w.b.Length, ok4, ok);
        }
        WroteThen(Ok([pid]), tail, w2, w3, w.Written(), w.b.Length, ok3, ok);
      }
      WroteThen(AddrBytes(a), Then(Ok([pid]), tail), w1, w2, w.Written(), w.b.Length, ok2, ok);
    }
    WroteThen(Ok([mr]), Then(AddrBytes(a), Then(Ok([pid]), tail)), w0, w1, w.Written(), w.b.Length, ok1, ok);
  }

  method PutPiTail(w: Writer, pi: Option<byte>, tail: Tail) returns (ok: bool)
    requires w.Valid()
    modifies w, w.b
    ensures w.Valid() && Wrote(PiTail(pi, tail), old(w.Written()), w.b.Length, ok, w.Written())
  {
    hide Wrote, Then, TailBytes, PiOf;
    if pi.None? && tail.pid.None? && tail.dcs.None? && tail.ud.None? {
      ok := w.Copy([]);
      return;
    }
    ghost var w0 := w.Written();
    ok := w.Put8(PiOf(Dcs0(pi), tail));
    ghost var w1, ok1 := w.Written(), ok;
    if ok { ok := w.PutTail(tail); }
    WroteThen(Ok([PiOf(Dcs0(pi), tail)]), TailBytes(tail), w0, w1, w.Written(), w.b.Length, ok1, ok);
  }

  method PutStatus(w: Writer, mr: byte, a: Addr, scts: Ts, dt: Ts, st: byte, pi: Option<byte>, tail: Tail) returns (ok: bool)
    requires w.Valid()
    modifies w, w.b
    ensures w.Valid()
    ensures Wrote(Then(Ok([mr]), Then(AddrBytes(a), Then(TsBytes(scts), Then(TsBytes(dt), Then(Ok([st]), PiTail(pi, tail)))))),
                  old(w.Written()), w.b.Length, ok, w.Written())
  {
    hide Wrote, Then, AddrBytes, TsBytes, PiTail;
    ghost var w0, end := w.Written(), Then(TsBytes(dt), Then(Ok([st]), PiTail(pi, tail)));
    ok := w.Put8(mr);
    ghost var w1, ok1 := w.Written(), ok;
    if ok {
      ok := w.PutAddr(a);
      ghost var w2, ok2 := w.Written(), ok;
      if ok {
        ok := w.PutTs(scts);
        ghost var w3, ok3 := w.Written(), ok;
        if ok {
          ok := w.PutTs(dt);
          ghost var w4, ok4 := w.Written(), ok;
          if ok {
            ok := w.Put8(st);
            ghost var w5, ok5 := w.Written(), ok;
            if ok { ok := PutPiTail(w, pi, tail); }
            WroteThen(Ok([st]), PiTail(pi, tail), w4, w5, w.Written(), w.b.Length, ok5, ok);
          }
          WroteThen(TsBytes(dt), Then(Ok([st]), PiTail(pi, tail)), w3, w4, w.Written(), w.b.Length, ok4, ok);
        }
        WroteThen(TsBytes(scts), end, w2, w3, w.Written(), w.b.Length, ok3, ok);
      }
      WroteThen(AddrBytes(a), Then(TsBytes(scts), end), w1, w2, w.Written(), w.b.Length, ok2, ok);
    }
    WroteThen(Ok([mr]), Then(AddrBytes(a), Then(TsBytes(scts), end)), w0, w1, w.Written(), w.b.Length, ok1, ok);
  }

  method PutCd(w: Writer, cd: bytes) returns (ok: bool)
    requires w.Valid()
    modifies w, w.b
    ensures w.Valid() && Wrote(CdBytes(cd), old(w.Written()), w.b.Length, ok, w.Written())
  {
    if |cd| > CD_MAX { return false; }
    ok := w.Copy([|cd|] + cd);
  }

  method PutCommand(w: Writer, mr: byte, pid: byte, ct: byte, mn: byte, a: Addr, cd: bytes) returns (ok: bool)
    requires w.Valid()
    modifies w, w.b
    ensures w.Valid()
    ensures Wrote(Then(Ok([mr]), Then(Ok([pid]), Then(Ok([ct]), Then(Ok([mn]), Then(AddrBytes(a), CdBytes(cd)))))),
                  old(w.Written()), w.b.Length, ok, w.Written())
  {
    hide Wrote, Then, AddrBytes, CdBytes;
    ghost var w0, end := w.Written(), Then(Ok([mn]), Then(AddrBytes(a), CdBytes(cd)));
    ok := w.Put8(mr);
    ghost var w1, ok1 := w.Written(), ok;
    if ok {
      ok := w.Put8(pid);
      ghost var w2, ok2 := w.Written(), ok;
      if ok {
        ok := w.Put8(ct);
        ghost var w3, ok3 := w.Written(), ok;
        if ok {
          ok := w.Put8(mn);
          ghost var w4, ok4 := w.Written(), ok;
          if ok {
            ok := w.PutAddr(a);
            ghost var w5, ok5 := w.Written(), ok;
            if ok { ok := PutCd(w, cd); }
            WroteThen(AddrBytes(a), CdBytes(cd), w4, w5, w.Written(), w.b.Length, ok5, ok);
          }
          WroteThen(Ok([mn]), Then(AddrBytes(a), CdBytes(cd)), w3, w4, w.Written(), w.b.Length, ok4, ok);
        }
        WroteThen(Ok([ct]), end, w2, w3, w.Written(), w.b.Length, ok3, ok);
      }
      WroteThen(Ok([pid]), Then(Ok([ct]), end), w1, w2, w.Written(), w.b.Length, ok2, ok);
    }
    WroteThen(Ok([mr]), Then(Ok([pid]), Then(Ok([ct]), end)), w0, w1, w.Written(), w.b.Length, ok1, ok);
  }

  /** Both reports; only a submit report has a timestamp. */
  method PutReport(w: Writer, fcs: Option<byte>, ind: byte, scts: Option<Ts>, tail: Tail) returns (ok: bool)
    requires w.Valid()
    modifies w, w.b
    ensures w.Valid()
    ensures Wrote(Then(Ok(OptByte(fcs)), Then(Ok([PiOf(ind, tail)]), if scts.Some? then Then(TsBytes(scts.value), TailBytes(tail)) else TailBytes(tail))),
                  old(w.Written()), w.b.Length, ok, w.Written())
  {
    hide Wrote, Then, TsBytes, TailBytes, PiOf, OptByte;
    ghost var w0, end := w.Written(), if scts.Some? then Then(TsBytes(scts.value), TailBytes(tail)) else TailBytes(tail);
    ok := w.PutOpt(fcs);
    ghost var w1, ok1 := w.Written(), ok;
    if ok {
      ok := w.Put8(PiOf(ind, tail));
      ghost var w2, ok2 := w.Written(), ok;
      if ok {
        if scts.Some? {
          ok := w.PutTs(scts.value);
          ghost var w3, ok3 := w.Written(), ok;
          if ok { ok := w.PutTail(tail); }
          WroteThen(TsBytes(scts.value), TailBytes(tail), w2, w3, w.Written(), w.b.Length, ok3, ok);
        } else {
          ok := w.PutTail(tail);
        }
      }
      WroteThen(Ok([PiOf(ind, tail)]), end, w1, w2, w.Written(), w.b.Length, ok2, ok);
    }
    WroteThen(Ok(OptByte(fcs)), Then(Ok([PiOf(ind, tail)]), end), w0, w1, w.Written(), w.b.Length, ok1, ok);
  }

  // ---------- the digit loop ----------

  lemma SemiLength(d: bytes)
    ensures Semi(d).Ok? ==> |Semi(d).val| == (|d| + 1) / 2
    decreases |d|
  {
    if d != [] { SemiLength(if |d| == 1 then [] else d[2..]); }
  }

  function After(done: bytes, r: Res<bytes>): Res<bytes> {
    match r case Fail(e) => Fail(e) case Ok(b) => Ok(done + b)
  }

  lemma AfterMore(done: bytes, x: byte, r: Res<bytes>)
    ensures After(done, After([x], r)) == After(done + [x], r)
  {
    if r.Ok? { assert done + ([x] + r.val) == (done + [x]) + r.val; }
  }

  /** The digits after the first i pairs. */
  function Left(d: bytes, i: nat): bytes { if 2 * i <= |d| then d[2 * i..] else [] }

  /** The first i octets are written, and the rest depends on the rest of the digits. */
  ghost predicate SemiFrom(d: bytes, i: nat, done: bytes) {
    Semi(d) == After(done, Semi(Left(d, i)))
  }

  /** The octet of digits 2i and 2i + 1. */
  function Pair(d: bytes, i: nat): Option<byte>
    requires 2 * i < |d|
  {
    var hi := if 2 * i + 1 < |d| then Nibble(d[2 * i + 1]) else Some(15);
    if Nibble(d[2 * i]).None? || hi.None? then None else Some(hi.value * 16 + Nibble(d[2 * i]).value)
  }

  lemma SemiSplit(d: bytes)
    requires d != []
    ensures Pair(d, 0).None? ==> Semi(d).Fail?
    ensures Pair(d, 0).Some? ==> Semi(d) == After([Pair(d, 0).value], Semi(Left(d, 1)))
  {
    hide Nibble;
  }

  lemma LeftPair(d: bytes, i: nat)
    requires 2 * i < |d|
    ensures Left(d, i) != [] && Pair(Left(d, i), 0) == Pair(d, i) && Left(Left(d, i), 1) == Left(d, i + 1)
  {
    hide Nibble;
  }

  lemma SemiMore(d: bytes, i: nat, done: bytes)
    requires SemiFrom(d, i, done) && 2 * i < |d|
    ensures Pair(d, i).None? ==> Semi(d).Fail?
    ensures Pair(d, i).Some? ==> SemiFrom(d, i + 1, done + [Pair(d, i).value])
  {
    LeftPair(d, i);
    SemiSplit(Left(d, i));
    if Pair(d, i).Some? {
      hide Pair, Semi, Left, After;
      AfterMore(done, Pair(d, i).value, Semi(Left(d, i + 1)));
    }
  }

  /** The digit loop of sms_addr_encode. */
  method DigitOctets(d: bytes) returns (r: Option<bytes>)
    ensures r == match Semi(d) case Fail(_) => None case Ok(b) => Some(b)
  {
    hide Semi, Nibble, SemiFrom;
    var out: bytes, i := [], 0;
    SemiBegins(d);
    while 2 * i < |d|
      invariant 0 <= i && SemiFrom(d, i, out)
    {
      SemiMore(d, i, out);
      var lo, hi := Nibble(d[2 * i]), Some(15);
      if 2 * i + 1 < |d| { hi := Nibble(d[2 * i + 1]); }
      if lo.None? || hi.None? { return None; }
      NibbleBound(d[2 * i]);
      if 2 * i + 1 < |d| { NibbleBound(d[2 * i + 1]); }
      out := out + [hi.value * 16 + lo.value];
      i := i + 1;
    }
    SemiEnds(d, i, out);
    return Some(out);
  }

  lemma SemiBegins(d: bytes)
    ensures SemiFrom(d, 0, [])
  {
    assert d[0..] == d;
    if Semi(d).Ok? { assert [] + Semi(d).val == Semi(d).val; }
  }

  lemma SemiEnds(d: bytes, i: nat, done: bytes)
    requires SemiFrom(d, i, done) && 2 * i >= |d|
    ensures Semi(d) == Ok(done)
  {
    SemiNone();
    assert done + [] == done;
  }
}
