/** TP-UD to and from UTF-8 in the three alphabets (sms_ud_from_utf8, sms_ud_to_utf8) and the
    concatenation header (sms_concat_udh, sms_concat_get), from sms/src/sms_ud.c. */
module SmsUserData {
  import opened Basics
  import opened SmsPack
  import opened SmsText

  const UD_MAX := 140
  const SEPTETS_MAX := 162   // the septet buffer: UD_MAX * 8 / 7 + 2

  datatype Alphabet = Default | EightBit | Ucs2 | Reserved

  /** The alphabet a data coding scheme selects (sms_dcs_decode). */
  function AlphabetOf(dcs: byte): Alphabet {
    var group := dcs / 16;
    if group <= 7 then
      if dcs / 32 % 2 == 1 then Reserved
      else [Default, EightBit, Ucs2, Reserved][dcs / 4 % 4]
    else if 0xC <= group <= 0xE then if group == 0xE then Ucs2 else Default
    else if group == 0xF then if dcs / 4 % 2 == 1 then EightBit else Default
    else Reserved
  }

  /** sms_dcs_make without a message class. */
  function Dcs(a: Alphabet): byte {
    match a case EightBit => 4 case Ucs2 => 8 case _ => 0
  }

  /** The data coding groups of section 4 of TS 23.038, built up from their bits: the general groups
      with a compression bit, a bit for a class, an alphabet and a class; the reserved groups; message
      waiting, in the default alphabet or in UCS2; and data coding with a class. */
  lemma DcsGroups(auto: bool, compressed: bool, classed: bool, alphabet: nat, class_: nat)
    requires alphabet < 4 && class_ < 4
    ensures var dcs := (if auto then 0x40 else 0) + (if compressed then 0x20 else 0) + (if classed then 0x10 else 0)
                       + 4 * alphabet + class_;
            AlphabetOf(dcs) == if compressed || alphabet == 3 then Reserved
                               else if alphabet == 0 then Default else if alphabet == 1 then EightBit else Ucs2
  {
  }

  lemma DcsHighGroups(low: nat)
    requires low < 16
    ensures AlphabetOf(0x80 + low) == AlphabetOf(0x90 + low) == AlphabetOf(0xA0 + low) == AlphabetOf(0xB0 + low) == Reserved
    ensures AlphabetOf(0xC0 + low) == AlphabetOf(0xD0 + low) == Default && AlphabetOf(0xE0 + low) == Ucs2
    ensures AlphabetOf(0xF0 + low) == if low % 8 < 4 then Default else EightBit
  {
  }

  lemma DcsSelects(a: Alphabet)
    requires a != Reserved
    ensures AlphabetOf(Dcs(a)) == a
  {
  }

  // ---------- characters and their codes ----------

  /** Whether an alphabet has the character. In 8-bit data a character is an octet. */
  predicate Holds(a: Alphabet, c: nat) {
    match a
    case Default => Scalar(c) && Gsm7(c).Some?
    case EightBit => c < 256
    case Ucs2 => Scalar(c)
    case Reserved => false
  }

  function Text1(a: Alphabet, c: nat): (r: bytes)
    requires Holds(a, c)
    ensures |r| >= 1
  {
    if a == EightBit then [c] else Utf8(c)
  }

  /** The wire units of a character: septets, or octets. */
  function Code1(a: Alphabet, c: nat): (r: bytes)
    requires Holds(a, c)
    ensures 1 <= |r| <= 4
    ensures a == Default ==> forall i :: 0 <= i < |r| ==> r[i] < 128
  {
    match a
    case Default => Gsm7(c).value
    case EightBit => [c]
    case Ucs2 => Utf16(c)
  }

  predicate AllHeld(a: Alphabet, cs: seq<nat>) {
    forall i :: 0 <= i < |cs| ==> Holds(a, cs[i])
  }

  function Text(a: Alphabet, cs: seq<nat>): bytes
    requires AllHeld(a, cs)
  {
    if cs == [] then [] else Text1(a, cs[0]) + Text(a, cs[1..])
  }

  function Code(a: Alphabet, cs: seq<nat>): (r: bytes)
    requires AllHeld(a, cs)
    ensures a == Default ==> forall i :: 0 <= i < |r| ==> r[i] < 128
  {
    if cs == [] then [] else Code1(a, cs[0]) + Code(a, cs[1..])
  }

  lemma Grouped(x: bytes, y: bytes, z: bytes)
    ensures x + (y + z) == (x + y) + z
  {
  }

  lemma CodeHead(a: Alphabet, cs: seq<nat>)
    requires cs != [] && AllHeld(a, cs)
    ensures AllHeld(a, cs[1..]) && Holds(a, cs[0])
    ensures Code(a, cs) == Code1(a, cs[0]) + Code(a, cs[1..]) && Text(a, cs) == Text1(a, cs[0]) + Text(a, cs[1..])
  {
    hide Code1, Text1, Holds;
  }

  lemma {:induction false} CodeSplit(a: Alphabet, xs: seq<nat>, ys: seq<nat>)
    requires AllHeld(a, xs) && AllHeld(a, ys)
    ensures AllHeld(a, xs + ys)
    ensures Code(a, xs + ys) == Code(a, xs) + Code(a, ys)
    ensures Text(a, xs + ys) == Text(a, xs) + Text(a, ys)
    decreases |xs|
  {
    if xs == [] {
      assert xs + ys == ys;
      hide Code1, Text1, Holds;
    } else {
      var zs := xs + ys;
      assert zs[1..] == xs[1..] + ys && zs[0] == xs[0];
      hide Code, Text, Holds, Code1, Text1;
      CodeSplit(a, xs[1..], ys);
      CodeHead(a, xs);
      CodeHead(a, zs);
      Grouped(Code1(a, xs[0]), Code(a, xs[1..]), Code(a, ys));
      Grouped(Text1(a, xs[0]), Text(a, xs[1..]), Text(a, ys));
    }
  }

  /** The text a run of wire units shows. */
  function Shown(a: Alphabet, code: bytes): bytes
    requires a == Default ==> forall i :: 0 <= i < |code| ==> code[i] < 128
  {
    match a
    case Default => SeptetText(code)
    case EightBit => code
    case Ucs2 => Utf16Text(code)
    case Reserved => []
  }

  lemma Code1Reads(a: Alphabet, c: nat, rest: bytes)
    requires Holds(a, c)
    requires a == Default ==> forall i :: 0 <= i < |rest| ==> rest[i] < 128
    ensures Shown(a, Code1(a, c) + rest) == Text1(a, c) + Shown(a, rest)
  {
    hide Utf8, Gsm7, Utf16, SeptetText, Utf16Text;
    match a {
      case Default => Gsm7Reads(c, rest);
      case EightBit =>
      case Ucs2 => Utf16Reads(c, rest);
    }
  }

  /** Wire units show the text they were made from. */
  lemma {:induction false} CodeReads(a: Alphabet, cs: seq<nat>)
    requires AllHeld(a, cs) && a != Reserved
    ensures Shown(a, Code(a, cs)) == Text(a, cs)
    decreases |cs|
  {
    if cs != [] {
      hide Code1, Text1, Shown;
      CodeReads(a, cs[1..]);
      Code1Reads(a, cs[0], Code(a, cs[1..]));
    }
  }

  /** The character at s[i..], and where the next one starts. */
  function CharAt(a: Alphabet, s: bytes, i: nat): (r: Res<Chr>)
    requires i < |s|
    ensures r.Ok? ==> Holds(a, r.val.cp) && i < r.val.next <= |s|
  {
    if a == EightBit then Ok(Chr(s[i], i + 1)) else
    match Next(s, i)
    case None => Fail(Inval)
    case Some(x) => if Holds(a, x.cp) then Ok(x) else Fail(Alphabet)
  }

  lemma CharAtText(a: Alphabet, s: bytes, i: nat)
    requires i < |s| && CharAt(a, s, i).Ok?
    ensures var x := CharAt(a, s, i).val; s[i..x.next] == Text1(a, x.cp)
  {
    hide Next, Utf8, Gsm7;
    if a == EightBit {
      assert s[i..i+1] == [s[i]];
    } else {
      NextIsCanonical(s, i);
    }
  }

  /** All characters from i on, or the first fault. */
  function Chars(a: Alphabet, s: bytes, i: nat): (r: Res<seq<nat>>)
    requires i <= |s|
    ensures r.Ok? ==> AllHeld(a, r.val)
    decreases |s| - i
  {
    if i == |s| then Ok([]) else
    match CharAt(a, s, i)
    case Fail(e) => Fail(e)
    case Ok(x) =>
      match Chars(a, s, x.next)
      case Fail(e) => Fail(e)
      case Ok(cs) => Ok([x.cp] + cs)
  }

  /** Reading the characters loses nothing of the text. */
  lemma {:induction false} CharsText(a: Alphabet, s: bytes, i: nat)
    requires i <= |s| && Chars(a, s, i).Ok?
    ensures Text(a, Chars(a, s, i).val) == s[i..]
    decreases |s| - i
  {
    if i < |s| {
      hide CharAt, Text1, Holds, Chars, Text, Code, Code1;
      CharsSplit(a, s, i);
      var x, cs := CharAt(a, s, i).val, Chars(a, s, i).val;
      CharsText(a, s, x.next);
      CharAtText(a, s, i);
      assert cs[0] == x.cp && cs[1..] == Chars(a, s, x.next).val;
      CodeHead(a, cs);
      assert s[i..] == s[i..x.next] + s[x.next..];
    }
  }

  /** A walk that has read `done` and stands at i. */
  ghost predicate Walked(a: Alphabet, s: bytes, i: nat, done: seq<nat>) {
    && i <= |s| && AllHeld(a, done)
    && Chars(a, s, 0) == After(done, Chars(a, s, i))
  }

  function After(done: seq<nat>, r: Res<seq<nat>>): Res<seq<nat>> {
    match r case Fail(e) => Fail(e) case Ok(cs) => Ok(done + cs)
  }

  lemma AfterMore(done: seq<nat>, c: nat, r: Res<seq<nat>>)
    ensures After(done, After([c], r)) == After(done + [c], r)
  {
    if r.Ok? { assert done + ([c] + r.val) == (done + [c]) + r.val; }
  }

  /** One unfolding of Chars. */
  lemma CharsSplit(a: Alphabet, s: bytes, i: nat)
    requires i < |s|
    ensures CharAt(a, s, i).Fail? ==> Chars(a, s, i) == Fail(CharAt(a, s, i).err)
    ensures CharAt(a, s, i).Ok? ==>
              var x := CharAt(a, s, i).val;
              Chars(a, s, i) == After([x.cp], Chars(a, s, x.next))
  {
    hide CharAt;
  }

  lemma WalkStep(a: Alphabet, s: bytes, i: nat, done: seq<nat>)
    requires Walked(a, s, i, done) && i < |s|
    ensures CharAt(a, s, i).Fail? ==> Chars(a, s, 0) == Fail(CharAt(a, s, i).err)
    ensures CharAt(a, s, i).Ok? ==>
              var x := CharAt(a, s, i).val;
              && Walked(a, s, x.next, done + [x.cp])
              && Code(a, done + [x.cp]) == Code(a, done) + Code1(a, x.cp)
  {
    CharsSplit(a, s, i);
    if CharAt(a, s, i).Ok? {
      var x := CharAt(a, s, i).val;
      hide CharAt, Chars, Code, Code1, Holds, After, Text;
      AfterMore(done, x.cp, Chars(a, s, x.next));
      CodeOne(a, x.cp);
      CodeSplit(a, done, [x.cp]);
    }
  }

  lemma CodeOne(a: Alphabet, c: nat)
    requires Holds(a, c)
    ensures Code(a, [c]) == Code1(a, c) && Text(a, [c]) == Text1(a, c)
  {
    hide Holds, Code1, Text1;
    assert [c][1..] == [];
    assert Code1(a, c) + [] == Code1(a, c) && Text1(a, c) + [] == Text1(a, c);
  }

  /** Where the walk ends, it has read everything. */
  lemma WalkEnds(a: Alphabet, s: bytes, done: seq<nat>)
    requires Walked(a, s, |s|, done)
    ensures Chars(a, s, 0) == Ok(done)
  {
    assert done + [] == done;
  }

  /** What is still to come only adds to the code. */
  lemma WalkGrows(a: Alphabet, s: bytes, i: nat, done: seq<nat>)
    requires Walked(a, s, i, done)
    ensures Chars(a, s, 0).Ok? ==> |Code(a, Chars(a, s, 0).val)| >= |Code(a, done)|
  {
    hide Code, CharAt;
    if Chars(a, s, 0).Ok? {
      CodeSplit(a, done, Chars(a, s, i).val);
    }
  }

  /** How a conversion to at most cap wire units comes out. */
  ghost predicate Coded(a: Alphabet, s: bytes, cap: nat, r: Res<bytes>) {
    match r
    case Ok(code) => Chars(a, s, 0).Ok? && code == Code(a, Chars(a, s, 0).val) && |code| <= cap
    case Fail(Overflow) => Chars(a, s, 0).Ok? ==> |Code(a, Chars(a, s, 0).val)| > cap
    case Fail(e) => Chars(a, s, 0) == Fail(e)
  }

  /** sms_gsm7_from_utf8. */
  method SeptetsOf(s: bytes, cap: nat) returns (r: Res<bytes>)
    ensures Coded(Default, s, cap, r)
  {
    hide Next, Gsm7, Chars, Code;
    var i, out: bytes := 0, [];
    ghost var done: seq<nat> := [];
    CodeEmpty(Default, s);
    while i < |s|
      invariant Walked(Default, s, i, done)
      invariant out == Code(Default, done) && |out| <= cap
      decreases |s| - i
    {
      WalkStep(Default, s, i, done);
      var c := Next(s, i);
      if c.None? { return Fail(Inval); }
      var g := Gsm7(c.value.cp);
      if g.None? { return Fail(Alphabet); }
      WalkGrows(Default, s, c.value.next, done + [c.value.cp]);
      if |out| + |g.value| > cap { return Fail(Overflow); }
      out := out + g.value;
      done := done + [c.value.cp];
      i := c.value.next;
    }
    WalkEnds(Default, s, done);
    return Ok(out);
  }

  lemma CodeEmpty(a: Alphabet, s: bytes)
    ensures Walked(a, s, 0, []) && Code(a, []) == []
  {
    if Chars(a, s, 0).Ok? {
      assert [] + Chars(a, s, 0).val == Chars(a, s, 0).val;
    }
  }

  /** The UTF-16 loop of sms_ud_from_utf8; the header already takes `used` octets. */
  method Utf16Of(s: bytes, used: nat, cap: nat) returns (r: Res<bytes>)
    requires used <= UD_MAX && used <= cap
    ensures r == Fail(Length) ==> Coded(Ucs2, s, UD_MAX - used, Fail(Overflow))
    ensures r != Fail(Length) ==> Coded(Ucs2, s, cap - used, r)
    ensures r.Ok? ==> used + |r.val| <= UD_MAX
  {
    hide Next, Utf16, Chars, Code;
    var i, out: bytes := 0, [];
    ghost var done: seq<nat> := [];
    CodeEmpty(Ucs2, s);
    while i < |s|
      invariant Walked(Ucs2, s, i, done)
      invariant out == Code(Ucs2, done) && used + |out| <= cap && used + |out| <= UD_MAX
      decreases |s| - i
    {
      WalkStep(Ucs2, s, i, done);
      var c := Next(s, i);
      if c.None? { return Fail(Inval); }
      WalkGrows(Ucs2, s, c.value.next, done + [c.value.cp]);
      var u := Utf16(c.value.cp);
      if used + |out| + |u| > cap { return Fail(Overflow); }
      if used + |out| + |u| > UD_MAX { return Fail(Length); }
      out := out + u;
      done := done + [c.value.cp];
      i := c.value.next;
    }
    WalkEnds(Ucs2, s, done);
    return Ok(out);
  }

  // ---------- one TP-UD ----------

  datatype Ud = Ud(octets: bytes, udl: nat, dcs: byte)

  /** UDHL, when there is a header, counts the octets after itself. */
  predicate HeaderOk(h: bytes) { h == [] || h[0] == |h| - 1 }

  function Zeros(n: nat): (r: bytes)
    ensures |r| == n
  {
    if n == 0 then [] else Zeros(n - 1) + [0]
  }

  /** Octets of a TP-UD with a header of h octets and n wire units. */
  function Size(a: Alphabet, h: nat, n: nat): nat {
    if a == Default then Octets(SeptetOff(h) + n) else h + n
  }

  /** Header and code as one run: packed septets after fill bits, or plain octets. */
  function UdOf(a: Alphabet, h: bytes, code: bytes): Ud
    requires a == Default ==> forall i :: 0 <= i < |code| ==> code[i] < 128
  {
    if a == Default then
      var off := SeptetOff(|h|);
      HeaderFits(|h|, |code|);
      Ud(Packed(h + Zeros(Octets(off + |code|) - |h|), off, code), off + |code|, Dcs(a))
    else Ud(h + code, |h| + |code|, Dcs(a))
  }

  lemma HeaderFits(h: nat, n: nat)
    ensures h <= Octets(SeptetOff(h) + n)
  {
  }

  /** The alphabet a request selects; None is SMS_ALPHA_AUTO. */
  function Chosen(want: Option<Alphabet>, s: bytes): Alphabet {
    match want
    case Some(a) => a
    case None => if Chars(Default, s, 0).Ok? then Default else Ucs2
  }

  /** How building a TP-UD in alphabet a comes out. */
  ghost predicate Built(a: Alphabet, s: bytes, h: bytes, cap: nat, r: Res<Ud>) {
    var cs := Chars(a, s, 0);
    match r
    case Ok(ud) => a != Reserved && cs.Ok? && ud == UdOf(a, h, Code(a, cs.val)) && |ud.octets| <= UD_MAX && |ud.octets| <= cap
    case Fail(Length) => a != Reserved && (cs.Ok? ==> Size(a, |h|, |Code(a, cs.val)|) > UD_MAX)
    case Fail(Overflow) => |h| > cap || (a != Reserved && (cs.Ok? ==> Size(a, |h|, |Code(a, cs.val)|) > cap))
    case Fail(e) => if a == Reserved then e == Alphabet else cs == Fail(e)
  }

  /** The septet half of sms_ud_from_utf8. */
  method DefaultUd(s: bytes, h: bytes, cap: nat) returns (r: Res<Ud>)
    requires |h| <= UD_MAX && |h| <= cap
    ensures Built(Default, s, h, cap, r)
  {
    hide Chars, Code, Packed, Gsm7;
    var sep := SeptetsOf(s, SEPTETS_MAX);
    if sep == Fail(Overflow) { return Fail(Length); }
    if sep.Fail? { return Fail(sep.err); }
    var off := SeptetOff(|h|);
    var total := off + |sep.val|;
    if total > 255 { return Fail(Length); }
    var octets := (total * 7 + 7) / 8;
    if octets > UD_MAX { return Fail(Length); }
    if octets > cap { return Fail(Overflow); }
    var out := new byte[octets];
    var clear := h + Zeros(octets - |h|);
    forall i | 0 <= i < octets { out[i] := clear[i]; }
    assert out[..] == clear;
    var n := Pack(sep.val, off, out);
    assert n.Ok?;
    return Ok(Ud(out[..], total, Dcs(Default)));
  }

  /** sms_ud_from_utf8. */
  method UdFrom(s: bytes, want: Option<Alphabet>, h: bytes, cap: nat) returns (r: Res<Ud>)
    ensures !HeaderOk(h) ==> r == Fail(Inval)
    ensures HeaderOk(h) && |h| > UD_MAX ==> r == Fail(Length)
    ensures HeaderOk(h) && |h| <= UD_MAX ==> Built(Chosen(want, s), s, h, cap, r)
  {
    hide Chars, Code, Packed;
    if |h| > 0 && h[0] != |h| - 1 { return Fail(Inval); }
    if |h| > UD_MAX { return Fail(Length); }
    var a: Alphabet;
    match want {
      case Some(x) => a := x;
      case None =>
        var n := CountSeptets(s);
        a := if n.Ok? then Default else Ucs2;
    }
    if |h| > cap { return Fail(Overflow); }
    match a {
      case Default => r := DefaultUd(s, h, cap);
      case Ucs2 =>
        var code := Utf16Of(s, |h|, cap);
        r := match code case Ok(u) => Ok(Ud(h + u, |h| + |u|, Dcs(Ucs2))) case Fail(e) => Fail(e);
      case EightBit =>
        EightBitChars(s, 0);
        if |h| + |s| > UD_MAX { return Fail(Length); }
        if |h| + |s| > cap { return Fail(Overflow); }
        r := Ok(Ud(h + s, |h| + |s|, Dcs(EightBit)));
      case Reserved => r := Fail(Alphabet);
    }
  }

  /** sms_gsm7_septets. */
  method CountSeptets(s: bytes) returns (r: Res<nat>)
    ensures r == match Chars(Default, s, 0) case Ok(cs) => Ok(|Code(Default, cs)|) case Fail(e) => Fail(e)
  {
    hide Next, Gsm7, Chars, Code;
    var i, k := 0, 0;
    ghost var done: seq<nat> := [];
    CodeEmpty(Default, s);
    while i < |s|
      invariant Walked(Default, s, i, done) && k == |Code(Default, done)|
      decreases |s| - i
    {
      WalkStep(Default, s, i, done);
      var c := Next(s, i);
      if c.None? { return Fail(Inval); }
      var g := Gsm7(c.value.cp);
      if g.None? { return Fail(Alphabet); }
      k := k + |g.value|;
      done := done + [c.value.cp];
      i := c.value.next;
    }
    WalkEnds(Default, s, done);
    return Ok(k);
  }

  /** 8-bit data always converts, to itself. */
  lemma {:induction false} EightBitChars(s: bytes, i: nat)
    requires i <= |s|
    ensures Chars(EightBit, s, i).Ok?
    ensures Code(EightBit, Chars(EightBit, s, i).val) == s[i..]
    decreases |s| - i
  {
    if i < |s| {
      EightBitChars(s, i + 1);
      var cs := Chars(EightBit, s, i).val;
      assert cs[1..] == Chars(EightBit, s, i + 1).val;
      assert s[i..] == [s[i]] + s[i+1..];
    }
  }

  /** sms_udh_len: the header's octets with UDHL itself, 0 when it claims more than there is. */
  function HeaderLen(ud: bytes): (n: nat)
    ensures n <= |ud|
  {
    if ud == [] || ud[0] > |ud| - 1 then 0 else ud[0] as nat + 1
  }

  /** The text in a TP-UD of udl wire units (sms_ud_to_utf8, before it is copied out). */
  function UdText(dcs: byte, udhi: bool, ud: bytes, udl: nat): Res<bytes> {
    var h := if udhi then HeaderLen(ud) else 0;
    if udhi && h == 0 then Fail(Length)
    else if udl == 0 then Ok([])
    else match AlphabetOf(dcs)
    case Reserved => Fail(Alphabet)
    case Default =>
      var off := SeptetOff(h);
      if udl < off || udl - off > SEPTETS_MAX || (udl > off && 7 * udl > 8 * |ud|) then Fail(Length)
      else Ok(SeptetText(Unpacked(ud, off, udl - off)))
    case Ucs2 => if udl > |ud| || udl < h then Fail(Length) else Ok(Utf16Text(ud[h..udl]))
    case EightBit => if udl > |ud| || udl < h then Fail(Length) else Ok(ud[h..udl])
  }

  /** It is read when the header is all there and the wire units start behind it and end in the
      octets, no more than 162 septets of text; a text of no septets may start in the fill bits. */
  lemma UdReadable(dcs: byte, udhi: bool, ud: bytes, udl: nat)
    ensures var h: int := if udhi && ud != [] then 1 + ud[0] as int else 0;
            UdText(dcs, udhi, ud, udl).Ok? <==>
              && (udhi ==> ud != [] && h <= |ud|)
              && (udl == 0 || match AlphabetOf(dcs)
                              case Reserved => false
                              case Default => 8 * h <= 7 * udl && (7 * udl <= 8 * |ud| || 7 * udl < 8 * h + 7) && 7 * (udl - 163) < 8 * h
                              case _ => h <= udl <= |ud|)
  {
    hide AlphabetOf, SeptetText, Unpacked, Utf16Text;
    SeptetOffTight(if udhi then HeaderLen(ud) else 0);
  }

  /** A text in a buffer of cap octets with its terminator. */
  function Fitted(t: bytes, cap: nat): Res<bytes> {
    if |t| + 1 <= cap then Ok(t) else Fail(Overflow)
  }

  /** sms_gsm7_to_utf8. */
  method ShowSeptets(ss: seq<septet>, cap: nat) returns (r: Res<bytes>)
    requires cap > 0
    ensures r == Fitted(SeptetText(ss), cap)
  {
    hide Utf8, Basic, ExtChar;
    var out: bytes, i := [], 0;
    assert ss[0..] == ss;
    while i < |ss|
      invariant 0 <= i <= |ss| && |out| + 1 <= cap
      invariant SeptetText(ss) == out + SeptetText(ss[i..])
    {
      SeptetTextStep(ss, i);
      var u;
      if ss[i] == ESC {
        u := if i + 1 < |ss| then ExtChar(ss[i+1]) else 0x20;
        if i + 1 < |ss| { i := i + 1; }
      } else {
        u := Basic(ss[i]);
      }
      if |out| + 1 >= cap { return Fail(Overflow); }
      var w := Utf8(u);
      if |w| > cap - 1 - |out| { return Fail(Overflow); }
      out := out + w;
      i := i + 1;
    }
    assert out + [] == out;
    return Ok(out);
  }

  lemma SeptetTextStep(ss: seq<septet>, i: nat)
    requires i < |ss|
    ensures ss[i] != ESC ==> SeptetText(ss[i..]) == Utf8(Basic(ss[i])) + SeptetText(ss[i+1..])
    ensures ss[i] == ESC && i + 1 == |ss| ==> SeptetText(ss[i..]) == Utf8(0x20) + SeptetText(ss[i+1..])
    ensures ss[i] == ESC && i + 1 < |ss| ==>
              SeptetText(ss[i..]) == Utf8(ExtChar(ss[i+1])) + SeptetText(ss[i+2..])
  {
    hide Utf8, Basic, ExtChar;
    assert ss[i..][1..] == ss[i+1..];
    if i + 1 < |ss| { assert ss[i..][2..] == ss[i+2..]; }
  }

  /** The UTF-16 loop of sms_ud_to_utf8. */
  method ShowUtf16(p: bytes, cap: nat) returns (r: Res<bytes>)
    requires cap > 0
    ensures r == Fitted(Utf16Text(p), cap)
  {
    hide Utf8, Utf16Text, Word;
    var out: bytes, i := [], 0;
    assert p[0..] == p;
    while i + 1 < |p|
      invariant 0 <= i <= |p| && |out| + 1 <= cap
      invariant Utf16Text(p) == out + Utf16Text(p[i..])
    {
      Utf16TextStep(p, i);
      var u: nat := Word(p, i);
      if 0xD800 <= u <= 0xDBFF && i + 3 < |p| {
        var lo := Word(p, i + 2);
        if 0xDC00 <= lo <= 0xDFFF {
          u := 0x10000 + (u - 0xD800) * 1024 + (lo - 0xDC00);
          i := i + 2;
        }
      }
      if 0xD800 <= u <= 0xDFFF { u := 0xFFFD; }
      if |out| + 1 >= cap { return Fail(Overflow); }
      var w := Utf8(u);
      if |w| > cap - 1 - |out| { return Fail(Overflow); }
      out := out + w;
      i := i + 2;
    }
    Utf16TextEnd(p[i..]);
    assert out + [] == out;
    return Ok(out);
  }

  lemma Utf16TextEnd(p: bytes)
    requires |p| < 2
    ensures Utf16Text(p) == []
  {
  }

  lemma Utf16TextStep(p: bytes, i: nat)
    requires i + 1 < |p|
    ensures var u := Word(p, i);
            var lo := if 0xD800 <= u <= 0xDBFF && i + 3 < |p| then Word(p, i + 2) else 0;
            Utf16Text(p[i..]) ==
              if 0xDC00 <= lo <= 0xDFFF then
                Utf8(0x10000 + (u - 0xD800) * 1024 + (lo - 0xDC00)) + Utf16Text(p[i+4..])
              else Utf8(if 0xD800 <= u <= 0xDFFF then 0xFFFD else u) + Utf16Text(p[i+2..])
  {
    hide Utf8;
    var q := p[i..];
    assert q[2..] == p[i+2..];
    if i + 3 < |p| { assert q[4..] == p[i+4..] && Word(q, 2) == Word(p, i + 2); }
  }

  /** sms_ud_to_utf8. */
  method UdTo(dcs: byte, udhi: bool, ud: bytes, udl: byte, cap: nat) returns (r: Res<bytes>)
    ensures cap == 0 ==> r == Fail(Inval)
    ensures cap > 0 ==>
              r == match UdText(dcs, udhi, ud, udl) case Fail(e) => Fail(e) case Ok(t) => Fitted(t, cap)
  {
    hide SeptetText, Utf16Text, Unpacked, AlphabetOf;
    if cap == 0 { return Fail(Inval); }
    var h := if udhi then HeaderLen(ud) else 0;
    if udhi && h == 0 { return Fail(Length); }
    if udl == 0 { return Ok([]); }
    match AlphabetOf(dcs) {
      case Default =>
        var off := SeptetOff(h);
        if udl < off { return Fail(Length); }
        var count := udl as nat - off;
        if count > SEPTETS_MAX { return Fail(Length); }
        var sep := Unpack(ud, off, count, SEPTETS_MAX);
        if sep.Fail? { return Fail(sep.err); }
        NothingUnpacked(ud, off);
        r := ShowSeptets(sep.val, cap);
      case Ucs2 =>
        if udl > |ud| || udl < h { return Fail(Length); }
        r := ShowUtf16(ud[h..udl], cap);
      case EightBit =>
        if udl > |ud| || udl < h { return Fail(Length); }
        r := Fitted(ud[h..udl], cap);
      case Reserved => r := Fail(Alphabet);
    }
  }

  lemma DefaultRoundTrip(h: bytes, code: bytes)
    requires HeaderOk(h) && Size(Default, |h|, |code|) <= UD_MAX
    requires forall i :: 0 <= i < |code| ==> code[i] < 128
    ensures var ud := UdOf(Default, h, code);
            && |ud.octets| == Size(Default, |h|, |code|)
            && |h| <= |ud.octets| && ud.octets[..|h|] == h
            && (code != [] ==> UdText(ud.dcs, h != [], ud.octets, ud.udl) == Ok(SeptetText(code)))
            && (code == [] ==> UdText(ud.dcs, h != [], ud.octets, ud.udl) == Ok([]))
  {
    hide Packed, Unpacked, SeptetText, Zeros, AlphabetOf, Dcs, HeaderLen, Octets, SeptetOff;
    DcsSelects(Default);
    var ud, off := UdOf(Default, h, code), SeptetOff(|h|);
    SizeBounds(|h|, |code|);
    ZerosLength(Octets(off + |code|) - |h|);
    var b := h + Zeros(Octets(off + |code|) - |h|);
    PackedLength(b, off, code);
    UnpackPacked(b, off, code);
    HeaderUntouched(b, off, code, |h|);
    assert b[..|h|] == h;
    assert ud.octets[..|ud.octets|] == ud.octets;
    EmptyHeader(h, ud.octets);
    if code == [] { NothingUnpacked(ud.octets, off); }
  }

  lemma SizeBounds(h: nat, n: nat)
    ensures h <= Octets(SeptetOff(h) + n) && 8 * h <= 7 * SeptetOff(h)
    ensures 7 * (SeptetOff(h) + n) <= 8 * Octets(SeptetOff(h) + n)
    ensures Octets(SeptetOff(h) + n) <= UD_MAX ==> n <= SEPTETS_MAX
    ensures SeptetOff(h) + n == 0 ==> h == 0
  {
  }

  lemma NothingUnpacked(ud: bytes, off: nat)
    ensures Unpacked(ud, off, 0) == [] && SeptetText([]) == []
  {
  }

  lemma ZerosLength(n: nat)
    ensures |Zeros(n)| == n
  {
  }

  lemma PackedLength(b: bytes, off: nat, s: seq<septet>)
    requires Octets(off + |s|) <= |b|
    ensures |Packed(b, off, s)| == |b|
  {
  }

  lemma OctetRoundTrip(a: Alphabet, h: bytes, code: bytes)
    requires (a == Ucs2 || a == EightBit) && HeaderOk(h) && |h| + |code| <= UD_MAX
    ensures var ud := UdOf(a, h, code);
            && ud.octets[..|h|] == h
            && (h != [] || code != [] ==> UdText(ud.dcs, h != [], ud.octets, ud.udl) == Ok(Shown(a, code)))
            && (h == [] && code == [] ==> UdText(ud.dcs, h != [], ud.octets, ud.udl) == Ok([]))
  {
    hide Utf16Text, SeptetText, Unpacked, Packed, AlphabetOf, Dcs, HeaderLen, SeptetOff;
    var ud := UdOf(a, h, code);
    DcsSelects(a);
    assert ud.octets[..|h|] == h;
    EmptyHeader(h, ud.octets);
    assert ud.octets[|h|..ud.udl] == code;
  }

  /** A TP-UD that fits a message starts with its header and reads back as its text. */
  lemma UdRoundTrip(a: Alphabet, h: bytes, cs: seq<nat>)
    requires a != Reserved && HeaderOk(h) && AllHeld(a, cs) && Size(a, |h|, |Code(a, cs)|) <= UD_MAX
    ensures var ud := UdOf(a, h, Code(a, cs));
            && |ud.octets| == Size(a, |h|, |Code(a, cs)|)
            && |h| <= |ud.octets| && ud.octets[..|h|] == h
            && UdText(ud.dcs, h != [], ud.octets, ud.udl) == Ok(Text(a, cs))
  {
    hide Text, UdText, SeptetText, Utf16Text, Packed;
    CodeReads(a, cs);
    if a == Default {
      DefaultRoundTrip(h, Code(a, cs));
    } else {
      OctetRoundTrip(a, h, Code(a, cs));
    }
    if Code(a, cs) == [] { EmptyText(a, cs); }
  }

  lemma EmptyHeader(h: bytes, o: bytes)
    requires HeaderOk(h) && |h| <= |o| && o[..|h|] == h
    ensures (if h != [] then HeaderLen(o) else 0) == |h|
  {
    if h != [] { assert o[0] == o[..|h|][0] == h[0]; }
  }

  lemma EmptyText(a: Alphabet, cs: seq<nat>)
    requires AllHeld(a, cs) && Code(a, cs) == []
    ensures Text(a, cs) == []
  {
  }

  // ---------- the concatenation header ----------

  datatype Concat = Concat(ref: nat, total: byte, seq_: byte, ref16: bool)

  /** sms_concat_udh. */
  function ConcatHeader(c: Concat, cap: nat): Res<bytes>
    requires c.ref < 0x10000
  {
    if c.total == 0 || c.seq_ == 0 || c.seq_ > c.total then Fail(Inval)
    else if cap < (if c.ref16 then 7 else 6) then Fail(Overflow)
    else if c.ref16 then Ok([6, 8, 4, c.ref / 256, c.ref % 256, c.total, c.seq_])
    else Ok([5, 0, 3, c.ref % 256, c.total, c.seq_])
  }

  /** The first concatenation element among the information elements in ud[off..end]. */
  function FindConcat(ud: bytes, off: nat, end: nat): Option<Concat>
    requires end <= |ud|
    decreases end - off
  {
    if off + 2 > end || off + 2 + ud[off + 1] > end then None
    else
      var iei, len, d := ud[off], ud[off + 1], off + 2;
      if iei == 0 && len == 3 then Some(Concat(ud[d], ud[d + 1], ud[d + 2], false))
      else if iei == 8 && len == 4 then Some(Concat(Word(ud, d), ud[d + 2], ud[d + 3], true))
      else FindConcat(ud, d + len, end)
  }

  /** sms_concat_get, walking the elements with sms_udh_next. */
  method ConcatGet(ud: bytes) returns (r: Option<Concat>)
    ensures r == FindConcat(ud, 1, HeaderLen(ud))
  {
    var end := HeaderLen(ud);
    if end <= 1 { return None; }
    var off: nat := 1;
    while off + 2 <= end && off + 2 + ud[off + 1] <= end
      invariant 1 <= off
      invariant FindConcat(ud, 1, end) == FindConcat(ud, off, end)
      decreases end - off
    {
      var iei, len, d := ud[off], ud[off + 1], off + 2;
      if iei == 0 && len == 3 { return Some(Concat(ud[d], ud[d + 1], ud[d + 2], false)); }
      if iei == 8 && len == 4 { return Some(Concat(Word(ud, d), ud[d + 2], ud[d + 3], true)); }
      off := d + len as nat;
    }
    return None;
  }

  /** What a written concatenation header says, whatever run it starts; an 8-bit reference is
      the low octet of the one given. */
  lemma ConcatRoundTrip(c: Concat, cap: nat, ud: bytes)
    requires c.ref < 0x10000 && ConcatHeader(c, cap).Ok?
    requires var h := ConcatHeader(c, cap).val; |h| <= |ud| && ud[..|h|] == h
    ensures HeaderOk(ConcatHeader(c, cap).val)
    ensures FindConcat(ud, 1, HeaderLen(ud))
            == Some(if c.ref16 then c else c.(ref := c.ref % 256))
  {
    var h := ConcatHeader(c, cap).val;
    assert forall k :: 0 <= k < |h| ==> ud[k] == ud[..|h|][k] == h[k];
    assert ud[0] == h[0] && ud[1] == h[1] && ud[2] == h[2] && ud[3] == h[3] && ud[4] == h[4] && ud[5] == h[5];
    if c.ref16 { assert ud[6] == h[6]; }
  }

  datatype Element = Element(id: byte, data: bytes)

  function ElementBytes(es: seq<Element>): bytes
    requires forall e :: e in es ==> |e.data| < 256
  {
    if es == [] then [] else [es[0].id, |es[0].data|] + es[0].data + ElementBytes(es[1..])
  }

  /** The first element that is a concatenation with an 8-bit or a 16-bit reference. */
  function FirstConcat(es: seq<Element>): Option<Concat> {
    if es == [] then None else
    var d := es[0].data;
    if es[0].id == 0 && |d| == 3 then Some(Concat(d[0], d[1], d[2], false))
    else if es[0].id == 8 && |d| == 4 then Some(Concat(d[0] as int * 256 + d[1], d[2], d[3], true))
    else FirstConcat(es[1..])
  }

  lemma ElementAt(ud: bytes, off: nat, end: nat, id: byte, d: bytes, more: bytes)
    requires off <= end <= |ud| && |d| < 256 && ud[off..end] == [id, |d|] + d + more
    ensures off + 2 + |d| <= end && ud[off] == id && ud[off + 1] == |d| && ud[off + 2..off + 2 + |d|] == d
    ensures ud[off + 2 + |d|..end] == more
  {
    var s := ud[off..end];
    assert s[0] == id && s[1] == |d| && s[2..2 + |d|] == d && s[2 + |d|..] == more;
    forall k | 0 <= k < |d| ensures ud[off + 2..off + 2 + |d|][k] == d[k] { assert s[2 + k] == d[k]; }
  }

  /** Among any elements, and before an element cut off by the end of the header, the first
      concatenation is found. */
  lemma {:induction false} ConcatAmong(ud: bytes, off: nat, end: nat, es: seq<Element>, cut: bytes)
    requires off <= end <= |ud| && forall e :: e in es ==> |e.data| < 256
    requires ud[off..end] == ElementBytes(es) + cut && (|cut| < 2 || |cut| < 2 + cut[1] as int)
    ensures FindConcat(ud, off, end) == FirstConcat(es)
    decreases |es|
  {
    if es == [] {
      assert ud[off..end] == cut;
      if |cut| >= 2 { assert ud[off + 1] == cut[1]; }
    } else {
      var d, more := es[0].data, ElementBytes(es[1..]) + cut;
      assert ud[off..end] == [es[0].id, |d|] + d + more;
      ElementAt(ud, off, end, es[0].id, d, more);
      ConcatAmong(ud, off + 2 + |d|, end, es[1..], cut);
      ElementRead(ud, off, end, es[0].id, d);
    }
  }

  lemma ElementRead(ud: bytes, off: nat, end: nat, id: byte, d: bytes)
    requires off + 2 + |d| <= end <= |ud| && |d| < 256
    requires ud[off] == id && ud[off + 1] == |d| && ud[off + 2..off + 2 + |d|] == d
    ensures FindConcat(ud, off, end) ==
            if id == 0 && |d| == 3 then Some(Concat(d[0], d[1], d[2], false))
            else if id == 8 && |d| == 4 then Some(Concat(d[0] as int * 256 + d[1], d[2], d[3], true))
            else FindConcat(ud, off + 2 + |d|, end)
  {
    if |d| >= 3 { assert ud[off + 2] == d[0] && ud[off + 3] == d[1] && ud[off + 4] == d[2]; }
    if |d| >= 4 { assert ud[off + 5] == d[3]; }
  }
}
