/** When a buffer that sip_msg_parse calls short is the start of a message at all
    (sip/src/sip.c). */
module SipShort {
  import opened Basics
  import opened SipSpec

  const ZERO: byte := 48
  const ONE: byte := 49
  const X: byte := 120

  // ---------- what an unfinished line can become ----------

  /** As far as the buffer goes, the text at p is ref, up to letter case. */
  predicate SoFar(b: bytes, p: nat, ref: bytes) {
    forall k :: 0 <= k < |ref| && p + k < |b| ==> Lc(b[p + k]) == ref[k]
  }

  /** The unfinished line at p can still become a start line. */
  predicate StartCan(b: bytes, p: nat)
    requires p <= |b|
  {
    if SoFar(b, p, SIP2_SPACE) then StatusCan(b, p + 8) else RequestCan(b, p)
  }

  /** Three digits, the first not 0; then a space, or the carriage return of the line's end. */
  predicate StatusCan(b: bytes, q: nat) {
    && (q < |b| ==> IsDigit(b[q]) && b[q] != ZERO)
    && (q + 1 < |b| ==> IsDigit(b[q + 1]))
    && (q + 2 < |b| ==> IsDigit(b[q + 2]))
    && (q + 3 < |b| ==> b[q + 3] == SPACE || (b[q + 3] == CR && q + 4 == |b|))
  }

  predicate RequestCan(b: bytes, p: nat)
    requires p <= |b|
  {
    match Find(b, SPACE, p, |b|)
    case None => true
    case Some(sp1) =>
      sp1 > p &&
      match Find(b, SPACE, sp1 + 1, |b|)
      case None => true
      case Some(sp2) => sp2 > sp1 + 1 && VersionCan(b, sp2 + 1)
  }

  predicate VersionCan(b: bytes, v: nat) {
    SoFar(b, v, SIP2) && (|b| <= v + 7 || (|b| == v + 8 && b[v + 7] == CR))
  }

  /** Where the digits from i on end. */
  function DigitsTo(b: bytes, i: nat): (r: nat)
    requires i <= |b|
    ensures i <= r <= |b| && (forall k :: i <= k < r ==> IsDigit(b[k])) && (r < |b| ==> !IsDigit(b[r]))
    decreases |b| - i
  {
    if i < |b| && IsDigit(b[i]) then DigitsTo(b, i + 1) else i
  }

  /** The unfinished field at p can still become a header field; one without a fold, if it is a
      Content-Length. */
  predicate FieldCan(b: bytes, p: nat)
    requires p <= |b|
  {
    match Find(b, COLON, p, |b|)
    case None => true
    case Some(colon) =>
      var ne := TrimEnd(b, p, colon);
      ne > p && (IsContentLength(b, Slice(p, ne)) ==> LengthCan(b, colon + 1))
  }

  /** White space; then nothing yet, or a 32-bit number and what may stand behind it. */
  predicate LengthCan(b: bytes, i: nat)
    requires i <= |b|
  {
    var v := TrimStart(b, i, |b|);
    var d := DigitsTo(b, v);
    var w := TrimStart(b, d, |b|);
    v == |b| || (ParseU32(b, v, d).Some? && (w == |b| || (w + 1 == |b| && b[w] == CR)))
  }

  /** The unfinished header section from p on can still be finished. */
  predicate HeadersCan(b: bytes, p: nat, m: Head)
    requires p <= |b|
    decreases |b| - p
  {
    match LineEnd(b, p)
    case None => p == |b| || (p + 1 == |b| && b[p] == CR) || (|m.hdrs| < MAX_HDRS && FieldCan(b, p))
    case Some(l) =>
      l.eol == p ||
      match Unfold(b, l)
      case None => |m.hdrs| < MAX_HDRS && FieldCan(b, p)
      case Some(f) =>
        match HeaderAt(b, p, f.eol, m)
        case Fail(_) => false
        case Ok(m') => HeadersCan(b, f.next, m')
  }

  /** Nothing the buffer holds keeps it from being the start of a message. */
  predicate Completable(b: bytes) {
    var p := SkipBlank(b, 0);
    match LineEnd(b, p)
    case None => StartCan(b, p)
    case Some(l) => HeadersCan(b, l.next, Head([], None))
  }

  // ---------- the shortest message it can become ----------

  function Body(m: Head): nat { if m.clen.Some? then m.clen.value else 0 }

  /** From a new header line to the end of a message: the empty line and the body; or a fresh
      Content-Length, "l:0", which takes four octets and leaves no body. */
  function TailOf(hdrs: nat, body: nat): nat { 1 + if hdrs < MAX_HDRS && body > 4 then 4 else body }

  function Tail(m: Head): nat { TailOf(|m.hdrs|, Body(m)) }

  /** What is missing of the start line at p. */
  function StartRest(b: bytes, p: nat): nat
    requires p <= |b|
  {
    if SoFar(b, p, SIP2_SPACE) then if |b| < p + 11 then p + 11 - |b| else 0 else
    match Find(b, SPACE, p, |b|)
    case None => 10
    case Some(sp1) =>
      match Find(b, SPACE, sp1 + 1, |b|)
      case None => if sp1 + 1 == |b| then 9 else 8
      case Some(sp2) => if |b| < sp2 + 8 then sp2 + 8 - |b| else 0
  }

  /** What a name without its colon lacks to be one that is not Content-Length. */
  function NameRest(b: bytes, p: nat): nat
    requires p <= |b|
  {
    var ne := TrimEnd(b, p, |b|);
    if ne > p && !IsContentLength(b, Slice(p, ne)) then 1 else 2
  }

  /** The letters it lacks to be Content-Length. */
  function LengthRest(b: bytes, p: nat): Option<nat>
    requires p <= |b|
  {
    var ne := TrimEnd(b, p, |b|);
    if ne > p && IsContentLength(b, Slice(p, ne)) then Some(0)
    else if |b| < p + 14 && SoFar(b, p, CONTENT_LENGTH) then Some(p + 14 - |b|) else None
  }

  function Min(a: nat, b: nat): nat { if a < b then a else b }

  /** From the end of the buffer, inside the unfinished field at p, to the end of a message. */
  function FieldCost(b: bytes, p: nat, m: Head): nat
    requires p <= |b|
  {
    var k := |m.hdrs| + 1;
    match Find(b, COLON, p, |b|)
    case None =>
      var plain := NameRest(b, p) + 1 + TailOf(k, Body(m));
      (match LengthRest(b, p) case None => plain case Some(n) => Min(plain, n + 4))
    case Some(colon) =>
      if !IsContentLength(b, Slice(p, TrimEnd(b, p, colon))) then 1 + TailOf(k, Body(m)) else
      var v := TrimStart(b, colon + 1, |b|);
      if v == |b| then 3 else
      match ParseU32(b, v, DigitsTo(b, v))
      case None => 0
      case Some(n) => 1 + TailOf(k, n)
  }

  /** The length of the shortest message, given the header section from p on. */
  function HeadersLeast(b: bytes, p: nat, m: Head): nat
    requires p <= |b|
    decreases |b| - p
  {
    match LineEnd(b, p)
    case None =>
      if p == |b| then |b| + Tail(m)
      else if p + 1 == |b| && b[p] == CR then
        if |m.hdrs| < MAX_HDRS then |b| + Min(1 + Body(m), FieldCost(b, p, m)) else |b| + 1 + Body(m)
      else |b| + FieldCost(b, p, m)
    case Some(l) =>
      if l.eol == p then l.next + Body(m) else
      match Unfold(b, l)
      case None => |b| + FieldCost(b, p, m)
      case Some(f) =>
        match HeaderAt(b, p, f.eol, m)
        case Fail(_) => 0
        case Ok(m') => HeadersLeast(b, f.next, m')
  }

  /** The length of the shortest message that starts with b, if there is one. */
  function Least(b: bytes): nat {
    var p := SkipBlank(b, 0);
    match LineEnd(b, p)
    case None => |b| + StartRest(b, p) + 2
    case Some(l) => HeadersLeast(b, l.next, Head([], None))
  }

  // ---------- only these can be completed, and not to less ----------

  /** A line of the longer buffer c that the shorter b leaves unfinished. */
  ghost predicate Past(b: bytes, c: bytes, eol: nat) {
    b <= c && |b| <= eol + 1 && eol < |c| && (eol < |b| ==> b[eol] == CR)
  }

  lemma LinePast(b: bytes, c: bytes, p: nat)
    requires b <= c && p <= |b| && LineEnd(b, p).None? && LineEnd(c, p).Some?
    ensures Past(b, c, LineEnd(c, p).value.eol)
  {
    LineSame(b, c, p);
    var l := LineEnd(c, p).value;
    if l.eol < |b| { PrefixAt(b, c, l.eol); }
  }

  lemma FindPast(b: bytes, c: bytes, ch: byte, i: nat, eol: nat)
    requires Past(b, c, eol) && ch != CR && Find(b, ch, i, |b|).Some?
    ensures Find(c, ch, i, eol) == Find(b, ch, i, |b|)
  {
    var k := Find(b, ch, i, |b|).value;
    assert k < eol;
    FindSame(b, c, ch, i, |b|);
    if eol < |b| { FindCut(c, ch, i, eol, |b|); } else { FindCut(c, ch, i, |b|, eol); }
  }

  lemma SoFarPast(b: bytes, c: bytes, p: nat, ref: bytes)
    requires b <= c && p + |ref| <= |c| && SameText(c, p, ref)
    ensures SoFar(b, p, ref)
  {
    forall k | 0 <= k < |ref| && p + k < |b| ensures Lc(b[p + k]) == ref[k] {
      PrefixAt(b, c, p + k);
      assert Lc(c[p + k]) == ref[k];
    }
  }

  lemma StartNeeds(b: bytes, c: bytes, p: nat, eol: nat)
    requires Past(b, c, eol) && p <= |b| && p <= eol && StartOf(c, p, eol).Ok?
    ensures StartCan(b, p) && |b| + StartRest(b, p) <= (if eol < |b| then |b| else eol)
  {
    hide Find, SameText, SoFar;
    if eol - p >= 8 && SameText(c, p, SIP2_SPACE) {
      SoFarPast(b, c, p, SIP2_SPACE);
      StatusNeeds(b, c, p, eol);
    } else if SoFar(b, p, SIP2_SPACE) {
      if |b| >= p + 8 { SoFarLong(b, c, p, eol); }
      RequestLength(c, p, eol);
    } else {
      RequestNeeds(b, c, p, eol);
    }
  }

  lemma SoFarLong(b: bytes, c: bytes, p: nat, eol: nat)
    requires Past(b, c, eol) && p + 8 <= |b| && SoFar(b, p, SIP2_SPACE)
    ensures p + 8 <= eol && SameText(c, p, SIP2_SPACE)
  {
    assert Lc(b[p + 7]) == SIP2_SPACE[7];
    forall k | 0 <= k < 8 ensures Lc(c[p + k]) == SIP2_SPACE[k] {
      PrefixAt(b, c, p + k);
      assert Lc(b[p + k]) == SIP2_SPACE[k];
    }
  }

  lemma StatusNeeds(b: bytes, c: bytes, p: nat, eol: nat)
    requires Past(b, c, eol) && p + 8 <= eol && SameText(c, p, SIP2_SPACE) && StartOf(c, p, eol).Ok?
    ensures StatusCan(b, p + 8) && p + 11 <= eol
  {
    hide Find, SameText;
    var q := p + 8;
    if q < |b| { PrefixAt(b, c, q); }
    if q + 1 < |b| { PrefixAt(b, c, q + 1); }
    if q + 2 < |b| { PrefixAt(b, c, q + 2); }
    if q + 3 < |b| { PrefixAt(b, c, q + 3); }
  }

  lemma RequestNeeds(b: bytes, c: bytes, p: nat, eol: nat)
    requires Past(b, c, eol) && p <= |b| && p <= eol && StartOf(c, p, eol).Ok?
    requires !(eol - p >= 8 && SameText(c, p, SIP2_SPACE))
    ensures RequestCan(b, p)
    ensures !SoFar(b, p, SIP2_SPACE) ==> |b| + StartRest(b, p) <= if eol < |b| then |b| else eol
  {
    hide Find, SameText, SoFar;
    RequestLength(c, p, eol);
    if Find(b, SPACE, p, |b|).Some? {
      FindPast(b, c, SPACE, p, eol);
      FindFound(b, SPACE, p, |b|);
      var sp1 := Find(b, SPACE, p, |b|).value;
      if Find(b, SPACE, sp1 + 1, |b|).Some? {
        FindPast(b, c, SPACE, sp1 + 1, eol);
        FindFound(b, SPACE, sp1 + 1, |b|);
        var v := Find(b, SPACE, sp1 + 1, |b|).value + 1;
        SoFarPast(b, c, v, SIP2);
      } else {
        FindBeyond(b, c, SPACE, sp1 + 1, eol);
      }
    } else {
      FindBeyond(b, c, SPACE, p, eol);
    }
  }

  /** A request line: a method, a target and the version. */
  lemma RequestLength(c: bytes, p: nat, eol: nat)
    requires p <= eol <= |c| && StartOf(c, p, eol).Ok? && !(eol - p >= 8 && SameText(c, p, SIP2_SPACE))
    ensures var sp1 := Find(c, SPACE, p, eol);
            && sp1.Some? && p < sp1.value && Find(c, SPACE, sp1.value + 1, eol).Some?
            && sp1.value + 1 < Find(c, SPACE, sp1.value + 1, eol).value == eol - 8
            && SameText(c, eol - 7, SIP2)
  {
    FindFound(c, SPACE, p, eol);
    hide SameText;
  }

  /** What b does not hold lies past it. */
  lemma FindBeyond(b: bytes, c: bytes, ch: byte, i: nat, eol: nat)
    requires b <= c && eol <= |c| && i <= |b| && Find(b, ch, i, |b|).None? && Find(c, ch, i, eol).Some?
    ensures Find(c, ch, i, eol).value >= |b|
  {
    FindNone(b, ch, i, |b|);
    FindAtIn(c, ch, i, eol);
    var k := Find(c, ch, i, eol).value;
    if k < |b| { PrefixAt(b, c, k); }
  }

  lemma FindAtIn(c: bytes, ch: byte, i: nat, j: nat)
    requires j <= |c| && Find(c, ch, i, j).Some?
    ensures i <= Find(c, ch, i, j).value < j && c[Find(c, ch, i, j).value] == ch
  {
  }

  lemma {:induction false} FindNone(b: bytes, ch: byte, i: nat, j: nat)
    requires j <= |b| && Find(b, ch, i, j).None?
    ensures forall k :: i <= k < j ==> b[k] != ch
    decreases j - i
  {
    if i < j { FindNone(b, ch, i + 1, j); }
  }

  lemma FieldNeeds(b: bytes, c: bytes, p: nat, eol: nat, m: Head)
    requires Past(b, c, eol) && p <= |b| && p <= eol && HeaderAt(c, p, eol, m).Ok?
    ensures |m.hdrs| < MAX_HDRS && FieldCan(b, p)
  {
    hide Find, TrimEnd, TrimStart, SameText, Decimal, LengthCan;
    if Find(b, COLON, p, |b|).Some? {
      FindPast(b, c, COLON, p, eol);
      FindFound(b, COLON, p, |b|);
      var colon := Find(b, COLON, p, |b|).value;
      TrimEndSame(b, c, p, colon);
      TrimBounds(b, p, colon);
      FindFound(c, COLON, p, eol);
      TrimBounds(c, colon + 1, eol);
      NameSame(b, c, Slice(p, TrimEnd(b, p, colon)));
      var v := TrimStart(c, colon + 1, eol);
      TrimBounds(c, v, eol);
      if IsContentLength(b, Slice(p, TrimEnd(b, p, colon))) { LengthNeeds(b, c, colon + 1, eol); }
    }
  }

  lemma {:induction false} TrimStartIs(b: bytes, lo: nat, hi: nat, r: nat)
    requires lo <= r <= hi <= |b| && (forall k :: lo <= k < r ==> IsWs(b[k])) && (r < hi ==> !IsWs(b[r]))
    ensures TrimStart(b, lo, hi) == r
    decreases hi - lo
  {
    if lo < r { TrimStartIs(b, lo + 1, hi, r); }
  }

  lemma {:induction false} TrimStartSkips(b: bytes, lo: nat, hi: nat)
    requires lo <= hi <= |b|
    ensures var r := TrimStart(b, lo, hi);
            lo <= r <= hi && (forall k :: lo <= k < r ==> IsWs(b[k])) && (r < hi ==> !IsWs(b[r]))
    decreases hi - lo
  {
    if lo < hi && IsWs(b[lo]) { TrimStartSkips(b, lo + 1, hi); }
  }

  lemma {:induction false} TrimEndSkips(b: bytes, lo: nat, hi: nat)
    requires lo <= hi <= |b|
    ensures var r := TrimEnd(b, lo, hi);
            lo <= r <= hi && (forall k :: r <= k < hi ==> IsWs(b[k])) && (r > lo ==> !IsWs(b[r - 1]))
    decreases hi
  {
    if lo < hi && IsWs(b[hi - 1]) { TrimEndSkips(b, lo, hi - 1); }
  }

  lemma {:induction false} DecimalDigits(b: bytes, i: nat, j: nat)
    requires i <= j <= |b|
    ensures Decimal(b, i, j).Some? <==> forall k :: i <= k < j ==> IsDigit(b[k])
    decreases j
  {
    if i < j { DecimalDigits(b, i, j - 1); }
  }

  lemma {:induction false} DecimalGrows(b: bytes, i: nat, j: nat, n: nat)
    requires i <= j <= n <= |b| && Decimal(b, i, n).Some?
    ensures Decimal(b, i, j).Some? && Decimal(b, i, j).value <= Decimal(b, i, n).value
    decreases n
  {
    if j < n { DecimalGrows(b, i, j, n - 1); }
  }

  lemma {:induction false} DigitsToIs(b: bytes, i: nat, r: nat)
    requires i <= r <= |b| && (forall k :: i <= k < r ==> IsDigit(b[k])) && (r < |b| ==> !IsDigit(b[r]))
    ensures DigitsTo(b, i) == r
    decreases r - i
  {
    if i < r { DigitsToIs(b, i + 1, r); }
  }

  /** What a longer buffer reads as a length, the shorter one has begun to read. */
  lemma LengthNeeds(b: bytes, c: bytes, i: nat, eol: nat)
    requires Past(b, c, eol) && i <= |b| && i <= eol
    requires var v := TrimStart(c, i, eol); v <= eol && ParseU32(c, v, TrimEnd(c, v, eol)).Some?
    ensures LengthCan(b, i)
  {
    hide TrimStart, TrimEnd, Decimal;
    var v := TrimStart(c, i, eol);
    var ve := TrimEnd(c, v, eol);
    TrimStartSkips(c, i, eol);
    TrimEndSkips(c, v, eol);
    DecimalDigits(c, v, ve);
    assert v < ve;
    if v < |b| {
      forall k | i <= k < v ensures IsWs(b[k]) { PrefixAt(b, c, k); }
      PrefixAt(b, c, v);
      TrimStartIs(b, i, |b|, v);
      NumberNeeds(b, c, v, ve, eol);
    } else {
      forall k | i <= k < |b| ensures IsWs(b[k]) { PrefixAt(b, c, k); }
      TrimStartIs(b, i, |b|, |b|);
    }
  }

  lemma NumberNeeds(b: bytes, c: bytes, v: nat, ve: nat, eol: nat)
    requires Past(b, c, eol) && v < |b| && v < ve <= eol && ParseU32(c, v, ve).Some?
    requires (forall k :: v <= k < ve ==> IsDigit(c[k])) && forall k :: ve <= k < eol ==> IsWs(c[k])
    ensures var d := DigitsTo(b, v);
            var w := TrimStart(b, d, |b|);
            && ParseU32(b, v, d).Some? && (w == |b| || (w + 1 == |b| && b[w] == CR))
            && ParseU32(b, v, d).value <= ParseU32(c, v, ve).value
  {
    hide TrimStart, Decimal;
    var d := if ve < |b| then ve else |b|;
    forall k | v <= k < d ensures IsDigit(b[k]) { PrefixAt(b, c, k); }
    forall k | d <= k < |b| && k < eol ensures IsWs(b[k]) { PrefixAt(b, c, k); }
    DigitsToIs(b, v, d);
    DecimalGrows(c, v, d, ve);
    DecimalSame(b, c, v, d);
    TrimStartIs(b, d, |b|, if eol < |b| then eol else |b|);
  }

  // ---------- the cost of a field ----------

  /** What an accepted field is made of. */
  lemma HeaderParts(c: bytes, p: nat, eol: nat, m: Head)
    requires p <= eol <= |c| && HeaderAt(c, p, eol, m).Ok?
    ensures var m' := HeaderAt(c, p, eol, m).val;
            && |m.hdrs| < MAX_HDRS && |m'.hdrs| == |m.hdrs| + 1
            && Find(c, COLON, p, eol).Some?
    ensures var colon := Find(c, COLON, p, eol).value;
            && p <= colon < eol && p < TrimEnd(c, p, colon) <= colon
            && colon + 1 <= TrimStart(c, colon + 1, eol) <= eol
    ensures var m' := HeaderAt(c, p, eol, m).val;
            var colon := Find(c, COLON, p, eol).value;
            var v := TrimStart(c, colon + 1, eol);
            if IsContentLength(c, Slice(p, TrimEnd(c, p, colon)))
            then v < TrimEnd(c, v, eol) <= eol && m'.clen.Some? && ParseU32(c, v, TrimEnd(c, v, eol)) == m'.clen
            else m'.clen == m.clen
  {
    hide Find, TrimEnd, TrimStart, SameText, Decimal;
    FindFound(c, COLON, p, eol);
    var colon := Find(c, COLON, p, eol).value;
    TrimBounds(c, p, colon);
    TrimBounds(c, colon + 1, eol);
    TrimBounds(c, TrimStart(c, colon + 1, eol), eol);
  }

  /** No way to finish the field at p and the message costs less. */
  lemma FieldCosts(b: bytes, c: bytes, p: nat, eol: nat, next: nat, m: Head)
    requires Past(b, c, eol) && p < |b| && p <= eol < next && |b| < next && HeaderAt(c, p, eol, m).Ok?
    ensures |b| + FieldCost(b, p, m) <= next + Tail(HeaderAt(c, p, eol, m).val)
  {
    hide Find, TrimEnd, TrimStart, SameText, ParseU32, HeaderAt, SoFar;
    HeaderParts(c, p, eol, m);
    FindFound(b, COLON, p, |b|);
    match Find(b, COLON, p, |b|) {
      case None => NameCosts(b, c, p, eol, next, m);
      case Some(colon) =>
        FindPast(b, c, COLON, p, eol);
        TrimEndSame(b, c, p, colon);
        TrimBounds(b, p, colon);
        NameSame(b, c, Slice(p, TrimEnd(b, p, colon)));
        if IsContentLength(b, Slice(p, TrimEnd(b, p, colon))) { LengthCosts(b, c, p, colon, eol, next, m); }
    }
  }

  lemma NameCosts(b: bytes, c: bytes, p: nat, eol: nat, next: nat, m: Head)
    requires Past(b, c, eol) && p < |b| && p <= eol < next && |b| < next && HeaderAt(c, p, eol, m).Ok?
    requires Find(b, COLON, p, |b|).None?
    ensures |b| + FieldCost(b, p, m) <= next + Tail(HeaderAt(c, p, eol, m).val)
  {
    hide Find, TrimEnd, TrimStart, SameText, ParseU32, HeaderAt, SoFar;
    HeaderParts(c, p, eol, m);
    FindBeyond(b, c, COLON, p, eol);
    var colon := Find(c, COLON, p, eol).value;
    TrimBounds(b, p, |b|);
    var ne := TrimEnd(b, p, |b|);
    if IsContentLength(c, Slice(p, TrimEnd(c, p, colon))) {
      LengthName(b, c, p, colon);
    } else if colon == |b| {
      TrimEndSame(b, c, p, |b|);
      NameSame(b, c, Slice(p, ne));
    }
  }

  lemma LengthName(b: bytes, c: bytes, p: nat, colon: nat)
    requires b <= c && p < |b| <= colon <= |c| && p < TrimEnd(c, p, colon) <= colon
    requires IsContentLength(c, Slice(p, TrimEnd(c, p, colon)))
    ensures LengthRest(b, p).Some? && |b| + LengthRest(b, p).value <= colon
  {
    hide TrimEnd, SameText;
    var ne := TrimEnd(c, p, colon);
    TrimEndSkips(c, p, colon);
    if ne <= |b| {
      forall k | ne <= k < |b| ensures IsWs(b[k]) { PrefixAt(b, c, k); }
      PrefixAt(b, c, ne - 1);
      TrimEndIs(b, p, |b|, ne);
      NameSame(b, c, Slice(p, ne));
    } else {
      SoFarPast(b, c, p, CONTENT_LENGTH);
      TrimBounds(b, p, |b|);
      ShortName(b, p);
    }
  }

  /** A part of the long name is not the short one. */
  lemma ShortName(b: bytes, p: nat)
    requires p < |b| < p + 14 && SoFar(b, p, CONTENT_LENGTH) && p <= TrimEnd(b, p, |b|) <= |b|
    ensures TrimEnd(b, p, |b|) > p ==> !IsContentLength(b, Slice(p, TrimEnd(b, p, |b|)))
  {
    hide TrimEnd;
    assert Lc(b[p + 0]) == CONTENT_LENGTH[0];
  }

  lemma LengthCosts(b: bytes, c: bytes, p: nat, colon: nat, eol: nat, next: nat, m: Head)
    requires Past(b, c, eol) && p <= colon < |b| && p <= eol < next && |b| < next && HeaderAt(c, p, eol, m).Ok?
    requires Find(b, COLON, p, |b|) == Find(c, COLON, p, eol) == Some(colon)
    requires p <= TrimEnd(b, p, colon) == TrimEnd(c, p, colon) <= colon
    requires IsContentLength(b, Slice(p, TrimEnd(b, p, colon))) && IsContentLength(c, Slice(p, TrimEnd(c, p, colon)))
    ensures |b| + FieldCost(b, p, m) <= next + Tail(HeaderAt(c, p, eol, m).val)
  {
    hide Find, TrimEnd, TrimStart, IsContentLength, ParseU32, HeaderAt, DigitsTo, TailOf;
    HeaderParts(c, p, eol, m);
    ValueCosts(b, c, colon + 1, eol);
    var u := TrimStart(b, colon + 1, |b|);
    TailGrows(|m.hdrs| + 1, if u == |b| then 0 else ParseU32(b, u, DigitsTo(b, u)).value, Body(HeaderAt(c, p, eol, m).val));
  }

  lemma TailGrows(k: nat, a: nat, b: nat)
    requires a <= b
    ensures 1 <= TailOf(k, a) <= TailOf(k, b)
  {
  }

  lemma ValueCosts(b: bytes, c: bytes, i: nat, eol: nat)
    requires Past(b, c, eol) && i <= |b| && i <= eol && i <= TrimStart(c, i, eol) <= eol
    requires var v := TrimStart(c, i, eol);
             v < TrimEnd(c, v, eol) <= eol && ParseU32(c, v, TrimEnd(c, v, eol)).Some?
    ensures var u, v := TrimStart(b, i, |b|), TrimStart(c, i, eol);
            && i <= u <= |b|
            && if u == |b| then |b| < eol
               else && u <= DigitsTo(b, u) <= |b| && ParseU32(b, u, DigitsTo(b, u)).Some?
                    && ParseU32(b, u, DigitsTo(b, u)).value <= ParseU32(c, v, TrimEnd(c, v, eol)).value
  {
    hide TrimEnd, TrimStart, Decimal, DigitsTo;
    var v := TrimStart(c, i, eol);
    var ve := TrimEnd(c, v, eol);
    TrimStartSkips(c, i, eol);
    TrimEndSkips(c, v, eol);
    DecimalDigits(c, v, ve);
    if v < |b| {
      forall k | i <= k < v ensures IsWs(b[k]) { PrefixAt(b, c, k); }
      PrefixAt(b, c, v);
      TrimStartIs(b, i, |b|, v);
      NumberNeeds(b, c, v, ve, eol);
      DigitsToBounds(b, v);
    } else {
      forall k | i <= k < |b| ensures IsWs(b[k]) { PrefixAt(b, c, k); }
      TrimStartIs(b, i, |b|, |b|);
    }
  }

  lemma DigitsToBounds(b: bytes, i: nat)
    requires i <= |b|
    ensures i <= DigitsTo(b, i) <= |b|
  {
  }

  lemma {:induction false} TrimEndIs(b: bytes, lo: nat, hi: nat, r: nat)
    requires lo <= r <= hi <= |b| && (forall k :: r <= k < hi ==> IsWs(b[k])) && (r > lo ==> !IsWs(b[r - 1]))
    ensures TrimEnd(b, lo, hi) == r
    decreases hi
  {
    if r < hi { TrimEndIs(b, lo, hi - 1, r); }
  }

  /** A header section costs at least its tail. */
  lemma {:induction false} TailNeeds(c: bytes, p: nat, m: Head)
    requires p <= |c| && Headers(c, p, m).Ok?
    ensures var hs := Headers(c, p, m).val; p + Tail(m) <= hs.end + Body(hs.head)
    decreases |c| - p
  {
    hide LineEnd, Unfold, HeaderAt;
    LineBounds(c, p);
    var l := LineEnd(c, p).value;
    if l.eol != p {
      UnfoldBounds(c, l);
      var f := Unfold(c, l).value;
      HeaderPays(c, p, f.eol, m);
      TailNeeds(c, f.next, HeaderAt(c, p, f.eol, m).val);
    }
  }

  lemma HeaderPays(c: bytes, p: nat, eol: nat, m: Head)
    requires p <= eol <= |c| && HeaderAt(c, p, eol, m).Ok?
    ensures p + Tail(m) <= eol + 1 + Tail(HeaderAt(c, p, eol, m).val)
  {
    hide Find, TrimEnd, TrimStart, HeaderAt, ParseU32;
    HeaderParts(c, p, eol, m);
  }

  lemma {:induction false} UnfoldPast(b: bytes, c: bytes, l: Line)
    requires b <= c && l.eol < l.next <= |b| && Unfold(b, l).None? && Unfold(c, l).Some?
    ensures Past(b, c, Unfold(c, l).value.eol) && |b| < Unfold(c, l).value.next
    decreases |b| - l.next
  {
    hide LineEnd;
    PrefixAt(b, c, l.next);
    LineSame(b, c, l.next);
    LineBounds(c, l.next);
    LineBounds(b, l.next);
    if LineEnd(b, l.next).Some? {
      UnfoldPast(b, c, LineEnd(b, l.next).value);
    } else {
      LinePast(b, c, l.next);
      LineNextPast(b, c, l.next);
      UnfoldOn(b, c, LineEnd(c, l.next).value);
    }
  }

  /** Folding more lines on keeps the end past b. */
  lemma UnfoldOn(b: bytes, c: bytes, l: Line)
    requires b <= c && l.eol < l.next <= |c| && |b| < l.next && Past(b, c, l.eol) && Unfold(c, l).Some?
    ensures Past(b, c, Unfold(c, l).value.eol) && |b| < Unfold(c, l).value.next
  {
    hide LineEnd;
    UnfoldBounds(c, l);
    if l.next < |c| && IsWs(c[l.next]) {
      LineBounds(c, l.next);
      UnfoldBounds(c, LineEnd(c, l.next).value);
    }
  }

  lemma LineNextPast(b: bytes, c: bytes, p: nat)
    requires b <= c && p <= |b| && LineEnd(b, p).None? && LineEnd(c, p).Some?
    ensures |b| < LineEnd(c, p).value.next
  {
    LineSame(b, c, p);
  }

  /** Lines that end with b may be folded on in c, and then go past b. */
  lemma {:induction false} UnfoldLonger(b: bytes, c: bytes, l: Line)
    requires b <= c && l.eol < l.next <= |b| && Unfold(b, l).Some? && Unfold(c, l).Some?
    requires Unfold(b, l).value.next == |b|
    ensures Unfold(c, l) == Unfold(b, l) || |b| <= Unfold(c, l).value.eol < Unfold(c, l).value.next <= |c|
    decreases |b| - l.next
  {
    hide LineEnd;
    UnfoldBounds(c, l);
    if l.next < |b| {
      PrefixAt(b, c, l.next);
      LineSame(b, c, l.next);
      LineBounds(b, l.next);
      LineBounds(c, l.next);
      UnfoldBounds(b, l);
      UnfoldLonger(b, c, LineEnd(b, l.next).value);
    } else if l.next < |c| && IsWs(c[l.next]) {
      LineBounds(c, l.next);
      UnfoldBounds(c, LineEnd(c, l.next).value);
    }
  }

  /** Folding lines onto an accepted field changes nothing that counts: a Content-Length would no
      longer be a number. */
  lemma FoldedOn(b: bytes, c: bytes, p: nat, eol: nat, eol': nat, m: Head)
    requires b <= c && p <= eol < |b| <= eol' <= |c| && b[|b| - 1] == LF
    requires HeaderAt(b, p, eol, m).Ok? && HeaderAt(c, p, eol', m).Ok?
    ensures Tail(HeaderAt(c, p, eol', m).val) == Tail(HeaderAt(b, p, eol, m).val)
  {
    hide Find, TrimEnd, TrimStart, SameText, HeaderAt, Decimal;
    HeaderSame(b, c, p, eol, m);
    HeaderParts(c, p, eol, m);
    HeaderParts(c, p, eol', m);
    var colon := Find(c, COLON, p, eol).value;
    FindCut(c, COLON, p, eol, eol');
    if IsContentLength(c, Slice(p, TrimEnd(c, p, colon))) {
      var v, ve := TrimStart(c, colon + 1, eol), TrimEnd(c, TrimStart(c, colon + 1, eol), eol);
      TrimStartSkips(c, colon + 1, eol);
      TrimStartIs(c, colon + 1, eol', v);
      var we := TrimEnd(c, v, eol');
      TrimEndSkips(c, v, eol');
      DecimalDigits(c, v, we);
      assert false;
    }
  }

  lemma {:induction false} HeadersNeed(b: bytes, c: bytes, p: nat, m: Head)
    requires b <= c && p <= |b| && Headers(b, p, m) == Fail(Short) && Headers(c, p, m).Ok?
    ensures HeadersCan(b, p, m)
    ensures var hs := Headers(c, p, m).val; HeadersLeast(b, p, m) <= hs.end + Body(hs.head)
    decreases |b| - p
  {
    hide LineEnd, Unfold, HeaderAt, FieldCan, FieldCost;
    LineSame(b, c, p);
    LineBounds(c, p);
    var l := LineEnd(c, p).value;
    if l.eol != p {
      UnfoldBounds(c, l);
      var f := Unfold(c, l).value;
      TailNeeds(c, f.next, HeaderAt(c, p, f.eol, m).val);
      if LineEnd(b, p).None? {
        TailNeeds(c, p, m);
        LinePast(b, c, p);
        LineNextPast(b, c, p);
        UnfoldOn(b, c, l);
        FieldNeeds(b, c, p, f.eol, m);
        if p < |b| { FieldCosts(b, c, p, f.eol, f.next, m); }
      } else if Unfold(b, l).None? {
        UnfoldPast(b, c, l);
        FieldNeeds(b, c, p, f.eol, m);
        FieldCosts(b, c, p, f.eol, f.next, m);
      } else {
        UnfoldBounds(b, l);
        var g := Unfold(b, l).value;
        HeaderErr(b, p, g.eol, m);
        var m' := HeaderAt(b, p, g.eol, m).val;
        if g.next < |b| {
          UnfoldSame(b, c, l);
          HeaderSame(b, c, p, g.eol, m);
          HeadersNeed(b, c, g.next, m');
        } else {
          NoLine(b);
          UnfoldLonger(b, c, l);
          LineLf(b, p);
          UnfoldLf(b, l);
          if f == g { HeaderSame(b, c, p, g.eol, m); } else { FoldedOn(b, c, p, g.eol, f.eol, m); }
        }
      }
    } else if LineEnd(b, p).None? {
      LinePast(b, c, p);
      LineNextPast(b, c, p);
    }
  }

  lemma LineLf(b: bytes, p: nat)
    requires p <= |b| && LineEnd(b, p).Some?
    ensures b[LineEnd(b, p).value.next - 1] == LF
  {
  }

  lemma {:induction false} UnfoldLf(b: bytes, l: Line)
    requires l.eol < l.next <= |b| && Unfold(b, l).Some? && b[l.next - 1] == LF
    ensures b[Unfold(b, l).value.next - 1] == LF
    decreases |b| - l.next
  {
    if l.next < |b| && IsWs(b[l.next]) { UnfoldLf(b, LineEnd(b, l.next).value); }
  }

  lemma SkipOn(b: bytes, c: bytes)
    requires b <= c && SkipBlank(b, 0) < |b|
    ensures SkipBlank(c, 0) == SkipBlank(b, 0)
  {
    SkipStays(b, c, 0);
  }

  lemma CompletableNeeds(b: bytes, c: bytes)
    requires b <= c && Frame(b) == Fail(Short) && Frame(c).Ok?
    ensures Completable(b) && Least(b) <= |c|
  {
    hide LineEnd, Headers, HeadersCan, HeadersLeast, StartOf, StartCan, StartRest, SkipBlank;
    var p := SkipBlank(b, 0);
    SkipBounds(b);
    if p == |b| {
      NoLine(b);
      StartsAnew(b);
      LeastMessage(b, c);
    } else {
      SkipOn(b, c);
      LineSame(b, c, p);
      LineBounds(c, p);
      var l := LineEnd(c, p).value;
      if LineEnd(b, p).None? {
        LinePast(b, c, p);
        LineNextPast(b, c, p);
        StartNeeds(b, c, p, l.eol);
        TailNeeds(c, l.next, Head([], None));
      } else {
        StartSame(b, c, p, l.eol);
        StartErr(b, p, l.eol);
        if Headers(b, l.next, Head([], None)).Ok? {
          HeadersDone(b, l.next, Head([], None));
          HeadersExtend(b, c, l.next, Head([], None));
        } else {
          HeadersNeed(b, c, l.next, Head([], None));
        }
      }
    }
  }

  lemma StartsAnew(b: bytes)
    ensures StartCan(b, |b|) && StartRest(b, |b|) == 11
  {
  }

  /** Behind blanks there is room for a start line and an empty line. */
  lemma LeastMessage(b: bytes, c: bytes)
    requires b <= c && SkipBlank(b, 0) == |b| && Frame(c).Ok?
    ensures |b| + 13 <= |c|
  {
    hide LineEnd, Headers, StartOf, SkipBlank;
    SkipSame(b, c, 0);
    SkipBounds(c);
    var p := SkipBlank(c, 0);
    LineBounds(c, p);
    var l := LineEnd(c, p).value;
    StartLength(c, p, l.eol);
    TailNeeds(c, l.next, Head([], None));
  }

  lemma StartLength(c: bytes, p: nat, eol: nat)
    requires p <= eol <= |c| && StartOf(c, p, eol).Ok?
    ensures p + 11 <= eol
  {
    hide SameText, Find;
    if !(eol - p >= 8 && SameText(c, p, SIP2_SPACE)) {
      RequestLength(c, p, eol);
    }
  }

  lemma StartErr(b: bytes, p: nat, eol: nat)
    requires p <= eol <= |b|
    ensures StartOf(b, p, eol).Fail? ==> StartOf(b, p, eol).err != Short
  {
  }

  lemma {:induction false} HeadersDone(b: bytes, p: nat, m: Head)
    requires p <= |b| && Headers(b, p, m).Ok?
    ensures HeadersCan(b, p, m)
    ensures var hs := Headers(b, p, m).val; HeadersLeast(b, p, m) == hs.end + Body(hs.head)
    decreases |b| - p
  {
    hide LineEnd, Unfold, HeaderAt, FieldCan;
    LineBounds(b, p);
    var l := LineEnd(b, p).value;
    if l.eol != p {
      UnfoldBounds(b, l);
      var f := Unfold(b, l).value;
      HeadersDone(b, f.next, HeaderAt(b, p, f.eol, m).val);
    }
  }
}
