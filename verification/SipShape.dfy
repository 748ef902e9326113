/** What an accepted SIP message looks like, octet by octet, and that exactly these are accepted
    (sip_msg_parse in sip/src/sip.c). */
module SipShape {
  import opened Basics
  import opened SipSpec
  import opened SipShort

  predicate Blank(c: byte) { c == 32 || c == 9 }

  /** The code compares with bit 5 of the octet set; every octet of its references has it. */
  predicate Folds(c: byte, ref: byte) { c == ref || c + 32 == ref }

  predicate Reads(b: bytes, i: nat, ref: bytes) {
    i + |ref| <= |b| && forall k :: 0 <= k < |ref| ==> Folds(b[i + k], ref[k])
  }

  /** Where a line that a line feed closes at n ends: a carriage return before it does not count. */
  function Eol(b: bytes, p: nat, n: nat): nat
    requires n <= |b|
  {
    if n > p && b[n - 1] == 13 then n - 1 else n
  }

  predicate NoneOf(b: bytes, c: byte, i: nat, j: nat) {
    forall k :: i <= k < j && k < |b| ==> b[k] != c
  }

  predicate Blanks(b: bytes, i: nat, j: nat) {
    i <= j <= |b| && forall k :: i <= k < j ==> Blank(b[k])
  }

  /** The first line feed from p on is at n. */
  predicate FirstLf(b: bytes, p: nat, n: nat) { p <= n < |b| && b[n] == 10 && NoneOf(b, 10, p, n) }

  // ---------- the start line ----------

  predicate Digits3(b: bytes, q: nat, code: nat) {
    && q + 3 <= |b| && 48 <= b[q] <= 57 && 48 <= b[q + 1] <= 57 && 48 <= b[q + 2] <= 57
    && var x: int, y: int, z: int := b[q], b[q + 1], b[q + 2];
       code == (x - 48) * 100 + (y - 48) * 10 + (z - 48)
  }

  /** A version, a code from 100 to 999 and a reason; or a method, a target and the version, apart by
      single spaces. */
  predicate StartIs(b: bytes, p: nat, eol: nat, s: Start)
    requires p <= eol <= |b|
  {
    match s
    case Status(code, reason) =>
      && p + 11 <= eol && Reads(b, p, [115, 105, 112, 47, 50, 46, 48, 32]) && Digits3(b, p + 8, code) && 100 <= code
      && reason.to == eol
      && (if p + 11 == eol then reason.from == eol else b[p + 11] == 32 && reason.from == p + 12)
    case Request(m, u) =>
      && m.from == p < m.to && u.from == m.to + 1 < u.to && u.to + 8 == eol
      && NoneOf(b, 32, p, m.to) && b[m.to] == 32 && NoneOf(b, 32, u.from, u.to) && b[u.to] == 32
      && Reads(b, u.to + 1, [115, 105, 112, 47, 50, 46, 48])
      && !Reads(b, p, [115, 105, 112, 47, 50, 46, 48, 32])
  }

  lemma ReadsSame(b: bytes, i: nat, ref: bytes)
    requires i + |ref| <= |b| && forall k :: 0 <= k < |ref| ==> ref[k] / 32 % 2 == 1
    ensures Reads(b, i, ref) <==> SameText(b, i, ref)
  {
    forall k | 0 <= k < |ref| ensures Folds(b[i + k], ref[k]) <==> Lc(b[i + k]) == ref[k] {
      FoldsSame(b[i + k], ref[k]);
    }
  }

  lemma FoldsSame(c: byte, ref: byte)
    requires ref / 32 % 2 == 1
    ensures Folds(c, ref) <==> Lc(c) == ref
  {
  }

  lemma {:induction false} FindIff(b: bytes, c: byte, i: nat, j: nat)
    requires i <= j <= |b|
    ensures match Find(b, c, i, j)
            case None => NoneOf(b, c, i, j)
            case Some(k) => i <= k < j && b[k] == c && NoneOf(b, c, i, k)
    decreases j - i
  {
    if i < j { FindIff(b, c, i + 1, j); }
  }

  lemma StartShape(b: bytes, p: nat, eol: nat, s: Start)
    requires p <= eol <= |b|
    ensures StartOf(b, p, eol) == Ok(s) <==> StartIs(b, p, eol, s)
  {
    assert |SIP2_SPACE| == 8 && |SIP2| == 7;
    if eol - p >= 8 { ReadsSame(b, p, SIP2_SPACE); }
    if eol - p >= 8 && SameText(b, p, SIP2_SPACE) {
      StatusShape(b, p, eol, s);
    } else {
      RequestShape(b, p, eol, s);
    }
  }

  lemma StatusShape(b: bytes, p: nat, eol: nat, s: Start)
    requires p + 8 <= eol <= |b| && SameText(b, p, SIP2_SPACE) && Reads(b, p, SIP2_SPACE)
    ensures StartOf(b, p, eol) == Ok(s) <==> StartIs(b, p, eol, s)
  {
    hide SameText, Reads, Find;
  }

  lemma RequestShape(b: bytes, p: nat, eol: nat, s: Start)
    requires p <= eol <= |b| && !(eol - p >= 8 && SameText(b, p, SIP2_SPACE))
    requires eol - p >= 8 ==> !Reads(b, p, SIP2_SPACE)
    ensures StartOf(b, p, eol) == Ok(s) <==> StartIs(b, p, eol, s)
  {
    hide SameText, Reads, Find, NoneOf;
    FindIff(b, SPACE, p, eol);
    if s.Request? && StartIs(b, p, eol, s) {
      FindOnly(b, SPACE, p, eol, s.method_.to);
      FindOnly(b, SPACE, s.method_.to + 1, eol, s.uri.to);
      ReadsSame(b, s.uri.to + 1, SIP2);
    }
    match Find(b, SPACE, p, eol) {
      case None =>
      case Some(sp1) =>
        FindIff(b, SPACE, sp1 + 1, eol);
        match Find(b, SPACE, sp1 + 1, eol) {
          case None =>
          case Some(sp2) => if eol - sp2 - 1 == 7 { ReadsSame(b, sp2 + 1, SIP2); }
        }
    }
  }

  lemma FindOnly(b: bytes, c: byte, i: nat, j: nat, k: nat)
    requires i <= k < j <= |b| && b[k] == c && NoneOf(b, c, i, k)
    ensures Find(b, c, i, j) == Some(k)
  {
    FindIs(b, c, i, j, k);
  }

  // ---------- one header field ----------

  /** The name, blanks, a colon, blanks, the value and blanks fill the line; no blank ends the name
      and none stands at either end of the value. */
  predicate FieldAt(b: bytes, p: nat, eol: nat, h: Hdr, colon: nat)
    requires p <= eol <= |b|
  {
    && h.name.from == p < h.name.to <= colon < eol && b[colon] == 58 && NoneOf(b, 58, p, colon)
    && !Blank(b[h.name.to - 1]) && Blanks(b, h.name.to, colon)
    && colon < h.value.from <= h.value.to <= eol
    && Blanks(b, colon + 1, h.value.from) && Blanks(b, h.value.to, eol)
    && if h.value.from == h.value.to then h.value.from == eol
       else !Blank(b[h.value.from]) && !Blank(b[h.value.to - 1])
  }

  ghost predicate FieldIs(b: bytes, p: nat, eol: nat, h: Hdr)
    requires p <= eol <= |b|
  {
    exists colon :: p < colon < eol && FieldAt(b, p, eol, h, colon)
  }

  /** "l" or "content-length". */
  predicate NamesLength(b: bytes, n: Slice) {
    || (n.to == n.from + 1 <= |b| && Folds(b[n.from], 108))
    || (n.to == n.from + 14 && Reads(b, n.from, [99, 111, 110, 116, 101, 110, 116, 45, 108, 101, 110, 103, 116, 104]))
  }

  /** The number the digits b[i..j] spell, from the front. */
  function Spelt(b: bytes, i: nat, j: nat): int
    requires i <= j <= |b|
    decreases j - i
  {
    if i == j then 0 else var d: int := b[i]; (d - 48) * Pow10(j - i - 1) + Spelt(b, i + 1, j)
  }

  function Pow10(n: nat): nat { if n == 0 then 1 else 10 * Pow10(n - 1) }

  /** One to ten digits that spell a 32-bit number. */
  predicate Number(b: bytes, v: Slice, n: nat) {
    && v.from < v.to <= |b| && v.to <= v.from + 10
    && (forall k :: v.from <= k < v.to ==> 48 <= b[k] <= 57)
    && Spelt(b, v.from, v.to) == n <= 0xFFFF_FFFF
  }

  lemma {:induction false} SpeltSnoc(b: bytes, i: nat, j: nat)
    requires i < j <= |b|
    ensures var d: int := b[j - 1]; Spelt(b, i, j) == Spelt(b, i, j - 1) * 10 + (d - 48)
    decreases j - i
  {
    if i + 1 < j {
      SpeltSnoc(b, i + 1, j);
      var d: int := b[i];
      assert (d - 48) * (10 * Pow10(j - i - 2)) == (d - 48) * Pow10(j - i - 2) * 10;
    }
  }

  lemma {:induction false} DecimalSpelt(b: bytes, i: nat, j: nat)
    requires i <= j <= |b|
    ensures Decimal(b, i, j).Some? <==> forall k :: i <= k < j ==> 48 <= b[k] <= 57
    ensures Decimal(b, i, j).Some? ==> Decimal(b, i, j).value == Spelt(b, i, j)
    decreases j
  {
    if i < j {
      DecimalSpelt(b, i, j - 1);
      SpeltSnoc(b, i, j);
    }
  }

  lemma NumberShape(b: bytes, v: Slice, n: nat)
    requires v.from <= v.to <= |b|
    ensures ParseU32(b, v.from, v.to) == Some(n) <==> Number(b, v, n)
  {
    hide Decimal, Spelt;
    DecimalSpelt(b, v.from, v.to);
  }

  lemma NameShape(b: bytes, n: Slice)
    requires n.from <= n.to <= |b|
    ensures IsContentLength(b, n) <==> NamesLength(b, n)
  {
    if n.to == n.from + 1 { FoldsSame(b[n.from], 108); }
    assert |CONTENT_LENGTH| == 14;
    if n.to == n.from + 14 { ReadsSame(b, n.from, CONTENT_LENGTH); }
  }

  /** What a field adds: itself, and the length if it names one. */
  ghost predicate Adds(b: bytes, p: nat, eol: nat, m: Head, m': Head)
    requires p <= eol <= |b|
  {
    && |m.hdrs| < 48 && |m'.hdrs| == |m.hdrs| + 1 && m'.hdrs[..|m.hdrs|] == m.hdrs
    && var h := m'.hdrs[|m.hdrs|];
       && FieldIs(b, p, eol, h)
       && if NamesLength(b, h.name) then m'.clen.Some? && Number(b, h.value, m'.clen.value) else m'.clen == m.clen
  }

  lemma FieldShape(b: bytes, p: nat, eol: nat, h: Hdr)
    requires p <= eol <= |b|
    ensures FieldIs(b, p, eol, h) <==>
            match Find(b, COLON, p, eol)
            case None => false
            case Some(colon) =>
              && p <= colon < eol && TrimEnd(b, p, colon) > p && h.name == Slice(p, TrimEnd(b, p, colon))
              && h.value == Slice(TrimStart(b, colon + 1, eol), TrimEnd(b, TrimStart(b, colon + 1, eol), eol))
  {
    hide Find, TrimEnd, TrimStart, NoneOf;
    FindIff(b, COLON, p, eol);
    match Find(b, COLON, p, eol) {
      case None => NoColon(b, p, eol, h);
      case Some(colon) =>
        PartsShape(b, p, eol, h, colon);
        if c :| p < c < eol && FieldAt(b, p, eol, h, c) { FindOnly(b, COLON, p, eol, c); }
    }
  }

  lemma NoColon(b: bytes, p: nat, eol: nat, h: Hdr)
    requires p <= eol <= |b| && NoneOf(b, 58, p, eol)
    ensures !FieldIs(b, p, eol, h)
  {
  }

  lemma PartsShape(b: bytes, p: nat, eol: nat, h: Hdr, colon: nat)
    requires p <= colon < eol <= |b| && b[colon] == 58 && NoneOf(b, 58, p, colon)
    ensures FieldAt(b, p, eol, h, colon) && p < colon <==>
            && TrimEnd(b, p, colon) > p && h.name == Slice(p, TrimEnd(b, p, colon))
            && h.value == Slice(TrimStart(b, colon + 1, eol), TrimEnd(b, TrimStart(b, colon + 1, eol), eol))
  {
    hide TrimEnd, TrimStart, NoneOf;
    TrimEndSkips(b, p, colon);
    TrimStartSkips(b, colon + 1, eol);
    var v := TrimStart(b, colon + 1, eol);
    TrimEndSkips(b, v, eol);
    if FieldAt(b, p, eol, h, colon) {
      TrimEndIs(b, p, colon, h.name.to);
      if h.value.from < eol { TrimStartIs(b, colon + 1, eol, h.value.from); } else { TrimStartIs(b, colon + 1, eol, eol); }
      TrimEndIs(b, v, eol, h.value.to);
    }
  }

  lemma HeaderShape(b: bytes, p: nat, eol: nat, m: Head, m': Head)
    requires p <= eol <= |b|
    ensures HeaderAt(b, p, eol, m) == Ok(m') <==> Adds(b, p, eol, m, m')
  {
    hide Find, TrimEnd, TrimStart, FieldIs, IsContentLength, NamesLength, ParseU32, Number;
    FindFound(b, COLON, p, eol);
    match Find(b, COLON, p, eol) {
      case None =>
        if |m'.hdrs| == |m.hdrs| + 1 { FieldShape(b, p, eol, m'.hdrs[|m.hdrs|]); }
      case Some(colon) =>
        TrimBounds(b, p, colon);
        TrimBounds(b, colon + 1, eol);
        var v := TrimStart(b, colon + 1, eol);
        TrimBounds(b, v, eol);
        var h := Hdr(Slice(p, TrimEnd(b, p, colon)), Slice(v, TrimEnd(b, v, eol)));
        FieldShape(b, p, eol, h);
        NameShape(b, h.name);
        NumberOrNot(b, h.value);
        if |m'.hdrs| == |m.hdrs| + 1 {
          FieldShape(b, p, eol, m'.hdrs[|m.hdrs|]);
          assert m'.hdrs[..|m.hdrs|] == m.hdrs ==> m'.hdrs == m.hdrs + [m'.hdrs[|m.hdrs|]];
        }
    }
  }

  lemma NumberOrNot(b: bytes, v: Slice)
    requires v.from <= v.to <= |b|
    ensures forall n: nat :: ParseU32(b, v.from, v.to) == Some(n) <==> Number(b, v, n)
  {
    forall n: nat ensures ParseU32(b, v.from, v.to) == Some(n) <==> Number(b, v, n) { NumberShape(b, v, n); }
  }

  // ---------- lines ----------

  lemma LineShape(b: bytes, p: nat)
    requires p <= |b|
    ensures match LineEnd(b, p)
            case None => NoneOf(b, 10, p, |b|)
            case Some(l) => l.next > 0 && FirstLf(b, p, l.next - 1) && l.eol == Eol(b, p, l.next - 1)
  {
    hide Find;
    FindIff(b, LF, p, |b|);
  }

  /** The field at p, with the lines folded onto it, ends behind the first line feed that no blank
      follows. */
  predicate Ends(b: bytes, p: nat, q: nat) {
    && p < q <= |b| && b[q - 1] == 10 && (q == |b| || !Blank(b[q]))
    && forall k :: p < k < q && b[k - 1] == 10 ==> Blank(b[k])
  }

  lemma {:induction false} UnfoldShape(b: bytes, p: nat, l: Line)
    requires p < l.next <= |b| && b[l.next - 1] == 10 && l.eol == Eol(b, p, l.next - 1)
    requires forall k :: p < k < l.next && b[k - 1] == 10 ==> Blank(b[k])
    ensures l.eol < l.next
    ensures match Unfold(b, l)
            case None => forall q :: p < q <= |b| ==> !Ends(b, p, q)
            case Some(f) => f.next > 0 && Ends(b, p, f.next) && f.eol == Eol(b, p, f.next - 1)
    decreases |b| - l.next
  {
    hide LineEnd;
    if l.next < |b| && IsWs(b[l.next]) {
      LineShape(b, l.next);
      LineBounds(b, l.next);
      if LineEnd(b, l.next).Some? {
        UnfoldShape(b, p, LineEnd(b, l.next).value);
      }
    }
  }

  lemma EndsOnce(b: bytes, p: nat, q: nat, r: nat)
    requires Ends(b, p, q) && Ends(b, p, r)
    ensures q == r
  {
  }

  /** An empty line at p that ends before q. */
  predicate EmptyAt(b: bytes, p: nat, q: nat) {
    || (q == p + 1 <= |b| && b[p] == 10)
    || (q == p + 2 <= |b| && b[p] == 13 && b[p + 1] == 10)
  }

  lemma EmptyShape(b: bytes, p: nat, q: nat)
    requires p <= |b|
    ensures EmptyAt(b, p, q) <==> LineEnd(b, p) == Some(Line(p, q))
  {
    hide LineEnd;
    LineShape(b, p);
  }

  // ---------- the header section and the message ----------

  /** One field, from p to q, that takes the head from m to m'. */
  ghost predicate Step(b: bytes, p: nat, q: nat, m: Head, m': Head) {
    && p < q <= |b| && !EmptyAt(b, p, p + 1) && !EmptyAt(b, p, p + 2)
    && Ends(b, p, q) && Adds(b, p, Eol(b, p, q - 1), m, m')
  }

  ghost predicate StepAt(b: bytes, ps: seq<nat>, ms: seq<Head>, i: nat)
    requires |ps| == |ms| && i + 1 < |ps|
  {
    Step(b, ps[i], ps[i + 1], ms[i], ms[i + 1])
  }

  /** The fields of a section start at ps and build up ms; an empty line ends it. */
  ghost predicate SectionVia(b: bytes, hs: Heads, ps: seq<nat>, ms: seq<Head>) {
    && |ps| == |ms| > 0 && (forall i :: 0 <= i < |ps| - 1 ==> StepAt(b, ps, ms, i))
    && ms[|ms| - 1] == hs.head && EmptyAt(b, ps[|ps| - 1], hs.end)
  }

  ghost predicate Section(b: bytes, p: nat, m: Head, hs: Heads) {
    exists ps: seq<nat>, ms: seq<Head> :: SectionVia(b, hs, ps, ms) && ps[0] == p && ms[0] == m
  }

  /** Reading the section finds it. */
  lemma {:induction false} SectionFound(b: bytes, p: nat, m: Head, hs: Heads) returns (ps: seq<nat>, ms: seq<Head>)
    requires p <= |b| && Headers(b, p, m) == Ok(hs)
    ensures SectionVia(b, hs, ps, ms) && ps[0] == p && ms[0] == m
    decreases |b| - p
  {
    hide LineEnd, Unfold, HeaderAt, Adds, EmptyAt, Ends;
    LineShape(b, p);
    LineBounds(b, p);
    var l := LineEnd(b, p).value;
    EmptyShape(b, p, hs.end);
    if l.eol == p {
      ps, ms := [p], [m];
    } else {
      EmptyShape(b, p, p + 1);
      EmptyShape(b, p, p + 2);
      LinesBefore(b, p, l);
      UnfoldShape(b, p, l);
      UnfoldBounds(b, l);
      var f := Unfold(b, l).value;
      var m' := HeaderAt(b, p, f.eol, m).val;
      HeaderShape(b, p, f.eol, m, m');
      var qs, ns := SectionFound(b, f.next, m', hs);
      ps, ms := [p] + qs, [m] + ns;
      SectionGrows(b, hs, p, m, qs, ns);
    }
  }

  lemma LinesBefore(b: bytes, p: nat, l: Line)
    requires l.next > 0 && FirstLf(b, p, l.next - 1)
    ensures forall k :: p < k < l.next && b[k - 1] == 10 ==> Blank(b[k])
  {
  }

  lemma SectionGrows(b: bytes, hs: Heads, p: nat, m: Head, qs: seq<nat>, ns: seq<Head>)
    requires SectionVia(b, hs, qs, ns) && Step(b, p, qs[0], m, ns[0])
    ensures SectionVia(b, hs, [p] + qs, [m] + ns)
  {
    hide Step, EmptyAt;
    var ps, ms := [p] + qs, [m] + ns;
    forall i | 0 <= i < |ps| - 1 ensures StepAt(b, ps, ms, i) {
      if i > 0 { assert StepAt(b, qs, ns, i - 1); }
    }
  }

  /** And every such section is read. */
  lemma {:induction false} SectionRead(b: bytes, hs: Heads, ps: seq<nat>, ms: seq<Head>)
    requires SectionVia(b, hs, ps, ms)
    ensures ps[0] <= |b| && Headers(b, ps[0], ms[0]) == Ok(hs)
    decreases |ps|
  {
    hide LineEnd, Unfold, HeaderAt, Adds, EmptyAt, Ends;
    var p := ps[0];
    if |ps| == 1 {
      EmptyBounds(b, p, hs.end);
      EmptyShape(b, p, hs.end);
    } else {
      assert StepAt(b, ps, ms, 0);
      forall i | 0 <= i < |ps| - 2 ensures StepAt(b, ps[1..], ms[1..], i) { assert StepAt(b, ps, ms, i + 1); }
      SectionRead(b, hs, ps[1..], ms[1..]);
      FieldRead(b, p, ps[1], ms[0], ms[1]);
    }
  }

  lemma EmptyBounds(b: bytes, p: nat, q: nat)
    requires EmptyAt(b, p, q)
    ensures p < q <= |b|
  {
  }

  lemma FieldRead(b: bytes, p: nat, q: nat, m: Head, m': Head)
    requires Step(b, p, q, m, m')
    ensures Headers(b, p, m) == Headers(b, q, m')
  {
    hide LineEnd, Unfold, HeaderAt, Adds;
    LineShape(b, p);
    LineBounds(b, p);
    assert b[q - 1] == 10;
    var l := LineEnd(b, p).value;
    EmptyShape(b, p, l.next);
    LinesBefore(b, p, l);
    UnfoldShape(b, p, l);
    UnfoldBounds(b, l);
    EndsOnce(b, p, q, Unfold(b, l).value.next);
    HeaderShape(b, p, Eol(b, p, q - 1), m, m');
  }

  lemma SectionShape(b: bytes, p: nat, m: Head, hs: Heads)
    requires p <= |b|
    ensures Headers(b, p, m) == Ok(hs) <==> Section(b, p, m, hs)
  {
    hide Headers, Step, EmptyAt;
    if Headers(b, p, m) == Ok(hs) {
      var ps, ms := SectionFound(b, p, m, hs);
    }
    if Section(b, p, m, hs) {
      var ps: seq<nat>, ms: seq<Head> :| SectionVia(b, hs, ps, ms) && ps[0] == p && ms[0] == m;
      SectionRead(b, hs, ps, ms);
    }
  }

  /** Line ends before the message are skipped. */
  predicate Leading(b: bytes, p: nat) {
    && p <= |b| && (forall k :: 0 <= k < p ==> b[k] == 13 || b[k] == 10)
    && (p < |b| ==> b[p] != 13 && b[p] != 10)
  }

  lemma {:induction false} LeadingShape(b: bytes, p: nat)
    requires p <= |b| && forall k :: 0 <= k < p ==> b[k] == 13 || b[k] == 10
    ensures Leading(b, SkipBlank(b, p))
    decreases |b| - p
  {
    if p < |b| && (b[p] == CR || b[p] == LF) { LeadingShape(b, p + 1); }
  }

  /** A whole message: leading line ends, a start line, the header section, and the body its length
      names, or all that is left without one. */
  ghost predicate MessageAt(b: bytes, m: Msg, p: nat, n: nat) {
    && |b| <= 0x7FFF_FFFF && Leading(b, p) && FirstLf(b, p, n) && StartIs(b, p, Eol(b, p, n), m.start)
    && Section(b, n + 1, Head([], None), Heads(m.head, m.body.from))
    && m.used == m.body.to <= |b|
    && m.body.to == if m.head.clen.Some? then m.body.from + m.head.clen.value else |b|
  }

  ghost predicate IsMessage(b: bytes, m: Msg) {
    exists p, n :: 0 <= p <= n && MessageAt(b, m, p, n)
  }

  /** sip_msg_parse accepts exactly the messages of that shape, and finds their parts. */
  lemma ParseShape(b: bytes, m: Msg)
    ensures Parse(b) == Ok(m) <==> IsMessage(b, m)
  {
    hide LineEnd, StartOf, Headers, SkipBlank, StartIs, Section;
    LeadingShape(b, 0);
    SkipBounds(b);
    var p := SkipBlank(b, 0);
    LineShape(b, p);
    LineBounds(b, p);
    if Parse(b) == Ok(m) {
      var l := LineEnd(b, p).value;
      StartShape(b, p, l.eol, m.start);
      SectionShape(b, l.next, Head([], None), Heads(m.head, m.body.from));
      assert MessageAt(b, m, p, l.next - 1);
    }
    if p', n :| 0 <= p' <= n && MessageAt(b, m, p', n) {
      LeadingOnce(b, p, p');
      MessageParses(b, m, p, n);
    }
  }

  lemma LeadingOnce(b: bytes, p: nat, q: nat)
    requires Leading(b, p) && Leading(b, q)
    ensures p == q
  {
  }

  lemma MessageParses(b: bytes, m: Msg, p: nat, n: nat)
    requires MessageAt(b, m, p, n) && p == SkipBlank(b, 0)
    ensures Parse(b) == Ok(m)
  {
    hide LineEnd, StartOf, Headers, SkipBlank, StartIs, Section;
    LineShape(b, p);
    LineBounds(b, p);
    var l := LineEnd(b, p).value;
    assert l.next == n + 1;
    StartShape(b, p, l.eol, m.start);
    SectionShape(b, l.next, Head([], None), Heads(m.head, m.body.from));
  }
}
