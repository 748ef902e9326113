/** SIP message framing (sip_msg_parse and its helpers in sip/src/sip.c): where a message ends,
    as a function of the bytes. Slices are index ranges of the buffer. */
module SipSpec {
  import opened Basics

  const LF: byte := 10
  const CR: byte := 13
  const COLON: byte := 58
  const SPACE: byte := 32
  const MAX_HDRS := 48
  const INT_MAX := 0x7FFF_FFFF

  datatype Err = Short | BadLine | Version | BadHeader | TooMany | Inval
  datatype Res<+T> = Ok(val: T) | Fail(err: Err)

  datatype Slice = Slice(from: nat, to: nat)

  predicate IsWs(c: byte) { c == 32 || c == 9 }

  predicate IsDigit(c: byte) { 48 <= c <= 57 }

  /** c | 0x20 */
  function Lc(c: byte): byte { if c / 32 % 2 == 0 then c + 32 else c }

  /** b[i..] starts with the reference, up to letter case. */
  predicate SameText(b: bytes, i: nat, ref: bytes)
    requires i + |ref| <= |b|
  {
    forall k :: 0 <= k < |ref| ==> Lc(b[i + k]) == ref[k]
  }

  /** "sip/2.0", the same with a space, and "content-length". */
  const SIP2: bytes := [115, 105, 112, 47, 50, 46, 48]
  const SIP2_SPACE: bytes := [115, 105, 112, 47, 50, 46, 48, 32]
  const CONTENT_LENGTH: bytes := [99, 111, 110, 116, 101, 110, 116, 45, 108, 101, 110, 103, 116, 104]

  /** The first c in b[i..j]. */
  function Find(b: bytes, c: byte, i: nat, j: nat): (r: Option<nat>)
    requires j <= |b|
    ensures r.Some? ==> i <= r.value < j && b[r.value] == c
    decreases j - i
  {
    if i >= j then None else if b[i] == c then Some(i) else Find(b, c, i + 1, j)
  }

  datatype Line = Line(eol: nat, next: nat)

  /** line_end: the line that starts at p. */
  function LineEnd(b: bytes, p: nat): (r: Option<Line>)
    requires p <= |b|
    ensures r.Some? ==> p <= r.value.eol < r.value.next <= |b|
  {
    match Find(b, LF, p, |b|)
    case None => None
    case Some(n) => Some(Line(if n > p && b[n - 1] == CR then n - 1 else n, n + 1))
  }

  // ---------- the start line ----------

  datatype Start = Request(method_: Slice, uri: Slice) | Status(code: nat, reason: Slice)

  /** parse_start_line on b[p..eol]. */
  function StartOf(b: bytes, p: nat, eol: nat): (r: Res<Start>)
    requires p <= eol <= |b|
    ensures r.Fail? ==> r.err != Short
  {
    if eol - p >= 8 && SameText(b, p, SIP2_SPACE) then
      var q := p + 8;
      if eol - q < 3 || !IsDigit(b[q]) || !IsDigit(b[q + 1]) || !IsDigit(b[q + 2]) then Fail(BadLine) else
      var code := Digit(b[q]) * 100 + Digit(b[q + 1]) * 10 + Digit(b[q + 2]);
      if code < 100 then Fail(BadLine)
      else if q + 3 < eol && b[q + 3] != SPACE then Fail(BadLine)
      else Ok(Status(code, Slice(if q + 3 < eol then q + 4 else q + 3, eol)))
    else
      match Find(b, SPACE, p, eol)
      case None => Fail(BadLine)
      case Some(sp1) =>
        if sp1 == p then Fail(BadLine) else
        match Find(b, SPACE, sp1 + 1, eol)
        case None => Fail(BadLine)
        case Some(sp2) =>
          if sp2 == sp1 + 1 then Fail(BadLine)
          else if eol - sp2 - 1 != 7 || !SameText(b, sp2 + 1, SIP2) then Fail(Version)
          else Ok(Request(Slice(p, sp1), Slice(sp1 + 1, sp2)))
  }

  function Digit(c: byte): nat
    requires IsDigit(c)
  {
    c - 48
  }

  // ---------- headers ----------

  /** Without white space at the end of b[lo..hi], and at its start. */
  function TrimEnd(b: bytes, lo: nat, hi: nat): (r: nat)
    requires lo <= hi <= |b|
    ensures lo <= r <= hi
    decreases hi
  {
    if hi > lo && IsWs(b[hi - 1]) then TrimEnd(b, lo, hi - 1) else hi
  }

  function TrimStart(b: bytes, lo: nat, hi: nat): (r: nat)
    requires lo <= hi <= |b|
    ensures lo <= r <= hi
    decreases hi - lo
  {
    if lo < hi && IsWs(b[lo]) then TrimStart(b, lo + 1, hi) else lo
  }

  /** The name is Content-Length or its compact form. */
  predicate IsContentLength(b: bytes, n: Slice)
    requires n.from <= n.to <= |b|
  {
    if n.to - n.from == 1 then Lc(b[n.from]) == 108
    else n.to - n.from == 14 && SameText(b, n.from, CONTENT_LENGTH)
  }

  /** The number b[i..j] spells, unless something in it is not a digit. */
  function Decimal(b: bytes, i: nat, j: nat): Option<nat>
    requires i <= j <= |b|
    decreases j
  {
    if i == j then Some(0) else
    match Decimal(b, i, j - 1)
    case None => None
    case Some(v) => if IsDigit(b[j - 1]) then Some(v * 10 + Digit(b[j - 1])) else None
  }

  /** sip_parse_u32. */
  function ParseU32(b: bytes, i: nat, j: nat): Option<nat>
    requires i <= j <= |b|
  {
    if j == i || j - i > 10 then None else
    match Decimal(b, i, j)
    case Some(v) => if v > 0xFFFF_FFFF then None else Some(v)
    case None => None
  }

  datatype Hdr = Hdr(name: Slice, value: Slice)

  datatype Head = Head(hdrs: seq<Hdr>, clen: Option<nat>)

  /** One header field on b[p..eol], added to those before it. */
  function HeaderAt(b: bytes, p: nat, eol: nat, m: Head): (r: Res<Head>)
    requires p <= eol <= |b|
    ensures r.Fail? ==> r.err != Short
  {
    match Find(b, COLON, p, eol)
    case None => Fail(BadHeader)
    case Some(colon) =>
      var ne := TrimEnd(b, p, colon);
      if ne == p then Fail(BadHeader) else
      var v := TrimStart(b, colon + 1, eol);
      var ve := TrimEnd(b, v, eol);
      if |m.hdrs| >= MAX_HDRS then Fail(TooMany) else
      var h := Hdr(Slice(p, ne), Slice(v, ve));
      if !IsContentLength(b, h.name) then Ok(Head(m.hdrs + [h], m.clen)) else
      match ParseU32(b, v, ve)
      case None => Fail(BadHeader)
      case Some(n) => Ok(Head(m.hdrs + [h], Some(n)))
  }

  /** A header line with its continuation lines; None when one of them is not all there. */
  function Unfold(b: bytes, l: Line): (r: Option<Line>)
    requires l.eol < l.next <= |b|
    ensures r.Some? ==> l.next <= r.value.next <= |b| && l.eol <= r.value.eol < r.value.next
    decreases |b| - l.next
  {
    if l.next < |b| && IsWs(b[l.next]) then
      match LineEnd(b, l.next)
      case None => None
      case Some(l2) => Unfold(b, l2)
    else Some(l)
  }

  datatype Heads = Heads(head: Head, end: nat)

  /** The header section from p on. */
  function Headers(b: bytes, p: nat, m: Head): (r: Res<Heads>)
    requires p <= |b|
    ensures r.Ok? ==> p < r.val.end <= |b|
    decreases |b| - p
  {
    match LineEnd(b, p)
    case None => Fail(Short)
    case Some(l) =>
      if l.eol == p then Ok(Heads(m, l.next)) else
      match Unfold(b, l)
      case None => Fail(Short)
      case Some(f) =>
        match HeaderAt(b, p, f.eol, m)
        case Fail(e) => Fail(e)
        case Ok(m') => Headers(b, f.next, m')
  }

  function SkipBlank(b: bytes, p: nat): (r: nat)
    requires p <= |b|
    ensures p <= r <= |b|
    decreases |b| - p
  {
    if p < |b| && (b[p] == CR || b[p] == LF) then SkipBlank(b, p + 1) else p
  }

  datatype Msg = Msg(start: Start, head: Head, body: Slice, used: nat)

  /** sip_msg_parse, but for its limit on the length of the buffer. */
  function Frame(b: bytes): (r: Res<Msg>)
    ensures r.Ok? ==> 0 < r.val.used <= |b|
  {
    var p := SkipBlank(b, 0);
    match LineEnd(b, p)
    case None => Fail(Short)
    case Some(l) =>
      match StartOf(b, p, l.eol)
      case Fail(e) => Fail(e)
      case Ok(start) =>
        match Headers(b, l.next, Head([], None))
        case Fail(e) => Fail(e)
        case Ok(hs) =>
          match hs.head.clen
          case Some(n) =>
            if n > |b| - hs.end then Fail(Short)
            else Ok(Msg(start, hs.head, Slice(hs.end, hs.end + n), hs.end + n))
          case None => Ok(Msg(start, hs.head, Slice(hs.end, |b|), |b|))
  }

  /** sip_msg_parse. */
  function Parse(b: bytes): (r: Res<Msg>)
    ensures r.Ok? ==> 0 < r.val.used <= |b|
  {
    if |b| > INT_MAX then Fail(Inval) else Frame(b)
  }

  // ---------- a buffer and a longer one ----------

  lemma PrefixAt(a: bytes, b: bytes, i: nat)
    requires a <= b && i < |a|
    ensures a[i] == b[i]
  {
  }

  lemma {:induction false} FindSame(a: bytes, b: bytes, c: byte, i: nat, j: nat)
    requires a <= b && j <= |a|
    ensures Find(a, c, i, j) == Find(b, c, i, j)
    decreases j - i
  {
    if i < j {
      PrefixAt(a, b, i);
      FindSame(a, b, c, i + 1, j);
    }
  }

  lemma {:induction false} FindCut(b: bytes, c: byte, i: nat, j: nat, n: nat)
    requires j <= n <= |b|
    ensures Find(b, c, i, j) == match Find(b, c, i, n) case None => None case Some(k) => if k < j then Some(k) else None
    decreases j - i
  {
    if i < j && b[i] != c { FindCut(b, c, i + 1, j, n); }
  }

  /** A line is found in the shorter buffer exactly when all of it is there. */
  lemma LineSame(a: bytes, b: bytes, p: nat)
    requires a <= b && p <= |a|
    ensures LineEnd(a, p) == match LineEnd(b, p) case None => None case Some(l) => if l.next <= |a| then Some(l) else None
  {
    hide Find;
    FindSame(a, b, LF, p, |a|);
    FindCut(b, LF, p, |a|, |b|);
    FindBounds(b, p);
  }

  lemma FindBounds(b: bytes, p: nat)
    ensures Find(b, LF, p, |b|).Some? ==> p <= Find(b, LF, p, |b|).value < |b|
  {
  }

  lemma SameTextSame(a: bytes, b: bytes, i: nat, ref: bytes)
    requires a <= b && i + |ref| <= |a|
    ensures SameText(a, i, ref) == SameText(b, i, ref)
  {
    forall k | 0 <= k < |ref| ensures Lc(a[i + k]) == ref[k] <==> Lc(b[i + k]) == ref[k] {
      PrefixAt(a, b, i + k);
    }
  }

  lemma {:induction false} TrimEndSame(a: bytes, b: bytes, lo: nat, hi: nat)
    requires a <= b && lo <= hi <= |a|
    ensures TrimEnd(a, lo, hi) == TrimEnd(b, lo, hi)
    decreases hi
  {
    if hi > lo {
      PrefixAt(a, b, hi - 1);
      TrimEndSame(a, b, lo, hi - 1);
    }
  }

  lemma {:induction false} TrimStartSame(a: bytes, b: bytes, lo: nat, hi: nat)
    requires a <= b && lo <= hi <= |a|
    ensures TrimStart(a, lo, hi) == TrimStart(b, lo, hi)
    decreases hi - lo
  {
    if lo < hi {
      PrefixAt(a, b, lo);
      TrimStartSame(a, b, lo + 1, hi);
    }
  }

  lemma {:induction false} DecimalSame(a: bytes, b: bytes, i: nat, j: nat)
    requires a <= b && i <= j <= |a|
    ensures Decimal(a, i, j) == Decimal(b, i, j)
    decreases j
  {
    if i < j {
      PrefixAt(a, b, j - 1);
      DecimalSame(a, b, i, j - 1);
    }
  }

  lemma StartSame(a: bytes, b: bytes, p: nat, eol: nat)
    requires a <= b && p <= eol <= |a|
    ensures StartOf(a, p, eol) == StartOf(b, p, eol)
  {
    hide Find, SameText;
    if eol - p >= 8 {
      SameTextSame(a, b, p, SIP2_SPACE);
    }
    if eol - p >= 11 {
      PrefixAt(a, b, p + 8);
      PrefixAt(a, b, p + 9);
      PrefixAt(a, b, p + 10);
    }
    if eol - p >= 12 { PrefixAt(a, b, p + 11); }
    FindSame(a, b, SPACE, p, eol);
    FindFound(b, SPACE, p, eol);
    if Find(b, SPACE, p, eol).Some? {
      var sp1 := Find(b, SPACE, p, eol).value;
      FindSame(a, b, SPACE, sp1 + 1, eol);
      FindFound(b, SPACE, sp1 + 1, eol);
      if Find(b, SPACE, sp1 + 1, eol).Some? {
        var sp2 := Find(b, SPACE, sp1 + 1, eol).value;
        if eol - sp2 - 1 == 7 { SameTextSame(a, b, sp2 + 1, SIP2); }
      }
    }
  }

  lemma FindFound(b: bytes, c: byte, i: nat, j: nat)
    requires j <= |b|
    ensures Find(b, c, i, j).Some? ==> i <= Find(b, c, i, j).value < j
  {
  }

  lemma HeaderSame(a: bytes, b: bytes, p: nat, eol: nat, m: Head)
    requires a <= b && p <= eol <= |a|
    ensures HeaderAt(a, p, eol, m) == HeaderAt(b, p, eol, m)
  {
    hide Find, SameText, TrimEnd, TrimStart, Decimal;
    FindSame(a, b, COLON, p, eol);
    FindFound(b, COLON, p, eol);
    if Find(b, COLON, p, eol).Some? {
      var colon := Find(b, COLON, p, eol).value;
      TrimEndSame(a, b, p, colon);
      TrimBounds(b, p, colon);
      TrimStartSame(a, b, colon + 1, eol);
      TrimBounds(b, colon + 1, eol);
      var ne, v := TrimEnd(b, p, colon), TrimStart(b, colon + 1, eol);
      TrimEndSame(a, b, v, eol);
      TrimBounds(b, v, eol);
      NameSame(a, b, Slice(p, ne));
      DecimalSame(a, b, v, TrimEnd(b, v, eol));
    }
  }

  lemma TrimBounds(b: bytes, lo: nat, hi: nat)
    requires lo <= hi <= |b|
    ensures lo <= TrimEnd(b, lo, hi) <= hi && lo <= TrimStart(b, lo, hi) <= hi
  {
  }

  lemma NameSame(a: bytes, b: bytes, n: Slice)
    requires a <= b && n.from <= n.to <= |a|
    ensures IsContentLength(a, n) == IsContentLength(b, n)
  {
    hide SameText;
    if n.to - n.from == 1 { PrefixAt(a, b, n.from); }
    if n.to - n.from == 14 { SameTextSame(a, b, n.from, CONTENT_LENGTH); }
  }

  lemma {:induction false} SkipSame(a: bytes, b: bytes, p: nat)
    requires a <= b && p <= |a|
    ensures SkipBlank(a, p) == if SkipBlank(b, p) <= |a| then SkipBlank(b, p) else |a|
    decreases |a| - p
  {
    if p < |a| {
      PrefixAt(a, b, p);
      SkipSame(a, b, p + 1);
    }
  }

  // ---------- extensions ----------

  lemma {:induction false} UnfoldSame(a: bytes, b: bytes, l: Line)
    requires a <= b && l.eol < l.next <= |a| && Unfold(a, l).Some? && Unfold(a, l).value.next < |a|
    ensures Unfold(b, l) == Unfold(a, l)
    decreases |a| - l.next
  {
    hide LineEnd;
    UnfoldBounds(a, l);
    PrefixAt(a, b, l.next);
    if IsWs(a[l.next]) {
      LineSame(a, b, l.next);
      LineBounds(a, l.next);
      UnfoldSame(a, b, LineEnd(a, l.next).value);
    }
  }

  lemma UnfoldBounds(b: bytes, l: Line)
    requires l.eol < l.next <= |b|
    ensures Unfold(b, l).Some? ==> l.next <= Unfold(b, l).value.next <= |b| && l.eol <= Unfold(b, l).value.eol < Unfold(b, l).value.next
  {
  }

  lemma LineBounds(b: bytes, p: nat)
    requires p <= |b|
    ensures LineEnd(b, p).Some? ==> p <= LineEnd(b, p).value.eol < LineEnd(b, p).value.next <= |b|
  {
  }

  /** A complete header section reads the same in a longer buffer. */
  lemma {:induction false} HeadersExtend(a: bytes, b: bytes, p: nat, m: Head)
    requires a <= b && p <= |a| && Headers(a, p, m).Ok?
    ensures Headers(b, p, m) == Headers(a, p, m)
    decreases |a| - p
  {
    hide LineEnd, Unfold, HeaderAt;
    LineSame(a, b, p);
    LineBounds(a, p);
    var l := LineEnd(a, p).value;
    if l.eol != p {
      UnfoldBounds(a, l);
      var f := Unfold(a, l).value;
      HeadersSome(a, f.next, HeaderAt(a, p, f.eol, m).val);
      UnfoldSame(a, b, l);
      HeaderSame(a, b, p, f.eol, m);
      HeadersExtend(a, b, f.next, HeaderAt(a, p, f.eol, m).val);
    }
  }

  lemma HeadersSome(b: bytes, p: nat, m: Head)
    requires p <= |b| && Headers(b, p, m).Ok?
    ensures p < |b|
  {
  }

  /** An accepted message with Content-Length is the same message, of the same length, whatever
      follows it. */
  lemma ParseExtend(a: bytes, b: bytes)
    requires a <= b && |b| <= INT_MAX && Parse(a).Ok? && Parse(a).val.head.clen.Some?
    ensures Parse(b) == Parse(a)
  {
    hide LineEnd, StartOf, Headers, SkipBlank;
    SkipSame(a, b, 0);
    SkipWhole(a, b);
    var p := SkipBlank(a, 0);
    LineSame(a, b, p);
    LineBounds(a, p);
    var l := LineEnd(a, p).value;
    StartSame(a, b, p, l.eol);
    HeadersExtend(a, b, l.next, Head([], None));
  }

  /** A line starts somewhere, so the skipping stopped in both buffers at one place. */
  lemma SkipWhole(a: bytes, b: bytes)
    requires a <= b && LineEnd(a, SkipBlank(a, 0)).Some?
    ensures SkipBlank(b, 0) == SkipBlank(a, 0)
  {
    SkipSame(a, b, 0);
    SkipStops(a, 0);
    if SkipBlank(a, 0) < |a| {
      SkipStays(a, b, 0);
    }
  }

  lemma {:induction false} SkipStops(b: bytes, p: nat)
    requires p <= |b|
    ensures SkipBlank(b, p) < |b| ==> b[SkipBlank(b, p)] != CR && b[SkipBlank(b, p)] != LF
    decreases |b| - p
  {
    if p < |b| && (b[p] == CR || b[p] == LF) { SkipStops(b, p + 1); }
  }

  lemma {:induction false} SkipStays(a: bytes, b: bytes, p: nat)
    requires a <= b && p <= |a| && SkipBlank(a, p) < |a|
    ensures SkipBlank(b, p) == SkipBlank(a, p)
    decreases |a| - p
  {
    PrefixAt(a, b, p);
    if a[p] == CR || a[p] == LF { SkipStays(a, b, p + 1); }
  }

  // ---------- prefixes ----------

  /** The continuation line boundary at j, if the lines folded onto l have one there. */
  function FoldAt(b: bytes, l: Line, j: nat): (r: Option<Line>)
    requires l.eol < l.next <= |b|
    ensures r.Some? ==> l.eol <= r.value.eol < r.value.next == j <= |b|
    decreases |b| - l.next
  {
    if l.next < |b| && IsWs(b[l.next]) then
      if l.next == j then Some(l) else
      match LineEnd(b, l.next)
      case None => None
      case Some(l2) => FoldAt(b, l2, j)
    else None
  }

  /** A buffer cut inside a folded header ends inside a line, or at a fold. */
  lemma {:induction false} UnfoldCut(a: bytes, b: bytes, l: Line)
    requires a <= b && l.eol < l.next <= |a| && Unfold(b, l).Some?
    ensures Unfold(b, l).value.next <= |a| ==> Unfold(a, l) == Unfold(b, l)
    ensures Unfold(b, l).value.next > |a| ==> Unfold(a, l) == FoldAt(b, l, |a|)
    decreases |b| - l.next
  {
    hide LineEnd;
    UnfoldBounds(b, l);
    if l.next < |b| && IsWs(b[l.next]) && l.next < |a| {
      PrefixAt(a, b, l.next);
      LineSame(a, b, l.next);
      LineBounds(b, l.next);
      var l2 := LineEnd(b, l.next).value;
      UnfoldBounds(b, l2);
      if l2.next <= |a| {
        UnfoldCut(a, b, l2);
      } else {
        FoldPast(b, l2, |a|);
      }
    } else if l.next < |a| {
      PrefixAt(a, b, l.next);
    }
  }

  lemma {:induction false} FoldPast(b: bytes, l: Line, j: nat)
    requires l.eol < l.next <= |b| && j < l.next
    ensures FoldAt(b, l, j) == None
    decreases |b| - l.next
  {
    if l.next < |b| && IsWs(b[l.next]) && LineEnd(b, l.next).Some? { FoldPast(b, LineEnd(b, l.next).value, j); }
  }

  /** Cutting the header section at j leaves a folded header whose part before the fold is not a
      header field of its own. */
  predicate BadCut(b: bytes, p: nat, m: Head, j: nat)
    requires p <= |b|
    decreases |b| - p
  {
    match LineEnd(b, p)
    case None => false
    case Some(l) =>
      if l.eol == p then false else
      match Unfold(b, l)
      case None => false
      case Some(f) =>
        if j < f.next then
          match FoldAt(b, l, j) case None => false case Some(g) => HeaderAt(b, p, g.eol, m).Fail?
        else
          match HeaderAt(b, p, f.eol, m) case Fail(_) => false case Ok(m') => BadCut(b, f.next, m', j)
  }

  /** The header section cut short asks for more, except at a bad cut. */
  lemma {:induction false} HeadersCut(a: bytes, b: bytes, p: nat, m: Head)
    requires a <= b && p <= |a| && Headers(b, p, m).Ok?
    ensures |a| >= Headers(b, p, m).val.end ==> Headers(a, p, m) == Headers(b, p, m)
    ensures |a| < Headers(b, p, m).val.end ==>
              Headers(a, p, m).Fail? && (Headers(a, p, m).err == Short <==> !BadCut(b, p, m, |a|))
    decreases |b| - p
  {
    hide LineEnd, Unfold, HeaderAt, FoldAt;
    LineSame(a, b, p);
    LineBounds(b, p);
    var l := LineEnd(b, p).value;
    if l.eol != p {
      UnfoldBounds(b, l);
      var f := Unfold(b, l).value;
      HeadersPast(b, p, m);
      if l.next <= |a| {
        UnfoldCut(a, b, l);
        FoldBounds(b, l, |a|);
        if f.next <= |a| {
          HeaderSame(a, b, p, f.eol, m);
          HeadersCut(a, b, f.next, HeaderAt(b, p, f.eol, m).val);
        } else if FoldAt(b, l, |a|).Some? {
          var g := FoldAt(b, l, |a|).value;
          HeaderSame(a, b, p, g.eol, m);
          HeaderErr(b, p, g.eol, m);
          HeadersAtEnd(a, HeaderAt(b, p, g.eol, m));
        }
      } else {
        FoldPast(b, l, |a|);
      }
    }
  }

  lemma FoldBounds(b: bytes, l: Line, j: nat)
    requires l.eol < l.next <= |b|
    ensures FoldAt(b, l, j).Some? ==> l.eol <= FoldAt(b, l, j).value.eol < FoldAt(b, l, j).value.next == j <= |b|
  {
  }

  lemma HeaderErr(b: bytes, p: nat, eol: nat, m: Head)
    requires p <= eol <= |b|
    ensures HeaderAt(b, p, eol, m).Fail? ==> HeaderAt(b, p, eol, m).err != Short
  {
  }

  lemma HeadersAtEnd(a: bytes, r: Res<Head>)
    ensures r.Ok? ==> Headers(a, |a|, r.val) == Fail(Short)
  {
  }

  lemma HeadersPast(b: bytes, p: nat, m: Head)
    requires p <= |b| && Headers(b, p, m).Ok? && LineEnd(b, p).Some?
    ensures LineEnd(b, p).value.next <= Headers(b, p, m).val.end
  {
  }

  /** The first line of the headers. */
  function HeadStart(b: bytes): Option<nat> {
    match LineEnd(b, SkipBlank(b, 0)) case None => None case Some(l) => Some(l.next)
  }

  /** For every accepted message with Content-Length, a proper prefix of what it consumes is short,
      exactly unless it is cut at a fold behind something that is no header field. */
  lemma ParseCut(b: bytes, j: nat)
    requires Parse(b).Ok? && Parse(b).val.head.clen.Some? && j < Parse(b).val.used
    ensures HeadStart(b).Some?
    ensures Parse(b[..j]).Fail?
    ensures Parse(b[..j]).err == Short <==> !(HeadStart(b).value <= j && BadCut(b, HeadStart(b).value, Head([], None), j))
  {
    hide LineEnd, StartOf, Headers, SkipBlank, BadCut;
    var a := b[..j];
    SkipSame(a, b, 0);
    var p := SkipBlank(b, 0);
    SkipBounds(b);
    LineBounds(b, p);
    var l := LineEnd(b, p).value;
    if p <= j {
      LineSame(a, b, p);
      if l.next <= j {
        StartSame(a, b, p, l.eol);
        HeadersCut(a, b, l.next, Head([], None));
        if Headers(b, l.next, Head([], None)).val.end <= j { BadCutInside(b, l.next, Head([], None), j); }
      }
    } else {
      NoLine(a);
    }
  }

  lemma SkipBounds(b: bytes)
    ensures SkipBlank(b, 0) <= |b|
  {
  }

  lemma NoLine(a: bytes)
    ensures LineEnd(a, |a|) == None
  {
  }

  /** There is no bad cut past the headers. */
  lemma {:induction false} BadCutInside(b: bytes, p: nat, m: Head, j: nat)
    requires p <= |b| && Headers(b, p, m).Ok? && Headers(b, p, m).val.end <= j
    ensures !BadCut(b, p, m, j)
    decreases |b| - p
  {
    hide LineEnd, Unfold, HeaderAt, FoldAt;
    LineBounds(b, p);
    var l := LineEnd(b, p).value;
    if l.eol != p {
      UnfoldBounds(b, l);
      var f := Unfold(b, l).value;
      BadCutInside(b, f.next, HeaderAt(b, p, f.eol, m).val, j);
    }
  }

  /** No header line is folded. */
  predicate Flat(b: bytes, p: nat, m: Head)
    requires p <= |b|
    decreases |b| - p
  {
    match LineEnd(b, p)
    case None => true
    case Some(l) =>
      if l.eol == p then true else
      && !(l.next < |b| && IsWs(b[l.next]))
      && match HeaderAt(b, p, l.eol, m) case Fail(_) => true case Ok(m') => Flat(b, l.next, m')
  }

  lemma {:induction false} FlatHasNoBadCut(b: bytes, p: nat, m: Head, j: nat)
    requires p <= |b| && Flat(b, p, m)
    ensures !BadCut(b, p, m, j)
    decreases |b| - p
  {
    hide HeaderAt;
    LineBounds(b, p);
    hide LineEnd;
    if LineEnd(b, p).Some? && LineEnd(b, p).value.eol != p {
      var l := LineEnd(b, p).value;
      match HeaderAt(b, p, l.eol, m) {
        case Fail(_) =>
        case Ok(m') => FlatHasNoBadCut(b, l.next, m', j);
      }
    }
  }

  /** So a message without folded lines asks for more on every proper prefix. */
  lemma FlatPrefixShort(b: bytes, j: nat)
    requires Parse(b).Ok? && Parse(b).val.head.clen.Some? && j < Parse(b).val.used
    requires HeadStart(b).Some? && HeadStart(b).value <= |b| && Flat(b, HeadStart(b).value, Head([], None))
    ensures Parse(b[..j]) == Fail(Short)
  {
    hide Parse, Flat, BadCut, HeadStart;
    ParseCut(b, j);
    FlatHasNoBadCut(b, HeadStart(b).value, Head([], None), j);
  }

  // ---------- streams ----------

  /** A whole message that carries its length. */
  predicate Whole(m: bytes) {
    Parse(m).Ok? && Parse(m).val.head.clen.Some? && Parse(m).val.used == |m|
  }

  function Join(ms: seq<bytes>): bytes {
    if ms == [] then [] else ms[0] + Join(ms[1..])
  }

  /** What repeated calls take off a stream until one of them fails, and what is left. */
  function Frames(b: bytes): (seq<bytes>, bytes)
    decreases |b|
  {
    match Parse(b)
    case Fail(_) => ([], b)
    case Ok(m) =>
      var (fs, rest) := Frames(b[m.used..]);
      ([b[..m.used]] + fs, rest)
  }

  /** Repeated calls split a concatenation back into its messages, and keep an unfinished tail. */
  lemma {:induction false} StreamSplits(ms: seq<bytes>, tail: bytes)
    requires (forall i :: 0 <= i < |ms| ==> Whole(ms[i])) && |Join(ms) + tail| <= INT_MAX
    requires Parse(tail).Fail?
    ensures Frames(Join(ms) + tail) == (ms, tail)
    decreases |ms|
  {
    hide Parse;
    if ms == [] {
      assert Join(ms) + tail == tail;
    } else {
      var m, rest := ms[0], Join(ms[1..]) + tail;
      var b := Join(ms) + tail;
      assert b == m + rest;
      assert Whole(ms[0]);
      ParseExtend(m, b);
      assert b[..|m|] == m && b[|m|..] == rest;
      StreamSplits(ms[1..], tail);
      assert ms == [m] + ms[1..];
    }
  }

  /** A whole message without folded lines. */
  predicate Plain(m: bytes) {
    Whole(m) && HeadStart(m).Some? && HeadStart(m).value <= |m| && Flat(m, HeadStart(m).value, Head([], None))
  }

  predicate AllPlain(ms: seq<bytes>) { forall i :: 0 <= i < |ms| ==> Plain(ms[i]) }

  /** A stream of messages, wherever it is cut: the messages that are all there, and a proper
      prefix of the next one. */
  ghost predicate CutAt(ms: seq<bytes>, b: bytes, x: bytes, k: nat, tail: bytes)
  {
    && k <= |ms| && b == Join(ms[..k]) + tail && tail + x == Join(ms[k..])
    && if k == |ms| then tail == [] else |tail| < |ms[k]| && tail == ms[k][..|tail|]
  }

  lemma {:induction false} Cut(ms: seq<bytes>, b: bytes, x: bytes) returns (k: nat, tail: bytes)
    requires b + x == Join(ms) && forall i :: 0 <= i < |ms| ==> ms[i] != []
    ensures CutAt(ms, b, x, k, tail)
    decreases |ms|
  {
    if ms == [] || |b| < |ms[0]| {
      k, tail := 0, b;
      assert ms[0..] == ms && Join(ms[..0]) + b == b;
      if ms != [] { assert b == (b + x)[..|b|] == ms[0][..|b|]; }
    } else {
      var m := ms[0];
      assert b[..|m|] == (b + x)[..|m|] == m;
      assert b[|m|..] + x == (b + x)[|m|..] == Join(ms[1..]);
      k, tail := Cut(ms[1..], b[|m|..], x);
      CutFirst(ms, b, x, k, tail);
      k := k + 1;
    }
  }

  lemma CutFirst(ms: seq<bytes>, b: bytes, x: bytes, k: nat, tail: bytes)
    requires ms != [] && |ms[0]| <= |b| && b[..|ms[0]|] == ms[0] && CutAt(ms[1..], b[|ms[0]|..], x, k, tail)
    ensures CutAt(ms, b, x, k + 1, tail)
  {
    assert ms[..k + 1][1..] == ms[1..][..k] && ms[k + 1..] == ms[1..][k..];
    assert b == ms[0] + (Join(ms[1..][..k]) + tail);
  }

  lemma PlainFacts(m: bytes)
    requires Plain(m)
    ensures Whole(m) && m != [] && forall i :: 0 <= i < |m| ==> Parse(m[..i]) == Fail(Short)
  {
    hide Flat, HeadStart, Parse;
    WholeSome(m);
    forall i | 0 <= i < |m| ensures Parse(m[..i]) == Fail(Short) { FlatPrefixShort(m, i); }
  }

  lemma WholeSome(m: bytes)
    requires Whole(m)
    ensures m != []
  {
  }

  /** Every prefix of a stream gives the messages that are all there, and asks for more. */
  lemma CutStream(ms: seq<bytes>, b: bytes, x: bytes) returns (k: nat, tail: bytes)
    requires AllPlain(ms) && |b| <= INT_MAX && b + x == Join(ms)
    ensures CutAt(ms, b, x, k, tail) && Frames(b) == (ms[..k], tail) && Parse(tail) == Fail(Short)
  {
    hide Plain, Parse, Frames, Whole;
    forall i | 0 <= i < |ms| ensures Whole(ms[i]) && ms[i] != [] { PlainFacts(ms[i]); }
    k, tail := Cut(ms, b, x);
    EmptyShort();
    if k < |ms| { PlainFacts(ms[k]); }
    StreamSplits(ms[..k], tail);
  }

  lemma EmptyShort()
    ensures Parse([]) == Fail(Short)
  {
  }

  /** A reader that is fed chunks: what it has handed out, and what it still holds. */
  function Feed(held: bytes, chunks: seq<bytes>): (seq<bytes>, bytes)
    decreases |chunks|
  {
    if chunks == [] then ([], held) else
    var (fs, rest) := Frames(held + chunks[0]);
    var (more, left) := Feed(rest, chunks[1..]);
    (fs + more, left)
  }

  /** No chunk makes the reader hold more than the parser takes. */
  predicate Roomy(held: bytes, chunks: seq<bytes>)
    decreases |chunks|
  {
    chunks != [] ==> |held + chunks[0]| <= INT_MAX && Roomy(Frames(held + chunks[0]).1, chunks[1..])
  }

  /** However a stream of any length is divided into chunks, the reader hands out its messages and
      holds nothing at the end. */
  lemma ChunksDeliver(ms: seq<bytes>, chunks: seq<bytes>)
    requires AllPlain(ms) && Roomy([], chunks) && Join(chunks) == Join(ms)
    ensures Feed([], chunks) == (ms, [])
  {
    assert [] + Join(chunks) == Join(ms) && ms[0..] == ms;
    assert ms != [] ==> Plain(ms[0]);
    if ms != [] { PlainFacts(ms[0]); }
    ChunksFrom([], ms, chunks);
  }

  lemma {:induction false} ChunksFrom(held: bytes, ms: seq<bytes>, chunks: seq<bytes>)
    requires AllPlain(ms) && Roomy(held, chunks) && held + Join(chunks) == Join(ms)
    requires if ms == [] then held == [] else |held| < |ms[0]|
    ensures Feed(held, chunks) == (ms, [])
    decreases |chunks|
  {
    hide Plain, Parse, Frames;
    if chunks == [] {
      assert held + [] == held;
    } else {
      var b, x := held + chunks[0], Join(chunks[1..]);
      assert held + Join(chunks) == b + x;
      var k, tail := CutStream(ms, b, x);
      ChunksFrom(tail, ms[k..], chunks[1..]);
      assert ms[..k] + ms[k..] == ms;
    }
  }

  // ---------- a message that is cut badly ----------

  /** A request whose first header is "X", a fold, ":y"; then a compact Content-Length of 0. */
  const FOLDED: bytes :=
    [65, 32, 66, 32, 83, 73, 80, 47, 50, 46, 48, 10, 88, 10, 32, 58, 121, 10, 108, 58, 48, 10, 10]

  lemma {:induction false} FindIs(b: bytes, c: byte, i: nat, j: nat, k: nat)
    requires i <= k < j <= |b| && b[k] == c && forall n :: i <= n < k ==> b[n] != c
    ensures Find(b, c, i, j) == Some(k)
    decreases k - i
  {
    if i < k { FindIs(b, c, i + 1, j, k); }
  }

  lemma LineIs(b: bytes, p: nat, k: nat)
    requires p <= k < |b| && b[k] == LF && (forall n :: p <= n < k ==> b[n] != LF && b[n] != CR)
    ensures LineEnd(b, p) == Some(Line(k, k + 1))
  {
    FindIs(b, LF, p, |b|, k);
  }

  lemma FoldedStart()
    ensures SkipBlank(FOLDED, 0) == 0 && LineEnd(FOLDED, 0) == Some(Line(11, 12)) && StartOf(FOLDED, 0, 11).Ok?
  {
    LineIs(FOLDED, 0, 11);
    FindIs(FOLDED, SPACE, 0, 11, 1);
    FindIs(FOLDED, SPACE, 2, 11, 3);
    hide Find;
    assert Lc(FOLDED[0 + 0]) != SIP2_SPACE[0];
    assert !SameText(FOLDED, 0, SIP2_SPACE);
    assert SameText(FOLDED, 4, SIP2);
  }

  lemma FoldedFirst(m: Head)
    requires m == Head([], None)
    ensures LineEnd(FOLDED, 12) == Some(Line(13, 14)) && Unfold(FOLDED, Line(13, 14)) == Some(Line(17, 18))
    ensures HeaderAt(FOLDED, 12, 17, m) == Ok(Head([Hdr(Slice(12, 14), Slice(16, 17))], None))
    ensures FoldAt(FOLDED, Line(13, 14), 14) == Some(Line(13, 14)) && HeaderAt(FOLDED, 12, 13, m) == Fail(BadHeader)
  {
    LineIs(FOLDED, 12, 13);
    LineIs(FOLDED, 14, 17);
    FindIs(FOLDED, COLON, 12, 17, 15);
    assert Find(FOLDED, COLON, 12, 13) == None;
    hide Find, LineEnd;
    assert TrimEnd(FOLDED, 12, 15) == 14;
    assert TrimStart(FOLDED, 16, 17) == 16 && TrimEnd(FOLDED, 16, 17) == 17;
    assert !IsContentLength(FOLDED, Slice(12, 14));
    assert m.hdrs + [Hdr(Slice(12, 14), Slice(16, 17))] == [Hdr(Slice(12, 14), Slice(16, 17))];
  }

  lemma FoldedRest(m: Head)
    requires |m.hdrs| == 1
    ensures Headers(FOLDED, 18, m) == Ok(Heads(Head(m.hdrs + [Hdr(Slice(18, 19), Slice(20, 21))], Some(0)), 23))
  {
    LineIs(FOLDED, 18, 21);
    LineIs(FOLDED, 22, 22);
    FindIs(FOLDED, COLON, 18, 22, 19);
    FindCut(FOLDED, COLON, 18, 21, 22);
    hide Find, LineEnd;
    assert TrimEnd(FOLDED, 18, 19) == 19;
    assert TrimStart(FOLDED, 20, 21) == 20 && TrimEnd(FOLDED, 20, 21) == 21;
    assert Decimal(FOLDED, 20, 21) == Some(0) by { assert Decimal(FOLDED, 20, 20) == Some(0); }
    var h := HeaderAt(FOLDED, 18, 21, m);
    assert h == Ok(Head(m.hdrs + [Hdr(Slice(18, 19), Slice(20, 21))], Some(0)));
    assert Unfold(FOLDED, Line(21, 22)) == Some(Line(21, 22));
    hide HeaderAt, Unfold;
    assert Headers(FOLDED, 22, h.val) == Ok(Heads(h.val, 23));
  }

  /** The whole of it is accepted; cut at the fold it is refused, and more is not asked for. */
  lemma FoldedCutFails()
    ensures Parse(FOLDED).Ok? && Parse(FOLDED).val.head.clen == Some(0) && Parse(FOLDED).val.used == 23
    ensures Parse(FOLDED[..14]).Fail? && Parse(FOLDED[..14]).err != Short
  {
    var m := Head([], None);
    FoldedStart();
    FoldedFirst(m);
    FoldedRest(Head([Hdr(Slice(12, 14), Slice(16, 17))], None));
    hide LineEnd, StartOf, HeaderAt, Unfold, SkipBlank, FoldAt;
    assert Headers(FOLDED, 12, m).Ok? && Headers(FOLDED, 12, m).val.head.clen == Some(0);
    assert BadCut(FOLDED, 12, m, 14);
    hide Headers, BadCut;
    assert |FOLDED| == 23;
    ParseCut(FOLDED, 14);
  }
}

/** The parser as the code runs it, proved against SipSpec. */
module Sip {
  import opened Basics
  import opened SipSpec

  /** memchr on b[i..j]. */
  method Seek(b: bytes, c: byte, i: nat, j: nat) returns (r: Option<nat>)
    requires i <= j <= |b|
    ensures r == Find(b, c, i, j)
  {
    var k := i;
    while k < j
      invariant i <= k <= j && Find(b, c, i, j) == Find(b, c, k, j)
    {
      if b[k] == c { return Some(k); }
      k := k + 1;
    }
    return None;
  }

  /** line_end. */
  method LineOf(b: bytes, p: nat) returns (r: Option<Line>)
    requires p <= |b|
    ensures r == LineEnd(b, p)
  {
    var n := Seek(b, LF, p, |b|);
    if n.None? { return None; }
    return Some(Line(if n.value > p && b[n.value - 1] == CR then n.value - 1 else n.value, n.value + 1));
  }

  /** sip_ieq. */
  method Equal(b: bytes, i: nat, ref: bytes) returns (r: bool)
    requires i + |ref| <= |b|
    ensures r == SameText(b, i, ref)
  {
    for k := 0 to |ref|
      invariant forall n :: 0 <= n < k ==> Lc(b[i + n]) == ref[n]
    {
      if Lc(b[i + k]) != ref[k] { return false; }
    }
    return true;
  }

  /** parse_start_line. */
  method StartLine(b: bytes, p: nat, eol: nat) returns (r: Res<Start>)
    requires p <= eol <= |b|
    ensures r == StartOf(b, p, eol)
  {
    hide Find, SameText;
    if eol - p >= 8 {
      var status := Equal(b, p, SIP2_SPACE);
      if status {
        var q := p + 8;
        if eol - q < 3 || !IsDigit(b[q]) || !IsDigit(b[q + 1]) || !IsDigit(b[q + 2]) { return Fail(BadLine); }
        var code := Digit(b[q]) * 100 + Digit(b[q + 1]) * 10 + Digit(b[q + 2]);
        if code < 100 { return Fail(BadLine); }
        q := q + 3;
        if q < eol {
          if b[q] != SPACE { return Fail(BadLine); }
          q := q + 1;
        }
        return Ok(Status(code, Slice(q, eol)));
      }
    }
    var sp1 := Seek(b, SPACE, p, eol);
    FindFound(b, SPACE, p, eol);
    if sp1.None? || sp1.value == p { return Fail(BadLine); }
    var sp2 := Seek(b, SPACE, sp1.value + 1, eol);
    FindFound(b, SPACE, sp1.value + 1, eol);
    if sp2.None? || sp2.value == sp1.value + 1 { return Fail(BadLine); }
    if eol - sp2.value - 1 != 7 { return Fail(Version); }
    var ok := Equal(b, sp2.value + 1, SIP2);
    if !ok { return Fail(Version); }
    return Ok(Request(Slice(p, sp1.value), Slice(sp1.value + 1, sp2.value)));
  }

  /** sip_parse_u32. */
  method U32Of(b: bytes, i: nat, j: nat) returns (r: Option<nat>)
    requires i <= j <= |b|
    ensures r == ParseU32(b, i, j)
  {
    if j == i || j - i > 10 { return None; }
    var v: nat := 0;
    for k := i to j
      invariant Decimal(b, i, k) == Some(v)
    {
      if !IsDigit(b[k]) {
        DecimalStops(b, i, k + 1, j);
        return None;
      }
      v := v * 10 + Digit(b[k]);
    }
    if v > 0xFFFF_FFFF { return None; }
    return Some(v);
  }

  lemma {:induction false} DecimalStops(b: bytes, i: nat, k: nat, j: nat)
    requires i <= k <= j <= |b| && Decimal(b, i, k) == None
    ensures Decimal(b, i, j) == None
    decreases j
  {
    if k < j { DecimalStops(b, i, k, j - 1); }
  }

  method RightEdge(b: bytes, lo: nat, hi: nat) returns (r: nat)
    requires lo <= hi <= |b|
    ensures r == TrimEnd(b, lo, hi)
  {
    r := hi;
    while r > lo && IsWs(b[r - 1])
      invariant lo <= r <= hi && TrimEnd(b, lo, hi) == TrimEnd(b, lo, r)
    {
      r := r - 1;
    }
  }

  method LeftEdge(b: bytes, lo: nat, hi: nat) returns (r: nat)
    requires lo <= hi <= |b|
    ensures r == TrimStart(b, lo, hi)
  {
    r := lo;
    while r < hi && IsWs(b[r])
      invariant lo <= r <= hi && TrimStart(b, lo, hi) == TrimStart(b, r, hi)
    {
      r := r + 1;
    }
  }

  /** One header field of the loop in sip_msg_parse. */
  method AddHeader(b: bytes, p: nat, eol: nat, m: Head) returns (r: Res<Head>)
    requires p <= eol <= |b|
    ensures r == HeaderAt(b, p, eol, m)
  {
    hide Find, SameText, TrimEnd, TrimStart, Decimal;
    var colon := Seek(b, COLON, p, eol);
    FindFound(b, COLON, p, eol);
    if colon.None? { return Fail(BadHeader); }
    TrimBounds(b, p, colon.value);
    var ne := RightEdge(b, p, colon.value);
    if ne == p { return Fail(BadHeader); }
    TrimBounds(b, colon.value + 1, eol);
    var v := LeftEdge(b, colon.value + 1, eol);
    TrimBounds(b, v, eol);
    var ve := RightEdge(b, v, eol);
    if |m.hdrs| >= MAX_HDRS { return Fail(TooMany); }
    var h := Hdr(Slice(p, ne), Slice(v, ve));
    var isLength: bool;
    if ne - p == 14 {
      isLength := Equal(b, p, CONTENT_LENGTH);
    } else {
      isLength := ne - p == 1 && Lc(b[p]) == 108;
    }
    if !isLength { return Ok(Head(m.hdrs + [h], m.clen)); }
    var n := U32Of(b, v, ve);
    if n.None? { return Fail(BadHeader); }
    return Ok(Head(m.hdrs + [h], Some(n.value)));
  }

  /** The continuation lines of a header. */
  method Continue(b: bytes, l: Line) returns (r: Option<Line>)
    requires l.eol < l.next <= |b|
    ensures r == Unfold(b, l)
  {
    hide LineEnd;
    var f := l;
    while f.next < |b| && IsWs(b[f.next])
      invariant f.eol < f.next <= |b| && Unfold(b, l) == Unfold(b, f)
      decreases |b| - f.next
    {
      LineBounds(b, f.next);
      var l2 := LineOf(b, f.next);
      if l2.None? { return None; }
      f := l2.value;
    }
    return Some(f);
  }

  /** The header loop of sip_msg_parse. */
  method ReadHeaders(b: bytes, at: nat) returns (r: Res<Heads>)
    requires at <= |b|
    ensures r == Headers(b, at, Head([], None))
  {
    hide LineEnd, Unfold, HeaderAt;
    var p, m := at, Head([], None);
    while true
      invariant p <= |b| && Headers(b, at, Head([], None)) == Headers(b, p, m)
      decreases |b| - p
    {
      LineBounds(b, p);
      var l := LineOf(b, p);
      if l.None? { return Fail(Short); }
      if l.value.eol == p { return Ok(Heads(m, l.value.next)); }
      UnfoldBounds(b, l.value);
      var f := Continue(b, l.value);
      if f.None? { return Fail(Short); }
      var h := AddHeader(b, p, f.value.eol, m);
      if h.Fail? { return Fail(h.err); }
      m, p := h.val, f.value.next;
    }
  }

  /** sip_msg_parse. */
  method MsgParse(b: bytes) returns (r: Res<Msg>)
    ensures r == Parse(b)
  {
    hide LineEnd, StartOf, Headers;
    if |b| > INT_MAX { return Fail(Inval); }
    var p := 0;
    while p < |b| && (b[p] == CR || b[p] == LF)
      invariant 0 <= p <= |b| && SkipBlank(b, 0) == SkipBlank(b, p)
    {
      p := p + 1;
    }
    LineBounds(b, p);
    var l := LineOf(b, p);
    if l.None? { return Fail(Short); }
    var start := StartLine(b, p, l.value.eol);
    if start.Fail? { return Fail(start.err); }
    HeadersBounds(b, l.value.next);
    var hs := ReadHeaders(b, l.value.next);
    if hs.Fail? { return Fail(hs.err); }
    var head, hoff := hs.val.head, hs.val.end;
    if head.clen.Some? {
      if head.clen.value > |b| - hoff { return Fail(Short); }
      return Ok(Msg(start.val, head, Slice(hoff, hoff + head.clen.value), hoff + head.clen.value));
    }
    return Ok(Msg(start.val, head, Slice(hoff, |b|), |b|));
  }

  lemma HeadersBounds(b: bytes, p: nat)
    requires p <= |b|
    ensures Headers(b, p, Head([], None)).Ok? ==> Headers(b, p, Head([], None)).val.end <= |b|
  {
  }
}
