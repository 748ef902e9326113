/** Every short buffer that can be completed, completed as shortly as can be: the exact meaning of
    SIP_E_SHORT (sip/src/sip.c). */
module SipComplete {
  import opened Basics
  import opened SipSpec
  import opened SipShort

  lemma {:induction false} FindFirst(b: bytes, ch: byte, i: nat, j: nat)
    requires j <= |b| && Find(b, ch, i, j).Some?
    ensures forall k :: i <= k < Find(b, ch, i, j).value ==> b[k] != ch
    decreases j - i
  {
    if b[i] != ch { FindFirst(b, ch, i + 1, j); }
  }

  /** The end of the line that a line feed closes at n. */
  function EolAt(c: bytes, p: nat, n: nat): nat
    requires p <= n <= |c|
  {
    if n > p && c[n - 1] == CR then n - 1 else n
  }

  /** b with its unfinished line filled up and closed. */
  function Closed(b: bytes, fill: bytes): (c: bytes)
    ensures |c| == |b| + |fill| + 1 && b <= c
  {
    b + fill + [LF]
  }

  lemma ClosedLine(b: bytes, fill: bytes, p: nat)
    requires p <= |b| && LineEnd(b, p).None? && LF !in fill
    ensures var c, n := Closed(b, fill), |b| + |fill|;
            LineEnd(c, p) == Some(Line(EolAt(c, p, n), n + 1))
  {
    var c, n := Closed(b, fill), |b| + |fill|;
    FindNone(b, LF, p, |b|);
    forall k | p <= k < n ensures c[k] != LF {
      if k >= |b| { assert c[k] == fill[k - |b|]; }
    }
    FindIs(c, LF, p, |c|, n);
  }

  /** The line at p, filled up, is a start line. */
  ghost predicate Starts(b: bytes, fill: bytes, p: nat)
    requires p <= |b|
  {
    && LF !in fill && StartOf(Closed(b, fill), p, EolAt(Closed(b, fill), p, |b| + |fill|)).Ok?
    && |fill| == StartRest(b, p)
  }

  lemma StartBuild(b: bytes, p: nat) returns (fill: bytes)
    requires p <= |b| && StartCan(b, p)
    ensures Starts(b, fill, p) && (p == |b| ==> fill != [] && fill[0] != CR)
  {
    hide SoFar, StatusCan, RequestCan, Starts;
    if SoFar(b, p, SIP2_SPACE) {
      fill := StatusBuild(b, p);
    } else {
      SomethingThere(b, p);
      fill := RequestBuild(b, p);
    }
  }

  lemma SomethingThere(b: bytes, p: nat)
    requires !SoFar(b, p, SIP2_SPACE)
    ensures p < |b|
  {
  }

  const STATUS: bytes := SIP2_SPACE + [ONE, ONE, ONE]

  /** What is missing of the text at v. */
  function Rest(b: bytes, v: nat, ref: bytes): bytes
    requires v <= |b|
  {
    if |b| - v <= |ref| then ref[|b| - v..] else []
  }

  lemma RestAt(b: bytes, v: nat, ref: bytes, k: nat)
    requires v <= |b| && k < |ref|
    ensures var c := Closed(b, Rest(b, v, ref));
            |c| >= v + |ref| + 1 && c[v + k] == if v + k < |b| then b[v + k] else ref[k]
  {
    var fill := Rest(b, v, ref);
    if v + k >= |b| { assert Closed(b, fill)[v + k] == fill[v + k - |b|]; }
  }

  lemma RestPlain(b: bytes, v: nat, ref: bytes)
    requires v <= |b| && LF !in ref
    ensures LF !in Rest(b, v, ref)
  {
  }

  lemma StatusIs(c: bytes, p: nat, eol: nat)
    requires p + 11 <= eol <= |c| && SameText(c, p, SIP2_SPACE)
    requires IsDigit(c[p + 8]) && c[p + 8] != ZERO && IsDigit(c[p + 9]) && IsDigit(c[p + 10])
    requires p + 11 < eol ==> c[p + 11] == SPACE
    ensures StartOf(c, p, eol).Ok?
  {
    hide SameText, Find;
  }

  lemma StatusText(b: bytes, p: nat)
    requires p <= |b| && SoFar(b, p, SIP2_SPACE)
    ensures var c := Closed(b, Rest(b, p, STATUS)); p + 12 <= |c| && SameText(c, p, SIP2_SPACE)
  {
    hide Rest;
    var c := Closed(b, Rest(b, p, STATUS));
    RestAt(b, p, STATUS, 0);
    forall k | 0 <= k < 8 ensures Lc(c[p + k]) == SIP2_SPACE[k] {
      LowerRef(k);
      RestAt(b, p, STATUS, k);
      assert STATUS[k] == SIP2_SPACE[k];
    }
  }

  lemma StatusDigits()
    ensures |STATUS| == 11 && STATUS[8] == STATUS[9] == STATUS[10] == ONE && LF !in STATUS && STATUS[0] != CR
  {
  }

  lemma StatusBuild(b: bytes, p: nat) returns (fill: bytes)
    requires p <= |b| && SoFar(b, p, SIP2_SPACE) && StatusCan(b, p + 8)
    ensures Starts(b, fill, p) && (p == |b| ==> fill != [] && fill[0] != CR)
  {
    StatusDigits();
    StatusText(b, p);
    RestPlain(b, p, STATUS);
    RestAt(b, p, STATUS, 8);
    RestAt(b, p, STATUS, 9);
    RestAt(b, p, STATUS, 10);
    hide SameText, SoFar, STATUS, StartOf;
    fill := Rest(b, p, STATUS);
    var c, n := Closed(b, fill), |b| + |fill|;
    if |b| > p + 11 { assert c[p + 11] == b[p + 11]; }
    assert n >= p + 11 && (n == p + 11 ==> c[n - 1] != CR);
    StatusIs(c, p, EolAt(c, p, n));
  }

  lemma LowerRef(k: nat)
    requires k < 8
    ensures Lc(SIP2_SPACE[k]) == SIP2_SPACE[k] && (k < 7 ==> Lc(SIP2[k]) == SIP2[k])
  {
  }

  lemma RequestIs(c: bytes, p: nat, eol: nat, sp1: nat, sp2: nat)
    requires p < sp1 && sp1 + 1 < sp2 && sp2 + 8 == eol <= |c| && c[sp1] == c[sp2] == SPACE
    requires (forall k :: p <= k < sp1 ==> c[k] != SPACE) && forall k :: sp1 < k < sp2 ==> c[k] != SPACE
    requires SameText(c, sp2 + 1, SIP2) && !SameText(c, p, SIP2_SPACE)
    ensures StartOf(c, p, eol).Ok?
  {
    FindIs(c, SPACE, p, eol, sp1);
    FindIs(c, SPACE, sp1 + 1, eol, sp2);
    hide Find, SameText;
  }

  lemma NotStatus(b: bytes, c: bytes, p: nat)
    requires b <= c && p + 8 <= |c| && !SoFar(b, p, SIP2_SPACE)
    ensures !SameText(c, p, SIP2_SPACE)
  {
    if SameText(c, p, SIP2_SPACE) { SoFarPast(b, c, p, SIP2_SPACE); }
  }

  lemma VersionBuild(b: bytes, v: nat, p: nat)
    requires p <= v <= |b| && VersionCan(b, v)
    ensures var fill := Rest(b, v, SIP2);
            var c := Closed(b, fill);
            && LF !in fill && SameText(c, v, SIP2) && EolAt(c, p, |b| + |fill|) == v + 7
            && |fill| == if |b| < v + 7 then v + 7 - |b| else 0
  {
    hide SoFar, Lc;
    var fill := Rest(b, v, SIP2);
    var c := Closed(b, fill);
    RestPlain(b, v, SIP2);
    forall k | 0 <= k < 7 ensures Lc(c[v + k]) == SIP2[k] {
      VersionAt(b, v, k);
    }
    VersionAt(b, v, 6);
    LastOfVersion(c[v + 6]);
    if |b| - v > 7 { assert c[v + 7] == b[v + 7]; }
  }

  lemma VersionAt(b: bytes, v: nat, k: nat)
    requires v <= |b| && k < 7 && SoFar(b, v, SIP2)
    ensures |Closed(b, Rest(b, v, SIP2))| >= v + 8 && Lc(Closed(b, Rest(b, v, SIP2))[v + k]) == SIP2[k]
  {
    LowerRef(k);
    RestAt(b, v, SIP2, k);
  }

  lemma LastOfVersion(x: byte)
    requires Lc(x) == SIP2[6]
    ensures x != CR
  {
  }

  lemma RequestBuild(b: bytes, p: nat) returns (fill: bytes)
    requires p < |b| && !SoFar(b, p, SIP2_SPACE) && RequestCan(b, p)
    ensures Starts(b, fill, p)
  {
    hide Find, SoFar, SameText, StartOf, VersionCan, Rest;
    FindFound(b, SPACE, p, |b|);
    match Find(b, SPACE, p, |b|) {
      case None => fill := RequestAll(b, p);
      case Some(sp1) =>
        FindFirst(b, SPACE, p, |b|);
        FindAt(b, SPACE, p);
        FindFound(b, SPACE, sp1 + 1, |b|);
        match Find(b, SPACE, sp1 + 1, |b|) {
          case None => fill := RequestUri(b, p, sp1);
          case Some(sp2) =>
            FindFirst(b, SPACE, sp1 + 1, |b|);
            FindAt(b, SPACE, sp1 + 1);
            var v := sp2 + 1;
            VersionBuild(b, v, p);
            fill := Rest(b, v, SIP2);
            var c := Closed(b, fill);
            NotStatus(b, c, p);
            RequestIs(c, p, v + 7, sp1, sp2);
        }
    }
  }

  lemma FindAt(b: bytes, ch: byte, i: nat)
    requires Find(b, ch, i, |b|).Some?
    ensures i <= Find(b, ch, i, |b|).value < |b| && b[Find(b, ch, i, |b|).value] == ch
  {
  }

  lemma RequestAll(b: bytes, p: nat) returns (fill: bytes)
    requires p < |b| && !SoFar(b, p, SIP2_SPACE) && Find(b, SPACE, p, |b|).None?
    ensures Starts(b, fill, p)
  {
    hide Find, SoFar, StartOf, SameText;
    fill := [SPACE, X, SPACE] + SIP2;
    var c := Closed(b, fill);
    FindNone(b, SPACE, p, |b|);
    Filled(b, [SPACE, X, SPACE], p);
    NotStatus(b, c, p);
    assert c[|b|] == fill[0] && c[|b| + 1] == fill[1] && c[|b| + 2] == fill[2];
    assert forall k :: p <= k < |b| ==> c[k] == b[k];
    RequestIs(c, p, |b| + 10, |b|, |b| + 2);
  }

  lemma RequestUri(b: bytes, p: nat, sp1: nat) returns (fill: bytes)
    requires p < sp1 < |b| && b[sp1] == SPACE && (forall k :: p <= k < sp1 ==> b[k] != SPACE)
    requires !SoFar(b, p, SIP2_SPACE) && Find(b, SPACE, p, |b|) == Some(sp1) && Find(b, SPACE, sp1 + 1, |b|).None?
    ensures Starts(b, fill, p)
  {
    hide Find, SoFar, StartOf, SameText;
    var front := if sp1 + 1 == |b| then [X, SPACE] else [SPACE];
    fill := front + SIP2;
    var c, n := Closed(b, fill), |b| + |front| - 1;
    FindNone(b, SPACE, sp1 + 1, |b|);
    Filled(b, front, p);
    NotStatus(b, c, p);
    assert c[|b|] == fill[0] && c[n] == fill[|front| - 1];
    assert forall k :: p <= k < |b| ==> c[k] == b[k];
    RequestIs(c, p, n + 8, sp1, n);
  }

  /** The version stands at the end of the filling. */
  lemma Filled(b: bytes, front: bytes, p: nat)
    requires p <= |b| && LF !in front
    ensures var fill, v := front + SIP2, |b| + |front|;
            LF !in fill && SameText(Closed(b, fill), v, SIP2) && EolAt(Closed(b, fill), p, |b| + |fill|) == v + 7
  {
    var fill, v := front + SIP2, |b| + |front|;
    var c := Closed(b, fill);
    forall k | 0 <= k < 7 ensures Lc(c[v + k]) == SIP2[k] && c[v + k] == SIP2[k] {
      LowerRef(k);
      assert c[v + k] == fill[|front| + k];
    }
    assert c[v + 6] == SIP2[6];
  }

  // ---------- header fields ----------

  /** The field at p, filled up, is a header field, and the cheapest. */
  ghost predicate Fields(b: bytes, fill: bytes, p: nat, m: Head)
    requires p <= |b|
  {
    var a := Closed(b, fill);
    var eol := EolAt(a, p, |b| + |fill|);
    && LF !in fill && p < eol && HeaderAt(a, p, eol, m).Ok?
    && |a| + Tail(HeaderAt(a, p, eol, m).val) == |b| + FieldCost(b, p, m)
  }

  /** A field by its parts. */
  lemma HeaderIs(a: bytes, p: nat, eol: nat, m: Head, colon: nat, ne: nat, v: nat, ve: nat)
    requires p < ne <= colon < eol <= |a| && colon < v <= ve <= eol && |m.hdrs| < MAX_HDRS
    requires Find(a, COLON, p, eol) == Some(colon) && TrimEnd(a, p, colon) == ne
    requires TrimStart(a, colon + 1, eol) == v && TrimEnd(a, v, eol) == ve
    requires IsContentLength(a, Slice(p, ne)) ==> ParseU32(a, v, ve).Some?
    ensures var r := HeaderAt(a, p, eol, m);
            && r.Ok? && |r.val.hdrs| == |m.hdrs| + 1
            && r.val.clen == if IsContentLength(a, Slice(p, ne)) then ParseU32(a, v, ve) else m.clen
  {
    hide Find, TrimEnd, TrimStart, IsContentLength, ParseU32;
  }

  lemma FieldBuild(b: bytes, p: nat, m: Head) returns (fill: bytes)
    requires p < |b| && FieldCan(b, p) && |m.hdrs| < MAX_HDRS
    ensures Fields(b, fill, p, m)
  {
    hide Find, TrimEnd, TrimStart, LengthCan, IsContentLength, HeaderAt, Fields;
    FindFound(b, COLON, p, |b|);
    match Find(b, COLON, p, |b|) {
      case None => fill := NameBuild(b, p, m);
      case Some(colon) =>
        TrimBounds(b, p, colon);
        if IsContentLength(b, Slice(p, TrimEnd(b, p, colon))) {
          fill := LengthBuild(b, p, colon, m);
        } else {
          fill := [];
          OtherBuild(b, p, colon, m);
        }
    }
  }

  lemma NameBuild(b: bytes, p: nat, m: Head) returns (fill: bytes)
    requires p < |b| && |m.hdrs| < MAX_HDRS && Find(b, COLON, p, |b|).None?
    ensures Fields(b, fill, p, m)
  {
    hide Find, TrimEnd, HeaderAt, Fields, LengthRest, NameRest;
    var plain := NameRest(b, p) + 1 + TailOf(|m.hdrs| + 1, Body(m));
    if LengthRest(b, p).Some? && LengthRest(b, p).value + 4 <= plain {
      fill := LongBuild(b, p, m);
    } else {
      fill := PlainBuild(b, p, m);
    }
  }

  /** A name and its colon. */
  lemma PlainBuild(b: bytes, p: nat, m: Head) returns (fill: bytes)
    requires p < |b| && |m.hdrs| < MAX_HDRS && Find(b, COLON, p, |b|).None?
    requires FieldCost(b, p, m) == NameRest(b, p) + 1 + TailOf(|m.hdrs| + 1, Body(m))
    ensures Fields(b, fill, p, m)
  {
    hide Find, TrimEnd, TrimStart, HeaderAt, FieldCost, IsContentLength;
    var ne := TrimEnd(b, p, |b|);
    TrimBounds(b, p, |b|);
    var front: bytes := if ne > p && !IsContentLength(b, Slice(p, ne)) then [] else [X];
    fill := front + [COLON];
    var a, colon := Closed(b, fill), |b| + |front|;
    FindNone(b, COLON, p, |b|);
    assert (forall k :: p <= k < |b| ==> a[k] == b[k]) && (|front| == 1 ==> a[|b|] == X) && a[colon] == COLON;
    FindIs(a, COLON, p, colon + 1, colon);
    TrimEmpty(a, colon + 1);
    if front == [] {
      TrimEndSame(b, a, p, |b|);
      NameSame(b, a, Slice(p, ne));
      HeaderIs(a, p, colon + 1, m, colon, ne, colon + 1, colon + 1);
    } else {
      TrimEndIs(a, p, colon, colon);
      XName(a, p, colon);
      HeaderIs(a, p, colon + 1, m, colon, colon, colon + 1, colon + 1);
    }
  }

  lemma TrimEmpty(a: bytes, i: nat)
    requires i <= |a|
    ensures TrimStart(a, i, i) == i && TrimEnd(a, i, i) == i
  {
  }

  lemma XName(c: bytes, p: nat, ne: nat)
    requires p < ne <= |c| && c[ne - 1] == X
    ensures !IsContentLength(c, Slice(p, ne))
  {
    if ne - p == 14 { assert Lc(c[p + 13]) != CONTENT_LENGTH[13]; }
  }

  /** The name made into Content-Length, with the number 0. */
  lemma LongBuild(b: bytes, p: nat, m: Head) returns (fill: bytes)
    requires p < |b| && |m.hdrs| < MAX_HDRS && Find(b, COLON, p, |b|).None? && LengthRest(b, p).Some?
    requires FieldCost(b, p, m) == LengthRest(b, p).value + 4
    ensures Fields(b, fill, p, m)
  {
    LengthRestFits(b, p);
    hide Find, TrimEnd, TrimStart, HeaderAt, FieldCost, IsContentLength, ParseU32, LengthRest, TailOf;
    var ne := TrimEnd(b, p, |b|);
    var front: bytes := CONTENT_LENGTH[14 - LengthRest(b, p).value..];
    fill := front + [COLON, ZERO];
    var a, colon := Closed(b, fill), |b| + |front|;
    FindNone(b, COLON, p, |b|);
    PlainLetters(14 - LengthRest(b, p).value);
    LongAt(b, p, front);
    TailZero(|m.hdrs| + 1);
    FindIs(a, COLON, p, colon + 2, colon);
    TrimStartIs(a, colon + 1, colon + 2, colon + 1);
    TrimEndIs(a, colon + 1, colon + 2, colon + 2);
    OneDigit(a, colon + 1);
    var ne' := if ne > p && IsContentLength(b, Slice(p, ne)) then ne else p + 14;
    LongName(b, a, p, colon);
    HeaderIs(a, p, colon + 2, m, colon, ne', colon + 1, colon + 2);
  }

  lemma LengthRestFits(b: bytes, p: nat)
    requires p < |b| && LengthRest(b, p).Some?
    ensures LengthRest(b, p).value < 14 && p <= TrimEnd(b, p, |b|) <= |b|
  {
    hide TrimEnd, SameText;
    TrimBounds(b, p, |b|);
  }

  /** What stands behind the buffer. */
  lemma LongAt(b: bytes, p: nat, front: bytes)
    requires p < |b| && COLON !in front && LF !in front
    requires forall k :: p <= k < |b| ==> b[k] != COLON
    ensures var a, colon := Closed(b, front + [COLON, ZERO]), |b| + |front|;
            && (forall k :: p <= k < colon ==> a[k] != COLON) && a[colon] == COLON && a[colon + 1] == ZERO
            && LF !in front + [COLON, ZERO]
  {
    var fill := front + [COLON, ZERO];
    var a, colon := Closed(b, fill), |b| + |front|;
    forall k | p <= k < colon ensures a[k] != COLON {
      if k >= |b| { assert a[k] == fill[k - |b|] == front[k - |b|]; }
    }
    assert a[colon] == fill[|front|] && a[colon + 1] == fill[|front| + 1];
  }

  lemma PlainLetters(k: nat)
    requires k <= 14
    ensures COLON !in CONTENT_LENGTH[k..] && LF !in CONTENT_LENGTH[k..]
  {
    assert COLON !in CONTENT_LENGTH && LF !in CONTENT_LENGTH;
  }

  lemma LongName(b: bytes, a: bytes, p: nat, colon: nat)
    requires p < |b| && LengthRest(b, p).Some? && colon == |b| + LengthRest(b, p).value
    requires a == Closed(b, CONTENT_LENGTH[14 - LengthRest(b, p).value..] + [COLON, ZERO])
    ensures var ne := TrimEnd(b, p, |b|);
            var ne' := if ne > p && IsContentLength(b, Slice(p, ne)) then ne else p + 14;
            p <= ne <= |b| && p < ne' <= colon <= |a| && TrimEnd(a, p, colon) == ne' && IsContentLength(a, Slice(p, ne'))
  {
    hide TrimEnd, IsContentLength, SoFar;
    var ne := TrimEnd(b, p, |b|);
    TrimBounds(b, p, |b|);
    if ne > p && IsContentLength(b, Slice(p, ne)) {
      TrimEndSame(b, a, p, |b|);
      NameSame(b, a, Slice(p, ne));
    } else {
      WholeName(b, a, p);
      TrimEndIs(a, p, colon, colon);
    }
  }

  lemma WholeName(b: bytes, a: bytes, p: nat)
    requires p < |b| < p + 14 && SoFar(b, p, CONTENT_LENGTH)
    requires a == Closed(b, CONTENT_LENGTH[|b| - p..] + [COLON, ZERO])
    ensures p + 14 <= |a| && IsContentLength(a, Slice(p, p + 14)) && !IsWs(a[p + 13])
  {
    hide Lc, SoFar;
    forall k | 0 <= k < 14 ensures p + k < |a| && Lc(a[p + k]) == CONTENT_LENGTH[k] { LetterAt(b, a, p, k); }
    assert Lc(a[p + 13]) == CONTENT_LENGTH[13];
    LastLetter(a[p + 13]);
  }

  lemma LastLetter(x: byte)
    requires Lc(x) == CONTENT_LENGTH[13]
    ensures !IsWs(x)
  {
  }

  lemma LetterAt(b: bytes, a: bytes, p: nat, k: nat)
    requires p < |b| < p + 14 && SoFar(b, p, CONTENT_LENGTH) && k < 14
    requires a == Closed(b, CONTENT_LENGTH[|b| - p..] + [COLON, ZERO])
    ensures p + k < |a| && Lc(a[p + k]) == CONTENT_LENGTH[k]
  {
    LowerLetter(k);
    if p + k < |b| {
      assert a[p + k] == b[p + k];
    } else {
      assert a[p + k] == (CONTENT_LENGTH[|b| - p..] + [COLON, ZERO])[p + k - |b|] == CONTENT_LENGTH[k];
    }
  }

  lemma LowerLetter(k: nat)
    requires k < 14
    ensures Lc(CONTENT_LENGTH[k]) == CONTENT_LENGTH[k]
  {
  }

  /** A field with its name stands by itself once its line is closed. */
  lemma OtherBuild(b: bytes, p: nat, colon: nat, m: Head)
    requires p < |b| && |m.hdrs| < MAX_HDRS && Find(b, COLON, p, |b|) == Some(colon) && p <= colon < |b|
    requires colon >= TrimEnd(b, p, colon) > p && !IsContentLength(b, Slice(p, TrimEnd(b, p, colon)))
    ensures Fields(b, [], p, m)
  {
    hide Find, TrimEnd, TrimStart, IsContentLength, HeaderAt;
    var a := Closed(b, []);
    var eol := EolAt(a, p, |b|);
    ColonStays(b, p, colon, []);
    var ne := TrimEnd(b, p, colon);
    TrimEndSame(b, a, p, colon);
    NameSame(b, a, Slice(p, ne));
    TrimBounds(a, colon + 1, eol);
    var v := TrimStart(a, colon + 1, eol);
    TrimBounds(a, v, eol);
    HeaderIs(a, p, eol, m, colon, ne, v, TrimEnd(a, v, eol));
  }

  lemma ColonStays(b: bytes, p: nat, colon: nat, fill: bytes)
    requires p <= colon < |b| && Find(b, COLON, p, |b|) == Some(colon)
    ensures var c := Closed(b, fill);
            var eol := EolAt(c, p, |b| + |fill|);
            colon < eol && Find(c, COLON, p, eol) == Some(colon)
  {
    hide Find;
    var c := Closed(b, fill);
    FindFirst(b, COLON, p, |b|);
    FindAt(b, COLON, p);
    assert forall k :: p <= k < |b| ==> c[k] == b[k];
    FindIs(c, COLON, p, EolAt(c, p, |b| + |fill|), colon);
  }

  lemma LengthBuild(b: bytes, p: nat, colon: nat, m: Head) returns (fill: bytes)
    requires p < |b| && |m.hdrs| < MAX_HDRS && Find(b, COLON, p, |b|) == Some(colon) && p <= colon < |b|
    requires colon >= TrimEnd(b, p, colon) > p && IsContentLength(b, Slice(p, TrimEnd(b, p, colon)))
    requires LengthCan(b, colon + 1)
    ensures Fields(b, fill, p, m)
  {
    hide Find, TrimEnd, TrimStart, IsContentLength, HeaderAt, ParseU32, DigitsTo, LengthCan, TailOf;
    var i := colon + 1;
    fill := if TrimStart(b, i, |b|) == |b| then [ZERO] else [];
    var a := Closed(b, fill);
    var eol := EolAt(a, p, |b| + |fill|);
    ColonStays(b, p, colon, fill);
    var ne := TrimEnd(b, p, colon);
    TrimEndSame(b, a, p, colon);
    NameSame(b, a, Slice(p, ne));
    FindAt(b, COLON, p);
    NumberBuild(b, fill, i, eol);
    var v := TrimStart(a, i, eol);
    HeaderIs(a, p, eol, m, colon, ne, v, TrimEnd(a, v, eol));
    TailZero(|m.hdrs| + 1);
  }

  lemma TailZero(k: nat)
    ensures TailOf(k, 0) == 1
  {
  }

  lemma NumberBuild(b: bytes, fill: bytes, i: nat, eol: nat)
    requires 0 < i <= |b| && LengthCan(b, i) && fill == if TrimStart(b, i, |b|) == |b| then [ZERO] else []
    requires b[i - 1] != CR && eol == EolAt(Closed(b, fill), i - 1, |b| + |fill|)
    ensures var c, u := Closed(b, fill), TrimStart(b, i, |b|);
            && i <= eol <= |c| && i <= TrimStart(c, i, eol) <= TrimEnd(c, TrimStart(c, i, eol), eol) <= eol
            && i <= u <= |b| && u <= DigitsTo(b, u) <= |b|
            && ParseU32(c, TrimStart(c, i, eol), TrimEnd(c, TrimStart(c, i, eol), eol))
               == (if u == |b| then Some(0) else ParseU32(b, u, DigitsTo(b, u)))
            && (u < |b| ==> ParseU32(b, u, DigitsTo(b, u)).Some?)
  {
    hide TrimEnd, TrimStart, Decimal;
    var c := Closed(b, fill);
    var v := TrimStart(b, i, |b|);
    TrimStartSkips(b, i, |b|);
    assert forall k :: 0 <= k < |b| ==> c[k] == b[k];
    if v == |b| {
      assert c[|b|] == ZERO && eol == |b| + 1;
      TrimStartIs(c, i, eol, |b|);
      TrimEndIs(c, |b|, eol, eol);
      OneDigit(c, |b|);
    } else {
      var d := DigitsTo(b, v);
      var w := TrimStart(b, d, |b|);
      TrimStartSkips(b, d, |b|);
      assert v < d && IsDigit(b[v]) && IsDigit(b[d - 1]);
      assert eol == w;
      TrimStartIs(c, i, eol, v);
      TrimEndIs(c, v, eol, d);
      DecimalSame(b, c, v, d);
    }
  }

  lemma OneDigit(c: bytes, i: nat)
    requires i < |c| && c[i] == ZERO
    ensures ParseU32(c, i, i + 1) == Some(0)
  {
    assert Decimal(c, i, i) == Some(0);
  }

  // ---------- header sections ----------

  /** A header section from p to the end of c, and the body it asks for. */
  ghost predicate Sections(c: bytes, p: nat, m: Head, len: nat) {
    p <= |c| && Headers(c, p, m).Ok? && Headers(c, p, m).val.end == |c| && |c| + Body(Headers(c, p, m).val.head) == len
  }

  lemma EmptyLine(c: bytes, p: nat, m: Head)
    requires p + 1 == |c| && c[p] == LF
    ensures Headers(c, p, m) == Ok(Heads(m, |c|))
  {
    FindIs(c, LF, p, |c|, p);
  }

  /** "l:0" on a line of its own. */
  const NO_BODY: bytes := [108, COLON, ZERO, LF]

  lemma TailBuild(a: bytes, m: Head) returns (z: bytes)
    ensures z != [] && !IsWs(z[0]) && Sections(a + z, |a|, m, |a| + Tail(m))
  {
    if |m.hdrs| < MAX_HDRS && Body(m) > 4 {
      z := NO_BODY + [LF];
      NoBody(a, m);
    } else {
      z := [LF];
      EmptyLine(a + z, |a|, m);
    }
  }

  lemma NoBody(a: bytes, m: Head)
    requires |m.hdrs| < MAX_HDRS
    ensures Sections(a + (NO_BODY + [LF]), |a|, m, |a| + 5)
  {
    hide Find, TrimEnd, TrimStart, HeaderAt, ParseU32, LineEnd;
    var c, p := a + (NO_BODY + [LF]), |a|;
    assert c[p] == 108 && c[p + 1] == COLON && c[p + 2] == ZERO && c[p + 3] == LF && c[p + 4] == LF;
    LineIs(c, p, p + 3);
    FindIs(c, COLON, p, p + 3, p + 1);
    TrimEndIs(c, p, p + 1, p + 1);
    TrimStartIs(c, p + 2, p + 3, p + 2);
    TrimEndIs(c, p + 2, p + 3, p + 3);
    OneDigit(c, p + 2);
    HeaderIs(c, p, p + 3, m, p + 1, p + 1, p + 2, p + 3);
    NotFolded(c, Line(p + 3, p + 4));
    EmptyLine(c, p + 4, HeaderAt(c, p, p + 3, m).val);
  }

  lemma NotFolded(c: bytes, l: Line)
    requires l.eol < l.next <= |c| && (l.next < |c| ==> !IsWs(c[l.next]))
    ensures Unfold(c, l) == Some(l)
  {
  }

  /** Closing the last of the lines folded onto l. */
  lemma {:induction false} UnfoldBuild(b: bytes, l: Line, fill: bytes, p: nat)
    requires p <= l.eol < l.next <= |b| && Unfold(b, l).None? && LF !in fill
    ensures var c, n := Closed(b, fill), |b| + |fill|;
            Unfold(c, l) == Some(Line(EolAt(c, p, n), n + 1))
    decreases |b| - l.next
  {
    hide LineEnd;
    var c, n := Closed(b, fill), |b| + |fill|;
    PrefixAt(b, c, l.next);
    LineBounds(b, l.next);
    LineSame(b, c, l.next);
    if LineEnd(b, l.next).Some? {
      UnfoldBuild(b, LineEnd(b, l.next).value, fill, p);
    } else {
      ClosedLine(b, fill, l.next);
      NotFolded(c, Line(EolAt(c, l.next, n), n + 1));
    }
  }

  /** Lines that end with a are not folded by what does not start with white space. */
  lemma {:induction false} UnfoldEnd(a: bytes, z: bytes, l: Line)
    requires l.eol < l.next <= |a| && Unfold(a, l).Some? && Unfold(a, l).value.next == |a| && z != [] && !IsWs(z[0])
    ensures Unfold(a + z, l) == Unfold(a, l)
    decreases |a| - l.next
  {
    hide LineEnd;
    var c := a + z;
    if l.next < |a| {
      PrefixAt(a, c, l.next);
      LineSame(a, c, l.next);
      LineBounds(a, l.next);
      LineBounds(c, l.next);
      UnfoldEnd(a, z, LineEnd(a, l.next).value);
    } else {
      assert c[|a|] == z[0];
    }
  }

  /** A field that ends with a, and the rest of the section behind it. */
  lemma FieldThen(a: bytes, z: bytes, p: nat, l: Line, f: Line, m: Head, len: nat)
    requires p <= |a| && LineEnd(a, p) == Some(l) && l.eol != p && l.eol < l.next <= |a| && Unfold(a, l) == Some(f)
    requires p <= f.eol < f.next == |a| && HeaderAt(a, p, f.eol, m).Ok? && z != [] && !IsWs(z[0])
    requires Sections(a + z, |a|, HeaderAt(a, p, f.eol, m).val, len)
    ensures Sections(a + z, p, m, len)
  {
    hide LineEnd, Unfold, HeaderAt;
    var c := a + z;
    LineSame(a, c, p);
    LineBounds(c, p);
    HeaderSame(a, c, p, f.eol, m);
    UnfoldEnd(a, z, l);
  }

  lemma {:induction false} HeadersBuild(b: bytes, p: nat, m: Head) returns (x: bytes)
    requires p <= |b| && Headers(b, p, m) == Fail(Short) && HeadersCan(b, p, m)
    ensures Sections(b + x, p, m, HeadersLeast(b, p, m))
    decreases |b| - p
  {
    hide LineEnd, Unfold, HeaderAt, FieldCan, FieldCost, Sections;
    LineBounds(b, p);
    match LineEnd(b, p) {
      case None =>
        x := LastBuild(b, p, m);
      case Some(l) =>
        UnfoldBounds(b, l);
        match Unfold(b, l) {
          case None =>
            x := FoldBuild(b, p, l, m);
          case Some(f) =>
            HeaderErr(b, p, f.eol, m);
            var m' := HeaderAt(b, p, f.eol, m).val;
            if f.next == |b| {
              NoLine(b);
              x := TailBuild(b, m');
              FieldThen(b, x, p, l, f, m, |b| + Tail(m'));
            } else {
              x := HeadersBuild(b, f.next, m');
              HeadersOn(b, x, p, l, f, m, HeadersLeast(b, p, m));
            }
        }
    }
  }

  lemma HeadersOn(b: bytes, x: bytes, p: nat, l: Line, f: Line, m: Head, len: nat)
    requires p <= |b| && LineEnd(b, p) == Some(l) && l.eol != p && l.eol < l.next <= |b| && Unfold(b, l) == Some(f)
    requires f.eol < f.next < |b| && p <= f.eol && HeaderAt(b, p, f.eol, m).Ok?
    requires Sections(b + x, f.next, HeaderAt(b, p, f.eol, m).val, len)
    ensures Sections(b + x, p, m, len)
  {
    hide LineEnd, Unfold, HeaderAt;
    var c := b + x;
    LineSame(b, c, p);
    LineBounds(c, p);
    HeaderSame(b, c, p, f.eol, m);
    UnfoldSame(b, c, l);
  }

  lemma LastBuild(b: bytes, p: nat, m: Head) returns (x: bytes)
    requires p <= |b| && LineEnd(b, p).None? && HeadersCan(b, p, m)
    ensures Sections(b + x, p, m, HeadersLeast(b, p, m))
  {
    hide LineEnd, Unfold, HeaderAt, FieldCan, FieldCost, Sections;
    if p == |b| {
      x := TailBuild(b, m);
    } else if p + 1 == |b| && b[p] == CR && (|m.hdrs| >= MAX_HDRS || 1 + Body(m) <= FieldCost(b, p, m)) {
      x := [LF];
      ReturnLine(b, p, m);
    } else {
      if p + 1 == |b| && b[p] == CR { NoColon(b, p); }
      x := LineBuild(b, p, m);
    }
  }

  lemma NoColon(b: bytes, p: nat)
    requires p + 1 == |b| && b[p] == CR
    ensures FieldCan(b, p)
  {
    assert Find(b, COLON, p + 1, |b|) == None;
  }

  lemma LineBuild(b: bytes, p: nat, m: Head) returns (x: bytes)
    requires p < |b| && LineEnd(b, p).None? && FieldCan(b, p) && |m.hdrs| < MAX_HDRS
    ensures Sections(b + x, p, m, |b| + FieldCost(b, p, m))
  {
    hide LineEnd, Unfold, HeaderAt, FieldCan, FieldCost, Sections;
    var fill := FieldBuild(b, p, m);
    ClosedLine(b, fill, p);
    var a, n := Closed(b, fill), |b| + |fill|;
    var l := Line(EolAt(a, p, n), n + 1);
    NotFolded(a, l);
    var z := TailBuild(a, HeaderAt(a, p, l.eol, m).val);
    FieldThen(a, z, p, l, l, m, |b| + FieldCost(b, p, m));
    x := fill + [LF] + z;
    assert a + z == b + x;
  }

  lemma ReturnLine(b: bytes, p: nat, m: Head)
    requires p + 1 == |b| && b[p] == CR
    ensures Sections(b + [LF], p, m, |b| + 1 + Body(m))
  {
    var c := b + [LF];
    FindIs(c, LF, p, |c|, p + 1);
  }

  lemma FoldBuild(b: bytes, p: nat, l: Line, m: Head) returns (x: bytes)
    requires p <= |b| && LineEnd(b, p) == Some(l) && p < l.eol < l.next <= |b| && Unfold(b, l).None?
    requires FieldCan(b, p) && |m.hdrs| < MAX_HDRS
    ensures Sections(b + x, p, m, |b| + FieldCost(b, p, m))
  {
    hide LineEnd, Unfold, HeaderAt, FieldCan, FieldCost, Sections;
    var fill := FieldBuild(b, p, m);
    UnfoldBuild(b, l, fill, p);
    var a, n := Closed(b, fill), |b| + |fill|;
    LineSame(b, a, p);
    var f := Line(EolAt(a, p, n), n + 1);
    var z := TailBuild(a, HeaderAt(a, p, f.eol, m).val);
    FieldThen(a, z, p, l, f, m, |b| + FieldCost(b, p, m));
    x := fill + [LF] + z;
    assert a + z == b + x;
  }

  // ---------- messages ----------

  /** With its headers done a message lacks at most its body. */
  lemma BodyBuild(c: bytes, l: Line) returns (x: bytes)
    requires SkipBlank(c, 0) <= |c| && LineEnd(c, SkipBlank(c, 0)) == Some(l)
    requires SkipBlank(c, 0) <= l.eol < l.next <= |c|
    requires StartOf(c, SkipBlank(c, 0), l.eol).Ok? && Headers(c, l.next, Head([], None)).Ok?
    requires var hs := Headers(c, l.next, Head([], None)).val; |c| <= hs.end + Body(hs.head)
    ensures Frame(c + x).Ok?
    ensures var hs := Headers(c, l.next, Head([], None)).val; |c + x| == hs.end + Body(hs.head)
  {
    hide LineEnd, StartOf, Headers, SkipBlank;
    var p, hs := SkipBlank(c, 0), Headers(c, l.next, Head([], None)).val;
    x := seq(hs.end + Body(hs.head) - |c|, _ => 0);
    var d := c + x;
    SkipWhole(c, d);
    LineSame(c, d, p);
    StartSame(c, d, p, l.eol);
    HeadersExtend(c, d, l.next, Head([], None));
  }

  lemma SkipAll(b: bytes, c: bytes)
    requires b <= c && SkipBlank(b, 0) == |b| < |c| && c[|b|] != CR && c[|b|] != LF
    ensures SkipBlank(c, 0) == |b|
  {
    SkipThrough(b, c, 0);
  }

  lemma {:induction false} SkipThrough(b: bytes, c: bytes, p: nat)
    requires b <= c && p <= |b| && SkipBlank(b, p) == |b| < |c| && c[|b|] != CR && c[|b|] != LF
    ensures SkipBlank(c, p) == |b|
    decreases |b| - p
  {
    if p < |b| {
      PrefixAt(b, c, p);
      SkipBlankBounds(b, p + 1);
      SkipThrough(b, c, p + 1);
    }
  }

  lemma SkipBlankBounds(b: bytes, p: nat)
    requires p <= |b|
    ensures p <= SkipBlank(b, p) <= |b|
  {
  }

  lemma CompletableBuild(b: bytes) returns (x: bytes)
    requires Frame(b) == Fail(Short) && Completable(b)
    ensures Frame(b + x).Ok? && |b + x| == Least(b)
  {
    hide LineEnd, Headers, HeadersCan, HeadersLeast, StartOf, StartCan, StartRest, SkipBlank, Frame;
    var p := SkipBlank(b, 0);
    SkipBounds(b);
    LineBounds(b, p);
    match LineEnd(b, p) {
      case None => x := StartComplete(b, p);
      case Some(l) => x := HeadersComplete(b, p, l);
    }
  }

  lemma StartComplete(b: bytes, p: nat) returns (x: bytes)
    requires p == SkipBlank(b, 0) <= |b| && LineEnd(b, p).None? && StartCan(b, p)
    ensures Frame(b + x).Ok? && |b + x| == |b| + StartRest(b, p) + 2
  {
    hide LineEnd, Headers, StartOf, StartCan, StartRest, SkipBlank, Frame;
    var fill := StartBuild(b, p);
    var a, n := Closed(b, fill), |b| + |fill|;
    ClosedLine(b, fill, p);
    var l := Line(EolAt(a, p, n), n + 1);
    var c := a + [LF];
    LineSame(a, c, p);
    LineBounds(c, p);
    StartSame(a, c, p, l.eol);
    if p < |b| {
      SkipOn(b, c);
    } else {
      assert c[|b|] == fill[0];
      SkipAll(b, c);
    }
    EmptyLine(c, n + 1, Head([], None));
    var y := BodyBuild(c, l);
    x := fill + [LF] + [LF] + y;
    assert b + x == c + y;
  }

  lemma HeadersComplete(b: bytes, p: nat, l: Line) returns (x: bytes)
    requires p == SkipBlank(b, 0) <= |b| && LineEnd(b, p) == Some(l) && p <= l.eol < l.next <= |b|
    requires Frame(b) == Fail(Short) && HeadersCan(b, l.next, Head([], None))
    ensures Frame(b + x).Ok? && |b + x| == HeadersLeast(b, l.next, Head([], None))
  {
    hide LineEnd, Headers, HeadersCan, HeadersLeast, StartOf, SkipBlank;
    StartErr(b, p, l.eol);
    if Headers(b, l.next, Head([], None)).Ok? {
      HeadersDone(b, l.next, Head([], None));
      HeadersBounds(b, l.next, Head([], None));
      x := BodyBuild(b, l);
    } else {
      var y := HeadersBuild(b, l.next, Head([], None));
      var c := b + y;
      SkipWhole(b, c);
      LineSame(b, c, p);
      StartSame(b, c, p, l.eol);
      hide Frame;
      var z := BodyBuild(c, l);
      x := y + z;
      assert b + x == c + z;
    }
  }

  lemma HeadersBounds(b: bytes, p: nat, m: Head)
    requires p <= |b| && Headers(b, p, m).Ok?
    ensures Headers(b, p, m).val.end <= |b|
  {
  }

  /** The exact meaning of SIP_E_SHORT: a buffer the parser calls short is the start of a message
      if and only if nothing in it rules that out and the shortest message it can become is within
      the limit on the length of a buffer. */
  lemma ShortExactly(b: bytes)
    requires Parse(b) == Fail(Short)
    ensures (exists x: bytes :: Parse(b + x).Ok?) <==> Completable(b) && Least(b) <= INT_MAX
  {
    hide Frame, Completable, Least;
    if Completable(b) && Least(b) <= INT_MAX {
      var x := CompletableBuild(b);
      assert Parse(b + x).Ok?;
    }
    if x: bytes :| Parse(b + x).Ok? {
      CompletableNeeds(b, b + x);
    }
  }

  /** And that length is exact: nothing shorter will do, and so much will. */
  lemma ShortestExactly(b: bytes, n: nat)
    requires Parse(b) == Fail(Short) && Completable(b) && n <= INT_MAX
    ensures (exists x: bytes :: |b + x| <= n && Parse(b + x).Ok?) <==> Least(b) <= n
  {
    hide Frame, Completable, Least;
    if Least(b) <= n {
      var x := CompletableBuild(b);
      assert |b + x| <= n && Parse(b + x).Ok?;
    }
    if x: bytes :| |b + x| <= n && Parse(b + x).Ok? {
      CompletableNeeds(b, b + x);
    }
  }

  /** A line that starts with a space is called short and can never become a start line. */
  lemma SpaceIsShort(x: bytes)
    ensures Parse([SPACE]) == Fail(Short) && Parse([SPACE] + x).Fail?
  {
    var b: bytes := [SPACE];
    assert SkipBlank(b, 0) == 0;
    assert Find(b, LF, 0, 1) == None by { assert Find(b, LF, 1, 1) == None; }
    assert !SoFar(b, 0, SIP2_SPACE) by { assert Lc(b[0 + 0]) != SIP2_SPACE[0]; }
    FindIs(b, SPACE, 0, 1, 0);
    assert !Completable(b);
    hide Frame, Completable;
    if Frame(b + x).Ok? { CompletableNeeds(b, b + x); }
  }

  /** A message whose header section announces a body that goes past the limit is called short and
      is never a message. */
  lemma EndlessIsShort(b: bytes, x: bytes)
    requires |b| <= INT_MAX && LineEnd(b, SkipBlank(b, 0)).Some?
    requires var l := LineEnd(b, SkipBlank(b, 0)).value;
             && StartOf(b, SkipBlank(b, 0), l.eol).Ok? && Headers(b, l.next, Head([], None)).Ok?
             && var hs := Headers(b, l.next, Head([], None)).val;
                hs.head.clen.Some? && hs.end + hs.head.clen.value > INT_MAX
    ensures Parse(b) == Fail(Short) && Completable(b) && Parse(b + x).Fail?
  {
    hide LineEnd, Headers, HeadersCan, HeadersLeast, StartOf, SkipBlank;
    var l := LineEnd(b, SkipBlank(b, 0)).value;
    HeadersDone(b, l.next, Head([], None));
    HeadersBounds(b, l.next, Head([], None));
    assert Frame(b) == Fail(Short);
    hide Frame;
    if Parse(b + x).Ok? { CompletableNeeds(b, b + x); }
  }

  /** "A B SIP/2.0", "l:2147483648" and an empty line. */
  const ENDLESS: bytes :=
    [65, 32, 66, 32, 83, 73, 80, 47, 50, 46, 48, 10, 108, 58, 50, 49, 52, 55, 52, 56, 51, 54, 52, 56, 10, 10]

  lemma EndlessStart()
    ensures SkipBlank(ENDLESS, 0) == 0 && LineEnd(ENDLESS, 0) == Some(Line(11, 12)) && StartOf(ENDLESS, 0, 11).Ok?
  {
    FoldedStart();
    var a := ENDLESS[..12];
    assert a == FOLDED[..12];
    hide StartOf, LineEnd, Find;
    LineSame(a, FOLDED, 0);
    LineSame(a, ENDLESS, 0);
    LineBounds(ENDLESS, 0);
    LineIs(ENDLESS, 0, 11);
    StartSame(a, FOLDED, 0, 11);
    StartSame(a, ENDLESS, 0, 11);
  }

  lemma EndlessNumber()
    ensures ParseU32(ENDLESS, 14, 24) == Some(0x8000_0000)
  {
    assert Decimal(ENDLESS, 14, 16) == Some(21);
    assert Decimal(ENDLESS, 14, 18) == Some(2147);
    assert Decimal(ENDLESS, 14, 20) == Some(214748);
    assert Decimal(ENDLESS, 14, 22) == Some(21474836);
    assert Decimal(ENDLESS, 14, 24) == Some(2147483648);
  }

  lemma EndlessHeaders()
    ensures var r := Headers(ENDLESS, 12, Head([], None)); r.Ok? && r.val.end == 26 && r.val.head.clen == Some(0x8000_0000)
  {
    hide Find, TrimEnd, TrimStart, HeaderAt, ParseU32, LineEnd;
    var c := ENDLESS;
    LineIs(c, 12, 24);
    FindIs(c, COLON, 12, 24, 13);
    TrimEndIs(c, 12, 13, 13);
    TrimStartIs(c, 14, 24, 14);
    TrimEndIs(c, 14, 24, 24);
    EndlessNumber();
    HeaderIs(c, 12, 24, Head([], None), 13, 13, 14, 24);
    NotFolded(c, Line(24, 25));
    EmptyLine(c, 25, HeaderAt(c, 12, 24, Head([], None)).val);
  }

  /** Such a message: 26 octets that announce a body of 2^31. */
  lemma EndlessMessage(x: bytes)
    ensures Parse(ENDLESS) == Fail(Short) && Completable(ENDLESS) && Parse(ENDLESS + x).Fail?
  {
    EndlessStart();
    EndlessHeaders();
    hide Frame, Headers, LineEnd, StartOf, SkipBlank, Completable;
    EndlessIsShort(ENDLESS, x);
  }
}
