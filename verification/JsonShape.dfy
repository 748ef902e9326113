/** What an accepted JSON text looks like, octet by octet, and that exactly these are accepted: the
    grammar of RFC 8259 read off the nodes of the document (json_parse in json/src/json.c). */
module JsonShape {
  import opened Basics
  import opened JsonText
  import opened JsonGrammar
  import opened JsonLocality
  import opened JsonPool

  // ---------- white space and separators ----------

  predicate Gap(t: bytes, i: int, j: int) {
    0 <= i <= j <= |t| && forall k :: i <= k < j ==> t[k] == 0x20 || t[k] == 0x09 || t[k] == 0x0A || t[k] == 0x0D
  }

  predicate PartedAt(t: bytes, i: int, j: int, c: byte, m: int) {
    i <= m < j <= |t| && Gap(t, i, m) && t[m] == c && Gap(t, m + 1, j)
  }

  /** One c, with white space around it, fills t[i..j]. */
  ghost predicate Parted(t: bytes, i: int, j: int, c: byte) {
    exists m :: PartedAt(t, i, j, c, m)
  }

  lemma GapSkipped(t: bytes, i: nat, j: nat)
    requires i <= |t|
    ensures SkipWs(t, i) == j && j < |t| ==> Gap(t, i, j)
    ensures SkipWs(t, i) == |t| ==> Gap(t, i, |t|)
    ensures Gap(t, i, j) && (j < |t| ==> !Gap(t, j, j + 1)) ==> SkipWs(t, i) == j
  {
    if Gap(t, i, j) && (j < |t| ==> !Gap(t, j, j + 1)) { SkipWsIs(t, i, j); }
  }

  // ---------- numbers: section 6 ----------

  predicate AllDigits(b: bytes, i: nat, j: nat) {
    i < j <= |b| && forall k :: i <= k < j ==> 0x30 <= b[k] <= 0x39
  }

  /** An optional minus, then 0 alone or digits that do not start with 0. */
  predicate IntPart(b: bytes, i: nat, j: nat) {
    i < |b| &&
    var q := if b[i] == 0x2D then i + 1 else i;
    AllDigits(b, q, j) && (b[q] == 0x30 ==> j == q + 1)
  }

  /** Nothing, or a dot and digits. */
  predicate FracPart(b: bytes, i: nat, j: nat) {
    i == j <= |b| || (i < |b| && b[i] == 0x2E && AllDigits(b, i + 1, j))
  }

  /** Nothing, or an e or E, an optional sign and digits. */
  predicate ExpPart(b: bytes, i: nat, j: nat) {
    || i == j <= |b|
    || (&& i + 1 < |b| && (b[i] == 0x65 || b[i] == 0x45)
        && AllDigits(b, if b[i + 1] == 0x2B || b[i + 1] == 0x2D then i + 2 else i + 1, j))
  }

  predicate NumberAt(b: bytes, i: nat, j: nat, isint: bool, m: nat, n: nat) {
    IntPart(b, i, m) && FracPart(b, m, n) && ExpPart(b, n, j) && isint == (m == j)
  }

  ghost predicate Number(b: bytes, i: nat, j: nat, isint: bool) {
    exists m, n :: NumberAt(b, i, j, isint, m, n)
  }

  /** What may stand behind a value. */
  predicate Stop(t: bytes, e: int) {
    0 <= e <= |t| && (e < |t| ==> t[e] == 0x20 || t[e] == 0x09 || t[e] == 0x0A || t[e] == 0x0D
                                  || t[e] == 0x2C || t[e] == 0x5D || t[e] == 0x7D)
  }

  lemma DigitsFound(t: bytes, p: nat)
    requires p < |t| && IsDigit(t[p])
    ensures AllDigits(t, p, DigitsEnd(t, p))
  {
  }

  lemma NumberFound(t: bytes, p: nat)
    requires p < |t| && ScanNum(t, p).Ok?
    ensures var Ok(v, e) := ScanNum(t, p); v.0 == Slice(p, e - p) && Number(t, p, e, v.1)
  {
    var a := IntEnd(t, p).value;
    var b := FracEnd(t, a).value;
    var e := ExpEnd(t, b).value;
    IntFound(t, p);
    FracFound(t, a);
    ExpFound(t, b);
    NumberEnds(t, a, b, e);
    assert NumberAt(t, p, e, e == a, a, b);
  }

  lemma NumberEnds(t: bytes, a: nat, b: nat, e: nat)
    requires FracPart(t, a, b) && ExpPart(t, b, e)
    ensures a <= b <= e
  {
  }

  lemma IntFound(t: bytes, p: nat)
    requires p < |t| && IntEnd(t, p).Some?
    ensures IntPart(t, p, IntEnd(t, p).value)
  {
    var q := if t[p] == MINUS then p + 1 else p;
    if t[q] != ZERO { DigitsFound(t, q); }
  }

  lemma FracFound(t: bytes, p: nat)
    requires p <= |t| && FracEnd(t, p).Some?
    ensures FracPart(t, p, FracEnd(t, p).value)
  {
    if p < |t| && t[p] == 0x2E { DigitsFound(t, p + 1); }
  }

  lemma ExpFound(t: bytes, p: nat)
    requires p <= |t| && ExpEnd(t, p).Some?
    ensures ExpPart(t, p, ExpEnd(t, p).value)
  {
    if p < |t| && (t[p] == 0x65 || t[p] == 0x45) {
      DigitsFound(t, if t[p+1] == 0x2B || t[p+1] == 0x2D then p + 2 else p + 1);
    }
  }

  /** A number in front of what may stand behind it is scanned to its end. */
  lemma NumberRead(t: bytes, p: nat, e: nat, isint: bool)
    requires Number(t, p, e, isint) && Stop(t, e)
    ensures p < e && ScanNum(t, p) == Ok((Slice(p, e - p), isint), e)
  {
    var m, n :| NumberAt(t, p, e, isint, m, n);
    hide IntPart, FracPart, ExpPart, IntEnd, FracEnd, ExpEnd, Stop;
    NumberEnds(t, m, n, e);
    IntRead(t, p, m, e);
    FracRead(t, m, n, e);
    ExpRead(t, n, e);
  }

  /** Where a part of a number ends there is no further digit. */
  predicate Turns(t: bytes, j: nat) { j <= |t| && (j < |t| ==> !IsDigit(t[j])) }

  lemma IntRead(t: bytes, p: nat, m: nat, e: nat)
    requires IntPart(t, p, m) && (exists n :: FracPart(t, m, n) && ExpPart(t, n, e)) && Stop(t, e)
    ensures p < m && IntEnd(t, p) == Some(m)
  {
    var n :| FracPart(t, m, n) && ExpPart(t, n, e);
    assert Turns(t, m);
    var q := if t[p] == MINUS then p + 1 else p;
    if t[q] != ZERO { DigitsEndIs(t, q, m); }
  }

  lemma FracRead(t: bytes, m: nat, n: nat, e: nat)
    requires FracPart(t, m, n) && ExpPart(t, n, e) && Stop(t, e)
    ensures m <= |t| && FracEnd(t, m) == Some(n)
  {
    assert Turns(t, n) || m == n;
    if m < n { DigitsEndIs(t, m + 1, n); }
  }

  lemma ExpRead(t: bytes, n: nat, e: nat)
    requires ExpPart(t, n, e) && Stop(t, e)
    ensures n <= |t| && ExpEnd(t, n) == Some(e)
  {
    if n < e { DigitsEndIs(t, if t[n+1] == 0x2B || t[n+1] == 0x2D then n + 2 else n + 1, e); }
  }

  // ---------- strings: section 7 ----------

  /** One character of a string: itself, a backslash and a letter, or a backslash, u and four hex
      digits. */
  predicate Unit(u: bytes) {
    || (|u| == 1 && u[0] >= 0x20 && u[0] != 0x22 && u[0] != 0x5C)
    || (|u| == 2 && u[0] == 0x5C && u[1] in {0x22, 0x5C, 0x2F, 0x62, 0x66, 0x6E, 0x72, 0x74})
    || (|u| == 6 && u[0] == 0x5C && u[1] == 0x75 && Digit16(u[2]) && Digit16(u[3]) && Digit16(u[4]) && Digit16(u[5]))
  }

  function Joined(us: seq<bytes>): bytes {
    if us == [] then [] else us[0] + Joined(us[1..])
  }

  predicate AllUnits(us: seq<bytes>) { forall i :: 0 <= i < |us| ==> Unit(us[i]) }

  ghost predicate Characters(b: bytes) {
    exists us :: AllUnits(us) && Joined(us) == b
  }

  /** A string between quotes, with the slice of what is inside and the flag for a backslash. */
  ghost predicate Quoted(t: bytes, s: Slice, esc: bool) {
    && 1 <= s.off && s.off + s.len < |t| && t[s.off - 1] == 0x22 && t[s.off + s.len] == 0x22
    && Characters(t[s.off..s.off + s.len]) && esc == (0x5C in t[s.off..s.off + s.len])
  }

  /** The length of the first character at q. */
  function UnitLen(t: bytes, q: nat): nat
    requires q < |t|
  {
    if t[q] != BACKSLASH then 1 else if q + 1 < |t| && t[q+1] == LOWER_U then 6 else 2
  }

  lemma {:induction false} CharactersFound(t: bytes, q: nat) returns (us: seq<bytes>)
    requires q <= |t| && StrEnd(t, q).Some?
    ensures q <= StrEnd(t, q).value < |t| && t[StrEnd(t, q).value] == QUOTE
    ensures AllUnits(us) && Joined(us) == t[q..StrEnd(t, q).value]
    decreases |t| - q
  {
    var e := StrEnd(t, q).value;
    if t[q] == QUOTE {
      us := [];
    } else {
      var n := UnitLen(t, q);
      UnitFound(t, q);
      var rest := CharactersFound(t, q + n);
      us := [t[q..q + n]] + rest;
      assert us[1..] == rest;
      assert t[q..e] == t[q..q + n] + t[q + n..e];
    }
  }

  lemma UnitFound(t: bytes, q: nat)
    requires q < |t| && StrEnd(t, q).Some? && t[q] != QUOTE
    ensures var n := UnitLen(t, q); q + n <= |t| && Unit(t[q..q + n]) && StrEnd(t, q) == StrEnd(t, q + n)
  {
    if t[q] == BACKSLASH && t[q+1] == LOWER_U {
      DigitsAre(t[q+2]);
      DigitsAre(t[q+3]);
      DigitsAre(t[q+4]);
      DigitsAre(t[q+5]);
    }
  }

  lemma {:induction false} CharactersRead(t: bytes, q: nat, us: seq<bytes>)
    requires AllUnits(us) && q + |Joined(us)| < |t| && t[q..q + |Joined(us)|] == Joined(us)
    requires t[q + |Joined(us)|] == 0x22
    ensures StrEnd(t, q) == Some(q + |Joined(us)|)
    decreases |us|
  {
    if us != [] {
      var u, e := us[0], q + |Joined(us)|;
      assert Unit(us[0]);
      assert t[q..q + |u|] == t[q..e][..|u|] == u;
      assert t[q + |u|..e] == t[q..e][|u|..] == Joined(us[1..]);
      CharactersRead(t, q + |u|, us[1..]);
      UnitRead(t, q, u);
    }
  }

  lemma UnitRead(t: bytes, q: nat, u: bytes)
    requires Unit(u) && q + |u| <= |t| && t[q..q + |u|] == u
    ensures StrEnd(t, q) == StrEnd(t, q + |u|)
  {
    var s := t[q..q + |u|];
    assert t[q] == s[0] == u[0];
    if |u| >= 2 { assert t[q + 1] == s[1] == u[1]; }
    if |u| == 6 {
      assert t[q + 2] == s[2] == u[2] && t[q + 3] == s[3] == u[3] && t[q + 4] == s[4] == u[4] && t[q + 5] == s[5] == u[5];
      DigitsAre(u[2]);
      DigitsAre(u[3]);
      DigitsAre(u[4]);
      DigitsAre(u[5]);
    }
  }

  lemma QuotedFound(t: bytes, p: nat)
    requires p < |t| && t[p] == QUOTE && ScanStr(t, p).Ok?
    ensures var Ok(s, e) := ScanStr(t, p);
            p + 1 == s.off && e == s.off + s.len + 1 && Quoted(t, s, Escaped(t, s))
  {
    hide StrEnd, Unit;
    var us := CharactersFound(t, p + 1);
  }

  lemma QuotedRead(t: bytes, s: Slice, esc: bool)
    requires Quoted(t, s, esc)
    ensures ScanStr(t, s.off - 1) == Ok(s, s.off + s.len + 1) && Escaped(t, s) == esc
  {
    hide StrEnd, Unit;
    var us :| AllUnits(us) && Joined(us) == t[s.off..s.off + s.len];
    CharactersRead(t, s.off, us);
  }

  // ---------- values ----------

  function From(v: Tree): int { if v.kind == KStr then v.raw.off - 1 else v.raw.off }

  function To(v: Tree): int { v.raw.off + v.raw.len + if v.kind == KStr then 1 else 0 }

  predicate Bare(v: Tree) { v.key == Slice(0, 0) && !v.kesc }

  /** Where a kid starts: at its name, in an object. */
  function KidFrom(obj: bool, k: Tree): int { if obj then k.key.off - 1 else From(k) }

  function Opens(obj: bool): byte { if obj then 0x7B else 0x5B }

  function Shuts(obj: bool): byte { if obj then 0x7D else 0x5D }

  /** The literal names of section 3. */
  predicate Literal(kind: Kind, b: bytes) {
    || (kind == KNull && b == [0x6E, 0x75, 0x6C, 0x6C])
    || (kind == KBool && (b == [0x74, 0x72, 0x75, 0x65] || b == [0x66, 0x61, 0x6C, 0x73, 0x65]))
  }

  predicate Inside(t: bytes, s: Slice) { s.off + s.len <= |t| }

  /** A value, by its slice of the text; a container by its brackets, its kids and what stands
      between them. */
  ghost predicate Shape(t: bytes, v: Tree)
    decreases v, 1
  {
    && Inside(t, v.raw)
    && match v.kind
       case KNull => Literal(KNull, t[v.raw.off..v.raw.off + v.raw.len]) && Flagless(v) && v.kids == []
       case KBool => Literal(KBool, t[v.raw.off..v.raw.off + v.raw.len]) && Flagless(v) && v.kids == []
       case KNum => Number(t, v.raw.off, v.raw.off + v.raw.len, v.isint) && !v.esc && v.kids == []
       case KStr => Quoted(t, v.raw, v.esc) && !v.isint && v.kids == []
       case KArr => Flagless(v) && Bracketed(t, v, false)
       case KObj => Flagless(v) && Bracketed(t, v, true)
  }

  predicate Flagless(v: Tree) { !v.esc && !v.isint }

  ghost predicate Bracketed(t: bytes, v: Tree, obj: bool)
    requires Inside(t, v.raw)
    decreases v, 0
  {
    var a, e := v.raw.off, v.raw.off + v.raw.len;
    && v.raw.len >= 2 && t[a] == Opens(obj) && t[e - 1] == Shuts(obj)
    && (forall i :: 0 <= i < |v.kids| ==> Named(t, obj, v.kids[i]) && Shape(t, v.kids[i]))
    && if v.kids == [] then Gap(t, a + 1, e - 1) else Spaced(t, a + 1, obj, v.kids, e - 1)
  }

  /** The name of a member, with its colon, and no name in an array. */
  ghost predicate Named(t: bytes, obj: bool, k: Tree) {
    if obj then Quoted(t, k.key, k.kesc) && Parted(t, k.key.off + k.key.len + 1, From(k), 0x3A) else Bare(k)
  }

  ghost predicate Comma(t: bytes, obj: bool, ks: seq<Tree>, i: nat)
    requires i + 1 < |ks|
  {
    Parted(t, To(ks[i]), KidFrom(obj, ks[i + 1]), 0x2C)
  }

  /** The kids fill t[a..e] but for one comma between each two, and white space. */
  ghost predicate Spaced(t: bytes, a: int, obj: bool, ks: seq<Tree>, e: int)
    requires ks != []
  {
    && Gap(t, a, KidFrom(obj, ks[0])) && Gap(t, To(ks[|ks| - 1]), e)
    && forall i :: 0 <= i < |ks| - 1 ==> Comma(t, obj, ks, i)
  }

  /** A value inside d containers, and no value inside more than 31. */
  ghost predicate Shallow(v: Tree, d: nat)
    decreases v
  {
    d < 32 && forall i :: 0 <= i < |v.kids| ==> Shallow(v.kids[i], d + 1)
  }

  ghost predicate KidOk(t: bytes, obj: bool, k: Tree, d: nat) {
    Named(t, obj, k) && Shape(t, k) && Shallow(k, d)
  }

  ghost predicate AllOk(t: bytes, obj: bool, ks: seq<Tree>, d: nat) {
    forall i :: 0 <= i < |ks| ==> KidOk(t, obj, ks[i], d)
  }

  function Unnamed(k: Tree): Tree { k.(key := Slice(0, 0), kesc := false) }

  lemma NameIsApart(t: bytes, k: Tree, d: nat)
    ensures Shape(t, Unnamed(k)) <==> Shape(t, k)
    ensures Shallow(Unnamed(k), d) <==> Shallow(k, d)
    ensures From(Unnamed(k)) == From(k) && To(Unnamed(k)) == To(k) && Bare(Unnamed(k)) && Size(Unnamed(k)) == Size(k)
  {
    hide Number, Quoted, Literal, Spaced, Gap, Named;
    SizeIsTotal(k);
    SizeIsTotal(Unnamed(k));
  }

  // ---------- what is read has that shape ----------

  lemma ScalarFound(t: bytes, q: nat)
    requires q < |t| && ParseScalar(t, q).Ok?
    ensures var Ok(v, e) := ParseScalar(t, q);
            From(v) == q && Shape(t, v) && Bare(v) && e == To(v) && v.kids == []
  {
    hide ScanStr, ScanNum, ScanLit, Number, Quoted, Escaped, Literal;
    if t[q] == QUOTE { QuotedFound(t, q); }
    else if t[q] == 0x74 { LiteralFound(t, q, LitTrue(), KBool); }
    else if t[q] == 0x66 { LiteralFound(t, q, LitFalse(), KBool); }
    else if t[q] == 0x6E { LiteralFound(t, q, LitNull(), KNull); }
    else { NumberFound(t, q); }
  }

  lemma LiteralFound(t: bytes, q: nat, lit: bytes, kind: Kind)
    requires q < |t| && ScanLit(t, q, lit).Ok?
    requires (kind == KBool && (lit == LitTrue() || lit == LitFalse())) || (kind == KNull && lit == LitNull())
    ensures var Ok(s, e) := ScanLit(t, q, lit);
            s == Slice(q, e - q) && e <= |t| && Literal(kind, t[q..e])
  {
  }

  lemma {:induction false} ValueFound(t: bytes, p: nat, d: nat, u: nat, c: nat)
    requires p <= |t| && ParseValue(t, p, d, u, c).Ok?
    ensures var Ok(v, e) := ParseValue(t, p, d, u, c);
            Gap(t, p, From(v)) && Shape(t, v) && Bare(v) && e == To(v) && Shallow(v, d) && u + Size(v) <= c
    decreases |t| - p, 2
  {
    hide SkipWs, ParseContainer, ParseScalar, Shape, Size, Gap;
    var q := SkipWs(t, p);
    GapSkipped(t, p, q);
    if t[q] == LBRACE || t[q] == LBRACKET {
      ContainerFound(t, q, d, u + 1, c, t[q] == LBRACE);
    } else {
      ScalarFound(t, q);
      SizeIsTotal(ParseScalar(t, q).val);
    }
  }

  lemma {:induction false} ContainerFound(t: bytes, q: nat, d: nat, u: nat, c: nat, obj: bool)
    requires q < |t| && d < 32 && u <= c && t[q] == Opens(obj) && ParseContainer(t, q, d, u, c, obj).Ok?
    ensures var Ok(v, e) := ParseContainer(t, q, d, u, c, obj);
            From(v) == q && Shape(t, v) && Bare(v) && e == To(v) && Shallow(v, d) && u + Size(v) <= c + 1
    decreases |t| - q, 1
  {
    hide SkipWs, ParseKids, Size, TotalSize, Gap, Spaced, KidOk;
    var q1 := SkipWs(t, q + 1);
    GapSkipped(t, q + 1, q1);
    if t[q1] == Close(obj) {
      SizeOfContainer(obj, q, q1 + 1, []);
      EmptyTotal();
    } else {
      var Ok(ks, e) := ParseKids(t, q1, d, u, c, obj);
      KidsFound(t, q1, d, u, c, obj, ks, e);
      SizeOfContainer(obj, q, e, ks);
      WiderGap(t, q + 1, q1, obj, ks, e - 1);
      KidsAre(t, obj, ks, d + 1);
    }
  }

  lemma KidsAre(t: bytes, obj: bool, ks: seq<Tree>, d: nat)
    requires AllOk(t, obj, ks, d)
    ensures forall i :: 0 <= i < |ks| ==> Named(t, obj, ks[i]) && Shape(t, ks[i])
    ensures forall i :: 0 <= i < |ks| ==> Shallow(ks[i], d)
  {
    hide Named, Shape, Shallow;
    forall i | 0 <= i < |ks| ensures Named(t, obj, ks[i]) && Shape(t, ks[i]) && Shallow(ks[i], d) {
      assert KidOk(t, obj, ks[i], d);
    }
  }

  /** White space in front of the kids. */
  lemma WiderGap(t: bytes, a: nat, b: nat, obj: bool, ks: seq<Tree>, e: int)
    requires ks != [] && Gap(t, a, b) && Spaced(t, b, obj, ks, e)
    ensures Spaced(t, a, obj, ks, e)
  {
  }

  lemma {:induction false} KidFound(t: bytes, p: nat, d: nat, u: nat, c: nat, obj: bool)
    requires p <= |t| && ParseKid(t, p, d, u, c, obj).Ok?
    ensures var Ok(k, e) := ParseKid(t, p, d, u, c, obj);
            Gap(t, p, KidFrom(obj, k)) && KidOk(t, obj, k, d + 1) && e == To(k) && u + Size(k) <= c
    decreases |t| - p, 3
  {
    hide ParseKey, ParseValue, Shape, Shallow, Size, Gap, Quoted, Escaped;
    var Ok(key, p3) := ParseKey(t, p, obj);
    var Ok(v, e) := ParseValue(t, p3, d + 1, u, c);
    ValueFound(t, p3, d + 1, u, c);
    var k := WithKey(t, v, key);
    NameIsApart(t, k, d + 1);
    assert Unnamed(k) == v;
    if obj { NameFound(t, p, From(v)); } else { NoName(t, p); }
  }

  lemma NoName(t: bytes, p: nat)
    requires p <= |t|
    ensures ParseKey(t, p, false) == Ok(Slice(0, 0), p) && !Escaped(t, Slice(0, 0))
  {
  }

  lemma NameFound(t: bytes, p: nat, start: int)
    requires p <= |t| && ParseKey(t, p, true).Ok? && Gap(t, ParseKey(t, p, true).p, start)
    ensures var key := ParseKey(t, p, true).val;
            && Gap(t, p, key.off - 1) && Quoted(t, key, Escaped(t, key))
            && Parted(t, key.off + key.len + 1, start, 0x3A)
  {
    hide SkipWs, ScanStr, Quoted, Escaped;
    if ParseKey(t, p, true).Ok? { NameParts(t, p); }
    var p1 := SkipWs(t, p);
    var Ok(s, e) := ScanStr(t, p1);
    var p2 := SkipWs(t, e);
    GapSkipped(t, p, p1);
    QuotedFound(t, p1);
    GapSkipped(t, e, p2);
    assert PartedAt(t, e, start, 0x3A, p2) by {
      StartBounds(t, p2 + 1, start);
    }
  }

  lemma StartBounds(t: bytes, i: int, j: int)
    requires Gap(t, i, j)
    ensures 0 <= i <= j <= |t|
  {
  }

  lemma NameParts(t: bytes, p: nat)
    requires p <= |t| && ParseKey(t, p, true).Ok?
    ensures var p1 := SkipWs(t, p);
            && p <= p1 < |t| && t[p1] == QUOTE && ScanStr(t, p1).Ok? && ScanStr(t, p1).p <= |t|
            && var Ok(s, e) := ScanStr(t, p1);
               var p2 := SkipWs(t, e);
               e <= p2 < |t| && t[p2] == COLON && ParseKey(t, p, true) == Ok(s, p2 + 1)
  {
    hide ScanStr;
    SkipForward(t, p);
    var p1 := SkipWs(t, p);
    ScanForward(t, p1);
    SkipForward(t, ScanStr(t, p1).p);
  }

  lemma ScanForward(t: bytes, p: nat)
    requires p < |t| && ScanStr(t, p).Ok?
    ensures p + 1 < ScanStr(t, p).p <= |t|
  {
  }

  lemma SkipForward(t: bytes, p: nat)
    requires p <= |t|
    ensures p <= SkipWs(t, p) <= |t|
  {
  }

  lemma {:induction false} KidsFound(t: bytes, p: nat, d: nat, u: nat, c: nat, obj: bool, ks: seq<Tree>, e: nat)
    requires p <= |t| && ParseKids(t, p, d, u, c, obj) == Ok(ks, e)
    ensures ks != [] && 0 < e <= |t| && AllOk(t, obj, ks, d + 1) && u + TotalSize(ks) <= c
    ensures Spaced(t, p, obj, ks, e - 1) && t[e - 1] == Shuts(obj)
    decreases |t| - p, 4
  {
    hide ParseKid, ParseKids, SkipWs, Size, KidOk, Gap, Parted;
    KidsSplit(t, p, d, u, c, obj, ks, e);
    var Ok(k, p4) := ParseKid(t, p, d, u, c, obj);
    var p5 := SkipWs(t, p4);
    KidFound(t, p, d, u, c, obj);
    GapSkipped(t, p4, p5);
    if t[p5] == COMMA {
      var rest := ks[1..];
      KidsFound(t, p5 + 1, d, u + Size(k), c, obj, rest, e);
      CommaFound(t, p4, p5, KidFrom(obj, rest[0]));
      forall i | 0 <= i < |ks| - 1 ensures Comma(t, obj, ks, i) {
        if i > 0 { assert Comma(t, obj, rest, i - 1); }
      }
      forall i | 0 <= i < |ks| ensures KidOk(t, obj, ks[i], d + 1) {
        if i > 0 { assert rest[i - 1] == ks[i]; }
      }
    } else {
      assert ks[1..] == [];
    }
  }

  lemma CommaFound(t: bytes, i: nat, m: nat, j: int)
    requires m < |t| && Gap(t, i, m) && t[m] == COMMA && Gap(t, m + 1, j)
    ensures Parted(t, i, j, 0x2C)
  {
    assert PartedAt(t, i, j, 0x2C, m);
  }

  // ---------- what has that shape is read ----------

  lemma ScalarRead(t: bytes, v: Tree)
    requires Shape(t, v) && Bare(v) && Stop(t, To(v)) && v.kind != KArr && v.kind != KObj
    ensures 0 <= From(v) < |t| && t[From(v)] != 0x7B && t[From(v)] != 0x5B && !Gap(t, From(v), From(v) + 1)
    ensures ParseScalar(t, From(v)) == Ok(v, To(v)) && v.kids == []
  {
    hide ScanStr, ScanNum, ScanLit, Escaped, Characters, Number, Stop, Literal;
    if v.kind == KStr {
      QuotedRead(t, v.raw, v.esc);
    } else if v.kind == KNum {
      NumberRead(t, v.raw.off, To(v), v.isint);
      NumberStarts(t, v.raw.off, To(v), v.isint);
    } else {
      LiteralRead(t, v.raw.off, v.raw.len, v.kind);
    }
  }

  lemma LiteralRead(t: bytes, q: nat, n: nat, kind: Kind)
    requires q + n <= |t| && Literal(kind, t[q..q + n])
    ensures q < |t|
    ensures var lit := if t[q] == 0x74 then LitTrue() else if t[q] == 0x66 then LitFalse() else LitNull();
            && ScanLit(t, q, lit) == Ok(Slice(q, n), q + n) && t[q] in {0x74, 0x66, 0x6E}
            && kind == if t[q] == 0x6E then KNull else KBool
  {
    var b := t[q..q + n];
    assert b != [] && t[q] == b[0];
  }

  lemma NumberStarts(t: bytes, i: nat, j: nat, isint: bool)
    requires Number(t, i, j, isint)
    ensures i < |t| && (t[i] == 0x2D || 0x30 <= t[i] <= 0x39)
  {
  }

  lemma {:induction false} ValueRead(t: bytes, p: nat, d: nat, u: nat, c: nat, v: Tree)
    requires p <= |t| && Gap(t, p, From(v)) && Shape(t, v) && Bare(v) && Stop(t, To(v))
    requires Shallow(v, d) && u + Size(v) <= c
    ensures ParseValue(t, p, d, u, c) == Ok(v, To(v))
    decreases |t| - p, 2
  {
    hide SkipWs, ParseContainer, ParseScalar, Shape, Size, Gap, Stop;
    SizeIsTotal(v);
    if v.kind == KArr || v.kind == KObj {
      var obj := v.kind == KObj;
      ContainerStarts(t, v);
      StartBounds(t, p, From(v));
      GapSkipped(t, p, From(v));
      ContainerRead(t, v.raw.off, d, u + 1, c, obj, v);
    } else {
      ScalarRead(t, v);
      GapSkipped(t, p, From(v));
    }
  }

  lemma ContainerStarts(t: bytes, v: Tree)
    requires Shape(t, v) && (v.kind == KArr || v.kind == KObj)
    ensures From(v) == v.raw.off < |t| && t[From(v)] == Opens(v.kind == KObj) && !Gap(t, From(v), From(v) + 1)
  {
    hide Spaced, Named;
  }

  lemma {:induction false} ContainerRead(t: bytes, q: nat, d: nat, u: nat, c: nat, obj: bool, v: Tree)
    requires q == v.raw.off < |t| && v.kind == (if obj then KObj else KArr) && Shape(t, v) && Bare(v)
    requires Shallow(v, d) && u + Size(v) <= c + 1
    ensures ParseContainer(t, q, d, u, c, obj) == Ok(v, To(v))
    decreases |t| - q, 1
  {
    hide SkipWs, ParseKids, Size, TotalSize, Gap, Spaced, Named, Shape, Bracketed, Shallow, KidOk;
    var e := v.raw.off + v.raw.len;
    SizeIsTotal(v);
    BracketsAre(t, v, obj, d);
    ShutIsNoGap(t, e - 1, obj);
    if v.kids == [] {
      GapSkipped(t, q + 1, e - 1);
    } else {
      KidsStart(t, q + 1, obj, v, e);
      var q1 := KidFrom(obj, v.kids[0]);
      GapSkipped(t, q + 1, q1);
      NarrowGap(t, q + 1, q1, obj, v.kids, e - 1);
      KidsRead(t, q1, d, u, c, obj, v.kids, e);
    }
  }

  lemma BracketsAre(t: bytes, v: Tree, obj: bool, d: nat)
    requires v.kind == (if obj then KObj else KArr) && Shape(t, v) && Shallow(v, d)
    ensures var a, e := v.raw.off, v.raw.off + v.raw.len;
            && a + 2 <= e <= |t| && t[a] == Opens(obj) && t[e - 1] == Shuts(obj) && Flagless(v)
            && AllOk(t, obj, v.kids, d + 1)
            && if v.kids == [] then Gap(t, a + 1, e - 1) else Spaced(t, a + 1, obj, v.kids, e - 1)
    ensures v.kids != [] ==> Named(t, obj, v.kids[0]) && Shape(t, v.kids[0])
  {
    hide Spaced, Gap, Named;
    forall i | 0 <= i < |v.kids| ensures KidOk(t, obj, v.kids[i], d + 1) { assert Shallow(v.kids[i], d + 1); }
  }

  lemma ShutIsNoGap(t: bytes, i: nat, obj: bool)
    requires i < |t| && t[i] == Shuts(obj)
    ensures !Gap(t, i, i + 1) && Close(obj) == Shuts(obj)
  {
  }

  /** A kid starts with neither white space nor a bracket that shuts. */
  lemma KidsStart(t: bytes, a: nat, obj: bool, v: Tree, e: nat)
    requires v.kids != [] && Named(t, obj, v.kids[0]) && Shape(t, v.kids[0]) && Spaced(t, a, obj, v.kids, e - 1)
    ensures var q := KidFrom(obj, v.kids[0]);
            a <= q < |t| && Gap(t, a, q) && !Gap(t, q, q + 1) && t[q] != Shuts(obj)
  {
    var k := v.kids[0];
    if !obj { ValueStarts(t, k); }
    hide Shape;
  }

  lemma ValueStarts(t: bytes, v: Tree)
    requires Shape(t, v)
    ensures 0 <= From(v) < |t| && !Gap(t, From(v), From(v) + 1) && t[From(v)] != 0x5D && t[From(v)] != 0x7D
    ensures From(v) < To(v) <= |t|
  {
    hide Named, Spaced, Characters;
    if v.kind == KNum { NumberStarts(t, v.raw.off, To(v), v.isint); NumberLong(t, v.raw.off, To(v), v.isint); }
    if v.kind == KNull || v.kind == KBool {
      var b := t[v.raw.off..To(v)];
      assert t[v.raw.off] == b[0];
    }
  }

  lemma NumberLong(t: bytes, i: nat, j: nat, isint: bool)
    requires Number(t, i, j, isint)
    ensures i < j
  {
    var m, n :| NumberAt(t, i, j, isint, m, n);
    NumberEnds(t, m, n, j);
  }

  lemma NarrowGap(t: bytes, a: nat, b: nat, obj: bool, ks: seq<Tree>, e: int)
    requires ks != [] && Spaced(t, a, obj, ks, e) && b == KidFrom(obj, ks[0]) <= |t|
    ensures Spaced(t, b, obj, ks, e)
  {
  }

  lemma {:induction false} KidRead(t: bytes, p: nat, d: nat, u: nat, c: nat, obj: bool, k: Tree)
    requires p <= |t| && Gap(t, p, KidFrom(obj, k)) && KidOk(t, obj, k, d + 1) && Stop(t, To(k)) && u + Size(k) <= c
    ensures ParseKid(t, p, d, u, c, obj) == Ok(k, To(k))
    decreases |t| - p, 3
  {
    hide ParseKey, ParseValue, Shape, Shallow, Size, Gap, Quoted, Escaped, Stop;
    NameIsApart(t, k, d + 1);
    if obj {
      var p3 := NameRead(t, p, k);
      ValueRead(t, p3, d + 1, u, c, Unnamed(k));
    } else {
      NoName(t, p);
      ValueRead(t, p, d + 1, u, c, Unnamed(k));
      assert Unnamed(k) == k;
    }
  }

  lemma NameRead(t: bytes, p: nat, k: Tree) returns (p3: nat)
    requires p <= |t| && Gap(t, p, k.key.off - 1) && Named(t, true, k)
    ensures p < p3 <= |t| && ParseKey(t, p, true) == Ok(k.key, p3) && Gap(t, p3, From(k)) && Escaped(t, k.key) == k.kesc
  {
    hide SkipWs, ScanStr, Escaped, Characters;
    var p1, e := k.key.off - 1, k.key.off + k.key.len + 1;
    var m :| PartedAt(t, e, From(k), 0x3A, m);
    QuotedRead(t, k.key, k.kesc);
    GapSkipped(t, p, p1);
    GapSkipped(t, e, m);
    p3 := m + 1;
  }

  lemma {:induction false} KidsRead(t: bytes, p: nat, d: nat, u: nat, c: nat, obj: bool, ks: seq<Tree>, e: nat)
    requires p <= |t| && ks != [] && 0 < e <= |t| && AllOk(t, obj, ks, d + 1) && u + TotalSize(ks) <= c
    requires Spaced(t, p, obj, ks, e - 1) && t[e - 1] == Shuts(obj)
    ensures ParseKids(t, p, d, u, c, obj) == Ok(ks, e)
    decreases |t| - p, 4
  {
    hide ParseKid, ParseKids, SkipWs, Size, Gap, Shape, Shallow, Named, Stop, Parted;
    var k, rest := ks[0], ks[1..];
    assert KidOk(t, obj, ks[0], d + 1);
    ValueStarts(t, k);
    KidAhead(t, p, obj, k);
    ShutIsNoGap(t, e - 1, obj);
    if rest == [] {
      StopAtShut(t, To(k), e - 1, obj);
      KidRead(t, p, d, u, c, obj, k);
      GapSkipped(t, To(k), e - 1);
      KidsJoin(t, p, d, u, c, obj, k, To(k), [], e);
    } else {
      assert Comma(t, obj, ks, 0);
      var m := CommaRead(t, To(k), KidFrom(obj, rest[0]));
      KidRead(t, p, d, u, c, obj, k);
      GapSkipped(t, To(k), m);
      forall i | 0 <= i < |rest| - 1 ensures Comma(t, obj, rest, i) { assert Comma(t, obj, ks, i + 1); }
      KidsRead(t, m + 1, d, u + Size(k), c, obj, rest, e);
      KidsJoin(t, p, d, u, c, obj, k, To(k), rest, e);
    }
    assert [k] + rest == ks;
  }

  lemma KidAhead(t: bytes, p: nat, obj: bool, k: Tree)
    requires Gap(t, p, KidFrom(obj, k)) && Named(t, obj, k)
    ensures p <= From(k)
  {
    hide Quoted;
    if obj { var m :| PartedAt(t, k.key.off + k.key.len + 1, From(k), 0x3A, m); }
  }

  lemma StopAtShut(t: bytes, i: int, j: nat, obj: bool)
    requires Gap(t, i, j) && j < |t| && t[j] == Shuts(obj)
    ensures Stop(t, i)
  {
  }

  lemma CommaRead(t: bytes, i: int, j: int) returns (m: nat)
    requires Parted(t, i, j, 0x2C)
    ensures 0 <= i <= m < |t| && Gap(t, i, m) && t[m] == COMMA && !Gap(t, m, m + 1) && Gap(t, m + 1, j) && Stop(t, i)
  {
    m :| PartedAt(t, i, j, 0x2C, m);
  }

  // ---------- documents ----------

  /** One value with white space around it, behind a byte order mark if there is one. */
  ghost predicate Document(t: bytes, v: Tree) {
    && |t| <= 0x7FFF_FFFF && Shape(t, v) && Bare(v)
    && Gap(t, if [0xEF, 0xBB, 0xBF] <= t then 3 else 0, From(v)) && Gap(t, To(v), |t|)
  }

  /** json_parse accepts exactly these, nested at most 32 deep and of at most cap values, and its
      tree is the one they are laid out by. */
  lemma ParseShape(t: bytes, cap: nat, v: Tree)
    ensures ParseDoc(t, cap) == Ok(v, |t|) <==> Document(t, v) && Shallow(v, 0) && Size(v) <= cap
    ensures ParseDoc(t, cap).Ok? ==> ParseDoc(t, cap).p == |t|
  {
    hide ParseValue, SkipWs, Shape, Size, Gap;
    MarkIs(t);
    if ParseDoc(t, cap) == Ok(v, |t|) {
      ValueFound(t, Start(t), 0, 0, cap);
      GapSkipped(t, To(v), |t|);
    }
    if Document(t, v) && Shallow(v, 0) && Size(v) <= cap {
      ValueStarts(t, v);
      StopAtEnd(t, To(v));
      ValueRead(t, Start(t), 0, 0, cap, v);
      GapSkipped(t, To(v), |t|);
    }
  }

  lemma MarkIs(t: bytes)
    ensures Start(t) == (if [0xEF, 0xBB, 0xBF] <= t then 3 else 0) <= |t|
  {
    if |t| >= 3 { assert t[..3] == [t[0], t[1], t[2]]; }
  }

  lemma StopAtEnd(t: bytes, i: int)
    requires Gap(t, i, |t|)
    ensures Stop(t, i)
  {
  }
}
