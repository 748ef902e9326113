/** Printing and parsing are inverse: the text of a value parses, and the tree reads back as
    exactly that value. */
module JsonRoundTrip {
  import opened Basics
  import opened JsonText
  import opened JsonGrammar
  import opened JsonLocality
  import opened JsonValue

  // ---------- reading a tree back ----------

  /** What a caller gets from the typed readers: json_bool, json_i64, json_str, json_key and
      the sibling walk. Non-integer literals have no value here. */
  function Decode(t: bytes, k: Tree): Option<Json>
    decreases k, 1
  {
    match k.kind
    case KNull => Some(JNull)
    case KBool => Some(JBool(k.raw.len == 4))
    case KNum =>
      if !k.isint then None else
      (match ParseI64(Body(t, k.raw)) case None => None case Some(v) => Some(JInt(v)))
    case KStr =>
      (match BodyValue(Body(t, k.raw), k.esc) case None => None case Some(s) => Some(JStr(s)))
    case KArr => ContOf(false, DecodeKids(t, k.kids))
    case KObj => ContOf(true, DecodeKids(t, k.kids))
  }

  function ContOf(obj: bool, ks: Option<seq<Kid>>): Option<Json> {
    match ks case None => None case Some(kids) => Some(JCont(obj, kids))
  }

  function DecodeKids(t: bytes, ks: seq<Tree>): Option<seq<Kid>>
    decreases ks, 0
  {
    if ks == [] then Some([]) else
    match DecodeKid(t, ks[0])
    case None => None
    case Some(kid) =>
      match DecodeKids(t, ks[1..]) case None => None case Some(rest) => Some([kid] + rest)
  }

  function DecodeKid(t: bytes, c: Tree): Option<Kid>
    decreases c, 2
  {
    match BodyValue(Body(t, c.key), c.kesc)
    case None => None
    case Some(key) =>
      match Decode(t, c) case None => None case Some(v) => Some(Kid(key, v))
  }

  lemma DecodeNamed(t: bytes, k: Tree, key: Slice)
    ensures Decode(t, WithKey(t, k, key)) == Decode(t, k)
  {
    hide DecodeKids;
  }

  // ---------- where a text sits ----------

  /** x appears in t at q. */
  predicate Sits(t: bytes, q: nat, x: bytes) {
    q + |x| <= |t| && t[q .. q + |x|] == x
  }

  lemma SitsSplit(t: bytes, q: nat, x: bytes, y: bytes)
    requires Sits(t, q, x + y)
    ensures Sits(t, q, x) && Sits(t, q + |x|, y)
  {
    var z := x + y;
    assert t[q .. q + |x|] == z[..|x|] == x;
    assert t[q + |x| .. q + |x| + |y|] == z[|x|..] == y;
  }

  lemma SitsAt(t: bytes, q: nat, x: bytes, i: nat)
    requires Sits(t, q, x) && i < |x|
    ensures q + i < |t| && t[q + i] == x[i]
  {
    assert t[q + i] == t[q .. q + |x|][i];
  }

  lemma NewLineBlank(ind: nat, l: nat)
    ensures forall i :: 0 <= i < |NewLine(ind, l)| ==> IsWs(NewLine(ind, l)[i])
  {
  }

  // ---------- scalars ----------

  /** The scan steps over one escaped byte. */
  lemma EscapedByteScans(t: bytes, q: nat, c: byte)
    requires Sits(t, q, EscapeByte(c))
    ensures StrEnd(t, q) == StrEnd(t, q + |EscapeByte(c)|)
  {
    var e := EscapeByte(c);
    SitsAt(t, q, e, 0);
    if |e| > 1 { SitsAt(t, q, e, 1); }
    if |e| == 6 {
      SitsAt(t, q, e, 2);
      SitsAt(t, q, e, 3);
      SitsAt(t, q, e, 4);
      SitsAt(t, q, e, 5);
      assert IsHex(e[2]) && IsHex(e[3]) && IsHex(e[4]) && IsHex(e[5]);
    }
  }

  /** An escaped body ends at the first quote the writer put there. */
  lemma {:induction false} EscapedEnds(t: bytes, q: nat, s: bytes)
    requires Sits(t, q, Escape(s)) && q + |Escape(s)| < |t| && t[q + |Escape(s)|] == QUOTE
    ensures StrEnd(t, q) == Some(q + |Escape(s)|)
    decreases |s|
  {
    hide EscapeByte;
    if s != [] {
      hide StrEnd;
      SitsSplit(t, q, EscapeByte(s[0]), Escape(s[1..]));
      EscapedByteScans(t, q, s[0]);
      EscapedEnds(t, q + |EscapeByte(s[0])|, s[1..]);
    }
  }

  lemma QuotedScans(t: bytes, q: nat, s: bytes)
    requires Sits(t, q, Quoted(s))
    ensures q < |t| && t[q] == QUOTE
    ensures ScanStr(t, q) == Ok(Slice(q + 1, |Escape(s)|), q + |Quoted(s)|)
    ensures BodyValue(Body(t, Slice(q + 1, |Escape(s)|)), Escaped(t, Slice(q + 1, |Escape(s)|))) == Some(s)
  {
    hide Escape, Sits, StrEnd, BodyValue, Body, Escaped;
    var e := Escape(s);
    assert Quoted(s) == [QUOTE] + (e + [QUOTE]);
    SitsSplit(t, q, [QUOTE], e + [QUOTE]);
    SitsSplit(t, q + 1, e, [QUOTE]);
    SitsAt(t, q, [QUOTE], 0);
    SitsAt(t, q + 1 + |e|, [QUOTE], 0);
    EscapedEnds(t, q + 1, s);
    EscapedReads(t, q + 1, s);
  }

  /** The body of a written string reads back as the string, flag and all. */
  lemma EscapedReads(t: bytes, q: nat, s: bytes)
    requires Sits(t, q, Escape(s))
    ensures BodyValue(Body(t, Slice(q, |Escape(s)|)), Escaped(t, Slice(q, |Escape(s)|))) == Some(s)
    ensures q + |Escape(s)| <= |t|
  {
    hide Escape, Expand;
    EscapeRoundTrip(s);
    assert Body(t, Slice(q, |Escape(s)|)) == Escape(s);
    if BACKSLASH !in Escape(s) { PlainExpands(Escape(s)); }
  }

  /** The byte after a number must not continue it. */
  predicate EndsNumber(t: bytes, p: nat) {
    p < |t| ==> !IsDigit(t[p]) && t[p] != 0x2E && t[p] != 0x65 && t[p] != 0x45
  }

  lemma NumberScans(t: bytes, q: nat, v: int)
    requires Sits(t, q, IntText(v)) && EndsNumber(t, q + |IntText(v)|)
    ensures q < |t| && (t[q] == MINUS || IsDigit(t[q]))
    ensures ScanNum(t, q) == Ok((Slice(q, |IntText(v)|), true), q + |IntText(v)|)
    ensures Body(t, Slice(q, |IntText(v)|)) == IntText(v)
  {
    hide Digits;
    var x := IntText(v);
    var n := if v < 0 then -v else v;
    var ds := Digits(n);
    var q0 := if v < 0 then q + 1 else q;
    if v < 0 { SitsSplit(t, q, [MINUS], ds); SitsAt(t, q, [MINUS], 0); }
    SitsAt(t, q0, ds, 0);
    NoLeadingZero(n);
    forall i | q0 <= i < q0 + |ds| ensures IsDigit(t[i]) { SitsAt(t, q0, ds, i - q0); }
    var e := q0 + |ds|;
    if n == 0 {
      ZeroText();
    } else {
      DigitsEndIs(t, q0, e);
    }
    assert IntEnd(t, q) == Some(e);
  }

  lemma ZeroText()
    ensures |Digits(0)| == 1
  {
  }

  /** Every printed value starts with a byte that is not white space. */
  lemma PrintStarts(v: Json, ind: nat, lvl: nat)
    ensures !IsWs(Print(v, ind, lvl)[0]) && Print(v, ind, lvl)[0] != RBRACE && Print(v, ind, lvl)[0] != RBRACKET
  {
    hide KidsText, Escape, Digits, NewLine;
    match v
    case JInt(n) =>
      var ds := Digits(if n < 0 then -n else n);
      assert IsDigit(ds[0]);
    case _ =>
  }

  lemma LiteralParses(t: bytes, q: nat, v: Json)
    requires (v.JNull? || v.JBool?) && Sits(t, q, Print(v, 0, 0))
    ensures q < |t| && !IsWs(t[q]) && t[q] != LBRACE && t[q] != LBRACKET
    ensures ParseScalar(t, q).Ok? && ParseScalar(t, q).p == q + |Print(v, 0, 0)|
    ensures ParseScalar(t, q).val.kids == [] && Decode(t, ParseScalar(t, q).val) == Some(v)
  {
    var x := Print(v, 0, 0);
    SitsAt(t, q, x, 0);
    assert LitNull() == Null() && LitTrue() == True() && LitFalse() == False();
  }

  lemma IntegerParses(t: bytes, q: nat, n: int)
    requires INT64_MIN <= n <= INT64_MAX && Sits(t, q, IntText(n)) && EndsNumber(t, q + |IntText(n)|)
    ensures q < |t| && !IsWs(t[q]) && t[q] != LBRACE && t[q] != LBRACKET
    ensures ParseScalar(t, q).Ok? && ParseScalar(t, q).p == q + |IntText(n)|
    ensures ParseScalar(t, q).val.kids == [] && Decode(t, ParseScalar(t, q).val) == Some(JInt(n))
  {
    hide IntText, ScanNum, Body, Sits, ParseI64;
    NumberScans(t, q, n);
    IntRoundTrip(n);
  }

  lemma StringParses(t: bytes, q: nat, s: bytes)
    requires Sits(t, q, Quoted(s))
    ensures q < |t| && !IsWs(t[q]) && t[q] != LBRACE && t[q] != LBRACKET
    ensures ParseScalar(t, q).Ok? && ParseScalar(t, q).p == q + |Quoted(s)|
    ensures ParseScalar(t, q).val.kids == [] && Decode(t, ParseScalar(t, q).val) == Some(JStr(s))
  {
    hide Quoted, ScanStr, Body, Sits, BodyValue, Escaped;
    QuotedScans(t, q, s);
  }

  lemma ScalarParses(t: bytes, q: nat, v: Json, ind: nat, lvl: nat)
    requires !v.JCont? && Wf(v) && Sits(t, q, Print(v, ind, lvl))
    requires EndsNumber(t, q + |Print(v, ind, lvl)|)
    ensures q < |t| && !IsWs(t[q]) && t[q] != LBRACE && t[q] != LBRACKET
    ensures ParseScalar(t, q).Ok? && ParseScalar(t, q).p == q + |Print(v, ind, lvl)|
    ensures Size(ParseScalar(t, q).val) == 1
    ensures Decode(t, ParseScalar(t, q).val) == Some(v)
  {
    hide ParseScalar, Decode, Quoted, IntText, Sits;
    match v
    case JInt(n) => IntegerParses(t, q, n);
    case JStr(s) => StringParses(t, q, s);
    case _ => LiteralParses(t, q, v);
  }

  // ---------- containers ----------

  predicate Blank(t: bytes, p: nat, q: nat) {
    p <= q <= |t| && forall j :: p <= j < q ==> IsWs(t[j])
  }

  lemma SkipTo(t: bytes, p: nat, q: nat)
    requires Blank(t, p, q) && q < |t| && !IsWs(t[q])
    ensures SkipWs(t, p) == q
  {
    SkipWsIs(t, p, q);
  }

  lemma SkipNone(t: bytes, p: nat)
    requires p < |t| && !IsWs(t[p])
    ensures SkipWs(t, p) == p && Blank(t, p, p)
  {
  }

  lemma SitsBlank(t: bytes, p: nat, ind: nat, l: nat)
    requires Sits(t, p, NewLine(ind, l))
    ensures Blank(t, p, p + |NewLine(ind, l)|)
  {
    NewLineBlank(ind, l);
    forall j | p <= j < p + |NewLine(ind, l)| ensures IsWs(t[j]) { SitsAt(t, p, NewLine(ind, l), j - p); }
  }

  /** In printed kids, kid i follows the first i of them. */
  lemma {:induction false} KidSits(t: bytes, base: nat, v: Json, n: nat, i: nat, ind: nat, lvl: nat)
    requires v.JCont? && i < n <= |v.kids| && Sits(t, base, KidsText(v, n, ind, lvl))
    ensures Sits(t, base + |KidsText(v, i, ind, lvl)|,
                 Lead(v.obj, v.kids[i].key, i, ind, lvl) + Print(v.kids[i].val, ind, lvl))
    ensures |KidsText(v, i + 1, ind, lvl)| == |KidsText(v, i, ind, lvl)|
              + |Lead(v.obj, v.kids[i].key, i, ind, lvl)| + |Print(v.kids[i].val, ind, lvl)|
    decreases n
  {
    hide Print, Lead;
    var a, b, c := KidsText(v, n - 1, ind, lvl), Lead(v.obj, v.kids[n-1].key, n - 1, ind, lvl),
                   Print(v.kids[n-1].val, ind, lvl);
    assert KidsText(v, n, ind, lvl) == a + (b + c);
    SitsSplit(t, base, a, b + c);
    if i < n - 1 { KidSits(t, base, v, n - 1, i, ind, lvl); }
  }

  /** A member name in place parses to its slice; nothing is consumed in an array. */
  lemma KeyParses(t: bytes, p: nat, q: nat, obj: bool, key: bytes, ind: nat)
    requires Blank(t, p, q) && Sits(t, q, KeyText(obj, key, ind)) && q + |KeyText(obj, key, ind)| < |t|
    requires !obj ==> key == []
    ensures ParseKey(t, p, obj).Ok?
    ensures Blank(t, ParseKey(t, p, obj).p, q + |KeyText(obj, key, ind)|)
    ensures BodyValue(Body(t, ParseKey(t, p, obj).val), Escaped(t, ParseKey(t, p, obj).val)) == Some(key)
  {
    hide Quoted, Body, Escaped, Sits, BodyValue, Blank, ScanStr, SkipWs;
    if obj {
      hide ParseKey, KeyText;
      var tail := [COLON] + if ind > 0 then [SPACE] else [];
      KeyTextSplit(key, ind);
      SitsSplit(t, q, Quoted(key), tail);
      QuotedScans(t, q, key);
      SitsAt(t, q + |Quoted(key)|, tail, 0);
      NameParses(t, p, q, key);
      ColonBlank(t, q + |Quoted(key)|, ind);
    } else {
      NoName(t);
    }
  }

  lemma KeyTextSplit(key: bytes, ind: nat)
    ensures KeyText(true, key, ind) == Quoted(key) + ([COLON] + if ind > 0 then [SPACE] else [])
  {
    hide Quoted;
  }

  lemma NameParses(t: bytes, p: nat, q: nat, key: bytes)
    requires Blank(t, p, q) && Sits(t, q, Quoted(key))
    requires q + |Quoted(key)| < |t| && t[q + |Quoted(key)|] == COLON
    ensures ParseKey(t, p, true) == Ok(Slice(q + 1, |Escape(key)|), q + |Quoted(key)| + 1)
  {
    hide Quoted, Body, Escaped, Sits, BodyValue, Blank, ScanStr, SkipWs;
    QuotedScans(t, q, key);
    SkipTo(t, p, q);
    SkipNone(t, q + |Quoted(key)|);
    assert p <= |t| by { BlankBounds(t, p, q); }
  }

  lemma BlankBounds(t: bytes, p: nat, q: nat)
    requires Blank(t, p, q)
    ensures p <= q <= |t|
  {
  }

  lemma ColonBlank(t: bytes, e: nat, ind: nat)
    requires Sits(t, e, [COLON] + if ind > 0 then [SPACE] else [])
    ensures Blank(t, e + 1, e + 1 + if ind > 0 then 1 else 0)
  {
    if ind > 0 { SitsAt(t, e, [COLON] + [SPACE], 1); }
  }

  lemma NoName(t: bytes)
    ensures BodyValue(Body(t, NO_SLICE), Escaped(t, NO_SLICE)) == Some([])
  {
  }

  /** The text fits the depth bound and the pool. */
  predicate Fits(v: Json, d: nat, u: nat, c: nat) {
    Wf(v) && d + Height(v) <= MAX_DEPTH && u + Count(v) <= c
  }

  lemma KidParses(t: bytes, p: nat, q: nat, obj: bool, kid: Kid, ind: nat, lvl: nat, d: nat, u: nat, c: nat)
    requires Blank(t, p, q) && Sits(t, q, KeyText(obj, kid.key, ind) + Print(kid.val, ind, lvl))
    requires (!obj ==> kid.key == []) && Fits(kid.val, d + 1, u, c)
    requires EndsNumber(t, q + |KeyText(obj, kid.key, ind)| + |Print(kid.val, ind, lvl)|)
    ensures ParseKid(t, p, d, u, c, obj).Ok?
    ensures ParseKid(t, p, d, u, c, obj).p == q + |KeyText(obj, kid.key, ind)| + |Print(kid.val, ind, lvl)|
    ensures DecodeKid(t, ParseKid(t, p, d, u, c, obj).val) == Some(kid)
    ensures Size(ParseKid(t, p, d, u, c, obj).val) == Count(kid.val)
    decreases kid, 2
  {
    hide Print, KeyText, ParseKey, ParseValue, Decode, Size, Count;
    var kt := KeyText(obj, kid.key, ind);
    SitsSplit(t, q, kt, Print(kid.val, ind, lvl));
    KeyParses(t, p, q, obj, kid.key, ind);
    var Ok(key, p3) := ParseKey(t, p, obj);
    ValueParses(t, p3, q + |kt|, kid.val, ind, lvl, d + 1, u, c);
    var k := ParseValue(t, p3, d + 1, u, c).val;
    DecodeNamed(t, k, key);
    SizeWithKey(t, k, key);
  }

  lemma ValueParses(t: bytes, p: nat, q: nat, v: Json, ind: nat, lvl: nat, d: nat, u: nat, c: nat)
    requires Blank(t, p, q) && Sits(t, q, Print(v, ind, lvl)) && Fits(v, d, u, c)
    requires EndsNumber(t, q + |Print(v, ind, lvl)|)
    ensures ParseValue(t, p, d, u, c).Ok?
    ensures ParseValue(t, p, d, u, c).p == q + |Print(v, ind, lvl)|
    ensures Decode(t, ParseValue(t, p, d, u, c).val) == Some(v)
    ensures Size(ParseValue(t, p, d, u, c).val) == Count(v)
    decreases v, 1
  {
    hide ParseContainer, ParseScalar, SkipWs, KidsText, Decode, Size;
    PrintStarts(v, ind, lvl);
    SitsAt(t, q, Print(v, ind, lvl), 0);
    SkipTo(t, p, q);
    if v.JCont? {
      ContParses(t, q, v, ind, lvl, d, u + 1, c);
    } else {
      ScalarParses(t, q, v, ind, lvl);
    }
  }

  lemma ContParses(t: bytes, q: nat, v: Json, ind: nat, lvl: nat, d: nat, u: nat, c: nat)
    requires v.JCont? && Sits(t, q, Print(v, ind, lvl))
    requires Wf(v) && d + Height(v) <= MAX_DEPTH && u + Count(v) <= c + 1
    ensures q < |t| && ParseContainer(t, q, d, u, c, v.obj).Ok?
    ensures ParseContainer(t, q, d, u, c, v.obj).p == q + |Print(v, ind, lvl)|
    ensures Decode(t, ParseContainer(t, q, d, u, c, v.obj).val) == Some(v)
    ensures Size(ParseContainer(t, q, d, u, c, v.obj).val) == Count(v)
    decreases v, 0, |v.kids| + 1
  {
    hide ParseKids, SkipWs, KidsText, Ending, Size, TotalSize, Print, Sits, Decode, Height, Blank, DecodeKids;
    var n := |v.kids|;
    var body, end := KidsText(v, n, ind, lvl + 1), Ending(v, ind, lvl);
    PrintCont(v, ind, lvl);
    SitsSplit(t, q, [Open(v.obj)], body + end);
    SitsAt(t, q, [Open(v.obj)], 0);
    SitsSplit(t, q + 1, body, end);
    EndingAt(t, q + 1 + |body|, v, ind, lvl);
    NoKids(v, ind, lvl);
    if n == 0 {
      SkipNone(t, q + 1);
      SizeOfContainer(v.obj, q, q + 2, []);
      DecodeContainer(t, v.obj, q, q + 2, []);
      EmptyTotal();
    } else {
      KidStarts(t, q + 1, v, 0, ind, lvl);
      var q1 := KidStart(q + 1, v, 0, ind, lvl + 1);
      SkipTo(t, q + 1, q1);
      SkipNone(t, q1);
      KidsParse(t, q1, v, 0, ind, lvl, q + 1, d, u, c);
      var Ok(ks, e) := ParseKids(t, q1, d, u, c, v.obj);
      SizeOfContainer(v.obj, q, e, ks);
      DecodeContainer(t, v.obj, q, e, ks);
      assert v.kids[0..] == v.kids;
    }
  }

  lemma PrintCont(v: Json, ind: nat, lvl: nat)
    requires v.JCont?
    ensures Print(v, ind, lvl) == [Open(v.obj)] + (KidsText(v, |v.kids|, ind, lvl + 1) + Ending(v, ind, lvl))
  {
    hide KidsText, Ending;
  }

  lemma DecodeContainer(t: bytes, obj: bool, a: nat, b: nat, ks: seq<Tree>)
    requires a <= b
    ensures Decode(t, Container(obj, a, b, ks)) == ContOf(obj, DecodeKids(t, ks))
    ensures DecodeKids(t, []) == Some([])
  {
  }

  lemma NoKids(v: Json, ind: nat, lvl: nat)
    requires v.JCont?
    ensures KidsText(v, 0, ind, lvl + 1) == []
    ensures v.kids == [] ==> Ending(v, ind, lvl) == [Shut(v.obj)] && KidsText(v, |v.kids|, ind, lvl + 1) == []
  {
  }

  /** Where the name or value of kid i begins. */
  function KidStart(base: nat, v: Json, i: nat, ind: nat, lvl: nat): nat
    requires v.JCont? && i <= |v.kids|
  {
    base + |KidsText(v, i, ind, lvl)| + (if i > 0 then 1 else 0) + |NewLine(ind, lvl)|
  }

  /** The last bracket of a container, after its line break. */
  lemma EndingAt(t: bytes, p: nat, v: Json, ind: nat, lvl: nat)
    requires v.JCont? && Sits(t, p, Ending(v, ind, lvl))
    ensures var e := p + |Ending(v, ind, lvl)| - 1;
            Blank(t, p, e) && e < |t| && t[e] == Shut(v.obj) && EndsNumber(t, p)
  {
    hide NewLine;
    var nl := if v.kids == [] then [] else NewLine(ind, lvl);
    SitsSplit(t, p, nl, [Shut(v.obj)]);
    SitsAt(t, p + |nl|, [Shut(v.obj)], 0);
    if v.kids != [] { SitsBlank(t, p, ind, lvl); }
    assert |nl| > 0 ==> IsWs(t[p]);
  }

  /** Printed kids with the container's ending behind them. */
  predicate Laid(t: bytes, base: nat, v: Json, ind: nat, lvl: nat)
    requires v.JCont?
  {
    && Sits(t, base, KidsText(v, |v.kids|, ind, lvl + 1))
    && Sits(t, base + |KidsText(v, |v.kids|, ind, lvl + 1)|, Ending(v, ind, lvl))
  }

  /** Kid i in place: blanks up to its start, then its text. */
  lemma KidStarts(t: bytes, base: nat, v: Json, i: nat, ind: nat, lvl: nat)
    requires v.JCont? && i < |v.kids| && Laid(t, base, v, ind, lvl)
    ensures var q := KidStart(base, v, i, ind, lvl + 1);
            var x := KeyText(v.obj, v.kids[i].key, ind) + Print(v.kids[i].val, ind, lvl + 1);
            && Blank(t, q - |NewLine(ind, lvl + 1)|, q) && Sits(t, q, x)
            && q < |t| && !IsWs(t[q]) && t[q] != Close(v.obj)
            && q + |x| == base + |KidsText(v, i + 1, ind, lvl + 1)|
    ensures i > 0 ==> base + |KidsText(v, i, ind, lvl + 1)| < |t|
                      && t[base + |KidsText(v, i, ind, lvl + 1)|] == COMMA
  {
    hide KidsText, NewLine, KeyText, Print, Ending, Sits, Blank, Lead;
    var n := |v.kids|;
    var at := base + |KidsText(v, i, ind, lvl + 1)|;
    var kt, pr := KeyText(v.obj, v.kids[i].key, ind), Print(v.kids[i].val, ind, lvl + 1);
    var sep := if i > 0 then [COMMA] else [];
    var nl := NewLine(ind, lvl + 1);
    KidSits(t, base, v, n, i, ind, lvl + 1);
    LeadSplit(v.obj, v.kids[i].key, i, ind, lvl + 1, pr);
    SitsSplit(t, at, sep, nl + (kt + pr));
    if i > 0 { SitsAt(t, at, sep, 0); }
    SitsSplit(t, at + |sep|, nl, kt + pr);
    SitsBlank(t, at + |sep|, ind, lvl + 1);
    KidFirstByte(t, at + |sep| + |nl|, v, i, ind, lvl);
  }

  lemma LaidEnd(t: bytes, base: nat, v: Json, ind: nat, lvl: nat)
    requires v.JCont? && Laid(t, base, v, ind, lvl)
    ensures Sits(t, base + |KidsText(v, |v.kids|, ind, lvl + 1)|, Ending(v, ind, lvl))
  {
  }

  /** What follows kid i ends any number. */
  lemma KidEnds(t: bytes, base: nat, v: Json, i: nat, ind: nat, lvl: nat)
    requires v.JCont? && i < |v.kids| && Laid(t, base, v, ind, lvl)
    ensures EndsNumber(t, base + |KidsText(v, i + 1, ind, lvl + 1)|)
  {
    hide KidsText, NewLine, KeyText, Print, Ending, Sits;
    if i + 1 < |v.kids| {
      KidStarts(t, base, v, i + 1, ind, lvl);
    } else {
      EndingAt(t, base + |KidsText(v, |v.kids|, ind, lvl + 1)|, v, ind, lvl);
    }
  }

  lemma LeadSplit(obj: bool, key: bytes, i: nat, ind: nat, lvl: nat, pr: bytes)
    ensures Lead(obj, key, i, ind, lvl) + pr
            == (if i > 0 then [COMMA] else []) + (NewLine(ind, lvl) + (KeyText(obj, key, ind) + pr))
    ensures |Lead(obj, key, i, ind, lvl)|
            == (if i > 0 then 1 else 0) + |NewLine(ind, lvl)| + |KeyText(obj, key, ind)|
  {
    hide NewLine, KeyText;
  }

  lemma KidFirstByte(t: bytes, q: nat, v: Json, i: nat, ind: nat, lvl: nat)
    requires v.JCont? && i < |v.kids|
    requires Sits(t, q, KeyText(v.obj, v.kids[i].key, ind) + Print(v.kids[i].val, ind, lvl + 1))
    ensures q < |t| && !IsWs(t[q]) && t[q] != Close(v.obj)
  {
    hide Print, Escape;
    var x := KeyText(v.obj, v.kids[i].key, ind) + Print(v.kids[i].val, ind, lvl + 1);
    PrintStarts(v.kids[i].val, ind, lvl + 1);
    SitsAt(t, q, x, 0);
  }

  lemma KidsParse(t: bytes, p: nat, v: Json, i: nat, ind: nat, lvl: nat, base: nat, d: nat, u: nat, c: nat)
    requires v.JCont? && i < |v.kids| && Laid(t, base, v, ind, lvl)
    requires Blank(t, p, KidStart(base, v, i, ind, lvl + 1))
    requires Wf(v) && d + Height(v) <= MAX_DEPTH && u + CountKids(v, i) <= c
    ensures ParseKids(t, p, d, u, c, v.obj).Ok?
    ensures ParseKids(t, p, d, u, c, v.obj).p
            == base + |KidsText(v, |v.kids|, ind, lvl + 1)| + |Ending(v, ind, lvl)|
    ensures DecodeKids(t, ParseKids(t, p, d, u, c, v.obj).val) == Some(v.kids[i..])
    ensures TotalSize(ParseKids(t, p, d, u, c, v.obj).val) == CountKids(v, i)
    decreases v, 0, |v.kids| - i
  {
    hide ParseKids, ParseKid, KidsText, Ending, SkipWs, NewLine, KeyText, Print, DecodeKid, Size, Count;
    hide Sits, Blank, DecodeKids, TotalSize, Height, Laid, CountKids, Wf, EndsNumber, Fits;
    var n := |v.kids|;
    var q := KidStart(base, v, i, ind, lvl + 1);
    KidStarts(t, base, v, i, ind, lvl);
    KidEnds(t, base, v, i, ind, lvl);
    KidFits(v, i, d, u, c);
    KidParses(t, p, q, v.obj, v.kids[i], ind, lvl + 1, d, u, c);
    var Ok(k, p4) := ParseKid(t, p, d, u, c, v.obj);
    if i + 1 < n {
      KidStarts(t, base, v, i + 1, ind, lvl);
      SkipNone(t, p4);
      KidsParse(t, p4 + 1, v, i + 1, ind, lvl, base, d, u + Size(k), c);
      var Ok(ks, e) := ParseKids(t, p4 + 1, d, u + Size(k), c, v.obj);
      KidsJoin(t, p, d, u, c, v.obj, k, p4, ks, e);
      ConsKids(t, k, ks, v.kids[i], v.kids[i+1..]);
      assert v.kids[i..] == [v.kids[i]] + v.kids[i+1..];
    } else {
      LaidEnd(t, base, v, ind, lvl);
      EndingAt(t, p4, v, ind, lvl);
      SkipTo(t, p4, p4 + |Ending(v, ind, lvl)| - 1);
      KidsJoin(t, p, d, u, c, v.obj, k, p4, [], p4 + |Ending(v, ind, lvl)|);
      ConsKids(t, k, [], v.kids[i], []);
      assert v.kids[i..] == [v.kids[i]] + [];
    }
  }

  lemma ConsKids(t: bytes, k: Tree, ks: seq<Tree>, kid: Kid, kids: seq<Kid>)
    requires DecodeKid(t, k) == Some(kid) && (if ks == [] then kids == [] else DecodeKids(t, ks) == Some(kids))
    ensures DecodeKids(t, [k] + ks) == Some([kid] + kids)
    ensures TotalSize([k] + ks) == Size(k) + TotalSize(ks) && TotalSize([]) == 0
  {
    hide DecodeKid, Size;
    assert ([k] + ks)[1..] == ks;
  }

  /** Kids sit one level deeper than their container. */
  lemma KidFits(v: Json, i: nat, d: nat, u: nat, c: nat)
    requires v.JCont? && i < |v.kids| && Wf(v) && d + Height(v) <= MAX_DEPTH && u + CountKids(v, i) <= c
    ensures Fits(v.kids[i].val, d + 1, u, c) && (!v.obj ==> v.kids[i].key == [])
    ensures CountKids(v, i) == Count(v.kids[i].val) + CountKids(v, i + 1)
    ensures CountKids(v, |v.kids|) == 0
  {
    assert WfKid(v, i);
    KidHeight(v, |v.kids|, i);
  }

  lemma {:induction false} KidHeight(v: Json, n: nat, i: nat)
    requires v.JCont? && i < n <= |v.kids|
    ensures Height(v.kids[i].val) <= HeightKids(v, n)
    decreases n
  {
    hide Height;
    if i < n - 1 { KidHeight(v, n - 1, i); }
  }

  // ---------- values nested too deep ----------

  predicate TooDeep(v: Json, d: nat) { d + Height(v) > MAX_DEPTH }

  lemma ValueTooDeep(t: bytes, p: nat, q: nat, v: Json, ind: nat, lvl: nat, d: nat, u: nat, c: nat)
    requires Blank(t, p, q) && Sits(t, q, Print(v, ind, lvl))
    requires Wf(v) && TooDeep(v, d) && u + Count(v) <= c
    ensures ParseValue(t, p, d, u, c).Err? && ParseValue(t, p, d, u, c).code == Depth
    decreases v, 1
  {
    hide ParseContainer, ParseScalar, SkipWs, KidsText, Sits, Blank;
    BlankBounds(t, p, q);
    if d < MAX_DEPTH {
      PrintStarts(v, ind, lvl);
      SitsAt(t, q, Print(v, ind, lvl), 0);
      SkipTo(t, p, q);
      ContTooDeep(t, q, v, ind, lvl, d, u + 1, c);
    }
  }

  lemma ContTooDeep(t: bytes, q: nat, v: Json, ind: nat, lvl: nat, d: nat, u: nat, c: nat)
    requires v.JCont? && Sits(t, q, Print(v, ind, lvl)) && d < MAX_DEPTH
    requires Wf(v) && TooDeep(v, d) && u + Count(v) <= c + 1
    ensures q < |t| && ParseContainer(t, q, d, u, c, v.obj).Err?
    ensures ParseContainer(t, q, d, u, c, v.obj).code == Depth
    decreases v, 0, |v.kids| + 1
  {
    hide ParseKids, SkipWs, KidsText, Ending, Print, Sits, Blank;
    var n := |v.kids|;
    var body, end := KidsText(v, n, ind, lvl + 1), Ending(v, ind, lvl);
    PrintCont(v, ind, lvl);
    SitsSplit(t, q, [Open(v.obj)], body + end);
    SitsAt(t, q, [Open(v.obj)], 0);
    SitsSplit(t, q + 1, body, end);
    NoKids(v, ind, lvl);
    var j := DeepKid(v, n, d);
    KidStarts(t, q + 1, v, 0, ind, lvl);
    var q1 := KidStart(q + 1, v, 0, ind, lvl + 1);
    SkipTo(t, q + 1, q1);
    SkipNone(t, q1);
    KidsTooDeep(t, q1, v, 0, j, ind, lvl, q + 1, d, u, c);
  }

  /** A container that is too deep has a kid that is. */
  lemma DeepKid(v: Json, n: nat, d: nat) returns (j: nat)
    requires v.JCont? && n <= |v.kids| && d < MAX_DEPTH && d + 1 + HeightKids(v, n) > MAX_DEPTH
    ensures j < n && TooDeep(v.kids[j].val, d + 1)
    decreases n
  {
    hide Height;
    if TooDeep(v.kids[n-1].val, d + 1) {
      j := n - 1;
    } else {
      j := DeepKid(v, n - 1, d);
    }
  }

  lemma KidTooDeep(t: bytes, p: nat, q: nat, obj: bool, kid: Kid, ind: nat, lvl: nat, d: nat, u: nat, c: nat)
    requires Blank(t, p, q) && Sits(t, q, KeyText(obj, kid.key, ind) + Print(kid.val, ind, lvl))
    requires (!obj ==> kid.key == []) && Wf(kid.val) && TooDeep(kid.val, d + 1) && u + Count(kid.val) <= c
    ensures p <= |t| && ParseKid(t, p, d, u, c, obj).Err? && ParseKid(t, p, d, u, c, obj).code == Depth
    decreases kid, 2
  {
    hide Print, KeyText, ParseKey, ParseValue, Sits, Blank, Height, Count;
    BlankBounds(t, p, q);
    var kt := KeyText(obj, kid.key, ind);
    SitsSplit(t, q, kt, Print(kid.val, ind, lvl));
    SitsAt(t, q + |kt|, Print(kid.val, ind, lvl), 0);
    KeyParses(t, p, q, obj, kid.key, ind);
    ValueTooDeep(t, ParseKey(t, p, obj).p, q + |kt|, kid.val, ind, lvl, d + 1, u, c);
  }

  lemma KidsTooDeep(t: bytes, p: nat, v: Json, i: nat, j: nat, ind: nat, lvl: nat, base: nat, d: nat, u: nat, c: nat)
    requires v.JCont? && i <= j < |v.kids| && Laid(t, base, v, ind, lvl)
    requires Blank(t, p, KidStart(base, v, i, ind, lvl + 1))
    requires Wf(v) && TooDeep(v.kids[j].val, d + 1) && u + CountKids(v, i) <= c
    ensures p <= |t| && ParseKids(t, p, d, u, c, v.obj).Err? && ParseKids(t, p, d, u, c, v.obj).code == Depth
    decreases v, 0, |v.kids| - i
  {
    hide ParseKid, KidsText, Ending, SkipWs, NewLine, KeyText, Print, DecodeKid, Size, Count, Height;
    hide Sits, Blank, Laid;
    var q := KidStart(base, v, i, ind, lvl + 1);
    BlankBounds(t, p, q);
    KidStarts(t, base, v, i, ind, lvl);
    assert WfKid(v, i);
    if TooDeep(v.kids[i].val, d + 1) {
      KidTooDeep(t, p, q, v.obj, v.kids[i], ind, lvl + 1, d, u, c);
    } else {
      KidEnds(t, base, v, i, ind, lvl);
      KidParses(t, p, q, v.obj, v.kids[i], ind, lvl + 1, d, u, c);
      var Ok(k, p4) := ParseKid(t, p, d, u, c, v.obj);
      KidStarts(t, base, v, i + 1, ind, lvl);
      SkipNone(t, p4);
      KidsTooDeep(t, p4 + 1, v, i + 1, j, ind, lvl, base, d, u + Size(k), c);
    }
  }

  // ---------- whole documents ----------

  /** A printed document parses exactly when it nests at most 32 levels, and then the tree in
      the pool is the value that was printed: every byte string and every 64-bit integer reads
      back equal. The depth bound is the only way it can fail, given room in the pool. */
  lemma DocumentRoundTrip(v: Json, ind: nat, cap: nat)
    requires Wf(v) && Count(v) <= cap && |Print(v, ind, 0)| <= INT_MAX
    ensures var t := Print(v, ind, 0);
            if Height(v) <= MAX_DEPTH then
              ParseDoc(t, cap).Ok? && Decode(t, ParseDoc(t, cap).val) == Some(v)
              && Size(ParseDoc(t, cap).val) == Count(v)
            else
              ParseDoc(t, cap).Err? && ParseDoc(t, cap).code == Depth
  {
    hide ParseValue, Print, Decode, Size, Height, Count;
    var t := Print(v, ind, 0);
    assert t[0 .. 0 + |t|] == t;
    PrintNoMark(v, ind);
    if Height(v) <= MAX_DEPTH {
      ValueParses(t, 0, 0, v, ind, 0, 0, 0, cap);
      SkipWsIs(t, |t|, |t|);
    } else {
      ValueTooDeep(t, 0, 0, v, ind, 0, 0, 0, cap);
    }
  }

  lemma PrintNoMark(v: Json, ind: nat)
    ensures Start(Print(v, ind, 0)) == 0
  {
    hide KidsText, Escape, Digits, NewLine;
    match v
    case JInt(n) =>
      var ds := Digits(if n < 0 then -n else n);
      assert IsDigit(ds[0]);
    case _ =>
  }
}
