/** JSON values and the text the writer gives them. Doubles are not part of this model. */
module JsonValue {
  import opened Basics
  import opened JsonText

  /** A container holds named kids; the names of array elements are empty. */
  datatype Json = JNull | JBool(b: bool) | JInt(v: int) | JStr(s: bytes) | JCont(obj: bool, kids: seq<Kid>)

  datatype Kid = Kid(key: bytes, val: Json)

  const INT64_MIN: int := -0x8000_0000_0000_0000
  const INT64_MAX: int := 0x7FFF_FFFF_FFFF_FFFF

  predicate Wf(v: Json) {
    match v
    case JInt(n) => INT64_MIN <= n <= INT64_MAX
    case JCont(obj, kids) => forall i :: 0 <= i < |kids| ==> WfKid(v, i)
    case _ => true
  }

  predicate WfKid(v: Json, i: nat)
    requires v.JCont? && i < |v.kids|
    decreases v, 0
  {
    Wf(v.kids[i].val) && (!v.obj ==> v.kids[i].key == [])
  }

  /** Nesting levels: 1 for a scalar or an empty container. */
  function Height(v: Json): (h: nat)
    ensures h >= 1
    decreases v, 1, 0
  {
    if v.JCont? then 1 + HeightKids(v, |v.kids|) else 1
  }

  function HeightKids(v: Json, n: nat): nat
    requires v.JCont? && n <= |v.kids|
    decreases v, 0, n
  {
    if n == 0 then 0
    else var a, b := HeightKids(v, n - 1), Height(v.kids[n-1].val); if a >= b then a else b
  }

  /** Values in a document, the document itself included. */
  function Count(v: Json): (n: nat)
    ensures n >= 1
    decreases v, 1, 0
  {
    if v.JCont? then 1 + CountKids(v, 0) else 1
  }

  /** Values in the kids from i on. */
  function CountKids(v: Json, i: nat): nat
    requires v.JCont? && i <= |v.kids|
    decreases v, 0, |v.kids| - i
  {
    if i == |v.kids| then 0 else Count(v.kids[i].val) + CountKids(v, i + 1)
  }

  // ---------- integers ----------

  function Digits(n: nat): (r: bytes)
    ensures |r| >= 1
    ensures forall i :: 0 <= i < |r| ==> IsDigit(r[i])
  {
    if n < 10 then [0x30 + n] else Digits(n / 10) + [0x30 + n % 10]
  }

  function IntText(v: int): bytes {
    if v < 0 then [MINUS] + Digits(-v) else Digits(v)
  }

  /** The number a run of digits spells. */
  function Decimal(ds: bytes): nat
    requires AllDigits(ds)
  {
    if ds == [] then 0
    else var last: int := ds[|ds| - 1]; Decimal(ds[..|ds| - 1]) * 10 + (last - 0x30)
  }

  predicate AllDigits(ds: bytes) { forall i :: 0 <= i < |ds| ==> IsDigit(ds[i]) }

  /** i64_parse: an integer literal as an exact 64-bit value, or nothing. */
  function ParseI64(b: bytes): Option<int> {
    var neg := |b| > 0 && b[0] == MINUS;
    var ds := if neg then b[1..] else b;
    if |ds| == 0 || |ds| > 19 || !AllDigits(ds) then None
    else if Decimal(ds) > (if neg then INT64_MAX + 1 else INT64_MAX) then None
    else Some(if neg then 0 - Decimal(ds) else Decimal(ds))
  }

  lemma {:induction false} DigitsSpell(n: nat)
    ensures Decimal(Digits(n)) == n
  {
    if n >= 10 {
      DigitsSpell(n / 10);
      var ds := Digits(n);
      assert ds[..|ds| - 1] == Digits(n / 10);
    } else {
      var ds := Digits(n);
      assert ds[..|ds| - 1] == [];
    }
  }

  function Pow10(k: nat): nat { if k == 0 then 1 else 10 * Pow10(k - 1) }

  lemma {:induction false} DigitsShort(n: nat, k: nat)
    requires k >= 1 && n < Pow10(k)
    ensures |Digits(n)| <= k
  {
    if n >= 10 {
      assert Pow10(1) == 10;
      DigitsShort(n / 10, k - 1);
    }
  }

  lemma Pow10Nineteen()
    ensures Pow10(19) == 10_000_000_000_000_000_000
  {
    assert Pow10(5) == 100_000;
    assert Pow10(10) == 10_000_000_000;
    assert Pow10(15) == 1_000_000_000_000_000;
  }

  /** Only zero is written with a leading zero. */
  lemma {:induction false} NoLeadingZero(n: nat)
    ensures Digits(n)[0] == ZERO <==> n == 0
  {
    if n >= 10 { NoLeadingZero(n / 10); }
  }

  /** Every 64-bit integer reads back from the text it is written as. */
  lemma IntRoundTrip(v: int)
    requires INT64_MIN <= v <= INT64_MAX
    ensures ParseI64(IntText(v)) == Some(v)
  {
    var n := if v < 0 then -v else v;
    Pow10Nineteen();
    DigitsShort(n, 19);
    DigitsSpell(n);
    if v < 0 {
      assert IntText(v)[1..] == Digits(n);
    } else {
      assert IsDigit(Digits(n)[0]);
    }
  }

  // ---------- text ----------

  function Spaces(n: nat): bytes { seq(n, _ => SPACE) }

  /** Newline plus indentation; nothing when the writer is compact. */
  function NewLine(ind: nat, depth: nat): bytes {
    if ind == 0 then [] else [NEWLINE] + Spaces(depth * ind)
  }

  /** A compact writer breaks no line; another starts a line and indents it by ind for every level. */
  lemma LineShape(ind: nat, depth: nat)
    ensures ind == 0 ==> NewLine(ind, depth) == []
    ensures ind > 0 ==> var s := NewLine(ind, depth);
                        |s| == 1 + depth * ind && s[0] == 0x0A && forall i :: 1 <= i < |s| ==> s[i] == 0x20
  {
  }

  function Quoted(s: bytes): bytes { [QUOTE] + Escape(s) + [QUOTE] }

  function Open(obj: bool): byte { if obj then LBRACE else LBRACKET }

  function Shut(obj: bool): byte { if obj then RBRACE else RBRACKET }

  function True(): bytes { [0x74, 0x72, 0x75, 0x65] }
  function False(): bytes { [0x66, 0x61, 0x6C, 0x73, 0x65] }
  function Null(): bytes { [0x6E, 0x75, 0x6C, 0x6C] }

  /** A value at a nesting level, pretty-printed with ind spaces per level. */
  function Print(v: Json, ind: nat, lvl: nat): (r: bytes)
    ensures |r| >= 1
    decreases v, 1, 0
  {
    match v
    case JNull => Null()
    case JBool(b) => if b then True() else False()
    case JInt(n) => IntText(n)
    case JStr(s) => Quoted(s)
    case JCont(obj, kids) => [Open(obj)] + KidsText(v, |kids|, ind, lvl + 1) + Ending(v, ind, lvl)
  }

  function Ending(v: Json, ind: nat, lvl: nat): bytes
    requires v.JCont?
  {
    (if v.kids == [] then [] else NewLine(ind, lvl)) + [Shut(v.obj)]
  }

  /** What precedes kid i's value: separator, line break and, in an object, its name. */
  function Lead(obj: bool, key: bytes, i: nat, ind: nat, lvl: nat): bytes {
    (if i > 0 then [COMMA] else []) + NewLine(ind, lvl) + KeyText(obj, key, ind)
  }

  function KeyText(obj: bool, key: bytes, ind: nat): bytes {
    if obj then Quoted(key) + [COLON] + (if ind > 0 then [SPACE] else []) else []
  }

  /** The first n kids. */
  function KidsText(v: Json, n: nat, ind: nat, lvl: nat): bytes
    requires v.JCont? && n <= |v.kids|
    decreases v, 0, n
  {
    if n == 0 then []
    else KidsText(v, n - 1, ind, lvl) + Lead(v.obj, v.kids[n-1].key, n - 1, ind, lvl)
         + Print(v.kids[n-1].val, ind, lvl)
  }

  lemma {:induction false} KidsTextPrefix(v: Json, w: Json, n: nat, ind: nat, lvl: nat)
    requires v.JCont? && w.JCont? && v.obj == w.obj && n <= |v.kids| && n <= |w.kids|
    requires v.kids[..n] == w.kids[..n]
    ensures KidsText(v, n, ind, lvl) == KidsText(w, n, ind, lvl)
    decreases n
  {
    hide Print;
    if n > 0 {
      assert v.kids[n-1] == v.kids[..n][n-1] == w.kids[n-1];
      assert v.kids[..n-1] == v.kids[..n][..n-1] == w.kids[..n-1];
      KidsTextPrefix(v, w, n - 1, ind, lvl);
    }
  }
}
