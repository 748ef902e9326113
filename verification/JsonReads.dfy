/** The typed readers: json_body_eq and json_body_expand (json/src/json_str.c) and i64_parse
    (json/src/json.c). */
module JsonReads {
  import opened Basics
  import opened JsonText
  import opened JsonGrammar
  import opened JsonValue

  // ---------- string bodies ----------

  /** Comparing an escaped body with plain bytes is comparing what it expands to. */
  method BodyEq(b: bytes, esc: bool, s: bytes) returns (eq: bool)
    ensures eq <==> BodyValue(b, esc) == Some(s)
  {
    hide NextChr;
    if !esc {
      return b == s;
    }
    if |b| < |s| {
      return false;
    }
    var p, i := 0, 0;
    assert b[0..] == b && s[0..] == s;
    while p < |b|
      invariant 0 <= p <= |b| && 0 <= i <= |s|
      invariant Expand(b) == Some(s) <==> Expand(b[p..]) == Some(s[i..])
      decreases |b| - p
    {
      var n := NextChr(b[p..]);
      if n.None? {
        return false;
      }
      var c := n.value;
      if i + |c.out| > |s| || s[i .. i + |c.out|] != c.out {
        Mismatch(b[p..], s[i..], c);
        return false;
      }
      assert b[p..][c.used..] == b[p + c.used ..];
      Match(b[p..], s[i..], c);
      assert s[i..][|c.out|..] == s[i + |c.out| ..];
      p, i := p + c.used, i + |c.out|;
    }
    assert b[p..] == [] && (i == |s| <==> s[i..] == []);
    return i == |s|;
  }

  lemma Mismatch(b: bytes, s: bytes, c: Chr)
    requires b != [] && NextChr(b) == Some(c)
    requires |c.out| > |s| || s[..|c.out|] != c.out
    ensures Expand(b) != Some(s)
  {
    hide NextChr;
    if Expand(b[c.used..]).Some? {
      var x := c.out + Expand(b[c.used..]).value;
      assert x[..|c.out|] == c.out;
    }
  }

  lemma Match(b: bytes, s: bytes, c: Chr)
    requires b != [] && NextChr(b) == Some(c) && |c.out| <= |s| && s[..|c.out|] == c.out
    ensures Expand(b) == Some(s) <==> Expand(b[c.used..]) == Some(s[|c.out|..])
  {
    hide NextChr;
    if Expand(b[c.used..]).Some? {
      var rest := Expand(b[c.used..]).value;
      assert (c.out + rest)[|c.out|..] == rest;
      assert s == c.out + s[|c.out|..];
    }
  }

  datatype Expanded = Text(out: bytes) | Malformed | Overflow

  /** Expanding into a buffer of cap bytes: the value, whenever it fits. */
  method BodyExpand(b: bytes, esc: bool, cap: nat) returns (r: Expanded)
    ensures r.Text? <==> BodyValue(b, esc).Some? && |BodyValue(b, esc).value| <= cap
    ensures r.Text? ==> BodyValue(b, esc) == Some(r.out)
    ensures r.Malformed? ==> BodyValue(b, esc) == None
    ensures BodyValue(b, esc).Some? && |b| <= cap ==> r.Text?
  {
    hide NextChr;
    if !esc {
      if |b| > cap { return Overflow; }
      return Text(b);
    }
    var p := 0;
    var out: bytes := [];
    assert b[0..] == b;
    ThenNothing(Expand(b));
    while p < |b|
      invariant 0 <= p <= |b| && |out| <= cap
      invariant Expand(b) == Then(out, Expand(b[p..]))
      decreases |b| - p
    {
      var n := NextChr(b[p..]);
      if n.None? {
        return Malformed;
      }
      var c := n.value;
      assert b[p..][c.used..] == b[p + c.used ..];
      ThenStep(out, b[p..], c);
      if |out| + |c.out| > cap {
        return Overflow;
      }
      out, p := out + c.out, p + c.used;
    }
    assert b[p..] == [] && out + [] == out;
    return Text(out);
  }

  function Then(x: bytes, r: Option<bytes>): Option<bytes> {
    match r case None => None case Some(y) => Some(x + y)
  }

  lemma ThenNothing(r: Option<bytes>)
    ensures Then([], r) == r
  {
    if r.Some? { assert [] + r.value == r.value; }
  }

  lemma ThenStep(x: bytes, b: bytes, c: Chr)
    requires b != [] && NextChr(b) == Some(c)
    ensures Then(x, Expand(b)) == Then(x + c.out, Expand(b[c.used..]))
  {
    hide NextChr;
    if Expand(b[c.used..]).Some? {
      var rest := Expand(b[c.used..]).value;
      assert x + (c.out + rest) == (x + c.out) + rest;
    }
  }

  /** A string the parser accepted never fails to expand. */
  lemma {:induction false} AcceptedBodyExpands(t: bytes, q: nat, e: nat)
    requires q <= |t| && StrEnd(t, q) == Some(e)
    ensures Expand(t[q..e]).Some?
    decreases e - q
  {
    var b := t[q..e];
    if q < e {
      if t[q] == BACKSLASH {
        assert b[0] == t[q] && b[1] == t[q+1];
        if SimpleEscape(t[q+1]) {
          AcceptedBodyExpands(t, q + 2, e);
          assert b[2..] == t[q+2..e];
        } else {
          UnicodeAccepted(t, q, e);
          var u := UnicodeEscape(b).value.1;
          AcceptedBodyExpands(t, q + u, e);
          assert b[u..] == t[q+u..e];
        }
      } else {
        AcceptedBodyExpands(t, q + 1, e);
        assert b[1..] == t[q+1..e];
      }
    }
  }

  lemma UnicodeAccepted(t: bytes, q: nat, e: nat)
    requires q < e < |t| && StrEnd(t, q) == Some(e) && t[q] == BACKSLASH && !SimpleEscape(t[q+1])
    ensures e - q >= 6 && t[q+1] == LOWER_U && UnicodeEscape(t[q..e]).Some?
    ensures StrEnd(t, q + UnicodeEscape(t[q..e]).value.1) == Some(e)
  {
    var b := t[q..e];
    assert b[2] == t[q+2] && b[3] == t[q+3] && b[4] == t[q+4] && b[5] == t[q+5];
    if UnicodeEscape(b).value.1 == 12 {
      assert b[6] == t[q+6] && b[7] == t[q+7];
    }
  }

  // ---------- integers ----------

  const UINT64: nat := 0x1_0000_0000_0000_0000

  /** The accumulation never wraps: nineteen digits fit 64 bits. */
  method I64(b: bytes) returns (r: Option<int>)
    ensures r == ParseI64(b)
  {
    hide Pow10, Decimal;
    StartDecimal();
    var i, neg := 0, false;
    if |b| > 0 && b[0] == MINUS {
      i, neg := 1, true;
    }
    if i >= |b| || |b| - i > 19 {
      return None;
    }
    ghost var from := i;
    ghost var ds := if neg then b[1..] else b;
    assert ds == b[from..];
    var v := 0;
    assert b[from..i] == [];
    while i < |b|
      invariant from <= i <= |b|
      invariant AllDigits(b[from..i]) && v == Decimal(b[from..i]) < Pow10(i - from)
    {
      if !IsDigit(b[i]) {
        assert ds[i - from] == b[i];
        return None;
      }
      var d: int := b[i];
      DecimalStep(b, from, i);
      Pow10Step(i - from);
      v := (v * 10 + (d - 0x30)) % UINT64;
      i := i + 1;
    }
    assert b[from..|b|] == ds;
    var lim := if neg then INT64_MAX + 1 else INT64_MAX;
    if v > lim {
      return None;
    }
    return Some(if neg then 0 - v else v);
  }

  lemma StartDecimal()
    ensures Decimal([]) == 0 < Pow10(0)
  {
  }

  lemma DecimalStep(b: bytes, from: nat, i: nat)
    requires from <= i < |b| && AllDigits(b[from..i]) && IsDigit(b[i])
    ensures AllDigits(b[from..i+1])
    ensures var d: int := b[i]; Decimal(b[from..i+1]) == Decimal(b[from..i]) * 10 + (d - 0x30)
  {
    assert b[from..i+1][..i - from] == b[from..i];
  }

  lemma Pow10Step(k: nat)
    requires k < 19
    ensures Pow10(k + 1) == 10 * Pow10(k) <= Pow10(19) && Pow10(k + 1) < UINT64
  {
    Pow10Mono(k + 1, 19);
    Pow10Nineteen();
  }

  lemma {:induction false} Pow10Mono(a: nat, b: nat)
    requires a <= b
    ensures 1 <= Pow10(a) <= Pow10(b)
    decreases b
  {
    if a < b {
      Pow10Mono(a, b - 1);
    } else if b > 0 {
      Pow10Mono(a - 1, b - 1);
    }
  }

  // ---------- integer literals of a document ----------

  /** The sign and the digits of an integer literal, and its value. */
  function Negative(b: bytes): bool { |b| > 0 && b[0] == MINUS }

  function Magnitude(b: bytes): bytes { if Negative(b) then b[1..] else b }

  /** A number scanned as an integer reads as an int64 if and only if its value is one: it has no
      leading zeros, so the limit of nineteen digits never decides. */
  lemma IntegerReads(t: bytes, p: nat)
    requires p < |t| && ScanNum(t, p).Ok? && ScanNum(t, p).val.1
    ensures var b := t[p..ScanNum(t, p).p];
            var ds := Magnitude(b);
            && AllDigits(ds) && ds != []
            && var v: int := if Negative(b) then 0 - Decimal(ds) else Decimal(ds);
               ParseI64(b) == if INT64_MIN <= v <= INT64_MAX then Some(v) else None
  {
    hide DigitsEnd, Decimal;
    var e := ScanNum(t, p).p;
    ScannedInteger(t, p);
    var b := t[p..e];
    var ds := Magnitude(b);
    if |ds| > 19 {
      LeadingDigit(ds);
      hide Pow10;
      Pow10Mono(19, |ds| - 1);
      Pow10Nineteen();
    }
  }

  /** Where an integer literal stands there are digits, and a 0 stands alone. */
  lemma ScannedInteger(t: bytes, p: nat)
    requires p < |t| && ScanNum(t, p).Ok? && ScanNum(t, p).val.1
    ensures var ds := Magnitude(t[p..ScanNum(t, p).p]);
            AllDigits(ds) && ds != [] && (|ds| > 1 ==> ds[0] != ZERO)
  {
    var e := ScanNum(t, p).p;
    var b := t[p..e];
    assert IntEnd(t, p) == Some(e) by { IntegerEnd(t, p); }
    var q := if t[p] == MINUS then p + 1 else p;
    assert b[0] == t[p];
    var ds := Magnitude(b);
    assert ds == t[q..e];
    if t[q] != ZERO {
      DigitsRun(t, q);
      assert e == DigitsEnd(t, q) && ds[0] == t[q];
      forall i | 0 <= i < |ds| ensures IsDigit(ds[i]) { assert ds[i] == t[q + i]; }
    } else {
      assert e == q + 1 && ds == [t[q]];
    }
  }

  lemma IntegerEnd(t: bytes, p: nat)
    requires p < |t| && ScanNum(t, p).Ok? && ScanNum(t, p).val.1
    ensures IntEnd(t, p) == Some(ScanNum(t, p).p)
  {
    hide DigitsEnd;
  }

  lemma DigitsRun(t: bytes, q: nat)
    requires q < |t| && IsDigit(t[q])
    ensures q < DigitsEnd(t, q) <= |t| && forall i :: q <= i < DigitsEnd(t, q) ==> IsDigit(t[i])
  {
  }

  /** A number with a leading digit has the magnitude of its length. */
  lemma {:induction false} LeadingDigit(ds: bytes)
    requires AllDigits(ds) && ds != [] && ds[0] != ZERO
    ensures Pow10(|ds| - 1) <= Decimal(ds)
    decreases |ds|
  {
    if |ds| > 1 {
      LeadingDigit(ds[..|ds| - 1]);
    } else {
      assert ds[..0] == [];
    }
  }

  // ---------- the shortest escapes ----------

  /** The writer spends as little on an octet as the scanner lets it. */
  lemma EscapeShortest(c: byte, b: bytes)
    requires StrEnd(b + [QUOTE], 0) == Some(|b|) && Expand(b) == Some([c])
    ensures |EscapeByte(c)| <= |b|
  {
    hide Utf8, StrEnd, Expand, EscapeByte, NextChr;
    FirstScanned(b);
    ExpandFirst(b);
    var x := NextChr(b).value;
    NoneLeft(b[x.used..], x.out, c);
    FirstCosts(b, x);
  }

  /** Unescaped, the scanner takes neither a quote nor a control character. */
  lemma FirstScanned(b: bytes)
    requires StrEnd(b + [QUOTE], 0) == Some(|b|) && b != []
    ensures b[0] >= 0x20 && b[0] != QUOTE
  {
    assert (b + [QUOTE])[0] == b[0];
  }

  lemma FirstCosts(b: bytes, x: Chr)
    requires b != [] && b[0] >= 0x20 && b[0] != QUOTE && NextChr(b) == Some(x) && |x.out| == 1
    ensures |EscapeByte(x.out[0])| <= x.used <= |b|
  {
    hide Utf8, UnicodeEscape;
  }

  /** One octet comes from one character, and what is behind it stands for nothing. */
  lemma NoneLeft(rest: bytes, out: bytes, c: byte)
    requires Behind(out, Expand(rest)) == Some([c]) && out != []
    ensures out == [c] && rest == []
  {
    if rest != [] { ExpandSome(rest); }
  }

  lemma ExpandSome(b: bytes)
    requires b != [] && Expand(b).Some?
    ensures Expand(b).value != []
  {
    ExpandFirst(b);
  }
}
