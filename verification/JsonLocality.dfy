/** A parsed value depends on nothing but its own text: wherever that text appears, in whatever
    pool and at no greater depth, it parses to the same tree with its slices moved. */
module JsonLocality {
  import opened Basics
  import opened JsonText
  import opened JsonGrammar

  // ---------- scanners are determined by what they stop at ----------

  lemma {:induction false} SkipWsIs(t: bytes, p: nat, r: nat)
    requires p <= r <= |t|
    requires forall i :: p <= i < r ==> IsWs(t[i])
    requires r < |t| ==> !IsWs(t[r])
    ensures SkipWs(t, p) == r
    decreases r - p
  {
    if p < r { SkipWsIs(t, p + 1, r); }
  }

  lemma {:induction false} DigitsEndIs(t: bytes, p: nat, r: nat)
    requires p <= r <= |t|
    requires forall i :: p <= i < r ==> IsDigit(t[i])
    requires r < |t| ==> !IsDigit(t[r])
    ensures DigitsEnd(t, p) == r
    decreases r - p
  {
    if p < r { DigitsEndIs(t, p + 1, r); }
  }

  // ---------- moving a text ----------

  /** s is the stretch of t that starts at a. */
  predicate Within(t: bytes, s: bytes, a: nat) {
    a + |s| <= |t| && forall i {:trigger s[i]} :: 0 <= i < |s| ==> s[i] == t[a + i]
  }

  function ShiftSlice(x: Slice, a: nat): Slice {
    if x.off >= a then Slice(x.off - a, x.len) else x
  }

  function Shift(k: Tree, a: nat): Tree {
    k.(key := ShiftSlice(k.key, a), raw := ShiftSlice(k.raw, a),
       kids := seq(|k.kids|, i requires 0 <= i < |k.kids| => Shift(k.kids[i], a)))
  }

  function ShiftAll(ks: seq<Tree>, a: nat): seq<Tree> {
    seq(|ks|, i requires 0 <= i < |ks| => Shift(ks[i], a))
  }

  lemma SkipWsMoves(t: bytes, s: bytes, a: nat, p: nat)
    requires Within(t, s, a) && a <= p <= |t| && SkipWs(t, p) < a + |s|
    ensures SkipWs(s, p - a) == SkipWs(t, p) - a
  {
    var r := SkipWs(t, p) - a;
    SkipWsIs(s, p - a, r);
  }

  lemma DigitsMove(t: bytes, s: bytes, a: nat, p: nat)
    requires Within(t, s, a) && a <= p <= |t| && DigitsEnd(t, p) <= a + |s|
    ensures DigitsEnd(s, p - a) == DigitsEnd(t, p) - a
  {
    var r := DigitsEnd(t, p) - a;
    DigitsEndIs(s, p - a, r);
  }

  lemma {:induction false} StrEndMoves(t: bytes, s: bytes, a: nat, q: nat)
    requires Within(t, s, a) && a <= q <= |t|
    requires StrEnd(t, q).Some? && StrEnd(t, q).value < a + |s|
    ensures StrEnd(s, q - a) == Some(StrEnd(t, q).value - a)
    decreases |t| - q
  {
    assert t[q] == s[q - a];
    if t[q] == QUOTE {
    } else if t[q] == BACKSLASH {
      assert t[q+1] == s[q + 1 - a];
      if SimpleEscape(t[q+1]) {
        StrEndMoves(t, s, a, q + 2);
      } else {
        assert t[q+2] == s[q + 2 - a] && t[q+3] == s[q + 3 - a] && t[q+4] == s[q + 4 - a] && t[q+5] == s[q + 5 - a];
        StrEndMoves(t, s, a, q + 6);
      }
    } else {
      StrEndMoves(t, s, a, q + 1);
    }
  }

  lemma BodyMoves(t: bytes, s: bytes, a: nat, x: Slice)
    requires Within(t, s, a) && a <= x.off && x.off + x.len <= a + |s|
    ensures Body(s, ShiftSlice(x, a)) == Body(t, x)
  {
    var y, z := s[x.off - a .. x.off - a + x.len], t[x.off .. x.off + x.len];
    forall i | 0 <= i < |y| ensures y[i] == z[i] {
      assert y[i] == s[x.off - a + i];
    }
    assert y == z;
  }

  lemma ShiftLeaf(kind: Kind, esc: bool, isint: bool, raw: Slice, a: nat)
    ensures Shift(Leaf(kind, esc, isint, raw), a) == Leaf(kind, esc, isint, ShiftSlice(raw, a))
  {
    var k := Leaf(kind, esc, isint, raw);
    assert Shift(k, a).kids == [];
  }

  lemma ShiftContainer(obj: bool, q: nat, e: nat, ks: seq<Tree>, a: nat)
    requires a <= q <= e
    ensures Shift(Container(obj, q, e, ks), a) == Container(obj, q - a, e - a, ShiftAll(ks, a))
  {
  }

  lemma ScanStrMoves(t: bytes, s: bytes, a: nat, p: nat)
    requires Within(t, s, a) && a <= p < |t|
    requires ScanStr(t, p).Ok? && ScanStr(t, p).p <= a + |s|
    ensures ScanStr(s, p - a) == Ok(ShiftSlice(ScanStr(t, p).val, a), ScanStr(t, p).p - a)
    ensures Escaped(s, ShiftSlice(ScanStr(t, p).val, a)) == Escaped(t, ScanStr(t, p).val)
  {
    StrEndMoves(t, s, a, p + 1);
    BodyMoves(t, s, a, ScanStr(t, p).val);
  }

  lemma ScanNumMoves(t: bytes, s: bytes, a: nat, p: nat)
    requires Within(t, s, a) && a <= p < |t|
    requires ScanNum(t, p).Ok? && ScanNum(t, p).p <= a + |s|
    ensures ScanNum(s, p - a) == Ok((ShiftSlice(ScanNum(t, p).val.0, a), ScanNum(t, p).val.1), ScanNum(t, p).p - a)
  {
    hide IntEnd, FracEnd, ExpEnd;
    IntEndMoves(t, s, a, p);
    FracEndMoves(t, s, a, IntEnd(t, p).value);
    ExpEndMoves(t, s, a, FracEnd(t, IntEnd(t, p).value).value);
  }

  lemma IntEndMoves(t: bytes, s: bytes, a: nat, p: nat)
    requires Within(t, s, a) && a <= p < |t|
    requires IntEnd(t, p).Some? && IntEnd(t, p).value <= a + |s|
    ensures IntEnd(s, p - a) == Some(IntEnd(t, p).value - a)
  {
    assert t[p] == s[p - a];
    var q := if t[p] == MINUS then p + 1 else p;
    assert t[q] == s[q - a];
    if t[q] != ZERO { DigitsMove(t, s, a, q); }
  }

  lemma FracEndMoves(t: bytes, s: bytes, a: nat, p: nat)
    requires Within(t, s, a) && a <= p <= |t|
    requires FracEnd(t, p).Some? && FracEnd(t, p).value <= a + |s|
    ensures FracEnd(s, p - a) == Some(FracEnd(t, p).value - a)
  {
    if p < a + |s| { assert t[p] == s[p - a]; }
    if p < |t| && t[p] == 0x2E {
      DigitsMove(t, s, a, p + 1);
      assert t[p+1] == s[p + 1 - a];
    }
  }

  lemma ExpEndMoves(t: bytes, s: bytes, a: nat, p: nat)
    requires Within(t, s, a) && a <= p <= |t|
    requires ExpEnd(t, p).Some? && ExpEnd(t, p).value <= a + |s|
    ensures ExpEnd(s, p - a) == Some(ExpEnd(t, p).value - a)
  {
    if p < a + |s| { assert t[p] == s[p - a]; }
    if p < |t| && (t[p] == 0x65 || t[p] == 0x45) {
      assert t[p+1] == s[p + 1 - a];
      var q := if t[p+1] == 0x2B || t[p+1] == 0x2D then p + 2 else p + 1;
      assert t[q] == s[q - a];
      DigitsMove(t, s, a, q);
    }
  }

  lemma ScanLitMoves(t: bytes, s: bytes, a: nat, p: nat, lit: bytes)
    requires Within(t, s, a) && a <= p <= |t|
    requires ScanLit(t, p, lit).Ok? && ScanLit(t, p, lit).p <= a + |s|
    ensures ScanLit(s, p - a, lit) == Ok(ShiftSlice(ScanLit(t, p, lit).val, a), ScanLit(t, p, lit).p - a)
  {
    var x := s[p - a .. p - a + |lit|];
    assert x == t[p .. p + |lit|] by {
      assert forall i :: 0 <= i < |lit| ==> x[i] == s[p - a + i];
    }
  }

  lemma ScalarMoves(t: bytes, s: bytes, a: nat, q: nat)
    requires Within(t, s, a) && a <= q < a + |s|
    requires ParseScalar(t, q).Ok? && ParseScalar(t, q).p <= a + |s|
    ensures ParseScalar(s, q - a) == Ok(Shift(ParseScalar(t, q).val, a), ParseScalar(t, q).p - a)
  {
    assert t[q] == s[q - a];
    var k := ParseScalar(t, q).val;
    ShiftLeaf(k.kind, k.esc, k.isint, k.raw, a);
    if t[q] == QUOTE {
      ScanStrMoves(t, s, a, q);
    } else if t[q] == 0x74 {
      ScanLitMoves(t, s, a, q, LitTrue());
    } else if t[q] == 0x66 {
      ScanLitMoves(t, s, a, q, LitFalse());
    } else if t[q] == 0x6E {
      ScanLitMoves(t, s, a, q, LitNull());
    } else {
      ScanNumMoves(t, s, a, q);
    }
  }

  // ---------- trees ----------

  lemma {:induction false} ValueMoves(t: bytes, s: bytes, a: nat, p: nat,
                                      d: nat, u: nat, c: nat, d': nat, u': nat, c': nat)
    requires Within(t, s, a) && a <= p <= |t| && d' <= d
    requires ParseValue(t, p, d, u, c).Ok? && ParseValue(t, p, d, u, c).p <= a + |s|
    requires u' + Size(ParseValue(t, p, d, u, c).val) <= c'
    ensures p <= a + |s|
    ensures ParseValue(s, p - a, d', u', c')
            == Ok(Shift(ParseValue(t, p, d, u, c).val, a), ParseValue(t, p, d, u, c).p - a)
    decreases |t| - p, 2
  {
    hide ParseContainer, ParseScalar, SkipWs, Size, Shift;
    var q := SkipWs(t, p);
    SkipWsMoves(t, s, a, p);
    assert t[q] == s[q - a];
    if t[q] == LBRACE {
      ContainerMoves(t, s, a, q, d, u + 1, c, d', u' + 1, c', true);
    } else if t[q] == LBRACKET {
      ContainerMoves(t, s, a, q, d, u + 1, c, d', u' + 1, c', false);
    } else {
      ScalarMoves(t, s, a, q);
    }
  }

  lemma {:induction false} ContainerMoves(t: bytes, s: bytes, a: nat, q: nat,
                                          d: nat, u: nat, c: nat, d': nat, u': nat, c': nat, obj: bool)
    requires Within(t, s, a) && a <= q < |t| && d' <= d
    requires ParseContainer(t, q, d, u, c, obj).Ok? && ParseContainer(t, q, d, u, c, obj).p <= a + |s|
    requires u' + Size(ParseContainer(t, q, d, u, c, obj).val) - 1 <= c'
    ensures ParseContainer(s, q - a, d', u', c', obj)
            == Ok(Shift(ParseContainer(t, q, d, u, c, obj).val, a), ParseContainer(t, q, d, u, c, obj).p - a)
    decreases |t| - q, 1
  {
    hide ParseKids, SkipWs, Size, Shift, TotalSize;
    var q1 := SkipWs(t, q + 1);
    SkipWsMoves(t, s, a, q + 1);
    assert t[q1] == s[q1 - a];
    if t[q1] == Close(obj) {
      ShiftContainer(obj, q, q1 + 1, [], a);
      assert ShiftAll([], a) == [];
    } else {
      var Ok(ks, e) := ParseKids(t, q1, d, u, c, obj);
      SizeOfContainer(obj, q, e, ks);
      KidsMove(t, s, a, q1, d, u, c, d', u', c', obj, ks, e);
      ShiftContainer(obj, q, e, ks, a);
    }
  }

  function TotalSize(ks: seq<Tree>): nat {
    if ks == [] then 0 else Size(ks[0]) + TotalSize(ks[1..])
  }

  lemma {:induction false} TotalSizeIs(t: Tree, n: nat)
    requires n <= |t.kids|
    ensures SizeKids(t, n) == TotalSize(t.kids[..n])
  {
    if n > 0 {
      TotalSizeIs(t, n - 1);
      TotalSizeSnoc(t.kids[..n-1], t.kids[n-1]);
      assert t.kids[..n] == t.kids[..n-1] + [t.kids[n-1]];
    }
  }

  lemma {:induction false} TotalSizeSnoc(ks: seq<Tree>, k: Tree)
    ensures TotalSize(ks + [k]) == TotalSize(ks) + Size(k)
  {
    if ks == [] {
      assert ks + [k] == [k] && [k][1..] == [];
    } else {
      TotalSizeSnoc(ks[1..], k);
      assert (ks + [k])[1..] == ks[1..] + [k];
    }
  }

  lemma SizeOfContainer(obj: bool, a: nat, b: nat, ks: seq<Tree>)
    requires a <= b
    ensures Size(Container(obj, a, b, ks)) == 1 + TotalSize(ks)
  {
    TotalSizeIs(Container(obj, a, b, ks), |ks|);
    assert ks[..|ks|] == ks;
  }

  /** Naming a child does not change its size. */
  lemma SizeWithKey(t: bytes, k: Tree, key: Slice)
    ensures Size(WithKey(t, k, key)) == Size(k)
  {
    var k' := WithKey(t, k, key);
    TotalSizeIs(k, |k.kids|);
    TotalSizeIs(k', |k'.kids|);
  }

  lemma KeyMoves(t: bytes, s: bytes, a: nat, p: nat, obj: bool)
    requires Within(t, s, a) && a <= p <= a + |s|
    requires ParseKey(t, p, obj).Ok? && ParseKey(t, p, obj).p <= a + |s|
    ensures ParseKey(s, p - a, obj) == Ok(ShiftSlice(ParseKey(t, p, obj).val, a), ParseKey(t, p, obj).p - a)
    ensures Escaped(s, ShiftSlice(ParseKey(t, p, obj).val, a)) == Escaped(t, ParseKey(t, p, obj).val)
  {
    hide SkipWs, ScanStr, Escaped, ShiftSlice;
    if obj {
      NameMoves(t, s, a, p);
    } else {
      NoNameMoves(t, s, a);
    }
  }

  lemma NoNameMoves(t: bytes, s: bytes, a: nat)
    ensures ShiftSlice(NO_SLICE, a) == NO_SLICE && !Escaped(t, NO_SLICE) && !Escaped(s, NO_SLICE)
  {
  }

  lemma NameMoves(t: bytes, s: bytes, a: nat, p: nat)
    requires Within(t, s, a) && a <= p <= a + |s|
    requires ParseKey(t, p, true).Ok? && ParseKey(t, p, true).p <= a + |s|
    ensures ParseKey(s, p - a, true) == Ok(ShiftSlice(ParseKey(t, p, true).val, a), ParseKey(t, p, true).p - a)
    ensures Escaped(s, ShiftSlice(ParseKey(t, p, true).val, a)) == Escaped(t, ParseKey(t, p, true).val)
  {
    hide SkipWs, ScanStr, Escaped, ShiftSlice;
    var p1 := SkipWs(t, p);
    var e := ScanStr(t, p1).p;
    var p2 := SkipWs(t, e);
    SkipWsMoves(t, s, a, p);
    ScanStrMoves(t, s, a, p1);
    SkipWsMoves(t, s, a, e);
    assert t[p1] == s[p1 - a] && t[p2] == s[p2 - a];
  }

  lemma {:induction false} KidMoves(t: bytes, s: bytes, a: nat, p: nat,
                                    d: nat, u: nat, c: nat, d': nat, u': nat, c': nat, obj: bool)
    requires Within(t, s, a) && a <= p <= |t| && d' <= d
    requires ParseKid(t, p, d, u, c, obj).Ok? && ParseKid(t, p, d, u, c, obj).p <= a + |s|
    requires u' + Size(ParseKid(t, p, d, u, c, obj).val) <= c'
    ensures p <= a + |s|
    ensures ParseKid(s, p - a, d', u', c', obj)
            == Ok(Shift(ParseKid(t, p, d, u, c, obj).val, a), ParseKid(t, p, d, u, c, obj).p - a)
    decreases |t| - p, 3
  {
    hide ParseKey, ParseValue, Size;
    var Ok(key, p3) := ParseKey(t, p, obj);
    var Ok(k, p4) := ParseValue(t, p3, d + 1, u, c);
    SizeWithKey(t, k, key);
    KeyMoves(t, s, a, p, obj);
    ValueMoves(t, s, a, p3, d + 1, u, c, d' + 1, u', c');
    assert Shift(WithKey(t, k, key), a) == WithKey(s, Shift(k, a), ShiftSlice(key, a));
  }

  lemma {:induction false} KidsMove(t: bytes, s: bytes, a: nat, p: nat, d: nat, u: nat, c: nat,
                                    d': nat, u': nat, c': nat, obj: bool, ks: seq<Tree>, e: nat)
    requires Within(t, s, a) && a <= p <= |t| && d' <= d
    requires ParseKids(t, p, d, u, c, obj) == Ok(ks, e) && e <= a + |s|
    requires u' + TotalSize(ks) <= c'
    ensures p <= a + |s|
    ensures ParseKids(s, p - a, d', u', c', obj) == Ok(ShiftAll(ks, a), e - a)
    decreases |t| - p, 4
  {
    hide ParseKid, ParseKids, SkipWs, Size, Shift;
    KidsSplit(t, p, d, u, c, obj, ks, e);
    var Ok(k, p4) := ParseKid(t, p, d, u, c, obj);
    var p5 := SkipWs(t, p4);
    KidMoves(t, s, a, p, d, u, c, d', u', c', obj);
    SkipWsMoves(t, s, a, p4);
    assert t[p5] == s[p5 - a];
    SizeShift(k, a);
    if t[p5] == COMMA {
      KidsMove(t, s, a, p5 + 1, d, u + Size(k), c, d', u' + Size(k), c', obj, ks[1..], e);
      KidsJoin(s, p - a, d', u', c', obj, Shift(k, a), p4 - a, ShiftAll(ks[1..], a), e - a);
      assert ShiftAll(ks, a) == [Shift(k, a)] + ShiftAll(ks[1..], a);
    } else {
      KidsJoin(s, p - a, d', u', c', obj, Shift(k, a), p4 - a, [], e - a);
      assert ShiftAll(ks, a) == [Shift(k, a)] + [];
    }
  }

  lemma {:induction false} SizeShift(k: Tree, a: nat)
    ensures Size(Shift(k, a)) == Size(k)
    decreases k, 1, 0
  {
    SizeKidsShift(k, a, |k.kids|);
  }

  lemma {:induction false} SizeKidsShift(k: Tree, a: nat, n: nat)
    requires n <= |k.kids|
    ensures SizeKids(Shift(k, a), n) == SizeKids(k, n)
    decreases k, 0, n
  {
    if n > 0 {
      SizeKidsShift(k, a, n - 1);
      SizeShift(k.kids[n-1], a);
    }
  }

  // ---------- the theorems ----------

  /** The text of a container, parsed as a document of its own, gives the same value. */
  lemma ValueReparses(t: bytes, p: nat, d: nat, u: nat, c: nat, c': nat)
    requires p <= |t| <= INT_MAX && ParseValue(t, p, d, u, c).Ok?
    requires var v := ParseValue(t, p, d, u, c).val; (v.kind.KArr? || v.kind.KObj?) && Size(v) <= c'
    ensures var v := ParseValue(t, p, d, u, c).val;
            v.raw.off + v.raw.len <= |t| &&
            ParseDoc(Body(t, v.raw), c') == Ok(Shift(v, v.raw.off), v.raw.len)
  {
    hide ParseValue, Size, Shift;
    var Ok(v, e) := ParseValue(t, p, d, u, c);
    ContainerSpan(t, p, d, u, c);
    var q := SkipWs(t, p);
    var s := Body(t, v.raw);
    assert Within(t, s, q);
    SkipWsIs(t, q, q);
    FromValueStart(t, p, d, u, c);
    ValueMoves(t, s, q, q, d, u, c, 0, 0, c');
    assert s[0] == t[q];
    SkipWsIs(s, |s|, |s|);
  }

  lemma ContainerSpan(t: bytes, p: nat, d: nat, u: nat, c: nat)
    requires p <= |t| && ParseValue(t, p, d, u, c).Ok?
    requires var v := ParseValue(t, p, d, u, c).val; v.kind.KArr? || v.kind.KObj?
    ensures var Ok(v, e) := ParseValue(t, p, d, u, c);
            var q := SkipWs(t, p);
            q < e && v.raw == Slice(q, e - q) && (t[q] == LBRACE || t[q] == LBRACKET)
  {
    hide SkipWs, ParseKids, ScanStr, ScanNum, ScanLit;
  }

  /** White space in front of a value changes nothing. */
  lemma FromValueStart(t: bytes, p: nat, d: nat, u: nat, c: nat)
    requires p <= |t| && ParseValue(t, p, d, u, c).Ok?
    ensures ParseValue(t, SkipWs(t, p), d, u, c) == ParseValue(t, p, d, u, c)
  {
    hide ParseContainer, ParseScalar;
    SkipWsIs(t, SkipWs(t, p), SkipWs(t, p));
  }

  /** A value spends at least two bytes per node, less one: the densest text is "[0,0,0]". */
  lemma {:induction false} ValueNodes(t: bytes, p: nat, d: nat, u: nat, c: nat)
    requires p <= |t| && ParseValue(t, p, d, u, c).Ok?
    ensures 2 * Size(ParseValue(t, p, d, u, c).val) <= ParseValue(t, p, d, u, c).p - SkipWs(t, p) + 1
    decreases |t| - p, 2
  {
    hide ParseKids, SkipWs, TotalSize;
    var q := SkipWs(t, p);
    if t[q] == LBRACE || t[q] == LBRACKET {
      var obj := t[q] == LBRACE;
      var q1 := SkipWs(t, q + 1);
      if t[q1] == Close(obj) {
        SizeOfContainer(obj, q, q1 + 1, []);
        EmptyTotal();
      } else {
        var Ok(ks, e) := ParseKids(t, q1, d, u + 1, c, obj);
        KidsNodes(t, q1, d, u + 1, c, obj, ks, e);
        SizeOfContainer(obj, q, e, ks);
      }
    } else {
      hide ParseContainer, ScanStr, ScanNum, ScanLit;
    }
  }

  lemma EmptyTotal()
    ensures TotalSize([]) == 0
  {
  }

  lemma {:induction false} KidsNodes(t: bytes, p: nat, d: nat, u: nat, c: nat, obj: bool, ks: seq<Tree>, e: nat)
    requires p <= |t| && ParseKids(t, p, d, u, c, obj) == Ok(ks, e)
    ensures 2 * TotalSize(ks) <= e - p
    decreases |t| - p, 4
  {
    hide ParseKids, ParseValue, SkipWs, Size;
    KidsSplit(t, p, d, u, c, obj, ks, e);
    var Ok(k, p4) := ParseKid(t, p, d, u, c, obj);
    var Ok(key, p3) := ParseKey(t, p, obj);
    ValueNodes(t, p3, d + 1, u, c);
    SizeWithKey(t, ParseValue(t, p3, d + 1, u, c).val, key);
    var p5 := SkipWs(t, p4);
    if t[p5] == COMMA {
      KidsNodes(t, p5 + 1, d, u + Size(k), c, obj, ks[1..], e);
    } else {
      assert ks[1..] == [];
    }
  }
}
