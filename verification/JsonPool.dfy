/** The recursive-descent parser filling the caller's node pool (json/src/json.c), proved against
    the grammar function, and navigation over the pool. */
module JsonPool {
  import opened Basics
  import opened JsonText
  import opened JsonGrammar
  import opened JsonLocality

  /** One pool entry; a link of 0 means "none". */
  datatype Node = Node(kind: Kind, esc: bool, kesc: bool, isint: bool, count: nat, first: nat, next: nat,
                       key: Slice, raw: Slice)

  const FRESH := Node(KNull, false, false, false, 0, 0, 0, NO_SLICE, NO_SLICE)

  // ---------- what a pool represents ----------

  /** Where kid i of a tree stored at `at` sits: the pool is in preorder. */
  function KidAt(at: nat, ks: seq<Tree>, i: nat): nat
    requires i <= |ks|
  {
    at + 1 + TotalSize(ks[..i])
  }

  /** Entry n carries tree t, which is stored at `at`; the sibling link is the parent's. */
  predicate NodeIs(n: Node, t: Tree, at: nat) {
    && n.kind == t.kind && n.esc == t.esc && n.isint == t.isint && n.raw == t.raw
    && n.key == t.key && n.kesc == t.kesc
    && n.count == |t.kids|
    && n.first == (if t.kids == [] then 0 else at + 1)
  }

  ghost predicate Rep(ns: seq<Node>, at: nat, t: Tree)
    decreases t, 1
  {
    && at + Size(t) <= |ns|
    && NodeIs(ns[at], t, at)
    && forall i {:trigger t.kids[i]} :: 0 <= i < |t.kids| ==> KidRep(ns, at, t.kids, i)
  }

  /** The first i kids are stored in preorder and chained; the last one has no sibling yet. */
  ghost predicate KidRep(ns: seq<Node>, at: nat, ks: seq<Tree>, i: nat)
    requires i < |ks|
    decreases ks[i], 2
  {
    && KidAt(at, ks, i) + Size(ks[i]) <= |ns|
    && Rep(ns, KidAt(at, ks, i), ks[i])
    && ns[KidAt(at, ks, i)].next == if i + 1 < |ks| then KidAt(at, ks, i + 1) else 0
  }

  lemma {:induction false} TotalSizeSplit(xs: seq<Tree>, ys: seq<Tree>)
    ensures TotalSize(xs + ys) == TotalSize(xs) + TotalSize(ys)
  {
    hide Size;
    if xs == [] {
      assert xs + ys == ys;
    } else {
      TotalSizeSplit(xs[1..], ys);
      assert (xs + ys)[1..] == xs[1..] + ys;
    }
  }

  lemma KidAtNext(at: nat, ks: seq<Tree>, i: nat)
    requires i < |ks|
    ensures KidAt(at, ks, i + 1) == KidAt(at, ks, i) + Size(ks[i])
    ensures KidAt(at, ks, i + 1) <= KidAt(at, ks, |ks|)
  {
    hide Size;
    TotalSizeSnoc(ks[..i], ks[i]);
    assert ks[..i+1] == ks[..i] + [ks[i]];
    TotalSizeSplit(ks[..i+1], ks[i+1..]);
    assert ks[..|ks|] == ks[..i+1] + ks[i+1..];
  }

  lemma SizeIsTotal(t: Tree)
    ensures Size(t) == 1 + TotalSize(t.kids)
  {
    TotalSizeIs(t, |t.kids|);
    assert t.kids[..|t.kids|] == t.kids;
  }

  /** A stored tree depends on its own entries alone, and not on its sibling link. */
  lemma {:induction false} RepFrame(ns: seq<Node>, ns': seq<Node>, at: nat, t: Tree)
    requires Rep(ns, at, t) && at + Size(t) <= |ns'|
    requires NodeIs(ns'[at], t, at)
    requires forall j :: at < j < at + Size(t) ==> ns'[j] == ns[j]
    ensures Rep(ns', at, t)
    decreases t
  {
    hide Size, TotalSize;
    forall i | 0 <= i < |t.kids|
      ensures KidRep(ns', at, t.kids, i)
    {
      assert KidRep(ns, at, t.kids, i);
      var k := KidAt(at, t.kids, i);
      KidAtNext(at, t.kids, i);
      SizeIsTotal(t);
      assert t.kids[..|t.kids|] == t.kids;
      RepFrame(ns, ns', k, t.kids[i]);
    }
  }

  /** A container entry idx whose kids so far are `done`. */
  ghost predicate Partial(ns: seq<Node>, idx: nat, done: seq<Tree>) {
    && |ns| == KidAt(idx, done, |done|)
    && ns[idx] == FRESH.(count := |done|, first := if done == [] then 0 else idx + 1)
    && forall i {:trigger done[i]} :: 0 <= i < |done| ==> KidRep(ns, idx, done, i)
  }

  function LastKid(idx: nat, done: seq<Tree>): nat {
    if done == [] then 0 else KidAt(idx, done, |done| - 1)
  }

  /** Naming the newest value turns its entry into a named kid. */
  lemma NameKid(ns: seq<Node>, at: nat, t: bytes, k: Tree, key: Slice)
    requires Rep(ns, at, k)
    ensures at < |ns| && Rep(ns[at := ns[at].(key := key, kesc := Escaped(t, key))], at, WithKey(t, k, key))
  {
    hide Size, TotalSize, Escaped;
    SizeWithKey(t, k, key);
    SizeIsTotal(k);
    var k' := WithKey(t, k, key);
    var ns' := ns[at := ns[at].(key := key, kesc := Escaped(t, key))];
    forall i | 0 <= i < |k'.kids|
      ensures KidRep(ns', at, k'.kids, i)
    {
      assert KidRep(ns, at, k.kids, i);
      KidAtNext(at, k.kids, i);
      assert k.kids[..|k.kids|] == k.kids;
      RepFrame(ns, ns', KidAt(at, k.kids, i), k.kids[i]);
    }
  }

  /** Linking kid k, stored right behind the finished kids, into the chain. */
  lemma LinkKid(ns: seq<Node>, ns': seq<Node>, idx: nat, done: seq<Tree>, k: Tree)
    requires Partial(ns, idx, done)
    requires |ns'| == |ns| + Size(k) && Rep(ns', |ns|, k) && ns'[|ns|].next == 0
    requires forall j :: 0 <= j < |ns| && j != idx && j != LastKid(idx, done) ==> ns'[j] == ns[j]
    requires LastKid(idx, done) < |ns|
    requires done != [] ==> ns'[LastKid(idx, done)] == ns[LastKid(idx, done)].(next := |ns|)
    requires ns'[idx] == FRESH.(count := |done| + 1, first := idx + 1)
    ensures Partial(ns', idx, done + [k])
  {
    hide Size, TotalSize, Rep;
    var all := done + [k];
    assert all[..|all|] == all && done[..|done|] == done && all[..|done|] == done;
    TotalSizeSnoc(done, k);
    EmptyTotal();
    assert done == [] ==> |ns| == idx + 1;
    forall i | 0 <= i < |all|
      ensures KidRep(ns', idx, all, i)
    {
      if i < |done| {
        assert KidRep(ns, idx, done, i);
        LinkOld(ns, ns', idx, done, k, i);
      } else {
        LinkNew(ns', idx, done, k);
      }
    }
  }

  /** The newest kid stands where the chain says. */
  lemma LinkNew(ns: seq<Node>, idx: nat, done: seq<Tree>, k: Tree)
    requires Rep(ns, KidAt(idx, done, |done|), k) && KidAt(idx, done, |done|) < KidAt(idx, done, |done|) + Size(k) <= |ns|
    requires ns[KidAt(idx, done, |done|)].next == 0
    ensures KidRep(ns, idx, done + [k], |done|)
  {
    hide Size, TotalSize, Rep;
    var all := done + [k];
    assert all[..|done|] == done && done[..|done|] == done;
  }

  lemma LinkOld(ns: seq<Node>, ns': seq<Node>, idx: nat, done: seq<Tree>, k: Tree, i: nat)
    requires i < |done| && |ns'| == |ns| + Size(k)
    requires |ns| == KidAt(idx, done, |done|) && KidRep(ns, idx, done, i)
    requires forall j :: 0 <= j < |ns| && j != idx && j != LastKid(idx, done) ==> ns'[j] == ns[j]
    requires LastKid(idx, done) < |ns|
    requires ns'[LastKid(idx, done)] == ns[LastKid(idx, done)].(next := |ns|)
    ensures KidRep(ns', idx, done + [k], i)
  {
    hide Size, TotalSize, Rep;
    var all := done + [k];
    assert all[..i] == done[..i] && all[i] == done[i] && all[..i+1] == done[..i+1];
    KidAtNext(idx, done, i);
    LastKidFrom(idx, done, i);
    var at := KidAt(idx, done, i);
    if i + 1 < |done| { LastKidAfter(idx, done, i); }
    KidFrame(ns, ns', at, done[i]);
  }

  lemma KidFrame(ns: seq<Node>, ns': seq<Node>, at: nat, t: Tree)
    requires Rep(ns, at, t) && at + Size(t) <= |ns'|
    requires exists n: nat :: ns'[at] == ns[at].(next := n)
    requires forall j :: at < j < at + Size(t) ==> ns'[j] == ns[j]
    ensures Rep(ns', at, t)
  {
    hide Size;
    RepFrame(ns, ns', at, t);
  }

  lemma {:induction false} KidAtMono(idx: nat, ks: seq<Tree>, i: nat, j: nat)
    requires i <= j <= |ks|
    ensures KidAt(idx, ks, i) <= KidAt(idx, ks, j)
    ensures i < j ==> KidAt(idx, ks, i) + Size(ks[i]) <= KidAt(idx, ks, j)
    decreases j - i
  {
    hide Size, TotalSize;
    if i < j {
      KidAtNext(idx, ks, i);
      KidAtMono(idx, ks, i + 1, j);
    }
  }

  /** The last kid is not strictly inside kid i. */
  lemma LastKidFrom(idx: nat, done: seq<Tree>, i: nat)
    requires i < |done|
    ensures !(KidAt(idx, done, i) < LastKid(idx, done) < KidAt(idx, done, i) + Size(done[i]))
    ensures i == |done| - 1 <==> LastKid(idx, done) == KidAt(idx, done, i)
  {
    hide Size, TotalSize;
    KidAtMono(idx, done, i, |done| - 1);
    assert i < |done| - 1 ==> Size(done[i]) >= 1;
  }

  lemma LastKidAfter(idx: nat, done: seq<Tree>, i: nat)
    requires i + 1 < |done|
    ensures KidAt(idx, done, i) < LastKid(idx, done)
  {
    hide Size, TotalSize;
    KidAtMono(idx, done, i, |done| - 1);
    assert Size(done[i]) >= 1;
  }

  lemma LastKidInside(ns: seq<Node>, idx: nat, done: seq<Tree>)
    requires Partial(ns, idx, done)
    ensures LastKid(idx, done) < |ns| && idx < |ns| && LastKid(idx, done) != |ns|
    ensures done != [] ==> idx < LastKid(idx, done)
  {
    hide Size, TotalSize;
    if done != [] {
      KidAtMono(idx, done, |done| - 1, |done|);
      assert Size(done[|done| - 1]) >= 1;
    }
  }

  /** Values come out of the grammar unnamed. */
  lemma ValueUnnamed(t: bytes, p: nat, d: nat, u: nat, c: nat)
    requires p <= |t| && ParseValue(t, p, d, u, c).Ok?
    ensures ParseValue(t, p, d, u, c).val.key == NO_SLICE && !ParseValue(t, p, d, u, c).val.kesc
  {
    hide ParseKids, SkipWs, ScanStr, ScanNum, ScanLit;
  }

  /** The parse of a child list, knowing that `done` came first. */
  function After(done: seq<Tree>, r: Res<seq<Tree>>): Res<seq<Tree>> {
    match r
    case Err(c, a) => Err(c, a)
    case Ok(ks, e) => Ok(done + ks, e)
  }

  lemma AfterStep(t: bytes, p: nat, d: nat, u: nat, c: nat, obj: bool, done: seq<Tree>)
    requires p <= |t|
    ensures match ParseKid(t, p, d, u, c, obj)
            case Err(e, a) => After(done, ParseKids(t, p, d, u, c, obj)) == Err(e, a)
            case Ok(k, p4) =>
              var p5 := SkipWs(t, p4);
              After(done, ParseKids(t, p, d, u, c, obj)) ==
                if p5 >= |t| then Err(Syntax, p5)
                else if t[p5] == COMMA then After(done + [k], ParseKids(t, p5 + 1, d, u + Size(k), c, obj))
                else if t[p5] == Close(obj) then Ok(done + [k], p5 + 1)
                else Err(Syntax, p5)
  {
    hide ParseKid, SkipWs, Size;
    match ParseKid(t, p, d, u, c, obj)
    case Err(_, _) =>
    case Ok(k, p4) =>
      var p5 := SkipWs(t, p4);
      if p5 < |t| && t[p5] == COMMA {
        match ParseKids(t, p5 + 1, d, u + Size(k), c, obj)
        case Err(_, _) =>
        case Ok(ks, e) => assert done + ([k] + ks) == (done + [k]) + ks;
      }
  }

  /** Tree t is the newest value in the pool, and nothing follows it. */
  ghost predicate Stored(ns: seq<Node>, at: nat, t: Tree) {
    |ns| == at + Size(t) && Rep(ns, at, t) && ns[at].next == 0
  }

  lemma StoreLeaf(ns: seq<Node>, idx: nat, kind: Kind, esc: bool, isint: bool, raw: Slice)
    requires idx + 1 == |ns| && ns[idx] == FRESH
    ensures Stored(ns[idx := FRESH.(kind := kind, esc := esc, isint := isint, raw := raw)], idx,
                   Leaf(kind, esc, isint, raw))
  {
  }

  lemma StartPartial(ns: seq<Node>, idx: nat)
    requires idx + 1 == |ns| && ns[idx] == FRESH
    ensures Partial(ns, idx, [])
  {
  }

  lemma LastKidSnoc(ns: seq<Node>, idx: nat, done: seq<Tree>, k: Tree)
    requires Partial(ns, idx, done)
    ensures LastKid(idx, done + [k]) == |ns|
  {
    hide TotalSize;
    assert (done + [k])[..|done|] == done[..|done|];
  }

  /** The three updates that turn a freshly stored value into the next kid. */
  lemma LinkSteps(ns: seq<Node>, ns1: seq<Node>, idx: nat, done: seq<Tree>, t: bytes, k: Tree, key: Slice)
    requires Partial(ns, idx, done) && |ns1| >= |ns| && ns1[..|ns|] == ns
    requires Stored(ns1, |ns|, k) && !k.kesc
    ensures idx < |ns| && LastKid(idx, done) < |ns| && |ns| < |ns1| && !ns1[|ns|].kesc
    ensures ns1[idx].count == |done| && (LastKid(idx, done) == 0 <==> done == [])
    ensures var ns2 := ns1[|ns| := ns1[|ns|].(key := key, kesc := Escaped(t, key))];
            var prev := LastKid(idx, done);
            var ns3 := if prev != 0 then ns2[prev := ns2[prev].(next := |ns|)]
                       else ns2[idx := ns2[idx].(first := |ns|)];
            var ns4 := ns3[idx := ns3[idx].(count := |done| + 1)];
            && |ns4| == |ns| + Size(WithKey(t, k, key))
            && Partial(ns4, idx, done + [WithKey(t, k, key)])
            && ns4[..idx] == ns[..idx]
  {
    hide Size, TotalSize, Escaped, Rep;
    LastKidInside(ns, idx, done);
    SizeWithKey(t, k, key);
    NodeOf(ns1, |ns|, k);
    assert forall j :: 0 <= j < |ns| ==> ns1[j] == ns1[..|ns|][j] == ns[j];
    var kid := WithKey(t, k, key);
    var ns2 := ns1[|ns| := ns1[|ns|].(key := key, kesc := Escaped(t, key))];
    NameKid(ns1, |ns|, t, k, key);
    var prev := LastKid(idx, done);
    var ns3 := if prev != 0 then ns2[prev := ns2[prev].(next := |ns|)] else ns2[idx := ns2[idx].(first := |ns|)];
    var ns4 := ns3[idx := ns3[idx].(count := |done| + 1)];
    EmptyAt(idx, done);
    NodeOf(ns2, |ns|, kid);
    RepFrame(ns2, ns4, |ns|, kid);
    LinkKid(ns, ns4, idx, done, kid);
    assert ns4[..idx] == ns[..idx];
  }

  lemma NodeOf(ns: seq<Node>, at: nat, t: Tree)
    requires Rep(ns, at, t)
    ensures at < at + Size(t) <= |ns| && NodeIs(ns[at], t, at)
  {
  }

  lemma EmptyAt(idx: nat, done: seq<Tree>)
    ensures done == [] ==> KidAt(idx, done, |done|) == idx + 1
  {
  }

  lemma FinishContainer(ns: seq<Node>, idx: nat, done: seq<Tree>, obj: bool, start: nat, end: nat)
    requires Partial(ns, idx, done) && start <= end
    ensures idx < |ns|
    ensures Stored(ns[idx := ns[idx].(kind := if obj then KObj else KArr, raw := Slice(start, end - start))], idx,
                   Container(obj, start, end, done))
  {
    hide Size, TotalSize;
    LastKidInside(ns, idx, done);
    var t := Container(obj, start, end, done);
    SizeIsTotal(t);
    assert done[..|done|] == done;
    var ns' := ns[idx := ns[idx].(kind := if obj then KObj else KArr, raw := Slice(start, end - start))];
    forall i | 0 <= i < |t.kids|
      ensures KidRep(ns', idx, t.kids, i)
    {
      assert KidRep(ns, idx, done, i);
      RepFrame(ns, ns', KidAt(idx, done, i), done[i]);
    }
    assert NodeIs(ns'[idx], t, idx) && |ns'| == idx + Size(t);
    assert Rep(ns', idx, t);
  }

  // ---------- the parser ----------

  class Doc {
    const text: bytes
    const cap: nat
    var p: nat
    var nodes: seq<Node>
    var errOff: nat

    constructor (text: bytes, cap: nat)
      ensures this.text == text && this.cap == cap && nodes == [] && p == 0
    {
      this.text, this.cap := text, cap;
      p, nodes, errOff := 0, [], 0;
    }

    method Skip()
      requires p <= |text|
      modifies `p
      ensures p == SkipWs(text, old(p)) <= |text|
    {
      while p < |text| && IsWs(text[p])
        invariant old(p) <= p <= |text|
        invariant SkipWs(text, p) == SkipWs(text, old(p))
      {
        p := p + 1;
      }
    }

    /** The string whose opening quote is at p. */
    method ScanString() returns (rc: Option<Code>, body: Slice, esc: bool)
      requires p < |text|
      modifies `p
      ensures p <= |text|
      ensures match ScanStr(text, old(p))
              case Err(c, a) => rc == Some(c) && p == a
              case Ok(s, e) => rc == None && p == e && body == s && esc == Escaped(text, s)
    {
      var start := p + 1;
      var q := start;
      esc, body, rc := false, NO_SLICE, Some(Syntax);
      while q < |text|
        invariant start <= q <= |text|
        invariant StrEnd(text, q) == StrEnd(text, start)
        invariant esc == (BACKSLASH in text[start..q])
        decreases |text| - q
      {
        var ch := text[q];
        if ch == QUOTE {
          body := Slice(start, q - start);
          p := q + 1;
          rc := None;
          return;
        }
        if ch == BACKSLASH {
          if |text| - q < 2 { return; }
          if SimpleEscape(text[q+1]) {
            assert text[start..q+2][q - start] == BACKSLASH;
            esc := true;
            q := q + 2;
            continue;
          }
          if text[q+1] != LOWER_U { return; }
          if |text| - q < 6 { return; }
          var i := 2;
          while i < 6
            invariant 2 <= i <= 6
            invariant forall j :: q + 2 <= j < q + i ==> IsHex(text[j])
          {
            if Hex(text[q + i]) < 0 { return; }
            i := i + 1;
          }
          assert IsHex(text[q + 2]) && IsHex(text[q + 3]) && IsHex(text[q + 4]) && IsHex(text[q + 5]);
          assert text[start..q+6][q - start] == BACKSLASH;
          esc := true;
          q := q + 6;
          continue;
        }
        if ch < 0x20 { return; }
        assert text[start..q+1] == text[start..q] + [ch];
        q := q + 1;
      }
    }

    method SkipDigits(q: nat) returns (r: nat)
      requires q <= |text|
      ensures r == DigitsEnd(text, q) <= |text|
    {
      r := q;
      while r < |text| && IsDigit(text[r])
        invariant q <= r <= |text|
        invariant DigitsEnd(text, r) == DigitsEnd(text, q)
      {
        r := r + 1;
      }
    }

    method ScanInteger(q0: nat) returns (r: Option<nat>)
      requires q0 < |text|
      ensures r == IntEnd(text, q0)
    {
      hide DigitsEnd;
      var q := q0;
      if text[q] == MINUS { q := q + 1; }
      if q >= |text| || !IsDigit(text[q]) { return None; }
      if text[q] == ZERO {
        q := q + 1;
      } else {
        q := SkipDigits(q);
      }
      return Some(q);
    }

    method ScanFraction(q0: nat) returns (r: Option<nat>)
      requires q0 <= |text|
      ensures r == FracEnd(text, q0)
    {
      hide DigitsEnd;
      var q := q0;
      if q < |text| && text[q] == 0x2E {
        q := q + 1;
        if q >= |text| || !IsDigit(text[q]) { return None; }
        q := SkipDigits(q);
      }
      return Some(q);
    }

    method ScanExponent(q0: nat) returns (r: Option<nat>)
      requires q0 <= |text|
      ensures r == ExpEnd(text, q0)
    {
      hide DigitsEnd;
      var q := q0;
      if q < |text| && (text[q] == 0x65 || text[q] == 0x45) {
        q := q + 1;
        if q < |text| && (text[q] == 0x2B || text[q] == 0x2D) { q := q + 1; }
        if q >= |text| || !IsDigit(text[q]) { return None; }
        q := SkipDigits(q);
      }
      return Some(q);
    }

    /** The number literal at p. */
    method ScanNumber() returns (rc: Option<Code>, raw: Slice, isint: bool)
      requires p < |text|
      modifies `p
      ensures p <= |text|
      ensures match ScanNum(text, old(p))
              case Err(c, a) => rc == Some(c) && p == a
              case Ok(n, e) => rc == None && p == e && raw == n.0 && isint == n.1
    {
      hide IntEnd, FracEnd, ExpEnd;
      rc, raw, isint := Some(Syntax), NO_SLICE, false;
      var a := ScanInteger(p);
      if a.None? { return; }
      var b := ScanFraction(a.value);
      if b.None? { return; }
      var c := ScanExponent(b.value);
      if c.None? { return; }
      isint := c.value == a.value;
      raw := Slice(p, c.value - p);
      p := c.value;
      rc := None;
    }

    method ScanLiteral(lit: bytes) returns (rc: Option<Code>, raw: Slice)
      requires p <= |text|
      modifies `p
      ensures p <= |text|
      ensures match ScanLit(text, old(p), lit)
              case Err(c, a) => rc == Some(c) && p == a
              case Ok(s, e) => rc == None && p == e && raw == s
    {
      raw := NO_SLICE;
      if |text| - p < |lit| || text[p .. p + |lit|] != lit {
        return Some(Syntax), raw;
      }
      raw := Slice(p, |lit|);
      p := p + |lit|;
      return None, raw;
    }

    method AllocNode() returns (rc: Option<Code>, out: nat)
      modifies `nodes
      ensures if |old(nodes)| >= cap then rc == Some(Nodes) && nodes == old(nodes)
              else rc == None && out == |old(nodes)| && nodes == old(nodes) + [FRESH]
    {
      if |nodes| >= cap {
        return Some(Nodes), 0;
      }
      out := |nodes|;
      nodes := nodes + [FRESH];
      rc := None;
    }

    /** A value: on success its tree is stored behind what the pool already held. */
    method ReadValue(depth: nat) returns (rc: Option<Code>, out: nat)
      requires p <= |text|
      modifies `p, `nodes
      ensures p <= |text| && |nodes| >= |old(nodes)| && nodes[..|old(nodes)|] == old(nodes)
      ensures match ParseValue(text, old(p), depth, |old(nodes)|, cap)
              case Err(c, a) => rc == Some(c) && p == a
              case Ok(t, e) => rc == None && p == e && out == |old(nodes)| && Stored(nodes, out, t)
      decreases |text| - p, 2
    {
      hide SkipWs, ParseContainer, ParseScalar, Rep, Size;
      out := 0;
      if depth >= MAX_DEPTH {
        return Some(Depth), out;
      }
      Skip();
      if p >= |text| {
        return Some(Syntax), out;
      }
      rc, out := AllocNode();
      if rc.Some? {
        return;
      }
      if text[p] == LBRACE {
        rc := ReadContainer(depth, out, true);
      } else if text[p] == LBRACKET {
        rc := ReadContainer(depth, out, false);
      } else {
        rc := ReadScalar(out);
      }
    }

    method ReadScalar(idx: nat) returns (rc: Option<Code>)
      requires p < |text| && idx + 1 == |nodes| && nodes[idx] == FRESH
      modifies `p, `nodes
      ensures p <= |text| && |nodes| == |old(nodes)| && nodes[..idx] == old(nodes)[..idx]
      ensures match ParseScalar(text, old(p))
              case Err(c, a) => rc == Some(c) && p == a
              case Ok(t, e) => rc == None && p == e && Stored(nodes, idx, t)
    {
      hide ScanStr, ScanNum, ScanLit, Escaped, Rep;
      if text[p] == QUOTE {
        var raw, esc;
        rc, raw, esc := ScanString();
        if rc.Some? { return; }
        StoreLeaf(nodes, idx, KStr, esc, false, raw);
        nodes := nodes[idx := nodes[idx].(kind := KStr, esc := esc, raw := raw)];
      } else if text[p] == 0x74 || text[p] == 0x66 || text[p] == 0x6E {
        var kind := if text[p] == 0x6E then KNull else KBool;
        var lit := if text[p] == 0x74 then LitTrue() else if text[p] == 0x66 then LitFalse() else LitNull();
        var raw;
        rc, raw := ScanLiteral(lit);
        if rc.Some? { return; }
        StoreLeaf(nodes, idx, kind, false, false, raw);
        nodes := nodes[idx := nodes[idx].(kind := kind, raw := raw)];
      } else {
        var raw, isint;
        rc, raw, isint := ScanNumber();
        if rc.Some? { return; }
        StoreLeaf(nodes, idx, KNum, false, isint, raw);
        nodes := nodes[idx := nodes[idx].(kind := KNum, isint := isint, raw := raw)];
      }
    }

    /** A member name with its colon. */
    method ReadKey(obj: bool) returns (rc: Option<Code>, key: Slice, kesc: bool)
      requires p <= |text|
      modifies `p
      ensures p <= |text|
      ensures match ParseKey(text, old(p), obj)
              case Err(c, a) => rc == Some(c) && p == a
              case Ok(k, e) => rc == None && p == e && key == k && kesc == Escaped(text, k)
    {
      hide SkipWs, ScanStr;
      rc, key, kesc := None, NO_SLICE, false;
      if obj {
        Skip();
        if p >= |text| || text[p] != QUOTE {
          return Some(Syntax), key, kesc;
        }
        rc, key, kesc := ScanString();
        if rc.Some? { return; }
        Skip();
        if p >= |text| || text[p] != COLON {
          return Some(Syntax), key, kesc;
        }
        p := p + 1;
      }
    }

    /** One child of the container at idx, linked behind its siblings. */
    method ReadKid(depth: nat, idx: nat, obj: bool, prev: nat, ghost done: seq<Tree>)
        returns (rc: Option<Code>, child: nat)
      requires p <= |text| && Partial(nodes, idx, done) && prev == LastKid(idx, done)
      modifies `p, `nodes
      ensures p <= |text| && |nodes| >= |old(nodes)| && nodes[..idx] == old(nodes)[..idx]
      ensures match ParseKid(text, old(p), depth, |old(nodes)|, cap, obj)
              case Err(c, a) => rc == Some(c) && p == a
              case Ok(k, e) => rc == None && p == e && child == |old(nodes)|
                               && |nodes| == |old(nodes)| + Size(k) && Partial(nodes, idx, done + [k])
      decreases |text| - p, 3
    {
      hide ParseKey, ParseValue, Rep, Size, TotalSize, Partial;
      LastKidInside(nodes, idx, done);
      ghost var ns := nodes;
      child := 0;
      var key, kesc;
      rc, key, kesc := ReadKey(obj);
      if rc.Some? { return; }
      ghost var p3 := p;
      rc, child := ReadValue(depth + 1);
      if rc.Some? { return; }
      ghost var k := ParseValue(text, p3, depth + 1, |ns|, cap).val;
      ValueUnnamed(text, p3, depth + 1, |ns|, cap);
      LinkSteps(ns, nodes, idx, done, text, k, key);
      nodes := nodes[child := nodes[child].(key := key, kesc := nodes[child].kesc || kesc)];
      if prev != 0 {
        nodes := nodes[prev := nodes[prev].(next := child)];
      } else {
        nodes := nodes[idx := nodes[idx].(first := child)];
      }
      nodes := nodes[idx := nodes[idx].(count := nodes[idx].count + 1)];
    }

    /** The children of the container at idx, up to and including its closing bracket. */
    method ReadKids(depth: nat, idx: nat, obj: bool) returns (rc: Option<Code>)
      requires p <= |text| && Partial(nodes, idx, [])
      modifies `p, `nodes
      ensures p <= |text| && |nodes| >= |old(nodes)| && nodes[..idx] == old(nodes)[..idx]
      ensures match ParseKids(text, old(p), depth, |old(nodes)|, cap, obj)
              case Err(c, a) => rc == Some(c) && p == a
              case Ok(ks, e) => rc == None && p == e && Partial(nodes, idx, ks)
      decreases |text| - p, 4
    {
      hide SkipWs, ParseKids, ParseKid, Size, TotalSize, Rep, Partial;
      var prev := 0;
      ghost var done: seq<Tree> := [];
      ghost var whole := ParseKids(text, p, depth, |nodes|, cap, obj);
      LastKidInside(nodes, idx, []);
      assert whole == After([], whole) by {
        if whole.Ok? { assert [] + whole.val == whole.val; }
      }
      while true
        invariant old(p) <= p <= |text| && |nodes| >= |old(nodes)| > idx
        invariant nodes[..idx] == old(nodes)[..idx]
        invariant Partial(nodes, idx, done) && prev == LastKid(idx, done)
        invariant whole == After(done, ParseKids(text, p, depth, |nodes|, cap, obj))
        decreases |text| - p
      {
        AfterStep(text, p, depth, |nodes|, cap, obj, done);
        ghost var kid := ParseKid(text, p, depth, |nodes|, cap, obj);
        if kid.Ok? { LastKidSnoc(nodes, idx, done, kid.val); }
        var child;
        rc, child := ReadKid(depth, idx, obj, prev, done);
        if rc.Some? { return; }
        done := done + [kid.val];
        prev := child;
        Skip();
        if p >= |text| {
          return Some(Syntax);
        }
        if text[p] == COMMA {
          p := p + 1;
          continue;
        }
        if text[p] != Close(obj) {
          return Some(Syntax);
        }
        p := p + 1;
        return None;
      }
    }

    /** A container, from the bracket at p to the matching one. */
    method ReadContainer(depth: nat, idx: nat, obj: bool) returns (rc: Option<Code>)
      requires p < |text| && idx + 1 == |nodes| && nodes[idx] == FRESH
      modifies `p, `nodes
      ensures p <= |text| && |nodes| >= |old(nodes)| && nodes[..idx] == old(nodes)[..idx]
      ensures match ParseContainer(text, old(p), depth, |old(nodes)|, cap, obj)
              case Err(c, a) => rc == Some(c) && p == a
              case Ok(t, e) => rc == None && p == e && Stored(nodes, idx, t)
      decreases |text| - p, 1
    {
      hide SkipWs, ParseKids, Size, TotalSize, Rep, Partial;
      var start := p;
      StartPartial(nodes, idx);
      p := p + 1;
      Skip();
      if p >= |text| {
        return Some(Syntax);
      }
      ghost var done: seq<Tree> := [];
      if text[p] == Close(obj) {
        p := p + 1;
      } else {
        ghost var whole := ParseKids(text, p, depth, |nodes|, cap, obj);
        rc := ReadKids(depth, idx, obj);
        if rc.Some? { return; }
        done := whole.val;
      }
      FinishContainer(nodes, idx, done, obj, start, p);
      nodes := nodes[idx := nodes[idx].(kind := if obj then KObj else KArr, raw := Slice(start, p - start))];
      rc := None;
    }

    /** json_parse: fill the pool with the document, or leave it empty and say where the scan
        gave up. */
    method Parse() returns (rc: Option<Code>)
      modifies this
      ensures match ParseDoc(text, cap)
              case Err(c, a) => rc == Some(c) && nodes == old(if cap == 0 || |text| > INT_MAX then nodes else [])
                                && (c != Inval ==> errOff == a)
              case Ok(t, _) => rc == None && Stored(nodes, 0, t) && errOff == 0
    {
      hide SkipWs, ParseValue, Rep, Size;
      if cap == 0 || |text| > INT_MAX {
        return Some(Inval);
      }
      nodes, errOff, p := [], 0, 0;
      if |text| >= 3 && text[0] == 0xEF && text[1] == 0xBB && text[2] == 0xBF {
        p := 3;
      }
      var root;
      rc, root := ReadValue(0);
      if rc == None {
        Skip();
        if p != |text| { rc := Some(Trailing); }
      }
      if rc != None {
        nodes, errOff := [], p;
      }
    }
  }

  // ---------- navigation ----------

  /** json_first and json_next, on pool positions; 0 for none. */
  function First(ns: seq<Node>, n: nat): nat
    requires n < |ns|
  {
    if ns[n].first == 0 || ns[n].first >= |ns| then 0 else ns[n].first
  }

  function Next(ns: seq<Node>, n: nat): nat
    requires n < |ns|
  {
    if ns[n].next == 0 || ns[n].next >= |ns| then 0 else ns[n].next
  }

  /** In a stored tree the first child sits right behind its parent and each sibling right
      behind the previous subtree. */
  lemma Preorder(ns: seq<Node>, at: nat, t: Tree, i: nat)
    requires Rep(ns, at, t) && i < |t.kids|
    ensures at < |ns| && KidAt(at, t.kids, i) < |ns|
    ensures First(ns, at) == at + 1 == KidAt(at, t.kids, 0)
    ensures Rep(ns, KidAt(at, t.kids, i), t.kids[i])
    ensures Next(ns, KidAt(at, t.kids, i))
            == if i + 1 < |t.kids| then KidAt(at, t.kids, i) + Size(t.kids[i]) else 0
  {
    hide Size;
    assert KidRep(ns, at, t.kids, i);
    NodeOf(ns, at, t);
    NodeOf(ns, KidAt(at, t.kids, i), t.kids[i]);
    assert Size(t.kids[0]) >= 1;
    assert KidRep(ns, at, t.kids, 0);
    NodeOf(ns, KidAt(at, t.kids, 0), t.kids[0]);
    KidAtNext(at, t.kids, i);
    if i + 1 < |t.kids| {
      assert KidRep(ns, at, t.kids, i + 1);
      NodeOf(ns, KidAt(at, t.kids, i + 1), t.kids[i+1]);
    }
  }

  /** json_at: the i-th child by walking the sibling chain, 0 when there is none. */
  method At(ns: seq<Node>, n: nat, ghost t: Tree, i: nat) returns (c: nat)
    requires Rep(ns, n, t)
    ensures i < |t.kids| ==> c == KidAt(n, t.kids, i) && Rep(ns, c, t.kids[i])
    ensures i >= |t.kids| ==> c == 0
  {
    hide Size, TotalSize, Rep, KidRep;
    NodeOf(ns, n, t);
    if i >= ns[n].count {
      return 0;
    }
    Preorder(ns, n, t, 0);
    c := First(ns, n);
    var k := i;
    while c != 0 && k > 0
      invariant 0 <= k <= i < |t.kids|
      invariant c == KidAt(n, t.kids, i - k) && c < |ns|
      decreases k
    {
      Preorder(ns, n, t, i - k);
      Preorder(ns, n, t, i - k + 1);
      KidAtNext(n, t.kids, i - k);
      c := Next(ns, c);
      k := k - 1;
    }
    Preorder(ns, n, t, i);
  }
}
