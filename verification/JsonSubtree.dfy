/** Every container of a parsed document stands for itself: its raw slice, parsed alone, gives its
    subtree, and the same run of pool entries (json/src/json.c). */
module JsonSubtree {
  import opened Basics
  import opened JsonText
  import opened JsonGrammar
  import opened JsonLocality
  import opened JsonPool

  // ---------- into the tree ----------

  predicate Leads(v: Tree, path: seq<nat>)
    decreases |path|
  {
    path == [] || (path[0] < |v.kids| && Leads(v.kids[path[0]], path[1..]))
  }

  function Sub(v: Tree, path: seq<nat>): Tree
    requires Leads(v, path)
    decreases |path|
  {
    if path == [] then v else Sub(v.kids[path[0]], path[1..])
  }

  /** A value without its member name. */
  function Bare(k: Tree): Tree { k.(key := NO_SLICE, kesc := false) }

  predicate Compound(kind: Kind) { kind.KArr? || kind.KObj? }

  /** Every kid comes from a parse of its own text. */
  lemma {:induction false} KidOrigin(t: bytes, p: nat, d: nat, u: nat, c: nat, obj: bool,
                                     ks: seq<Tree>, e: nat, i: nat) returns (p': nat, u': nat)
    requires p <= |t| && ParseKids(t, p, d, u, c, obj) == Ok(ks, e) && i < |ks|
    ensures p' <= |t| && ParseValue(t, p', d + 1, u', c).Ok? && ParseValue(t, p', d + 1, u', c).val == Bare(ks[i])
    decreases |t| - p
  {
    hide ParseKids, ParseValue, SkipWs, Size;
    KidsSplit(t, p, d, u, c, obj, ks, e);
    var Ok(k, p4) := ParseKid(t, p, d, u, c, obj);
    var Ok(key, p3) := ParseKey(t, p, obj);
    if i == 0 {
      p', u' := p3, u;
      ValueUnnamed(t, p3, d + 1, u, c);
    } else {
      p', u' := KidOrigin(t, SkipWs(t, p4) + 1, d, u + Size(k), c, obj, ks[1..], e, i - 1);
    }
  }

  /** A compound value is a container whose kids were parsed one level down. */
  lemma KidsOf(t: bytes, p: nat, d: nat, u: nat, c: nat) returns (q: nat, obj: bool, e: nat)
    requires p <= |t| && ParseValue(t, p, d, u, c).Ok? && ParseValue(t, p, d, u, c).val.kids != []
    ensures p < q <= |t| && ParseKids(t, q, d, u + 1, c, obj) == Ok(ParseValue(t, p, d, u, c).val.kids, e)
  {
    hide SkipWs, ParseKids, ParseScalar;
    var s := SkipWs(t, p);
    SkipAhead(t, p);
    obj := t[s] == LBRACE;
    if !(t[s] == LBRACE || t[s] == LBRACKET) { NoKids(t, s); }
    SkipAhead(t, s + 1);
    q := SkipWs(t, s + 1);
    e := ParseValue(t, p, d, u, c).p;
  }

  lemma SkipAhead(t: bytes, p: nat)
    requires p <= |t|
    ensures p <= SkipWs(t, p) <= |t|
  {
  }

  lemma NoKids(t: bytes, q: nat)
    requires q < |t|
    ensures ParseScalar(t, q).Ok? ==> ParseScalar(t, q).val.kids == []
  {
  }

  /** Every value inside a parsed value comes from a parse of its own text. */
  lemma {:induction false} Origin(t: bytes, p: nat, d: nat, u: nat, c: nat, path: seq<nat>)
    returns (p': nat, d': nat, u': nat)
    requires p <= |t| && ParseValue(t, p, d, u, c).Ok? && Leads(ParseValue(t, p, d, u, c).val, path)
    ensures p' <= |t| && ParseValue(t, p', d', u', c).Ok?
    ensures ParseValue(t, p', d', u', c).val == Bare(Sub(ParseValue(t, p, d, u, c).val, path))
    decreases |path|
  {
    hide ParseValue, ParseKids;
    var v := ParseValue(t, p, d, u, c).val;
    if path == [] {
      ValueUnnamed(t, p, d, u, c);
      p', d', u' := p, d, u;
    } else {
      var q, obj, e := KidsOf(t, p, d, u, c);
      var p1, u1 := KidOrigin(t, q, d, u + 1, c, obj, v.kids, e, path[0]);
      var k := v.kids[path[0]];
      assert Bare(k).kids == k.kids;
      SubBare(k, path[1..]);
      p', d', u' := Origin(t, p1, d + 1, u1, c, path[1..]);
    }
  }

  lemma SubBare(k: Tree, path: seq<nat>)
    requires Leads(k, path)
    ensures Leads(Bare(k), path) && Bare(Sub(Bare(k), path)) == Bare(Sub(k, path))
  {
  }

  lemma BareSize(k: Tree)
    ensures Size(Bare(k)) == Size(k)
  {
    SizeIsTotal(k);
    SizeIsTotal(Bare(k));
  }

  lemma BareShift(k: Tree, a: nat)
    ensures Shift(Bare(k), a) == Bare(Shift(k, a))
  {
    assert Shift(Bare(k), a).kids == Shift(k, a).kids;
  }

  /** The raw slice of any container in a document, parsed as a document, is that container. */
  lemma RawSliceReparses(t: bytes, cap: nat, path: seq<nat>, c: nat)
    requires ParseDoc(t, cap).Ok? && Leads(ParseDoc(t, cap).val, path)
    requires var k := Sub(ParseDoc(t, cap).val, path); Compound(k.kind) && Size(k) <= c
    ensures var k := Sub(ParseDoc(t, cap).val, path);
            && k.raw.off + k.raw.len <= |t|
            && ParseDoc(Body(t, k.raw), c) == Ok(Bare(Shift(k, k.raw.off)), k.raw.len)
  {
    hide ParseValue, Size, Shift, SkipWs, Body;
    var k := Sub(ParseDoc(t, cap).val, path);
    var p, d, u := Origin(t, Start(t), 0, 0, cap, path);
    BareSize(k);
    BareShift(k, k.raw.off);
    hide ParseDoc;
    ValueReparses(t, p, d, u, cap, c);
  }

  // ---------- into the pool ----------

  /** Where the value at the end of a path is stored. */
  function Place(at: nat, v: Tree, path: seq<nat>): nat
    requires Leads(v, path)
    decreases |path|
  {
    if path == [] then at else Place(KidAt(at, v.kids, path[0]), v.kids[path[0]], path[1..])
  }

  lemma {:induction false} PlaceRep(ns: seq<Node>, at: nat, v: Tree, path: seq<nat>)
    requires Rep(ns, at, v) && Leads(v, path)
    ensures Rep(ns, Place(at, v, path), Sub(v, path))
    decreases |path|
  {
    hide Size, TotalSize;
    if path != [] {
      assert KidRep(ns, at, v.kids, path[0]);
      PlaceRep(ns, KidAt(at, v.kids, path[0]), v.kids[path[0]], path[1..]);
    }
  }

  /** The kid whose entries hold pool index i. */
  lemma {:induction false} KidHolding(at: nat, ks: seq<Tree>, i: nat, n: nat) returns (j: nat)
    requires n <= |ks| && at + 1 <= i < KidAt(at, ks, n)
    ensures j < n && KidAt(at, ks, j) <= i < KidAt(at, ks, j) + Size(ks[j])
    decreases n
  {
    hide Size, TotalSize;
    NoneBefore(at, ks);
    KidAtNext(at, ks, n - 1);
    if KidAt(at, ks, n - 1) <= i { j := n - 1; } else { j := KidHolding(at, ks, i, n - 1); }
  }

  lemma NoneBefore(at: nat, ks: seq<Tree>)
    ensures KidAt(at, ks, 0) == at + 1
  {
  }

  /** Every pool entry of a stored tree is the place of a value in it. */
  lemma {:induction false} Locate(at: nat, v: Tree, i: nat) returns (path: seq<nat>)
    requires at <= i < at + Size(v)
    ensures Leads(v, path) && Place(at, v, path) == i
    decreases v
  {
    hide Size, TotalSize, KidAt;
    if i == at {
      path := [];
    } else {
      AllKids(at, v);
      var j := KidHolding(at, v.kids, i, |v.kids|);
      var rest := Locate(KidAt(at, v.kids, j), v.kids[j], i);
      path := [j] + rest;
      assert path[1..] == rest;
    }
  }

  lemma AllKids(at: nat, v: Tree)
    ensures KidAt(at, v.kids, |v.kids|) == at + Size(v)
  {
    hide Size, TotalSize;
    SizeIsTotal(v);
    assert v.kids[..|v.kids|] == v.kids;
  }

  // ---------- the copy ----------

  function Back(link: nat, far: nat): nat { if link < far then 0 else link - far }

  /** A pool entry whose text starts a octets later and whose links lie `far` entries further on. */
  function Moved(n: Node, far: nat, a: nat): Node {
    n.(first := Back(n.first, far), next := Back(n.next, far),
       key := ShiftSlice(n.key, a), raw := ShiftSlice(n.raw, a))
  }

  /** Two stored copies of a tree, one of them moved, are entry for entry the same; the sibling
      link and the name of the root are its parent's. */
  lemma {:induction false} CopyAt(ns: seq<Node>, ns': seq<Node>, at: nat, at': nat, k: Tree, k': Tree, a: nat, j: nat)
    requires Rep(ns, at, k) && Rep(ns', at', k') && k' == Shift(k, a) && at' <= at && j < Size(k)
    ensures at + j < |ns| && at' + j < |ns'|
    ensures ns'[at' + j].(next := 0) == Moved(ns[at + j], at - at', a).(next := 0)
    ensures j > 0 ==> ns'[at' + j] == Moved(ns[at + j], at - at', a)
    decreases k
  {
    hide Size, TotalSize, KidAt;
    SizeShift(k, a);
    NodeOf(ns, at, k);
    NodeOf(ns', at', k');
    assert |k'.kids| == |k.kids|;
    if j > 0 {
      AllKids(at, k);
      var i := KidHolding(at, k.kids, at + j, |k.kids|);
      assert KidRep(ns, at, k.kids, i) && KidRep(ns', at', k'.kids, i);
      assert k'.kids[i] == Shift(k.kids[i], a);
      SamePlace(at, at', k, k', a, i);
      var x, x' := KidAt(at, k.kids, i), KidAt(at', k'.kids, i);
      CopyAt(ns, ns', x, x', k.kids[i], k'.kids[i], a, at + j - x);
      if i + 1 < |k.kids| { SamePlace(at, at', k, k', a, i + 1); }
    }
  }

  lemma SamePlace(at: nat, at': nat, k: Tree, k': Tree, a: nat, i: nat)
    requires k' == Shift(k, a) && at' <= at && i <= |k.kids|
    ensures |k'.kids| == |k.kids| && KidAt(at, k.kids, i) - at == KidAt(at', k'.kids, i) - at' >= 1
  {
    hide Size, TotalSize;
    assert k'.kids[..i] == ShiftAll(k.kids[..i], a);
    TotalShift(k.kids[..i], a);
  }

  lemma {:induction false} TotalShift(ks: seq<Tree>, a: nat)
    ensures TotalSize(ShiftAll(ks, a)) == TotalSize(ks)
    decreases |ks|
  {
    hide Size;
    if ks != [] {
      SizeShift(ks[0], a);
      TotalShift(ks[1..], a);
      assert ShiftAll(ks, a)[1..] == ShiftAll(ks[1..], a);
    }
  }

  /** For every container entry i of a parsed document: some n entries from i on are its subtree;
      its raw slice parses in any pool of n nodes or more, always to the same value; and the pool
      json_parse then leaves is those n entries, moved to the front. */
  lemma SubtreeReparses(t: bytes, cap: nat, ns: seq<Node>, i: nat, ns': seq<Node>) returns (n: nat)
    requires ParseDoc(t, cap).Ok? && Stored(ns, 0, ParseDoc(t, cap).val) && i < |ns| && Compound(ns[i].kind)
    ensures 0 < n && i + n <= |ns|
    ensures var s := Body(t, ns[i].raw);
            && ParseDoc(s, n).Ok? && (forall c :: n <= c ==> ParseDoc(s, c) == ParseDoc(s, n))
            && (Stored(ns', 0, ParseDoc(s, n).val) ==>
                  && |ns'| == n
                  && ns'[0] == Moved(ns[i], i, ns[i].raw.off).(next := 0, key := NO_SLICE, kesc := false)
                  && forall j :: 0 < j < n ==> ns'[j] == Moved(ns[i + j], i, ns[i].raw.off))
  {
    hide ParseDoc, Size, Shift, Body, Rep;
    var v := ParseDoc(t, cap).val;
    var path := Locate(0, v, i);
    PlaceRep(ns, 0, v, path);
    var k := Sub(v, path);
    NodeOf(ns, i, k);
    n := Size(k);
    var s, a := Body(t, k.raw), k.raw.off;
    forall c | n <= c ensures ParseDoc(s, c) == Ok(Bare(Shift(k, a)), k.raw.len) {
      RawSliceReparses(t, cap, path, c);
    }
    RawSliceReparses(t, cap, path, n);
    if Stored(ns', 0, Bare(Shift(k, a))) {
      CopyOf(ns, ns', i, k, a);
    }
  }

  lemma CopyOf(ns: seq<Node>, ns': seq<Node>, i: nat, k: Tree, a: nat)
    requires Rep(ns, i, k) && Stored(ns', 0, Bare(Shift(k, a)))
    ensures |ns'| == Size(k) && i < |ns|
    ensures ns'[0] == Moved(ns[i], i, a).(next := 0, key := NO_SLICE, kesc := false)
    ensures forall j :: 0 < j < Size(k) ==> i + j < |ns| && ns'[j] == Moved(ns[i + j], i, a)
  {
    hide Size, Shift;
    var m := Shift(k, a);
    BareSize(m);
    SizeShift(k, a);
    NodeOf(ns', 0, Bare(m));
    var named := ns'[0 := ns'[0].(key := m.key, kesc := m.kesc)];
    Renamed(ns', named, m);
    forall j | 0 <= j < Size(k)
      ensures i + j < |ns| && named[j].(next := 0) == Moved(ns[i + j], i, a).(next := 0)
      ensures j > 0 ==> named[j] == ns'[j] == Moved(ns[i + j], i, a)
    {
      CopyAt(ns, named, i, 0, k, m, a, j);
    }
    assert named[0].(next := 0) == Moved(ns[i + 0], i, a).(next := 0);
  }

  lemma Renamed(ns: seq<Node>, named: seq<Node>, m: Tree)
    requires Rep(ns, 0, Bare(m)) && 0 < |ns| && named == ns[0 := ns[0].(key := m.key, kesc := m.kesc)]
    ensures Rep(named, 0, m)
  {
    hide Size, TotalSize;
    BareSize(m);
    NodeOf(ns, 0, Bare(m));
    forall i | 0 <= i < |m.kids| ensures KidRep(named, 0, m.kids, i) {
      assert Bare(m).kids[i] == m.kids[i];
      assert KidRep(ns, 0, m.kids, i);
      var x := KidAt(0, m.kids, i);
      NodeOf(ns, x, m.kids[i]);
      RepFrame(ns, named, x, m.kids[i]);
    }
  }
}
