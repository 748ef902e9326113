/** How many pool nodes a parse takes, on any text, well-formed or not (json/src/json.c). */
module JsonNodes {
  import opened Basics
  import opened JsonText
  import opened JsonGrammar
  import opened JsonLocality

  // ---------- the parse with an unlimited pool ----------

  /** What a parse gives, the nodes it allocates on the way, and the containers open where it
      stops. */
  datatype Run<+T> = Run(res: Res<T>, nodes: nat, open: nat)

  function FreeValue(t: bytes, p: nat, depth: nat): (r: Run<Tree>)
    requires p <= |t|
    ensures r.res.Ok? ==> p < r.res.p <= |t|
    decreases |t| - p, 2
  {
    if depth >= MAX_DEPTH then Run(Err(Depth, p), 0, depth) else
    var q := SkipWs(t, p);
    if q >= |t| then Run(Err(Syntax, q), 0, depth) else
    if t[q] == LBRACE || t[q] == LBRACKET then
      var r := FreeContainer(t, q, depth, t[q] == LBRACE);
      r.(nodes := r.nodes + 1)
    else Run(ParseScalar(t, q), 1, depth)
  }

  function FreeContainer(t: bytes, q: nat, depth: nat, obj: bool): (r: Run<Tree>)
    requires q < |t|
    ensures r.res.Ok? ==> q + 1 < r.res.p <= |t|
    decreases |t| - q, 1
  {
    var q1 := SkipWs(t, q + 1);
    if q1 >= |t| then Run(Err(Syntax, q1), 0, depth + 1)
    else if t[q1] == Close(obj) then Run(Ok(Container(obj, q, q1 + 1, []), q1 + 1), 0, depth)
    else
      var r := FreeKids(t, q1, depth, obj);
      match r.res
      case Err(c, a) => Run(Err(c, a), r.nodes, r.open)
      case Ok(kids, e) => Run(Ok(Container(obj, q, e, kids), e), r.nodes, r.open)
  }

  function FreeKid(t: bytes, p: nat, depth: nat, obj: bool): (r: Run<Tree>)
    requires p <= |t|
    ensures r.res.Ok? ==> p < r.res.p <= |t|
    decreases |t| - p, 3
  {
    match ParseKey(t, p, obj)
    case Err(c, a) => Run(Err(c, a), 0, depth + 1)
    case Ok(key, p3) =>
      var r := FreeValue(t, p3, depth + 1);
      match r.res
      case Err(_, _) => r
      case Ok(k, p4) => r.(res := Ok(WithKey(t, k, key), p4))
  }

  function FreeKids(t: bytes, p: nat, depth: nat, obj: bool): (r: Run<seq<Tree>>)
    requires p <= |t|
    ensures r.res.Ok? ==> p < r.res.p <= |t|
    decreases |t| - p, 4
  {
    var r := FreeKid(t, p, depth, obj);
    match r.res
    case Err(c, a) => Run(Err(c, a), r.nodes, r.open)
    case Ok(k, p4) =>
      var p5 := SkipWs(t, p4);
      if p5 >= |t| then Run(Err(Syntax, p5), r.nodes, depth + 1)
      else if t[p5] == COMMA then
        var more := FreeKids(t, p5 + 1, depth, obj);
        match more.res
        case Err(c, a) => Run(Err(c, a), r.nodes + more.nodes, more.open)
        case Ok(ks, e) => Run(Ok([k] + ks, e), r.nodes + more.nodes, more.open)
      else if t[p5] == Close(obj) then Run(Ok([k], p5 + 1), r.nodes, depth)
      else Run(Err(Syntax, p5), r.nodes, depth + 1)
  }

  /** The nodes json_parse needs for a text, and the containers open where it stops reading. */
  function Need(t: bytes): nat { FreeValue(t, Start(t), 0).nodes }

  function Open(t: bytes): nat { FreeValue(t, Start(t), 0).open }

  /** json_parse with a pool that cannot run out. */
  function FreeDoc(t: bytes): (r: Res<Tree>)
  {
    if |t| > INT_MAX then Err(Inval, 0) else
    match FreeValue(t, Start(t), 0).res
    case Err(c, a) => Err(c, a)
    case Ok(v, p) =>
      var q := SkipWs(t, p);
      if q != |t| then Err(Trailing, q) else Ok(v, q)
  }

  // ---------- a bounded pool ----------

  /** A parse that found u of c nodes taken gave r, where the unlimited one gives f. */
  ghost predicate Capped<T>(r: Res<T>, f: Run<T>, u: nat, c: nat) {
    if u + f.nodes <= c then r == f.res else r.Err? && r.code == Nodes
  }

  lemma {:induction false} ValueCapped(t: bytes, p: nat, d: nat, u: nat, c: nat)
    requires p <= |t| && u <= c
    ensures Capped(ParseValue(t, p, d, u, c), FreeValue(t, p, d), u, c)
    ensures var f := FreeValue(t, p, d); f.res.Ok? ==> f.nodes == Size(f.res.val)
    decreases |t| - p, 2
  {
    hide SkipWs, ParseContainer, FreeContainer, ParseScalar, Size;
    var q := SkipWs(t, p);
    if d < MAX_DEPTH && q < |t| {
      if t[q] == LBRACE || t[q] == LBRACKET {
        if u < c { ContainerCapped(t, q, d, u + 1, c, t[q] == LBRACE); }
        else { ContainerCapped(t, q, d, u, c, t[q] == LBRACE); }
      } else {
        ScalarSize(t, q);
      }
    }
  }

  lemma ScalarSize(t: bytes, q: nat)
    requires q < |t|
    ensures var r := ParseScalar(t, q); if r.Ok? then q < r.p && Size(r.val) == 1 else r.code == Syntax
  {
    hide StrEnd, IntEnd, FracEnd, ExpEnd;
  }

  lemma {:induction false} ContainerCapped(t: bytes, q: nat, d: nat, u: nat, c: nat, obj: bool)
    requires q < |t| && u <= c
    ensures Capped(ParseContainer(t, q, d, u, c, obj), FreeContainer(t, q, d, obj), u, c)
    ensures var f := FreeContainer(t, q, d, obj); f.res.Ok? ==> f.nodes + 1 == Size(f.res.val)
    decreases |t| - q, 1
  {
    hide SkipWs, ParseKids, FreeKids, Size, TotalSize;
    var q1 := SkipWs(t, q + 1);
    EmptyTotal();
    if q1 < |t| {
      SizeOfContainer(obj, q, q1 + 1, []);
      if t[q1] != Close(obj) {
        KidsCapped(t, q1, d, u, c, obj);
        var f := FreeKids(t, q1, d, obj).res;
        if f.Ok? { SizeOfContainer(obj, q, f.p, f.val); }
      }
    }
  }

  lemma {:induction false} KidCapped(t: bytes, p: nat, d: nat, u: nat, c: nat, obj: bool)
    requires p <= |t| && u <= c
    ensures Capped(ParseKid(t, p, d, u, c, obj), FreeKid(t, p, d, obj), u, c)
    ensures var f := FreeKid(t, p, d, obj); f.res.Ok? ==> p < f.res.p <= |t| && f.nodes == Size(f.res.val)
    decreases |t| - p, 3
  {
    hide ParseKey, ParseValue, FreeValue, Size;
    var key := ParseKey(t, p, obj);
    if key.Ok? {
      ValueCapped(t, key.p, d + 1, u, c);
      var f := FreeValue(t, key.p, d + 1).res;
      if f.Ok? { SizeWithKey(t, f.val, key.val); }
    }
  }

  lemma {:induction false} KidsCapped(t: bytes, p: nat, d: nat, u: nat, c: nat, obj: bool)
    requires p <= |t| && u <= c
    ensures Capped(ParseKids(t, p, d, u, c, obj), FreeKids(t, p, d, obj), u, c)
    ensures var f := FreeKids(t, p, d, obj); f.res.Ok? ==> f.nodes == TotalSize(f.res.val)
    decreases |t| - p, 4
  {
    hide ParseKid, FreeKid, SkipWs, Size, TotalSize;
    KidCapped(t, p, d, u, c, obj);
    var f := FreeKid(t, p, d, obj);
    if f.res.Ok? {
      SkipForward(t, f.res.p);
      var p5 := SkipWs(t, f.res.p);
      if p5 < |t| && t[p5] == COMMA {
        KidsCapped(t, p5 + 1, d, if u + f.nodes <= c then u + f.nodes else c, c, obj);
        var more := FreeKids(t, p5 + 1, d, obj).res;
        if more.Ok? { TotalCons(f.res.val, more.val); }
      }
      TotalCons(f.res.val, []);
    }
  }

  lemma TotalCons(k: Tree, ks: seq<Tree>)
    ensures TotalSize([k] + ks) == Size(k) + TotalSize(ks)
    ensures ks == [] ==> TotalSize([k]) == Size(k)
  {
    hide Size;
    assert ([k] + ks)[1..] == ks && [k][1..] == [];
  }

  /** On every text: a pool of c nodes runs out if and only if the parse needs more than c, and
      otherwise it makes no difference to the result. */
  lemma RunsOutExactly(t: bytes, c: nat)
    requires 0 < c && |t| <= INT_MAX
    ensures (ParseDoc(t, c).Err? && ParseDoc(t, c).code == Nodes) <==> c < Need(t)
    ensures Need(t) <= c ==> ParseDoc(t, c) == FreeDoc(t)
    ensures FreeDoc(t).Ok? ==> Need(t) == Size(FreeDoc(t).val)
  {
    hide ParseValue, FreeValue, SkipWs, Size;
    ValueCapped(t, Start(t), 0, 0, c);
    ValueBound(t, Start(t), 0);
  }

  // ---------- how many nodes a text can need ----------

  /** Wherever a parse stops, it has spent two bytes a node, but for one byte for each container
      still open. */
  lemma {:induction false} ValueBound(t: bytes, p: nat, d: nat)
    requires p <= |t|
    ensures var f := FreeValue(t, p, d);
            && d <= f.open <= (if d < MAX_DEPTH then MAX_DEPTH else d)
            && (f.res.Ok? ==> p < f.res.p <= |t| && 2 * f.nodes <= f.res.p - p + 1 && f.open == d)
            && (f.res.Err? ==> 2 * f.nodes <= |t| - p + (f.open - d) + 1 && f.res.code != Nodes)
    decreases |t| - p, 2
  {
    hide SkipWs, FreeKids, ParseScalar;
    var q := SkipWs(t, p);
    if d < MAX_DEPTH && q < |t| {
      if t[q] == LBRACE || t[q] == LBRACKET {
        var q1 := SkipWs(t, q + 1);
        if q1 < |t| { KidsBound(t, q1, d, t[q] == LBRACE); }
      } else {
        ScalarSize(t, q);
      }
    }
  }

  lemma {:induction false} KidsBound(t: bytes, p: nat, d: nat, obj: bool)
    requires p <= |t| && d < MAX_DEPTH
    ensures var f := FreeKids(t, p, d, obj);
            && d <= f.open <= MAX_DEPTH
            && (f.res.Ok? ==> 2 * f.nodes <= f.res.p - p && f.open == d)
            && (f.res.Err? ==> d < f.open && 2 * f.nodes <= |t| - p + (f.open - d) && f.res.code != Nodes)
    decreases |t| - p, 4
  {
    hide FreeKid, SkipWs;
    KidBound(t, p, d, obj);
    var f := FreeKid(t, p, d, obj).res;
    if f.Ok? {
      var p5 := SkipWs(t, f.p);
      SkipForward(t, f.p);
      if p5 < |t| && t[p5] == COMMA { KidsBound(t, p5 + 1, d, obj); }
    }
  }

  lemma SkipForward(t: bytes, p: nat)
    requires p <= |t|
    ensures p <= SkipWs(t, p) <= |t|
  {
  }

  lemma {:induction false} KidBound(t: bytes, p: nat, d: nat, obj: bool)
    requires p <= |t| && d < MAX_DEPTH
    ensures var f := FreeKid(t, p, d, obj);
            && d < f.open <= MAX_DEPTH
            && (f.res.Ok? ==> p < f.res.p <= |t| && 2 * f.nodes <= f.res.p - p + 1)
            && (f.res.Err? ==> 2 * f.nodes <= |t| - p + (f.open - d) && f.res.code != Nodes)
    decreases |t| - p, 3
  {
    hide FreeValue, ParseKey;
    KeyCode(t, p, obj);
    var key := ParseKey(t, p, obj);
    if key.Ok? { ValueBound(t, key.p, d + 1); }
  }

  lemma KeyCode(t: bytes, p: nat, obj: bool)
    requires p <= |t|
    ensures var r := ParseKey(t, p, obj); if r.Ok? then p <= r.p <= |t| else r.code == Syntax
  {
    hide SkipWs, StrEnd;
  }

  /** Half the text, and half the containers that can be open: so large a pool never runs out, on
      any text. */
  lemma NeedBound(t: bytes)
    ensures 2 * Need(t) <= |t| + Open(t) + 1 && Open(t) <= MAX_DEPTH
    ensures FreeDoc(t).Ok? ==> 2 * Need(t) <= |t| + 1
  {
    hide FreeValue, SkipWs;
    ValueBound(t, Start(t), 0);
  }

  // ---------- json_nodes_for ----------

  const UINT32_MAX: nat := 0xFFFF_FFFF

  function NodesFor(len: nat): nat {
    var n := len / 2 + 2; if n > UINT32_MAX then UINT32_MAX else n
  }

  /** A pool of json_nodes_for nodes runs out if and only if the text needs more than half its
      length and two; then it is malformed, with at least four containers open where the parse
      stops. */
  lemma NodesForExactly(t: bytes)
    requires |t| <= INT_MAX
    ensures var r := ParseDoc(t, NodesFor(|t|));
            && ((r.Err? && r.code == Nodes) <==> |t| / 2 + 2 < Need(t))
            && (r.Err? && r.code == Nodes ==> Open(t) >= 4 && FreeDoc(t).Err?)
            && (!(r.Err? && r.code == Nodes) ==> r == FreeDoc(t))
  {
    hide Need, Open, FreeDoc, ParseDoc;
    RunsOutExactly(t, NodesFor(|t|));
    NeedBound(t);
  }

  /** Every document some pool can hold parses the same in that pool. */
  lemma NodesForSuffices(t: bytes, cap: nat)
    requires ParseDoc(t, cap).Ok?
    ensures Size(ParseDoc(t, cap).val) <= (|t| + 1) / 2
    ensures ParseDoc(t, NodesFor(|t|)) == ParseDoc(t, cap)
  {
    hide Need, Open, FreeDoc, ParseValue, SkipWs, Size;
    RunsOutExactly(t, cap);
    RunsOutExactly(t, NodesFor(|t|));
    NeedBound(t);
  }

  /** A pool that is enough for every text of the length. */
  lemma RoomyPool(t: bytes, c: nat)
    requires |t| <= INT_MAX && (|t| + MAX_DEPTH + 1) / 2 <= c
    ensures ParseDoc(t, c) == FreeDoc(t) && !(FreeDoc(t).Err? && FreeDoc(t).code == Nodes)
  {
    hide Need, Open, FreeDoc, ParseDoc;
    RunsOutExactly(t, c);
    NeedBound(t);
  }

  // ---------- bracket counts ----------

  /** Opening brackets from p on. */
  function Brackets(t: bytes, p: nat): nat
    requires p <= |t|
    decreases |t| - p
  {
    if p == |t| then 0 else (if t[p] == LBRACE || t[p] == LBRACKET then 1 else 0) + Brackets(t, p + 1)
  }

  lemma {:induction false} BracketsFrom(t: bytes, p: nat, q: nat)
    requires p <= q <= |t|
    ensures Brackets(t, q) <= Brackets(t, p)
    decreases q - p
  {
    if p < q { BracketsFrom(t, p + 1, q); }
  }

  /** No more containers are open than the text has opening brackets. */
  lemma {:induction false} ValueBrackets(t: bytes, p: nat, d: nat)
    requires p <= |t|
    ensures FreeValue(t, p, d).open <= d + Brackets(t, p)
    decreases |t| - p, 2
  {
    hide SkipWs, FreeKids, ParseScalar;
    var q := SkipWs(t, p);
    if d < MAX_DEPTH && q < |t| {
      BracketsFrom(t, p, q);
      if t[q] == LBRACE || t[q] == LBRACKET {
        var q1 := SkipWs(t, q + 1);
        BracketsFrom(t, q + 1, q1);
        if q1 < |t| { KidsBrackets(t, q1, d, t[q] == LBRACE); }
      }
    }
  }

  lemma {:induction false} KidsBrackets(t: bytes, p: nat, d: nat, obj: bool)
    requires p <= |t|
    ensures FreeKids(t, p, d, obj).open <= d + 1 + Brackets(t, p)
    decreases |t| - p, 4
  {
    hide FreeValue, SkipWs, ParseKey, Brackets;
    var key := ParseKey(t, p, obj);
    if key.Ok? {
      BracketsFrom(t, p, key.p);
      ValueBrackets(t, key.p, d + 1);
      var f := FreeValue(t, key.p, d + 1).res;
      if f.Ok? {
        var p5 := SkipWs(t, f.p);
        if p5 < |t| && t[p5] == COMMA {
          BracketsFrom(t, p, p5 + 1);
          KidsBrackets(t, p5 + 1, d, obj);
        }
      }
    }
  }

  /** What a caller can see before the call: with fewer than four opening brackets in the text a
      pool of json_nodes_for nodes never runs out. */
  lemma FewBrackets(t: bytes)
    requires |t| <= INT_MAX && Brackets(t, 0) < 4
    ensures ParseDoc(t, NodesFor(|t|)) == FreeDoc(t)
  {
    hide FreeDoc, ParseDoc, Brackets, FreeValue;
    NodesForExactly(t);
    ValueBrackets(t, Start(t), 0);
    BracketsFrom(t, 0, Start(t));
  }

  /** And four are enough: "[[[[0" exhausts its four nodes. */
  lemma FourBrackets()
    ensures var t := [LBRACKET, LBRACKET, LBRACKET, LBRACKET, ZERO];
            ParseDoc(t, NodesFor(|t|)) == Err(Nodes, 4)
  {
    var t: bytes := [LBRACKET, LBRACKET, LBRACKET, LBRACKET, ZERO];
    OneDeeper(t, 3);
    OneDeeper(t, 2);
    OneDeeper(t, 1);
    OneDeeper(t, 0);
  }

  lemma OneDeeper(t: bytes, p: nat)
    requires p + 1 < |t| <= MAX_DEPTH && t[p] == LBRACKET && !IsWs(t[p + 1]) && t[p + 1] != RBRACKET
    requires ParseValue(t, p + 1, p + 1, p + 1, 4) == Err(Nodes, 4) || p == 3
    ensures p <= 3 ==> ParseValue(t, p, p, p, 4) == Err(Nodes, 4)
  {
    SkipWsIs(t, p, p);
    SkipWsIs(t, p + 1, p + 1);
    if p <= 3 { KidFails(t, p + 1, p, p + 1, 4); }
  }

  /** On a malformed text the bound does not hold: eight open brackets exhaust the six nodes
      json_nodes_for grants, where a larger pool reports the missing brackets instead. */
  lemma NodesForCanRunOut()
    ensures var t := seq(8, _ => LBRACKET);
            ParseDoc(t, NodesFor(|t|)) == Err(Nodes, 6) && ParseDoc(t, 8) == Err(Syntax, 8)
  {
    var t: bytes := seq(8, _ => LBRACKET);
    OpenBrackets(t, 0, 0, 6);
    OpenBrackets(t, 0, 0, 8);
  }

  /** A run of opening brackets fails at the node bound or at the end of the text. */
  lemma {:induction false} OpenBrackets(t: bytes, p: nat, u: nat, c: nat)
    requires p == u <= |t| <= MAX_DEPTH && c <= |t| && u <= c && forall i :: 0 <= i < |t| ==> t[i] == LBRACKET
    requires u < |t|
    ensures ParseValue(t, p, p, u, c) == if c < |t| then Err(Nodes, c) else Err(Syntax, |t|)
    decreases |t| - p
  {
    SkipWsIs(t, p, p);
    if u < c {
      if p + 1 < |t| {
        SkipWsIs(t, p + 1, p + 1);
        OpenBrackets(t, p + 1, u + 1, c);
        KidFails(t, p + 1, p, u + 1, c);
      } else {
        SkipWsIs(t, |t|, |t|);
      }
    }
  }

  lemma KidFails(t: bytes, p: nat, d: nat, u: nat, c: nat)
    requires p <= |t| && ParseValue(t, p, d + 1, u, c).Err?
    ensures ParseKids(t, p, d, u, c, false)
            == Err(ParseValue(t, p, d + 1, u, c).code, ParseValue(t, p, d + 1, u, c).at)
  {
    hide ParseValue;
    assert ParseKey(t, p, false) == Ok(NO_SLICE, p);
  }
}
