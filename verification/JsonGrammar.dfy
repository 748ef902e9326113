/** The parser of json/src/json.c as a function from text to a document tree or an error.
    Positions are absolute offsets into the text; a tree keeps slices, as the node pool does. */
module JsonGrammar {
  import opened Basics
  import opened JsonText

  const MAX_DEPTH: nat := 32

  datatype Code = Syntax | Nodes | Depth | Trailing | Inval

  datatype Kind = KNull | KBool | KNum | KStr | KArr | KObj

  /** A borrowed view into the text. */
  datatype Slice = Slice(off: nat, len: nat)

  const NO_SLICE := Slice(0, 0)

  /** One value: `esc`, `kesc` and `isint` are the node flags. */
  datatype Tree = Tree(kind: Kind, esc: bool, isint: bool, key: Slice, kesc: bool, raw: Slice, kids: seq<Tree>)

  datatype Res<+T> = Ok(val: T, p: nat) | Err(code: Code, at: nat)

  function Leaf(kind: Kind, esc: bool, isint: bool, raw: Slice): Tree {
    Tree(kind, esc, isint, NO_SLICE, false, raw, [])
  }

  /** Nodes a tree occupies in the pool. */
  function Size(t: Tree): (n: nat)
    ensures n >= 1
    decreases t, 1, 0
  {
    1 + SizeKids(t, |t.kids|)
  }

  function SizeKids(t: Tree, n: nat): nat
    requires n <= |t.kids|
    decreases t, 0, n
  {
    if n == 0 then 0 else SizeKids(t, n - 1) + Size(t.kids[n-1])
  }

  // ---------- scanners ----------

  function SkipWs(t: bytes, p: nat): (r: nat)
    requires p <= |t|
    ensures p <= r <= |t|
    ensures r < |t| ==> !IsWs(t[r])
    ensures forall i :: p <= i < r ==> IsWs(t[i])
    decreases |t| - p
  {
    if p < |t| && IsWs(t[p]) then SkipWs(t, p + 1) else p
  }

  function DigitsEnd(t: bytes, p: nat): (r: nat)
    requires p <= |t|
    ensures p <= r <= |t|
    ensures r < |t| ==> !IsDigit(t[r])
    ensures forall i :: p <= i < r ==> IsDigit(t[i])
    decreases |t| - p
  {
    if p < |t| && IsDigit(t[p]) then DigitsEnd(t, p + 1) else p
  }

  /** Where the string body starting at q ends: the index of its closing quote. */
  function StrEnd(t: bytes, q: nat): (r: Option<nat>)
    requires q <= |t|
    ensures r.Some? ==> q <= r.value < |t| && t[r.value] == QUOTE
    decreases |t| - q
  {
    if q >= |t| then None
    else if t[q] == QUOTE then Some(q)
    else if t[q] == BACKSLASH then
      if |t| - q < 2 then None
      else if SimpleEscape(t[q+1]) then StrEnd(t, q + 2)
      else if t[q+1] == LOWER_U then
        if |t| - q < 6 || !(IsHex(t[q+2]) && IsHex(t[q+3]) && IsHex(t[q+4]) && IsHex(t[q+5])) then None
        else StrEnd(t, q + 6)
      else None
    else if t[q] < 0x20 then None
    else StrEnd(t, q + 1)
  }

  /** A string whose opening quote is at p: its body, between the quotes. */
  function ScanStr(t: bytes, p: nat): (r: Res<Slice>)
    requires p < |t|
    ensures r.Ok? ==> p + 1 < r.p <= |t| && r.val == Slice(p + 1, r.p - p - 2)
  {
    match StrEnd(t, p + 1)
    case None => Err(Syntax, p)
    case Some(e) => Ok(Slice(p + 1, e - p - 1), e + 1)
  }

  function Body(t: bytes, s: Slice): bytes {
    if s.off + s.len <= |t| then t[s.off .. s.off + s.len] else []
  }

  /** The esc flag: the body carries a backslash. */
  predicate Escaped(t: bytes, s: Slice) { BACKSLASH in Body(t, s) }

  /** The fraction part of a number, if any; None when the dot has no digit after it. */
  function FracEnd(t: bytes, p: nat): (r: Option<nat>)
    requires p <= |t|
    ensures r.Some? ==> p <= r.value <= |t|
  {
    if p < |t| && t[p] == 0x2E then
      if p + 1 < |t| && IsDigit(t[p+1]) then Some(DigitsEnd(t, p + 1)) else None
    else Some(p)
  }

  function ExpEnd(t: bytes, p: nat): (r: Option<nat>)
    requires p <= |t|
    ensures r.Some? ==> p <= r.value <= |t|
  {
    if p < |t| && (t[p] == 0x65 || t[p] == 0x45) then
      var q := if p + 1 < |t| && (t[p+1] == 0x2B || t[p+1] == 0x2D) then p + 2 else p + 1;
      if q < |t| && IsDigit(t[q]) then Some(DigitsEnd(t, q)) else None
    else Some(p)
  }

  /** Where the integer part of a number at p ends. */
  function IntEnd(t: bytes, p: nat): (r: Option<nat>)
    requires p < |t|
    ensures r.Some? ==> p < r.value <= |t|
  {
    var q := if t[p] == MINUS then p + 1 else p;
    if q >= |t| || !IsDigit(t[q]) then None
    else if t[q] == ZERO then Some(q + 1)
    else Some(DigitsEnd(t, q))
  }

  /** A number literal at p, as section 6 of RFC 8259 has it; the flag is "written as an
      integer". */
  function ScanNum(t: bytes, p: nat): (r: Res<(Slice, bool)>)
    requires p < |t|
    ensures r.Ok? ==> p < r.p <= |t| && r.val.0 == Slice(p, r.p - p)
  {
    match IntEnd(t, p)
    case None => Err(Syntax, p)
    case Some(a) =>
      match FracEnd(t, a)
      case None => Err(Syntax, p)
      case Some(b) =>
        match ExpEnd(t, b)
        case None => Err(Syntax, p)
        case Some(c) => Ok((Slice(p, c - p), c == a), c)
  }

  function LitTrue(): bytes { [0x74, 0x72, 0x75, 0x65] }
  function LitFalse(): bytes { [0x66, 0x61, 0x6C, 0x73, 0x65] }
  function LitNull(): bytes { [0x6E, 0x75, 0x6C, 0x6C] }

  function ScanLit(t: bytes, p: nat, lit: bytes): (r: Res<Slice>)
    requires p <= |t|
    ensures r.Ok? ==> r.p == p + |lit| <= |t|
  {
    if |t| - p < |lit| || t[p .. p + |lit|] != lit then Err(Syntax, p)
    else Ok(Slice(p, |lit|), p + |lit|)
  }

  // ---------- values ----------

  function Close(obj: bool): byte { if obj then RBRACE else RBRACKET }

  /** A value at p (after white space), `depth` containers deep, with `used` pool nodes
      already taken of `cap`. */
  function ParseValue(t: bytes, p: nat, depth: nat, used: nat, cap: nat): (r: Res<Tree>)
    requires p <= |t|
    ensures r.Ok? ==> p < r.p <= |t|
    ensures r.Err? ==> r.at <= |t|
    decreases |t| - p, 2
  {
    if depth >= MAX_DEPTH then Err(Depth, p) else
    var q := SkipWs(t, p);
    if q >= |t| then Err(Syntax, q) else
    if used >= cap then Err(Nodes, q) else
    if t[q] == LBRACE then ParseContainer(t, q, depth, used + 1, cap, true)
    else if t[q] == LBRACKET then ParseContainer(t, q, depth, used + 1, cap, false)
    else ParseScalar(t, q)
  }

  function ParseScalar(t: bytes, q: nat): (r: Res<Tree>)
    requires q < |t|
    ensures r.Ok? ==> q < r.p <= |t| && r.val.kids == [] && r.val.key == NO_SLICE && !r.val.kesc
    ensures r.Err? ==> r.at <= |t|
  {
    if t[q] == QUOTE then
      match ScanStr(t, q)
      case Err(c, a) => Err(c, a)
      case Ok(s, e) => Ok(Leaf(KStr, Escaped(t, s), false, s), e)
    else if t[q] == 0x74 then LeafOf(KBool, ScanLit(t, q, LitTrue()))
    else if t[q] == 0x66 then LeafOf(KBool, ScanLit(t, q, LitFalse()))
    else if t[q] == 0x6E then LeafOf(KNull, ScanLit(t, q, LitNull()))
    else
      match ScanNum(t, q)
      case Err(c, a) => Err(c, a)
      case Ok(n, e) => Ok(Leaf(KNum, false, n.1, n.0), e)
  }

  function LeafOf(kind: Kind, r: Res<Slice>): Res<Tree> {
    match r
    case Err(c, a) => Err(c, a)
    case Ok(s, e) => Ok(Leaf(kind, false, false, s), e)
  }

  /** A container whose opening bracket is at q. */
  function ParseContainer(t: bytes, q: nat, depth: nat, used: nat, cap: nat, obj: bool): (r: Res<Tree>)
    requires q < |t|
    ensures r.Ok? ==> q + 1 < r.p <= |t|
    ensures r.Err? ==> r.at <= |t|
    decreases |t| - q, 1
  {
    var q1 := SkipWs(t, q + 1);
    if q1 >= |t| then Err(Syntax, q1)
    else if t[q1] == Close(obj) then Ok(Container(obj, q, q1 + 1, []), q1 + 1)
    else
      match ParseKids(t, q1, depth, used, cap, obj)
      case Err(c, a) => Err(c, a)
      case Ok(kids, e) => Ok(Container(obj, q, e, kids), e)
  }

  function Container(obj: bool, start: nat, end: nat, kids: seq<Tree>): Tree
    requires start <= end
  {
    Tree(if obj then KObj else KArr, false, false, NO_SLICE, false, Slice(start, end - start), kids)
  }

  /** A member name with its colon; just the position inside an array. */
  function ParseKey(t: bytes, p: nat, obj: bool): (r: Res<Slice>)
    requires p <= |t|
    ensures r.Ok? ==> p <= r.p <= |t|
    ensures r.Err? ==> r.at <= |t|
  {
    if !obj then Ok(NO_SLICE, p) else
    var p1 := SkipWs(t, p);
    if p1 >= |t| || t[p1] != QUOTE then Err(Syntax, p1) else
    match ScanStr(t, p1)
    case Err(c, a) => Err(c, a)
    case Ok(s, e) =>
      var p2 := SkipWs(t, e);
      if p2 >= |t| || t[p2] != COLON then Err(Syntax, p2) else Ok(s, p2 + 1)
  }

  function WithKey(t: bytes, k: Tree, key: Slice): Tree {
    k.(key := key, kesc := Escaped(t, key))
  }

  /** One child: its name, if the container is an object, and its value. */
  function ParseKid(t: bytes, p: nat, depth: nat, used: nat, cap: nat, obj: bool): (r: Res<Tree>)
    requires p <= |t|
    ensures r.Ok? ==> p < r.p <= |t|
    ensures r.Err? ==> r.at <= |t|
    decreases |t| - p, 3
  {
    match ParseKey(t, p, obj)
    case Err(c, a) => Err(c, a)
    case Ok(key, p3) =>
      match ParseValue(t, p3, depth + 1, used, cap)
      case Err(c, a) => Err(c, a)
      case Ok(k, p4) => Ok(WithKey(t, k, key), p4)
  }

  /** The children from position p up to and including the closing bracket. */
  function ParseKids(t: bytes, p: nat, depth: nat, used: nat, cap: nat, obj: bool): (r: Res<seq<Tree>>)
    requires p <= |t|
    ensures r.Ok? ==> p < r.p <= |t| && |r.val| > 0
    ensures r.Err? ==> r.at <= |t|
    decreases |t| - p, 4
  {
    match ParseKid(t, p, depth, used, cap, obj)
    case Err(c, a) => Err(c, a)
    case Ok(k, p4) =>
      var p5 := SkipWs(t, p4);
      if p5 >= |t| then Err(Syntax, p5)
      else if t[p5] == COMMA then
        match ParseKids(t, p5 + 1, depth, used + Size(k), cap, obj)
        case Err(c, a) => Err(c, a)
        case Ok(ks, e) => Ok([k] + ks, e)
      else if t[p5] == Close(obj) then Ok([k], p5 + 1)
      else Err(Syntax, p5)
  }

  /** An accepted child list is a child, then either the rest after a comma or the bracket. */
  lemma KidsSplit(t: bytes, p: nat, d: nat, u: nat, c: nat, obj: bool, ks: seq<Tree>, e: nat)
    requires p <= |t| && ParseKids(t, p, d, u, c, obj) == Ok(ks, e)
    ensures ParseKid(t, p, d, u, c, obj).Ok? && |ks| > 0 && e <= |t|
    ensures var Ok(k, p4) := ParseKid(t, p, d, u, c, obj);
            var p5 := SkipWs(t, p4);
            && p5 < e && ks[0] == k
            && (if t[p5] == COMMA
                then ParseKids(t, p5 + 1, d, u + Size(k), c, obj) == Ok(ks[1..], e)
                else t[p5] == Close(obj) && ks == [k] && e == p5 + 1)
  {
    hide ParseKid, SkipWs, Size;
  }

  lemma KidsJoin(t: bytes, p: nat, d: nat, u: nat, c: nat, obj: bool, k: Tree, p4: nat, ks: seq<Tree>, e: nat)
    requires p <= |t| && ParseKid(t, p, d, u, c, obj) == Ok(k, p4)
    requires SkipWs(t, p4) < |t|
    requires var p5 := SkipWs(t, p4);
             if t[p5] == COMMA then ParseKids(t, p5 + 1, d, u + Size(k), c, obj) == Ok(ks, e)
             else t[p5] == Close(obj) && ks == [] && e == p5 + 1
    ensures ParseKids(t, p, d, u, c, obj) == Ok([k] + ks, e)
  {
    hide ParseKid, SkipWs, Size;
    assert [k] + [] == [k];
  }

  const INT_MAX: nat := 0x7FFF_FFFF

  /** A leading byte order mark is skipped. */
  function Start(t: bytes): nat {
    if |t| >= 3 && t[0] == 0xEF && t[1] == 0xBB && t[2] == 0xBF then 3 else 0
  }

  /** json_parse over a pool of cap nodes. */
  function ParseDoc(t: bytes, cap: nat): (r: Res<Tree>)
    ensures r.Err? ==> r.at <= |t|
  {
    if cap == 0 || |t| > INT_MAX then Err(Inval, 0) else
    match ParseValue(t, Start(t), 0, 0, cap)
    case Err(c, a) => Err(c, a)
    case Ok(v, p) =>
      var q := SkipWs(t, p);
      if q != |t| then Err(Trailing, q) else Ok(v, q)
  }
}
