/** Splitting a text into concatenated messages (split_at, wire_units, sms_concat_split in
    sms/src/sms_ud.c). */
module SmsSplit {
  import opened Basics
  import opened SmsPack
  import opened SmsText
  import opened SmsUserData

  const INT_MAX := 0x7FFF_FFFF

  // ---------- the division, on characters ----------

  /** How many leading characters fit into `room` wire units. */
  function Take(a: Alphabet, cs: seq<nat>, room: nat): (t: nat)
    requires AllHeld(a, cs)
    ensures t <= |cs|
    ensures |cs| > 0 && room >= 4 ==> t > 0
  {
    if cs == [] || |Code1(a, cs[0])| > room then 0
    else 1 + Take(a, cs[1..], room - |Code1(a, cs[0])|)
  }

  /** The parts of the split: each takes as many characters as fit. */
  function Greedy(a: Alphabet, cs: seq<nat>, budget: nat): (gs: seq<seq<nat>>)
    requires AllHeld(a, cs) && budget >= 4
    ensures Flat(gs) == cs
    ensures forall i :: 0 <= i < |gs| ==> AllHeld(a, gs[i])
    decreases |cs|
  {
    if cs == [] then [] else
    var t := Take(a, cs, budget);
    assert cs == cs[..t] + cs[t..];
    [cs[..t]] + Greedy(a, cs[t..], budget)
  }

  function Flat(gs: seq<seq<nat>>): seq<nat> {
    if gs == [] then [] else gs[0] + Flat(gs[1..])
  }

  lemma {:induction false} TakeFits(a: Alphabet, cs: seq<nat>, room: nat)
    requires AllHeld(a, cs)
    ensures |Code(a, cs[..Take(a, cs, room)])| <= room
    decreases |cs|
  {
    hide Code1, Holds;
    var t := Take(a, cs, room);
    if t > 0 {
      TakeFits(a, cs[1..], room - |Code1(a, cs[0])|);
      assert cs[..t][1..] == cs[1..][..t - 1];
    }
  }

  /** Any leading run that fits is within what Take takes. */
  lemma {:induction false} TakeMost(a: Alphabet, cs: seq<nat>, room: nat, k: nat)
    requires AllHeld(a, cs) && k <= |cs| && |Code(a, cs[..k])| <= room
    ensures k <= Take(a, cs, room)
    decreases k
  {
    hide Code1, Holds;
    if k > 0 {
      assert cs[..k][1..] == cs[1..][..k - 1];
      TakeMost(a, cs[1..], room - |Code1(a, cs[0])|, k - 1);
    }
  }

  lemma {:induction false} GreedyFits(a: Alphabet, cs: seq<nat>, budget: nat, i: nat)
    requires AllHeld(a, cs) && budget >= 4 && i < |Greedy(a, cs, budget)|
    ensures |Code(a, Greedy(a, cs, budget)[i])| <= budget
    decreases |cs|
  {
    hide Code, Take, Holds;
    var t := Take(a, cs, budget);
    TakeFits(a, cs, budget);
    if i > 0 { GreedyFits(a, cs[t..], budget, i - 1); }
  }

  /** Every part of a division fits the budget. */
  ghost predicate Division(a: Alphabet, cs: seq<nat>, budget: nat, gs: seq<seq<nat>>) {
    && Flat(gs) == cs
    && forall i :: 0 <= i < |gs| ==> AllHeld(a, gs[i]) && |Code(a, gs[i])| <= budget
  }

  lemma DivisionTail(a: Alphabet, cs: seq<nat>, budget: nat, gs: seq<seq<nat>>)
    requires Division(a, cs, budget, gs) && gs != []
    ensures |gs[0]| <= |cs| && cs[..|gs[0]|] == gs[0]
    ensures AllHeld(a, gs[0]) && |Code(a, gs[0])| <= budget
    ensures Division(a, cs[|gs[0]|..], budget, gs[1..])
  {
    hide Code, Holds;
    assert forall i :: 0 <= i < |gs[1..]| ==> gs[1..][i] == gs[i + 1];
    assert cs[|gs[0]|..] == Flat(gs[1..]);
  }

  /** No division into fewer parts fits: the greedy one started at or past k needs no more parts
      than any division of the whole. */
  lemma {:induction false} GreedyLeast(a: Alphabet, cs: seq<nat>, budget: nat, gs: seq<seq<nat>>, k: nat)
    requires AllHeld(a, cs) && budget >= 4 && k <= |cs| && Division(a, cs, budget, gs)
    ensures |Greedy(a, cs[k..], budget)| <= |gs|
    decreases |gs|
  {
    hide Code, Take, Holds, Flat, Division;
    if k < |cs| {
      DivisionSome(a, cs, budget, gs);
      DivisionTail(a, cs, budget, gs);
      var n := |gs[0]|;
      var tail := cs[n..];
      if k >= n {
        assert cs[k..] == tail[k - n..];
        GreedyLeast(a, tail, budget, gs[1..], k - n);
      } else {
        var xs := cs[k..];
        var t := Take(a, xs, budget);
        RestFits(a, gs[0], k, budget);
        assert xs[..n - k] == gs[0][k..];
        TakeMost(a, xs, budget, n - k);
        assert xs[t..] == tail[k + t - n..];
        GreedyLeast(a, tail, budget, gs[1..], k + t - n);
      }
    }
  }

  lemma DivisionSome(a: Alphabet, cs: seq<nat>, budget: nat, gs: seq<seq<nat>>)
    requires Division(a, cs, budget, gs) && cs != []
    ensures gs != []
  {
  }

  lemma RestFits(a: Alphabet, g: seq<nat>, k: nat, budget: nat)
    requires AllHeld(a, g) && |Code(a, g)| <= budget && k <= |g|
    ensures |Code(a, g[k..])| <= budget
  {
    hide Code, Holds;
    assert g == g[..k] + g[k..];
    CodeSplit(a, g[..k], g[k..]);
  }

  // ---------- the walk over the text ----------

  lemma CharAtReads(a: Alphabet, s: bytes, i: nat, c: nat)
    requires a != Reserved && Holds(a, c)
    requires i + |Text1(a, c)| <= |s| && s[i..i + |Text1(a, c)|] == Text1(a, c)
    ensures CharAt(a, s, i) == Ok(Chr(c, i + |Text1(a, c)|))
  {
    hide Next, Utf8, Gsm7;
    if a == EightBit {
      assert s[i] == s[i..i + 1][0];
    } else {
      NextReads(s, i, c);
    }
  }

  /** The characters of a text are the ones it was written from. */
  lemma {:induction false} CharsReads(a: Alphabet, s: bytes, i: nat, cs: seq<nat>)
    requires a != Reserved && AllHeld(a, cs) && i <= |s| && s[i..] == Text(a, cs)
    ensures Chars(a, s, i) == Ok(cs)
    decreases |cs|
  {
    hide CharAt, Text1, Holds;
    if cs != [] {
      var w := |Text1(a, cs[0])|;
      assert s[i..i + w] == s[i..][..w] == Text1(a, cs[0]);
      assert s[i + w..] == s[i..][w..] == Text(a, cs[1..]);
      CharAtReads(a, s, i, cs[0]);
      CharsReads(a, s, i + w, cs[1..]);
      assert [cs[0]] + cs[1..] == cs;
    }
  }

  /** How far from i the characters fit into `room` wire units. */
  function Reach(a: Alphabet, s: bytes, i: nat, room: nat): (r: Res<nat>)
    requires i <= |s|
    ensures r.Ok? ==> i <= r.val <= |s|
    decreases |s| - i
  {
    if i == |s| then Ok(i) else
    match CharAt(a, s, i)
    case Fail(e) => Fail(e)
    case Ok(x) =>
      if |Code1(a, x.cp)| > room then Ok(i) else Reach(a, s, x.next, room - |Code1(a, x.cp)|)
  }

  /** On a text of known characters the walk stops after those Take takes. */
  lemma {:induction false} ReachTakes(a: Alphabet, s: bytes, i: nat, cs: seq<nat>, room: nat)
    requires a != Reserved && AllHeld(a, cs) && i <= |s| && s[i..] == Text(a, cs)
    ensures var t := Take(a, cs, room);
            Reach(a, s, i, room) == Ok(i + |Text(a, cs[..t])|)
    decreases |cs|
  {
    hide CharAt, Text1, Code1, Holds;
    if cs != [] {
      var w, t := |Text1(a, cs[0])|, Take(a, cs, room);
      assert s[i..i + w] == s[i..][..w] == Text1(a, cs[0]);
      assert s[i + w..] == s[i..][w..] == Text(a, cs[1..]);
      CharAtReads(a, s, i, cs[0]);
      if t > 0 {
        ReachTakes(a, s, i + w, cs[1..], room - |Code1(a, cs[0])|);
        assert cs[..t][1..] == cs[1..][..t - 1] && cs[..t][0] == cs[0];
        ReachSplit(a, s, i, room);
        CodeHead(a, cs[..t]);
        hide Text, Reach, Code;
      }
    }
  }

  /** 8-bit data: the walk is a minimum. */
  lemma {:induction false} ReachOctets(s: bytes, i: nat, room: nat)
    requires i <= |s|
    ensures Reach(EightBit, s, i, room) == Ok(if |s| - i < room then |s| else i + room)
    decreases room
  {
    if i < |s| && room > 0 { ReachOctets(s, i + 1, room - 1); }
  }

  /** One unfolding of Reach. */
  lemma ReachSplit(a: Alphabet, s: bytes, i: nat, room: nat)
    requires i < |s|
    ensures Reach(a, s, i, room) ==
              match CharAt(a, s, i)
              case Fail(e) => Fail(e)
              case Ok(x) => if |Code1(a, x.cp)| > room then Ok(i) else Reach(a, s, x.next, room - |Code1(a, x.cp)|)
  {
    hide CharAt, Code1;
  }

  lemma ReachEnd(a: Alphabet, s: bytes, room: nat)
    ensures Reach(a, s, |s|, room) == Ok(|s|)
  {
  }

  /** split_at. */
  method SplitAt(s: bytes, from: nat, a: Alphabet, budget: nat) returns (r: Res<nat>)
    requires from <= |s| && a != Reserved
    ensures r == match Reach(a, s, from, budget)
                 case Fail(e) => Fail(e)
                 case Ok(j) => if j > from then Ok(j) else Fail(Length)
  {
    hide Next, Gsm7, Utf16, Reach;
    if a == EightBit {
      ReachOctets(s, from, budget);
      var take := if |s| - from < budget then |s| - from else budget;
      return if take > 0 then Ok(from + take) else Fail(Length);
    }
    var i, used := from, 0;
    while i < |s|
      invariant from <= i <= |s| && 0 <= used <= budget && (used > 0 <==> i > from)
      invariant Reach(a, s, from, budget) == Reach(a, s, i, budget - used)
      decreases |s| - i
    {
      ReachSplit(a, s, i, budget - used);
      var c := Next(s, i);
      if c.None? { return Fail(Inval); }
      var w;
      if a == Default {
        var g := Gsm7(c.value.cp);
        if g.None? { return Fail(Alphabet); }
        w := |g.value|;
      } else {
        w := if c.value.cp < 0x10000 then 2 else 4;
      }
      assert CharAt(a, s, i) == Ok(c.value) && w == |Code1(a, c.value.cp)|;
      if used + w > budget { break; }
      used := used + w;
      i := c.value.next;
    }
    ReachEnd(a, s, budget - used);
    return if used > 0 then Ok(i) else Fail(Length);
  }

  /** wire_units. */
  method WireUnits(s: bytes, a: Alphabet) returns (r: Res<nat>)
    requires a != Reserved
    ensures r == match Chars(a, s, 0)
                 case Fail(e) => Fail(e)
                 case Ok(cs) => if a != Default && |Code(a, cs)| > INT_MAX then Fail(Length) else Ok(|Code(a, cs)|)
  {
    hide Next, Utf16, Chars, Code;
    if a == Default {
      r := CountSeptets(s);
      return;
    }
    if a == EightBit {
      EightBitChars(s, 0);
      return if |s| > INT_MAX then Fail(Length) else Ok(|s|);
    }
    var i, k := 0, 0;
    ghost var done: seq<nat> := [];
    CodeEmpty(a, s);
    while i < |s|
      invariant Walked(a, s, i, done) && k == |Code(a, done)|
      decreases |s| - i
    {
      WalkStep(a, s, i, done);
      var c := Next(s, i);
      if c.None? { return Fail(Inval); }
      k := k + if c.value.cp < 0x10000 then 2 else 4;
      done := done + [c.value.cp];
      i := c.value.next;
    }
    WalkEnds(a, s, done);
    return if k > INT_MAX then Fail(Length) else Ok(k);
  }

  // ---------- the messages ----------

  datatype Part = Part(ud: Ud, seq_: nat, total: nat)

  /** Wire units left for text in a part with a concatenation header. */
  function Budget(a: Alphabet, ref16: bool): (b: nat)
    requires a != Reserved
    ensures b == match a case Default => (if ref16 then 152 else 153) case _ => (if ref16 then 133 else 134)
  {
    var h := if ref16 then 7 else 6;
    if a == Default then UD_MAX * 8 / 7 - SeptetOff(h) else UD_MAX - h
  }

  function Label(ref: nat, ref16: bool, total: nat, i: nat): (c: Concat)
    requires i < total <= 255
  {
    Concat(ref, total, i + 1, ref16)
  }

  function PartOf(a: Alphabet, g: seq<nat>, ref: nat, ref16: bool, total: nat, i: nat): Part
    requires AllHeld(a, g) && ref < 0x10000 && i < total <= 255
  {
    Part(UdOf(a, ConcatHeader(Label(ref, ref16, total, i), 7).val, Code(a, g)), i + 1, total)
  }

  /** The first n of the messages a division becomes. */
  function PartsOf(a: Alphabet, gs: seq<seq<nat>>, ref: nat, ref16: bool, n: nat): (ps: seq<Part>)
    requires n <= |gs| <= 255 && ref < 0x10000
    requires forall i :: 0 <= i < |gs| ==> AllHeld(a, gs[i])
    ensures |ps| == n
    ensures forall i :: 0 <= i < n ==> ps[i] == PartOf(a, gs[i], ref, ref16, |gs|, i)
  {
    if n == 0 then [] else PartsOf(a, gs, ref, ref16, n - 1) + [PartOf(a, gs[n - 1], ref, ref16, |gs|, n - 1)]
  }

  /** The division a walk from character k on follows. */
  ghost predicate AtPart(a: Alphabet, s: bytes, cs: seq<nat>, budget: nat, i: nat, k: nat, n: nat) {
    && AllHeld(a, cs) && budget >= 4 && a != Reserved
    && k <= |cs| && i <= |s| && s[i..] == Text(a, cs[k..])
    && n <= |Greedy(a, cs, budget)|
    && Greedy(a, cs, budget)[n..] == Greedy(a, cs[k..], budget)
  }

  /** The walk from i takes the characters of the next part. */
  lemma NextPart(a: Alphabet, s: bytes, i: nat, xs: seq<nat>, budget: nat)
    requires a != Reserved && AllHeld(a, xs) && budget >= 4 && i < |s| && s[i..] == Text(a, xs)
    ensures xs != []
    ensures var t := Take(a, xs, budget);
            var j := i + |Text(a, xs[..t])|;
            && Reach(a, s, i, budget) == Ok(j) && i < j <= |s|
            && s[i..j] == Text(a, xs[..t]) && s[j..] == Text(a, xs[t..])
  {
    hide Take, Text, Reach, Holds;
    TextSome(a, xs);
    var t := Take(a, xs, budget);
    ReachTakes(a, s, i, xs, budget);
    assert xs == xs[..t] + xs[t..];
    CodeSplit(a, xs[..t], xs[t..]);
    TextSome(a, xs[..t]);
    var j := i + |Text(a, xs[..t])|;
    assert s[i..j] == s[i..][..j - i];
    assert s[j..] == s[i..][j - i..];
  }

  /** One step of either walk: the same boundary, and the text of the next part between. */
  lemma PartStep(a: Alphabet, s: bytes, cs: seq<nat>, budget: nat, i: nat, k: nat, n: nat)
    requires AtPart(a, s, cs, budget, i, k, n) && i < |s|
    ensures n < |Greedy(a, cs, budget)| && Reach(a, s, i, budget).Ok?
    ensures var g, j := Greedy(a, cs, budget)[n], Reach(a, s, i, budget).val;
            && i < j <= |s| && s[i..j] == Text(a, g) && Chars(a, s[i..j], 0) == Ok(g)
            && k + |g| <= |cs| && AtPart(a, s, cs, budget, j, k + |g|, n + 1)
  {
    hide Take, Text, Reach, Chars, Holds, Greedy;
    var xs, gs := cs[k..], Greedy(a, cs, budget);
    NextPart(a, s, i, xs, budget);
    GreedySplit(a, xs, budget);
    var t := Take(a, xs, budget);
    var g, j := xs[..t], i + |Text(a, xs[..t])|;
    assert gs[n..][0] == g && gs[n..][1..] == Greedy(a, xs[t..], budget);
    assert gs[n + 1..] == gs[n..][1..];
    assert xs[t..] == cs[k + t..];
    assert s[i..j][0..] == s[i..j];
    CharsReads(a, s[i..j], 0, g);
  }

  lemma GreedySplit(a: Alphabet, cs: seq<nat>, budget: nat)
    requires AllHeld(a, cs) && budget >= 4 && cs != []
    ensures var t := Take(a, cs, budget);
            t > 0 && Greedy(a, cs, budget) == [cs[..t]] + Greedy(a, cs[t..], budget)
  {
    hide Take, Holds;
  }

  lemma TextSome(a: Alphabet, cs: seq<nat>)
    requires AllHeld(a, cs)
    ensures cs == [] <==> Text(a, cs) == []
  {
  }

  lemma PartEnds(a: Alphabet, s: bytes, cs: seq<nat>, budget: nat, k: nat, n: nat)
    requires AtPart(a, s, cs, budget, |s|, k, n)
    ensures n == |Greedy(a, cs, budget)|
  {
    hide Take, Text, Holds;
    TextSome(a, cs[k..]);
    assert Greedy(a, cs, budget)[n..] == [];
  }

  lemma PartStart(a: Alphabet, s: bytes, budget: nat)
    requires a != Reserved && Chars(a, s, 0).Ok? && budget >= 4
    ensures AtPart(a, s, Chars(a, s, 0).val, budget, 0, 0, 0)
  {
    hide Take, Text, Holds, Chars, Greedy;
    var cs := Chars(a, s, 0).val;
    CharsText(a, s, 0);
    assert cs[0..] == cs && Greedy(a, cs, budget)[0..] == Greedy(a, cs, budget);
  }

  /** The counting walk of sms_concat_split. */
  method CountParts(s: bytes, a: Alphabet, budget: nat, max: int) returns (r: Res<nat>)
    requires a != Reserved && Chars(a, s, 0).Ok? && budget >= 4 && max > 0
    ensures var n := |Greedy(a, Chars(a, s, 0).val, budget)|;
            r == if n > max || n > 255 then Fail(Length) else Ok(n)
  {
    hide AtPart, Chars, Greedy, Reach;
    var count, i := 0, 0;
    ghost var cs := Chars(a, s, 0).val;
    ghost var k := 0;
    PartStart(a, s, budget);
    while i < |s|
      invariant 0 <= i <= |s| && 0 <= k && 0 <= count <= max && count <= 255
      invariant AtPart(a, s, cs, budget, i, k, count)
      decreases |s| - i
    {
      PartStep(a, s, cs, budget, i, k, count);
      var end := SplitAt(s, i, a, budget);
      assert end.Ok?;
      k := k + |Greedy(a, cs, budget)[count]|;
      i := end.val;
      count := count + 1;
      if count > max || count > 255 { return Fail(Length); }
    }
    PartEnds(a, s, cs, budget, k, count);
    return Ok(count);
  }

  /** The building walk of sms_concat_split. */
  method BuildParts(s: bytes, a: Alphabet, budget: nat, ref: nat, ref16: bool, count: nat) returns (r: Res<seq<Part>>)
    requires a != Reserved && Chars(a, s, 0).Ok? && ref < 0x10000 && budget == Budget(a, ref16)
    requires count == |Greedy(a, Chars(a, s, 0).val, budget)| <= 255
    ensures r == Ok(PartsOf(a, Greedy(a, Chars(a, s, 0).val, budget), ref, ref16, count))
  {
    hide AtPart, Chars, Reach, PartOf, Code, Take, Holds, Text, Flat;
    var i, parts: seq<Part> := 0, [];
    ghost var cs := Chars(a, s, 0).val;
    ghost var gs, k := Greedy(a, cs, budget), 0;
    PartStart(a, s, budget);
    for part := 1 to count + 1
      invariant 0 <= i <= |s| && 0 <= k
      invariant AtPart(a, s, cs, budget, i, k, part - 1)
      invariant parts == PartsOf(a, gs, ref, ref16, part - 1)
    {
      PartsLeft(a, s, cs, budget, i, k, part - 1);
      PartStep(a, s, cs, budget, i, k, part - 1);
      var end := SplitAt(s, i, a, budget);
      assert end.Ok?;
      GreedyFits(a, cs, budget, part - 1);
      var p := BuildPart(s[i..end.val], a, gs[part - 1], ref, ref16, count, part);
      parts := parts + [p];
      k := k + |gs[part - 1]|;
      i := end.val;
    }
    return Ok(parts);
  }

  /** One message of the building walk. */
  method BuildPart(t: bytes, a: Alphabet, ghost g: seq<nat>, ref: nat, ref16: bool, count: nat, part: nat)
    returns (p: Part)
    requires a != Reserved && Chars(a, t, 0) == Ok(g) && |Code(a, g)| <= Budget(a, ref16)
    requires ref < 0x10000 && 1 <= part <= count <= 255
    ensures p == PartOf(a, g, ref, ref16, count, part - 1)
  {
    hide Chars, Code, Built, UdOf, Holds;
    var h := ConcatHeader(Label(ref, ref16, count, part - 1), 7);
    var ud := UdFrom(t, Some(a), h.val, UD_MAX);
    PartBuilt(a, t, g, ref, ref16, count, part - 1, ud);
    p := Part(ud.val, part, count);
  }

  lemma PartsLeft(a: Alphabet, s: bytes, cs: seq<nat>, budget: nat, i: nat, k: nat, n: nat)
    requires AtPart(a, s, cs, budget, i, k, n) && n < |Greedy(a, cs, budget)|
    ensures i < |s|
  {
    hide Take, Text, Holds;
    TextSome(a, cs[k..]);
  }

  /** A part within its budget builds, and as PartOf says. */
  lemma PartBuilt(a: Alphabet, t: bytes, g: seq<nat>, ref: nat, ref16: bool, total: nat, i: nat, r: Res<Ud>)
    requires a != Reserved && AllHeld(a, g) && Chars(a, t, 0) == Ok(g) && |Code(a, g)| <= Budget(a, ref16)
    requires i < total <= 255 && ref < 0x10000
    requires Built(a, t, ConcatHeader(Label(ref, ref16, total, i), 7).val, UD_MAX, r)
    ensures r.Ok? && Part(r.val, i + 1, total) == PartOf(a, g, ref, ref16, total, i)
  {
    hide Chars, Code, Packed, Holds;
  }

  /** What a split of a text with characters cs comes to. */
  function SplitOf(a: Alphabet, cs: seq<nat>, ref: nat, ref16: bool, max: int): Res<seq<Part>>
    requires a != Reserved && AllHeld(a, cs) && ref < 0x10000
  {
    var n := |Code(a, cs)|;
    if a != Default && n > INT_MAX then Fail(Length)
    else if Size(a, 0, n) <= UD_MAX then Ok([Part(UdOf(a, [], Code(a, cs)), 1, 1)])
    else
      var gs := Greedy(a, cs, Budget(a, ref16));
      if |gs| > max || |gs| > 255 then Fail(Length) else Ok(PartsOf(a, gs, ref, ref16, |gs|))
  }

  /** A text is refused only if no division into so many parts fits: when it is more than one
      message, it is split exactly if some division of it into at most max parts, and at most 255,
      fits the budget. */
  lemma SplitWhen(a: Alphabet, cs: seq<nat>, ref: nat, ref16: bool, max: int)
    requires a != Reserved && AllHeld(a, cs) && ref < 0x10000
    requires Size(a, 0, |Code(a, cs)|) > 140
    ensures SplitOf(a, cs, ref, ref16, max).Ok? <==>
            exists gs :: Division(a, cs, Budget(a, ref16), gs) && |gs| <= max && |gs| <= 255
  {
    var n, budget := |Code(a, cs)|, Budget(a, ref16);
    var gs := Greedy(a, cs, budget);
    assert SplitOf(a, cs, ref, ref16, max).Ok? <==> !(a != Default && n > INT_MAX) && |gs| <= max && |gs| <= 255 by {
      hide Code, PartsOf, Holds, Budget, Greedy, Size;
    }
    hide *;
    GreedyDivides(a, cs, budget);
    forall hs | Division(a, cs, budget, hs) ensures |gs| <= |hs| && n <= 153 * |hs| {
      assert cs[0..] == cs;
      GreedyLeast(a, cs, budget, hs, 0);
      DivisionSize(a, cs, budget, hs);
    }
  }

  lemma {:induction false} DivisionSize(a: Alphabet, cs: seq<nat>, budget: nat, gs: seq<seq<nat>>)
    requires AllHeld(a, cs) && budget <= 153 && Division(a, cs, budget, gs)
    ensures |Code(a, cs)| <= 153 * |gs|
    decreases |gs|
  {
    hide Code1, Holds, Text1;
    if gs != [] {
      DivisionTail(a, cs, budget, gs);
      var n := |gs[0]|;
      DivisionSize(a, cs[n..], budget, gs[1..]);
      CodeSplit(a, gs[0], cs[n..]);
      assert cs == gs[0] + cs[n..];
    }
  }

  lemma GreedyDivides(a: Alphabet, cs: seq<nat>, budget: nat)
    requires AllHeld(a, cs) && budget >= 4
    ensures Division(a, cs, budget, Greedy(a, cs, budget))
  {
    hide Code, Take, Holds;
    forall i | 0 <= i < |Greedy(a, cs, budget)| ensures |Code(a, Greedy(a, cs, budget)[i])| <= budget { GreedyFits(a, cs, budget, i); }
  }

  /** sms_concat_split. */
  method Split(s: bytes, want: Option<Alphabet>, ref: nat, ref16: bool, max: int) returns (r: Res<seq<Part>>)
    requires ref < 0x10000
    ensures max <= 0 ==> r == Fail(Inval)
    ensures max > 0 && Chosen(want, s) == Reserved ==> r == Fail(Alphabet)
    ensures max > 0 && Chosen(want, s) != Reserved ==>
              r == match Chars(Chosen(want, s), s, 0)
                   case Fail(e) => Fail(e)
                   case Ok(cs) => SplitOf(Chosen(want, s), cs, ref, ref16, max)
  {
    hide Chars, Code, Greedy, UdOf, PartsOf, Holds;
    if max <= 0 { return Fail(Inval); }
    var a: Alphabet;
    match want {
      case Some(x) => a := x;
      case None =>
        var n := CountSeptets(s);
        a := if n.Ok? then Default else Ucs2;
    }
    if a == Reserved { return Fail(Alphabet); }
    var units := WireUnits(s, a);
    if units.Fail? { return Fail(units.err); }
    var octets := if a == Default then (units.val * 7 + 7) / 8 else units.val;
    if octets <= UD_MAX {
      var one := UdFrom(s, Some(a), [], UD_MAX);
      return Ok([Part(one.val, 1, 1)]);
    }
    var budget := Budget(a, ref16);
    var count := CountParts(s, a, budget, max);
    if count.Fail? { return Fail(count.err); }
    r := BuildParts(s, a, budget, ref, ref16, count.val);
  }

  // ---------- what the receiver gets ----------

  /** The texts the parts show, in order; None if one of them does not decode. */
  function Received(ps: seq<Part>): Option<bytes> {
    if ps == [] then Some([]) else
    var p := ps[0];
    match (UdText(p.ud.dcs, p.total > 1, p.ud.octets, p.ud.udl), Received(ps[1..]))
    case (Ok(t), Some(rest)) => Some(t + rest)
    case _ => None
  }

  /** Part i of a long message: within 140 octets, carrying (ref, total, i + 1), and showing
      whole characters. */
  lemma PartReads(a: Alphabet, cs: seq<nat>, ref: nat, ref16: bool, i: nat)
    requires a != Reserved && AllHeld(a, cs) && ref < 0x10000
    requires i < |Greedy(a, cs, Budget(a, ref16))| <= 255
    ensures var gs := Greedy(a, cs, Budget(a, ref16));
            var p := PartOf(a, gs[i], ref, ref16, |gs|, i);
            && |p.ud.octets| <= UD_MAX
            && FindConcat(p.ud.octets, 1, HeaderLen(p.ud.octets))
               == Some(Concat(if ref16 then ref else ref % 256, |gs|, i + 1, ref16))
            && UdText(p.ud.dcs, true, p.ud.octets, p.ud.udl) == Ok(Text(a, gs[i]))
  {
    hide Greedy, Code, Text, UdText, FindConcat, Holds, UdOf;
    var gs := Greedy(a, cs, Budget(a, ref16));
    var c := Label(ref, ref16, |gs|, i);
    var h := ConcatHeader(c, 7).val;
    GreedyFits(a, cs, Budget(a, ref16), i);
    UdRoundTrip(a, h, gs[i]);
    ConcatRoundTrip(c, 7, UdOf(a, h, Code(a, gs[i])).octets);
  }

  lemma {:induction false} ReceivedText(ps: seq<Part>, a: Alphabet, gs: seq<seq<nat>>)
    requires |ps| == |gs| && forall i :: 0 <= i < |gs| ==> AllHeld(a, gs[i])
    requires forall i :: 0 <= i < |ps| ==>
               UdText(ps[i].ud.dcs, ps[i].total > 1, ps[i].ud.octets, ps[i].ud.udl) == Ok(Text(a, gs[i]))
    ensures AllHeld(a, Flat(gs)) && Received(ps) == Some(Text(a, Flat(gs)))
    decreases |ps|
  {
    hide UdText, Holds;
    if gs != [] {
      ReceivedText(ps[1..], a, gs[1..]);
      CodeSplit(a, gs[0], Flat(gs[1..]));
    }
  }

  /** Every accepted split: parts within 140 octets, numbered 1..n, that read back as the text,
      with no more parts than any division of the characters into parts of the same budget. */
  lemma SplitDelivers(s: bytes, a: Alphabet, ref: nat, ref16: bool, max: int)
    requires a != Reserved && ref < 0x10000 && Chars(a, s, 0).Ok? && max > 0
    requires SplitOf(a, Chars(a, s, 0).val, ref, ref16, max).Ok?
    ensures var ps := SplitOf(a, Chars(a, s, 0).val, ref, ref16, max).val;
            && 1 <= |ps| <= max && |ps| <= 255
            && Received(ps) == Some(s)
            && (forall i :: 0 <= i < |ps| ==>
                  |ps[i].ud.octets| <= UD_MAX && ps[i].seq_ == i + 1 && ps[i].total == |ps|)
            && (|ps| > 1 ==> forall i :: 0 <= i < |ps| ==>
                  FindConcat(ps[i].ud.octets, 1, HeaderLen(ps[i].ud.octets))
                  == Some(Concat(if ref16 then ref else ref % 256, |ps|, i + 1, ref16)))
            && (|ps| > 1 ==> forall gs | Division(a, Chars(a, s, 0).val, Budget(a, ref16), gs) ::
                  |ps| <= |gs|)
  {
    hide Greedy, Code, Text, UdText, FindConcat, Holds, UdOf, Chars, Division, PartOf, Received;
    var cs := Chars(a, s, 0).val;
    CharsText(a, s, 0);
    assert s[0..] == s;
    if Size(a, 0, |Code(a, cs)|) <= UD_MAX {
      OnePart(a, cs);
    } else {
      ManyParts(a, cs, ref, ref16);
      forall gs | Division(a, cs, Budget(a, ref16), gs)
        ensures |Greedy(a, cs, Budget(a, ref16))| <= |gs|
      {
        GreedyLeast(a, cs, Budget(a, ref16), gs, 0);
        assert cs[0..] == cs;
      }
    }
  }

  lemma OnePart(a: Alphabet, cs: seq<nat>)
    requires a != Reserved && AllHeld(a, cs) && Size(a, 0, |Code(a, cs)|) <= UD_MAX
    ensures var p := Part(UdOf(a, [], Code(a, cs)), 1, 1);
            |p.ud.octets| <= UD_MAX && Received([p]) == Some(Text(a, cs))
  {
    hide Code, Text, UdText, UdOf, Holds;
    UdRoundTrip(a, [], cs);
    assert [Part(UdOf(a, [], Code(a, cs)), 1, 1)][1..] == [];
    assert Text(a, cs) + [] == Text(a, cs);
  }

  lemma ManyParts(a: Alphabet, cs: seq<nat>, ref: nat, ref16: bool)
    requires a != Reserved && AllHeld(a, cs) && ref < 0x10000
    requires Size(a, 0, |Code(a, cs)|) > UD_MAX && |Greedy(a, cs, Budget(a, ref16))| <= 255
    ensures var gs := Greedy(a, cs, Budget(a, ref16));
            var ps := PartsOf(a, gs, ref, ref16, |gs|);
            && |gs| > 1 && Received(ps) == Some(Text(a, cs))
            && (forall i :: 0 <= i < |ps| ==>
                  |ps[i].ud.octets| <= UD_MAX && ps[i].seq_ == i + 1 && ps[i].total == |ps|)
            && (forall i :: 0 <= i < |ps| ==>
                  FindConcat(ps[i].ud.octets, 1, HeaderLen(ps[i].ud.octets))
                  == Some(Concat(if ref16 then ref else ref % 256, |ps|, i + 1, ref16)))
  {
    hide Greedy, Code, Text, UdText, FindConcat, Holds, UdOf, Received;
    var gs := Greedy(a, cs, Budget(a, ref16));
    var ps := PartsOf(a, gs, ref, ref16, |gs|);
    MoreThanOne(a, cs, ref16);
    forall i | 0 <= i < |ps|
      ensures |ps[i].ud.octets| <= UD_MAX
      ensures FindConcat(ps[i].ud.octets, 1, HeaderLen(ps[i].ud.octets))
              == Some(Concat(if ref16 then ref else ref % 256, |ps|, i + 1, ref16))
      ensures UdText(ps[i].ud.dcs, true, ps[i].ud.octets, ps[i].ud.udl) == Ok(Text(a, gs[i]))
    {
      PartReads(a, cs, ref, ref16, i);
    }
    ReceivedText(ps, a, gs);
  }

  /** A text too long for one message has at least two parts. */
  lemma MoreThanOne(a: Alphabet, cs: seq<nat>, ref16: bool)
    requires a != Reserved && AllHeld(a, cs) && Size(a, 0, |Code(a, cs)|) > UD_MAX
    ensures |Greedy(a, cs, Budget(a, ref16))| > 1
  {
    hide Greedy, Code, Holds;
    if |Greedy(a, cs, Budget(a, ref16))| <= 1 { AtMostOne(a, cs, Budget(a, ref16)); }
  }

  lemma AtMostOne(a: Alphabet, cs: seq<nat>, budget: nat)
    requires AllHeld(a, cs) && budget >= 4 && |Greedy(a, cs, budget)| <= 1
    ensures |Code(a, cs)| <= budget
  {
    hide Code, Holds, Take;
    var gs := Greedy(a, cs, budget);
    NoCode(a, cs);
    if |gs| == 1 {
      assert gs[1..] == [] && Flat(gs) == gs[0];
      GreedyFits(a, cs, budget, 0);
    }
  }

  lemma NoCode(a: Alphabet, cs: seq<nat>)
    requires AllHeld(a, cs)
    ensures cs == [] ==> Code(a, cs) == []
  {
  }
}
