/** The transmit queue as a history: what was asked, what was accepted and what became of it
    (net/src/txq.c). */
module TxqSpec {
  import opened Basics
  import opened BigEndian

  const BATCH := 64

  datatype Addr = V4(ip: nat, port: nat) | V6(ip: nat, port: nat)

  datatype Msg = Msg(to: Option<Addr>, data: bytes)

  /** A datagram as a socket of the family sends it: net_addr_map6 on a dual-stack socket. */
  function Form(v6: bool, m: Msg): Msg {
    if v6 && m.to.Some? && m.to.value.V4?
    then m.(to := Some(V6(0xFFFF_0000_0000 + m.to.value.ip, m.to.value.port))) else m
  }

  function Forms(v6: bool, ms: seq<Msg>): (r: seq<Msg>)
    ensures |r| == |ms| && forall i :: 0 <= i < |ms| ==> r[i] == Form(v6, ms[i])
  {
    seq(|ms|, i requires 0 <= i < |ms| => Form(v6, ms[i]))
  }

  /** Calls to send, those refused at once, the datagrams accepted, for a prefix of them whether
      the kernel took them (true) or refused them for good, and the datagrams it took. */
  datatype Hist = Hist(asked: nat, refused: nat, accepted: seq<Msg>, fate: seq<bool>, wire: seq<Msg>)

  predicate Ok(h: Hist) { |h.fate| <= |h.accepted| && h.asked == h.refused + |h.accepted| }

  function Pending(h: Hist): seq<Msg>
    requires Ok(h)
  {
    h.accepted[|h.fate|..]
  }

  function Count(f: seq<bool>, b: bool): nat {
    if f == [] then 0 else Count(f[..|f| - 1], b) + if f[|f| - 1] == b then 1 else 0
  }

  /** The datagrams of ms whose fate is true, in the order of ms. */
  function Picked(ms: seq<Msg>, f: seq<bool>): seq<Msg>
    requires |f| <= |ms|
  {
    if f == [] then []
    else Picked(ms, f[..|f| - 1]) + if f[|f| - 1] then [ms[|f| - 1]] else []
  }

  function Sent(h: Hist): nat { Count(h.fate, true) }

  function Dropped(h: Hist): nat { h.refused + Count(h.fate, false) }

  function Bytes(ms: seq<Msg>): nat {
    if ms == [] then 0 else |ms[0].data| + Bytes(ms[1..])
  }

  /** A dual-stack socket reaches an IPv4 peer at ::ffff:a.b.c.d, at its port and with its payload;
      other datagrams go as they are. */
  lemma MappedForm(v6: bool, m: Msg)
    requires m.to.Some? && m.to.value.V4? ==> m.to.value.ip < 0x1_0000_0000
    ensures var f := Form(v6, m);
            && f.data == m.data
            && if v6 && m.to.Some? && m.to.value.V4?
               then && f.to.Some? && f.to.value.V6? && f.to.value.port == m.to.value.port
                    && Spell(f.to.value.ip, 16) == [0, 0, 0, 0, 0, 0, 0, 0, 0, 0, 0xFF, 0xFF] + Spell(m.to.value.ip, 4)
               else f.to == m.to
  {
    if v6 && m.to.Some? && m.to.value.V4? {
      var ip := m.to.value.ip;
      var b := [0, 0, 0, 0, 0, 0, 0, 0, 0, 0, 0xFF, 0xFF] + Spell(ip, 4);
      Prefix();
      hide BE, Spell;
      assert Pow256(4) == 0x1_0000_0000;
      SpellLength(ip, 4);
      BEInverse(ip, 4);
      BEJoin([0, 0, 0, 0, 0, 0, 0, 0, 0, 0, 0xFF, 0xFF], Spell(ip, 4));
      SpellInverse(b);
    }
  }

  lemma Prefix()
    ensures BE([0, 0, 0, 0, 0, 0, 0, 0, 0, 0, 0xFF, 0xFF]) == 0xFFFF
  {
    BEJoin([0, 0, 0, 0, 0, 0, 0, 0, 0, 0], [0xFF, 0xFF]);
    NoughtsAre([0, 0, 0, 0, 0, 0, 0, 0, 0, 0]);
    assert [0xFF, 0xFF][..1] == [0xFF] && [0xFF][..0] == [];
    assert [0, 0, 0, 0, 0, 0, 0, 0, 0, 0] + [0xFF, 0xFF] == [0, 0, 0, 0, 0, 0, 0, 0, 0, 0, 0xFF, 0xFF];
  }

  lemma {:induction false} NoughtsAre(b: bytes)
    requires forall i :: 0 <= i < |b| ==> b[i] == 0
    ensures BE(b) == 0
    decreases |b|
  {
    if b != [] { NoughtsAre(b[..|b| - 1]); }
  }

  // ---------- the calls ----------

  /** net_txq_send with room for max payload bytes. */
  function SendStep(h: Hist, m: Msg, max: nat): (r: Hist)
    requires Ok(h)
    ensures Ok(r)
  {
    if Bytes(Pending(h)) + |m.data| > max then h.(asked := h.asked + 1, refused := h.refused + 1)
    else h.(asked := h.asked + 1, accepted := h.accepted + [m])
  }

  /** What one sendmmsg call may answer: it took datagrams, pushed back, or refused the head. An
      answer of 0 is one of the last two, by what errno holds. */
  datatype Answer = Took(more: nat) | Again | Refused

  function Batch(h: Hist): nat
    requires Ok(h)
  {
    if |Pending(h)| < BATCH then |Pending(h)| else BATCH
  }

  /** How many of a batch of k an answer takes: any nonempty prefix. */
  function Taken(a: Answer, k: nat): nat
    requires a.Took? && k > 0
  {
    if a.more < k then a.more + 1 else k
  }

  function Trues(n: nat): (r: seq<bool>)
    ensures |r| == n
  {
    if n == 0 then [] else Trues(n - 1) + [true]
  }

  /** One sendmmsg call: the history after it, and whether the flush stops there. A batch taken
      short stops it, as a push-back does. */
  function Round(h: Hist, a: Answer): (r: (Hist, bool))
    requires Ok(h) && Pending(h) != []
    ensures Ok(r.0) && r.0 == h.(fate := r.0.fate, wire := r.0.wire) && h.fate <= r.0.fate && h.wire <= r.0.wire
    ensures !r.1 ==> |Pending(r.0)| < |Pending(h)|
  {
    var k := Batch(h);
    match a
    case Again => (h, true)
    case Refused => (h.(fate := h.fate + [false]), false)
    case Took(_) =>
      var took := Taken(a, k);
      (h.(fate := h.fate + Trues(took), wire := h.wire + Pending(h)[..took]), took < k)
  }

  /** net_txq_flush against a kernel that answers ks: the history after it, and the number of
      sendmmsg calls. */
  function FlushStep(h: Hist, ks: seq<Answer>): (r: (Hist, nat))
    requires Ok(h) && |Pending(h)| <= |ks|
    ensures Ok(r.0) && r.0 == h.(fate := r.0.fate, wire := r.0.wire) && h.fate <= r.0.fate && h.wire <= r.0.wire
    decreases |Pending(h)|
  {
    if Pending(h) == [] then (h, 0) else
    var (h1, stop) := Round(h, ks[0]);
    if stop then (h1, 1) else
    var (h2, c) := FlushStep(h1, ks[1..]);
    (h2, c + 1)
  }

  /** A flush makes its calls in turn and stops only with the queue empty, or where the kernel pushed
      back or took a batch short: a head it refuses for good is dropped and the flush goes on. */
  lemma {:induction false} FlushEnds(h: Hist, ks: seq<Answer>)
    requires Ok(h) && |Pending(h)| <= |ks|
    ensures var (h', c) := FlushStep(h, ks);
            && c <= |ks| && (Pending(h') != [] ==> c > 0 && !ks[c - 1].Refused?)
            && (forall i :: 0 <= i < c - 1 ==> !ks[i].Again?)
            && ((forall i :: 0 <= i < |ks| ==> ks[i].Refused?) ==> Pending(h') == [] && h'.wire == h.wire)
    decreases |Pending(h)|
  {
    if Pending(h) != [] {
      var (h1, stop) := Round(h, ks[0]);
      if !stop {
        FlushEnds(h1, ks[1..]);
        var (h', c) := FlushStep(h1, ks[1..]);
        assert forall i :: 0 < i <= c ==> ks[i] == ks[1..][i - 1];
      }
    }
  }

  // ---------- what every run keeps ----------

  lemma {:induction false} CountAll(f: seq<bool>)
    ensures Count(f, true) + Count(f, false) == |f|
    decreases |f|
  {
    if f != [] { CountAll(f[..|f| - 1]); }
  }

  /** Every call to send is sent, dropped or pending. */
  lemma Conservation(h: Hist)
    requires Ok(h)
    ensures h.asked == Sent(h) + Dropped(h) + |Pending(h)|
  {
    CountAll(h.fate);
  }

  /** What the kernel took is what has the fate of being taken. */
  ghost predicate Wired(h: Hist)
    requires Ok(h)
  {
    h.wire == Picked(h.accepted, h.fate)
  }

  lemma {:induction false} PickedMore(ms: seq<Msg>, f: seq<bool>, m: Msg)
    requires |f| <= |ms|
    ensures Picked(ms + [m], f) == Picked(ms, f)
    decreases |f|
  {
    if f != [] { PickedMore(ms, f[..|f| - 1], m); }
  }

  lemma {:induction false} PickedTrues(ms: seq<Msg>, f: seq<bool>, n: nat)
    requires |f| + n <= |ms|
    ensures Picked(ms, f + Trues(n)) == Picked(ms, f) + ms[|f|..|f| + n]
    decreases n
  {
    if n == 0 {
      assert f + Trues(0) == f;
    } else {
      PickedTrues(ms, f, n - 1);
      assert (f + Trues(n))[..|f| + n - 1] == f + Trues(n - 1);
      assert ms[|f|..|f| + n] == ms[|f|..|f| + n - 1] + [ms[|f| + n - 1]];
    }
  }

  lemma WiredSend(h: Hist, m: Msg, max: nat)
    requires Ok(h) && Wired(h)
    ensures Wired(SendStep(h, m, max))
  {
    PickedMore(h.accepted, h.fate, m);
  }

  lemma WiredRound(h: Hist, a: Answer)
    requires Ok(h) && Pending(h) != [] && Wired(h)
    ensures Wired(Round(h, a).0)
  {
    match a {
      case Took(_) =>
        var took := Taken(a, Batch(h));
        PickedTrues(h.accepted, h.fate, took);
        assert Pending(h)[..took] == h.accepted[|h.fate|..|h.fate| + took];
      case Refused =>
        assert (h.fate + [false])[..|h.fate|] == h.fate;
      case Again =>
    }
  }

  lemma {:induction false} WiredFlush(h: Hist, ks: seq<Answer>)
    requires Ok(h) && |Pending(h)| <= |ks| && Wired(h)
    ensures Wired(FlushStep(h, ks).0)
    decreases |Pending(h)|
  {
    hide Picked;
    if Pending(h) != [] {
      WiredRound(h, ks[0]);
      var (h1, stop) := Round(h, ks[0]);
      if !stop { WiredFlush(h1, ks[1..]); }
    }
  }

  /** Picking keeps the order and leaves nothing out. */
  lemma {:induction false} PickedAt(ms: seq<Msg>, f: seq<bool>) returns (idx: seq<nat>)
    requires |f| <= |ms|
    ensures |idx| == |Picked(ms, f)| == Count(f, true)
    ensures forall i :: 0 <= i < |idx| ==> idx[i] < |f| && f[idx[i]] && Picked(ms, f)[i] == ms[idx[i]]
    ensures forall i, j :: 0 <= i < j < |idx| ==> idx[i] < idx[j]
    decreases |f|
  {
    if f == [] {
      idx := [];
    } else {
      var n := |f| - 1;
      PickedSnoc(ms, f);
      var was := PickedAt(ms, f[..n]);
      hide Picked, Count;
      idx := if f[n] then was + [n] else was;
    }
  }

  lemma PickedSnoc(ms: seq<Msg>, f: seq<bool>)
    requires 0 < |f| <= |ms|
    ensures var n := |f| - 1;
            && Picked(ms, f) == (if f[n] then Picked(ms, f[..n]) + [ms[n]] else Picked(ms, f[..n]))
            && Count(f, true) == Count(f[..n], true) + if f[n] then 1 else 0
  {
  }

  datatype Call = Send(m: Msg) | Flush(ks: seq<Answer>)

  /** One call on a queue of the given byte cap; a flush needs an answer for each datagram that
      may be tried. */
  ghost predicate Step(h: Hist, c: Call, max: nat, h': Hist) {
    Ok(h) && match c
    case Send(m) => h' == SendStep(h, m, max)
    case Flush(ks) => |Pending(h)| <= |ks| && h' == FlushStep(h, ks).0
  }

  ghost predicate StepAt(hs: seq<Hist>, cs: seq<Call>, max: nat, i: nat)
    requires |hs| == |cs| + 1 && i < |cs|
  {
    Step(hs[i], cs[i], max, hs[i + 1])
  }

  ghost predicate Run(hs: seq<Hist>, cs: seq<Call>, max: nat) {
    && |hs| == |cs| + 1 && hs[0] == Hist(0, 0, [], [], [])
    && forall i :: 0 <= i < |cs| ==> StepAt(hs, cs, max, i)
  }

  /** Sends among the first n calls. */
  function Sends(cs: seq<Call>, n: nat): nat
    requires n <= |cs|
  {
    if n == 0 then 0 else Sends(cs, n - 1) + if cs[n - 1].Send? then 1 else 0
  }

  lemma {:induction false} BytesSplit(a: seq<Msg>, b: seq<Msg>)
    ensures Bytes(a + b) == Bytes(a) + Bytes(b)
    decreases |a|
  {
    if a == [] {
      assert a + b == b;
    } else {
      assert (a + b)[1..] == a[1..] + b;
      BytesSplit(a[1..], b);
    }
  }

  /** A flush only takes datagrams off the front. */
  lemma FlushShrinks(h: Hist, ks: seq<Answer>)
    requires Ok(h) && |Pending(h)| <= |ks|
    ensures Bytes(Pending(FlushStep(h, ks).0)) <= Bytes(Pending(h))
  {
    var h' := FlushStep(h, ks).0;
    var gone := h.accepted[|h.fate|..|h'.fate|];
    assert Pending(h) == gone + Pending(h');
    BytesSplit(gone, Pending(h'));
  }

  /** What one call keeps. */
  lemma StepKeeps(h: Hist, c: Call, max: nat, h': Hist)
    requires Step(h, c, max, h') && Bytes(Pending(h)) <= max && Wired(h)
    ensures Ok(h') && Bytes(Pending(h')) <= max && Wired(h')
    ensures h'.asked == h.asked + if c.Send? then 1 else 0
    ensures h.accepted <= h'.accepted && h.fate <= h'.fate && h.wire <= h'.wire
  {
    hide Picked;
    match c {
      case Send(m) =>
        WiredSend(h, m, max);
        BytesSplit(Pending(h), [m]);
        assert (h.accepted + [m])[|h.fate|..] == Pending(h) + [m];
        assert [m][1..] == [];
      case Flush(ks) =>
        WiredFlush(h, ks);
        FlushShrinks(h, ks);
    }
  }

  /** In every reachable state: calls to send = sent + dropped + pending, nothing is decided
      twice or out of turn, and the payload waiting is within the cap. */
  lemma {:induction false} RunKeeps(hs: seq<Hist>, cs: seq<Call>, max: nat, n: nat)
    requires Run(hs, cs, max) && n <= |cs|
    ensures Ok(hs[n]) && Bytes(Pending(hs[n])) <= max && Wired(hs[n])
    ensures Sends(cs, n) == hs[n].asked == Sent(hs[n]) + Dropped(hs[n]) + |Pending(hs[n])|
    ensures n > 0 ==>
              hs[n - 1].accepted <= hs[n].accepted && hs[n - 1].fate <= hs[n].fate && hs[n - 1].wire <= hs[n].wire
    decreases n
  {
    hide Sent, Dropped, Step;
    if n > 0 {
      RunKeeps(hs, cs, max, n - 1);
      assert StepAt(hs, cs, max, n - 1);
      StepKeeps(hs[n - 1], cs[n - 1], max, hs[n]);
    }
    Conservation(hs[n]);
  }

  /** In every reachable state the datagrams the kernel has taken are an order-preserving
      subsequence of those accepted: at the places idx, all of them before the ones pending, and
      no datagram twice. */
  lemma InOrder(hs: seq<Hist>, cs: seq<Call>, max: nat, n: nat) returns (idx: seq<nat>)
    requires Run(hs, cs, max) && n <= |cs|
    ensures Ok(hs[n]) && |idx| == |hs[n].wire| == Sent(hs[n])
    ensures forall i :: 0 <= i < |idx| ==> idx[i] < |hs[n].fate| && hs[n].wire[i] == hs[n].accepted[idx[i]]
    ensures forall i, j :: 0 <= i < j < |idx| ==> idx[i] < idx[j]
  {
    RunKeeps(hs, cs, max, n);
    idx := PickedAt(hs[n].accepted, hs[n].fate);
  }

  /** A kernel that takes whole batches empties the queue in ceil(n / 64) calls. */
  lemma {:induction false} WholeBatches(h: Hist, ks: seq<Answer>)
    requires Ok(h) && |Pending(h)| <= |ks|
    requires forall i :: 0 <= i < |ks| ==> ks[i].Took? && ks[i].more >= 63
    ensures var (h', c) := FlushStep(h, ks);
            && Pending(h') == [] && c == (|Pending(h)| + 63) / 64
            && h'.fate == h.fate + Trues(|Pending(h)|) && h'.wire == h.wire + Pending(h)
    decreases |Pending(h)|
  {
    hide Trues;
    TruesNone();
    var k := Batch(h);
    if k > 0 {
      TruesLength(k);
      var next := h.(fate := h.fate + Trues(k), wire := h.wire + Pending(h)[..k]);
      assert Round(h, ks[0]) == (next, false);
      WholeBatches(next, ks[1..]);
      TruesSplit(k, |Pending(next)|);
      assert h.fate + Trues(k) + Trues(|Pending(next)|) == h.fate + (Trues(k) + Trues(|Pending(next)|));
      assert h.wire + Pending(h)[..k] + Pending(next) == h.wire + Pending(h);
    } else {
      assert h.fate + [] == h.fate && h.wire + [] == h.wire;
    }
  }

  lemma TruesNone()
    ensures Trues(0) == []
  {
  }

  lemma TruesLength(n: nat)
    ensures |Trues(n)| == n
  {
  }

  lemma {:induction false} TruesSplit(a: nat, b: nat)
    ensures Trues(a) + Trues(b) == Trues(a + b)
    decreases b
  {
    if b > 0 { TruesSplit(a, b - 1); }
  }
}

/** The loop's pre-poll hook list (net/src/loop.c). */
module PreHooks {
  import opened Basics

  /** The hooks that are set, in dispatch order. */
  function Live(pre: seq<Option<nat>>): seq<nat> {
    if pre == [] then [] else
    var rest := Live(pre[..|pre| - 1]);
    if pre[|pre| - 1].Some? then rest + [pre[|pre| - 1].value] else rest
  }

  lemma {:induction false} LiveSplit(a: seq<Option<nat>>, b: seq<Option<nat>>)
    ensures Live(a + b) == Live(a) + Live(b)
    decreases |b|
  {
    if b == [] {
      assert a + b == a;
    } else {
      assert (a + b)[..|a + b| - 1] == a + b[..|b| - 1];
      LiveSplit(a, b[..|b| - 1]);
    }
  }

  lemma {:induction false} LiveHas(pre: seq<Option<nat>>, x: nat)
    ensures x in Live(pre) <==> Some(x) in pre
    decreases |pre|
  {
    if pre != [] { LiveHas(pre[..|pre| - 1], x); }
  }

  /** Changing one slot changes the list at one place. */
  lemma LiveUpdate(pre: seq<Option<nat>>, i: nat, v: Option<nat>)
    requires i < |pre|
    ensures Live(pre) == Live(pre[..i]) + Opt(pre[i]) + Live(pre[i + 1..])
    ensures Live(pre[i := v]) == Live(pre[..i]) + Opt(v) + Live(pre[i + 1..])
  {
    LiveOne(pre, i);
    LiveOne(pre[i := v], i);
    assert pre[i := v][..i] == pre[..i] && pre[i := v][i + 1..] == pre[i + 1..];
  }

  lemma LiveOne(pre: seq<Option<nat>>, i: nat)
    requires i < |pre|
    ensures Live(pre) == Live(pre[..i]) + Opt(pre[i]) + Live(pre[i + 1..])
  {
    hide Live;
    assert pre == pre[..i] + [pre[i]] + pre[i + 1..];
    LiveSplit(pre[..i] + [pre[i]], pre[i + 1..]);
    LiveSplit(pre[..i], [pre[i]]);
    LiveSingle(pre[i]);
  }

  lemma LiveSingle(v: Option<nat>)
    ensures Live([v]) == Opt(v)
  {
    var one: seq<Option<nat>> := [v];
    assert one[..0] == [];
  }

  function Opt(v: Option<nat>): seq<nat> { if v.Some? then [v.value] else [] }

  ghost predicate Distinct(s: seq<nat>) {
    forall i, j :: 0 <= i < j < |s| ==> s[i] != s[j]
  }

  /** t is s with x put in somewhere. */
  ghost predicate Inserted(s: seq<nat>, x: nat, t: seq<nat>) {
    exists k :: 0 <= k <= |s| && t == s[..k] + [x] + s[k..]
  }

  class Hooks {
    var pre: seq<Option<nat>>
    var gaps: bool

    ghost predicate Valid()
      reads this
    {
      Distinct(Live(pre)) && (None in pre ==> gaps)
    }

    ghost predicate Has(x: nat)
      reads this
    {
      x in Live(pre)
    }

    constructor ()
      ensures Valid() && Live(pre) == []
    {
      pre, gaps := [], false;
    }

    /** net_loop_pre_add: no hook twice; a dropped slot is reused. */
    method Add(x: nat)
      requires Valid()
      modifies this
      ensures Valid() && Has(x)
      ensures if x in old(Live(pre)) then Live(pre) == old(Live(pre)) else Inserted(old(Live(pre)), x, Live(pre))
      ensures forall y :: y != x ==> (Has(y) <==> old(Has(y)))
    {
      LiveHas(pre, x);
      for i := 0 to |pre|
        invariant forall k :: 0 <= k < i ==> pre[k] != Some(x)
      {
        if pre[i] == Some(x) { return; }
      }
      ghost var was := Live(pre);
      for i := 0 to |pre|
        invariant pre == old(pre) && gaps == old(gaps)
        invariant forall k :: 0 <= k < i ==> pre[k].Some?
      {
        if pre[i].None? {
          LiveUpdate(pre, i, Some(x));
          Insert(was, Live(pre[..i]), x, Live(pre[i + 1..]));
          pre := pre[i := Some(x)];
          return;
        }
      }
      LiveSplit(pre, [Some(x)]);
      LiveSingle(Some(x));
      Insert(was, was, x, []);
      pre := pre + [Some(x)];
    }

    /** net_loop_pre_del: the slot is cleared and left for the compaction. */
    method Del(x: nat) returns (found: bool)
      requires Valid()
      modifies this
      ensures Valid() && !Has(x) && found == old(Has(x))
      ensures !found ==> Live(pre) == old(Live(pre))
      ensures found ==> Inserted(Live(pre), x, old(Live(pre)))
      ensures forall y :: y != x ==> (Has(y) <==> old(Has(y)))
    {
      hide Live;
      LiveHas(pre, x);
      for i := 0 to |pre|
        invariant pre == old(pre) && gaps == old(gaps)
        invariant forall k :: 0 <= k < i ==> pre[k] != Some(x)
      {
        if pre[i] == Some(x) {
          LiveUpdate(pre, i, None);
          Remove(Live(pre[..i]), x, Live(pre[i + 1..]));
          assert Live(pre[..i]) + [] + Live(pre[i + 1..]) == Live(pre[..i]) + Live(pre[i + 1..]);
          pre := pre[i := None];
          gaps := true;
          return true;
        }
      }
      return false;
    }

    /** pre_compact: the gaps go, the order stays. */
    method Compact()
      requires Valid()
      modifies this
      ensures Valid() && !gaps && None !in pre && Live(pre) == old(Live(pre))
    {
      hide Live, Distinct;
      LiveNone();
      var w := 0;
      var p := pre;
      for i := 0 to |pre|
        invariant pre == old(pre) && |p| == |pre| && 0 <= w <= i && p[i..] == pre[i..]
        invariant Live(p[..w]) == Live(pre[..i]) && None !in p[..w]
      {
        LiveSnoc(pre, i);
        assert p[i] == p[i..][0] == pre[i];
        if p[i].Some? {
          var q := p[w := p[i]];
          assert q[..w] == p[..w];
          LiveSnoc(q, w);
          assert q[..w + 1] == q[..w] + [p[i]];
          assert q[i + 1..] == p[i..][1..] == pre[i..][1..] == pre[i + 1..];
          p, w := q, w + 1;
        } else {
          assert p[i + 1..] == p[i..][1..] == pre[i..][1..] == pre[i + 1..];
        }
      }
      assert pre[..|p|] == pre;
      pre, gaps := p[..w], false;
    }
  }

  lemma LiveNone()
    ensures Live([]) == []
  {
  }

  lemma LiveSnoc(p: seq<Option<nat>>, i: nat)
    requires i < |p|
    ensures Live(p[..i + 1]) == Live(p[..i]) + Opt(p[i])
  {
    assert p[..i + 1][..i] == p[..i];
  }

  lemma Insert(s: seq<nat>, a: seq<nat>, x: nat, b: seq<nat>)
    requires s == a + b && Distinct(s) && x !in s
    ensures Inserted(s, x, a + [x] + b) && Distinct(a + [x] + b)
  {
    assert s[..|a|] == a && s[|a|..] == b;
    forall i, j | 0 <= i < j < |a + [x] + b| ensures (a + [x] + b)[i] != (a + [x] + b)[j] {
      var i', j' := if i > |a| then i - 1 else i, if j > |a| then j - 1 else j;
      if i != |a| && j != |a| { assert s[i'] != s[j']; }
      if i == |a| { assert s[j'] in s; }
      if j == |a| { assert s[i'] in s; }
    }
  }

  lemma Remove(a: seq<nat>, x: nat, b: seq<nat>)
    requires Distinct(a + [x] + b)
    ensures Distinct(a + b) && x !in a + b && Inserted(a + b, x, a + [x] + b)
  {
    var t := a + [x] + b;
    assert (a + b)[..|a|] == a && (a + b)[|a|..] == b;
    forall i | 0 <= i < |a + b| ensures (a + b)[i] != x {
      assert t[|a|] == x && t[if i < |a| then i else i + 1] == (a + b)[i];
    }
    forall i, j | 0 <= i < j < |a + b| ensures (a + b)[i] != (a + b)[j] {
      assert t[if i < |a| then i else i + 1] != t[if j < |a| then j else j + 1];
    }
  }
}

/** The queue as the code keeps it: a growable ring, counters, and the loop's flush hook. */
module Txq {
  import opened Arith
  import opened Basics
  import opened TxqSpec
  import opened PreHooks

  const MAX_BYTES := 8 * 1024 * 1024

  /** Place i of a ring that starts at head. */
  function At(head: nat, i: nat, cap: nat): (k: nat)
    requires head < cap && i < cap
    ensures k < cap && k == if head + i < cap then head + i else head + i - cap
  {
    WrapOnce(head + i, cap);
    (head + i) % cap
  }

  lemma WrapOnce(x: nat, c: nat)
    requires c > 0 && x < 2 * c
    ensures x % c == if x < c then x else x - c
  {
    if x < c { DivModUnique(x, c, 0, x); } else { DivModUnique(x, c, 1, x - c); }
  }

  /** The n datagrams of a ring, oldest first. */
  function Ring(a: seq<Msg>, head: nat, n: nat): (r: seq<Msg>)
    requires head < |a| && n <= |a|
    ensures |r| == n
    ensures forall i :: 0 <= i < n ==> r[i] == a[At(head, i, |a|)]
  {
    seq(n, i requires 0 <= i < n => a[At(head, i, |a|)])
  }

  lemma RingPush(a: seq<Msg>, head: nat, n: nat, m: Msg)
    requires head < |a| && n < |a|
    ensures Ring(a[At(head, n, |a|) := m], head, n + 1) == Ring(a, head, n) + [m]
  {
    hide At;
    AtDistinct(head, n, |a|);
  }

  lemma AtDistinct(head: nat, n: nat, cap: nat)
    requires head < cap && n < cap
    ensures forall i :: 0 <= i < n ==> At(head, i, cap) != At(head, n, cap)
    ensures At(head, n, cap) < cap
  {
    forall i | 0 <= i < n ensures At(head, i, cap) != At(head, n, cap) {
      var x, y := At(head, i, cap), At(head, n, cap);
    }
  }

  lemma RingPop(a: seq<Msg>, head: nat, n: nat, k: nat)
    requires head < |a| && k <= n <= |a|
    ensures (head + k) % |a| < |a| && Ring(a, (head + k) % |a|, n - k) == Ring(a, head, n)[k..]
  {
    WrapOnce(head + k, |a|);
  }

  class Queue {
    var l: Hooks?
    const id: nat
    var wrArmed: bool
    var retry: bool
    var q: array<Msg>
    var head: nat
    var n: nat
    var bytes: nat
    const max: nat
    var sent: nat
    var calls: nat
    var dropped: nat
    var blocked: nat
    const v6: bool
    /** What the socket has taken. */
    var wire: seq<Msg>
    ghost var hist: Hist

    /** The ring is the accepted suffix, and the counters are those of the history. */
    ghost predicate Core()
      reads this, q
    {
      && head < q.Length && n <= q.Length && Ok(hist)
      && Ring(q[..], head, n) == Pending(hist)
      && bytes == Bytes(Pending(hist)) <= max
      && sent == Sent(hist) && dropped == Dropped(hist)
      && Wired(hist) && wire == Forms(v6, hist.wire)
    }

    /** While attached, the flush hook is registered exactly when something is queued. */
    ghost predicate Valid()
      reads this, q, l
    {
      && Core() && (wrArmed ==> n > 0 && l != null)
      && (l != null ==> l.Valid() && (l.Has(id) <==> n > 0))
    }

    /** net_txq_new. */
    constructor (loop: Hooks, hook: nat, maxBytes: nat, dual: bool)
      requires loop.Valid() && !loop.Has(hook)
      ensures Valid() && fresh(q) && l == loop && id == hook && v6 == dual && hist == Hist(0, 0, [], [], []) && wire == []
      ensures max == if maxBytes == 0 then 0x80_0000 else maxBytes
    {
      hide Live, Count, Bytes, Picked, Forms;
      l, id, wrArmed, retry := loop, hook, false, false;
      q := new Msg[BATCH](_ => Msg(None, []));
      head, n, bytes := 0, 0, 0;
      max := if maxBytes > 0 then maxBytes else MAX_BYTES;
      sent, calls, dropped, blocked := 0, 0, 0, 0;
      v6, wire := dual, [];
      hist := Hist(0, 0, [], [], []);
      new;
      FreshHist(hist, v6);
    }

    /** net_txq_detach. */
    method Detach()
      requires Valid()
      modifies this`l, this`wrArmed, this`retry
      ensures Valid() && l == null
    {
      l, wrArmed, retry := null, false, false;
    }

    /** grow: twice the slots, head moved to 0. */
    method Grow()
      requires Core()
      modifies this`q, this`head
      ensures Core() && fresh(q) && q.Length == 2 * old(q.Length)
    {
      hide Bytes, Count, Picked, Forms;
      ghost var was := Ring(q[..], head, n);
      var cap := q.Length * 2;
      var nq := new Msg[cap](_ => Msg(None, []));
      for i := 0 to n
        invariant q == old(q) && q[..] == old(q[..]) && fresh(nq) && head == old(head)
        invariant forall k :: 0 <= k < i ==> nq[k] == was[k]
      {
        RingAt(q[..], head, n);
        nq[i] := q[At(head, i, q.Length)];
      }
      q := nq;
      head := 0;
      assert Ring(q[..], head, n) == was;
    }

    /** net_txq_send. */
    method Send(m: Msg) returns (ok: bool)
      requires Valid()
      modifies this, q, l
      ensures Valid() && l == old(l)
      ensures q != old(q) ==> fresh(q)
      ensures hist == SendStep(old(hist), m, max)
      ensures ok <==> old(bytes) + |m.data| <= max
      ensures sent == old(sent) && calls == old(calls) && blocked == old(blocked)
      ensures l != null ==> forall y :: y != id ==> (l.Has(y) <==> old(l != null && l.Has(y)))
    {
      hide Count, Bytes, Ring, Live, Picked;
      WiredSend(hist, m, max);
      if bytes + |m.data| > max {
        dropped := dropped + 1;
        hist := SendStep(hist, m, max);
        return false;
      }
      if n == q.Length { Grow(); }
      if n == 0 && l != null { l.Add(id); }
      Store(m);
      return true;
    }

    /** The datagram goes into the slot past the last. */
    method Store(m: Msg)
      requires Core() && n < q.Length && bytes + |m.data| <= max
      modifies this`n, this`bytes, this`hist, q
      ensures Core() && n == old(n) + 1 && hist == SendStep(old(hist), m, max)
    {
      hide Count, Bytes, Ring, At, Picked;
      WiredSend(hist, m, max);
      ghost var a := q[..];
      RingPush(a, head, n, m);
      AtDistinct(head, n, q.Length);
      q[At(head, n, q.Length)] := m;
      assert q[..] == a[At(head, n, |a|) := m];
      PendingPush(hist, m, max);
      n := n + 1;
      bytes := bytes + |m.data|;
      hist := SendStep(hist, m, max);
    }

    /** pop: k datagrams off the front, whose fate is f. */
    method Pop(k: nat, ghost f: seq<bool>)
      requires head < q.Length && k <= n <= q.Length && Ok(hist) && |f| == k
      requires Ring(q[..], head, n) == Pending(hist) && bytes == Bytes(Pending(hist)) <= max
      modifies this`bytes, this`head, this`n, this`hist
      ensures head < q.Length && n == old(n) - k && hist == old(hist).(fate := old(hist).fate + f) && Ok(hist)
      ensures Ring(q[..], head, n) == Pending(hist) && bytes == Bytes(Pending(hist)) <= max
    {
      hide Bytes, At, Ring;
      ghost var ms := Pending(hist);
      RingAt(q[..], head, n);
      for i := 0 to k
        invariant bytes == Bytes(ms[i..])
        invariant unchanged(this`head) && unchanged(this`n) && unchanged(this`hist)
      {
        BytesFirst(ms[i..]);
        assert ms[i..][1..] == ms[i + 1..];
        bytes := bytes - |q[At(head, i, q.Length)].data|;
      }
      RingPop(q[..], head, n, k);
      BytesMore(ms, k);
      head := (head + k) % q.Length;
      n := n - k;
      hist := hist.(fate := hist.fate + f);
      assert Pending(hist) == ms[k..];
    }

    /** arm_wr; whether the loop accepts the new interest is up to it. */
    method ArmWr(modOk: bool)
      requires n > 0
      modifies this`wrArmed, this`retry
      ensures wrArmed ==> old(wrArmed) || l != null
    {
      if l == null || wrArmed { return; }
      if modOk {
        wrArmed := true;
        return;
      }
      if !retry { retry := true; }
    }

    /** The batch of the flush loop: the first k of the ring, addressed for the socket. */
    method Gather(k: nat) returns (mm: seq<Msg>)
      requires Core() && k <= n
      ensures mm == Forms(v6, Pending(hist)[..k])
    {
      hide Count, Bytes, Ring, Picked, At, Form;
      RingAt(q[..], head, n);
      ghost var ms := Pending(hist);
      mm := [];
      for i := 0 to k
        invariant mm == Forms(v6, ms[..i])
      {
        mm := mm + [Form(v6, q[At(head, i, q.Length)])];
      }
    }

    /** sendmmsg, answering r: a nonempty prefix of the batch goes out, or nothing does. */
    method Sendmmsg(mm: seq<Msg>, r: Answer) returns (took: nat)
      requires mm != []
      modifies this`wire
      ensures took == if r.Took? then Taken(r, |mm|) else 0
      ensures wire == old(wire) + mm[..took]
    {
      took := if r.Took? then Taken(r, |mm|) else 0;
      wire := wire + mm[..took];
    }

    method Transmit(k: nat, r: Answer) returns (took: nat)
      requires Core() && 0 < k <= n
      modifies this`wire
      ensures took == if r.Took? then Taken(r, k) else 0
      ensures wire == Forms(v6, hist.wire + Pending(hist)[..took]) && (took == 0 ==> wire == old(wire))
    {
      hide Count, Bytes, Ring, Picked, Forms, Trues;
      RingAt(q[..], head, n);
      ghost var ms := Pending(hist);
      var mm := Gather(k);
      FormsPrefix(v6, hist.wire, ms[..k], if r.Took? then Taken(r, k) else 0);
      took := Sendmmsg(mm, r);
      assert ms[..k][..took] == ms[..took];
      assert took == 0 ==> mm[..took] == [];
    }

    /** The datagrams the socket has just taken leave the ring. */
    method Advance(took: nat)
      requires head < q.Length && took <= n <= q.Length && Ok(hist)
      requires Ring(q[..], head, n) == Pending(hist) && bytes == Bytes(Pending(hist)) <= max
      requires sent == Sent(hist) && dropped == Dropped(hist)
      requires Wired(hist) && wire == Forms(v6, hist.wire + Pending(hist)[..took])
      modifies this`bytes, this`head, this`n, this`hist, this`sent
      ensures Core() && sent == old(sent) + took && n == old(n) - took
      ensures hist == old(hist.(fate := hist.fate + Trues(took), wire := hist.wire + Pending(hist)[..took]))
    {
      hide Count, Bytes, Ring, Picked, Forms, Trues;
      CountTrues(hist.fate, took);
      TruesLength(took);
      PickedTrues(hist.accepted, hist.fate, took);
      assert Pending(hist)[..took] == hist.accepted[|hist.fate|..|hist.fate| + took];
      sent := sent + took;
      hist := hist.(wire := hist.wire + Pending(hist)[..took]);
      Pop(took, Trues(took));
    }

    /** The head is undeliverable. */
    method Drop()
      requires Core() && n > 0
      modifies this`bytes, this`head, this`n, this`hist, this`dropped
      ensures Core() && n == old(n) - 1 && hist == old(hist.(fate := hist.fate + [false]))
    {
      hide Count, Bytes, Ring, Picked, Forms;
      CountOne(hist.fate);
      WiredRound(hist, Refused);
      dropped := dropped + 1;
      Pop(1, [false]);
    }

    /** One turn of the flush loop, on the answer of one sendmmsg call. */
    method Turn(r: Answer, modOk: bool) returns (took: nat, stop: bool)
      requires Core() && n > 0
      modifies this`bytes, this`head, this`n, this`hist, this`wire, this`sent, this`calls, this`dropped, this`blocked, this`wrArmed, this`retry
      ensures Core() && (hist, stop) == Round(old(hist), r)
      ensures sent == old(sent) + took && calls == old(calls) + 1
      ensures stop ==> n > 0
      ensures wrArmed ==> old(wrArmed) || l != null
    {
      hide Count, Bytes, Ring, Picked, Forms, Trues;
      RingAt(q[..], head, n);
      var k := if n < BATCH then n else BATCH;
      took := Transmit(k, r);
      calls, stop := calls + 1, false;
      match r {
        case Took(_) =>
          Advance(took);
          if took < k {
            blocked := blocked + 1;
            ArmWr(modOk);
            stop := true;
          }
        case Again =>
          blocked := blocked + 1;
          ArmWr(modOk);
          stop := true;
        case Refused =>
          Drop();
      }
    }

    /** net_txq_flush, against a kernel that answers ks. What goes out is the oldest part of what
        was pending, less the datagrams refused. */
    method Flush(ks: seq<Answer>, modOk: bool) returns (total: nat)
      requires Valid() && |Pending(hist)| <= |ks|
      modifies this, l
      ensures Valid() && l == old(l) && q == old(q)
      ensures hist == FlushStep(old(hist), ks).0 && calls == old(calls) + FlushStep(old(hist), ks).1
      ensures total == sent - old(sent)
      ensures l != null ==> forall y :: y != id ==> (l.Has(y) <==> old(l != null && l.Has(y)))
    {
      hide Count, Bytes, Ring, Live, FlushStep, Round;
      total := 0;
      var c := 0;
      PendingIs();
      FlushStart(hist, ks);
      while n > 0
        invariant Core() && l == old(l) && q == old(q) && (l != null ==> unchanged(l))
        invariant n <= old(n) && 0 <= c && n == |Pending(hist)|
        invariant FlushFrom(old(hist), ks, c, hist, calls - old(calls))
        invariant total == sent - old(sent) && (wrArmed ==> l != null)
        decreases n
      {
        FlushMore(old(hist), ks, c, hist, calls - old(calls));
        var took, stop := Turn(ks[c], modOk);
        PendingIs();
        total, c := total + took, c + 1;
        if stop { return; }
      }
      FlushDone(old(hist), ks, c, hist, calls - old(calls));
      if l != null && wrArmed { wrArmed := false; }
      if l != null { var _ := l.Del(id); }
    }

    /** retry_tramp: the fallback timer fired. */
    method Retry(ks: seq<Answer>, modOk: bool)
      requires Valid() && |Pending(hist)| <= |ks|
      modifies this, l
      ensures Valid() && l == old(l) && q == old(q)
      ensures hist == FlushStep(old(hist), ks).0 && calls == old(calls) + FlushStep(old(hist), ks).1
    {
      retry := false;
      var _ := Flush(ks, modOk);
    }

    lemma PendingIs()
      requires Core()
      ensures n == |Pending(hist)|
    {
    }
  }

  lemma FreshHist(h: Hist, v6: bool)
    requires h.refused == 0 && h.accepted == [] && h.fate == [] && h.wire == []
    ensures Ok(h) ==> Sent(h) == Dropped(h) == Bytes(Pending(h)) == 0 && Wired(h)
    ensures Forms(v6, h.wire) == []
  {
  }

  lemma FormsPrefix(v6: bool, a: seq<Msg>, b: seq<Msg>, k: nat)
    requires k <= |b|
    ensures |Forms(v6, b)| == |b| && Forms(v6, a) + Forms(v6, b)[..k] == Forms(v6, a + b[..k])
  {
    hide Form;
  }

  /** What is left of a flush that has made c calls. */
  ghost predicate FlushFrom(h0: Hist, ks: seq<Answer>, c: nat, h: Hist, made: int) {
    && c <= |ks| && Ok(h0) && Ok(h) && |Pending(h0)| <= |ks| && |Pending(h)| <= |ks| - c
    && FlushStep(h0, ks).0 == FlushStep(h, ks[c..]).0
    && FlushStep(h0, ks).1 == made + FlushStep(h, ks[c..]).1
  }

  lemma FlushStart(h: Hist, ks: seq<Answer>)
    requires Ok(h) && |Pending(h)| <= |ks|
    ensures FlushFrom(h, ks, 0, h, 0)
  {
    assert ks[0..] == ks;
  }

  /** One more call. */
  lemma FlushMore(h0: Hist, ks: seq<Answer>, c: nat, h: Hist, made: int)
    requires FlushFrom(h0, ks, c, h, made) && Pending(h) != []
    ensures c < |ks|
    ensures var (h1, stop) := Round(h, ks[c]);
            if stop then FlushStep(h0, ks) == (h1, made + 1)
            else FlushFrom(h0, ks, c + 1, h1, made + 1) && |Pending(h1)| < |Pending(h)|
  {
    hide Round;
    var rest := ks[c..];
    assert rest[0] == ks[c] && rest[1..] == ks[c + 1..];
    RoundFacts(h, ks[c]);
  }

  lemma RoundFacts(h: Hist, a: Answer)
    requires Ok(h) && Pending(h) != []
    ensures Ok(Round(h, a).0)
    ensures !Round(h, a).1 ==> |Pending(Round(h, a).0)| < |Pending(h)|
  {
  }

  lemma FlushDone(h0: Hist, ks: seq<Answer>, c: nat, h: Hist, made: int)
    requires FlushFrom(h0, ks, c, h, made) && Pending(h) == []
    ensures FlushStep(h0, ks) == (h, made)
  {
  }

  lemma PendingPush(h: Hist, m: Msg, max: nat)
    requires Ok(h) && Bytes(Pending(h)) + |m.data| <= max
    ensures var h' := SendStep(h, m, max);
            Pending(h') == Pending(h) + [m] && Bytes(Pending(h')) == Bytes(Pending(h)) + |m.data|
  {
    BytesSplit(Pending(h), [m]);
    assert (h.accepted + [m])[|h.fate|..] == Pending(h) + [m];
    assert [m][1..] == [];
  }

  lemma RingAt(a: seq<Msg>, head: nat, n: nat)
    requires head < |a| && n <= |a|
    ensures forall i :: 0 <= i < n ==> Ring(a, head, n)[i] == a[At(head, i, |a|)]
    ensures |Ring(a, head, n)| == n
  {
  }

  lemma BytesFirst(ms: seq<Msg>)
    requires ms != []
    ensures Bytes(ms) == |ms[0].data| + Bytes(ms[1..])
  {
  }

  lemma BytesMore(ms: seq<Msg>, k: nat)
    requires k <= |ms|
    ensures Bytes(ms[k..]) <= Bytes(ms)
  {
    assert ms == ms[..k] + ms[k..];
    BytesSplit(ms[..k], ms[k..]);
  }

  lemma {:induction false} CountTrues(f: seq<bool>, n: nat)
    ensures Count(f + Trues(n), true) == Count(f, true) + n
    ensures Count(f + Trues(n), false) == Count(f, false)
    decreases n
  {
    if n == 0 {
      assert f + [] == f;
    } else {
      CountTrues(f, n - 1);
      assert (f + Trues(n))[..|f| + n - 1] == f + Trues(n - 1);
    }
  }

  lemma CountOne(f: seq<bool>)
    ensures Count(f + [false], false) == Count(f, false) + 1
    ensures Count(f + [false], true) == Count(f, true)
  {
    assert (f + [false])[..|f|] == f;
  }
}
