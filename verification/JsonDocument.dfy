/** Whole writer runs: what json_end accepts is one value, written out in full, and json_parse
    reads it back. */
module JsonDocument {
  import opened Basics
  import opened JsonValue
  import opened JsonWriteSpec
  import JsonGrammar
  import JsonRoundTrip

  // ---------- the calls that describe a value ----------

  function OpsOf(v: Json): seq<Op>
    decreases v, 1, 0
  {
    if v.JCont? then [Begin(v.obj)] + KidsOps(v, |v.kids|) + [End(v.obj)] else [Scalar(v)]
  }

  function NameOps(obj: bool, key: bytes): seq<Op> { if obj then [Key(key)] else [] }

  function KidsOps(v: Json, n: nat): seq<Op>
    requires v.JCont? && n <= |v.kids|
    decreases v, 0, n
  {
    if n == 0 then []
    else KidsOps(v, n - 1) + NameOps(v.obj, v.kids[n-1].key) + OpsOf(v.kids[n-1].val)
  }

  function FrameOps(f: Frame): seq<Op> {
    [Begin(f.obj)] + KidsOps(Cont(f), |f.done|) + (if f.pend.Some? then NameOps(f.obj, f.pend.value) else [])
  }

  function FramesOps(fs: seq<Frame>): seq<Op> {
    if fs == [] then [] else FramesOps(fs[..|fs| - 1]) + FrameOps(fs[|fs| - 1])
  }

  /** The calls that lead to a tree under construction. */
  function ZOps(z: Z): seq<Op> {
    if z.frames == [] then (if z.root.Some? then OpsOf(z.root.value) else []) else FramesOps(z.frames)
  }

  lemma {:induction false} KidsOpsPrefix(v: Json, w: Json, n: nat)
    requires v.JCont? && w.JCont? && v.obj == w.obj && n <= |v.kids| && n <= |w.kids|
    requires v.kids[..n] == w.kids[..n]
    ensures KidsOps(v, n) == KidsOps(w, n)
    decreases n
  {
    hide OpsOf;
    if n > 0 {
      assert v.kids[n-1] == v.kids[..n][n-1] == w.kids[n-1];
      assert v.kids[..n-1] == v.kids[..n][..n-1] == w.kids[..n-1];
      KidsOpsPrefix(v, w, n - 1);
    }
  }

  lemma OpsUpdate(fs: seq<Frame>, f: Frame, x: seq<Op>)
    requires fs != [] && FrameOps(f) == FrameOps(fs[|fs| - 1]) + x
    ensures FramesOps(fs[|fs| - 1 := f]) == FramesOps(fs) + x
  {
    hide FrameOps;
    var n := |fs| - 1;
    assert fs[n := f][..n] == fs[..n];
  }

  lemma OpsComplete(z: Z, v: Json)
    requires ZOk1(z)
    ensures Complete(z, v).Some? && ZOps(Complete(z, v).value) == FramesOps(z.frames) + OpsOf(v)
  {
    hide OpsOf, Wf;
    if z.frames != [] {
      var n := |z.frames| - 1;
      var f := z.frames[n];
      var m := |f.done|;
      var f' := Frame(f.obj, f.done + [Kid(f.pend.value, v)], None);
      assert f'.done[..m] == f.done[..m];
      KidsOpsPrefix(Cont(f), Cont(f'), m);
      var a, b, c, d := [Begin(f.obj)], KidsOps(Cont(f), m), NameOps(f.obj, f.pend.value), OpsOf(v);
      assert KidsOps(Cont(f'), m + 1) == b + c + d;
      assert a + (b + c + d) + [] == (a + b + c) + d;
      OpsUpdate(z.frames, f', d);
    }
  }

  /** One more call extends the description by that call. */
  lemma OpsStep(z: Z, op: Op)
    requires ZOk(z) && OpOk(op) && ZStep(z, op).Some?
    ensures ZOps(ZStep(z, op).value) == ZOps(z) + [op]
  {
    hide Wf, KidsOps, Print, FramesText, KidsText;
    match op
    case Begin(obj) =>
      OpsReady(z);
      OpsPush(Ready(z).value.frames, obj);
    case End(obj) =>
      var n := |z.frames| - 1;
      var f := z.frames[n];
      OpsComplete(z.(frames := z.frames[..n]), Cont(f));
      OpsEnd(z.frames);
    case Key(k) =>
      var n := |z.frames| - 1;
      var f := z.frames[n];
      OpsUpdate(z.frames, f.(pend := Some(k)), [op]);
    case Scalar(v) =>
      OpsReady(z);
      OpsComplete(Ready(z).value, v);
  }

  lemma OpsReady(z: Z)
    requires ZOk(z) && Ready(z).Some?
    ensures ZOk1(Ready(z).value) && FramesOps(Ready(z).value.frames) == ZOps(z)
  {
    hide Wf, KidsOps;
    if z.frames != [] {
      var n := |z.frames| - 1;
      var f := z.frames[n];
      if !f.obj {
        var f1 := f.(pend := Some([]));
        assert FrameOps(f1) == FrameOps(f) + [];
        OpsUpdate(z.frames, f1, []);
      }
    }
  }

  lemma OpsPush(fs: seq<Frame>, obj: bool)
    ensures FramesOps(fs + [Frame(obj, [], None)]) == FramesOps(fs) + [Begin(obj)]
  {
    var f := Frame(obj, [], None);
    assert (fs + [f])[..|fs|] == fs;
    assert FrameOps(f) == [Begin(obj)];
  }

  lemma {:induction false} OpsEnd(fs: seq<Frame>)
    requires fs != [] && fs[|fs| - 1].pend.None?
    ensures var n := |fs| - 1;
            FramesOps(fs[..n]) + OpsOf(Cont(fs[n])) == FramesOps(fs) + [End(fs[n].obj)]
  {
    hide KidsOps;
    var n := |fs| - 1;
    var a, b, c := FramesOps(fs[..n]), [Begin(fs[n].obj)] + KidsOps(Cont(fs[n]), |fs[n].done|), [End(fs[n].obj)];
    assert FrameOps(fs[n]) == b + [] == b;
    assert a + (b + c) == (a + b) + c;
  }

  // ---------- nesting ----------

  /** With at most m containers ever open, everything built so far nests at most m + 1 levels. */
  ghost predicate Shallow(z: Z, m: nat) {
    && |z.frames| <= m
    && (forall i :: 0 <= i < |z.frames| ==> FrameShallow(z.frames[i], i, m))
    && (z.root.Some? ==> Height(z.root.value) <= m + 1)
  }

  ghost predicate FrameShallow(f: Frame, i: nat, m: nat) {
    i + 1 + HeightKids(Cont(f), |f.done|) <= m + 1
  }

  lemma {:induction false} HeightPrefix(v: Json, w: Json, n: nat)
    requires v.JCont? && w.JCont? && n <= |v.kids| && n <= |w.kids| && v.kids[..n] == w.kids[..n]
    ensures HeightKids(v, n) == HeightKids(w, n)
    decreases n
  {
    hide Height;
    if n > 0 {
      assert v.kids[n-1] == v.kids[..n][n-1] == w.kids[n-1];
      assert v.kids[..n-1] == v.kids[..n][..n-1] == w.kids[..n-1];
      HeightPrefix(v, w, n - 1);
    }
  }

  lemma ShallowComplete(z: Z, v: Json, m: nat)
    requires ZOk1(z) && Shallow(z, m) && |z.frames| + Height(v) <= m + 1
    ensures Complete(z, v).Some? && Shallow(Complete(z, v).value, m)
  {
    hide Wf, Height;
    if z.frames != [] {
      var n := |z.frames| - 1;
      var f := z.frames[n];
      var k := |f.done|;
      var f' := Frame(f.obj, f.done + [Kid(f.pend.value, v)], None);
      assert f'.done[..k] == f.done[..k];
      HeightPrefix(Cont(f), Cont(f'), k);
      assert FrameShallow(f, n, m);
      assert Cont(f').kids[k].val == v;
      assert FrameShallow(f', n, m);
    }
  }

  lemma ShallowStep(z: Z, op: Op, m: nat)
    requires ZOk(z) && OpOk(op) && ZStep(z, op).Some? && Shallow(z, m)
    requires |ZStep(z, op).value.frames| <= m
    ensures Shallow(ZStep(z, op).value, m)
  {
    hide Wf, HeightKids;
    match op
    case Begin(obj) =>
      ShallowReady(z, m);
      NoKidsHeight(obj);
    case End(obj) =>
      var n := |z.frames| - 1;
      var f := z.frames[n];
      assert FrameShallow(f, n, m);
      ShallowComplete(z.(frames := z.frames[..n]), Cont(f), m);
    case Key(k) =>
      var n := |z.frames| - 1;
      var f := z.frames[n];
      assert FrameShallow(f, n, m) && Cont(f) == Cont(f.(pend := Some(k)));
    case Scalar(v) =>
      ShallowReady(z, m);
      ShallowComplete(Ready(z).value, v, m);
  }

  lemma NoKidsHeight(obj: bool)
    ensures HeightKids(JCont(obj, []), 0) == 0
  {
  }

  lemma ShallowReady(z: Z, m: nat)
    requires ZOk(z) && Ready(z).Some? && Shallow(z, m)
    ensures ZOk1(Ready(z).value) && Shallow(Ready(z).value, m)
  {
    hide Wf, HeightKids, Height;
    if z.frames != [] {
      var n := |z.frames| - 1;
      var f := z.frames[n];
      assert FrameShallow(f, n, m) && Cont(f) == Cont(f.(pend := Some([])));
    }
  }

  // ---------- whole runs ----------

  ghost predicate OpsOk(ops: seq<Op>) { forall i :: 0 <= i < |ops| ==> OpOk(ops[i]) }

  /** No more than m containers are open at any time. */
  ghost predicate OpenAtMost(ops: seq<Op>, ind: nat, cap: nat, m: nat) {
    forall i :: 0 <= i <= |ops| ==> OpenNow(ops[..i], ind, cap) <= m
  }

  function OpenNow(ops: seq<Op>, ind: nat, cap: nat): nat {
    var w := Run(ops, ind, cap); if w.Live? then |w.stack| else 0
  }

  /** A live writer stands where the reference stands: same calls, same text, same stack. */
  lemma {:induction false} RunAgrees(ops: seq<Op>, ind: nat, cap: nat, m: nat)
    requires OpsOk(ops) && Run(ops, ind, cap).Live? && OpenAtMost(ops, ind, cap, m)
    ensures ZRun(ops).Some?
    ensures var z := ZRun(ops).value;
            ZOk(z) && Run(ops, ind, cap) == WOf(z, ind) && |ZText(z, ind)| <= cap
            && ZOps(z) == ops && Shallow(z, m)
    decreases |ops|
  {
    hide ZStep, ZOk, ZText, ZOps, Shallow, OpOk, Step;
    if ops == [] {
      StartAgrees(ind, m);
    } else {
      var n := |ops| - 1;
      FailedStays(Run(ops[..n], ind, cap), ops[n], ind, cap);
      forall i | 0 <= i <= n ensures OpenNow(ops[..n][..i], ind, cap) <= m {
        assert ops[..n][..i] == ops[..i];
      }
      RunAgrees(ops[..n], ind, cap, m);
      var z := ZRun(ops[..n]).value;
      StepAgrees(z, ops[n], ind, cap);
      LiveFit(ZStep(z, ops[n]), ind, cap);
      var z' := ZStep(z, ops[n]).value;
      OpsStep(z, ops[n]);
      assert ops == ops[..n] + [ops[n]];
      assert OpenNow(ops[..|ops|], ind, cap) <= m && ops[..|ops|] == ops;
      assert |z'.frames| <= m by { StackHeight(z', ind); }
      ShallowStep(z, ops[n], m);
    }
  }

  lemma StartAgrees(ind: nat, m: nat)
    ensures var z := Z([], None);
            ZOk(z) && START == WOf(z, ind) && ZText(z, ind) == [] && ZOps(z) == [] && Shallow(z, m)
  {
    assert WOf(Z([], None), ind).stack == [];
  }

  lemma FailedStays(w: W, op: Op, ind: nat, cap: nat)
    ensures w.Failed? ==> Step(w, op, ind, cap) == w
  {
  }

  lemma LiveFit(z: Option<Z>, ind: nat, cap: nat)
    ensures z.Some? && Fit(WOf(z.value, ind), cap).Live?
            ==> |ZText(z.value, ind)| <= cap && Fit(WOf(z.value, ind), cap) == WOf(z.value, ind)
  {
  }

  lemma StackHeight(z: Z, ind: nat)
    ensures |WOf(z, ind).stack| == |z.frames|
  {
  }

  /** Every run json_end accepts describes exactly one well-formed value, and the buffer holds
      that value's text. */
  lemma AcceptedRun(ops: seq<Op>, ind: nat, cap: nat, m: nat) returns (v: Json)
    requires OpsOk(ops) && Accepted(Run(ops, ind, cap)) && OpenAtMost(ops, ind, cap, m)
    ensures Wf(v) && ops == OpsOf(v) && Run(ops, ind, cap).out == Print(v, ind, 0)
    ensures |Print(v, ind, 0)| <= cap && Height(v) <= m + 1
    ensures ZRun(ops) == Some(Z([], Some(v)))
  {
    hide Wf, Print, Height, OpsOf;
    RunAgrees(ops, ind, cap, m);
    var z := ZRun(ops).value;
    StackHeight(z, ind);
    v := z.root.value;
  }

  /** The writer and the parser are inverse. A run that json_end accepts yields a text whose
      parse, in any pool with a node per value, gives back exactly the value described; it
      always does when no more than 31 containers were open at once. */
  lemma WriterRoundTrip(ops: seq<Op>, ind: nat, cap: nat, pool: nat) returns (v: Json)
    requires OpsOk(ops) && Accepted(Run(ops, ind, cap)) && cap <= JsonGrammar.INT_MAX
    ensures Wf(v) && ops == OpsOf(v)
    ensures OpenAtMost(ops, ind, cap, 31) ==> Height(v) <= 32
    ensures pool >= Count(v) ==>
              var text := Run(ops, ind, cap).out;
              var r := JsonGrammar.ParseDoc(text, pool);
              if Height(v) <= 32 then r.Ok? && JsonRoundTrip.Decode(text, r.val) == Some(v)
              else r.Err? && r.code == JsonGrammar.Depth
  {
    hide Wf, Print, Height, OpsOf, Count;
    OpenBound(ops, ind, cap);
    v := AcceptedRun(ops, ind, cap, WRITE_DEPTH);
    if OpenAtMost(ops, ind, cap, 31) {
      var v' := AcceptedRun(ops, ind, cap, 31);
    }
    if pool >= Count(v) {
      JsonRoundTrip.DocumentRoundTrip(v, ind, pool);
    }
  }

  /** The writer itself never has more than 32 containers open. */
  lemma OpenBound(ops: seq<Op>, ind: nat, cap: nat)
    ensures OpenAtMost(ops, ind, cap, WRITE_DEPTH)
  {
    forall i | 0 <= i <= |ops| ensures OpenNow(ops[..i], ind, cap) <= WRITE_DEPTH {
      StackBound(ops[..i], ind, cap);
    }
  }

  lemma {:induction false} StackBound(ops: seq<Op>, ind: nat, cap: nat)
    ensures OpenNow(ops, ind, cap) <= WRITE_DEPTH
    decreases |ops|
  {
    hide NewLine, KeyText, Print;
    if ops != [] { StackBound(ops[..|ops| - 1], ind, cap); }
  }

  // ---------- every value can be written ----------

  /** Containers nested inside one another. */
  function Nesting(v: Json): nat
    decreases v, 1, 0
  {
    if v.JCont? then 1 + NestingKids(v, |v.kids|) else 0
  }

  function NestingKids(v: Json, n: nat): nat
    requires v.JCont? && n <= |v.kids|
    decreases v, 0, n
  {
    if n == 0 then 0
    else var a, b := NestingKids(v, n - 1), Nesting(v.kids[n-1].val); if a >= b then a else b
  }

  lemma {:induction false} KidNesting(v: Json, n: nat, i: nat)
    requires v.JCont? && i < n <= |v.kids|
    ensures Nesting(v.kids[i].val) <= NestingKids(v, n)
    decreases n
  {
    hide Nesting;
    if i < n - 1 { KidNesting(v, n - 1, i); }
  }

  /** The reference, run from a given state. */
  function ZFold(z: Option<Z>, ops: seq<Op>): Option<Z> {
    if ops == [] then z
    else match ZFold(z, ops[..|ops| - 1]) case None => None case Some(z1) => ZStep(z1, ops[|ops| - 1])
  }

  lemma {:induction false} FoldAppend(z: Option<Z>, xs: seq<Op>, ys: seq<Op>)
    ensures ZFold(z, xs + ys) == ZFold(ZFold(z, xs), ys)
    decreases |ys|
  {
    hide ZStep;
    if ys == [] {
      assert xs + ys == xs;
    } else {
      var n := |ys| - 1;
      assert (xs + ys)[..|xs| + n] == xs + ys[..n];
      FoldAppend(z, xs, ys[..n]);
    }
  }

  lemma FoldOne(z: Z, op: Op)
    ensures ZFold(Some(z), [op]) == ZStep(z, op)
  {
    assert [op][..0] == [];
  }

  lemma {:induction false} RunIsFold(ops: seq<Op>)
    ensures ZRun(ops) == ZFold(Some(Z([], None)), ops)
    decreases |ops|
  {
    hide ZStep;
    if ops != [] { RunIsFold(ops[..|ops| - 1]); }
  }

  /** Where a value may start, the calls for v leave exactly v written. */
  lemma WritesValue(z: Z, v: Json)
    requires Ready(z).Some? && |z.frames| + Nesting(v) <= WRITE_DEPTH && Wf(v)
    ensures ZFold(Some(z), OpsOf(v)) == Complete(Ready(z).value, v)
    decreases v, 2
  {
    hide ZFold, Wf, KidsOps, NestingKids;
    if v.JCont? {
      var z1 := Ready(z).value;
      var n := |v.kids|;
      FoldOne(z, Begin(v.obj));
      WritesKids(z1, v, n);
      FoldAppend(Some(z), [Begin(v.obj)], KidsOps(v, n));
      FoldAppend(Some(z), [Begin(v.obj)] + KidsOps(v, n), [End(v.obj)]);
      var z3 := Under(z1, Frame(v.obj, v.kids[..n], None));
      assert v.kids[..n] == v.kids;
      FoldOne(z3, End(v.obj));
      assert z3.frames[..|z1.frames|] == z1.frames;
    } else {
      FoldOne(z, Scalar(v));
    }
  }

  /** z with one more open container. */
  function Under(z: Z, f: Frame): Z { z.(frames := z.frames + [f]) }

  lemma WritesKid(z: Z, obj: bool, done: seq<Kid>, kid: Kid)
    requires |z.frames| + 1 + Nesting(kid.val) <= WRITE_DEPTH && Wf(kid.val) && (!obj ==> kid.key == [])
    ensures ZFold(Some(Under(z, Frame(obj, done, None))), NameOps(obj, kid.key) + OpsOf(kid.val))
            == Some(Under(z, Frame(obj, done + [kid], None)))
    decreases kid, 3
  {
    hide ZFold, OpsOf, Nesting, Wf;
    var m := |z.frames|;
    var z1 := Under(z, Frame(obj, done, None));
    var z2 := if obj then Under(z, Frame(true, done, Some(kid.key))) else z1;
    FoldAppend(Some(z1), NameOps(obj, kid.key), OpsOf(kid.val));
    if obj {
      FoldOne(z1, Key(kid.key));
      assert z1.frames[m := z1.frames[m].(pend := Some(kid.key))] == z2.frames;
    } else {
      FoldNone(z1);
    }
    WritesValue(z2, kid.val);
    var z3 := Under(z, Frame(obj, done + [kid], None));
    assert Complete(Ready(z2).value, kid.val).value.frames == z3.frames;
  }

  lemma WritesKids(z: Z, v: Json, n: nat)
    requires v.JCont? && n <= |v.kids| && |z.frames| + 1 + NestingKids(v, n) <= WRITE_DEPTH && Wf(v)
    ensures ZFold(Some(Under(z, Frame(v.obj, [], None))), KidsOps(v, n))
            == Some(Under(z, Frame(v.obj, v.kids[..n], None)))
    decreases v, 1, n
  {
    hide OpsOf, Nesting, ZStep;
    if n > 0 {
      hide ZFold;
      var kid := v.kids[n-1];
      WritesKids(z, v, n - 1);
      assert WfKid(v, n - 1);
      KidNesting(v, n, n - 1);
      WritesKid(z, v.obj, v.kids[..n-1], kid);
      var x := NameOps(v.obj, kid.key) + OpsOf(kid.val);
      FoldAppend(Some(Under(z, Frame(v.obj, [], None))), KidsOps(v, n - 1), x);
      assert KidsOps(v, n - 1) + x == KidsOps(v, n);
      assert v.kids[..n] == v.kids[..n-1] + [kid];
    } else {
      assert v.kids[..0] == [];
    }
  }

  lemma FoldNone(z: Z)
    ensures ZFold(Some(z), []) == Some(z)
  {
  }

  /** Every well-formed value of at most 32 nested containers is described by its calls. */
  lemma ValueDescribed(v: Json)
    requires Wf(v) && Nesting(v) <= WRITE_DEPTH
    ensures ZRun(OpsOf(v)) == Some(Z([], Some(v)))
  {
    hide ZFold;
    RunIsFold(OpsOf(v));
    WritesValue(Z([], None), v);
  }

  // ---------- and no others are accepted ----------

  lemma {:induction false} FoldFailed(ops: seq<Op>)
    ensures ZFold(None, ops) == None
    decreases |ops|
  {
    if ops != [] { FoldFailed(ops[..|ops| - 1]); }
  }

  lemma FailedThen(z: Z, xs: seq<Op>, ys: seq<Op>)
    requires ZFold(Some(z), xs) == None
    ensures ZFold(Some(z), xs + ys) == None
  {
    FoldAppend(Some(z), xs, ys);
    FoldFailed(ys);
  }

  /** A value that nests too deep for what is open is refused. */
  lemma DeepValue(z: Z, v: Json)
    requires Ready(z).Some? && |z.frames| <= WRITE_DEPTH < |z.frames| + Nesting(v) && Wf(v)
    ensures ZFold(Some(z), OpsOf(v)) == None
    decreases v, 2
  {
    hide ZFold, Wf, KidsOps, NestingKids;
    var z1, n := Ready(z).value, |v.kids|;
    var begin, kids, end := [Begin(v.obj)], KidsOps(v, n), [End(v.obj)];
    FoldOne(z, Begin(v.obj));
    if |z1.frames| >= WRITE_DEPTH {
      FailedThen(z, begin, kids);
    } else {
      DeepKids(z1, v, n);
      FoldAppend(Some(z), begin, kids);
    }
    FailedThen(z, begin + kids, end);
  }

  lemma DeepKids(z: Z, v: Json, n: nat)
    requires v.JCont? && n <= |v.kids| && |z.frames| < WRITE_DEPTH < |z.frames| + 1 + NestingKids(v, n) && Wf(v)
    ensures ZFold(Some(Under(z, Frame(v.obj, [], None))), KidsOps(v, n)) == None
    decreases v, 1, n
  {
    hide OpsOf, Nesting, ZStep, ZFold;
    var kid, u := v.kids[n-1], Under(z, Frame(v.obj, [], None));
    var x := NameOps(v.obj, kid.key) + OpsOf(kid.val);
    assert KidsOps(v, n) == KidsOps(v, n - 1) + x;
    if |z.frames| + 1 + NestingKids(v, n - 1) > WRITE_DEPTH {
      DeepKids(z, v, n - 1);
      FailedThen(u, KidsOps(v, n - 1), x);
    } else {
      WritesKids(z, v, n - 1);
      assert WfKid(v, n - 1);
      DeepKid(z, v.obj, v.kids[..n-1], kid);
      FoldAppend(Some(u), KidsOps(v, n - 1), x);
    }
  }

  lemma DeepKid(z: Z, obj: bool, done: seq<Kid>, kid: Kid)
    requires |z.frames| < WRITE_DEPTH < |z.frames| + 1 + Nesting(kid.val) && Wf(kid.val) && (!obj ==> kid.key == [])
    ensures ZFold(Some(Under(z, Frame(obj, done, None))), NameOps(obj, kid.key) + OpsOf(kid.val)) == None
    decreases kid, 3
  {
    hide ZFold, OpsOf, Nesting, Wf;
    var m := |z.frames|;
    var z1 := Under(z, Frame(obj, done, None));
    var z2 := if obj then Under(z, Frame(true, done, Some(kid.key))) else z1;
    FoldAppend(Some(z1), NameOps(obj, kid.key), OpsOf(kid.val));
    if obj {
      FoldOne(z1, Key(kid.key));
      assert z1.frames[m := z1.frames[m].(pend := Some(kid.key))] == z2.frames;
    } else {
      FoldNone(z1);
    }
    DeepValue(z2, kid.val);
  }

  /** A live writer only adds to its text. */
  lemma StepGrows(w: W, op: Op, ind: nat, cap: nat)
    requires w.Live? && Step(w, op, ind, cap).Live?
    ensures |w.out| <= |Step(w, op, ind, cap).out|
  {
    hide NewLine, KeyText, Print;
  }

  /** A run of the reference whose text fits is a run of the writer. */
  lemma {:induction false} RunFits(ops: seq<Op>, ind: nat, cap: nat)
    requires OpsOk(ops) && ZRun(ops).Some? && |ZText(ZRun(ops).value, ind)| <= cap
    ensures ZOk(ZRun(ops).value) && Run(ops, ind, cap) == WOf(ZRun(ops).value, ind)
    decreases |ops|
  {
    hide ZStep, ZOk, ZText, Step, OpOk;
    if ops == [] {
      StartAgrees(ind, 0);
    } else {
      var n := |ops| - 1;
      var z, z' := ZRun(ops[..n]).value, ZRun(ops).value;
      var room := |ZText(z, ind)| + cap;
      RunFits(ops[..n], ind, room);
      StepAgrees(z, ops[n], ind, room);
      TextOf(z, ind);
      TextOf(z', ind);
      StepGrows(WOf(z, ind), ops[n], ind, room);
      RunFits(ops[..n], ind, cap);
      StepAgrees(z, ops[n], ind, cap);
    }
  }

  lemma TextOf(z: Z, ind: nat)
    ensures WOf(z, ind).Live? && WOf(z, ind).out == ZText(z, ind)
  {
  }

  lemma {:induction false} OpsOfOk(v: Json)
    requires Wf(v)
    ensures OpsOk(OpsOf(v))
    decreases v, 1, 0
  {
    if v.JCont? { KidsOpsOk(v, |v.kids|); }
  }

  lemma {:induction false} KidsOpsOk(v: Json, n: nat)
    requires v.JCont? && n <= |v.kids| && Wf(v)
    ensures OpsOk(KidsOps(v, n))
    decreases v, 0, n
  {
    if n > 0 {
      KidsOpsOk(v, n - 1);
      assert WfKid(v, n - 1);
      OpsOfOk(v.kids[n-1].val);
    }
  }

  /** The writer accepts the calls of a value if and only if it nests at most 32 containers and its
      text fits the buffer, and then the buffer holds that text. */
  lemma WriterAccepts(v: Json, ind: nat, cap: nat)
    requires Wf(v)
    ensures Accepted(Run(OpsOf(v), ind, cap)) <==> Nesting(v) <= WRITE_DEPTH && |Print(v, ind, 0)| <= cap
    ensures Accepted(Run(OpsOf(v), ind, cap)) ==> Run(OpsOf(v), ind, cap).out == Print(v, ind, 0)
  {
    hide Wf, Print, OpsOf, Nesting, ZFold, Run, OpsOk, OpenAtMost, ZRun;
    var ops := OpsOf(v);
    OpsOfOk(v);
    if Nesting(v) <= WRITE_DEPTH {
      ValueDescribed(v);
      if |Print(v, ind, 0)| <= cap {
        RunFits(ops, ind, cap);
      } else if Accepted(Run(ops, ind, cap)) {
        OpenBound(ops, ind, cap);
        RunAgrees(ops, ind, cap, WRITE_DEPTH);
      }
    } else if Accepted(Run(ops, ind, cap)) {
      OpenBound(ops, ind, cap);
      RunAgrees(ops, ind, cap, WRITE_DEPTH);
      RunIsFold(ops);
      DeepValue(Z([], None), v);
    }
  }

  // ---------- a text the writer accepts and the parser refuses ----------

  /** n arrays around null. */
  function Nest(n: nat): Json { if n == 0 then JNull else JCont(false, [Kid([], Nest(n - 1))]) }

  lemma {:induction false} NestShape(n: nat, lvl: nat)
    ensures Wf(Nest(n)) && Nesting(Nest(n)) == n && Height(Nest(n)) == Count(Nest(n)) == n + 1
    ensures |Print(Nest(n), 0, lvl)| == 2 * n + 4
    decreases n
  {
    if n > 0 {
      var v := Nest(n);
      NestShape(n - 1, lvl + 1);
      assert v.kids[0].val == Nest(n - 1);
      assert WfKid(v, 0);
      assert NestingKids(v, 1) == Nesting(v.kids[0].val) && HeightKids(v, 1) == Height(v.kids[0].val);
      assert CountKids(v, 0) == Count(v.kids[0].val) + CountKids(v, 1);
      assert KidsText(v, 1, 0, lvl + 1) == KidsText(v, 0, 0, lvl + 1) + Lead(false, [], 0, 0, lvl + 1) + Print(Nest(n - 1), 0, lvl + 1);
    }
  }

  /** 32 arrays around null: json_end accepts the text, and json_parse refuses it for depth. */
  lemma WrittenButRefused(pool: nat)
    requires pool >= 33
    ensures var w := Run(OpsOf(Nest(32)), 0, 68);
            && Accepted(w)
            && var r := JsonGrammar.ParseDoc(w.out, pool); r.Err? && r.code == JsonGrammar.Depth
  {
    hide Run, Print, OpsOf, Nest, Nesting, Height, Count, Wf;
    NestShape(32, 0);
    WriterAccepts(Nest(32), 0, 68);
    JsonRoundTrip.DocumentRoundTrip(Nest(32), 0, pool);
  }
}
