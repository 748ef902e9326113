/** What a sequence of writer calls means: the document tree it builds, and the text the writer
    (json/src/json_write.c) has produced at every moment. */
module JsonWriteSpec {
  import opened Basics
  import opened JsonText
  import opened JsonValue

  const WRITE_DEPTH: nat := 32

  datatype Op = Begin(obj: bool) | End(obj: bool) | Key(k: bytes) | Scalar(v: Json)

  /** Scalars are the four kinds json_put_str, _int, _bool and _null write. */
  predicate OpOk(op: Op) {
    op.Scalar? ==> !op.v.JCont? && Wf(op.v)
  }

  datatype WErr = WOverflow | WState | WDepth

  datatype Level = Level(obj: bool, used: bool)

  /** The writer: failed for good, or live with its text and container stack. */
  datatype W = Failed(err: WErr) | Live(out: bytes, stack: seq<Level>, want: bool, root: bool)

  const START := Live([], [], false, false)

  function Put(w: W, x: bytes, cap: nat): W {
    if w.Failed? then w
    else if |w.out| + |x| > cap then Failed(WOverflow)
    else w.(out := w.out + x)
  }

  function Used(w: W): (r: W)
    requires w.Live? && w.stack != []
    ensures r.Live?
  {
    w.(stack := w.stack[|w.stack| - 1 := w.stack[|w.stack| - 1].(used := true)])
  }

  function Separator(w: W): bytes
    requires w.Live? && w.stack != []
  {
    if w.stack[|w.stack| - 1].used then [COMMA] else []
  }

  /** pre_val: make room for a value. */
  function PreVal(w: W, ind: nat, cap: nat): W {
    if w.Failed? then w
    else if w.stack == [] then if w.root then Failed(WState) else w.(root := true)
    else if w.stack[|w.stack| - 1].obj then if w.want then w.(want := false) else Failed(WState)
    else Put(Used(w), Separator(w) + NewLine(ind, |w.stack|), cap)
  }

  /** pre_key and json_put_key. */
  function PutKey(w: W, k: bytes, ind: nat, cap: nat): W {
    if w.Failed? then w
    else if w.stack == [] || !w.stack[|w.stack| - 1].obj || w.want then Failed(WState)
    else Put(Used(w.(want := true)), Separator(w) + NewLine(ind, |w.stack|) + KeyText(true, k, ind), cap)
  }

  function OpenCont(w: W, obj: bool, ind: nat, cap: nat): W {
    var w1 := PreVal(w, ind, cap);
    if w1.Failed? then w1
    else if |w1.stack| >= WRITE_DEPTH then Failed(WDepth)
    else
      var w2 := Put(w1, [Open(obj)], cap);
      if w2.Failed? then w2 else w2.(stack := w2.stack + [Level(obj, false)])
  }

  function CloseCont(w: W, obj: bool, ind: nat, cap: nat): W {
    if w.Failed? then w
    else if w.stack == [] || w.want || w.stack[|w.stack| - 1].obj != obj then Failed(WState)
    else
      var d := |w.stack| - 1;
      Put(w.(stack := w.stack[..d]), (if w.stack[d].used then NewLine(ind, d) else []) + [Shut(obj)], cap)
  }

  function Step(w: W, op: Op, ind: nat, cap: nat): W {
    match op
    case Begin(obj) => OpenCont(w, obj, ind, cap)
    case End(obj) => CloseCont(w, obj, ind, cap)
    case Key(k) => PutKey(w, k, ind, cap)
    case Scalar(v) => Put(PreVal(w, ind, cap), Print(v, ind, 0), cap)
  }

  function Run(ops: seq<Op>, ind: nat, cap: nat): W {
    if ops == [] then START else Step(Run(ops[..|ops| - 1], ind, cap), ops[|ops| - 1], ind, cap)
  }

  /** json_end accepts. */
  predicate Accepted(w: W) { w.Live? && w.stack == [] && w.root }

  // ---------- the tree under construction ----------

  /** An open container: its finished kids, and the name of the kid being written, if any
      (empty in an array). */
  datatype Frame = Frame(obj: bool, done: seq<Kid>, pend: Option<bytes>)

  datatype Z = Z(frames: seq<Frame>, root: Option<Json>)

  /** A value may start here. */
  function Ready(z: Z): Option<Z> {
    if z.frames == [] then if z.root.Some? then None else Some(z)
    else
      var n := |z.frames| - 1;
      var f := z.frames[n];
      if f.obj then if f.pend.Some? then Some(z) else None
      else if f.pend.Some? then None
      else Some(z.(frames := z.frames[n := f.(pend := Some([]))]))
  }

  /** The value that was due has been written. */
  function Complete(z: Z, v: Json): Option<Z> {
    if z.frames == [] then Some(z.(root := Some(v)))
    else
      var n := |z.frames| - 1;
      var f := z.frames[n];
      if f.pend.None? then None
      else Some(z.(frames := z.frames[n := Frame(f.obj, f.done + [Kid(f.pend.value, v)], None)]))
  }

  function ZStep(z: Z, op: Op): Option<Z> {
    match op
    case Begin(obj) =>
      (match Ready(z)
       case None => None
       case Some(z1) => if |z1.frames| >= WRITE_DEPTH then None
                        else Some(z1.(frames := z1.frames + [Frame(obj, [], None)])))
    case End(obj) =>
      if z.frames == [] then None else
      var n := |z.frames| - 1;
      var f := z.frames[n];
      if f.obj != obj || f.pend.Some? then None
      else Complete(z.(frames := z.frames[..n]), JCont(obj, f.done))
    case Key(k) =>
      if z.frames == [] then None else
      var n := |z.frames| - 1;
      var f := z.frames[n];
      if !f.obj || f.pend.Some? then None
      else Some(z.(frames := z.frames[n := f.(pend := Some(k))]))
    case Scalar(v) =>
      match Ready(z) case None => None case Some(z1) => Complete(z1, v)
  }

  function ZRun(ops: seq<Op>): Option<Z> {
    if ops == [] then Some(Z([], None))
    else match ZRun(ops[..|ops| - 1]) case None => None case Some(z) => ZStep(z, ops[|ops| - 1])
  }

  // ---------- the text of a tree under construction ----------

  function Cont(f: Frame): Json { JCont(f.obj, f.done) }

  function FrameText(f: Frame, ind: nat, lvl: nat): bytes {
    [Open(f.obj)] + KidsText(Cont(f), |f.done|, ind, lvl)
    + (if f.pend.Some? then Lead(f.obj, f.pend.value, |f.done|, ind, lvl) else [])
  }

  function FramesText(fs: seq<Frame>, ind: nat): bytes {
    if fs == [] then [] else FramesText(fs[..|fs| - 1], ind) + FrameText(fs[|fs| - 1], ind, |fs|)
  }

  function ZText(z: Z, ind: nat): bytes {
    if z.frames == [] then (if z.root.Some? then Print(z.root.value, ind, 0) else [])
    else FramesText(z.frames, ind)
  }

  function LevelOf(f: Frame): Level { Level(f.obj, f.done != [] || f.pend.Some?) }

  /** Every container but the innermost is waiting for the kid being written, and array kids
      carry no name. */
  ghost predicate ZOk(z: Z) {
    && (z.frames != [] ==> z.root.None?)
    && |z.frames| <= WRITE_DEPTH
    && (forall i :: 0 <= i < |z.frames| - 1 ==> z.frames[i].pend.Some?)
    && (forall i :: 0 <= i < |z.frames| ==> FrameOk(z.frames[i]))
    && (z.frames != [] ==> var f := z.frames[|z.frames| - 1]; !f.obj ==> f.pend.None?)
    && (z.root.Some? ==> Wf(z.root.value))
  }

  ghost predicate FrameOk(f: Frame) {
    && Wf(Cont(f))
    && (!f.obj && f.pend.Some? ==> f.pend.value == [])
  }

  /** The live writer state that belongs to a tree under construction. */
  function WOf(z: Z, ind: nat): W {
    Live(ZText(z, ind),
         seq(|z.frames|, i requires 0 <= i < |z.frames| => LevelOf(z.frames[i])),
         z.frames != [] && z.frames[|z.frames| - 1].obj && z.frames[|z.frames| - 1].pend.Some?,
         z.frames != [] || z.root.Some?)
  }

  // ---------- one step ----------

  lemma FramesUpdate(fs: seq<Frame>, f: Frame, ind: nat, x: bytes)
    requires fs != []
    requires FrameText(f, ind, |fs|) == FrameText(fs[|fs| - 1], ind, |fs|) + x
    ensures FramesText(fs[|fs| - 1 := f], ind) == FramesText(fs, ind) + x
  {
    hide FrameText;
    var n := |fs| - 1;
    var fs' := fs[n := f];
    assert fs'[..n] == fs[..n];
  }

  lemma FramesPush(fs: seq<Frame>, obj: bool, ind: nat)
    ensures FramesText(fs + [Frame(obj, [], None)], ind) == FramesText(fs, ind) + [Open(obj)]
  {
    var f := Frame(obj, [], None);
    assert (fs + [f])[..|fs|] == fs;
    assert FrameText(f, ind, |fs| + 1) == [Open(obj)];
  }

  lemma WfSnoc(obj: bool, done: seq<Kid>, k: Kid)
    requires Wf(JCont(obj, done)) && Wf(k.val) && (!obj ==> k.key == [])
    ensures Wf(JCont(obj, done + [k]))
  {
    var v, w := JCont(obj, done), JCont(obj, done + [k]);
    forall i | 0 <= i < |w.kids| ensures WfKid(w, i) {
      assert i < |done| ==> WfKid(v, i) && w.kids[i] == v.kids[i];
    }
  }

  /** Completing a kid appends its text to the frame's. */
  lemma FrameComplete(f: Frame, v: Json, ind: nat, lvl: nat)
    requires f.pend.Some?
    ensures var f' := Frame(f.obj, f.done + [Kid(f.pend.value, v)], None);
            FrameText(f', ind, lvl) == FrameText(f, ind, lvl) + Print(v, ind, lvl)
  {
    hide Print, Lead;
    var n := |f.done|;
    var f' := Frame(f.obj, f.done + [Kid(f.pend.value, v)], None);
    assert f'.done[..n] == f.done[..n];
    KidsTextPrefix(Cont(f), Cont(f'), n, ind, lvl);
    var a, b, c, d := [Open(f.obj)], KidsText(Cont(f), n, ind, lvl), Lead(f.obj, f.pend.value, n, ind, lvl), Print(v, ind, lvl);
    assert KidsText(Cont(f'), n + 1, ind, lvl) == b + c + d;
    assert a + (b + c + d) + [] == (a + b + c) + d;
  }

  /** Making room for a value: the reference and the writer agree. */
  lemma ReadyStep(z: Z, ind: nat, cap: nat)
    requires ZOk(z) && |ZText(z, ind)| <= cap
    ensures match Ready(z)
            case None => PreVal(WOf(z, ind), ind, cap) == Failed(WState)
            case Some(z1) =>
              ZOk1(z1) && PreVal(WOf(z, ind), ind, cap) == Fit(Pending(z1, ind), cap)
  {
    hide KidsText, Print, NewLine;
    if z.frames != [] {
      var n := |z.frames| - 1;
      var f := z.frames[n];
      if f.obj {
        assert f.pend.Some? ==> WOf(z, ind).stack == Pending(z, ind).stack;
      } else {
        var f1 := f.(pend := Some([]));
        var x := Lead(false, [], |f.done|, ind, n + 1);
        assert FrameText(f1, ind, n + 1) == FrameText(f, ind, n + 1) + x;
        FramesUpdate(z.frames, f1, ind, x);
        var w, z1 := WOf(z, ind), z.(frames := z.frames[n := f1]);
        assert Separator(w) + NewLine(ind, |w.stack|) == x;
        assert Used(w).stack == Pending(z1, ind).stack;
      }
    }
  }

  /** A text longer than the buffer is an overflow. */
  function Fit(w: W, cap: nat): W {
    if w.Live? && |w.out| > cap then Failed(WOverflow) else w
  }

  /** All frames, the innermost included, wait for a kid; or the document itself is due. */
  ghost predicate ZOk1(z: Z) {
    && z.root.None?
    && |z.frames| <= WRITE_DEPTH
    && (forall i :: 0 <= i < |z.frames| ==> z.frames[i].pend.Some? && FrameOk(z.frames[i]))
  }

  function ZText1(z: Z, ind: nat): bytes { FramesText(z.frames, ind) }

  /** The writer once room has been made: the name, if any, has been used up. */
  function Pending(z: Z, ind: nat): W {
    Live(ZText1(z, ind),
         seq(|z.frames|, i requires 0 <= i < |z.frames| => LevelOf(z.frames[i])),
         false, true)
  }

  /** The value that was due is written. */
  lemma CompleteStep(z: Z, v: Json, ind: nat, cap: nat)
    requires ZOk1(z) && Wf(v)
    ensures match Complete(z, v)
            case None => false
            case Some(z') =>
              && ZOk(z')
              && ZText(z', ind) == ZText1(z, ind) + Print(v, ind, |z.frames|)
              && WOf(z', ind) == Pending(z, ind).(out := ZText(z', ind))
  {
    hide KidsText, Print, Wf;
    if z.frames == [] {
      assert WOf(Z([], Some(v)), ind).stack == Pending(z, ind).stack;
    } else {
      var n := |z.frames| - 1;
      var f := z.frames[n];
      var f' := Frame(f.obj, f.done + [Kid(f.pend.value, v)], None);
      FrameComplete(f, v, ind, n + 1);
      FramesUpdate(z.frames, f', ind, Print(v, ind, n + 1));
      WfSnoc(f.obj, f.done, Kid(f.pend.value, v));
      assert Cont(f') == JCont(f.obj, f.done + [Kid(f.pend.value, v)]);
      var z' := z.(frames := z.frames[n := f']);
      CompleteStack(z, f', ind);
      CompleteOk(z, f');
      hide FramesText, FrameText, Lead, ZOk, ZOk1, FrameOk;
    }
  }

  lemma CompleteOk(z: Z, f': Frame)
    requires ZOk1(z) && z.frames != [] && f'.pend.None? && FrameOk(f')
    ensures ZOk(z.(frames := z.frames[|z.frames| - 1 := f']))
  {
    hide FrameOk;
  }

  /** Completing a kid leaves the open containers as they were. */
  lemma CompleteStack(z: Z, f': Frame, ind: nat)
    requires ZOk1(z) && z.frames != []
    requires var f := z.frames[|z.frames| - 1]; LevelOf(f') == LevelOf(f)
    ensures WOf(z.(frames := z.frames[|z.frames| - 1 := f']), ind).stack == Pending(z, ind).stack
  {
    hide FramesText, FrameText;
  }

  /** Scalars print alike at every level. */
  lemma ScalarText(v: Json, ind: nat, lvl: nat)
    requires !v.JCont?
    ensures Print(v, ind, lvl) == Print(v, ind, 0)
  {
  }

  lemma PutFits(w: W, x: bytes, cap: nat)
    requires w.Live?
    ensures Put(Fit(w, cap), x, cap) == Fit(w.(out := w.out + x), cap)
  {
  }

  lemma ScalarStep(z: Z, v: Json, ind: nat, cap: nat)
    requires ZOk(z) && |ZText(z, ind)| <= cap && OpOk(Scalar(v))
    ensures Agrees(z, Scalar(v), ind, cap)
  {
    hide Ready, PreVal, Complete, ZOk, ZOk1, Print, WOf, Pending, ZText, ZText1, Put, Fit;
    ReadyStep(z, ind, cap);
    match Ready(z)
    case None => FailedPut(WState, Print(v, ind, 0), cap);
    case Some(z1) =>
      CompleteStep(z1, v, ind, cap);
      ScalarText(v, ind, |z1.frames|);
      PendingText(z1, ind);
      PutFits(Pending(z1, ind), Print(v, ind, 0), cap);
  }

  lemma PendingText(z: Z, ind: nat)
    ensures Pending(z, ind).Live? && Pending(z, ind).out == ZText1(z, ind)
  {
  }

  lemma FailedPut(e: WErr, x: bytes, cap: nat)
    ensures Put(Failed(e), x, cap) == Failed(e)
  {
  }

  /** On op the writer does what the reference does: it fails on misuse, overflows when the text
      does not fit, and otherwise holds exactly the text of the tree so far. */
  ghost predicate Agrees(z: Z, op: Op, ind: nat, cap: nat) {
    match ZStep(z, op)
    case None => Step(WOf(z, ind), op, ind, cap).Failed?
    case Some(z') => ZOk(z') && Step(WOf(z, ind), op, ind, cap) == Fit(WOf(z', ind), cap)
  }

  lemma BeginStep(z: Z, obj: bool, ind: nat, cap: nat)
    requires ZOk(z) && |ZText(z, ind)| <= cap
    ensures Agrees(z, Begin(obj), ind, cap)
  {
    hide Ready, PreVal, KidsText, FramesText, Wf;
    ReadyStep(z, ind, cap);
    match Ready(z)
    case None =>
    case Some(z1) =>
      if |z1.frames| < WRITE_DEPTH {
        FramesPush(z1.frames, obj, ind);
        var f := Frame(obj, [], None);
        EmptyFrame(obj);
        var z' := z1.(frames := z1.frames + [f]);
        assert WOf(z', ind).stack == Pending(z1, ind).stack + [Level(obj, false)];
      }
  }

  lemma EmptyFrame(obj: bool)
    ensures FrameOk(Frame(obj, [], None))
  {
  }

  lemma KeyStep(z: Z, k: bytes, ind: nat, cap: nat)
    requires ZOk(z) && |ZText(z, ind)| <= cap
    ensures Agrees(z, Key(k), ind, cap)
  {
    hide KidsText, NewLine, KeyText, Wf, Print;
    if z.frames != [] {
      var n := |z.frames| - 1;
      var f := z.frames[n];
      if f.obj && f.pend.None? {
        var f1 := f.(pend := Some(k));
        var x := Lead(true, k, |f.done|, ind, n + 1);
        assert FrameText(f1, ind, n + 1) == FrameText(f, ind, n + 1) + x;
        FramesUpdate(z.frames, f1, ind, x);
        var w, z' := WOf(z, ind), z.(frames := z.frames[n := f1]);
        assert Separator(w) + NewLine(ind, |w.stack|) + KeyText(true, k, ind) == x;
        assert Used(w).stack == WOf(z', ind).stack;
        assert Cont(f1) == Cont(f);
      }
    }
  }

  lemma EndStep(z: Z, obj: bool, ind: nat, cap: nat)
    requires ZOk(z) && |ZText(z, ind)| <= cap
    ensures Agrees(z, End(obj), ind, cap)
  {
    hide KidsText, NewLine, Wf, Print, FramesText, Complete;
    if z.frames != [] {
      var n := |z.frames| - 1;
      var f := z.frames[n];
      if f.obj == obj && f.pend.None? {
        var z1 := z.(frames := z.frames[..n]);
        CompleteStep(z1, Cont(f), ind, cap);
        EndText(z.frames, ind);
        var w := WOf(z, ind);
        assert w.stack[..n] == Pending(z1, ind).stack;
      }
    }
  }

  /** Closing the innermost container adds its ending. */
  lemma {:induction false} EndText(fs: seq<Frame>, ind: nat)
    requires fs != [] && fs[|fs| - 1].pend.None?
    ensures var n := |fs| - 1;
            FramesText(fs[..n], ind) + Print(Cont(fs[n]), ind, n) == FramesText(fs, ind) + Ending(Cont(fs[n]), ind, n)
  {
    hide KidsText, NewLine;
    var n := |fs| - 1;
    var a, b, c := FramesText(fs[..n], ind), [Open(fs[n].obj)] + KidsText(Cont(fs[n]), |fs[n].done|, ind, n + 1),
                   Ending(Cont(fs[n]), ind, n);
    assert FrameText(fs[n], ind, n + 1) == b + [] == b;
    assert a + (b + c) == (a + b) + c;
  }

  lemma StepAgrees(z: Z, op: Op, ind: nat, cap: nat)
    requires ZOk(z) && |ZText(z, ind)| <= cap && OpOk(op)
    ensures Agrees(z, op, ind, cap)
  {
    hide Agrees, ZOk, ZText;
    match op
    case Begin(obj) => BeginStep(z, obj, ind, cap);
    case End(obj) => EndStep(z, obj, ind, cap);
    case Key(k) => KeyStep(z, k, ind, cap);
    case Scalar(v) => ScalarStep(z, v, ind, cap);
  }
}
