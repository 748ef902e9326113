/** The JSON writer of json/src/json_write.c: every call does what the writer specification
    says. After a failure only the error code can be observed, so a failed writer has no other
    state in the abstraction. */
module JsonWriter {
  import opened Basics
  import opened JsonText
  import opened JsonValue
  import S = JsonWriteSpec

  const INT_MAX: nat := 0x7FFF_FFFF
  const UINT64: nat := 0x1_0000_0000_0000_0000

  lemma PutPut(w: S.W, x: bytes, y: bytes, cap: nat)
    requires w.Live? ==> |w.out| <= cap
    ensures S.Put(S.Put(w, x, cap), y, cap) == S.Put(w, x + y, cap)
  {
    if w.Live? { assert w.out + x + y == w.out + (x + y); }
  }

  lemma PutNothing(w: S.W, cap: nat)
    requires w.Live? ==> |w.out| <= cap
    ensures S.Put(w, [], cap) == w
  {
    if w.Live? { assert w.out + [] == w.out; }
  }

  /** Bytes that need no escape are their own escaped form. */
  lemma {:induction false} EscapePlain(s: bytes)
    requires forall i :: 0 <= i < |s| ==> EscapeByte(s[i]) == [s[i]]
    ensures Escape(s) == s
    decreases |s|
  {
    if s != [] {
      EscapePlain(s[1..]);
      assert s == [s[0]] + s[1..];
    }
  }

  class Writer {
    var buf: array<byte>
    var cap: nat
    var off: nat
    var err: Option<S.WErr>
    var indent: nat
    var depth: nat
    var wantVal: bool
    var haveRoot: bool
    var stack: array<S.Level>

    ghost predicate Valid()
      reads this, buf, stack
    {
      off <= cap <= buf.Length && cap <= INT_MAX && depth <= S.WRITE_DEPTH == stack.Length
    }

    ghost function Abs(): S.W
      reads this, buf, stack
      requires Valid()
    {
      if err.Some? then S.Failed(err.value) else S.Live(buf[..off], stack[..depth], wantVal, haveRoot)
    }

    constructor (buf: array<byte>, cap: nat)
      requires cap <= buf.Length
      ensures Valid() && Abs() == S.START && this.buf == buf && fresh(stack)
      ensures this.cap == (if cap > INT_MAX then INT_MAX else cap) && indent == 0
    {
      this.buf := buf;
      this.cap := if cap > INT_MAX then INT_MAX else cap;
      off, err, indent, depth, wantVal, haveRoot := 0, None, 0, 0, false, false;
      stack := new S.Level[S.WRITE_DEPTH](_ => S.Level(false, false));
    }

    method SetIndent(spaces: nat)
      requires Valid()
      modifies `indent
      ensures Valid() && Abs() == old(Abs()) && indent == if spaces > 8 then 8 else spaces
    {
      indent := if spaces > 8 then 8 else spaces;
    }

    method Put(x: bytes)
      requires Valid()
      modifies `off, `err, buf
      ensures Valid() && Abs() == S.Put(old(Abs()), x, cap)
    {
      if err.Some? { return; }
      if |x| > cap - off {
        err := Some(S.WOverflow);
        return;
      }
      var i := 0;
      while i < |x|
        invariant 0 <= i <= |x| && off == old(off) && err == None
        invariant buf[..off + i] == old(buf[..off]) + x[..i]
        modifies buf
      {
        buf[off + i] := x[i];
        assert buf[..off + (i + 1)] == buf[..off + i] + [x[i]];
        i := i + 1;
      }
      assert x[..|x|] == x;
      off := off + |x|;
    }

    method Fail(e: S.WErr)
      requires Valid()
      modifies `err
      ensures Valid() && Abs() == if old(Abs()).Failed? then old(Abs()) else S.Failed(e)
    {
      if err == None { err := Some(e); }
    }

    /** A line break and the spaces of the current level, at most 16 at a time. */
    method Nl(d: nat)
      requires Valid()
      modifies `off, `err, buf
      ensures Valid() && Abs() == S.Put(old(Abs()), NewLine(indent, d), cap)
    {
      if indent == 0 {
        PutNothing(Abs(), cap);
        return;
      }
      Put([NEWLINE]);
      var total := d * indent;
      var n := total;
      assert [NEWLINE] + Spaces(0) == [NEWLINE];
      while n > 0
        invariant 0 <= n <= total && Valid()
        invariant Abs() == S.Put(old(Abs()), [NEWLINE] + Spaces(total - n), cap)
      {
        var k := if n > 16 then 16 else n;
        PutPut(old(Abs()), [NEWLINE] + Spaces(total - n), Spaces(k), cap);
        assert [NEWLINE] + Spaces(total - n) + Spaces(k) == [NEWLINE] + Spaces(total - (n - k));
        Put(seq(k, _ => SPACE));
        n := n - k;
      }
    }

    /** A string body: runs of ordinary bytes whole, the rest rewritten. */
    method PutEsc(s: bytes)
      requires Valid()
      modifies `off, `err, buf
      ensures Valid() && Abs() == S.Put(old(Abs()), Escape(s), cap)
    {
      hide Escape;
      var start := 0;
      assert s[..0] == [];
      EscapePlain([]);
      PutNothing(Abs(), cap);
      for i := 0 to |s|
        invariant 0 <= start <= i && Valid()
        invariant Abs() == S.Put(old(Abs()), Escape(s[..start]), cap)
        invariant forall k :: start <= k < i ==> EscapeByte(s[k]) == [s[k]]
      {
        var c := s[i];
        if EscapeByte(c) == [c] { continue; }
        Flush(s, start, i, Escape(s[..start]), old(Abs()));
        EscapeOne(s, i);
        PutPut(old(Abs()), Escape(s[..i]), EscapeByte(c), cap);
        Put(EscapeByte(c));
        start := i + 1;
      }
      Flush(s, start, |s|, Escape(s[..start]), old(Abs()));
      assert s[..|s|] == s;
    }

    /** Copy the pending run s[start..i]. */
    method Flush(s: bytes, start: nat, i: nat, ghost done: bytes, ghost w0: S.W)
      requires Valid() && start <= i <= |s| && done == Escape(s[..start])
      requires forall k :: start <= k < i ==> EscapeByte(s[k]) == [s[k]]
      requires (w0.Live? ==> |w0.out| <= cap) && Abs() == S.Put(w0, done, cap)
      modifies `off, `err, buf
      ensures Valid() && Abs() == S.Put(w0, Escape(s[..i]), cap)
    {
      hide Escape;
      var run := s[start..i];
      EscapePlain(run);
      EscapeAppend(s[..start], run);
      assert s[..start] + run == s[..i];
      PutPut(w0, done, run, cap);
      if i > start {
        Put(run);
      } else {
        PutNothing(Abs(), cap);
      }
    }

    lemma EscapeOne(s: bytes, i: nat)
      requires i < |s|
      ensures Escape(s[..i+1]) == Escape(s[..i]) + EscapeByte(s[i])
    {
      EscapeAppend(s[..i], [s[i]]);
      assert s[..i+1] == s[..i] + [s[i]];
      assert Escape([s[i]]) == EscapeByte(s[i]) + Escape([]);
    }

    method PutQuoted(s: bytes)
      requires Valid()
      modifies `off, `err, buf
      ensures Valid() && Abs() == S.Put(old(Abs()), Quoted(s), cap)
    {
      hide Escape;
      PutPut(old(Abs()), [QUOTE], Escape(s), cap);
      PutPut(old(Abs()), [QUOTE] + Escape(s), [QUOTE], cap);
      Put([QUOTE]);
      PutEsc(s);
      Put([QUOTE]);
    }

    /** The decimal digits of u, least significant first into a scratch buffer. */
    static method DigitsOf(u0: nat) returns (tmp: bytes)
      ensures tmp == Digits(u0)
    {
      var u := u0;
      tmp := [0x30 + u % 10];
      u := u / 10;
      while u > 0
        invariant Digits(u0) == if u > 0 then Digits(u) + tmp else tmp
        decreases u
      {
        DigitsStep(u, tmp);
        tmp := [0x30 + u % 10] + tmp;
        u := u / 10;
      }
    }

    static lemma DigitsStep(u: nat, tmp: bytes)
      requires u > 0
      ensures Digits(u) + tmp == if u / 10 > 0 then Digits(u / 10) + ([0x30 + u % 10] + tmp) else [0x30 + u % 10] + tmp
    {
      if u >= 10 {
        assert Digits(u) + tmp == Digits(u / 10) + ([0x30 + u % 10] + tmp);
      }
    }

    /** A 64-bit integer; the magnitude is formed in unsigned arithmetic. */
    method PutI64(v: int)
      requires Valid() && INT64_MIN <= v <= INT64_MAX
      modifies `off, `err, buf
      ensures Valid() && Abs() == S.Put(old(Abs()), IntText(v), cap)
    {
      hide Digits;
      var u := if v < 0 then ((UINT64 - 1 - (v + UINT64)) + 1) % UINT64 else v;
      assert u == if v < 0 then -v else v;
      var tmp := DigitsOf(u);
      if v < 0 {
        PutPut(old(Abs()), [MINUS], tmp, cap);
        Put([MINUS]);
      }
      Put(tmp);
    }

    /** Mark the innermost container as holding something. */
    method MarkUsed()
      requires Valid() && depth > 0
      modifies stack
      ensures Valid() && Abs() == if old(Abs()).Live? then S.Used(old(Abs())) else old(Abs())
    {
      ghost var used := stack[..depth][depth - 1 := stack[depth - 1].(used := true)];
      stack[depth - 1] := stack[depth - 1].(used := true);
      assert stack[..depth] == used;
    }

    /** Whether a value may stand here: one at the top, one behind each name, any number in an array. */
    method PreVal() returns (ok: bool)
      requires Valid()
      modifies `off, `err, `wantVal, `haveRoot, buf, stack
      ensures Valid() && Abs() == S.PreVal(old(Abs()), indent, cap)
      ensures ok ==> old(Abs()).Live?
      ensures !ok ==> Abs().Failed?
    {
      hide NewLine;
      if err.Some? { return false; }
      if depth == 0 {
        if haveRoot {
          Fail(S.WState);
          return false;
        }
        haveRoot := true;
        return true;
      }
      if stack[depth - 1].obj {
        if !wantVal {
          Fail(S.WState);
          return false;
        }
        wantVal := false;
        return true;
      }
      Separate();
      Nl(depth);
      SeparateThen(old(Abs()), NewLine(indent, depth), cap);
      return true;
    }

    /** The comma a second kid needs. */
    method Separate()
      requires Valid() && depth > 0 && err == None
      modifies `off, `err, buf, stack
      ensures Valid()
      ensures Abs() == S.Put(S.Used(old(Abs())), S.Separator(old(Abs())), cap)
    {
      ghost var w := Abs();
      PutNothing(w, cap);
      if stack[depth - 1].used { Put([COMMA]); }
      MarkUsed();
      UsedPut(w, S.Separator(w), cap);
    }

    /** Whether a member name may stand here: in an object that is not waiting for a value. */
    method PreKey() returns (ok: bool)
      requires Valid()
      modifies `off, `err, buf, stack
      ensures Valid() && (ok ==> old(Abs()).Live?)
      ensures ok <==> MayName(old(Abs()))
      ensures ok ==> Abs() == S.Put(S.Used(old(Abs())), S.Separator(old(Abs())) + NewLine(indent, depth), cap)
      ensures !ok ==> Abs() == if old(Abs()).Failed? then old(Abs()) else S.Failed(S.WState)
    {
      hide NewLine;
      if err.Some? { return false; }
      if depth == 0 || !stack[depth - 1].obj || wantVal {
        Fail(S.WState);
        return false;
      }
      Separate();
      Nl(depth);
      SeparateThen(old(Abs()), NewLine(indent, depth), cap);
      return true;
    }

    /** The condition under which a member name may be written. */
    static ghost predicate MayName(w: S.W) {
      w.Live? && w.stack != [] && w.stack[|w.stack| - 1].obj && !w.want
    }

    static lemma UsedPut(w: S.W, x: bytes, cap: nat)
      requires w.Live? && w.stack != []
      ensures S.Put(S.Used(w), x, cap)
              == (var w1 := S.Put(w, x, cap); if w1.Live? then S.Used(w1) else w1)
    {
    }

    static lemma SeparateThen(w: S.W, nl: bytes, cap: nat)
      requires w.Live? && w.stack != [] && |w.out| <= cap
      ensures S.Put(S.Put(S.Used(w), S.Separator(w), cap), nl, cap) == S.Put(S.Used(w), S.Separator(w) + nl, cap)
    {
      PutPut(S.Used(w), S.Separator(w), nl, cap);
    }

    method PutKey(k: bytes)
      requires Valid()
      modifies `off, `err, `wantVal, buf, stack
      ensures Valid() && Abs() == S.PutKey(old(Abs()), k, indent, cap)
    {
      hide NewLine, Quoted;
      ghost var w := Abs();
      var ok := PreKey();
      if !ok { return; }
      ghost var w1, x := Abs(), S.Separator(w) + NewLine(indent, depth);
      var sp := if indent > 0 then [SPACE] else [];
      PutPut(w1, Quoted(k), [COLON], cap);
      PutPut(w1, Quoted(k) + [COLON], sp, cap);
      PutNothing(S.Put(w1, Quoted(k) + [COLON], cap), cap);
      PutQuoted(k);
      Put([COLON]);
      if indent > 0 { Put([SPACE]); }
      wantVal := true;
      KeyDone(w, x, k, indent, cap);
    }

    static lemma KeyDone(w: S.W, x: bytes, k: bytes, ind: nat, cap: nat)
      requires MayName(w) && |w.out| <= cap && x == S.Separator(w) + NewLine(ind, |w.stack|)
      ensures S.PutKey(w, k, ind, cap)
              == (var w2 := S.Put(S.Put(S.Used(w), x, cap), Quoted(k) + [COLON] + if ind > 0 then [SPACE] else [], cap);
                  if w2.Live? then w2.(want := true) else w2)
    {
      hide NewLine, Quoted;
      PutPut(S.Used(w), x, KeyText(true, k, ind), cap);
    }

    method OpenCont(obj: bool)
      requires Valid()
      modifies `off, `err, `wantVal, `haveRoot, `depth, buf, stack
      ensures Valid() && Abs() == S.OpenCont(old(Abs()), obj, indent, cap)
    {
      hide NewLine;
      var ok := PreVal();
      if !ok { return; }
      if depth >= S.WRITE_DEPTH {
        Fail(S.WDepth);
        return;
      }
      Put([Open(obj)]);
      ghost var st := stack[..depth];
      stack[depth] := S.Level(obj, false);
      depth := depth + 1;
      assert stack[..depth] == st + [S.Level(obj, false)];
    }

    method CloseCont(obj: bool)
      requires Valid()
      modifies `off, `err, `depth, buf
      ensures Valid() && Abs() == S.CloseCont(old(Abs()), obj, indent, cap)
    {
      hide NewLine;
      if err.Some? { return; }
      if depth == 0 || wantVal {
        Fail(S.WState);
        return;
      }
      var st := stack[depth - 1];
      if st.obj != obj {
        Fail(S.WState);
        return;
      }
      ghost var w := Abs();
      depth := depth - 1;
      assert stack[..depth] == w.stack[..depth];
      ghost var w1 := Abs();
      PutPut(w1, if st.used then NewLine(indent, depth) else [], [Shut(obj)], cap);
      PutNothing(w1, cap);
      if st.used { Nl(depth); }
      Put([Shut(obj)]);
    }

    /** json_put_str, json_put_int, json_put_bool and json_put_null. */
    method PutScalar(v: Json)
      requires Valid() && !v.JCont? && Wf(v)
      modifies `off, `err, `wantVal, `haveRoot, buf, stack
      ensures Valid() && Abs() == S.Step(old(Abs()), S.Scalar(v), indent, cap)
    {
      hide NewLine, Quoted, IntText;
      var ok := PreVal();
      if !ok { return; }
      match v
      case JNull => Put(Null());
      case JBool(b) => Put(if b then True() else False());
      case JInt(n) => PutI64(n);
      case JStr(s) => PutQuoted(s);
    }

    /** Any one call. */
    method Call(op: S.Op)
      requires Valid() && S.OpOk(op)
      modifies `off, `err, `wantVal, `haveRoot, `depth, buf, stack
      ensures Valid() && Abs() == S.Step(old(Abs()), op, indent, cap)
    {
      match op
      case Begin(obj) => OpenCont(obj);
      case End(obj) => CloseCont(obj);
      case Key(k) => PutKey(k);
      case Scalar(v) => PutScalar(v);
    }

    /** A whole document: any sequence of calls on a fresh writer. */
    method Calls(ops: seq<S.Op>)
      requires Valid() && Abs() == S.START && forall i :: 0 <= i < |ops| ==> S.OpOk(ops[i])
      modifies `off, `err, `wantVal, `haveRoot, `depth, buf, stack
      ensures Valid() && Abs() == S.Run(ops, indent, cap)
    {
      hide S.Step;
      for i := 0 to |ops|
        invariant Valid() && Abs() == S.Run(ops[..i], indent, cap)
      {
        Call(ops[i]);
        assert ops[..i+1][..i] == ops[..i];
      }
      assert ops[..|ops|] == ops;
    }

    /** json_end: the document's length, or the error. */
    method Finish() returns (r: Result)
      requires Valid()
      modifies `err
      ensures Valid()
      ensures S.Accepted(old(Abs())) ==> r == Length(off) && buf[..off] == old(Abs()).out && Abs() == old(Abs())
      ensures !S.Accepted(old(Abs())) ==>
                r == Error(if old(Abs()).Failed? then old(Abs()).err else S.WState)
                && Abs() == S.Failed(r.err)
    {
      if err.Some? { return Error(err.value); }
      if depth != 0 || !haveRoot {
        Fail(S.WState);
        return Error(S.WState);
      }
      return Length(off);
    }
  }

  datatype Result = Length(n: nat) | Error(err: S.WErr)
}
