/** The abstract timer table: what the heap, the slot table and the free list of
    net/src/loop.c jointly represent.

    A slot carries an unbounded `epoch`, the number of times it has been released; the
    32-bit generation of a handle is a wrapped image of it. */
module TimerSpec {
  import opened Arith
  import opened Basics

  const GEN_MOD: nat := 0xFFFF_FFFF          // live generations are 1 .. 2^32-1
  const SLOT_SPAN: nat := 0x1_0000_0000      // a handle is generation * 2^32 + slot
  const CLOCK_SPAN: nat := 0x1_0000_0000_0000_0000
  const NOSLOT: nat := 0xFFFF_FFFF
  const NOPOS: nat := 0xFFFF_FFFF_FFFF_FFFF

  /** One armed timer; `slot` is the back-pointer into the handle table. */
  datatype Timer = Timer(due: nat, slot: nat, cb: nat, ud: int)

  datatype Cell = Cell(epoch: nat, armed: Option<Timer>)

  type Table = seq<Cell>

  /** The generation a slot shows after `epoch` releases: starts at 1, skips 0 on wrap. */
  function GenOf(epoch: nat): (g: nat)
    ensures 1 <= g <= GEN_MOD
  {
    1 + epoch % GEN_MOD
  }

  function Handle(gen: nat, slot: nat): nat {
    gen * SLOT_SPAN + slot
  }

  function SlotOf(id: nat): nat { id % SLOT_SPAN }

  function GenPart(id: nat): nat { id / SLOT_SPAN }

  /** `id` is the handle of a timer that is armed right now. */
  predicate Live(t: Table, id: nat) {
    var s := SlotOf(id);
    s < |t| && GenOf(t[s].epoch) == GenPart(id) && t[s].armed.Some?
  }

  /** Releasing a slot disarms it and moves its epoch on. */
  function Release(t: Table, s: nat): Table
    requires s < |t|
  {
    t[s := Cell(t[s].epoch + 1, None)]
  }

  /** A table may grow by never-used slots. */
  ghost predicate Grown(t: Table, t': Table) {
    && |t| <= |t'|
    && t'[..|t|] == t
    && forall s :: |t| <= s < |t'| ==> t'[s] == Cell(0, None)
  }

  ghost predicate ArmStep(t: Table, t': Table, s: nat, tm: Timer) {
    exists g: Table :: ArmVia(t, g, t', s, tm)
  }

  ghost predicate ArmVia(t: Table, g: Table, t': Table, s: nat, tm: Timer) {
    && Grown(t, g)
    && s < |g| && g[s].armed.None? && tm.slot == s
    && t' == g[s := Cell(g[s].epoch, Some(tm))]
  }

  ghost predicate ReleaseStep(t: Table, t': Table, s: nat) {
    s < |t| && t[s].armed.Some? && t' == Release(t, s)
  }

  /** Any move of the table: arm somewhere, release (cancel or fire) somewhere, or nothing. */
  ghost predicate Step(t: Table, t': Table) {
    || t' == t
    || (exists s: nat, tm: Timer :: ArmStep(t, t', s, tm))
    || (exists s: nat :: ReleaseStep(t, t', s))
  }

  ghost predicate Run(ts: seq<Table>) {
    && |ts| > 0
    && ts[0] == []
    && forall i :: 0 <= i < |ts| - 1 ==> StepAt(ts, i)
  }

  ghost predicate StepAt(ts: seq<Table>, i: nat) {
    i + 1 < |ts| && Step(ts[i], ts[i+1])
  }

  /** How often slot `s` has been released so far. */
  function Releases(t: Table, s: nat): nat {
    if s < |t| then t[s].epoch else 0
  }

  lemma HandleParts(gen: nat, slot: nat)
    requires slot < SLOT_SPAN
    ensures SlotOf(Handle(gen, slot)) == slot && GenPart(Handle(gen, slot)) == gen
    ensures Handle(gen, slot) == 0x1_0000_0000 * gen + slot
    ensures gen > 0 ==> Handle(gen, slot) != 0
  {
  }

  lemma StepMonotone(t: Table, t': Table, s: nat)
    requires Step(t, t')
    ensures Releases(t, s) <= Releases(t', s)
    ensures |t| <= |t'|
    ensures s < |t| && t[s].armed.Some? && t'[s].armed.None? ==> Releases(t', s) == Releases(t, s) + 1
  {
    if s1: nat, tm: Timer :| ArmStep(t, t', s1, tm) {
      var g: Table :| ArmVia(t, g, t', s1, tm);
      if s < |t| {
        assert g[s] == g[..|t|][s] == t[s];
      }
    } else if s1: nat :| ReleaseStep(t, t', s1) {
    }
  }

  lemma {:induction false} RunMonotone(ts: seq<Table>, i: nat, j: nat, s: nat)
    requires Run(ts) && i <= j < |ts|
    ensures Releases(ts[i], s) <= Releases(ts[j], s)
    ensures |ts[i]| <= |ts[j]|
    decreases j - i
  {
    if i < j {
      RunMonotone(ts, i, j - 1, s);
      assert StepAt(ts, j - 1);
      StepMonotone(ts[j-1], ts[j], s);
    }
  }

  /** Somewhere between an armed moment and a disarmed one the slot was released. */
  lemma {:induction false} DisarmedMeansReleased(ts: seq<Table>, i: nat, j: nat, s: nat)
    requires Run(ts) && i <= j < |ts|
    requires s < |ts[i]| && ts[i][s].armed.Some?
    requires s < |ts[j]| && ts[j][s].armed.None?
    ensures Releases(ts[i], s) < Releases(ts[j], s)
    decreases j - i
  {
    if i < j {
      RunMonotone(ts, i, i + 1, s);
      RunMonotone(ts, i + 1, j, s);
      assert StepAt(ts, i);
      StepMonotone(ts[i], ts[i+1], s);
      if ts[i+1][s].armed.Some? {
        DisarmedMeansReleased(ts, i + 1, j, s);
      }
    }
  }

  /** A handle that was live once and dead later does not become live again before its slot
      has been released 2^32-1 times since it was issued. */
  lemma UsedHandleStaysDead(ts: seq<Table>, i: nat, m: nat, j: nat, id: nat)
    requires Run(ts) && i < m < j < |ts|
    requires Live(ts[i], id) && !Live(ts[m], id) && Live(ts[j], id)
    ensures Releases(ts[j], SlotOf(id)) - Releases(ts[i], SlotOf(id)) >= 0xFFFF_FFFF
  {
    var s := SlotOf(id);
    RunMonotone(ts, i, m, s);
    RunMonotone(ts, m, j, s);
    if ts[m][s].armed.None? {
      DisarmedMeansReleased(ts, i, m, s);
    } else {
      assert GenOf(ts[m][s].epoch) != GenOf(ts[i][s].epoch);
    }
    ModGap(Releases(ts[i], s), Releases(ts[j], s), GEN_MOD);
  }

  /** And the bound is the exact one: after that many releases the old handle names whatever
      timer is armed in the slot then. */
  lemma HandleRevives(t: Table, t': Table, id: nat)
    requires Live(t, id) && SlotOf(id) < |t'| && t'[SlotOf(id)].armed.Some?
    requires t'[SlotOf(id)].epoch >= t[SlotOf(id)].epoch
    ensures Live(t', id) <==> (t'[SlotOf(id)].epoch - t[SlotOf(id)].epoch) % 0xFFFF_FFFF == 0
  {
    ModDiff(t[SlotOf(id)].epoch, t'[SlotOf(id)].epoch, GEN_MOD);
  }

  // ---------- calls and the timer pass ----------

  /** What a callback may do to the loop; `clock` is the monotonic clock it reads. */
  datatype Op = After(clock: nat, ms: nat, cb: nat, ud: int) | Cancel(id: nat)

  /** No slot is free and the table cannot double again. */
  ghost predicate Full(t: Table) {
    && (forall s :: 0 <= s < |t| ==> t[s].armed.Some?)
    && 2 * |t| >= NOSLOT
  }

  /** net_loop_after: 0 exactly when the callback is missing or the table is exhausted;
      otherwise an unarmed slot takes the timer and the handle names it. */
  ghost predicate AfterRel(t: Table, t': Table, clock: nat, ms: nat, cb: nat, ud: int, id: nat) {
    if cb == 0 || Full(t) then
      t' == t && id == 0
    else
      exists s: nat :: AfterAt(t, t', clock, ms, cb, ud, id, s)
  }

  ghost predicate AfterAt(t: Table, t': Table, clock: nat, ms: nat, cb: nat, ud: int, id: nat, s: nat) {
    && ArmStep(t, t', s, Timer((clock + ms) % CLOCK_SPAN, s, cb, ud))
    && s < |t'| && id == Handle(GenOf(t'[s].epoch), s) && SlotOf(id) == s && Live(t', id)
  }

  lemma AfterDone(t: Table, g: Table, t': Table, clock: nat, ms: nat, cb: nat, ud: int, s: nat)
    requires cb != 0 && !Full(t) && s < |g| < NOSLOT
    requires ArmVia(t, g, t', s, Timer((clock + ms) % CLOCK_SPAN, s, cb, ud))
    ensures AfterRel(t, t', clock, ms, cb, ud, Handle(GenOf(g[s].epoch), s))
  {
    var id := Handle(GenOf(g[s].epoch), s);
    HandleParts(GenOf(g[s].epoch), s);
    assert AfterAt(t, t', clock, ms, cb, ud, id, s);
  }

  /** What arming means to the caller: a handle that was dead and is live, for a timer with this
      callback that is due ms after the clock, and no other timer touched. It is refused only for
      want of a callback, or with at least 2^31 timers armed. */
  lemma AfterMeans(t: Table, t': Table, clock: nat, ms: nat, cb: nat, ud: int, id: nat)
    requires AfterRel(t, t', clock, ms, cb, ud, id)
    ensures id == 0 <==> !Live(t', id)
    ensures id == 0 ==> t' == t && (cb == 0 || (|t| >= 0x8000_0000 && forall s :: 0 <= s < |t| ==> t[s].armed.Some?))
    ensures id != 0 ==>
              && cb != 0 && !Live(t, id) && |t| <= |t'|
              && var tm := t'[SlotOf(id)].armed.value;
                 && tm.cb == cb && tm.ud == ud
                 && (clock + ms < 0x1_0000_0000_0000_0000 ==> tm.due == clock + ms)
    ensures forall s :: 0 <= s < |t| && (id == 0 || s != SlotOf(id)) ==> t'[s] == t[s]
  {
    if cb != 0 && !Full(t) {
      var s: nat :| AfterAt(t, t', clock, ms, cb, ud, id, s);
      ArmMeans(t, t', s, Timer((clock + ms) % CLOCK_SPAN, s, cb, ud));
      if clock + ms < 0x1_0000_0000_0000_0000 { DueMeans(clock + ms); }
    }
    NoHandleZero(t');
  }

  lemma DueMeans(due: nat)
    requires due < 0x1_0000_0000_0000_0000
    ensures due % CLOCK_SPAN == due
  {
  }

  lemma NoHandleZero(t: Table)
    ensures !Live(t, 0)
  {
  }

  lemma ArmMeans(t: Table, t': Table, s: nat, tm: Timer)
    requires ArmStep(t, t', s, tm)
    ensures s < |t'| && t'[s].armed == Some(tm) && |t| <= |t'|
    ensures s < |t| ==> t[s].armed.None?
    ensures forall k :: 0 <= k < |t| && k != s ==> t'[k] == t[k]
  {
    var g: Table :| ArmVia(t, g, t', s, tm);
    forall k | 0 <= k < |t| ensures g[k] == t[k] { assert g[..|t|][k] == t[k]; }
  }

  /** Armed timers among the first n slots. */
  function Armed(t: Table, n: nat): nat
    requires n <= |t|
  {
    if n == 0 then 0 else Armed(t, n - 1) + if t[n - 1].armed.Some? then 1 else 0
  }

  lemma {:induction false} AllArmed(t: Table, n: nat)
    requires n <= |t| && forall s :: 0 <= s < |t| ==> t[s].armed.Some?
    ensures Armed(t, n) == n
  {
    if n > 0 { AllArmed(t, n - 1); }
  }

  /** In every run, a call to after that is refused with a callback finds 2^31 timers armed. */
  lemma RefusedMeansFull(ts: seq<Table>, i: nat, clock: nat, ms: nat, cb: nat, ud: int)
    requires Run(ts) && i + 1 < |ts| && cb != 0 && AfterRel(ts[i], ts[i + 1], clock, ms, cb, ud, 0)
    ensures Armed(ts[i], |ts[i]|) >= 0x8000_0000
  {
    AfterMeans(ts[i], ts[i + 1], clock, ms, cb, ud, 0);
    AllArmed(ts[i], |ts[i]|);
  }

  /** net_loop_cancel: removes the named timer, and only that one, exactly when it is live. */
  ghost predicate CancelRel(t: Table, t': Table, id: nat, ok: bool) {
    && (ok <==> Live(t, id))
    && t' == if ok then Release(t, SlotOf(id)) else t
  }

  ghost predicate OpRel(t: Table, t': Table, op: Op) {
    match op
    case After(clock, ms, cb, ud) => exists id: nat :: AfterRel(t, t', clock, ms, cb, ud, id)
    case Cancel(id) => exists ok: bool :: CancelRel(t, t', id, ok)
  }

  /** Every call is a step of a run. */
  lemma CallIsStep(t: Table, t': Table, op: Op)
    requires OpRel(t, t', op)
    ensures Step(t, t')
  {
    match op
    case After(clock, ms, cb, ud) =>
      var id: nat :| AfterRel(t, t', clock, ms, cb, ud, id);
      if !(cb == 0 || Full(t)) {
        var s: nat :| AfterAt(t, t', clock, ms, cb, ud, id, s);
      }
    case Cancel(id) =>
      if Live(t, id) { assert ReleaseStep(t, t', SlotOf(id)); }
  }

  /** `via` lists the tables a callback body passes through. */
  ghost predicate OpsVia(via: seq<Table>, ops: seq<Op>) {
    |via| == |ops| + 1 && forall k :: 0 <= k < |ops| ==> OpAt(via, ops, k)
  }

  ghost predicate OpAt(via: seq<Table>, ops: seq<Op>, k: nat) {
    k < |ops| && k + 1 < |via| && OpRel(via[k], via[k+1], ops[k])
  }

  ghost predicate OpsRel(t: Table, t': Table, ops: seq<Op>) {
    exists via: seq<Table> :: OpsVia(via, ops) && via[0] == t && via[|ops|] == t'
  }

  /** Timers fired by a pass, with the epoch of the slot they fired from. */
  datatype Fired = Fired(slot: nat, epoch: nat, tm: Timer)

  ghost predicate NoneDue(t: Table, now: nat) {
    forall s :: 0 <= s < |t| && t[s].armed.Some? ==> now < t[s].armed.value.due
  }

  /** f is armed in t, due, and due no later than anything else armed. */
  ghost predicate FirstDue(t: Table, now: nat, f: Fired) {
    && f.slot < |t| && t[f.slot] == Cell(f.epoch, Some(f.tm))
    && f.tm.due <= now
    && forall s :: 0 <= s < |t| && t[s].armed.Some? ==> f.tm.due <= t[s].armed.value.due
  }

  /** The body of the k-th callback; a callback past the script does nothing. */
  function Body(script: seq<seq<Op>>, k: nat): seq<Op> {
    if k < |script| then script[k] else []
  }

  /** The timer pass: mid[k] is the table before the k-th firing. */
  ghost predicate PassVia(mid: seq<Table>, now: nat, script: seq<seq<Op>>, fired: seq<Fired>) {
    && |mid| == |fired| + 1
    && (forall k :: 0 <= k < |fired| ==> PassAt(mid, now, script, fired, k))
  }

  ghost predicate PassAt(mid: seq<Table>, now: nat, script: seq<seq<Op>>, fired: seq<Fired>, k: nat) {
    k < |fired| && k + 1 < |mid| && PassStep(mid[k], mid[k+1], now, Body(script, k), fired[k])
  }

  ghost predicate PassStep(t: Table, t': Table, now: nat, body: seq<Op>, f: Fired) {
    FirstDue(t, now, f) && OpsRel(Release(t, f.slot), t', body)
  }

  /** The deadline a callback sets, as stored in 64 bits, is not before the pass's clock. */
  predicate ClockOk(op: Op, now: nat) {
    op.After? && op.cb != 0 ==> now <= (op.clock + op.ms) % CLOCK_SPAN
  }

  predicate ScriptOk(script: seq<seq<Op>>, now: nat) {
    forall k, i :: 0 <= k < |script| && 0 <= i < |script[k]| ==> ClockOk(script[k][i], now)
  }

  /** All armed timers are due at or after d. */
  ghost predicate AllFrom(t: Table, d: nat) {
    forall s :: 0 <= s < |t| && t[s].armed.Some? ==> d <= t[s].armed.value.due
  }

  /** What a step may do to one slot, seen over any stretch of a run: epochs only grow, and
      within one epoch an armed slot keeps its timer. */
  ghost predicate Later(t: Table, t': Table) {
    && |t| <= |t'|
    && (forall s :: 0 <= s < |t| ==> t[s].epoch <= t'[s].epoch)
    && (forall s :: 0 <= s < |t| && t[s].armed.Some? && t'[s].epoch == t[s].epoch ==> t'[s] == t[s])
  }

  predicate Monotone(op: Op, now: nat) {
    op.After? ==> now <= op.clock && op.clock + op.ms < 0x1_0000_0000_0000_0000
  }

  lemma MonotoneClockOk(op: Op, now: nat)
    requires Monotone(op, now)
    ensures ClockOk(op, now)
  {
  }

  lemma OpKeeps(t: Table, t': Table, op: Op, now: nat, d: nat)
    requires OpRel(t, t', op)
    ensures Later(t, t')
    ensures AllFrom(t, d) && d <= now && ClockOk(op, now) ==> AllFrom(t', d)
  {
    match op
    case After(clock, ms, cb, ud) =>
      var id: nat :| AfterRel(t, t', clock, ms, cb, ud, id);
      if !(cb == 0 || Full(t)) {
        var s: nat :| AfterAt(t, t', clock, ms, cb, ud, id, s);
        ArmKeeps(t, t', s, Timer((clock + ms) % CLOCK_SPAN, s, cb, ud), d);
      }
    case Cancel(id) =>
  }

  lemma ArmKeeps(t: Table, t': Table, s: nat, tm: Timer, d: nat)
    requires ArmStep(t, t', s, tm)
    ensures Later(t, t')
    ensures AllFrom(t, d) && d <= tm.due ==> AllFrom(t', d)
  {
    var g: Table :| ArmVia(t, g, t', s, tm);
    forall k | 0 <= k < |t| ensures g[k] == t[k] { assert g[..|t|][k] == t[k]; }
  }

  lemma {:induction false} OpsKeep(via: seq<Table>, ops: seq<Op>, n: nat, now: nat, d: nat)
    requires OpsVia(via, ops) && n <= |ops|
    ensures Later(via[0], via[n])
    ensures AllFrom(via[0], d) && d <= now && (forall i :: 0 <= i < |ops| ==> ClockOk(ops[i], now))
            ==> AllFrom(via[n], d)
  {
    if n > 0 {
      OpsKeep(via, ops, n - 1, now, d);
      assert OpAt(via, ops, n - 1);
      OpKeeps(via[n-1], via[n], ops[n-1], now, d);
    }
  }

  lemma PassStepKeeps(t: Table, t': Table, now: nat, body: seq<Op>, f: Fired)
    requires PassStep(t, t', now, body, f)
    ensures Later(t, t')
    ensures f.slot < |t'| && f.epoch < t'[f.slot].epoch
    ensures (forall i :: 0 <= i < |body| ==> ClockOk(body[i], now)) ==> AllFrom(t', f.tm.due)
  {
    var via: seq<Table> :| OpsVia(via, body) && via[0] == Release(t, f.slot) && via[|body|] == t';
    OpsKeep(via, body, |body|, now, f.tm.due);
  }

  lemma {:induction false} PassLater(mid: seq<Table>, now: nat, script: seq<seq<Op>>, fired: seq<Fired>, i: nat, j: nat)
    requires PassVia(mid, now, script, fired) && i <= j <= |fired|
    ensures Later(mid[i], mid[j])
    decreases j - i
  {
    if i < j {
      PassLater(mid, now, script, fired, i, j - 1);
      assert PassAt(mid, now, script, fired, j - 1);
      PassStepKeeps(mid[j-1], mid[j], now, Body(script, j - 1), fired[j-1]);
    }
  }

  lemma ExtendVia(via: seq<Table>, ops: seq<Op>, t: Table, op: Op)
    requires OpsVia(via, ops) && OpRel(via[|ops|], t, op)
    ensures OpsVia(via + [t], ops + [op])
  {
    var via', ops' := via + [t], ops + [op];
    forall k | 0 <= k < |ops'| ensures OpAt(via', ops', k) {
      assert k < |ops| ==> OpAt(via, ops, k);
    }
  }

  lemma ExtendPass(mid: seq<Table>, now: nat, script: seq<seq<Op>>, fired: seq<Fired>, t: Table, f: Fired)
    requires PassVia(mid, now, script, fired)
    requires PassStep(mid[|fired|], t, now, Body(script, |fired|), f)
    ensures PassVia(mid + [t], now, script, fired + [f])
  {
    var mid', fired' := mid + [t], fired + [f];
    forall k | 0 <= k < |fired'| ensures PassAt(mid', now, script, fired', k) {
      assert k < |fired| ==> PassAt(mid, now, script, fired, k);
    }
  }

  /** Calls the script still holds from the k-th callback on. */
  function Pending(script: seq<seq<Op>>, k: nat): nat
    decreases |script| - k
  {
    if k < |script| then |script[k]| + Pending(script, k + 1) else 0
  }

  /** No timer fires twice in a pass, whatever the callbacks arm or cancel. */
  lemma PassFiresOnce(mid: seq<Table>, now: nat, script: seq<seq<Op>>, fired: seq<Fired>, i: nat, j: nat)
    requires PassVia(mid, now, script, fired) && i < j < |fired|
    ensures (fired[i].slot, fired[i].epoch) != (fired[j].slot, fired[j].epoch)
  {
    assert PassAt(mid, now, script, fired, i);
    assert PassAt(mid, now, script, fired, j);
    PassStepKeeps(mid[i], mid[i+1], now, Body(script, i), fired[i]);
    PassLater(mid, now, script, fired, i + 1, j);
  }

  /** While no deadline is stored that lies before the pass's clock, timers fire in non-decreasing
      due order. */
  lemma {:induction false} PassInOrder(mid: seq<Table>, now: nat, script: seq<seq<Op>>, fired: seq<Fired>, i: nat, j: nat)
    requires PassVia(mid, now, script, fired) && ScriptOk(script, now) && i <= j < |fired|
    ensures fired[i].tm.due <= fired[j].tm.due <= now
    decreases j - i
  {
    assert PassAt(mid, now, script, fired, j);
    if i < j {
      PassInOrder(mid, now, script, fired, i, j - 1);
      assert PassAt(mid, now, script, fired, j - 1);
      PassStepKeeps(mid[j-1], mid[j], now, Body(script, j - 1), fired[j-1]);
    }
  }

  /** In particular under a clock that does not run backwards, with deadlines that fit 64 bits. */
  lemma MonotonePassInOrder(mid: seq<Table>, now: nat, script: seq<seq<Op>>, fired: seq<Fired>, i: nat, j: nat)
    requires PassVia(mid, now, script, fired) && i <= j < |fired|
    requires forall k, n :: 0 <= k < |script| && 0 <= n < |script[k]| ==> Monotone(script[k][n], now)
    ensures fired[i].tm.due <= fired[j].tm.due <= now
  {
    forall k, n | 0 <= k < |script| && 0 <= n < |script[k]| ensures ClockOk(script[k][n], now) {
      MonotoneClockOk(script[k][n], now);
    }
    PassInOrder(mid, now, script, fired, i, j);
  }

  /** A timer due at the start of a completed pass is gone at its end: it fired, or an
      earlier callback cancelled it. */
  lemma PassClearsDue(mid: seq<Table>, now: nat, script: seq<seq<Op>>, fired: seq<Fired>, s: nat)
    requires PassVia(mid, now, script, fired) && NoneDue(mid[|fired|], now)
    requires s < |mid[0]| && mid[0][s].armed.Some? && mid[0][s].armed.value.due <= now
    ensures s < |mid[|fired|]| && mid[0][s].epoch < mid[|fired|][s].epoch
  {
    PassLater(mid, now, script, fired, 0, |fired|);
  }

  lemma StepLater(t: Table, t': Table)
    requires Step(t, t')
    ensures Later(t, t')
  {
    if s: nat, tm: Timer :| ArmStep(t, t', s, tm) {
      ArmKeeps(t, t', s, tm, 0);
    }
  }

  lemma {:induction false} RunLater(ts: seq<Table>, i: nat, j: nat)
    requires Run(ts) && i <= j < |ts|
    ensures Later(ts[i], ts[j])
    decreases j - i
  {
    if i < j {
      RunLater(ts, i, j - 1);
      assert StepAt(ts, j - 1);
      StepLater(ts[j-1], ts[j]);
    }
  }

  /** A timer never fires early: if the one a call to after armed is fired in a later pass of the
      run, the clock of the pass has reached the deadline asked for, and it is that callback that
      is called. */
  lemma NeverEarly(ts: seq<Table>, i: nat, j: nat, clock: nat, ms: nat, cb: nat, ud: int, id: nat,
                   mid: seq<Table>, now: nat, script: seq<seq<Op>>, fired: seq<Fired>, k: nat)
    requires Run(ts) && i < j < |ts| && id != 0 && AfterRel(ts[i], ts[i + 1], clock, ms, cb, ud, id)
    requires clock + ms < 0x1_0000_0000_0000_0000
    requires PassVia(mid, now, script, fired) && mid[0] == ts[j] && k < |fired|
    requires SlotOf(id) < |ts[i + 1]| && fired[k].slot == SlotOf(id) && fired[k].epoch == ts[i + 1][SlotOf(id)].epoch
    ensures clock + ms <= now && fired[k].tm.cb == cb && fired[k].tm.ud == ud
  {
    AfterMeans(ts[i], ts[i + 1], clock, ms, cb, ud, id);
    RunLater(ts, i + 1, j);
    PassLater(mid, now, script, fired, 0, k);
    assert PassAt(mid, now, script, fired, k);
  }

  // ---------- a pass is part of a run ----------

  lemma RunExtend(ts: seq<Table>, t: Table)
    requires Run(ts) && Step(ts[|ts| - 1], t)
    ensures Run(ts + [t])
  {
    var us := ts + [t];
    forall i | 0 <= i < |us| - 1 ensures StepAt(us, i) {
      if i < |ts| - 1 { assert StepAt(ts, i); }
    }
  }

  /** The calls of a callback carry a run on. */
  lemma {:induction false} OpsAreRun(ts: seq<Table>, via: seq<Table>, ops: seq<Op>, n: nat)
    requires Run(ts) && OpsVia(via, ops) && n <= |ops| && ts[|ts| - 1] == via[0]
    ensures Run(ts + via[1..n + 1]) && (ts + via[1..n + 1])[|ts| + n - 1] == via[n]
    decreases n
  {
    if n == 0 {
      assert ts + via[1..1] == ts;
    } else {
      OpsAreRun(ts, via, ops, n - 1);
      assert OpAt(via, ops, n - 1);
      CallIsStep(via[n - 1], via[n], ops[n - 1]);
      RunExtend(ts + via[1..n], via[n]);
      assert ts + via[1..n + 1] == ts + via[1..n] + [via[n]];
    }
  }

  /** So does a timer pass, firing by firing: what holds of all runs holds of every sequence of
      calls and passes. */
  lemma {:induction false} PassIsRun(ts: seq<Table>, mid: seq<Table>, now: nat, script: seq<seq<Op>>,
                                     fired: seq<Fired>, n: nat) returns (us: seq<Table>)
    requires Run(ts) && PassVia(mid, now, script, fired) && n <= |fired| && ts[|ts| - 1] == mid[0]
    ensures Run(us) && ts <= us && us[|us| - 1] == mid[n]
    ensures forall k :: 0 <= k <= n ==> mid[k] in us[|ts| - 1..]
    decreases n
  {
    us := ts;
    if n > 0 {
      var vs := PassIsRun(ts, mid, now, script, fired, n - 1);
      assert PassAt(mid, now, script, fired, n - 1);
      us := FiringIsRun(vs, mid[n - 1], mid[n], now, Body(script, n - 1), fired[n - 1]);
      assert us[|us| - 1] in us[|ts| - 1..];
      forall k | 0 <= k < n ensures mid[k] in us[|ts| - 1..] {
        assert us[|ts| - 1..][..|vs| - |ts| + 1] == vs[|ts| - 1..];
      }
    }
  }

  lemma FiringIsRun(ts: seq<Table>, t: Table, t': Table, now: nat, body: seq<Op>, f: Fired) returns (us: seq<Table>)
    requires Run(ts) && ts[|ts| - 1] == t && PassStep(t, t', now, body, f)
    ensures Run(us) && ts <= us && us[|us| - 1] == t' && |us| > |ts|
  {
    var via: seq<Table> :| OpsVia(via, body) && via[0] == Release(t, f.slot) && via[|body|] == t';
    assert ReleaseStep(t, via[0], f.slot);
    RunExtend(ts, via[0]);
    OpsAreRun(ts + [via[0]], via, body, |body|);
    us := ts + [via[0]] + via[1..|body| + 1];
  }

  /** The handle of a timer that fired is dead by the end of the pass, unless its slot was released
      2^32 - 1 times on the way. */
  lemma FiredHandleDies(mid: seq<Table>, now: nat, script: seq<seq<Op>>, fired: seq<Fired>, k: nat, id: nat)
    requires PassVia(mid, now, script, fired) && k < |fired|
    requires Live(mid[k], id) && SlotOf(id) == fired[k].slot && Live(mid[|fired|], id)
    ensures Releases(mid[|fired|], SlotOf(id)) - Releases(mid[k], SlotOf(id)) >= 0xFFFF_FFFF
  {
    assert PassAt(mid, now, script, fired, k);
    PassStepKeeps(mid[k], mid[k + 1], now, Body(script, k), fired[k]);
    PassLater(mid, now, script, fired, k + 1, |fired|);
    ModGap(Releases(mid[k], SlotOf(id)), Releases(mid[|fired|], SlotOf(id)), GEN_MOD);
  }

  ghost predicate InOrder(fired: seq<Fired>) {
    forall i, j :: 0 <= i <= j < |fired| ==> fired[i].tm.due <= fired[j].tm.due
  }

  /** The callback that took the table from t to t' has left a timer armed that is due before d. */
  ghost predicate LeftEarly(t: Table, t': Table, d: nat) {
    exists s :: 0 <= s < |t'| && EarlyAt(t, t', d, s)
  }

  ghost predicate EarlyAt(t: Table, t': Table, d: nat, s: nat) {
    s < |t'| && t'[s].armed.Some? && t'[s].armed.value.due < d && (s >= |t| || t'[s] != t[s])
  }

  ghost predicate NoneEarly(mid: seq<Table>, fired: seq<Fired>, k: nat)
    requires |mid| == |fired| + 1 && k < |fired|
  {
    !LeftEarly(mid[k], mid[k+1], fired[k].tm.due)
  }

  /** The exact condition for any pass: it fires in order if and only if no callback but the last
      leaves a timer armed that is due before the one it was called for. */
  lemma PassOrderExactly(mid: seq<Table>, now: nat, script: seq<seq<Op>>, fired: seq<Fired>)
    requires PassVia(mid, now, script, fired)
    ensures InOrder(fired) <==> forall k :: 0 <= k < |fired| - 1 ==> NoneEarly(mid, fired, k)
  {
    forall k | 0 <= k < |fired| - 1
      ensures NoneEarly(mid, fired, k) <==> fired[k].tm.due <= fired[k+1].tm.due
    {
      assert PassAt(mid, now, script, fired, k) && PassAt(mid, now, script, fired, k + 1);
      NextInOrder(mid[k], mid[k+1], now, fired[k], fired[k+1]);
    }
    if InOrder(fired) {
      forall k | 0 <= k < |fired| - 1 ensures NoneEarly(mid, fired, k) {
        assert fired[k].tm.due <= fired[k+1].tm.due;
      }
    }
    if forall k :: 0 <= k < |fired| - 1 ==> NoneEarly(mid, fired, k) {
      forall i, j | 0 <= i <= j < |fired| ensures fired[i].tm.due <= fired[j].tm.due {
        ChainInOrder(mid, fired, i, j);
      }
    }
  }

  lemma NextInOrder(t: Table, t': Table, now: nat, f: Fired, g: Fired)
    requires FirstDue(t, now, f) && FirstDue(t', now, g)
    ensures !LeftEarly(t, t', f.tm.due) <==> f.tm.due <= g.tm.due
  {
    if g.tm.due < f.tm.due { assert EarlyAt(t, t', f.tm.due, g.slot); }
  }

  lemma {:induction false} ChainInOrder(mid: seq<Table>, fired: seq<Fired>, i: nat, j: nat)
    requires |mid| == |fired| + 1 && i <= j < |fired|
    requires forall k :: 0 <= k < |fired| - 1 ==> NoneEarly(mid, fired, k)
    requires forall k :: 0 <= k < |fired| - 1 ==> (NoneEarly(mid, fired, k) <==> fired[k].tm.due <= fired[k+1].tm.due)
    ensures fired[i].tm.due <= fired[j].tm.due
    decreases j - i
  {
    if i < j {
      ChainInOrder(mid, fired, i, j - 1);
      assert NoneEarly(mid, fired, j - 1);
    }
  }

  /** What a call must not do to keep every pass in order: a callback making one call keeps every pass in order if and
      only if the deadline it stores is not before the pass's clock. A deadline that
      overflows 64 bits is stored as an early one and fires out of turn. */
  lemma OrderNeedsClockOk(op: Op, now: nat)
    ensures ClockOk(op, now) <==>
            (forall mid: seq<Table>, fired: seq<Fired> ::
               PassVia(mid, now, [[op]], fired) ==> InOrder(fired))
  {
    if ClockOk(op, now) {
      assert ScriptOk([[op]], now);
      forall mid: seq<Table>, fired: seq<Fired> | PassVia(mid, now, [[op]], fired)
        ensures InOrder(fired)
      {
        forall i, j | 0 <= i <= j < |fired| ensures fired[i].tm.due <= fired[j].tm.due {
          PassInOrder(mid, now, [[op]], fired, i, j);
        }
      }
    } else {
      var mid, fired := OutOfTurn(op, now);
      assert PassVia(mid, now, [[op]], fired) && !InOrder(fired);
    }
  }

  /** It takes one timer on a new loop, whose table has 16 slots. */
  lemma OutOfTurn(op: Op, now: nat) returns (mid: seq<Table>, fired: seq<Fired>)
    requires !ClockOk(op, now)
    ensures PassVia(mid, now, [[op]], fired) && !InOrder(fired)
    ensures |mid[0]| == 16 && ArmStep([], mid[0], 0, fired[0].tm)
  {
    var rest: Table := seq(15, _ => Cell(0, None));
    var late := Timer(now, 0, 1, 0);
    var early := Timer((op.clock + op.ms) % CLOCK_SPAN, 0, op.cb, op.ud);
    var t0: Table := [Cell(0, Some(late))] + rest;
    var t1: Table := [Cell(1, None)] + rest;
    var t2: Table := [Cell(1, Some(early))] + rest;
    var t3: Table := [Cell(2, None)] + rest;
    assert ArmVia([], [Cell(0, None)] + rest, t0, 0, late);
    var id := Handle(2, 0);
    HandleParts(2, 0);
    assert ArmVia(t1, t1, t2, 0, early);
    assert AfterAt(t1, t2, op.clock, op.ms, op.cb, op.ud, id, 0);
    assert AfterRel(t1, t2, op.clock, op.ms, op.cb, op.ud, id);
    assert OpAt([t1, t2], [op], 0) && OpsVia([t1, t2], [op]);
    assert OpsVia([t3], []);
    fired := [Fired(0, 0, late), Fired(0, 1, early)];
    mid := [t0, t2, t3];
    assert Release(t0, 0) == t1 && Release(t2, 0) == t3;
    assert PassStep(t0, t2, now, [op], fired[0]);
    assert PassStep(t2, t3, now, [], fired[1]);
    assert PassAt(mid, now, [[op]], fired, 0) && PassAt(mid, now, [[op]], fired, 1);
    assert fired[1].tm.due < fired[0].tm.due;
  }
}

/** The concrete timer heap with its handle table. */
module TimerHeap {
  import opened Basics
  import opened TimerSpec

  datatype Slot = Slot(pos: nat, gen: nat, next: nat)

  // ---------- heap order ----------

  /** The edge from heap entry j to its parent is in order. */
  predicate EdgeOk(h: seq<Timer>, j: nat)
    requires j < |h|
  {
    j == 0 || h[(j - 1) / 2].due <= h[j].due
  }

  predicate IsHeap(h: seq<Timer>) {
    forall j :: 0 <= j < |h| ==> EdgeOk(h, j)
  }

  /** Every edge is in order except possibly the one above k; the children of k still
      respect k's parent. */
  predicate HeapBelow(h: seq<Timer>, k: nat) {
    && (forall j :: 0 <= j < |h| && j != k ==> EdgeOk(h, j))
    && Bridge(h, k)
  }

  /** Every edge not touching k is in order, and k's children respect k's parent. */
  predicate HeapAround(h: seq<Timer>, k: nat) {
    && (forall j :: 1 <= j < |h| && j != k && (j - 1) / 2 != k ==> EdgeOk(h, j))
    && Bridge(h, k)
  }

  predicate Bridge(h: seq<Timer>, k: nat) {
    k > 0 && k < |h| ==>
      forall j :: 1 <= j < |h| && (j - 1) / 2 == k ==> h[(k - 1) / 2].due <= h[j].due
  }

  lemma {:induction false} RootIsMin(h: seq<Timer>, j: nat)
    requires IsHeap(h) && j < |h|
    ensures h[0].due <= h[j].due
  {
    if j > 0 {
      assert EdgeOk(h, j);
      RootIsMin(h, (j - 1) / 2);
    }
  }

  // ---------- links between heap and handle table ----------

  predicate Linked(h: seq<Timer>, sl: seq<Slot>) {
    && (forall i :: 0 <= i < |h| ==> h[i].slot < |sl| && sl[h[i].slot].pos == i)
    && (forall s :: 0 <= s < |sl| && sl[s].pos != NOPOS ==> sl[s].pos < |h| && h[sl[s].pos].slot == s)
  }

  /** What slot s holds: its armed timer, if any. */
  function Held(h: seq<Timer>, sl: seq<Slot>, s: nat): Option<Timer>
    requires s < |sl|
  {
    if sl[s].pos < |h| then Some(h[sl[s].pos]) else None
  }

  /** The abstract table a heap and handle table stand for. */
  function TableOf(h: seq<Timer>, sl: seq<Slot>, ep: seq<nat>): Table
    requires |ep| == |sl|
  {
    seq(|sl|, s requires 0 <= s < |sl| => Cell(ep[s], Held(h, sl, s)))
  }

  predicate Gens(sl: seq<Slot>, ep: seq<nat>) {
    |ep| == |sl| && forall s :: 0 <= s < |sl| ==> sl[s].gen == GenOf(ep[s])
  }

  /** Two heap/table pairs hold the same timer in every slot, with the same generations
      and free-list links. */
  predicate SameHeld(h: seq<Timer>, sl: seq<Slot>, h': seq<Timer>, sl': seq<Slot>) {
    && |h| == |h'| && |sl| == |sl'|
    && (forall s :: 0 <= s < |sl| ==> sl'[s].gen == sl[s].gen && sl'[s].next == sl[s].next)
    && (forall s :: 0 <= s < |sl| ==> Held(h', sl', s) == Held(h, sl, s))
  }

  /** The same, while timer t is in hand and heap entry k is a hole. */
  predicate LinkedHole(h: seq<Timer>, sl: seq<Slot>, k: nat, t: Timer) {
    && k < |h| && t.slot < |sl|
    && (forall i :: 0 <= i < |h| && i != k ==> h[i].slot < |sl| && h[i].slot != t.slot && sl[h[i].slot].pos == i)
    && (forall s :: 0 <= s < |sl| && s != t.slot && sl[s].pos != NOPOS ==>
          sl[s].pos < |h| && sl[s].pos != k && h[sl[s].pos].slot == s)
  }

  predicate SameHeldHole(h: seq<Timer>, sl: seq<Slot>, h': seq<Timer>, sl': seq<Slot>, t: Timer) {
    && |h| == |h'| && |sl| == |sl'|
    && (forall s :: 0 <= s < |sl| ==> sl'[s].gen == sl[s].gen && sl'[s].next == sl[s].next)
    && (forall s :: 0 <= s < |sl| && s != t.slot ==> Held(h', sl', s) == Held(h, sl, s))
  }

  /** Moving entry p into the hole k keeps every slot but t's resolvable. */
  lemma MoveHole(h0: seq<Timer>, sl0: seq<Slot>, h: seq<Timer>, sl: seq<Slot>, k: nat, p: nat, t: Timer)
    requires LinkedHole(h, sl, k, t) && SameHeldHole(h0, sl0, h, sl, t)
    requires p < |h| < NOPOS && p != k
    ensures LinkedHole(h[k := h[p]], sl[h[p].slot := sl[h[p].slot].(pos := k)], p, t)
    ensures SameHeldHole(h0, sl0, h[k := h[p]], sl[h[p].slot := sl[h[p].slot].(pos := k)], t)
  {
  }

  /** Putting t into the hole closes it. */
  lemma FillHole(h0: seq<Timer>, sl0: seq<Slot>, h: seq<Timer>, sl: seq<Slot>, k: nat, t: Timer)
    requires LinkedHole(h, sl, k, t) && SameHeldHole(h0, sl0, h, sl, t)
    requires |h| < NOPOS
    requires t.slot < |sl0| && Held(h0, sl0, t.slot) == Some(t)
    ensures Linked(h[k := t], sl[t.slot := sl[t.slot].(pos := k)])
    ensures SameHeld(h0, sl0, h[k := t], sl[t.slot := sl[t.slot].(pos := k)])
  {
  }

  // ---------- free list ----------

  predicate LinkOk(sl: seq<Slot>, free: seq<nat>, i: nat) {
    && i < |free| && free[i] < |sl|
    && sl[free[i]].next == if i + 1 < |free| then free[i+1] else NOSLOT
  }

  predicate Chained(sl: seq<Slot>, free: seq<nat>) {
    forall i {:trigger LinkOk(sl, free, i)} :: 0 <= i < |free| ==> LinkOk(sl, free, i)
  }

  predicate Distinct(q: seq<nat>) {
    forall i, j :: 0 <= i < j < |q| ==> q[i] != q[j]
  }

  lemma DistinctTail(s: nat, q: seq<nat>)
    requires Distinct([s] + q)
    ensures Distinct(q) && s !in q
  {
    var q1 := [s] + q;
    forall i, j | 0 <= i < j < |q| ensures q[i] != q[j] {
      assert q1[i+1] != q1[j+1];
    }
    forall j | 0 <= j < |q| ensures q[j] != s {
      assert q1[0] != q1[j+1];
    }
  }

  lemma ChainedTail(sl: seq<Slot>, sl': seq<Slot>, s: nat, q: seq<nat>)
    requires Chained(sl, [s] + q) && |sl'| == |sl|
    requires forall k :: 0 <= k < |sl| ==> sl'[k].next == sl[k].next
    ensures Chained(sl', q)
  {
    var q1 := [s] + q;
    forall i | 0 <= i < |q| ensures LinkOk(sl', q, i) {
      assert q1[i+1] == q[i] && LinkOk(sl, q1, i + 1);
    }
  }

  /** `free` lists the free slots in link order from the head: each once, none armed. */
  predicate FreeList(sl: seq<Slot>, head: nat, free: seq<nat>) {
    && head == (if free == [] then NOSLOT else free[0])
    && Distinct(free)
    && Chained(sl, free)
    && (free != [] ==> LinkOk(sl, free, 0))
    && (forall s :: 0 <= s < |sl| ==> (sl[s].pos == NOPOS <==> s in free))
  }

  // ---------- the loop object ----------

  class Loop {
    var tmr: seq<Timer>
    var slot: seq<Slot>
    var freeslot: nat
    ghost var free: seq<nat>
    ghost var epoch: seq<nat>

    ghost predicate Valid()
      reads this
    {
      && IsHeap(tmr)
      && Linked(tmr, slot)
      && FreeList(slot, freeslot, free)
      && |tmr| + |free| == |slot| < NOSLOT
      && Gens(slot, epoch)
    }

    ghost function Table(): Table
      reads this
      requires |epoch| == |slot|
    {
      TableOf(tmr, slot, epoch)
    }

    constructor ()
      ensures Valid() && Table() == []
    {
      tmr, slot, freeslot := [], [], NOSLOT;
      free, epoch := [], [];
    }

    method Place(i: nat)
      requires i < |tmr| && tmr[i].slot < |slot|
      modifies `slot
      ensures slot == old(slot)[tmr[i].slot := old(slot)[tmr[i].slot].(pos := i)]
    {
      slot := slot[tmr[i].slot := slot[tmr[i].slot].(pos := i)];
    }

    method Up(start: nat)
      requires start < |tmr| < NOPOS
      requires Linked(tmr, slot) && HeapBelow(tmr, start)
      modifies `tmr, `slot
      ensures Linked(tmr, slot) && IsHeap(tmr)
      ensures SameHeld(old(tmr), old(slot), tmr, slot)
    {
      var i := start;
      var t := tmr[i];
      assert tmr[i := t] == tmr;
      while i > 0 && t.due < tmr[(i - 1) / 2].due
        invariant i < |tmr| == |old(tmr)|
        invariant LinkedHole(tmr, slot, i, t)
        invariant SameHeldHole(old(tmr), old(slot), tmr, slot, t)
        invariant HeapBelow(tmr[i := t], i)
      {
        var p := (i - 1) / 2;
        MoveHole(old(tmr), old(slot), tmr, slot, i, p, t);
        UpStep(tmr[i := t], tmr[i := tmr[p]][p := t], i, p);
        tmr := tmr[i := tmr[p]];
        Place(i);
        i := p;
      }
      assert EdgeOk(tmr[i := t], i);
      FillHole(old(tmr), old(slot), tmr, slot, i, t);
      tmr := tmr[i := t];
      Place(i);
    }

    method Down(start: nat)
      requires start < |tmr| < NOPOS
      requires Linked(tmr, slot) && HeapAround(tmr, start)
      modifies `tmr, `slot
      ensures Linked(tmr, slot) && HeapBelow(tmr, start)
      ensures SameHeld(old(tmr), old(slot), tmr, slot)
    {
      var n := |tmr|;
      var i := start;
      var t := tmr[i];
      SinkStart(tmr, slot, start);
      while true
        invariant Sinking(old(tmr), old(slot), tmr, slot, start, i, t)
        invariant |tmr| == n
        decreases n - i
      {
        var c := 2 * i + 1;
        if c >= n {
          SinkStop(old(tmr), old(slot), tmr, slot, start, i, t);
          break;
        }
        if c + 1 < n && tmr[c+1].due < tmr[c].due { c := c + 1; }
        if t.due <= tmr[c].due {
          SinkStop(old(tmr), old(slot), tmr, slot, start, i, t);
          break;
        }
        SinkMove(old(tmr), old(slot), tmr, slot, start, i, c, t);
        tmr := tmr[i := tmr[c]];
        Place(i);
        i := c;
      }
      tmr := tmr[i := t];
      Place(i);
    }

    /** Overwrite heap entry i, whose slot has just been released, with the last entry. */
    method Backfill(i: nat, ghost sl: seq<Slot>, ghost g: nat, ghost next: nat)
      requires i < |tmr| < NOPOS && IsHeap(tmr) && Linked(tmr, sl)
      requires slot == sl[tmr[i].slot := Slot(NOPOS, g, next)]
      modifies `tmr, `slot
      ensures IsHeap(tmr) && Linked(tmr, slot)
      ensures Removed(old(tmr), sl, tmr, slot, old(tmr[i].slot), g, next)
    {
      ghost var s := tmr[i].slot;
      RemoveOrder(tmr, i);
      if i < |tmr| - 1 { RemoveInner(tmr, sl, i, g, next); } else { RemoveLast(tmr, sl, g, next); }
      tmr := tmr[i := tmr[|tmr| - 1]][..|tmr| - 1];
      if i < |tmr| {
        Place(i);
        ghost var h1, sl1 := tmr, slot;
        Down(i);
        RemovedSame(old(tmr), sl, h1, sl1, tmr, slot, s, g, next);
        ghost var h2, sl2 := tmr, slot;
        Up(i);
        RemovedSame(old(tmr), sl, h2, sl2, tmr, slot, s, g, next);
      }
    }

    /** tmr_remove: the timer at heap entry i is gone and its slot is the first to be reused. */
    method Remove(i: nat)
      requires Valid() && i < |tmr|
      modifies this
      ensures Valid()
      ensures |tmr| == |old(tmr)| - 1
      ensures Table() == Release(old(Table()), old(tmr[i].slot))
      ensures freeslot == old(tmr[i].slot) && free == [freeslot] + old(free)
    {
      var s := tmr[i].slot;
      var g := (slot[s].gen + 1) % SLOT_SPAN;
      if g == 0 { g := 1; }
      slot := slot[s := Slot(NOPOS, g, freeslot)];
      freeslot := s;
      Backfill(i, old(slot), g, old(freeslot));
      RemoveDone(old(tmr), old(slot), epoch, tmr, slot, s, g, old(freeslot), free);
      free := [s] + free;
      epoch := epoch[s := epoch[s] + 1];
    }

    /** Double the handle table; the new slots become the free list, in order. */
    method Grow(c: nat)
      requires Valid() && freeslot == NOSLOT && |slot| < c < NOSLOT
      modifies `slot, `freeslot, `free, `epoch
      ensures Valid() && free != [] && |slot| == c
      ensures Grown(old(Table()), Table())
    {
      NoneFree(tmr, slot, epoch, freeslot, free);
      var base := |slot|;
      var grown := slot;
      var i := base;
      while i < c
        invariant base <= i <= c && |grown| == i
        invariant forall k :: 0 <= k < base ==> grown[k] == slot[k]
        invariant forall k :: base <= k < i ==> grown[k] == FreshSlot(k, c)
      {
        grown := grown + [Slot(NOPOS, 1, if i + 1 < c then i + 1 else NOSLOT)];
        i := i + 1;
      }
      GrowTable(tmr, slot, grown, epoch);
      slot := grown;
      epoch := epoch + seq(c - base, _ => 0);
      freeslot := base;
      free := seq(c - base, k requires 0 <= k < c - base => base + k);
      GrowFree(old(slot), slot, base, free);
    }

    /** tmr_slot_alloc: the head of the free list, off the list but not yet armed. An empty list
        first grows the table; NOSLOT when it cannot. */
    method SlotAlloc() returns (s: nat)
      requires Valid()
      modifies `slot, `freeslot, `free, `epoch
      ensures s == NOSLOT <==> Full(old(Table()))
      ensures s == NOSLOT ==> Valid() && Table() == old(Table())
      ensures s != NOSLOT ==> Popped(tmr, slot, freeslot, free, epoch, s)
      ensures s != NOSLOT ==> Grown(old(Table()), Table())
      ensures |slot| == |old(slot)| || |slot| == if |old(slot)| == 0 then 16 else 2 * |old(slot)|
      ensures s == NOSLOT <==> |tmr| == |old(slot)| >= 0x8000_0000
    {
      if freeslot == NOSLOT {
        var c := if |slot| > 0 then |slot| * 2 else 16;
        NoneFree(tmr, slot, epoch, freeslot, free);
        if c >= NOSLOT {
          return NOSLOT;
        }
        Grow(c);
      } else {
        SomeFree(tmr, slot, epoch, freeslot, free);
      }
      s := freeslot;
      PopFree(slot, s, free);
      freeslot := slot[s].next;
      free := free[1..];
    }

    /** Arm a one-shot timer; 0 on failure. */
    method After(clock: nat, ms: nat, cb: nat, ud: int) returns (id: nat)
      requires Valid()
      modifies this
      ensures Valid()
      ensures AfterRel(old(Table()), Table(), clock, ms, cb, ud, id)
      ensures |tmr| <= |old(tmr)| + 1
      ensures cb != 0 && |old(tmr)| < 0x8000_0000 ==> id != 0 && Live(Table(), id) && |tmr| == |old(tmr)| + 1
      ensures |slot| == |old(slot)| || |slot| == if |old(slot)| == 0 then 16 else 2 * |old(slot)|
    {
      if cb == 0 {
        return 0;
      }
      var s := SlotAlloc();
      if s == NOSLOT {
        return 0;
      }
      ghost var grown, h, sl := Table(), tmr, slot;
      var t := Timer((clock + ms) % CLOCK_SPAN, s, cb, ud);
      ArmEntry(tmr, slot, freeslot, free, epoch, s, t);
      tmr := tmr + [t];
      slot := slot[s := slot[s].(pos := |tmr| - 1)];
      Up(|tmr| - 1);
      ArmDone(h, sl, tmr, slot, freeslot, free, epoch, s, t);
      id := Handle(slot[s].gen, s);
      AfterDone(old(Table()), grown, Table(), clock, ms, cb, ud, s);
    }

    /** Disarm the timer a handle names; false when it names none. */
    method Cancel(id: nat) returns (ok: bool)
      requires Valid()
      modifies this
      ensures Valid()
      ensures CancelRel(old(Table()), Table(), id, ok)
      ensures |tmr| <= |old(tmr)|
    {
      var s := SlotOf(id);
      if s >= |slot| {
        return false;
      }
      if slot[s].gen != GenPart(id) {
        return false;
      }
      var i := slot[s].pos;
      if i == NOPOS {
        return false;
      }
      Remove(i);
      return true;
    }

    /** One call a callback makes. */
    method Call(op: Op)
      requires Valid()
      modifies this
      ensures Valid()
      ensures OpRel(old(Table()), Table(), op)
      ensures |tmr| <= |old(tmr)| + 1
    {
      match op
      case After(clock, ms, cb, ud) =>
        var id := After(clock, ms, cb, ud);
      case Cancel(id) =>
        var ok := Cancel(id);
    }

    /** A callback body: any sequence of arm and cancel calls. */
    method Callback(ops: seq<Op>)
      requires Valid()
      modifies this
      ensures Valid()
      ensures OpsRel(old(Table()), Table(), ops)
      ensures |tmr| <= |old(tmr)| + |ops|
    {
      ghost var via: seq<Table> := [Table()];
      for k := 0 to |ops|
        invariant Valid()
        invariant OpsVia(via, ops[..k]) && via[0] == old(Table()) && via[k] == Table()
        invariant |tmr| <= |old(tmr)| + k
      {
        Call(ops[k]);
        ExtendVia(via, ops[..k], Table(), ops[k]);
        assert ops[..k+1] == ops[..k] + [ops[k]];
        via := via + [Table()];
      }
      assert ops[..|ops|] == ops;
    }

    /** The timer pass of one loop iteration: fire everything due at `now`. The k-th callback
        makes the calls script[k]. */
    method TimerPass(now: nat, script: seq<seq<Op>>)
        returns (fired: seq<Timer>, ghost log: seq<Fired>, ghost mid: seq<Table>)
      requires Valid()
      modifies this
      ensures Valid()
      ensures PassVia(mid, now, script, log) && mid[0] == old(Table()) && mid[|log|] == Table()
      ensures NoneDue(Table(), now)
      ensures |fired| == |log| && forall k :: 0 <= k < |log| ==> fired[k] == log[k].tm
    {
      fired, log, mid := [], [], [Table()];
      while |tmr| > 0 && tmr[0].due <= now
        invariant Valid()
        invariant PassVia(mid, now, script, log) && mid[0] == old(Table()) && mid[|log|] == Table()
        invariant |fired| == |log| && forall k :: 0 <= k < |log| ==> fired[k] == log[k].tm
        decreases |tmr| + Pending(script, |fired|)
      {
        var k := |fired|;
        var due := tmr[0];
        ghost var t, f := Table(), Fired(due.slot, epoch[due.slot], due);
        HeadFirst(tmr, slot, epoch, now);
        Remove(0);
        Callback(Body(script, k));
        assert PassStep(t, Table(), now, Body(script, k), f);
        ExtendPass(mid, now, script, log, Table(), f);
        fired, log, mid := fired + [due], log + [f], mid + [Table()];
      }
      HeadLast(tmr, slot, epoch, now);
    }
  }

  /** Bumping the generation and skipping 0 follows the epoch. */
  lemma GenStep(e: nat)
    ensures GenOf(e + 1) == var g := (GenOf(e) + 1) % SLOT_SPAN; if g == 0 then 1 else g
  {
  }

  /** Slot s has been released with generation g and link next; every other slot holds
      what it held. */
  predicate Removed(h: seq<Timer>, sl: seq<Slot>, h': seq<Timer>, sl': seq<Slot>, s: nat, g: nat, next: nat) {
    && |h'| == |h| - 1 && |sl'| == |sl| && s < |sl|
    && (forall k :: 0 <= k < |sl| && k != s ==> sl'[k].gen == sl[k].gen && sl'[k].next == sl[k].next)
    && (forall k :: 0 <= k < |sl| && k != s ==> Held(h', sl', k) == Held(h, sl, k))
    && Held(h', sl', s) == None && sl'[s].gen == g && sl'[s].next == next
  }

  lemma RemovedSame(h: seq<Timer>, sl: seq<Slot>, h1: seq<Timer>, sl1: seq<Slot>, h2: seq<Timer>, sl2: seq<Slot>,
                    s: nat, g: nat, next: nat)
    requires Removed(h, sl, h1, sl1, s, g, next) && SameHeld(h1, sl1, h2, sl2)
    ensures Removed(h, sl, h2, sl2, s, g, next)
  {
  }

  /** Removing the last heap entry. */
  lemma RemoveLast(h: seq<Timer>, sl: seq<Slot>, g: nat, next: nat)
    requires 0 < |h| < NOPOS && Linked(h, sl)
    ensures var s := h[|h| - 1].slot;
            var sl1 := sl[s := Slot(NOPOS, g, next)];
            Linked(h[..|h| - 1], sl1) && Removed(h, sl, h[..|h| - 1], sl1, s, g, next)
  {
  }

  /** Removing an inner heap entry: the last one takes its place. */
  lemma RemoveInner(h: seq<Timer>, sl: seq<Slot>, i: nat, g: nat, next: nat)
    requires i < |h| - 1 && |h| < NOPOS && Linked(h, sl)
    ensures var s, m := h[i].slot, h[|h| - 1];
            var h1 := h[i := m][..|h| - 1];
            var sl1 := sl[s := Slot(NOPOS, g, next)];
            m.slot != s && m.slot < |sl1| &&
            var sl2 := sl1[m.slot := sl1[m.slot].(pos := i)];
            Linked(h1, sl2) && Removed(h, sl, h1, sl2, s, g, next)
  {
    var s, m := h[i].slot, h[|h| - 1];
    var h1 := h[i := m][..|h| - 1];
    var sl1 := sl[s := Slot(NOPOS, g, next)];
    var sl2 := sl1[m.slot := sl1[m.slot].(pos := i)];
    assert m.slot != s && sl[m.slot].pos == |h| - 1;
    forall k | 0 <= k < |h1| ensures h1[k].slot < |sl2| && sl2[h1[k].slot].pos == k {
      assert k != i ==> h1[k] == h[k];
    }
    forall k | 0 <= k < |sl| && k != s
      ensures Held(h1, sl2, k) == Held(h, sl, k)
      ensures sl2[k].pos != NOPOS ==> sl2[k].pos < |h1| && h1[sl2[k].pos].slot == k
    {
      assert k != m.slot ==> sl2[k] == sl[k];
    }
  }

  lemma RemoveOrder(h: seq<Timer>, i: nat)
    requires i < |h| && IsHeap(h)
    ensures var h1 := h[i := h[|h| - 1]][..|h| - 1];
            if i == |h| - 1 then IsHeap(h1) else HeapAround(h1, i)
  {
    var h1 := h[i := h[|h| - 1]][..|h| - 1];
    forall j | 1 <= j < |h1| && j != i && (j - 1) / 2 != i ensures EdgeOk(h1, j) {
      assert EdgeOk(h, j);
    }
    if 0 < i < |h1| {
      assert EdgeOk(h, i);
      forall j | 1 <= j < |h1| && (j - 1) / 2 == i ensures h1[(i - 1) / 2].due <= h1[j].due {
        assert EdgeOk(h, j);
      }
    }
  }

  lemma RemoveDone(h: seq<Timer>, sl: seq<Slot>, ep: seq<nat>, h': seq<Timer>, sl': seq<Slot>,
                   s: nat, g: nat, head: nat, free: seq<nat>)
    requires Linked(h, sl) && Linked(h', sl') && Gens(sl, ep) && FreeList(sl, head, free)
    requires |h| <= NOPOS
    requires Removed(h, sl, h', sl', s, g, head) && sl[s].pos != NOPOS
    requires g == var g0 := (sl[s].gen + 1) % SLOT_SPAN; if g0 == 0 then 1 else g0
    ensures Gens(sl', ep[s := ep[s] + 1])
    ensures FreeList(sl', s, [s] + free)
    ensures TableOf(h', sl', ep[s := ep[s] + 1]) == Release(TableOf(h, sl, ep), s)
  {
    GenStep(ep[s]);
    assert s !in free;
    forall k | 0 <= k < |sl| ensures sl'[k].pos == NOPOS <==> k == s || sl[k].pos == NOPOS {
      assert k != s ==> Held(h', sl', k) == Held(h, sl, k);
    }
    RemoveFree(sl, sl', head, free, s);
  }

  lemma RemoveFree(sl: seq<Slot>, sl': seq<Slot>, head: nat, free: seq<nat>, s: nat)
    requires FreeList(sl, head, free) && s < |sl| == |sl'| && s !in free
    requires forall k :: 0 <= k < |sl| && k != s ==> sl'[k].next == sl[k].next
    requires sl'[s].next == head
    requires forall k :: 0 <= k < |sl| ==> (sl'[k].pos == NOPOS <==> k == s || sl[k].pos == NOPOS)
    ensures FreeList(sl', s, [s] + free)
  {
    var free' := [s] + free;
    forall i | 0 <= i < |free'|
      ensures LinkOk(sl', free', i)
    {
      assert i > 0 ==> free'[i] == free[i-1] && free[i-1] in free && LinkOk(sl, free, i - 1);
    }
    forall k | 0 <= k < |sl'| ensures sl'[k].pos == NOPOS <==> k in free' {
      assert k in free' <==> k == s || k in free;
    }
  }

  function FreshSlot(k: nat, c: nat): Slot {
    Slot(NOPOS, 1, if k + 1 < c then k + 1 else NOSLOT)
  }

  /** Between taking slot s off the free list and arming it. */
  predicate Popped(h: seq<Timer>, sl: seq<Slot>, head: nat, free: seq<nat>, ep: seq<nat>, s: nat) {
    && IsHeap(h) && Linked(h, sl) && Gens(sl, ep)
    && |h| + |free| + 1 == |sl| < NOSLOT
    && FreeList(sl, s, [s] + free)
    && head == (if free == [] then NOSLOT else free[0])
  }

  lemma NoneFree(h: seq<Timer>, sl: seq<Slot>, ep: seq<nat>, head: nat, free: seq<nat>)
    requires Linked(h, sl) && FreeList(sl, head, free) && |sl| < NOSLOT && |ep| == |sl| && head == NOSLOT
    ensures free == []
    ensures forall s :: 0 <= s < |sl| ==> TableOf(h, sl, ep)[s].armed.Some?
  {
  }

  lemma SomeFree(h: seq<Timer>, sl: seq<Slot>, ep: seq<nat>, head: nat, free: seq<nat>)
    requires Linked(h, sl) && FreeList(sl, head, free) && |h| <= NOPOS && |ep| == |sl| && head != NOSLOT
    ensures free != [] && !Full(TableOf(h, sl, ep))
  {
    assert free[0] in free;
    assert TableOf(h, sl, ep)[free[0]].armed.None?;
  }

  lemma GrowTable(h: seq<Timer>, sl: seq<Slot>, sl': seq<Slot>, ep: seq<nat>)
    requires Linked(h, sl) && Gens(sl, ep) && |sl| <= |sl'| && |h| <= NOPOS
    requires forall k :: 0 <= k < |sl| ==> sl'[k] == sl[k]
    requires forall k :: |sl| <= k < |sl'| ==> sl'[k] == FreshSlot(k, |sl'|)
    ensures var ep' := ep + seq(|sl'| - |sl|, _ => 0);
            Linked(h, sl') && Gens(sl', ep') && Grown(TableOf(h, sl, ep), TableOf(h, sl', ep'))
  {
  }

  lemma GrowFree(sl: seq<Slot>, sl': seq<Slot>, base: nat, free: seq<nat>)
    requires base == |sl| < |sl'| < NOSLOT
    requires forall k :: 0 <= k < base ==> sl'[k] == sl[k] && sl[k].pos != NOPOS
    requires forall k :: base <= k < |sl'| ==> sl'[k] == FreshSlot(k, |sl'|)
    requires |free| == |sl'| - base && forall k :: 0 <= k < |free| ==> free[k] == base + k
    ensures FreeList(sl', base, free)
  {
    forall i | 0 <= i < |free| ensures LinkOk(sl', free, i) {
    }
    forall s | 0 <= s < |sl'| ensures sl'[s].pos == NOPOS <==> s in free {
      if s >= base { assert free[s - base] == s; }
    }
  }

  lemma PopFree(sl: seq<Slot>, head: nat, free: seq<nat>)
    requires FreeList(sl, head, free) && free != []
    ensures head < |sl| && [head] + free[1..] == free
    ensures sl[head].next == if free[1..] == [] then NOSLOT else free[1..][0]
  {
    assert LinkOk(sl, free, 0);
  }

  /** Appending the new timer at the end leaves only its own edge open. */
  lemma ArmEntry(h: seq<Timer>, sl: seq<Slot>, head: nat, free: seq<nat>, ep: seq<nat>, s: nat, t: Timer)
    requires Popped(h, sl, head, free, ep, s) && t.slot == s
    ensures s < |sl| && |h| + 1 < NOPOS
    ensures Linked(h + [t], sl[s := sl[s].(pos := |h|)])
    ensures HeapBelow(h + [t], |h|)
  {
    assert s in [s] + free;
    forall j | 0 <= j < |h| ensures EdgeOk(h + [t], j) { assert EdgeOk(h, j); }
  }

  lemma ArmDone(h: seq<Timer>, sl: seq<Slot>, h': seq<Timer>, sl': seq<Slot>,
                head: nat, free: seq<nat>, ep: seq<nat>, s: nat, t: Timer)
    requires Popped(h, sl, head, free, ep, s) && t.slot == s < |sl| && |h| + 1 < NOPOS
    requires SameHeld(h + [t], sl[s := sl[s].(pos := |h|)], h', sl') && Linked(h', sl')
    ensures FreeList(sl', head, free) && Gens(sl', ep)
    ensures TableOf(h, sl, ep)[s].armed.None?
    ensures TableOf(h', sl', ep) == TableOf(h, sl, ep)[s := Cell(ep[s], Some(t))]
  {
    assert s in [s] + free;
    ArmHeld(h, sl, h', sl', s, t);
    ArmFree(sl, sl', head, free, s);
  }

  lemma ArmHeld(h: seq<Timer>, sl: seq<Slot>, h': seq<Timer>, sl': seq<Slot>, s: nat, t: Timer)
    requires Linked(h, sl) && Linked(h', sl') && s < |sl| && |h| + 1 < NOPOS && sl[s].pos == NOPOS
    requires SameHeld(h + [t], sl[s := sl[s].(pos := |h|)], h', sl')
    ensures forall k :: 0 <= k < |sl| ==> Held(h', sl', k) == if k == s then Some(t) else Held(h, sl, k)
    ensures forall k :: 0 <= k < |sl| ==> (sl'[k].pos == NOPOS <==> k != s && sl[k].pos == NOPOS)
    ensures forall k :: 0 <= k < |sl| ==> sl'[k].next == sl[k].next && sl'[k].gen == sl[k].gen
  {
    forall k | 0 <= k < |sl| ensures Held(h', sl', k) == if k == s then Some(t) else Held(h, sl, k) {
      assert Held(h', sl', k) == Held(h + [t], sl[s := sl[s].(pos := |h|)], k);
    }
    forall k | 0 <= k < |sl| ensures sl'[k].pos == NOPOS <==> k != s && sl[k].pos == NOPOS {
      assert Held(h', sl', k) == if k == s then Some(t) else Held(h, sl, k);
    }
  }

  /** Arming the popped head leaves the rest of the list as the free list. */
  lemma ArmFree(sl: seq<Slot>, sl': seq<Slot>, head: nat, free: seq<nat>, s: nat)
    requires FreeList(sl, s, [s] + free) && s < |sl| == |sl'|
    requires head == (if free == [] then NOSLOT else free[0])
    requires forall k :: 0 <= k < |sl| ==> sl'[k].next == sl[k].next
    requires forall k :: 0 <= k < |sl| ==> (sl'[k].pos == NOPOS <==> k != s && sl[k].pos == NOPOS)
    ensures FreeList(sl', head, free)
  {
    DistinctTail(s, free);
    ChainedTail(sl, sl', s, free);
    forall k | 0 <= k < |sl'| ensures sl'[k].pos == NOPOS <==> k in free {
      assert k in [s] + free <==> k == s || k in free;
    }
  }

  lemma HeadFirst(h: seq<Timer>, sl: seq<Slot>, ep: seq<nat>, now: nat)
    requires IsHeap(h) && Linked(h, sl) && |ep| == |sl| && |h| > 0 && h[0].due <= now
    ensures FirstDue(TableOf(h, sl, ep), now, Fired(h[0].slot, ep[h[0].slot], h[0]))
  {
    forall j | 0 <= j < |h| ensures h[0].due <= h[j].due { RootIsMin(h, j); }
  }

  lemma HeadLast(h: seq<Timer>, sl: seq<Slot>, ep: seq<nat>, now: nat)
    requires IsHeap(h) && Linked(h, sl) && |ep| == |sl| && (|h| > 0 ==> now < h[0].due)
    ensures NoneDue(TableOf(h, sl, ep), now)
  {
    forall j | 0 <= j < |h| ensures h[0].due <= h[j].due { RootIsMin(h, j); }
  }

  lemma UpStep(before: seq<Timer>, after: seq<Timer>, i: nat, p: nat)
    requires 0 < i < |before| && p == (i - 1) / 2
    requires HeapBelow(before, i) && before[i].due < before[p].due
    requires after == before[i := before[p]][p := before[i]]
    ensures HeapBelow(after, p)
  {
    assert EdgeOk(before, p);
    forall j | 0 <= j < |after| && j != p
      ensures EdgeOk(after, j)
    {
      assert j != i ==> EdgeOk(before, j);
    }
    if p > 0 {
      forall j | 1 <= j < |after| && (j - 1) / 2 == p
        ensures after[(p - 1) / 2].due <= after[j].due
      {
        assert j != i ==> EdgeOk(before, j);
      }
    }
  }

  /** Down-sift invariant: the hole is at i; everything not touching the hole or the edge
      above start is in order. */
  predicate HeapAroundFrom(h: seq<Timer>, start: nat, i: nat) {
    && start <= i
    && (forall j :: 1 <= j < |h| && j != start && (j - 1) / 2 != i ==> EdgeOk(h, j))
    && Bridge(h, i)
    && (i != start && start < |h| ==> EdgeOk(h, start))
  }

  lemma DownStep(before: seq<Timer>, after: seq<Timer>, start: nat, i: nat, c: nat)
    requires i < |before| && c < |before| && (c - 1) / 2 == i && c > 0
    requires HeapAroundFrom(before, start, i)
    requires forall j :: 1 <= j < |before| && (j - 1) / 2 == i ==> before[c].due <= before[j].due
    requires before[c].due < before[i].due
    requires after == before[i := before[c]][c := before[i]]
    ensures HeapAroundFrom(after, start, c)
  {
    forall j | 1 <= j < |after| && j != start && (j - 1) / 2 != c
      ensures EdgeOk(after, j)
    {
      assert (j - 1) / 2 != i ==> EdgeOk(before, j);
    }
    forall j | 1 <= j < |after| && (j - 1) / 2 == c
      ensures after[(c - 1) / 2].due <= after[j].due
    {
      assert EdgeOk(before, j);
    }
    assert EdgeOk(after, start);
  }

  lemma SmallestChild(h: seq<Timer>, i: nat, c: nat)
    requires i < |h| && 2 * i + 1 < |h|
    requires c == if 2 * i + 2 < |h| && h[2 * i + 2].due < h[2 * i + 1].due then 2 * i + 2 else 2 * i + 1
    ensures (c - 1) / 2 == i
    ensures forall j :: 1 <= j < |h| && (j - 1) / 2 == i ==> h[c].due <= h[j].due
  {
  }

  /** The state of a down-sift: timer t in hand, hole at i, everything else in place. */
  predicate Sinking(h0: seq<Timer>, sl0: seq<Slot>, h: seq<Timer>, sl: seq<Slot>, start: nat, i: nat, t: Timer) {
    && start < |h| && i < |h| == |h0| < NOPOS
    && t.slot < |sl0| && Held(h0, sl0, t.slot) == Some(t)
    && LinkedHole(h, sl, i, t)
    && SameHeldHole(h0, sl0, h, sl, t)
    && HeapAroundFrom(h[i := t], start, i)
  }

  lemma SinkStart(h: seq<Timer>, sl: seq<Slot>, start: nat)
    requires start < |h| < NOPOS && Linked(h, sl) && HeapAround(h, start)
    ensures Sinking(h, sl, h, sl, start, start, h[start])
  {
    assert h[start := h[start]] == h;
  }

  lemma SinkMove(h0: seq<Timer>, sl0: seq<Slot>, h: seq<Timer>, sl: seq<Slot>, start: nat, i: nat, c: nat, t: Timer)
    requires Sinking(h0, sl0, h, sl, start, i, t)
    requires 2 * i + 1 < |h|
    requires c == if 2 * i + 2 < |h| && h[2 * i + 2].due < h[2 * i + 1].due then 2 * i + 2 else 2 * i + 1
    requires h[c].due < t.due
    ensures h[c].slot < |sl|
    ensures Sinking(h0, sl0, h[i := h[c]], sl[h[c].slot := sl[h[c].slot].(pos := i)], start, c, t)
  {
    MoveHole(h0, sl0, h, sl, i, c, t);
    SmallestChild(h[i := t], i, c);
    DownStep(h[i := t], h[i := h[c]][c := t], start, i, c);
  }

  lemma SinkStop(h0: seq<Timer>, sl0: seq<Slot>, h: seq<Timer>, sl: seq<Slot>, start: nat, i: nat, t: Timer)
    requires Sinking(h0, sl0, h, sl, start, i, t)
    requires 2 * i + 1 < |h| ==> t.due <= h[2 * i + 1].due
    requires 2 * i + 2 < |h| ==> t.due <= h[2 * i + 2].due
    ensures Linked(h[i := t], sl[t.slot := sl[t.slot].(pos := i)])
    ensures SameHeld(h0, sl0, h[i := t], sl[t.slot := sl[t.slot].(pos := i)])
    ensures HeapBelow(h[i := t], start)
  {
    DownDone(h[i := t], start, i);
    FillHole(h0, sl0, h, sl, i, t);
  }

  lemma DownDone(h: seq<Timer>, start: nat, i: nat)
    requires start < |h| && i < |h| && HeapAroundFrom(h, start, i)
    requires forall j :: 1 <= j < |h| && (j - 1) / 2 == i ==> h[i].due <= h[j].due
    ensures HeapBelow(h, start)
  {
    forall j | 0 <= j < |h| && j != start
      ensures EdgeOk(h, j)
    {
    }
    if start > 0 && i != start {
      forall j | 1 <= j < |h| && (j - 1) / 2 == start
        ensures h[(start - 1) / 2].due <= h[j].due
      {
        assert EdgeOk(h, j);
      }
    }
  }
}
