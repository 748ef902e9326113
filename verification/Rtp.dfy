/** The receiver-side source tracker (RFC 3550 appendices A.1, A.3 and A.8): what its fields
    mean for packets with unbounded indices (rtp/src/rtp.c). */
module RtpSpec {
  import opened Arith

  const SEQ_MOD := 0x1_0000
  const W32 := 0x1_0000_0000
  const MAX_DROPOUT := 3000
  const MAX_MISORDER := 100
  const MIN_SEQUENTIAL := 2

  function U16(x: int): nat { x % SEQ_MOD }

  function U32(x: int): nat { x % W32 }

  /** A 32-bit pattern as a signed number. */
  function I32(x: int): int { if U32(x) < 0x8000_0000 then U32(x) else U32(x) - W32 }

  /** The sequence half of rtp_source_t. */
  datatype Src = Src(max: nat, cycles: nat, base: nat, bad: nat, probation: nat,
                     received: nat, expPrior: nat, recPrior: nat)

  predicate Fields(s: Src) {
    && s.max < SEQ_MOD && s.cycles < W32 && s.base < SEQ_MOD && s.bad <= SEQ_MOD + 1
    && s.received < W32 && s.expPrior < W32 && s.recPrior < W32
  }

  function Reset(s: Src, num: nat): Src {
    Src(num, 0, num, SEQ_MOD + 1, s.probation, 0, 0, 0)
  }

  /** rtp_source_update: the new state, and whether the packet counts. */
  function Update(s: Src, num: nat): (Src, bool)
    requires Fields(s) && num < SEQ_MOD
  {
    var udelta := U16(num - s.max);
    if s.probation > 0 then
      if num == U16(s.max + 1) then
        if s.probation == 1 then (Count(Reset(s.(probation := 0), num)), true)
        else (s.(probation := s.probation - 1, max := num), false)
      else (s.(probation := MIN_SEQUENTIAL - 1, max := num), false)
    else if udelta < MAX_DROPOUT then
      (Count(s.(cycles := if num < s.max then U32(s.cycles + SEQ_MOD) else s.cycles, max := num)), true)
    else if udelta <= SEQ_MOD - MAX_MISORDER then
      if num == s.bad then (Count(Reset(s, num)), true)
      else (s.(bad := U16(num + 1)), false)
    else (Count(s), true)
  }

  function Count(s: Src): Src { s.(received := U32(s.received + 1)) }

  function Expected(s: Src): nat { U32(s.cycles + s.max - s.base + 1) }

  // ---------- the highest index ----------

  /** The state of a source validated at index first whose highest index so far is high, after n
      packets counted. */
  ghost predicate Tracks(s: Src, first: int, high: int, n: nat) {
    && Fields(s) && s.probation == 0
    && s.base == U16(first) && s.max == U16(high)
    && s.cycles == U32((high / SEQ_MOD - first / SEQ_MOD) * SEQ_MOD)
    && s.received == U32(n)
  }

  /** A validated source tracks from its first packet. */
  lemma TracksStart(s: Src, x: int)
    requires Fields(s) && (s.probation == 1 && U16(x) == U16(s.max + 1))
    ensures Update(s, U16(x)).1 && Tracks(Update(s, U16(x)).0, x, x, 1)
  {
  }

  /** What the tracker reports is the true advance of the highest index. */
  lemma TracksMeans(s: Src, first: int, high: int, n: nat)
    requires Tracks(s, first, high, n)
    ensures U32(s.cycles + s.max - s.base) == U32(high - first)
    ensures Expected(s) == U32(high - first + 1)
  {
    var q := (high / SEQ_MOD - first / SEQ_MOD) * SEQ_MOD;
    assert high - first == q + s.max - s.base;
    WrapAdd(q, s.max - s.base);
    WrapAdd(q, s.max - s.base + 1);
  }

  lemma WrapAdd(a: int, b: int)
    ensures U32(U32(a) + b) == U32(a + b)
  {
  }

  /** A packet from 99 below to 2999 above the highest index is counted and moves it. */
  lemma TracksStep(s: Src, first: int, high: int, n: nat, x: int)
    requires Tracks(s, first, high, n) && high - 99 <= x <= high + 2999
    ensures var (t, counted) := Update(s, U16(x));
            counted && Tracks(t, first, if x > high then x else high, n + 1)
  {
    Delta(x, high);
    WrapAdd(n, 1);
    if x >= high {
      Wraps(x, high);
      var q := (high / SEQ_MOD - first / SEQ_MOD) * SEQ_MOD;
      WrapAdd(q, SEQ_MOD);
      assert x / SEQ_MOD == high / SEQ_MOD + 1 ==> (x / SEQ_MOD - first / SEQ_MOD) * SEQ_MOD == q + SEQ_MOD;
    }
  }

  lemma Delta(x: int, high: int)
    requires high - 99 <= x <= high + 2999
    ensures U16(U16(x) - U16(high)) == if x >= high then x - high else x - high + SEQ_MOD
  {
  }

  lemma Wraps(x: int, high: int)
    requires high <= x <= high + 2999
    ensures U16(x) < U16(high) <==> x / SEQ_MOD == high / SEQ_MOD + 1
    ensures U16(x) >= U16(high) <==> x / SEQ_MOD == high / SEQ_MOD
  {
  }

  lemma UpdateFields(s: Src, num: nat)
    requires Fields(s) && num < SEQ_MOD
    ensures Fields(Update(s, num).0)
  {
  }

  // ---------- reports and runs ----------

  datatype Rep = Rep(lost: int, fraction: nat, last: nat)

  /** rtp_source_report: the sequence part of the report block, and the counters for the next
      interval. */
  function Report(s: Src): (Src, Rep)
    requires Fields(s)
  {
    var expected := Expected(s);
    (s.(expPrior := expected, recPrior := s.received),
     Rep(Clamp24(I32(expected - s.received)), ReportQuotient(s) % 256, U32(s.cycles + s.max)))
  }

  /** A signed 24-bit field. */
  function Clamp24(lost: int): int {
    if lost > 0x7F_FFFF then 0x7F_FFFF else if lost < -0x80_0000 then -0x80_0000 else lost
  }

  /** A loss within the field is reported as it is, and another one as the nearest end. */
  lemma LossField(lost: int)
    ensures -0x80_0000 <= lost <= 0x7F_FFFF ==> Clamp24(lost) == lost
    ensures lost > 0x7F_FFFF ==> Clamp24(lost) == 0x7F_FFFF
    ensures lost < -0x80_0000 ==> Clamp24(lost) == -0x80_0000
  {
  }

  /** The shifted loss over the expected count, in 32 bits. C leaves the shift of a loss of 2^23 or
      more undefined; here it wraps. */
  function Quotient(expected: nat, lost: int): nat {
    if expected != 0 && lost > 0 then U32(lost * 256) / expected else 0
  }

  /** The quotient a report cuts down to the fraction octet. */
  function ReportQuotient(s: Src): nat
    requires Fields(s)
  {
    var expectedInterval := U32(Expected(s) - s.expPrior);
    Quotient(expectedInterval, I32(expectedInterval - U32(s.received - s.recPrior)))
  }

  /** The report in one piece. */
  lemma ReportIs(s: Src)
    requires Fields(s)
    ensures var e := U32(Expected(s) - s.expPrior);
            Report(s) == (s.(expPrior := Expected(s), recPrior := s.received),
                          Rep(Clamp24(I32(Expected(s) - s.received)),
                              Quotient(e, I32(e - U32(s.received - s.recPrior))) % 256, U32(s.cycles + s.max)))
  {
    hide U32, I32, Expected, Clamp24, Quotient;
  }

  lemma ExpectedFields(s: Src)
    requires Fields(s)
    ensures Expected(s) == U32(s.cycles + s.max + (1 - s.base)) < W32
  {
  }

  lemma ReportFields(s: Src)
    requires Fields(s)
    ensures Fields(Report(s).0)
  {
    hide ReportQuotient, I32, Clamp24;
    ExpectedFields(s);
  }

  /** A packet, by its unbounded index, or a report. */
  datatype Event = Packet(x: int) | Reported

  function Step(s: Src, ev: Event): (t: Src)
    requires Fields(s)
    ensures Fields(t)
  {
    match ev
    case Packet(x) => UpdateFields(s, U16(x)); Update(s, U16(x)).0
    case Reported => ReportFields(s); Report(s).0
  }

  function After(s: Src, es: seq<Event>): (t: Src)
    requires Fields(s)
    ensures Fields(t)
    decreases |es|
  {
    if es == [] then s else After(Step(s, es[0]), es[1..])
  }

  lemma {:induction false} AfterAppend(s: Src, es: seq<Event>, ev: Event)
    requires Fields(s)
    ensures After(s, es + [ev]) == Step(After(s, es), ev)
    decreases |es|
  {
    hide Step;
    StepFields(s, if es == [] then ev else es[0]);
    if es == [] {
      assert (es + [ev])[1..] == [];
    } else {
      assert (es + [ev])[1..] == es[1..] + [ev];
      AfterAppend(Step(s, es[0]), es[1..], ev);
    }
  }

  lemma StepFields(s: Src, ev: Event)
    requires Fields(s)
    ensures Fields(Step(s, ev))
  {
  }

  // ---------- the highest index over a run ----------

  function Higher(high: int, ev: Event): int { if ev.Packet? && ev.x > high then ev.x else high }

  function Highest(high: int, es: seq<Event>): int
    decreases |es|
  {
    if es == [] then high else Highest(Higher(high, es[0]), es[1..])
  }

  /** Every packet comes from 99 below to 2999 above the highest index before it. */
  ghost predicate Near(high: int, es: seq<Event>)
    decreases |es|
  {
    es != [] ==> && (es[0].Packet? ==> high - 99 <= es[0].x <= high + 2999)
                 && Near(Higher(high, es[0]), es[1..])
  }

  /** The packets of a run, and those the tracker said to count. */
  function Heard(es: seq<Event>): nat
    decreases |es|
  {
    if es == [] then 0 else (if es[0].Packet? then 1 else 0) + Heard(es[1..])
  }

  function Accepted(s: Src, es: seq<Event>): nat
    requires Fields(s)
    decreases |es|
  {
    if es == [] then 0
    else (if es[0].Packet? && Update(s, U16(es[0].x)).1 then 1 else 0) + Accepted(Step(s, es[0]), es[1..])
  }

  /** Over any such run the extended highest number is the true one and every packet counts,
      whenever reports are taken. */
  lemma {:induction false} RunTracks(s: Src, first: int, high: int, n: nat, es: seq<Event>)
    requires Tracks(s, first, high, n) && Near(high, es)
    ensures var t := After(s, es);
            && Accepted(s, es) == Heard(es) && Tracks(t, first, Highest(high, es), n + Heard(es))
            && U32(t.cycles + t.max - t.base) == U32(Highest(high, es) - first)
    decreases |es|
  {
    hide Update, Report, Tracks;
    TracksFields(s, first, high, n);
    if es == [] {
      TracksMeans(s, first, high, n);
    } else {
      match es[0] {
        case Packet(x) => TracksStep(s, first, high, n, x);
        case Reported => ReportTracks(s, first, high, n);
      }
      RunTracks(Step(s, es[0]), first, Higher(high, es[0]), if es[0].Packet? then n + 1 else n, es[1..]);
    }
  }

  lemma ReportTracks(s: Src, first: int, high: int, n: nat)
    requires Tracks(s, first, high, n)
    ensures Tracks(Report(s).0, first, high, n)
  {
    hide ReportQuotient, I32, Clamp24, U16;
    ExpectedFields(s);
  }

  /** A jump of 3000 or more, and not a packet from up to 99 back. A packet that follows one that had
      jumped starts the source over from itself; any other is not counted and moves nothing, and its
      successor would start the source over. */
  lemma JumpRestarts(s: Src, first: int, high: int, n: nat, x: int)
    requires Tracks(s, first, high, n) && 3000 <= (x - high) % 0x1_0000 < 0x1_0000 - 100
    ensures var (t, counted) := Update(s, U16(x));
            if U16(x) == s.bad then counted && Tracks(t, x, x, 1)
            else && !counted && Tracks(t, first, high, n)
                 && var (u, again) := Update(t, U16(x + 1)); again && Tracks(u, x + 1, x + 1, 1)
  {
    JumpFar(x, high);
    WrapAdd(0, 1);
  }

  lemma JumpFar(x: int, high: int)
    requires 3000 <= (x - high) % 0x1_0000 < 0x1_0000 - 100
    ensures U16(U16(x) - U16(high)) == (x - high) % 0x1_0000
    ensures U16(U16(x + 1) - U16(high)) == (x - high) % 0x1_0000 + 1
    ensures U16(U16(x) + 1) == U16(x + 1)
  {
  }

  lemma TracksFields(s: Src, first: int, high: int, n: nat)
    requires Tracks(s, first, high, n)
    ensures Fields(s)
  {
  }

  /** The report of such a run: the packets missing from first to the highest, held in 24 bits, and
      the highest index counted from the start of the cycle of first. */
  lemma RunReport(s: Src, first: int, high: int, n: nat, es: seq<Event>)
    requires Tracks(s, first, high, n) && Near(high, es)
    requires -0x8000_0000 <= Highest(high, es) - first + 1 - (n + Heard(es)) < 0x8000_0000
    ensures var out := Report(After(s, es)).1;
            && out.lost == Clamp24(Highest(high, es) - first + 1 - (n + Heard(es)))
            && out.last == U32(Highest(high, es) - (first - U16(first)))
  {
    RunTracks(s, first, high, n, es);
    ReportMeans(After(s, es), first, Highest(high, es), n + Heard(es));
  }

  lemma ReportMeans(s: Src, first: int, high: int, n: nat)
    requires Tracks(s, first, high, n) && -0x8000_0000 <= high - first + 1 - n < 0x8000_0000
    ensures Report(s).1.lost == Clamp24(high - first + 1 - n)
    ensures Report(s).1.last == U32(high - (first - U16(first)))
  {
    TracksMeans(s, first, high, n);
    var q := (high / SEQ_MOD - first / SEQ_MOD) * SEQ_MOD;
    assert high - (first - U16(first)) == q + s.max;
    WrapAdd(q, s.max);
    hide ReportQuotient, Clamp24, Tracks;
    LostMeans(Expected(s), s.received, high - first + 1, n);
  }

  lemma LostMeans(a: nat, b: nat, x: int, n: nat)
    requires a == U32(x) && b == U32(n) && -0x8000_0000 <= x - n < 0x8000_0000
    ensures I32(a - b) == x - n
  {
    WrapSub(a, n);
    WrapAdd(x, 0 - n);
    Pattern(a - b, x - n);
  }

  // ---------- the fraction lost ----------

  /** Packets that have come to be expected, and packets counted, since the last report or restart
      of the sequence. */
  datatype Tally = Tally(expected: nat, counted: nat)

  function Tallied(s: Src, n: Tally, ev: Event): Tally {
    match ev
    case Reported => Tally(0, 0)
    case Packet(x) =>
      var udelta := U16(U16(x) - s.max);
      if s.probation > 0 then if s.probation == 1 && udelta == 1 then Tally(1, 1) else n
      else if udelta < MAX_DROPOUT then Tally(n.expected + udelta, n.counted + 1)
      else if udelta > SEQ_MOD - MAX_MISORDER then Tally(n.expected, n.counted + 1)
      else if U16(x) == s.bad then Tally(1, 1) else n
  }

  function Tallies(s: Src, n: Tally, es: seq<Event>): Tally
    requires Fields(s)
    decreases |es|
  {
    if es == [] then n else Tallies(Step(s, es[0]), Tallied(s, n, es[0]), es[1..])
  }

  lemma {:induction false} TalliesAppend(s: Src, n: Tally, es: seq<Event>, ev: Event)
    requires Fields(s)
    ensures Tallies(s, n, es + [ev]) == Tallied(After(s, es), Tallies(s, n, es), ev)
    decreases |es|
  {
    hide Step, Tallied;
    StepFields(s, if es == [] then ev else es[0]);
    if es == [] {
      assert (es + [ev])[1..] == [];
    } else {
      assert (es + [ev])[1..] == es[1..] + [ev];
      TalliesAppend(Step(s, es[0]), Tallied(s, n, es[0]), es[1..], ev);
    }
  }

  /** In a run of near packets the tally is the advance of the highest index and the number of
      packets. */
  lemma {:induction false} TalliesNear(s: Src, first: int, high: int, k: nat, n: Tally, es: seq<Event>)
    requires Tracks(s, first, high, k) && Near(high, es) && forall i :: 0 <= i < |es| ==> es[i].Packet?
    ensures Fields(s) && high <= Highest(high, es)
    ensures Tallies(s, n, es) == Tally(n.expected + (Highest(high, es) - high), n.counted + Heard(es))
    decreases |es|
  {
    if es != [] {
      var x := es[0].x;
      TracksStep(s, first, high, k, x);
      Delta(x, high);
      hide Update, Tracks;
      TalliesNear(Step(s, es[0]), first, Higher(high, es[0]), k + 1, Tallied(s, n, es[0]), es[1..]);
    }
  }

  /** The counters of a validated source hold the tally, modulo 2^32; and no packet has come to be
      expected without one being counted. */
  ghost predicate Interval(s: Src, n: Tally) {
    && Fields(s)
    && (s.probation == 0 ==>
          && (n.expected > 0 ==> n.counted > 0)
          && Expected(s) == U32(s.expPrior + n.expected) && s.received == U32(s.recPrior + n.counted))
  }

  lemma IntervalPacket(s: Src, n: Tally, x: int)
    requires Interval(s, n)
    ensures Interval(Update(s, U16(x)).0, Tallied(s, n, Packet(x)))
  {
    hide Expected, U32;
    var num := U16(x);
    UpdateFields(s, num);
    var udelta := U16(num - s.max);
    FreshStart(num);
    WrapUp(s.recPrior, n.counted);
    if s.probation > 0 {
      assert num == U16(s.max + 1) <==> udelta == 1;
    } else if udelta < MAX_DROPOUT {
      InOrderGrows(s, n.expected, num);
    } else if udelta <= SEQ_MOD - MAX_MISORDER {
      ExpectedSame(s, s.(bad := U16(num + 1)));
    } else {
      ExpectedSame(s, Count(s));
    }
  }

  lemma WrapUp(p: nat, r: nat)
    ensures U32(U32(p + r) + 1) == U32(p + (r + 1))
  {
    WrapAdd(p + r, 1);
  }

  lemma ExpectedSame(s: Src, t: Src)
    requires t.cycles == s.cycles && t.max == s.max && t.base == s.base
    ensures Expected(t) == Expected(s)
  {
  }

  lemma FreshStart(num: nat)
    ensures forall s: Src :: s.cycles == 0 && s.max == num && s.base == num ==> Expected(s) == U32(0 + 1)
    ensures U32(0 + 1) == 1
  {
  }

  lemma InOrderGrows(s: Src, e: nat, num: nat)
    requires Fields(s) && num < SEQ_MOD && U16(num - s.max) < MAX_DROPOUT && Expected(s) == U32(s.expPrior + e)
    ensures var t := Count(s.(cycles := if num < s.max then U32(s.cycles + SEQ_MOD) else s.cycles, max := num));
            Expected(t) == U32(s.expPrior + (e + U16(num - s.max)))
  {
    var d := U16(num - s.max);
    WrapAdd(s.cycles + SEQ_MOD, num - s.base + 1);
    WrapAdd(s.cycles + s.max - s.base + 1, d);
    WrapAdd(s.expPrior + e, d);
    assert num == s.max + d || num + SEQ_MOD == s.max + d;
  }

  lemma ExtendedMax(s: Src)
    requires Fields(s)
    ensures U32(U32(s.cycles + s.max) - s.base + 1) == Expected(s) < W32
  {
    WrapAdd(s.cycles + s.max, 1 - s.base);
  }

  lemma ReportStarts(s: Src)
    requires Fields(s)
    ensures Interval(Report(s).0, Tally(0, 0))
  {
    hide ReportQuotient, I32;
    ExpectedFields(s);
    ExpectedSame(s, Report(s).0);
  }

  /** The counters hold the tally over every run of packets and reports. */
  lemma {:induction false} RunInterval(s: Src, n: Tally, es: seq<Event>)
    requires Interval(s, n)
    ensures Interval(After(s, es), Tallies(s, n, es))
    decreases |es|
  {
    if es != [] {
      match es[0] {
        case Packet(x) => IntervalPacket(s, n, x);
        case Reported => ReportStarts(s);
      }
      hide Update, Report, Tallied;
      RunInterval(Step(s, es[0]), Tallied(s, n, es[0]), es[1..]);
    }
  }

  /** rtp_source_init. */
  function Init(num: nat): (s: Src)
    requires num < SEQ_MOD
    ensures Fields(s)
  {
    Src(U16(num - 1), 0, num, SEQ_MOD + 1, MIN_SEQUENTIAL, 0, 0, 0)
  }

  /** The share of an interval that was lost, in 256ths, rounded down. */
  function Share(n: Tally): nat {
    if n.expected > n.counted then (n.expected - n.counted) * 256 / n.expected else 0
  }

  /** Every run from a new source, ending in a report: while the interval is short enough for the
      32-bit counters the octet never wraps, and it shows the true share if and only if fewer than
      2^24 packets were lost. */
  lemma RunFraction(num: nat, es: seq<Event>)
    requires num < SEQ_MOD && After(Init(num), es).probation == 0
    requires var n := Tallies(Init(num), Tally(0, 0), es);
             n.expected < W32 && n.counted <= n.expected + 0x8000_0000
    ensures var s, n := After(Init(num), es), Tallies(Init(num), Tally(0, 0), es);
            && ReportQuotient(s) < 256 && Share(n) < 256
            && (Report(s).1.fraction == Share(n) <==> n.expected < n.counted + 0x100_0000)
  {
    RunInterval(Init(num), Tally(0, 0), es);
    FractionExact(After(Init(num), es), Tallies(Init(num), Tally(0, 0), es));
  }

  lemma FractionExact(s: Src, n: Tally)
    requires Interval(s, n) && s.probation == 0 && n.expected < W32 && n.counted <= n.expected + 0x8000_0000
    ensures ReportQuotient(s) < 256 && Share(n) < 256
    ensures Report(s).1.fraction == Share(n) <==> n.expected < n.counted + 0x100_0000
  {
    hide ReportQuotient, Share, Expected, U32, I32, Clamp24, Quotient;
    IntervalQuotient(s, n);
    Small(n.expected);
    QuotientExact(n.expected, n.counted);
  }

  lemma Small(x: nat)
    requires x < W32
    ensures U32(x) == x
  {
  }

  lemma QuotientExact(e: nat, r: nat)
    requires (e > 0 ==> r > 0) && e < W32 && r <= e + 0x8000_0000
    ensures Quotient(e, I32(e - r)) < 256 && Share(Tally(e, r)) < 256
    ensures Quotient(e, I32(e - r)) % 256 == Share(Tally(e, r)) <==> e < r + 0x100_0000
  {
    hide U32, I32;
    if e <= r {
      SignedDown(e, r);
    } else {
      Ratio(e - r, e);
      if e - r < 0x8000_0000 {
        Signed(e - r);
        Shifted(e - r, e);
      } else {
        SignedUp(e - r);
        LargeShare(e - r, e);
      }
    }
  }

  /** What a report divides, in terms of the tally. */
  lemma IntervalQuotient(s: Src, n: Tally)
    requires Interval(s, n) && s.probation == 0
    ensures ReportQuotient(s) == Quotient(U32(n.expected), I32(n.expected - n.counted))
  {
    hide Expected, Quotient, U32, I32;
    WrapBack(s.expPrior, n.expected);
    WrapBack(s.recPrior, n.counted);
    CountersDiffer(n);
  }

  lemma CountersDiffer(n: Tally)
    ensures I32(U32(n.expected) - U32(n.counted)) == I32(n.expected - n.counted)
  {
    WrapSub(U32(n.expected), n.counted);
    WrapAdd(n.expected, 0 - n.counted);
  }

  lemma WrapBack(p: nat, x: nat)
    ensures U32(U32(p + x) - p) == U32(x)
  {
    WrapAdd(p + x, 0 - p);
  }

  lemma Signed(x: nat)
    requires x < 0x8000_0000
    ensures I32(x) == x
  {
  }

  lemma SignedUp(x: nat)
    requires 0x8000_0000 <= x < W32
    ensures I32(x) < 0
  {
  }

  lemma SignedDown(e: nat, r: nat)
    requires e <= r <= e + 0x8000_0000
    ensures I32(e - r) <= 0
  {
  }

  lemma Ratio(lost: nat, e: nat)
    requires lost < e
    ensures lost * 256 / e < 256
  {
    var q := lost * 256 / e;
    assert q * e <= lost * 256;
    if q >= 256 { MulMono(256, q, e); }
  }

  lemma LargeShare(lost: nat, e: nat)
    requires 0x8000_0000 <= lost < e < W32
    ensures lost * 256 / e > 0
  {
    Over(lost * 256, e, 1);
  }

  /** Shifting eight bits out of 32 keeps the low 24. */
  lemma Shift(lost: nat)
    ensures U32(lost * 256) == lost % 0x100_0000 * 256
  {
    DivModUnique(lost * 256, W32, lost / 0x100_0000, lost % 0x100_0000 * 256);
  }

  lemma Shifted(lost: nat, e: nat)
    requires 0 < lost < e < W32 && lost < 0x8000_0000
    ensures U32(lost * 256) / e < 256
    ensures U32(lost * 256) / e == lost * 256 / e <==> lost < 0x100_0000
  {
    var low, high := lost % 0x100_0000, lost / 0x100_0000;
    Shift(lost);
    Ratio(low, e);
    assert lost * 256 == low * 256 + high * W32;
    if lost >= 0x100_0000 {
      var q := low * 256 / e;
      assert q * e <= low * 256;
      assert (q + 1) * e == q * e + e;
      Over(lost * 256, e, q + 1);
    }
  }

  lemma Over(a: nat, e: nat, q: nat)
    requires e > 0 && q * e <= a
    ensures q <= a / e
  {
    if q > a / e { MulMono(a / e + 1, q, e); }
  }

  /** Every run: the octet wraps if and only if the low 24 bits of what the counters hold for lost
      reach what they hold for expected. With a loss below 2^23 that means the counters hold no
      packet, or more than are expected. */
  lemma RunWraps(num: nat, es: seq<Event>)
    requires num < SEQ_MOD && After(Init(num), es).probation == 0
    ensures var s, n := After(Init(num), es), Tallies(Init(num), Tally(0, 0), es);
            var lost := I32(n.expected - n.counted);
            && (ReportQuotient(s) >= 256 <==> 0 < U32(n.expected) <= lost % 0x100_0000 && 0 < lost)
            && (0 < lost < 0x80_0000 ==>
                  (ReportQuotient(s) >= 256 <==> 0 < U32(n.expected) && !(0 < U32(n.counted) <= U32(n.expected))))
  {
    var n := Tallies(Init(num), Tally(0, 0), es);
    RunInterval(Init(num), Tally(0, 0), es);
    hide *;
    IntervalQuotient(After(Init(num), es), n);
    QuotientWraps(U32(n.expected), I32(n.expected - n.counted));
    if 0 < I32(n.expected - n.counted) < 0x80_0000 { CountersHold(n); }
  }

  lemma QuotientWraps(e: nat, lost: int)
    ensures Quotient(e, lost) >= 256 <==> 0 < e <= lost % 0x100_0000 && 0 < lost
  {
    hide U32;
    if 0 < e && 0 < lost {
      Shift(lost);
      var low := lost % 0x100_0000;
      if low < e { Ratio(low, e); } else { Over(low * 256, e, 256); }
    }
  }

  lemma CountersHold(n: Tally)
    requires 0 < I32(n.expected - n.counted) < 0x80_0000
    ensures I32(n.expected - n.counted) % 0x100_0000 == I32(n.expected - n.counted)
    ensures I32(n.expected - n.counted) >= U32(n.expected) <==> !(0 < U32(n.counted) <= U32(n.expected))
  {
    CountersDiffer(n);
    HeldDiffer(U32(n.expected), U32(n.counted));
  }

  lemma HeldDiffer(e: nat, r: nat)
    requires e < W32 && r < W32
    ensures I32(e - r) > 0 ==> I32(e - r) == if r <= e then e - r else e - r + W32
  {
  }

  /** Every tally a stream of packets could have is that of a run. */
  lemma {:induction false} Reach(num: nat, e: nat, r: nat) returns (es: seq<Event>)
    requires num < SEQ_MOD && 1 <= r && 1 <= e <= 1 + 2999 * (r - 1)
    ensures After(Init(num), es).probation == 0 && Tallies(Init(num), Tally(0, 0), es) == Tally(e, r)
    decreases r
  {
    if r == 1 {
      es := [Packet(num), Packet(num + 1)];
      ReachFirst(num);
    } else {
      var d := if e - 1 < 2999 then e - 1 else 2999;
      var es' := Reach(num, e - d, r - 1);
      var s := After(Init(num), es');
      var ev := Packet(s.max + d);
      es := es' + [ev];
      AfterAppend(Init(num), es', ev);
      TalliesAppend(Init(num), Tally(0, 0), es', ev);
      NextPacket(s, d);
    }
  }

  lemma ReachFirst(num: nat)
    requires num < SEQ_MOD
    ensures var es := [Packet(num), Packet(num + 1)];
            After(Init(num), es).probation == 0 && Tallies(Init(num), Tally(0, 0), es) == Tally(1, 1)
  {
    hide Step, Tallied, Init;
    var s := Init(num);
    FirstPackets(num);
    AfterAppend(s, [Packet(num)], Packet(num + 1));
    TalliesAppend(s, Tally(0, 0), [Packet(num)], Packet(num + 1));
    AfterAppend(s, [], Packet(num));
    TalliesAppend(s, Tally(0, 0), [], Packet(num));
    assert [Packet(num)] + [Packet(num + 1)] == [Packet(num), Packet(num + 1)];
    assert [] + [Packet(num)] == [Packet(num)];
  }

  lemma FirstPackets(num: nat)
    requires num < SEQ_MOD
    ensures Fields(Init(num)) && Fields(Step(Init(num), Packet(num)))
    ensures var s := Init(num);
            var t := Step(s, Packet(num));
            && Tallied(s, Tally(0, 0), Packet(num)) == Tally(0, 0)
            && Step(t, Packet(num + 1)).probation == 0 && Tallied(t, Tally(0, 0), Packet(num + 1)) == Tally(1, 1)
  {
    hide U32;
    assert Step(Init(num), Packet(num)) == Init(num).(probation := 1, max := num);
  }

  /** A packet out of turn starts the probation over: the one after it, and no earlier one, ends it. */
  lemma ProbationStartsOver(s: Src, num: nat)
    requires Fields(s) && num < SEQ_MOD && s.probation > 0 && num != U16(s.max + 1)
    ensures var (t, counts) := Update(s, num);
            && !counts && t.probation > 0 && t.received == s.received && Fields(t)
            && var (u, now) := Update(t, U16(num + 1)); now && u.probation == 0 && u.base == u.max == U16(num + 1) && u.received == 1
  {
    hide U32;
    assert U32(1) == 1 by { OneIsOne(); }
  }

  lemma OneIsOne()
    ensures U32(1) == 1
  {
  }

  lemma NextPacket(s: Src, d: nat)
    requires Fields(s) && s.probation == 0 && d < MAX_DROPOUT
    ensures U16(U16(s.max + d) - s.max) == d && Step(s, Packet(s.max + d)).probation == 0
  {
  }

  lemma ReportOctet(s: Src)
    requires Fields(s)
    ensures Report(s).1.fraction == ReportQuotient(s) % 256
  {
    hide ReportQuotient, I32, U32, Expected, Clamp24;
  }

  lemma OneOfOne()
    ensures Quotient(U32(W32 + 1), I32(W32 + 1 - W32)) == 256
  {
  }

  lemma ShiftedOut()
    ensures var e := 0x100_0000 + 6000;
            Quotient(U32(e), I32(e - 6000)) == 0 && Share(Tally(e, 6000)) == 255
  {
  }

  /** The octet does wrap: of 2^32 + 1 packets one is lost, the counters say one of one, and the
      octet shows 0 for 256. */
  lemma FractionWraps(num: nat) returns (es: seq<Event>)
    requires num < SEQ_MOD
    ensures var s, n := After(Init(num), es), Tallies(Init(num), Tally(0, 0), es);
            && s.probation == 0 && n == Tally(W32 + 1, W32)
            && ReportQuotient(s) == 256 && Report(s).1.fraction == 0
  {
    es := Reach(num, W32 + 1, W32);
    RunInterval(Init(num), Tally(0, 0), es);
    hide *;
    IntervalQuotient(After(Init(num), es), Tally(W32 + 1, W32));
    ReportOctet(After(Init(num), es));
    OneOfOne();
  }

  /** And a large loss does hide: 2^24 packets lost of 2^24 + 6000 show 0 for 255. */
  lemma LossHidden(num: nat) returns (es: seq<Event>)
    requires num < SEQ_MOD
    ensures var s, n := After(Init(num), es), Tallies(Init(num), Tally(0, 0), es);
            && s.probation == 0 && n == Tally(0x100_0000 + 6000, 6000)
            && Share(n) == 255 && Report(s).1.fraction == 0
  {
    var e := 0x100_0000 + 6000;
    es := Reach(num, e, 6000);
    RunInterval(Init(num), Tally(0, 0), es);
    hide *;
    IntervalQuotient(After(Init(num), es), Tally(e, 6000));
    ReportOctet(After(Init(num), es));
    ShiftedOut();
  }

  /** A report on a source still on probation shows no loss: nothing has been counted, so the
      quotient is 0 or 256. */
  lemma {:induction false} ProbationShowsNone(num: nat, es: seq<Event>)
    requires num < SEQ_MOD && After(Init(num), es).probation > 0
    ensures Report(After(Init(num), es)).1.fraction == 0
  {
    RunProbation(Init(num), es);
    ProbationQuotient(After(Init(num), es));
  }

  ghost predicate OnProbation(s: Src) {
    && Fields(s)
    && (s.probation > 0 ==> s.received == s.recPrior == s.cycles == 0 && -SEQ_MOD <= I32(s.expPrior) <= SEQ_MOD)
  }

  lemma {:induction false} RunProbation(s: Src, es: seq<Event>)
    requires OnProbation(s)
    ensures OnProbation(After(s, es))
    decreases |es|
  {
    if es != [] {
      match es[0] {
        case Packet(x) => ProbationPacket(s, U16(x));
        case Reported => ProbationReport(s);
      }
      hide Update, Report;
      RunProbation(Step(s, es[0]), es[1..]);
    }
  }

  lemma ProbationPacket(s: Src, num: nat)
    requires OnProbation(s) && num < SEQ_MOD
    ensures OnProbation(Update(s, num).0)
  {
    UpdateFields(s, num);
  }

  lemma ProbationReport(s: Src)
    requires OnProbation(s)
    ensures OnProbation(Report(s).0)
  {
    hide ReportQuotient, Clamp24, I32;
    ExpectedFields(s);
    if s.probation > 0 { Pattern(Expected(s), s.max - s.base + 1); }
  }

  lemma ProbationQuotient(s: Src)
    requires OnProbation(s) && s.probation > 0
    ensures ReportQuotient(s) == 0 || ReportQuotient(s) == 256
  {
    hide U32, I32, Quotient;
    var d := s.max - s.base + 1 - I32(s.expPrior);
    WrapAdd(s.max - s.base + 1, 0 - s.expPrior);
    SignedWraps(s.max - s.base + 1, s.expPrior);
    Small(0);
    NoneCounted(U32(d), d);
  }

  lemma SignedWraps(x: int, p: nat)
    requires p < W32
    ensures U32(x - p) == U32(x - I32(p))
  {
    if p >= 0x8000_0000 {
      assert x - I32(p) == x - p + W32;
      WrapAdd(x - p + W32, 0);
    }
  }

  lemma NoneCounted(e: nat, d: int)
    requires e == U32(d) && -0x2_0000 <= d <= 0x2_0000
    ensures Quotient(e, I32(e)) == 0 || Quotient(e, I32(e)) == 256
  {
    if d > 0 {
      assert e == d == I32(e);
      Shift(d);
      assert d % 0x100_0000 == d;
      Exactly(d);
    } else {
      assert e == 0 || I32(e) < 0;
    }
  }

  lemma Exactly(d: nat)
    requires d > 0
    ensures d * 256 / d == 256
  {
    DivModUnique(d * 256, d, 256, 0);
  }

  // ---------- jitter ----------

  /** One step of the estimator, scaled by 16, for a change of transit time of magnitude d. */
  function JitterStep(j: nat, d: nat): nat { U32(j + d - (j + 8) / 16) }

  /** The 32-bit arithmetic never underflows or overflows, and 16 M + 7 is kept. A step takes the
      estimate a sixteenth of the way to the change, to the nearest unit. */
  lemma JitterBound(j: nat, d: nat, m: nat)
    requires d <= m < 0x800_0000 && j <= 16 * m + 7
    ensures JitterStep(j, d) <= 16 * m + 7
    ensures 15 * j + 16 * d - 8 <= 16 * JitterStep(j, d) < 15 * j + 16 * d + 8
  {
  }

  /** The magnitude the code computes from two 32-bit transit times. */
  function Magnitude(was: nat, now: nat): nat
  {
    var d := I32(now - was);
    if d < 0 then 0 - d else d
  }

  /** It is the true one while the true change is below 2^31. */
  lemma MagnitudeIs(a: int, b: int)
    requires -0x8000_0000 < b - a < 0x8000_0000
    ensures Magnitude(U32(a), U32(b)) == if b >= a then b - a else a - b
  {
    WrapAdd(b, 0 - U32(a) as int);
    WrapSub(b, a);
    hide U32;
    Pattern(U32(b) - U32(a), b - a);
  }

  /** The jitter half of rtp_source_t. */
  datatype Est = Est(has: bool, transit: nat, jitter: nat)

  /** rtp_source_jitter: the first sample only seeds the transit time. */
  function Sampled(e: Est, ts: nat, arrival: nat): Est {
    var t := U32(arrival - ts);
    Est(true, t, if e.has then JitterStep(e.jitter, Magnitude(e.transit, t)) else e.jitter)
  }

  /** A packet by the unbounded readings of the sender's and the receiver's clock. */
  datatype Sample = Sample(ts: int, arrival: int)

  function Transit(s: Sample): int { s.arrival - s.ts }

  function Estimated(e: Est, ss: seq<Sample>): Est
    decreases |ss|
  {
    if ss == [] then e else Estimated(Sampled(e, U32(ss[0].ts), U32(ss[0].arrival)), ss[1..])
  }

  /** No change of transit time from one packet to the next exceeds m. */
  predicate Steady(ss: seq<Sample>, m: nat) {
    forall i {:trigger ss[i]} :: 0 < i < |ss| ==> -(m as int) <= Transit(ss[i]) - Transit(ss[i - 1]) <= m
  }

  /** Over every run of packets from a new source whose transit time changes by at most M at a time,
      the estimate scaled by 16 stays within 16 M + 7 and the reported jitter within M. */
  lemma RunJitter(ss: seq<Sample>, m: nat)
    requires m < 0x800_0000 && Steady(ss, m)
    ensures var e := Estimated(Est(false, 0, 0), ss); e.jitter <= 16 * m + 7 && e.jitter / 16 <= m
  {
    if ss != [] {
      var e := Sampled(Est(false, 0, 0), U32(ss[0].ts), U32(ss[0].arrival));
      SampleTransit(ss[0]);
      JitterFrom(e, ss, m);
    }
  }

  lemma SampleTransit(s: Sample)
    ensures U32(U32(s.arrival) - U32(s.ts)) == U32(Transit(s))
  {
    WrapSub(U32(s.arrival), s.ts);
    WrapAdd(s.arrival, 0 - s.ts);
  }

  lemma {:induction false} JitterFrom(e: Est, ss: seq<Sample>, m: nat)
    requires m < 0x800_0000 && Steady(ss, m) && ss != []
    requires e.has && e.transit == U32(Transit(ss[0])) && e.jitter <= 16 * m + 7
    ensures var r := Estimated(e, ss[1..]); r.jitter <= 16 * m + 7 && r.jitter / 16 <= m
    decreases |ss|
  {
    if |ss| > 1 {
      hide U32, JitterStep, Magnitude;
      var rest := ss[1..];
      assert rest[0] == ss[1] && Transit(ss[1]) - Transit(ss[1 - 1]) <= m;
      SampleTransit(ss[1]);
      MagnitudeIs(Transit(ss[0]), Transit(ss[1]));
      JitterBound(e.jitter, Magnitude(e.transit, U32(Transit(ss[1]))), m);
      SteadyRest(ss, m);
      JitterFrom(Sampled(e, U32(ss[1].ts), U32(ss[1].arrival)), rest, m);
    } else {
      assert ss[1..] == [];
    }
  }

  /** Every change of transit time from one packet to the next is at least m. */
  predicate Rough(ss: seq<Sample>, m: nat) {
    forall i {:trigger ss[i]} :: 0 < i < |ss| ==>
      Transit(ss[i]) - Transit(ss[i - 1]) >= m || Transit(ss[i - 1]) - Transit(ss[i]) >= m
  }

  /** And from below: with changes of at least L the estimate gains at least one with every packet
      until it has reached 16 L - 8, and never falls below that again. */
  lemma RunJitterFloor(ss: seq<Sample>, low: nat, m: nat)
    requires m < 0x800_0000 && Steady(ss, m) && Rough(ss, low) && 0 < |ss|
    ensures var j := Estimated(Est(false, 0, 0), ss).jitter; j >= |ss| - 1 || j >= 16 * low - 8
  {
    var e := Sampled(Est(false, 0, 0), U32(ss[0].ts), U32(ss[0].arrival));
    SampleTransit(ss[0]);
    JitterRises(e, ss, low, m);
  }

  lemma {:induction false} JitterRises(e: Est, ss: seq<Sample>, low: nat, m: nat)
    requires m < 0x800_0000 && Steady(ss, m) && Rough(ss, low) && ss != []
    requires e.has && e.transit == U32(Transit(ss[0])) && e.jitter <= 16 * m + 7
    ensures var j := Estimated(e, ss[1..]).jitter; j >= e.jitter + |ss| - 1 || j >= 16 * low - 8
    decreases |ss|
  {
    if |ss| > 1 {
      hide U32, JitterStep, Magnitude;
      var rest := ss[1..];
      assert rest[0] == ss[1] && Transit(ss[1]) - Transit(ss[1 - 1]) <= m;
      assert Transit(ss[1]) - Transit(ss[1 - 1]) >= low || Transit(ss[1 - 1]) - Transit(ss[1]) >= low;
      SampleTransit(ss[1]);
      MagnitudeIs(Transit(ss[0]), Transit(ss[1]));
      var d := Magnitude(e.transit, U32(Transit(ss[1])));
      JitterBound(e.jitter, d, m);
      JitterGains(e.jitter, d, low, m);
      SteadyRest(ss, m);
      RoughRest(ss, low);
      JitterRises(Sampled(e, U32(ss[1].ts), U32(ss[1].arrival)), rest, low, m);
    } else {
      assert ss[1..] == [];
    }
  }

  lemma JitterGains(j: nat, d: nat, low: nat, m: nat)
    requires low <= d <= m < 0x800_0000 && j <= 16 * m + 7
    ensures JitterStep(j, d) >= j + 1 || JitterStep(j, d) >= 16 * low - 8
  {
  }

  lemma RoughRest(ss: seq<Sample>, m: nat)
    requires Rough(ss, m) && ss != []
    ensures Rough(ss[1..], m)
  {
    forall i | 0 < i < |ss| - 1
      ensures Transit(ss[1..][i]) - Transit(ss[1..][i - 1]) >= m || Transit(ss[1..][i - 1]) - Transit(ss[1..][i]) >= m
    {
      assert ss[1..][i] == ss[i + 1] && ss[1..][i - 1] == ss[i];
    }
  }

  lemma SteadyRest(ss: seq<Sample>, m: nat)
    requires Steady(ss, m) && ss != []
    ensures Steady(ss[1..], m)
  {
    forall i | 0 < i < |ss| - 1
      ensures -(m as int) <= Transit(ss[1..][i]) - Transit(ss[1..][i - 1]) <= m
    {
      assert ss[1..][i] == ss[i + 1] && ss[1..][i - 1] == ss[i];
    }
  }

  lemma WrapSub(b: int, a: int)
    ensures U32(b - U32(a)) == U32(b - a)
  {
    assert b - U32(a) == b - a + a / W32 * W32;
    assert b - a == (b - a) / W32 * W32 + U32(b - a);
    DivModUnique(b - U32(a), W32, (b - a) / W32 + a / W32, U32(b - a));
  }

  lemma Pattern(x: int, y: int)
    requires U32(x) == U32(y) && -0x8000_0000 <= y < 0x8000_0000
    ensures I32(x) == y
  {
  }
}

/** The tracker as the code updates it. */
module Rtp {
  import opened RtpSpec

  method Octet(expected: nat, lost: int) returns (fraction: nat)
    ensures fraction == Quotient(expected, lost) % 256
  {
    fraction := 0;
    if expected != 0 && lost > 0 { fraction := U32(lost * 256) / expected % 256; }
  }

  class Source {
    var max: nat
    var cycles: nat
    var base: nat
    var bad: nat
    var probation: nat
    var received: nat
    var expPrior: nat
    var recPrior: nat
    var hasTransit: bool
    var transit: nat
    var jitter: nat

    function View(): Src
      reads this
    {
      Src(max, cycles, base, bad, probation, received, expPrior, recPrior)
    }

    function Estimator(): Est
      reads this
    {
      Est(hasTransit, transit, jitter)
    }

    /** rtp_source_init. */
    constructor (num: nat)
      requires num < SEQ_MOD
      ensures View() == Init(num) && U16(max + 1) == num
      ensures Estimator() == Est(false, 0, 0)
    {
      base, bad, cycles, received, recPrior, expPrior := num, SEQ_MOD + 1, 0, 0, 0, 0;
      max, probation := U16(num - 1), MIN_SEQUENTIAL;
      hasTransit, transit, jitter := false, 0, 0;
    }

    method ResetTo(num: nat)
      modifies this`base, this`max, this`bad, this`cycles, this`received, this`recPrior, this`expPrior
      ensures View() == RtpSpec.Reset(old(View()), num)
    {
      base, max, bad, cycles := num, num, SEQ_MOD + 1, 0;
      received, recPrior, expPrior := 0, 0, 0;
    }

    /** rtp_source_update. */
    method Packet(num: nat) returns (counted: bool)
      requires Fields(View()) && num < SEQ_MOD
      modifies this
      ensures (View(), counted) == Update(old(View()), num) && Fields(View())
      ensures hasTransit == old(hasTransit) && transit == old(transit) && jitter == old(jitter)
    {
      UpdateFields(View(), num);
      var udelta := U16(num - max);
      if probation > 0 {
        if num == U16(max + 1) {
          probation := probation - 1;
          max := num;
          if probation == 0 {
            ResetTo(num);
            received := U32(received + 1);
            return true;
          }
        } else {
          probation := MIN_SEQUENTIAL - 1;
          max := num;
        }
        return false;
      } else if udelta < MAX_DROPOUT {
        if num < max { cycles := U32(cycles + SEQ_MOD); }
        max := num;
      } else if udelta <= SEQ_MOD - MAX_MISORDER {
        if num == bad {
          ResetTo(num);
        } else {
          bad := U16(num + 1);
          return false;
        }
      }
      received := U32(received + 1);
      return true;
    }

    /** rtp_source_jitter; the first sample only seeds the transit time. */
    method Jitter(ts: nat, arrival: nat)
      requires ts < W32 && arrival < W32 && transit < W32
      modifies this`hasTransit, this`transit, this`jitter
      ensures Estimator() == Sampled(old(Estimator()), ts, arrival) && transit < W32
    {
      var t := U32(arrival - ts);
      if !hasTransit {
        hasTransit, transit := true, t;
        return;
      }
      var d := U32(t - transit);
      transit := t;
      if d >= 0x8000_0000 { d := W32 - d; }
      jitter := U32(jitter + d - (jitter + 8) / 16);
    }

    /** rtp_source_report. */
    method Snapshot() returns (out: Rep, jitterOut: nat)
      requires Fields(View())
      modifies this`expPrior, this`recPrior
      ensures (View(), out) == Report(old(View())) && Fields(View())
      ensures jitterOut == jitter / 16
    {
      hide Fields, U32, I32, Expected, Clamp24, Quotient, ReportQuotient, Report;
      ghost var was := View();
      ExtendedMax(was);
      ReportFields(was);
      ReportIs(was);
      var extMax := U32(cycles + max);
      var expected := U32(extMax - base + 1);
      var lost := Clamp24(I32(expected as int - received));
      var expectedInterval := U32(expected - expPrior);
      var receivedInterval := U32(received - recPrior);
      expPrior, recPrior := expected, received;
      var lostInterval := I32(expectedInterval as int - receivedInterval);
      var fraction := Octet(expectedInterval, lostInterval);
      return Rep(lost, fraction, extMax), jitter / 16;
    }
  }
}
