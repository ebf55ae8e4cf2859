/** Inter-frame gaps with deficit idle count (clause 46.3.1.4 of IEEE 802.3), measured on the lanes that go out. */
module Pacing {
  import opened Bits
  import opened Storage
  import opened Xgmii

  const IFG: nat := 12

  /** A gap between two frames: its lanes from the terminate character up to the next start character, the deficit
      counter at either end, and whether a frame was waiting to be sent at every clock in between. */
  datatype Gap = Gap(len: nat, before: nat, after: nat, tight: bool)

  /** What the lanes so far show: whether a gap is open, how it stands, and the gaps that were closed. */
  datatype Meter = Meter(open: bool, len: nat, before: nat, tight: bool, gaps: seq<Gap>)

  function See(m: Meter, l: Lane, deficit: nat): Meter {
    if l == Control(TERM) then Meter(true, 1, deficit, true, m.gaps)
    else if l == Control(START) then
      Meter(false, 0, 0, true, if m.open then m.gaps + [Gap(m.len, m.before, deficit, m.tight)] else m.gaps)
    else if m.open then m.(len := m.len + 1)
    else m
  }

  function SeeAll(m: Meter, w: seq<Lane>, deficit: nat): Meter {
    if w == [] then m else See(SeeAll(m, w[..|w| - 1], deficit), w[|w| - 1], deficit)
  }

  /** One clock of a source, as it is seen from outside: the word sent, whether a frame was waiting in the queue, and
      the deficit counter afterwards. */
  datatype Beat = Beat(w: seq<Lane>, waiting: bool, deficit: nat)

  function SeeBeat(m: Meter, b: Beat): Meter {
    SeeAll(if m.open then m.(tight := m.tight && b.waiting) else m, b.w, b.deficit)
  }

  /** The gaps in a whole log of clocks. */
  function Measure(log: seq<Beat>): Meter {
    if log == [] then Meter(false, 0, 0, true, []) else SeeBeat(Measure(log[..|log| - 1]), log[|log| - 1])
  }

  /** All lanes sent, one after the other. */
  function Wire(log: seq<Beat>): seq<Lane> {
    if log == [] then [] else Wire(log[..|log| - 1]) + log[|log| - 1].w
  }

  /** The same from the lanes alone: the lengths of the gaps between a terminate and the next start character. */
  datatype Ruler = Ruler(open: bool, len: nat, spans: seq<nat>)

  function Span(wire: seq<Lane>): Ruler {
    if wire == [] then Ruler(false, 0, [])
    else
      var r, l := Span(wire[..|wire| - 1]), wire[|wire| - 1];
      if l == Control(TERM) then Ruler(true, 1, r.spans)
      else if l == Control(START) then Ruler(false, 0, if r.open then r.spans + [r.len] else r.spans)
      else if r.open then r.(len := r.len + 1)
      else r
  }

  /** A gap is as long as its terminate (0xfd) and start (0xfb) are apart, and counts when the start is seen. */
  lemma SpanOfGap(wire: seq<Lane>, i: nat, j: nat)
    requires i < j && |wire| == j + 1 && wire[i] == Lane(true, 0xfd) && wire[j] == Lane(true, 0xfb)
    requires forall k :: i < k < j ==> wire[k] !in [Lane(true, 0xfd), Lane(true, 0xfb)]
    ensures Span(wire).spans == Span(wire[..i]).spans + [j - i]
  {
    assert wire[..j] == wire[..|wire| - 1];
    OpenSpan(wire, i, j);
  }

  lemma {:induction false} OpenSpan(wire: seq<Lane>, i: nat, j: nat)
    requires i < j <= |wire| && wire[i] == Lane(true, 0xfd)
    requires forall k :: i < k < j ==> wire[k] !in [Lane(true, 0xfd), Lane(true, 0xfb)]
    ensures Span(wire[..j]) == Ruler(true, j - i, Span(wire[..i]).spans)
    decreases j
  {
    assert wire[..j][..j - 1] == wire[..j - 1] && wire[..j][j - 1] == wire[j - 1];
    if j > i + 1 { OpenSpan(wire, i, j - 1); }
  }

  /** No other lane adds a gap: a lane that is no start, or a start with no terminate since the one before it. */
  lemma NoSpan(wire: seq<Lane>, i: nat)
    requires wire != [] && i < |wire| && (i == 0 || wire[i - 1] == Lane(true, 0xfb))
    requires wire[|wire| - 1] == Lane(true, 0xfb) ==> forall k :: i <= k < |wire| ==> wire[k] != Lane(true, 0xfd)
    ensures Span(wire).spans == Span(wire[..|wire| - 1]).spans && Span([]).spans == []
  {
    if wire[|wire| - 1] == Lane(true, 0xfb) { ClosedSpan(wire, i, |wire| - 1); }
  }

  lemma {:induction false} ClosedSpan(wire: seq<Lane>, i: nat, j: nat)
    requires i <= j <= |wire| && (i == 0 || wire[i - 1] == Lane(true, 0xfb))
    requires forall k :: i <= k < j ==> wire[k] != Lane(true, 0xfd)
    ensures !Span(wire[..j]).open
    decreases j
  {
    if j > 0 {
      assert wire[..j][..j - 1] == wire[..j - 1] && wire[..j][j - 1] == wire[j - 1];
      if j > i { ClosedSpan(wire, i, j - 1); }
    }
  }

  /** The wire grows by the word of each clock. */
  lemma WireMore(log: seq<Beat>, b: Beat)
    ensures Wire([]) == [] && Wire(log + [b]) == Wire(log) + b.w
  {
    assert (log + [b])[..|log|] == log;
  }

  /** The meter's gaps have the lengths on the wire. */
  ghost predicate Agrees(m: Meter, r: Ruler) {
    m.open == r.open && m.len == r.len && |m.gaps| == |r.spans|
    && forall i :: 0 <= i < |r.spans| ==> m.gaps[i].len == r.spans[i]
  }

  lemma {:induction false} SeeAgrees(m: Meter, w: seq<Lane>, deficit: nat, wire: seq<Lane>)
    requires Agrees(m, Span(wire))
    ensures Agrees(SeeAll(m, w, deficit), Span(wire + w))
    decreases |w|
  {
    if w == [] {
      assert wire + w == wire;
    } else {
      SeeAgrees(m, w[..|w| - 1], deficit, wire);
      assert (wire + w)[..|wire + w| - 1] == wire + w[..|w| - 1];
    }
  }

  lemma {:induction false} MeasureAgrees(log: seq<Beat>)
    ensures Agrees(Measure(log), Span(Wire(log)))
    decreases |log|
  {
    hide Span, See;
    if log == [] {
      SpanOfNone();
    } else {
      MeasureAgrees(log[..|log| - 1]);
      var m, b := Measure(log[..|log| - 1]), log[|log| - 1];
      SeeAgrees(if m.open then m.(tight := m.tight && b.waiting) else m, b.w, b.deficit, Wire(log[..|log| - 1]));
    }
  }

  lemma SpanOfNone()
    ensures Agrees(Measure([]), Span([]))
  {
  }

  lemma MeasureMore(log: seq<Beat>, b: Beat)
    ensures Measure(log + [b]) == SeeBeat(Measure(log), b)
  {
    assert (log + [b])[..|log|] == log;
  }

  lemma {:induction false} SeeConcat(m: Meter, a: seq<Lane>, b: seq<Lane>, deficit: nat)
    ensures SeeAll(m, a + b, deficit) == SeeAll(SeeAll(m, a, deficit), b, deficit)
    decreases |b|
  {
    hide See;
    if b == [] {
      assert a + b == a;
    } else {
      SeeConcat(m, a, b[..|b| - 1], deficit);
      assert (a + b)[..|a + b| - 1] == a + b[..|b| - 1];
    }
  }

  /** Idles make an open gap longer. */
  lemma {:induction false} SeeIdles(m: Meter, n: nat, deficit: nat)
    ensures SeeAll(m, Idles(n), deficit) == if m.open then m.(len := m.len + n) else m
    decreases n
  {
    if n > 0 {
      SeeIdles(m, n - 1, deficit);
      assert Idles(n)[..n - 1] == Idles(n - 1);
    }
  }

  /** The bytes of a frame are in no gap. */
  lemma {:induction false} SeePlain(m: Meter, x: seq<byte>, deficit: nat)
    requires !m.open
    ensures SeeAll(m, Plain(x), deficit) == m
    decreases |x|
  {
    if x != [] {
      SeePlain(m, x[..|x| - 1], deficit);
      assert Plain(x)[..|x| - 1] == Plain(x[..|x| - 1]);
    }
  }

  lemma SeeOne(m: Meter, l: Lane, deficit: nat)
    ensures SeeAll(m, [l], deficit) == See(m, l, deficit)
  {
    assert SeeAll(m, [l][..0], deficit) == m;
  }

  /** A further word of a frame opens a gap when it holds the terminate character. */
  lemma SeeFurther(m: Meter, rem: seq<Lane>, bw: nat, deficit: nat)
    requires Tail(rem) && !m.open
    ensures SeeAll(m, NextWord(rem, bw), deficit) ==
      if |rem| > bw then m else Meter(true, bw - (|rem| - 1), deficit, true, m.gaps)
  {
    hide See, SeeAll;
    var x: seq<byte> :| rem == Plain(x) + [Control(TERM)];
    if |rem| > bw {
      assert rem[..bw] == Plain(x[..bw]);
      SeePlain(m, x[..bw], deficit);
    } else {
      SeeTerm(m, x, bw - |rem|, deficit);
      assert NextWord(rem, bw) == Plain(x) + [Control(TERM)] + Idles(bw - |rem|);
    }
  }

  lemma SeeTerm(m: Meter, x: seq<byte>, n: nat, deficit: nat)
    requires !m.open
    ensures SeeAll(m, Plain(x) + [Control(TERM)] + Idles(n), deficit) == Meter(true, 1 + n, deficit, true, m.gaps)
  {
    hide SeeAll;
    SeeConcat(m, Plain(x) + [Control(TERM)], Idles(n), deficit);
    SeeConcat(m, Plain(x), [Control(TERM)], deficit);
    SeePlain(m, x, deficit);
    SeeOne(m, Control(TERM), deficit);
    SeeIdles(Meter(true, 1, deficit, true, m.gaps), n, deficit);
  }

  /** The first word of a frame closes the gap; in lane 4 it adds four lanes to it. */
  lemma SeeStart(m: Meter, f: seq<byte>, inLane4: bool, bw: nat, deficit: nat)
    requires |f| >= bw && (if inLane4 then bw == 8 else bw == 4 || bw == 8)
    ensures var lead := if inLane4 then 4 else 0;
      SeeAll(m, NextWord(Sent(f, inLane4), bw), deficit) ==
        Meter(false, 0, 0, true, if m.open then m.gaps + [Gap(m.len + lead, m.before, deficit, m.tight)] else m.gaps)
  {
    hide SeeAll;
    var lead := if inLane4 then 4 else 0;
    var x := f[1..bw - lead];
    assert NextWord(Sent(f, inLane4), bw) == Idles(lead) + [Control(START)] + Plain(x);
    SeeConcat(m, Idles(lead) + [Control(START)], Plain(x), deficit);
    SeeConcat(m, Idles(lead), [Control(START)], deficit);
    SeeIdles(m, lead, deficit);
    var m1 := if m.open then m.(len := m.len + lead) else m;
    SeeOne(m1, Control(START), deficit);
    SeePlain(See(m1, Control(START), deficit), x, deficit);
  }

  /** What holds of every gap: the deficit stays below four, and lanes and new deficit together make up for twelve lanes
      and the old deficit, exactly so if a frame was waiting; without deficit idle count no deficit is left. */
  ghost predicate GapOk(g: Gap, dic: bool) {
    && g.before <= 3 && g.after <= 3 && g.len + g.after >= IFG + g.before
    && (dic && g.tight ==> g.len + g.after == IFG + g.before)
    && (!dic ==> g.after == 0)
  }

  /** The deficit the last gap left. */
  function Owed(gaps: seq<Gap>): nat { if gaps == [] then 0 else gaps[|gaps| - 1].after }

  /** Every gap starts from the deficit the one before it left. */
  ghost predicate Chained(gaps: seq<Gap>) {
    forall i {:trigger gaps[i]} :: 0 <= i < |gaps| ==> gaps[i].before == Owed(gaps[..i])
  }

  ghost predicate GapsOk(gaps: seq<Gap>, dic: bool) {
    Chained(gaps) && forall i :: 0 <= i < |gaps| ==> GapOk(gaps[i], dic)
  }

  /** The source's counters agree with what went out. */
  ghost predicate PaceOk(m: Meter, sending: bool, ifgCnt: int, deficit: nat, dic: bool) {
    && deficit <= 3 && 0 <= ifgCnt <= IFG + 2 && (!dic ==> deficit == 0) && GapsOk(m.gaps, dic)
    && (sending ==> !m.open && ifgCnt == 0 && deficit == Owed(m.gaps))
    && (!sending && !m.open ==> ifgCnt == 0 && deficit == 0 && m.gaps == [])
    && (!sending && m.open ==>
          && m.before == Owed(m.gaps) && m.before <= 3 && m.len + ifgCnt >= IFG + m.before
          && (dic && m.tight ==> m.len + ifgCnt == IFG + m.before))
  }

  /** A word of idles while the counter still holds the next frame off. */
  lemma HoldOk(m: Meter, ifgCnt: int, deficit: nat, dic: bool, bw: nat, waiting: bool)
    requires PaceOk(m, false, ifgCnt, deficit, dic) && (ifgCnt > bw - 1 || (!dic && ifgCnt > 0))
    ensures PaceOk(SeeBeat(m, Beat(Idles(bw), waiting, deficit)), false, Max(ifgCnt - bw, 0), deficit, dic)
  {
    hide SeeAll, GapsOk;
    SeeIdles(if m.open then m.(tight := m.tight && waiting) else m, bw, deficit);
  }

  /** A word of idles because there is nothing to send: both counters are cleared. */
  lemma QuietOk(m: Meter, ifgCnt: int, deficit: nat, dic: bool, bw: nat)
    requires PaceOk(m, false, ifgCnt, deficit, dic) && ifgCnt < bw
    ensures PaceOk(SeeBeat(m, Beat(Idles(bw), false, 0)), false, 0, 0, dic)
  {
    hide SeeAll, GapsOk;
    SeeIdles(if m.open then m.(tight := false) else m, bw, 0);
  }

  /** The gap counter after a further word of a frame: it starts in the lane of the terminate character. */
  function AfterPop(rem: seq<Lane>, bw: nat, ifgCnt: int, deficit: nat): int {
    if |rem| > bw then ifgCnt else IFG - (bw - (|rem| - 1)) + deficit
  }

  lemma PopOk(m: Meter, rem: seq<Lane>, bw: nat, ifgCnt: int, deficit: nat, dic: bool, waiting: bool)
    requires PaceOk(m, true, ifgCnt, deficit, dic) && Tail(rem) && 0 < bw <= 8
    ensures PaceOk(SeeBeat(m, Beat(NextWord(rem, bw), waiting, deficit)),
                   |rem| > bw, AfterPop(rem, bw, ifgCnt, deficit), deficit, dic)
  {
    hide SeeAll, GapsOk, NextWord;
    SeeFurther(m, rem, bw, deficit);
    TailLength(rem);
  }

  /** The frame starts in lane 4 when at least four lanes of gap are missing and the word has that lane. */
  predicate Offset(ifgCnt: int, bw: nat) { bw == 8 && ifgCnt >= 4 }

  /** A frame begins; what is missing of the gap becomes the new deficit. */
  lemma BeginOk(m: Meter, f: seq<byte>, ifgCnt: int, deficit: nat, dic: bool, bw: nat)
    requires PaceOk(m, false, ifgCnt, deficit, dic) && ifgCnt < bw && (dic || ifgCnt == 0) && (bw == 4 || bw == 8)
    requires |f| >= 8
    ensures var inLane4 := Offset(ifgCnt, bw);
      var d := if inLane4 then ifgCnt - 4 else ifgCnt;
      d >= 0 && PaceOk(SeeBeat(m, Beat(NextWord(Sent(f, inLane4), bw), true, d)), true, 0, d, dic)
  {
    hide SeeAll, GapsOk, NextWord;
    var inLane4 := Offset(ifgCnt, bw);
    var d := if inLane4 then ifgCnt - 4 else ifgCnt;
    SeeStart(m, f, inLane4, bw, d);
    if m.open { OneMoreGap(m.gaps, Gap(m.len + if inLane4 then 4 else 0, m.before, d, m.tight), dic); }
  }

  lemma OneMoreGap(gaps: seq<Gap>, g: Gap, dic: bool)
    requires GapsOk(gaps, dic) && GapOk(g, dic) && g.before == Owed(gaps)
    ensures GapsOk(gaps + [g], dic) && Owed(gaps + [g]) == g.after
  {
    hide GapOk;
    var all := gaps + [g];
    forall i | 0 <= i < |all| ensures all[i].before == Owed(all[..i]) && GapOk(all[i], dic) {
      if i < |gaps| {
        assert all[..i] == gaps[..i] && all[i] == gaps[i];
      } else {
        assert all[..i] == gaps;
      }
    }
  }

  function Sum(ns: seq<nat>): nat { if ns == [] then 0 else Sum(ns[..|ns| - 1]) + ns[|ns| - 1] }

  function Lens(gaps: seq<Gap>): (ns: seq<nat>)
    ensures |ns| == |gaps| && forall i :: 0 <= i < |gaps| ==> ns[i] == gaps[i].len
  {
    seq(|gaps|, i requires 0 <= i < |gaps| => gaps[i].len)
  }

  /** The deficits cancel out along the chain of gaps. */
  lemma {:induction false} SumOfGaps(gaps: seq<Gap>, dic: bool)
    requires GapsOk(gaps, dic)
    ensures Sum(Lens(gaps)) + Owed(gaps) >= IFG * |gaps| && Owed(gaps) <= 3
    ensures dic && (forall i :: 0 <= i < |gaps| ==> gaps[i].tight) ==> Sum(Lens(gaps)) + Owed(gaps) == IFG * |gaps|
    decreases |gaps|
  {
    var n := |gaps|;
    if n > 0 {
      var rest := gaps[..n - 1];
      forall i | 0 <= i < n - 1 ensures rest[i].before == Owed(rest[..i]) && GapOk(rest[i], dic) {
        assert rest[i] == gaps[i] && rest[..i] == gaps[..i];
      }
      SumOfGaps(rest, dic);
      assert GapOk(gaps[n - 1], dic) && gaps[n - 1].before == Owed(rest);
      assert Lens(gaps)[..n - 1] == Lens(rest);
    }
  }

  ghost predicate AllTight(m: Meter) {
    (m.open ==> m.tight) && forall i :: 0 <= i < |m.gaps| ==> m.gaps[i].tight
  }

  lemma {:induction false} SeeTight(m: Meter, w: seq<Lane>, deficit: nat)
    requires AllTight(m)
    ensures AllTight(SeeAll(m, w, deficit))
    decreases |w|
  {
    if w != [] { SeeTight(m, w[..|w| - 1], deficit); }
  }

  /** While a frame is always waiting every gap is tight. */
  lemma {:induction false} BusyTight(log: seq<Beat>)
    requires forall i :: 0 <= i < |log| ==> log[i].waiting
    ensures AllTight(Measure(log))
    decreases |log|
  {
    if log != [] {
      var n := |log| - 1;
      BusyTight(log[..n]);
      SeeTight(Measure(log[..n]), log[n].w, log[n].deficit);
    }
  }

  /** Deficit idle count, on the lanes of any run: each gap between a terminate and the next start character has at
      least nine lanes, and n gaps have at least 12n - 3 together. A gap through which a frame was waiting has exactly
      twelve lanes plus the old deficit minus the new one; if all are such, the total is 12n less the last deficit. */
  lemma GapsBound(log: seq<Beat>, sending: bool, ifgCnt: int, deficit: nat, dic: bool)
    requires PaceOk(Measure(log), sending, ifgCnt, deficit, dic)
    ensures var spans, gaps := Span(Wire(log)).spans, Measure(log).gaps;
      && |gaps| == |spans| && Sum(spans) >= 12 * |spans| - 3
      && (forall i :: 0 <= i < |spans| ==> spans[i] == gaps[i].len && spans[i] >= if dic then 9 else 12)
      && (forall i :: 0 <= i < |gaps| && dic && gaps[i].tight ==> gaps[i].len == 12 + gaps[i].before - gaps[i].after)
      && (forall i :: 0 < i < |gaps| ==> gaps[i].before == gaps[i - 1].after)
      && (dic && (forall i :: 0 <= i < |gaps| ==> gaps[i].tight) ==> Sum(spans) == 12 * |spans| - Owed(gaps))
  {
    hide Measure, Span, Wire;
    var spans, gaps := Span(Wire(log)).spans, Measure(log).gaps;
    MeasureAgrees(log);
    SumOfGaps(gaps, dic);
    assert Lens(gaps) == spans;
    forall i | 0 <= i < |gaps|
      ensures GapOk(gaps[i], dic) && (!dic ==> gaps[i].before == 0) && (i > 0 ==> gaps[i].before == gaps[i - 1].after)
    {
      assert gaps[i].before == Owed(gaps[..i]);
      if i > 0 { assert gaps[..i][i - 1] == gaps[i - 1] && GapOk(gaps[i - 1], dic); }
    }
  }

  /** A source with deficit idle count that always has a frame waiting: n gaps have exactly 12n lanes less the last
      deficit, which is at most three. */
  lemma BusyTotal(log: seq<Beat>, sending: bool, ifgCnt: int, deficit: nat)
    requires PaceOk(Measure(log), sending, ifgCnt, deficit, true)
    requires forall i :: 0 <= i < |log| ==> log[i].waiting
    ensures var spans := Span(Wire(log)).spans;
      Sum(spans) == 12 * |spans| - Owed(Measure(log).gaps) && Owed(Measure(log).gaps) <= 3
  {
    BusyTight(log);
    GapsBound(log, sending, ifgCnt, deficit, true);
    SumOfGaps(Measure(log).gaps, true);
  }
}
