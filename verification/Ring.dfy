/** A circular descriptor ring shared by the AXI Ethernet driver and the hardware. The driver queues buffers at `inp`,
    the hardware completes them and moves its own out register, and the driver retires them at `out`. */
module Ring {
  import opened Bits

  /** A place in the ring holds a buffer, or a null pointer. */
  datatype Slot = Null | Holds(buf: nat)

  /** What became of a queued buffer: handed on, dropped because of an error, or thrown away unused. */
  datatype Fate = Delivered | Dropped | Disposed

  const BAD_FRAME: nat := 1   // bits of a status word
  const BUS_ERROR: nat := 2

  /** What the hardware reports of a completed buffer: the word in its status register. */
  datatype Status = Status(word: nat)

  /** The ring position of the t-th buffer ever queued. */
  function Pos(t: nat, bits: nat): nat { t % Pow2(bits) }

  lemma {:induction false} PowerBound(bits: nat)
    ensures Pow2(bits) > bits && (bits > 0 ==> Pow2(bits) >= 2 && Pow2(bits) % 2 == 0)
    decreases bits
  {
    if bits > 0 { PowerBound(bits - 1); }
  }

  lemma NextMod(t: nat, n: nat)
    requires n > 0
    ensures (t % n + 1) % n == (t + 1) % n
  {
    var q, r := t / n, t % n;
    assert t == q * n + r;
    if r + 1 < n {
      DivUnique(t + 1, n, q, r + 1);
      DivUnique(r + 1, n, 0, r + 1);
    } else {
      assert (q + 1) * n == q * n + n;
      DivUnique(t + 1, n, q + 1, 0);
      DivUnique(n, n, 1, 0);
    }
  }

  /** `(i + 1) & ring_mask` is the position behind position i. */
  lemma NextPos(t: nat, bits: nat)
    ensures And(Pos(t, bits) + 1, Pow2(bits) - 1) == Pos(t + 1, bits)
  {
    hide And, Pow2;
    MaskIsMod(Pos(t, bits) + 1, bits);
    NextMod(t, Pow2(bits));
  }

  /** Fewer than a whole turn apart, positions differ. */
  lemma PosDistinct(t: nat, u: nat, bits: nat)
    requires t < u < t + Pow2(bits)
    ensures Pos(t, bits) != Pos(u, bits)
  {
    var n := Pow2(bits);
    DivMod(t, n);
    DivMod(u, n);
    if t % n == u % n {
      var q := u / n - t / n;
      assert q * n == u - t;
      if q >= 1 { MulMono(1, q, n); } else { MulMono(q, 0, n); }
    }
  }

  lemma {:induction false} PowerDivides(k: nat, bits: nat)
    requires bits <= k
    ensures Pow2(k) % Pow2(bits) == 0
    decreases k
  {
    if bits < k {
      PowerDivides(k - 1, bits);
      var n := Pow2(bits);
      DivMod(Pow2(k - 1), n);
      DivUnique(Pow2(k), n, 2 * (Pow2(k - 1) / n), 0);
    } else {
      DivUnique(Pow2(k), Pow2(k), 1, 0);
    }
  }

  /** The status registers st hold the reports of buffers n to m. */
  ghost predicate ReportsHold(st: seq<Status>, reports: map<nat, Status>, n: nat, m: nat, bits: nat)
    requires |st| == Pow2(bits)
  {
    forall t: nat :: n <= t < m ==> ReportAt(st, reports, t, bits)
  }

  ghost predicate ReportAt(st: seq<Status>, reports: map<nat, Status>, t: nat, bits: nat)
    requires |st| == Pow2(bits)
  {
    PosBound(t, bits);
    t in reports && st[Pos(t, bits)] == reports[t]
  }

  /** One more report. */
  lemma ReportsMore(st: seq<Status>, reports: map<nat, Status>, n: nat, m: nat, bits: nat, s: Status)
    requires |st| == Pow2(bits) && ReportsHold(st, reports, n, m, bits) && n <= m < n + Pow2(bits)
    ensures Pos(m, bits) < |st| && ReportsHold(st[Pos(m, bits) := s], reports[m := s], n, m + 1, bits)
  {
    hide Pow2, Pos;
    PosBound(m, bits);
    var st', reports' := st[Pos(m, bits) := s], reports[m := s];
    forall t: nat | n <= t < m ensures ReportAt(st', reports', t, bits) {
      assert ReportAt(st, reports, t, bits);
      PosBound(t, bits);
      PosDistinct(t, m, bits);
    }
  }

  lemma PosBound(t: nat, bits: nat)
    ensures Pos(t, bits) < Pow2(bits)
  {
  }

  /** `(a - b - 1) & ring_mask` in 32-bit unsigned arithmetic. */
  function Free(a: nat, b: nat, bits: nat): nat
    requires a < WORD32 && b < WORD32
  {
    And((a - b - 1 + WORD32) % WORD32, Pow2(bits) - 1)
  }

  /** The difference of two positions, in unsigned arithmetic modulo m * n, taken modulo n. */
  lemma FreeMod(a: nat, b: nat, q: int, used: nat, n: nat, m: nat)
    requires n > 0 && a < n && b < n && used < n && n <= m * n && b == a + used - q * n
    ensures ((a - b - 1 + m * n) % (m * n)) % n == n - 1 - used
  {
    var u := m * n;
    var r := n - 1 - used;
    if a > b {
      DivUnique(a - b - 1 + u, u, 1, a - b - 1);
      assert a - b - 1 == (q - 1) * n + r by { assert (q - 1) * n == q * n - n; }
      DivUnique(a - b - 1, n, q - 1, r);
    } else {
      DivUnique(a - b - 1 + u, u, 0, a - b - 1 + u);
      assert a - b - 1 + u == (m + q - 1) * n + r by { assert (m + q - 1) * n == m * n + q * n - n; }
      DivUnique(a - b - 1 + u, n, m + q - 1, r);
    }
  }

  /** tx_ring_free: with tInp - tOut buffers in the ring it is the number of places left before inp would run into
      out. */
  lemma FreePlaces(tOut: nat, tInp: nat, bits: nat)
    requires bits <= 32 && tOut <= tInp < tOut + Pow2(bits)
    ensures Pos(tOut, bits) < WORD32 && Pos(tInp, bits) < WORD32
    ensures Free(Pos(tOut, bits), Pos(tInp, bits), bits) == Pow2(bits) - 1 - (tInp - tOut)
  {
    hide And, Pow2;
    var n := Pow2(bits);
    Power32();
    PowerDivides(32, bits);
    var m := WORD32 / n;
    DivMod(WORD32, n);
    if m < 1 { MulMono(m, 0, n); } else { MulMono(1, m, n); }
    DivMod(tOut, n);
    DivMod(tInp, n);
    var a, b, q := tOut % n, tInp % n, tInp / n - tOut / n;
    assert q * n == tInp / n * n - tOut / n * n;
    FreeMod(a, b, q, tInp - tOut, n, m);
    MaskIsMod((a - b - 1 + WORD32) % WORD32, bits);
  }

  lemma Power32()
    ensures Pow2(32) == WORD32
  {
    assert Pow2(8) == 256;
    assert Pow2(16) == 0x1_0000;
    assert Pow2(24) == 0x100_0000;
  }

  /** How far position b lies behind position a, going around. */
  function Ahead(a: nat, b: nat, bits: nat): nat
    requires a < Pow2(bits) && b < Pow2(bits)
  {
    if b >= a then b - a else b - a + Pow2(bits)
  }

  /** Less than a turn apart, positions tell the distance. */
  lemma AheadIsDistance(t: nat, u: nat, bits: nat)
    requires t <= u < t + Pow2(bits)
    ensures Ahead(Pos(t, bits), Pos(u, bits), bits) == u - t
  {
    hide Pow2;
    var n := Pow2(bits);
    DivMod(t, n);
    DivMod(u, n);
    assert (u / n - t / n) * n == u / n * n - t / n * n;
    TurnsApart(t % n, u % n, u / n - t / n, u - t, n);
  }

  /** Two positions a and b, with d places less than a turn from one to the other. */
  lemma TurnsApart(a: nat, b: nat, q: int, d: nat, n: nat)
    requires a < n && b < n && d < n && b - a == d - q * n
    ensures d == if b >= a then b - a else b - a + n
  {
    if q < 0 { MulMono(q, -1, n); }
    if q > 1 { MulMono(2, q, n); }
  }

  class PacketRing {
    const bits: nat
    const slots: array<Slot>         // the driver's ring items
    const desc: array<nat>           // the packet registers: the buffer the hardware works on
    const status: array<Status>      // the packet registers: what the hardware reports of it
    var inp: nat
    var out: nat
    var hwOut: nat                   // the hardware's out register; its inp register is always inp
    ghost var queued: seq<nat>       // every buffer ever queued, in order
    ghost var completed: nat         // how many of them the hardware has completed
    ghost var reports: map<nat, Status> // what it reported of the t-th buffer
    ghost var retired: seq<(nat, Fate)> // those the driver has taken out again, in order

    /** The driver's side: what its indices and slots hold. */
    ghost predicate DriverValid()
      reads `inp, `out, `queued, `retired, slots, desc
    {
      && 1 <= bits <= 6 && slots.Length == Pow2(bits) && desc.Length == Pow2(bits)
      && |retired| <= |queued| < |retired| + Pow2(bits)
      && inp == Pos(|queued|, bits) && out == Pos(|retired|, bits)
      && (forall n {:trigger retired[n]} :: 0 <= n < |retired| ==> retired[n].0 == queued[n])
      && (forall t {:trigger queued[t]} :: |retired| <= t < |queued| ==>
            slots[Pos(t, bits)] == Holds(queued[t]) && desc[Pos(t, bits)] == queued[t])
      && (forall t {:trigger Pos(t, bits)} :: |queued| <= t < |retired| + Pow2(bits) ==> slots[Pos(t, bits)] == Null)
    }

    ghost predicate Valid()
      reads this, slots, desc, status
    {
      DriverValid() && |retired| <= completed <= |queued| && hwOut == Pos(completed, bits) && Reported()
    }

    /** The status registers of completed buffers hold what was reported of them. */
    ghost predicate Reported()
      reads `completed, `reports, `retired, status
    {
      status.Length == Pow2(bits) && ReportsHold(status[..], reports, |retired|, completed, bits)
    }

    /** How many more buffers the ring takes. */
    ghost function Places(): int
      reads this
    {
      Pow2(bits) - 1 - (|queued| - |retired|)
    }

    predicate Full()
      requires Pow2(bits) > 0
      reads this
    {
      And(inp + 1, Pow2(bits) - 1) == out
    }

    predicate Empty()
      reads this
    {
      inp == out
    }

    /** dev_init: the registers say where the hardware stands, with nothing queued. */
    constructor (ringBits: nat)
      requires 1 <= ringBits <= 6
      ensures Valid() && bits == ringBits && fresh(slots) && fresh(desc) && fresh(status)
      ensures queued == [] && completed == 0 && retired == []
    {
      bits := ringBits;
      slots := new Slot[Pow2(ringBits)](_ => Null);
      desc := new nat[Pow2(ringBits)](_ => 0);
      status := new Status[Pow2(ringBits)](_ => Status(0));
      inp, out, hwOut := 0, 0, 0;
      queued, completed, reports, retired := [], 0, map[], [];
      new;
      DivUnique(0, Pow2(bits), 0, 0);
    }

    /** What the indices say: the ring is full, empty, or has completed buffers to take out. */
    lemma Indices()
      requires Valid()
      ensures Full() <==> |queued| == |retired| + Pow2(bits) - 1
      ensures Empty() <==> |queued| == |retired|
      ensures out == hwOut <==> completed == |retired|
      ensures inp == hwOut <==> completed == |queued|
      ensures inp < Pow2(bits) && out < Pow2(bits) && hwOut < Pow2(bits)
      ensures Ahead(out, hwOut, bits) <= Ahead(out, inp, bits)
      ensures |queued| < |retired| + Pow2(bits) && out == Pos(|retired|, bits)
    {
      hide Pow2, ReportsHold, And;
      NextPos(|queued|, bits);
      AheadIsDistance(|retired|, |queued|, bits);
      AheadIsDistance(|retired|, completed, bits);
      AheadIsDistance(completed, |queued|, bits);
      if |queued| + 1 < |retired| + Pow2(bits) {
        PosDistinct(|retired|, |queued| + 1, bits);
      } else {
        Around(|retired|, bits);
      }
    }

    /** A slot holds a buffer exactly when its index lies in [out, inp), going around. */
    lemma Occupied(i: nat)
      requires DriverValid() && i < Pow2(bits)
      ensures out < Pow2(bits) && inp < Pow2(bits)
      ensures slots[i].Holds? <==> Ahead(out, i, bits) < Ahead(out, inp, bits)
    {
      hide Pow2;
      AheadIsDistance(|retired|, |queued|, bits);
      var t := |retired| + Ahead(out, i, bits);
      AtAhead(|retired|, i, bits);
      if t < |queued| { assert slots[Pos(t, bits)] == Holds(queued[t]); }
    }

    /** Queue a buffer: the part of axi_eth_xmit and axi_eth_add_rx_buffers that fills the slot at inp. */
    method Queue(buf: nat)
      requires Valid() && !Full()
      modifies this`inp, this`queued, slots, desc
      ensures Valid() && queued == old(queued) + [buf] && retired == old(retired) && completed == old(completed)
      ensures old(slots[inp]) == Null
    {
      hide Pow2, And;
      Indices();
      NextPos(|queued|, bits);
      ghost var n := |queued|;
      assert slots[Pos(n, bits)] == Null;
      forall t | |retired| <= t < |retired| + Pow2(bits) && t != n ensures Pos(t, bits) != Pos(n, bits) {
        if t < n { PosDistinct(t, n, bits); } else { PosDistinct(n, t, bits); }
      }
      slots[inp] := Holds(buf);
      desc[inp] := buf;
      queued := queued + [buf];
      inp := And(inp + 1, Pow2(bits) - 1);
    }

    /** One step of the hardware: it completes the next queued buffer, if there is one, and reports on it. */
    method HardwareStep(report: Status)
      requires Valid()
      modifies this`hwOut, this`completed, this`reports, status
      ensures Valid() && completed == if old(completed) < |queued| then old(completed) + 1 else old(completed)
      ensures reports == if old(completed) < |queued| then old(reports)[old(completed) := report] else old(reports)
    {
      hide Pow2, And, ReportsHold, DriverValid;
      Indices();
      NextPos(completed, bits);
      if hwOut != inp {
        ReportsMore(status[..], reports, |retired|, completed, bits, report);
        ghost var st := status[..];
        status[hwOut] := report;
        assert status[..] == st[hwOut := report];
        reports := reports[completed := report];
        hwOut := And(hwOut + 1, Pow2(bits) - 1);
        completed := completed + 1;
      }
    }

    /** Take out the buffer at out. */
    method Retire(fate: Fate)
      requires DriverValid() && |retired| < |queued|
      modifies this`out, this`retired, slots
      ensures DriverValid() && retired == old(retired) + [(queued[|old(retired)|], fate)]
    {
      hide Pow2, And;
      ghost var n := |retired|;
      NextPos(n, bits);
      Around(n, bits);
      forall t | n < t < n + Pow2(bits) ensures Pos(t, bits) != Pos(n, bits) { PosDistinct(n, t, bits); }
      assert slots[Pos(n, bits)] == Holds(queued[n]);
      slots[out] := Null;
      retired := retired + [(queued[n], fate)];
      out := And(out + 1, Pow2(bits) - 1);
    }

    /** Take out the buffer at out once the hardware has completed it. */
    method TakeOut(fate: Fate)
      requires Valid() && |retired| < completed
      modifies this`out, this`retired, slots
      ensures Valid() && retired == old(retired) + [(queued[|old(retired)|], fate)]
    {
      hide Pow2, And, DriverValid;
      Retire(fate);
      assert Reported();
    }

    /** What the status register at out says of the buffer there. */
    lemma Report()
      requires Valid() && |retired| < completed
      ensures out < status.Length && |retired| in reports && status[out] == reports[|retired|]
    {
      hide Pow2, And;
      Indices();
      assert ReportAt(status[..], reports, |retired|, bits);
    }

    /** Throw away every buffer in the ring, completed or not, while the hardware is stopped, and tell the hardware. */
    method DisposeAll()
      requires Valid()
      modifies this`out, this`retired, this`hwOut, this`completed, slots
      ensures Valid() && |retired| == |queued| == completed
      ensures forall n :: |old(retired)| <= n < |retired| ==> retired[n].1 == Disposed
      ensures old(retired) <= retired
    {
      Indices();
      while inp != out
        invariant DriverValid() && status.Length == Pow2(bits) && old(retired) <= retired
        invariant inp == out <==> |queued| == |retired|
        invariant forall n :: |old(retired)| <= n < |retired| ==> retired[n].1 == Disposed
        decreases |queued| - |retired|
      {
        Retire(Disposed);
        AheadIsDistance(|retired|, |queued|, bits);
      }
      hwOut := out;
      completed := |retired|;
    }

    /** Write the driver's out index to the hardware's register, where it already stands. */
    method WriteOut()
      requires Valid() && |retired| == completed
      modifies this`hwOut
      ensures Valid()
    {
      hwOut := out;
    }

    /** The buffers in the ring, read from the slots from out to inp. */
    ghost function InRing(): seq<Slot>
      requires DriverValid()
      reads this, slots, desc
    {
      seq(|queued| - |retired|, d requires 0 <= d < |queued| - |retired| && DriverValid() reads this, slots, desc =>
        slots[(out + d) % Pow2(bits)])
    }

    /** Ownership is conserved: a buffer ever queued was either retired or is in the ring, each exactly once and in the
        order of queueing. */
    lemma Conserved(n: nat)
      requires DriverValid() && n < |queued|
      ensures n < |retired| ==> retired[n].0 == queued[n]
      ensures n >= |retired| ==> InRing()[n - |retired|] == Holds(queued[n])
      ensures |retired| + |InRing()| == |queued|
    {
      hide Pow2;
      if n >= |retired| {
        PlusMod(|retired|, n - |retired|, Pow2(bits));
        assert slots[Pos(n, bits)] == Holds(queued[n]);
      }
    }
  }

  lemma PlusMod(t: nat, d: nat, n: nat)
    requires n > 0
    ensures (t % n + d) % n == (t + d) % n
  {
    DivMod(t, n);
    DivMod(t % n + d, n);
    var q, q' := t / n, (t % n + d) / n;
    assert (q + q') * n == q * n + q' * n;
    DivUnique(t + d, n, q + q', (t % n + d) % n);
  }

  /** A whole turn leads back to the same position. */
  lemma Around(t: nat, bits: nat)
    ensures Pos(t + Pow2(bits), bits) == Pos(t, bits)
  {
    hide Pow2;
    var n := Pow2(bits);
    DivMod(t, n);
    assert (t / n + 1) * n == t / n * n + n;
    DivUnique(t + n, n, t / n + 1, t % n);
  }

  /** Going ahead from position t to position i ends there. */
  lemma AtAhead(t: nat, i: nat, bits: nat)
    requires i < Pow2(bits)
    ensures Pos(t, bits) < Pow2(bits) && Ahead(Pos(t, bits), i, bits) < Pow2(bits)
    ensures Pos(t + Ahead(Pos(t, bits), i, bits), bits) == i
  {
    hide Pow2;
    var n := Pow2(bits);
    DivMod(t, n);
    var q := t / n;
    if i >= t % n {
      DivUnique(t + (i - t % n), n, q, i);
    } else {
      assert (q + 1) * n == q * n + n;
      DivUnique(t + (i - t % n) + n, n, q + 1, i);
    }
  }
}
