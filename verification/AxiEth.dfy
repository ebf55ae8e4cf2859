/** The AXI Ethernet driver: transmit, interrupt handler, refilling and disposal over a receive and a transmit ring,
    with the hardware completing buffers in between. Each method runs under the driver's lock; the hardware is not
    under the lock and may take steps wherever the driver looks at its registers. */
module AxiEth {
  import opened Bits
  import opened Ring

  /** What happens around one turn of the interrupt handler: how many receive buffers can be allocated before an
      allocation fails, and what the hardware then completes and reports on the two rings. */
  datatype Turn = Turn(supply: nat, rx: seq<Status>, tx: seq<Status>)

  /** From position n on the retired receive buffers fared as the hardware reported: those whose status word has bit 0
      (bad frame) or bit 1 (bus error) were dropped, the others handed on. */
  ghost predicate Fared(retired: seq<(nat, Fate)>, reports: map<nat, Status>, n: nat) {
    forall i {:trigger retired[i]} :: n <= i < |retired| ==>
      i in reports &&
      retired[i].1 == if reports[i].word % 2 == 1 || reports[i].word / 2 % 2 == 1 then Dropped else Delivered
  }

  /** Reports of buffers below n are as they were. */
  ghost predicate SameReports(reports: map<nat, Status>, reports': map<nat, Status>, n: nat) {
    forall t: nat {:trigger t in reports} :: t < n && t in reports ==> t in reports' && reports'[t] == reports[t]
  }

  lemma FaredOn(retired: seq<(nat, Fate)>, reports: map<nat, Status>, n: nat,
                retired': seq<(nat, Fate)>, reports': map<nat, Status>)
    requires Fared(retired, reports, n) && retired <= retired' && SameReports(reports, reports', |retired|)
    requires Fared(retired', reports', |retired|)
    ensures Fared(retired', reports', n)
  {
    forall i | n <= i < |retired'|
      ensures i in reports' &&
        retired'[i].1 == if reports'[i].word % 2 == 1 || reports'[i].word / 2 % 2 == 1 then Dropped else Delivered
    {
      if i < |retired| {
        assert retired[i] == retired'[i] && i in reports && i in reports' && reports'[i] == reports[i];
      } else {
        assert retired'[i] == retired'[i] && i in reports';
      }
    }
  }

  lemma FaredIs(retired: seq<(nat, Fate)>, reports: map<nat, Status>, n: nat)
    ensures Fared(retired, reports, n) <==> forall i :: n <= i < |retired| ==>
      i in reports &&
      retired[i].1 == if reports[i].word % 2 == 1 || reports[i].word / 2 % 2 == 1 then Dropped else Delivered
  {
  }

  lemma NoneFared(retired: seq<(nat, Fate)>, reports: map<nat, Status>)
    ensures Fared(retired, reports, |retired|)
  {
  }

  lemma SameOn(r: map<nat, Status>, r1: map<nat, Status>, n: nat, r2: map<nat, Status>, m: nat)
    requires SameReports(r, r1, n) && SameReports(r1, r2, m) && n <= m
    ensures SameReports(r, r2, n)
  {
    forall t: nat | t < n && t in r ensures t in r2 && r2[t] == r[t] {
      assert t in r1;
    }
  }

  lemma AllSame(r: map<nat, Status>, n: nat)
    ensures SameReports(r, r, n)
  {
  }

  /** The two bits of a status word that the driver looks at. */
  lemma StatusBits(word: nat)
    ensures And(word, BAD_FRAME) != 0 <==> word % 2 == 1
    ensures And(word, BUS_ERROR) != 0 <==> word / 2 % 2 == 1
  {
    AndBit(word, 0);
    AndBit(word, 1);
    assert Pow2(1) == 2 * Pow2(0);
  }

  class Nic {
    const rx: PacketRing
    const tx: PacketRing
    var stopped: bool      // the network stack was told to stop transmitting
    var mtu: nat
    var made: nat          // receive buffers allocated so far; the next one gets this number

    ghost predicate Valid()
      reads this, rx, rx.slots, rx.desc, rx.status, tx, tx.slots, tx.desc, tx.status
    {
      && rx != tx && rx.slots != tx.slots && rx.desc != tx.desc && rx.status != tx.status
      && rx.Valid() && tx.Valid()
    }

    /** While there is no room in the transmit ring the stack has been stopped. */
    ghost predicate StopsInTime()
      reads this, tx
    {
      tx.Places() == 0 && tx.bits > 1 ==> stopped
    }

    constructor (rxBits: nat, txBits: nat)
      requires 1 <= rxBits <= 6 && 1 <= txBits <= 6
      ensures Valid() && StopsInTime() && !stopped && fresh(rx) && fresh(tx)
    {
      rx := new PacketRing(rxBits);
      tx := new PacketRing(txBits);
      stopped, made, mtu := false, 0, 1500;
      new;
      PowerBound(tx.bits);
    }

    /** tx_ring_free */
    function TxFree(): nat
      requires tx.inp < WORD32 && tx.out < WORD32
      reads tx
    {
      Free(tx.out, tx.inp, tx.bits)
    }

    lemma TxFreePlaces()
      requires tx.Valid()
      ensures tx.inp < WORD32 && tx.out < WORD32
      ensures TxFree() == tx.Places()
    {
      FreePlaces(|tx.retired|, |tx.queued|, tx.bits);
    }

    /** The transmit ring is full: wait until the hardware has completed a buffer and take it out. The wait ends because
        the hardware is taken to go on. */
    method MakeRoom()
      requires tx.Valid() && |tx.queued| > |tx.retired|
      modifies tx, tx.slots, tx.status
      ensures tx.Valid() && tx.queued == old(tx.queued)
      ensures tx.retired == old(tx.retired) + [(tx.queued[|old(tx.retired)|], Delivered)]
    {
      hide And, Pow2, PacketRing.DriverValid, PacketRing.Reported;
      tx.Indices();
      while tx.out == tx.hwOut
        invariant tx.Valid() && tx.queued == old(tx.queued) && tx.retired == old(tx.retired)
        invariant tx.out == tx.hwOut <==> tx.completed == |tx.retired|
        decreases |tx.queued| - tx.completed
      {
        var report: Status := *;
        tx.HardwareStep(report);
        tx.Indices();
      }
      tx.TakeOut(Delivered);
    }

    /** axi_eth_xmit. A packet that cannot be padded or mapped is freed. While the stack obeys the stop rule, the wait
        for the hardware does not happen (unless the ring has two places only). */
    method Xmit(buf: nat, mapped: bool)
      requires Valid() && StopsInTime()
      modifies this`stopped, tx, tx.slots, tx.desc, tx.status
      ensures Valid() && StopsInTime()
      ensures stopped <==> (old(stopped) || (mapped && tx.Places() == 0)) && tx.Places() < (Pow2(tx.bits) - 1) / 2
      // a packet that fills the ring stops the stack exactly when the ring has more than two places
      ensures mapped && tx.Places() == 0 ==> (stopped <==> tx.bits > 1)
      ensures tx.queued == if mapped then old(tx.queued) + [buf] else old(tx.queued)
      ensures var full := mapped && |old(tx.queued)| == |old(tx.retired)| + Pow2(tx.bits) - 1;
        && (!full ==> tx.retired == old(tx.retired))
        && (full ==> tx.retired == old(tx.retired) + [(tx.queued[|old(tx.retired)|], Delivered)])
      ensures mapped && !old(stopped) && tx.bits > 1 ==> tx.retired == old(tx.retired)
    {
      hide And, Pow2, Free;
      PowerBound(tx.bits);
      tx.Indices();
      if mapped {
        if tx.Full() {
          MakeRoom();
          tx.Indices();
        }
        tx.Queue(buf);
        TxFreePlaces();
        if TxFree() == 0 { stopped := true; }
      }
      WakeQueue();
      StopHolds(tx.bits);
    }

    /** The end of axi_eth_xmit and axi_eth_isr: wake the stack again when half the ring is free. */
    method WakeQueue()
      requires tx.Valid()
      modifies this`stopped
      ensures stopped <==> old(stopped) && tx.Places() < (Pow2(tx.bits) - 1) / 2
      ensures old(StopsInTime()) ==> StopsInTime()
    {
      hide And, Pow2, Free;
      PowerBound(tx.bits);
      if tx.bits > 1 { FourPlaces(tx.bits); }
      TxFreePlaces();
      if stopped && TxFree() >= (Pow2(tx.bits) - 1) / 2 { stopped := false; }
    }

    /** axi_eth_add_rx_buffers: fill the receive ring up with newly allocated buffers, until it is full or an
        allocation or its mapping fails, as the one after `supply` good ones does. */
    method AddRxBuffers(supply: nat) returns (failed: bool)
      requires rx.Valid()
      modifies this`made, rx`inp, rx`queued, rx.slots, rx.desc
      ensures rx.Valid() && failed == (supply < old(rx.Places()))
      ensures made >= old(made) && made == old(made) + if failed then supply else old(rx.Places())
      ensures rx.queued == old(rx.queued) + Numbers(old(made), made)
    {
      hide And, Pow2, PacketRing.DriverValid, PacketRing.Reported;
      rx.Indices();
      var left := supply;
      failed := false;
      ghost var room := rx.Places();
      assert rx.queued == rx.queued + Numbers(made, made);
      while !rx.Full()
        invariant rx.Valid() && old(made) <= made && made - old(made) <= room && left == supply - (made - old(made))
        invariant rx.queued == old(rx.queued) + Numbers(old(made), made)
        invariant rx.Places() == room - (made - old(made)) && (rx.Full() <==> rx.Places() == 0) && !failed
        decreases rx.Places()
      {
        if left == 0 { failed := true; return; }
        left := left - 1;
        rx.Queue(made);
        assert Numbers(old(made), made) + [made] == Numbers(old(made), made + 1);
        made := made + 1;
        rx.Indices();
      }
    }

    /** axi_eth_rx_done: take out the next completed receive buffer. The packet is dropped if bit 0 (bad frame) or bit 1
        (bus error) of the status word of this very buffer is set, and handed on otherwise. */
    method RxDone()
      requires rx.Valid() && |rx.retired| < rx.completed
      modifies rx`out, rx`retired, rx.slots
      ensures rx.Valid()
      ensures |old(rx.retired)| in rx.reports
      ensures var n := |old(rx.retired)|;
        var bad := rx.reports[n].word % 2 == 1 || rx.reports[n].word / 2 % 2 == 1;
        rx.retired == old(rx.retired) + [(rx.queued[n], if bad then Dropped else Delivered)]
    {
      hide And, Pow2, PacketRing.DriverValid, PacketRing.Reported;
      rx.Report();
      var report := rx.status[rx.out];
      StatusBits(report.word);
      if And(report.word, BAD_FRAME) != 0 {
        rx.TakeOut(Dropped);
      } else if And(report.word, BUS_ERROR) != 0 {
        rx.TakeOut(Dropped);
      } else {
        rx.TakeOut(Delivered);
      }
    }

    /** One turn of axi_eth_isr: take out one completed buffer of each ring, if there is one. */
    method RetireCompleted() returns (cont: bool)
      requires Valid()
      modifies rx`out, rx`retired, rx.slots, tx`out, tx`retired, tx.slots
      ensures Valid()
      ensures old(rx.retired) <= rx.retired && old(tx.retired) <= tx.retired
      ensures cont <==> |rx.retired| > |old(rx.retired)| || |tx.retired| > |old(tx.retired)|
      ensures !cont ==> |rx.retired| == rx.completed && |tx.retired| == tx.completed
      ensures Fared(rx.retired, rx.reports, |old(rx.retired)|)
      ensures forall n :: |old(tx.retired)| <= n < |tx.retired| ==> tx.retired[n].1 == Delivered
      ensures |tx.queued| - |tx.retired| == Pow2(tx.bits) - 1 ==> tx.retired == old(tx.retired)
    {
      hide And, Pow2, PacketRing.DriverValid, PacketRing.Reported;
      cont := false;
      rx.Indices();
      tx.Indices();
      if rx.out != rx.hwOut { RxDone(); cont := true; }
      if tx.out != tx.hwOut { tx.TakeOut(Delivered); cont := true; }
    }

    /** One turn of axi_eth_isr, with what the hardware does before the driver looks at its registers. */
    method IsrTurn(supply: nat, hwRx: seq<Status>, hwTx: seq<Status>) returns (cont: bool)
      requires Valid()
      modifies this`made, rx, rx.slots, rx.desc, rx.status, tx, tx.slots, tx.desc, tx.status
      ensures Valid() && tx.queued == old(tx.queued) && (old(StopsInTime()) ==> StopsInTime())
      ensures old(made) <= made && rx.queued == old(rx.queued) + Numbers(old(made), made)
      ensures old(rx.retired) <= rx.retired && old(tx.retired) <= tx.retired
      ensures Fared(rx.retired, rx.reports, |old(rx.retired)|)
      ensures SameReports(old(rx.reports), rx.reports, |old(rx.retired)|)
      ensures forall n :: |old(tx.retired)| <= n < |tx.retired| ==> tx.retired[n].1 == Delivered
      ensures !cont ==> |rx.retired| == rx.completed && |tx.retired| == tx.completed
      ensures !cont && supply >= Pow2(rx.bits) ==> rx.Places() == 0
      ensures cont && hwRx == hwTx == [] ==>
        rx.completed - |rx.retired| + tx.completed - |tx.retired|
        < old(rx.completed - |rx.retired| + tx.completed - |tx.retired|)
    {
      hide And, Pow2, Free, PacketRing.DriverValid, PacketRing.Reported, Fared;
      var failed := AddRxBuffers(supply);
      HardwareRun(rx, hwRx);
      HardwareRun(tx, hwTx);
      cont := RetireCompleted();
    }

    /** axi_eth_isr. Before each look at the registers the next turn takes place; the hardware is silent after the
        last one, while `spare` buffers can be allocated in each call. The handler leaves no completed buffer behind,
        hands on or drops what was received as the hardware reported, and leaves the receive ring full if memory
        lasts. */
    method Isr(turns: seq<Turn>, spare: nat)
      requires Valid() && StopsInTime()
      modifies this`made, this`stopped, rx, rx.slots, rx.desc, rx.status, tx, tx.slots, tx.desc, tx.status
      ensures Valid() && StopsInTime() && tx.queued == old(tx.queued)
      ensures old(made) <= made && rx.queued == old(rx.queued) + Numbers(old(made), made)
      ensures old(rx.retired) <= rx.retired && old(tx.retired) <= tx.retired
      ensures |rx.retired| == rx.completed && |tx.retired| == tx.completed
      ensures forall i :: |old(rx.retired)| <= i < |rx.retired| ==>
        i in rx.reports && rx.retired[i].1 ==
          if rx.reports[i].word % 2 == 1 || rx.reports[i].word / 2 % 2 == 1 then Dropped else Delivered
      ensures SameReports(old(rx.reports), rx.reports, |old(rx.retired)|)
      ensures forall n :: |old(tx.retired)| <= n < |tx.retired| ==> tx.retired[n].1 == Delivered
      ensures spare >= Pow2(rx.bits) && (forall t :: t in turns ==> t.supply >= Pow2(rx.bits)) ==> rx.Places() == 0
      ensures stopped <==> old(stopped) && tx.Places() < (Pow2(tx.bits) - 1) / 2
    {
      hide And, Pow2, Free, PacketRing.DriverValid, PacketRing.Reported, Fared, SameReports;
      var n := 0;
      assert rx.queued == rx.queued + Numbers(made, made);
      NoneFared(rx.retired, rx.reports);
      assert SameReports(rx.reports, rx.reports, |rx.retired|) by { AllSame(rx.reports, |rx.retired|); }
      while true
        invariant Valid() && StopsInTime() && stopped == old(stopped) && tx.queued == old(tx.queued)
        invariant old(made) <= made && rx.queued == old(rx.queued) + Numbers(old(made), made)
        invariant old(rx.retired) <= rx.retired && old(tx.retired) <= tx.retired
        invariant Fared(rx.retired, rx.reports, |old(rx.retired)|)
        invariant SameReports(old(rx.reports), rx.reports, |old(rx.retired)|)
        invariant forall n :: |old(tx.retired)| <= n < |tx.retired| ==> tx.retired[n].1 == Delivered
        invariant n <= |turns|
        decreases |turns| - n, rx.completed - |rx.retired| + tx.completed - |tx.retired|
      {
        ghost var retired, reports, first := rx.retired, rx.reports, made;
        var turn := if n < |turns| then turns[n] else Turn(spare, [], []);
        n := if n < |turns| then n + 1 else n;
        var cont := IsrTurn(turn.supply, turn.rx, turn.tx);
        MoreNumbers(old(made), first, made);
        FaredOn(retired, reports, |old(rx.retired)|, rx.retired, rx.reports);
        SameOn(old(rx.reports), reports, |old(rx.retired)|, rx.reports, |retired|);
        if !cont { break; }
      }
      FaredIs(rx.retired, rx.reports, |old(rx.retired)|);
      WakeQueue();
    }

    /** axi_eth_change_mtu, with reception stopped: when the mtu grows every receive buffer is replaced. */
    method ChangeMtu(newMtu: nat, supply: nat) returns (failed: bool)
      requires rx.Valid()
      modifies this`made, this`mtu, rx, rx.slots, rx.desc
      ensures rx.Valid() && old(rx.retired) <= rx.retired && mtu == newMtu && rx.reports == old(rx.reports)
      ensures old(made) <= made && rx.queued == old(rx.queued) + Numbers(old(made), made)
      ensures old(mtu) < newMtu ==> |rx.retired| == |old(rx.queued)| == rx.completed
      ensures old(mtu) < newMtu && supply >= Pow2(rx.bits) ==> rx.Places() == 0
      ensures old(mtu) >= newMtu ==> rx.retired == old(rx.retired) && rx.queued == old(rx.queued)
      ensures forall n :: |old(rx.retired)| <= n < |rx.retired| ==> rx.retired[n].1 == Disposed
    {
      failed := false;
      if mtu < newMtu {
        rx.DisposeAll();
        failed := AddRxBuffers(supply);
      }
      mtu := newMtu;
    }

    /** axi_eth_dev_close: afterwards both rings are empty and no buffer is left with the driver or the hardware. */
    method DevClose()
      requires Valid()
      modifies rx, rx.slots, tx, tx.slots, tx.status
      ensures Valid() && rx.queued == old(rx.queued) && tx.queued == old(tx.queued)
      ensures |rx.retired| == |rx.queued| == rx.completed && |tx.retired| == |tx.queued| == tx.completed
      ensures old(rx.retired) <= rx.retired && old(tx.retired) <= tx.retired
      ensures forall n :: |old(rx.retired)| <= n < |rx.retired| ==> rx.retired[n].1 == Disposed
      ensures forall n :: |old(tx.retired)| <= n < |tx.retired| ==> tx.retired[n].1 == Delivered
    {
      hide And, Pow2, PacketRing.DriverValid, PacketRing.Reported;
      rx.DisposeAll();
      DrainTx();
    }

    /** Wait for every packet in the transmit ring and take it out. */
    method DrainTx()
      requires tx.Valid()
      modifies tx, tx.slots, tx.status
      ensures tx.Valid() && tx.queued == old(tx.queued) && |tx.retired| == |tx.queued| == tx.completed
      ensures old(tx.retired) <= tx.retired
      ensures forall n :: |old(tx.retired)| <= n < |tx.retired| ==> tx.retired[n].1 == Delivered
    {
      hide And, Pow2, PacketRing.DriverValid, PacketRing.Reported;
      tx.Indices();
      while tx.inp != tx.out
        invariant tx.Valid() && tx.queued == old(tx.queued) && old(tx.retired) <= tx.retired
        invariant tx.inp == tx.out <==> |tx.queued| == |tx.retired|
        invariant forall n :: |old(tx.retired)| <= n < |tx.retired| ==> tx.retired[n].1 == Delivered
        decreases |tx.queued| - |tx.retired|
      {
        MakeRoom();
        tx.Indices();
      }
      tx.WriteOut();
    }
  }

  /** What can happen while the device is open. */
  datatype Event =
    | Transmit(buf: nat, mapped: bool)
    | Interrupt(turns: seq<Turn>, spare: nat)
    | Hardware(rx: seq<Status>, tx: seq<Status>)
    | NewMtu(mtu: nat, supply: nat)

  /** The buffers a run queues for transmission. */
  function Sent(run: seq<Event>): seq<nat> {
    if run == [] then [] else Sent(run[..|run| - 1]) + SentBy(run[|run| - 1])
  }

  function SentBy(e: Event): seq<nat> { if e.Transmit? && e.mapped then [e.buf] else [] }

  /** What becomes of the i-th receive buffer when event e retires it: the interrupt handler hands it on or drops it as
      the hardware reported, a change of the mtu throws it away, nothing else retires any. */
  ghost predicate FateBy(e: Event, i: nat, fate: Fate, reports: map<nat, Status>) {
    match e
    case Interrupt(_, _) =>
      i in reports && fate == if reports[i].word % 2 == 1 || reports[i].word / 2 % 2 == 1 then Dropped else Delivered
    case NewMtu(_, _) => fate == Disposed
    case Transmit(_, _) => false
    case Hardware(_, _) => false
  }

  /** Event e retired receive buffers a up to b. */
  ghost predicate EventFate(e: Event, retired: seq<(nat, Fate)>, reports: map<nat, Status>, a: nat, b: nat) {
    a <= b <= |retired| && forall i {:trigger retired[i]} :: a <= i < b ==> FateBy(e, i, retired[i].1, reports)
  }

  /** The receive buffers retired over a run, event by event: event k retired marks[k] up to marks[k + 1]. */
  ghost predicate Fates(run: seq<Event>, marks: seq<nat>, retired: seq<(nat, Fate)>, reports: map<nat, Status>) {
    && |marks| == |run| + 1 && marks[|run|] == |retired|
    && forall k {:trigger run[k]} :: 0 <= k < |run| ==> EventFate(run[k], retired, reports, marks[k], marks[k + 1])
  }

  lemma FateStays(e: Event, retired: seq<(nat, Fate)>, reports: map<nat, Status>, a: nat, b: nat,
                  retired': seq<(nat, Fate)>, reports': map<nat, Status>)
    requires EventFate(e, retired, reports, a, b) && retired <= retired' && SameReports(reports, reports', |retired|)
    ensures EventFate(e, retired', reports', a, b)
  {
    forall i | a <= i < b ensures FateBy(e, i, retired'[i].1, reports') {
      assert retired'[i] == retired[i] && FateBy(e, i, retired[i].1, reports);
      if e.Interrupt? { assert i in reports; }
    }
  }

  lemma FatesMore(run: seq<Event>, marks: seq<nat>, retired: seq<(nat, Fate)>, reports: map<nat, Status>,
                  e: Event, retired': seq<(nat, Fate)>, reports': map<nat, Status>)
    requires Fates(run, marks, retired, reports) && retired <= retired' && SameReports(reports, reports', |retired|)
    requires EventFate(e, retired', reports', |retired|, |retired'|)
    ensures Fates(run + [e], marks + [|retired'|], retired', reports')
  {
    hide EventFate, SameReports;
    var all := run + [e];
    var marks' := marks + [|retired'|];
    forall k | 0 <= k < |all| ensures EventFate(all[k], retired', reports', marks'[k], marks'[k + 1]) {
      if k < |run| {
        assert all[k] == run[k];
        FateStays(run[k], retired, reports, marks[k], marks[k + 1], retired', reports');
      }
    }
  }

  ghost predicate AllDelivered(retired: seq<(nat, Fate)>, n: nat) {
    forall i {:trigger retired[i]} :: n <= i < |retired| ==> retired[i].1 == Delivered
  }

  /** One event. */
  method Happen(nic: Nic, e: Event)
    requires nic.Valid() && nic.StopsInTime()
    modifies nic, nic.rx, nic.rx.slots, nic.rx.desc, nic.rx.status, nic.tx, nic.tx.slots, nic.tx.desc, nic.tx.status
    ensures nic.Valid() && nic.StopsInTime() && nic.tx.queued == old(nic.tx.queued) + SentBy(e)
    ensures old(nic.made) <= nic.made && nic.rx.queued == old(nic.rx.queued) + Numbers(old(nic.made), nic.made)
    ensures old(nic.rx.retired) <= nic.rx.retired && old(nic.tx.retired) <= nic.tx.retired
    ensures SameReports(old(nic.rx.reports), nic.rx.reports, |old(nic.rx.retired)|)
    ensures EventFate(e, nic.rx.retired, nic.rx.reports, |old(nic.rx.retired)|, |nic.rx.retired|)
    ensures AllDelivered(nic.tx.retired, |old(nic.tx.retired)|)
  {
    hide Pow2, And, PacketRing.DriverValid, PacketRing.Reported;
    AllSame(nic.rx.reports, |nic.rx.retired|);
    assert nic.rx.queued == nic.rx.queued + Numbers(nic.made, nic.made);
    match e {
      case Transmit(buf, mapped) => nic.Xmit(buf, mapped);
      case Interrupt(turns, spare) => nic.Isr(turns, spare);
      case Hardware(rx, tx) =>
        HardwareRun(nic.rx, rx);
        HardwareRun(nic.tx, tx);
      case NewMtu(mtu, supply) => var failed := nic.ChangeMtu(mtu, supply);
    }
  }

  lemma Nothing(rx: seq<nat>, tx: seq<nat>, made: nat, retired: seq<(nat, Fate)>, reports: map<nat, Status>,
                handed: seq<(nat, Fate)>)
    ensures rx == rx + Numbers(made, made) && tx == tx + Sent([])
    ensures Fates([], [|retired|], retired, reports) && AllDelivered(handed, |handed|)
  {
  }

  lemma SentMore(tx: seq<nat>, run: seq<Event>, e: Event)
    ensures tx + Sent(run) + SentBy(e) == tx + Sent(run + [e])
  {
    assert (run + [e])[..|run|] == run;
  }

  lemma NumbersMore(rx: seq<nat>, a: nat, b: nat, c: nat)
    requires a <= b <= c
    ensures rx + Numbers(a, b) + Numbers(b, c) == rx + Numbers(a, c)
  {
    MoreNumbers(a, b, c);
  }

  lemma DeliveredOn(handed: seq<(nat, Fate)>, handed': seq<(nat, Fate)>, n: nat)
    requires handed <= handed' && AllDelivered(handed, n) && AllDelivered(handed', |handed|)
    ensures AllDelivered(handed', n)
  {
    forall i | n <= i < |handed'| ensures handed'[i].1 == Delivered {
      if i < |handed| { assert handed[i] == handed'[i]; }
    }
  }

  /** Any interleaving of transmit, interrupt handler, mtu changes and hardware steps keeps both rings valid and the
      stop rule. The transmit ring gets exactly the mapped packets, in order, and drops none; the receive ring gets the
      buffers allocated, in order, and marks tells which event retired which of them and how it fared. */
  method Session(nic: Nic, run: seq<Event>) returns (ghost marks: seq<nat>)
    requires nic.Valid() && nic.StopsInTime()
    modifies nic, nic.rx, nic.rx.slots, nic.rx.desc, nic.rx.status, nic.tx, nic.tx.slots, nic.tx.desc, nic.tx.status
    ensures nic.Valid() && nic.StopsInTime() && nic.tx.queued == old(nic.tx.queued) + Sent(run)
    ensures old(nic.made) <= nic.made && nic.rx.queued == old(nic.rx.queued) + Numbers(old(nic.made), nic.made)
    ensures old(nic.rx.retired) <= nic.rx.retired && old(nic.tx.retired) <= nic.tx.retired
    ensures forall i :: |old(nic.tx.retired)| <= i < |nic.tx.retired| ==> nic.tx.retired[i].1 == Delivered
    ensures |marks| == |run| + 1 && marks[0] == |old(nic.rx.retired)| && marks[|run|] == |nic.rx.retired|
    ensures forall k :: 0 <= k <= |run| ==> marks[k] <= |nic.rx.retired|
    ensures forall k, i :: 0 <= k < |run| && marks[k] <= i < marks[k + 1] && run[k].Interrupt? ==>
      i in nic.rx.reports && nic.rx.retired[i].1 ==
        if nic.rx.reports[i].word % 2 == 1 || nic.rx.reports[i].word / 2 % 2 == 1 then Dropped else Delivered
    ensures forall k, i :: 0 <= k < |run| && marks[k] <= i < marks[k + 1] && run[k].NewMtu? ==>
      nic.rx.retired[i].1 == Disposed
    ensures forall k :: 0 <= k < |run| && (run[k].Transmit? || run[k].Hardware?) ==> marks[k + 1] == marks[k]
  {
    hide Pow2, And, PacketRing.Valid, Nic.Valid, Nic.StopsInTime, SameReports, EventFate, SentBy, Fates, AllDelivered;
    hide Sent, Numbers;
    marks := [|nic.rx.retired|];
    ghost var rxQueued, txQueued := nic.rx.queued, nic.tx.queued;
    Nothing(nic.rx.queued, nic.tx.queued, nic.made, nic.rx.retired, nic.rx.reports, nic.tx.retired);
    assert run[..0] == [];
    for i := 0 to |run|
      invariant nic.Valid() && nic.StopsInTime() && nic.tx.queued == old(nic.tx.queued) + Sent(run[..i])
      invariant old(nic.made) <= nic.made && nic.rx.queued == old(nic.rx.queued) + Numbers(old(nic.made), nic.made)
      invariant old(nic.rx.retired) <= nic.rx.retired && old(nic.tx.retired) <= nic.tx.retired
      invariant AllDelivered(nic.tx.retired, |old(nic.tx.retired)|)
      invariant |marks| == i + 1 && marks[0] == |old(nic.rx.retired)|
      invariant Fates(run[..i], marks, nic.rx.retired, nic.rx.reports)
    {
      ghost var retired, reports, first, handed := nic.rx.retired, nic.rx.reports, nic.made, nic.tx.retired;
      Happen(nic, run[i]);
      assert run[..i + 1] == run[..i] + [run[i]];
      SentMore(txQueued, run[..i], run[i]);
      NumbersMore(rxQueued, old(nic.made), first, nic.made);
      DeliveredOn(handed, nic.tx.retired, |old(nic.tx.retired)|);
      FatesMore(run[..i], marks, retired, reports, run[i], nic.rx.retired, nic.rx.reports);
      marks := marks + [|nic.rx.retired|];
    }
    assert run[..|run|] == run;
    FatesAre(run, marks, nic.rx.retired, nic.rx.reports);
    DeliveredAre(nic.tx.retired, |old(nic.tx.retired)|);
  }

  lemma DeliveredAre(retired: seq<(nat, Fate)>, n: nat)
    requires AllDelivered(retired, n)
    ensures forall i :: n <= i < |retired| ==> retired[i].1 == Delivered
  {
  }

  lemma MarksRise(run: seq<Event>, marks: seq<nat>, retired: seq<(nat, Fate)>, reports: map<nat, Status>, k: nat)
    requires Fates(run, marks, retired, reports) && k < |run|
    ensures marks[k] <= marks[k + 1] <= |retired|
    ensures run[k].Transmit? || run[k].Hardware? ==> marks[k + 1] == marks[k]
  {
    assert EventFate(run[k], retired, reports, marks[k], marks[k + 1]);
    if marks[k] < marks[k + 1] { assert FateBy(run[k], marks[k], retired[marks[k]].1, reports); }
  }

  lemma FateOf(run: seq<Event>, marks: seq<nat>, retired: seq<(nat, Fate)>, reports: map<nat, Status>, k: nat, i: nat)
    requires Fates(run, marks, retired, reports) && k < |run| && marks[k] <= i < marks[k + 1]
    ensures i < |retired| && (run[k].NewMtu? ==> retired[i].1 == Disposed)
    ensures run[k].Interrupt? ==>
      i in reports &&
      retired[i].1 == if reports[i].word % 2 == 1 || reports[i].word / 2 % 2 == 1 then Dropped else Delivered
  {
    assert EventFate(run[k], retired, reports, marks[k], marks[k + 1]);
    assert FateBy(run[k], i, retired[i].1, reports);
  }

  lemma FatesAre(run: seq<Event>, marks: seq<nat>, retired: seq<(nat, Fate)>, reports: map<nat, Status>)
    requires Fates(run, marks, retired, reports)
    ensures |marks| == |run| + 1 && marks[|run|] == |retired|
    ensures forall k :: 0 <= k <= |run| ==> marks[k] <= |retired|
    ensures forall k, i :: 0 <= k < |run| && marks[k] <= i < marks[k + 1] && run[k].Interrupt? ==>
      i in reports &&
      retired[i].1 == if reports[i].word % 2 == 1 || reports[i].word / 2 % 2 == 1 then Dropped else Delivered
    ensures forall k, i :: 0 <= k < |run| && marks[k] <= i < marks[k + 1] && run[k].NewMtu? ==> retired[i].1 == Disposed
    ensures forall k :: 0 <= k < |run| && (run[k].Transmit? || run[k].Hardware?) ==> marks[k + 1] == marks[k]
  {
    forall k | 0 <= k <= |run| ensures marks[k] <= |retired| {
      if k < |run| { MarksRise(run, marks, retired, reports, k); }
    }
    forall k | 0 <= k < |run| && (run[k].Transmit? || run[k].Hardware?) ensures marks[k + 1] == marks[k] {
      MarksRise(run, marks, retired, reports, k);
    }
    forall k, i | 0 <= k < |run| && marks[k] <= i < marks[k + 1] && run[k].Interrupt?
      ensures i in reports
      ensures retired[i].1 == if reports[i].word % 2 == 1 || reports[i].word / 2 % 2 == 1 then Dropped else Delivered
    {
      FateOf(run, marks, retired, reports, k, i);
    }
    forall k, i | 0 <= k < |run| && marks[k] <= i < marks[k + 1] && run[k].NewMtu? ensures retired[i].1 == Disposed {
      FateOf(run, marks, retired, reports, k, i);
    }
  }

  lemma FourPlaces(bits: nat)
    requires bits > 1
    ensures Pow2(bits) >= 4
  {
    PowerBound(bits - 1);
  }

  /** Half of a ring's places, at which the stack is woken, is none exactly for a ring of two. */
  lemma StopHolds(bits: nat)
    requires bits >= 1
    ensures 0 < (Pow2(bits) - 1) / 2 <==> bits > 1
  {
    if bits > 1 { FourPlaces(bits); } else { assert Pow2(bits) == 2; }
  }

  /** The numbers from a up to b. */
  ghost function Numbers(a: nat, b: nat): (s: seq<nat>)
    ensures a <= b ==> |s| == b - a && forall i :: 0 <= i < b - a ==> s[i] == a + i
  {
    if a <= b then seq(b - a, i => if i >= 0 then a + i else 0) else []
  }

  lemma MoreNumbers(a: nat, b: nat, c: nat)
    requires a <= b <= c
    ensures Numbers(a, b) + Numbers(b, c) == Numbers(a, c)
  {
  }

  /** The hardware completes buffers of a ring, as long as there are some, with the given reports. */
  method HardwareRun(r: PacketRing, reports: seq<Status>)
    requires r.Valid()
    modifies r`hwOut, r`completed, r`reports, r.status
    ensures r.Valid()
    ensures r.completed ==
      if old(r.completed) + |reports| < |r.queued| then old(r.completed) + |reports| else |r.queued|
    ensures forall t :: t < old(r.completed) ==> (t in r.reports <==> t in old(r.reports))
    ensures forall t :: t < old(r.completed) && t in r.reports ==> r.reports[t] == old(r.reports)[t]
    ensures forall t :: old(r.completed) <= t < r.completed ==>
      t in r.reports && r.reports[t] == reports[t - old(r.completed)]
  {
    hide PacketRing.DriverValid;
    ghost var n, c := |r.queued|, r.completed;
    for i := 0 to |reports|
      invariant r.Valid() && r.completed == if c + i < n then c + i else n
      invariant forall t :: t < c ==> (t in r.reports <==> t in old(r.reports))
      invariant forall t :: t < c && t in r.reports ==> r.reports[t] == old(r.reports)[t]
      invariant forall t :: c <= t < r.completed ==> t in r.reports && r.reports[t] == reports[t - c]
    {
      r.HardwareStep(reports[i]);
    }
  }
}
