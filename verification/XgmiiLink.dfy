/** The XGMII source, one word of four or eight lanes per clock, and its connection to the sink. */
module XgmiiLink {
  import opened Bits
  import opened Storage
  import opened Xgmii
  import opened Pacing

  /** A frame that can be sent: it begins with a preamble byte and fills the word of its start character. */
  predicate Sendable(f: seq<byte>) { |f| >= 8 && f[0] == ETH_PRE }

  ghost predicate AllSendable(fs: seq<seq<byte>>) { forall i :: 0 <= i < |fs| ==> Sendable(fs[i]) }

  /** What one clock does, seen from outside: rem is what was left of the current frame and sent are the frames begun so
      far, rem' and sent' the same afterwards; w is the word sent. */
  ghost predicate Clock(bw: nat, rem: seq<Lane>, sent: seq<seq<byte>>, w: seq<Lane>,
                        rem': seq<Lane>, sent': seq<seq<byte>>)
  {
    if rem != [] then w == NextWord(rem, bw) && rem' == Rest(rem, bw) && sent' == sent
    else if sent' == sent then w == Idles(bw) && rem' == []
    else exists f, inLane4 :: Begins(bw, f, inLane4, w, rem') && sent' == sent + [f]
  }

  /** The first word of frame f. */
  predicate Begins(bw: nat, f: seq<byte>, inLane4: bool, w: seq<Lane>, rem: seq<Lane>) {
    && Sendable(f) && (inLane4 ==> bw == 8)
    && w == NextWord(Sent(f, inLane4), bw) && rem == Rest(Sent(f, inLane4), bw)
  }

  function AllPlain(fs: seq<seq<byte>>): (q: seq<seq<Lane>>)
    ensures |q| == |fs| && forall i :: 0 <= i < |fs| ==> q[i] == Plain(fs[i])
  {
    seq(|fs|, i requires 0 <= i < |fs| => Plain(fs[i]))
  }

  /** Behind what its queue held before, `base`, the receiver has every frame sent from frame k on, in order, except the
      one still on its way. */
  ghost predicate InStep(base: seq<seq<Lane>>, k: nat, rem: seq<Lane>, sent: seq<seq<byte>>, r: Receiver) {
    k <= |sent| &&
    if rem == [] then r == Receiver(false, [], base + AllPlain(sent[k..]))
    else k < |sent| && Arriving(r, sent[|sent| - 1], rem, base + AllPlain(sent[k..|sent| - 1]))
  }

  /** The link stays in step over every clock. */
  lemma ClockInStep(bw: nat, base: seq<seq<Lane>>, k: nat, rem: seq<Lane>, sent: seq<seq<byte>>, r: Receiver,
                    w: seq<Lane>, rem': seq<Lane>, sent': seq<seq<byte>>)
    requires (bw == 4 || bw == 8) && InStep(base, k, rem, sent, r) && Clock(bw, rem, sent, w, rem', sent')
    ensures |w| == bw && InStep(base, k, rem', sent', Receive(r, w))
  {
    hide Arriving, NextWord, Rest;
    if rem != [] {
      FurtherWord(r, sent[|sent| - 1], rem, base + AllPlain(sent[k..|sent| - 1]), bw);
      if rem' == [] { LastArrived(Receive(r, w), base, k, sent); }
    } else if sent' == sent {
      assert w[0] != Control(START) && (bw == 8 ==> w[4] != Control(START));
    } else {
      var f, inLane4 :| Begins(bw, f, inLane4, w, rem') && sent' == sent + [f];
      FirstWord(r, f, inLane4, bw);
      assert sent'[k..|sent'| - 1] == sent[k..];
      if rem' == [] { LastArrived(Receive(r, w), base, k, sent'); }
    }
  }

  lemma LastArrived(r: Receiver, base: seq<seq<Lane>>, k: nat, sent: seq<seq<byte>>)
    requires k < |sent| && Arriving(r, sent[|sent| - 1], [], base + AllPlain(sent[k..|sent| - 1]))
    ensures InStep(base, k, [], sent, r)
  {
    assert base + AllPlain(sent[k..|sent| - 1]) + [Plain(sent[|sent| - 1])] == base + AllPlain(sent[k..]);
  }

  // How long a source takes: an upper bound on the clocks it needs for what it has to send.

  /** For the frames in the queue: their lanes, a start in lane 4, the terminate character and the gap behind. */
  function QueueWork(fs: seq<seq<byte>>): nat { if fs == [] then 0 else |fs[0]| + 20 + QueueWork(fs[1..]) }

  /** For the rest of the current frame and the gap behind it. */
  function FrameWork(rem: seq<Lane>): nat { if rem == [] then 0 else |rem| + 15 }

  lemma NoWork(fs: seq<seq<byte>>)
    ensures QueueWork(fs) == 0 <==> fs == []
  {
  }

  class Source {
    const bw: nat
    const dic: bool          // enable_dic
    var queue: seq<seq<byte>>
    var dl: seq<Lane>        // lanes of the current frame still to send
    var ifgCnt: int
    var deficit: nat
    ghost var log: seq<Beat> // every clock so far
    ghost var sent: seq<seq<byte>>

    ghost predicate Valid()
      reads this
    {
      && (bw == 4 || bw == 8) && AllSendable(queue) && (dl != [] ==> Tail(dl))
      && PaceOk(Measure(log), dl != [], ifgCnt, deficit, dic)
    }

    /** An upper bound on the clocks until everything is sent and the gap behind it is over. */
    function Work(): int
      reads this
    {
      QueueWork(queue) + FrameWork(dl) + ifgCnt
    }

    constructor (width: nat, enableDic: bool)
      requires width == 4 || width == 8
      ensures Valid() && bw == width && dic == enableDic && queue == [] && dl == [] && sent == [] && log == []
    {
      bw, dic := width, enableDic;
      queue, dl, ifgCnt, deficit := [], [], 0, 0;
      log, sent := [], [];
    }

    method Send(f: seq<byte>)
      requires Valid() && Sendable(f)
      modifies this`queue
      ensures Valid() && queue == old(queue) + [f]
    {
      queue := queue + [f];
    }

    /** The lanes of the next word, popped one by one; the gap counter starts where the last one goes out. */
    method PopWord() returns (w: seq<Lane>)
      requires (bw == 4 || bw == 8) && dl != []
      modifies this`dl, this`ifgCnt
      ensures w == NextWord(old(dl), bw) && dl == Rest(old(dl), bw)
      ensures ifgCnt == AfterPop(old(dl), bw, old(ifgCnt), deficit)
    {
      hide NextWord;
      w := [];
      ghost var all, cnt := dl, ifgCnt;
      PopNone(all, bw);
      for i := 0 to bw
        invariant |w| == i && w + NextWord(dl, bw - i) == NextWord(all, bw) && dl == Rest(all, i)
        invariant ifgCnt == if dl != [] then cnt else IFG - (bw - (|all| - 1)) + deficit
      {
        PopOne(all, dl, w, bw, i);
        if dl != [] {
          w := w + [dl[0]];
          dl := dl[1..];
          if dl == [] { ifgCnt := IFG - (bw - i) + deficit; }
        } else {
          w := w + [Control(IDLE)];
        }
      }
      AllPopped(w, dl);
    }

    /** One clock. */
    method Tick() returns (w: seq<Lane>)
      requires Valid()
      modifies this`queue, this`dl, this`ifgCnt, this`deficit, this`log, this`sent
      ensures Valid() && old(sent) + old(queue) == sent + queue
      ensures Clock(bw, old(dl), old(sent), w, dl, sent)
      ensures log == old(log) + [Beat(w, old(queue) != [], deficit)]
      ensures Work() < old(Work()) || Work() == old(Work()) == 0
    {
      hide NextWord, Rest, PaceOk, SeeBeat, Measure, Tail, Sent, Idles;
      ghost var m, waiting := Measure(log), queue != [];
      Sending(m, dl != [], ifgCnt, deficit, dic);
      if ifgCnt > bw - 1 || (!dic && ifgCnt > 0) {
        HoldOk(m, ifgCnt, deficit, dic, bw, waiting);
        ifgCnt := Max(ifgCnt - bw, 0);
        w := Idles(bw);
      } else if dl != [] {
        PopOk(m, dl, bw, ifgCnt, deficit, dic, waiting);
        TailRest(dl, bw);
        RestLength(dl, bw);
        w := PopWord();
      } else if queue != [] {
        var f := queue[0];
        queue := queue[1..];
        var inLane4 := Offset(ifgCnt, bw);
        BeginOk(m, f, ifgCnt, deficit, dic, bw);
        FirstRest(f, inLane4, bw);
        FirstLength(f, inLane4, bw);
        sent := sent + [f];
        if inLane4 { ifgCnt := Max(ifgCnt - 4, 0); }
        dl := Sent(f, inLane4);
        deficit := Max(ifgCnt, 0);
        ifgCnt := 0;
        w := PopWord();
        assert Begins(bw, f, inLane4, w, dl);
      } else {
        QuietOk(m, ifgCnt, deficit, dic, bw);
        ifgCnt, deficit := 0, 0;
        w := Idles(bw);
      }
      MeasureMore(log, Beat(w, waiting, deficit));
      log := log + [Beat(w, waiting, deficit)];
    }
  }

  /** While a frame is being sent its gap has not begun. */
  lemma Sending(m: Meter, sending: bool, ifgCnt: int, deficit: nat, dic: bool)
    requires PaceOk(m, sending, ifgCnt, deficit, dic)
    ensures 0 <= ifgCnt <= IFG + 2 && deficit <= 3 && (sending ==> ifgCnt == 0)
  {
  }

  lemma RestLength(rem: seq<Lane>, bw: nat)
    requires rem != [] && 0 < bw
    ensures |Rest(rem, bw)| == (if |rem| > bw then |rem| - bw else 0)
  {
  }

  lemma FirstLength(f: seq<byte>, inLane4: bool, bw: nat)
    requires |f| >= bw && (if inLane4 then bw == 8 else bw == 4 || bw == 8)
    ensures var rem := Sent(f, inLane4);
      |rem| == |f| + (if inLane4 then 5 else 1) > bw && |Rest(rem, bw)| == |rem| - bw
  {
  }

  lemma PopNone(all: seq<Lane>, bw: nat)
    ensures Rest(all, 0) == all && [] + NextWord(all, bw) == NextWord(all, bw)
  {
  }

  /** Popping lane i of a word. */
  lemma PopOne(all: seq<Lane>, dl: seq<Lane>, w: seq<Lane>, bw: nat, i: nat)
    requires i < bw && dl == Rest(all, i) && |w| == i && w + NextWord(dl, bw - i) == NextWord(all, bw)
    ensures if dl != []
      then w + [dl[0]] + NextWord(dl[1..], bw - i - 1) == NextWord(all, bw) && dl[1..] == Rest(all, i + 1)
      else w + [Control(IDLE)] + NextWord(dl, bw - i - 1) == NextWord(all, bw) && dl == Rest(all, i + 1)
  {
    hide NextWord, Rest;
    var l := if dl != [] then dl[0] else Control(IDLE);
    NextLane(dl, bw - i);
    RestStep(all, i);
    Assoc(w, [l], NextWord(Rest(dl, 1), bw - i - 1));
  }

  lemma Assoc(a: seq<Lane>, b: seq<Lane>, c: seq<Lane>)
    ensures a + b + c == a + (b + c)
  {
  }

  lemma RestStep(all: seq<Lane>, i: nat)
    ensures var dl := Rest(all, i); Rest(dl, 1) == Rest(all, i + 1) && Rest(dl, 1) == if dl != [] then dl[1..] else dl
  {
  }

  /** The next word, lane by lane. */
  lemma NextLane(dl: seq<Lane>, n: nat)
    requires n > 0
    ensures NextWord(dl, n) == [if dl != [] then dl[0] else Control(IDLE)] + NextWord(Rest(dl, 1), n - 1)
  {
  }

  lemma AllPopped(w: seq<Lane>, dl: seq<Lane>)
    ensures w + NextWord(dl, 0) == w
  {
  }

  /** n clocks of a link: the sink receives the frames the source has sent, as they were and in order, except the one
      still on its way; after as many clocks as the source has work, everything has been sent and received. */
  method RunLink(src: Source, snk: Sink, n: nat, ghost base: seq<seq<Lane>>, ghost k: nat)
    requires src.Valid() && InStep(base, k, src.dl, src.sent, snk.State())
    modifies src, snk
    ensures src.Valid() && InStep(base, k, src.dl, src.sent, snk.State())
    ensures old(src.sent) + old(src.queue) == src.sent + src.queue
    ensures old(src.log) <= src.log && |src.log| == |old(src.log)| + n
    ensures n >= old(src.Work()) ==> src.queue == [] && src.dl == []
    ensures n >= old(src.Work()) ==>
      snk.State() == Receiver(false, [], base + AllPlain((old(src.sent) + old(src.queue))[k..]))
  {
    for i := 0 to n
      invariant src.Valid() && InStep(base, k, src.dl, src.sent, snk.State())
      invariant old(src.sent) + old(src.queue) == src.sent + src.queue
      invariant old(src.log) <= src.log && |src.log| == |old(src.log)| + i
      invariant src.Work() <= Max(old(src.Work()) - i, 0)
    {
      ghost var rem, sent, r := src.dl, src.sent, snk.State();
      var w := src.Tick();
      ClockInStep(src.bw, base, k, rem, sent, r, w, src.dl, src.sent);
      snk.Accept(w);
    }
    if n >= old(src.Work()) {
      NoWork(src.queue);
      assert src.sent + src.queue == src.sent;
    }
  }

  /** Sending frames and clocking the link until they have arrived. */
  method Transfer(src: Source, snk: Sink, fs: seq<seq<byte>>, ghost base: seq<seq<Lane>>, ghost k: nat)
    requires src.Valid() && InStep(base, k, src.dl, src.sent, snk.State()) && AllSendable(fs)
    modifies src, snk
    ensures src.Valid() && src.queue == [] && src.dl == [] && src.sent == old(src.sent) + old(src.queue) + fs
    ensures snk.State() == Receiver(false, [], base + AllPlain((old(src.sent) + old(src.queue) + fs)[k..]))
  {
    hide PaceOk, Measure, Arriving;
    assert fs[..0] == [];
    for i := 0 to |fs|
      invariant src.Valid() && src.queue == old(src.queue) + fs[..i] && src.sent == old(src.sent)
      invariant InStep(base, k, src.dl, src.sent, snk.State())
    {
      src.Send(fs[i]);
      assert fs[..i + 1] == fs[..i] + [fs[i]];
    }
    assert fs[..|fs|] == fs && old(src.sent) + (old(src.queue) + fs) == old(src.sent) + old(src.queue) + fs;
    Sending(Measure(src.log), src.dl != [], src.ifgCnt, src.deficit, src.dic);
    RunLink(src, snk, src.Work(), base, k);
  }
}
