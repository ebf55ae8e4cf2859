/** The 10GBASE-R source and sink: frames go out as scrambled 64b/66b blocks, one per clock, and come back. */
module BaseR {
  import opened Bits
  import opened Storage
  import opened Xgmii
  import opened Pacing
  import opened BlockCode
  import opened BlockBits
  import opened Scrambler
  import opened XgmiiLink

  /** The blocks for the lanes still to send, the last word filled up with idles. */
  function EncodeAll(rem: seq<Lane>): (bs: seq<Block>)
    ensures bs == [] <==> rem == []
    ensures forall i :: 0 <= i < |bs| ==> |bs[i].data| == 64
    decreases |rem|
  {
    if rem == [] then [] else [Encode(NextWord(rem, 8))] + EncodeAll(Rest(rem, 8))
  }

  lemma IdlesCarried()
    ensures Carried(Idles(8)) && Encode(Idles(8)) == Block(SYNC_CTRL, Digits(0x1e, 64))
  {
    var w := Idles(8);
    assert w[0].ctl && !NoCtl(w);
    assert TermAt(w) == 8;
    assert Encode(w).data == Digits(0x1e, 8) + Codes(w);
    IdleCodes(8);
    SplitBits(0x1e, 8, 56);
    ZeroBits(56);
  }

  lemma {:induction false} IdleCodes(n: nat)
    ensures Codes(Idles(n)) == seq(7 * n, _ => false)
    decreases n
  {
    if n > 0 {
      IdleCodes(n - 1);
      assert Idles(n)[1..] == Idles(n - 1);
      ZeroBits(7);
    }
  }

  lemma {:induction false} ZeroBits(n: nat)
    ensures Digits(0, n) == seq(n, _ => false)
    decreases n
  {
    if n > 0 { ZeroBits(n - 1); }
  }

  /** The digits of a small number in a wide field: its own digits, then zeros. */
  lemma {:induction false} SplitBits(x: nat, n: nat, m: nat)
    requires x < Pow2(n)
    ensures Digits(x, n + m) == Digits(x, n) + Digits(0, m)
    decreases n
  {
    if n > 0 { SplitBits(x / 2, n - 1, m); } else { assert Digits(x, 0) == []; }
  }

  /** The words of a frame can be carried, and the last one is a terminate block that tells its lane. */
  lemma TailCarried(rem: seq<Lane>)
    requires Tail(rem)
    ensures Carried(NextWord(rem, 8)) && rem != []
    ensures |rem| <= 8 ==> TermLane(Num(Encode(NextWord(rem, 8)).data[..8])) == |rem| - 1
  {
    hide Encode, Num, Digits;
    var x: seq<byte> :| rem == Plain(x) + [Control(TERM)];
    var w := NextWord(rem, 8);
    if |x| >= 8 {
      assert NoCtl(w);
    } else {
      var l := |x|;
      assert w[l] == Control(TERM) && NoCtl(w[..l]) && forall i :: l < i < 8 ==> w[i] == Control(IDLE);
      TermWord(w, l);
    }
  }

  lemma TermWord(w: Word, l: nat)
    requires l < 8 && w[l] == Control(TERM) && NoCtl(w[..l]) && forall i :: l < i < 8 ==> w[i] == Control(IDLE)
    ensures Carried(w) && TermLane(Num(Encode(w).data[..8])) == l
  {
    hide Encode, Num, Digits;
    assert TermAt(w) == l;
    var behind := w[l + 1..];
    assert forall i :: 0 <= i < 7 - l ==> behind[i] == Control(IDLE);
    EncodeTerm(w, l);
    TypeRange(l);
    TypeBack(TermType(l), Bytes(w[..l]) + Digits(0, 7 - l) + Codes(w[l + 1..]));
  }

  /** The first word of a frame can be carried. */
  lemma FirstCarried(f: seq<byte>, inLane4: bool)
    requires Sendable(f)
    ensures Carried(NextWord(Sent(f, inLane4), 8))
  {
    var w := NextWord(Sent(f, inLane4), 8);
    if inLane4 {
      assert Is(w[4], START) && NoCtl(w[5..]) && AllCoded(w[..4]);
      assert !NoCtl(w) by { assert w[4].ctl; }
    } else {
      assert Is(w[0], START) && NoCtl(w[1..]);
    }
  }

  class Source {
    const dic: bool
    var queue: seq<seq<byte>>
    var ccl: seq<Block>      // blocks of the current frame still to send
    var ifgCnt: int
    var deficit: nat
    var scrambler: State
    ghost var rem: seq<Lane> // the lanes in those blocks
    ghost var log: seq<Beat> // every clock so far
    ghost var sent: seq<seq<byte>>

    ghost predicate Valid()
      reads this
    {
      && AllSendable(queue) && PaceOk(Measure(log), rem != [], ifgCnt, deficit, dic)
      && ccl == EncodeAll(rem) && (rem != [] ==> Tail(rem))
    }

    /** An upper bound on the clocks until everything is sent and the gap behind it is over. */
    ghost function Work(): int
      reads this
    {
      QueueWork(queue) + FrameWork(rem) + ifgCnt
    }

    constructor (enableDic: bool)
      ensures Valid() && dic == enableDic && queue == [] && rem == [] && sent == [] && log == []
      ensures scrambler == seq(58, _ => false)
    {
      dic := enableDic;
      queue, ccl, ifgCnt, deficit, rem := [], [], 0, 0, [];
      log, sent := [], [];
      scrambler := seq(58, _ => false);
    }

    /** Pop the next block; after the last one the gap counter starts in the lane of its terminate character. */
    method PopBlock(ghost w: seq<Lane>) returns (b: Block)
      requires ccl != [] && ccl == EncodeAll(rem) && w == NextWord(rem, 8)
      requires |rem| <= 8 ==> TermLane(Num(Encode(w).data[..8])) == |rem| - 1
      modifies this`ccl, this`rem, this`ifgCnt
      ensures b == Encode(w) && rem == Rest(old(rem), 8) && ccl == EncodeAll(rem)
      ensures ifgCnt == AfterPop(old(rem), 8, old(ifgCnt), deficit)
    {
      hide NextWord, Rest, Encode, Num, TermLane;
      RestLength(rem, 8);
      b, ccl := ccl[0], ccl[1..];
      rem := Rest(rem, 8);
      if ccl == [] {
        var l := TermLane(Num(b.data[..8]));
        ifgCnt := if l < 8 then IFG - (8 - l) + deficit else IFG + deficit;
      }
    }

    /** Encode a frame's lanes, padded with idles to whole words, block by block. */
    method EncodeFrame(dl: seq<Lane>)
      requires dl != []
      modifies this`ccl, this`rem
      ensures rem == dl && ccl == EncodeAll(dl)
    {
      hide Encode;
      var padded := dl;
      if |dl| % 8 != 0 { padded := dl + Idles(8 - |dl| % 8); }
      ccl := [];
      var k := 0;
      while k < |padded|
        invariant k <= |padded| && k % 8 == 0 && |padded| % 8 == 0
        invariant ccl + EncodeAll(Rest(dl, k)) == EncodeAll(dl)
        decreases |padded| - k
      {
        PaddedWord(dl, padded, k);
        ccl := ccl + [Encode(padded[k..k + 8])];
        k := k + 8;
      }
      assert Rest(dl, k) == [];
      rem := dl;
    }

    /** One clock: the next block, scrambled. w are the lanes in it. */
    method Tick() returns (header: nat, line: seq<bool>, ghost w: seq<Lane>)
      requires Valid()
      modifies this
      ensures Valid() && old(sent) + old(queue) == sent + queue
      ensures |w| == 8 && Carried(w) && Clock(8, old(rem), old(sent), w, rem, sent)
      ensures header == if forall i :: 0 <= i < 8 ==> !w[i].ctl then 2 else 1
      ensures header == Encode(w).header && line == Scramble(old(scrambler), Encode(w).data)
      ensures scrambler == ShiftAll(old(scrambler), line)
      ensures log == old(log) + [Beat(w, old(queue) != [], deficit)]
      ensures Work() < old(Work()) || Work() == old(Work()) == 0
    {
      hide PaceOk, Measure, EncodeAll, Tail;
      var b;
      b, w := NextBlock();
      Header(w);
      header := b.header;
      scrambler, line := ScrambleWord(scrambler, b.data);
    }

    /** One clock without the scrambler. */
    method NextBlock() returns (b: Block, ghost w: seq<Lane>)
      requires Valid()
      modifies this`queue, this`ccl, this`rem, this`ifgCnt, this`deficit, this`log, this`sent
      ensures Valid() && old(sent) + old(queue) == sent + queue
      ensures |w| == 8 && Carried(w) && b == Encode(w) && Clock(8, old(rem), old(sent), w, rem, sent)
      ensures log == old(log) + [Beat(w, old(queue) != [], deficit)]
      ensures Work() < old(Work()) || Work() == old(Work()) == 0
    {
      hide NextWord, Rest, PaceOk, SeeBeat, Measure, Tail, Sent, Encode, Carried, Num, TermLane, Digits, EncodeAll;
      ghost var m, waiting := Measure(log), queue != [];
      Sending(m, rem != [], ifgCnt, deficit, dic);
      IdlesCarried();
      b, w := Block(SYNC_CTRL, Digits(0x1e, 64)), Idles(8);
      if ifgCnt > 7 || (!dic && ifgCnt > 0) {
        HoldOk(m, ifgCnt, deficit, dic, 8, waiting);
        ifgCnt := Max(ifgCnt - 8, 0);
      } else if ccl != [] {
        TailCarried(rem);
        PopOk(m, rem, 8, ifgCnt, deficit, dic, waiting);
        TailRest(rem, 8);
        RestLength(rem, 8);
        w := NextWord(rem, 8);
        b := PopBlock(w);
      } else if queue != [] {
        var f := queue[0];
        queue := queue[1..];
        var inLane4 := Offset(ifgCnt, 8);
        BeginOk(m, f, ifgCnt, deficit, dic, 8);
        FirstRest(f, inLane4, 8);
        FirstLength(f, inLane4, 8);
        FirstCarried(f, inLane4);
        sent := sent + [f];
        if inLane4 { ifgCnt := Max(ifgCnt - 4, 0); }
        deficit := Max(ifgCnt, 0);
        ifgCnt := 0;
        EncodeFrame(Sent(f, inLane4));
        w := NextWord(rem, 8);
        b := PopBlock(w);
        assert Begins(8, f, inLane4, w, rem);
      } else {
        QuietOk(m, ifgCnt, deficit, dic, 8);
        ifgCnt, deficit := 0, 0;
      }
      MeasureMore(log, Beat(w, waiting, deficit));
      log := log + [Beat(w, waiting, deficit)];
    }
  }

  /** Word k / 8 of the padded lanes is the next word of what is left of the lanes. */
  lemma PaddedWord(dl: seq<Lane>, padded: seq<Lane>, k: nat)
    requires k % 8 == 0 && |padded| % 8 == 0 && k < |padded|
    requires padded == if |dl| % 8 != 0 then dl + Idles(8 - |dl| % 8) else dl
    ensures k + 8 <= |padded| && Rest(dl, k) != [] && padded[k..k + 8] == NextWord(Rest(dl, k), 8)
    ensures Rest(Rest(dl, k), 8) == Rest(dl, k + 8)
  {
    assert k < |dl|;
  }

  /** The sink: descrambler, block decoder and frame receiver. */
  class Deserializer {
    const sink: Sink
    var descrambler: State

    constructor ()
      ensures sink.State() == Receiver(false, [], []) && descrambler == seq(58, _ => false) && fresh(sink)
    {
      sink := new Sink();
      descrambler := seq(58, _ => false);
    }

    method Accept(header: nat, line: seq<bool>)
      requires |line| == 64
      modifies this, sink
      ensures descrambler == ShiftAll(old(descrambler), line)
      ensures sink.State() == Receive(old(sink.State()), Decode(Block(header, Descramble(old(descrambler), line))))
    {
      var data;
      descrambler, data := DescrambleWord(descrambler, line);
      sink.Accept(Decode(Block(header, data)));
    }
  }

  /** One clock of the serial link, from any states: the scrambler states are equal afterwards, whatever they were, and
      if they were equal before the sink receives the word sent. */
  method LinkClock(src: Source, des: Deserializer) returns (ghost w: seq<Lane>)
    requires src.Valid()
    modifies src, des, des.sink
    ensures src.Valid() && src.scrambler == des.descrambler
    ensures old(src.sent) + old(src.queue) == src.sent + src.queue
    ensures |w| == 8 && Clock(8, old(src.rem), old(src.sent), w, src.rem, src.sent)
    ensures src.log == old(src.log) + [Beat(w, old(src.queue) != [], src.deficit)]
    ensures src.Work() < old(src.Work()) || src.Work() == old(src.Work()) == 0
    ensures old(src.scrambler) == old(des.descrambler) ==> des.sink.State() == Receive(old(des.sink.State()), w)
    ensures exists w' :: |w'| == 8 && des.sink.State() == Receive(old(des.sink.State()), w')
  {
    hide Encode, Decode, Carried, Clock, Receive, Measure, PaceOk, EncodeAll, Scramble, Descramble, ShiftAll;
    ghost var s, s' := src.scrambler, des.descrambler;
    var header, line;
    header, line, w := src.Tick();
    Inverse(s, Encode(w).data);
    RoundTrip(w);
    assert Encode(w) == Block(header, Encode(w).data);
    Forgotten(s, s', line);
    des.Accept(header, line);
  }

  /** n clocks of the serial link from equal scrambler states: the sink receives the frames the source has sent, as they
      were and in order, except the one still on its way; after as many clocks as the source has work, all of them. */
  method RunSerialLink(src: Source, des: Deserializer, n: nat, ghost base: seq<seq<Lane>>, ghost k: nat)
    requires src.Valid() && InStep(base, k, src.rem, src.sent, des.sink.State()) && src.scrambler == des.descrambler
    modifies src, des, des.sink
    ensures src.Valid() && InStep(base, k, src.rem, src.sent, des.sink.State()) && src.scrambler == des.descrambler
    ensures old(src.sent) + old(src.queue) == src.sent + src.queue
    ensures old(src.log) <= src.log && |src.log| == |old(src.log)| + n
    ensures n >= old(src.Work()) ==>
      des.sink.State() == Receiver(false, [], base + AllPlain((old(src.sent) + old(src.queue))[k..]))
  {
    hide Clock, Receive, Measure, PaceOk, EncodeAll, Arriving;
    for i := 0 to n
      invariant src.Valid() && InStep(base, k, src.rem, src.sent, des.sink.State()) && src.scrambler == des.descrambler
      invariant old(src.sent) + old(src.queue) == src.sent + src.queue
      invariant old(src.log) <= src.log && |src.log| == |old(src.log)| + i
      invariant src.Work() <= Max(old(src.Work()) - i, 0)
    {
      ghost var rem, sent, r := src.rem, src.sent, des.sink.State();
      ghost var w := LinkClock(src, des);
      ClockInStep(8, base, k, rem, sent, r, w, src.rem, src.sent);
    }
    if n >= old(src.Work()) {
      Sending(Measure(src.log), src.rem != [], src.ifgCnt, src.deficit, src.dic);
      NoWork(src.queue);
      assert src.sent + src.queue == src.sent;
    }
  }

  /** Outside a frame the sink holds no lanes. */
  predicate Settled(r: Receiver) { r.inFrame || r.d == [] }

  /** Frames received, counting the one that is being received. */
  function Load(r: Receiver): nat { |r.queue| + if r.inFrame then 1 else 0 }

  /** Whatever a word holds, it ends or begins one frame at most. */
  lemma AnyWord(r: Receiver, w: seq<Lane>)
    requires |w| == 8 && Settled(r)
    ensures var r' := Receive(r, w); Settled(r') && r.queue <= r'.queue && Load(r') <= |r.queue| + 1
  {
  }

  /** A word of idles ends a frame that garbage began. */
  lemma IdleWord(r: Receiver)
    requires Settled(r)
    ensures var r' := Receive(r, Idles(8));
      !r'.inFrame && r'.d == [] && r.queue <= r'.queue && Load(r') <= Load(r)
  {
    assert FirstControl(Idles(8)) == 0;
  }

  /** A further word of a frame begins none, and the last one leaves the sink outside a frame. */
  lemma TailWord(r: Receiver, rem: seq<Lane>)
    requires Settled(r) && Tail(rem)
    ensures var r' := Receive(r, NextWord(rem, 8));
      && Settled(r') && r.queue <= r'.queue && Load(r') <= Load(r)
      && (|rem| <= 8 ==> !r'.inFrame && r'.d == [])
  {
    var x: seq<byte> :| rem == Plain(x) + [Control(TERM)];
    var w := NextWord(rem, 8);
    if |rem| > 8 {
      assert FirstControl(w) == 8;
    } else {
      assert w[|x|] == Control(TERM) && FirstControl(w) <= |x|;
      assert forall i :: 0 <= i < 8 ==> w[i] != Control(START);
    }
  }

  /** A clock that a sink in any state follows. */
  lemma JoinClock(r: Receiver, rem: seq<Lane>, sent: seq<seq<byte>>, w: seq<Lane>, rem': seq<Lane>,
                  sent': seq<seq<byte>>)
    requires Settled(r) && |w| == 8 && Clock(8, rem, sent, w, rem', sent') && (rem != [] ==> Tail(rem))
    ensures sent <= sent' && |sent'| <= |sent| + 1 && (|sent'| > |sent| ==> rem == [] && rem' != [])
    ensures var r' := Receive(r, w);
      && Settled(r') && r.queue <= r'.queue && Load(r') <= Load(r) + (|sent'| - |sent|)
      && (rem' == [] ==> !r'.inFrame && r'.d == [])
  {
    hide Receive, NextWord, Sent;
    if rem != [] {
      TailWord(r, rem);
      RestLength(rem, 8);
    } else if sent' == sent {
      IdleWord(r);
    } else {
      var f, inLane4 :| Begins(8, f, inLane4, w, rem') && sent' == sent + [f];
      FirstLength(f, inLane4, 8);
      AnyWord(r, w);
    }
  }

  lemma Busy(src: Source)
    requires src.Valid()
    ensures src.Work() >= 0 && (src.rem != [] ==> src.Work() > 0)
  {
    Sending(Measure(src.log), src.rem != [], src.ifgCnt, src.deficit, src.dic);
  }

  /** One clock for a sink in any state whose descrambler is right already. */
  method FollowClock(src: Source, des: Deserializer)
    requires src.Valid() && src.scrambler == des.descrambler && Settled(des.sink.State())
    modifies src, des, des.sink
    ensures src.Valid() && src.scrambler == des.descrambler && Settled(des.sink.State())
    ensures old(src.sent) + old(src.queue) == src.sent + src.queue && old(src.sent) <= src.sent
    ensures |src.sent| <= |old(src.sent)| + 1 && (|src.sent| > |old(src.sent)| ==> old(src.rem) == [] && src.rem != [])
    ensures old(des.sink.queue) <= des.sink.queue
    ensures Load(des.sink.State()) <= Load(old(des.sink.State())) + (|src.sent| - |old(src.sent)|)
    ensures src.rem == [] ==> !des.sink.inFrame && des.sink.d == []
    ensures src.Work() >= 0 && (old(src.rem) != [] ==> src.Work() < old(src.Work()))
  {
    hide Receive, Measure, PaceOk, EncodeAll, Clock, Load, Settled;
    Busy(src);
    ghost var r, rem, sent := des.sink.State(), src.rem, src.sent;
    ghost var w := LinkClock(src, des);
    JoinClock(r, rem, sent, w, src.rem, src.sent);
    Busy(src);
  }

  /** The first clock of a sink that joins. */
  method FirstClock(src: Source, des: Deserializer)
    requires src.Valid() && Settled(des.sink.State())
    modifies src, des, des.sink
    ensures src.Valid() && src.scrambler == des.descrambler && Settled(des.sink.State())
    ensures old(src.sent) + old(src.queue) == src.sent + src.queue && |src.sent| <= |old(src.sent)| + 1
    ensures |src.sent| > |old(src.sent)| ==> src.rem != []
    ensures old(des.sink.queue) <= des.sink.queue && Load(des.sink.State()) <= |old(des.sink.queue)| + 1
  {
    hide Receive, Measure, PaceOk, EncodeAll, Clock, Load, Settled;
    ghost var r, rem, sent := des.sink.State(), src.rem, src.sent;
    ghost var w := LinkClock(src, des);
    ghost var w1 :| |w1| == 8 && des.sink.State() == Receive(r, w1);
    AnyWord(r, w1);
    JoinClock(r, rem, sent, w, src.rem, src.sent);
  }

  /** Joining a link at any time, also in the middle of a frame: from any descrambler and receiver state the sink is in
      step when the second frame end at the latest, or an idle clock, has gone by. At most the frame on its way and the
      next one are lost, for which at most two frames of garbage are in the queue. RunSerialLink goes on from there. */
  method JoinSerialLink(src: Source, des: Deserializer)
    requires src.Valid() && Settled(des.sink.State())
    modifies src, des, des.sink
    ensures src.Valid() && src.scrambler == des.descrambler && old(src.sent) + old(src.queue) == src.sent + src.queue
    ensures |src.sent| <= |old(src.sent)| + 1
    ensures old(des.sink.queue) <= des.sink.queue && |des.sink.queue| <= |old(des.sink.queue)| + 2
    ensures src.rem == [] && InStep(des.sink.queue, |src.sent|, src.rem, src.sent, des.sink.State())
  {
    hide Measure, PaceOk, EncodeAll, Arriving;
    FirstClock(src, des);
    FollowClock(src, des);
    while src.ccl != []
      invariant src.Valid() && src.scrambler == des.descrambler && Settled(des.sink.State())
      invariant old(src.sent) + old(src.queue) == src.sent + src.queue && |src.sent| <= |old(src.sent)| + 1
      invariant old(des.sink.queue) <= des.sink.queue && Load(des.sink.State()) <= |old(des.sink.queue)| + 2
      invariant src.rem == [] ==> !des.sink.inFrame && des.sink.d == []
      invariant src.Work() >= 0
      decreases src.Work()
    {
      FollowClock(src, des);
    }
    assert des.sink.queue + AllPlain(src.sent[|src.sent|..]) == des.sink.queue;
  }
}
