/** XGMII lanes: what the media-independent interface carries in one byte position. */
module Xgmii {
  import opened Storage

  const ETH_PRE: byte := 0x55

  const IDLE: byte := 0x07
  const LPI: byte := 0x06
  const START: byte := 0xfb
  const TERM: byte := 0xfd
  const ERROR: byte := 0xfe
  const SEQ_OS: byte := 0x9c
  const SIG_OS: byte := 0x5c
  const RES_0: byte := 0x1c
  const RES_1: byte := 0x3c
  const RES_2: byte := 0x7c
  const RES_3: byte := 0xbc
  const RES_4: byte := 0xdc
  const RES_5: byte := 0xf7

  /** One lane: a data byte, or a control character. */
  datatype Lane = Lane(ctl: bool, val: byte)

  function DataLane(b: byte): Lane { Lane(false, b) }
  function Control(c: byte): Lane { Lane(true, c) }

  /** A frame's bytes as lanes. */
  function Plain(f: seq<byte>): (w: seq<Lane>)
    ensures |w| == |f| && forall i :: 0 <= i < |f| ==> w[i] == DataLane(f[i])
  {
    seq(|f|, i requires 0 <= i < |f| => DataLane(f[i]))
  }

  /** What the source sends for a frame: the start character in place of the first preamble byte, the other bytes, the
      terminate character; four idles in front when it starts in lane 4. */
  function Sent(f: seq<byte>, inLane4: bool): seq<Lane>
    requires |f| > 0
  {
    (if inLane4 then Idles(4) else []) + [Control(START)] + Plain(f[1..]) + [Control(TERM)]
  }

  /** The lanes of a frame: behind four idles (0x07) or none a start character (0xfb), the bytes from the second one on,
      and a terminate character (0xfd). */
  lemma SentLanes(f: seq<byte>, inLane4: bool)
    requires |f| > 0
    ensures var w, k := Sent(f, inLane4), if inLane4 then 4 else 0;
      && |w| == k + |f| + 1 && w[k] == Lane(true, 0xfb) && w[|w| - 1] == Lane(true, 0xfd)
      && (forall i :: 0 <= i < k ==> w[i] == Lane(true, 0x07))
      && forall i :: 1 <= i < |f| ==> w[k + i] == Lane(false, f[i])
  {
    var w, k := Sent(f, inLane4), if inLane4 then 4 else 0;
    forall i | 1 <= i < |f| ensures w[k + i] == Lane(false, f[i]) {
      assert w[k + i] == Plain(f[1..])[i - 1] == DataLane(f[1..][i - 1]);
    }
  }

  /** The lanes of the next word: those to send, then idles. */
  lemma WordLanes(rem: seq<Lane>, bw: nat, i: nat)
    requires i < bw
    ensures NextWord(rem, bw)[i] == if i < |rem| then rem[i] else Lane(true, 0x07)
  {
  }

  /** What is left of a frame after its first word. */
  ghost predicate Tail(rem: seq<Lane>) { exists x: seq<byte> :: rem == Plain(x) + [Control(TERM)] }

  lemma TailLength(rem: seq<Lane>)
    requires Tail(rem)
    ensures |rem| > 0
  {
  }

  /** Sending a word of a frame leaves a shorter rest of it, or nothing. */
  lemma TailRest(rem: seq<Lane>, bw: nat)
    requires Tail(rem)
    ensures if |rem| > bw then Tail(Rest(rem, bw)) && Rest(rem, bw) != [] else Rest(rem, bw) == []
  {
    var x: seq<byte> :| rem == Plain(x) + [Control(TERM)];
    if |rem| > bw {
      assert Rest(rem, bw) == Plain(x[bw..]) + [Control(TERM)];
    }
  }

  /** The first word leaves a rest of the frame. */
  lemma FirstRest(f: seq<byte>, inLane4: bool, bw: nat)
    requires |f| >= bw && (if inLane4 then bw == 8 else bw == 4 || bw == 8)
    ensures Tail(Rest(Sent(f, inLane4), bw))
  {
    var lead := if inLane4 then 4 else 0;
    assert Rest(Sent(f, inLane4), bw) == Plain(f[bw - lead..]) + [Control(TERM)];
  }

  function Idles(n: nat): (w: seq<Lane>)
    ensures |w| == n && forall i :: 0 <= i < n ==> w[i] == Control(IDLE)
  {
    seq(n, _ => Control(IDLE))
  }

  /** The next word of bw lanes: what is left to send, filled up with idles. */
  function NextWord(rem: seq<Lane>, bw: nat): (w: seq<Lane>)
    ensures |w| == bw
  {
    if |rem| >= bw then rem[..bw] else rem + Idles(bw - |rem|)
  }

  function Rest(rem: seq<Lane>, bw: nat): seq<Lane> { if |rem| >= bw then rem[bw..] else [] }

  /** The receiver: whether a frame is being received, its lanes so far, and the frames received, oldest first. */
  datatype Receiver = Receiver(inFrame: bool, d: seq<Lane>, queue: seq<seq<Lane>>)

  /** Position of the first control character, |w| when there is none. */
  function FirstControl(w: seq<Lane>): (i: nat)
    ensures i <= |w| && (i < |w| ==> w[i].ctl) && forall j :: 0 <= j < i ==> !w[j].ctl
  {
    if w == [] || w[0].ctl then 0 else 1 + FirstControl(w[1..])
  }

  /** What the sink makes of one word. A control character ends the frame, and is kept if it is not a terminate. */
  function Receive(r: Receiver, w: seq<Lane>): Receiver
    requires |w| == 4 || |w| == 8
  {
    if !r.inFrame then
      if w[0] == Control(START) then Receiver(true, [DataLane(ETH_PRE)] + w[1..], r.queue)
      else if |w| == 8 && w[4] == Control(START) then Receiver(true, [DataLane(ETH_PRE)] + w[5..], r.queue)
      else r
    else
      var i := FirstControl(w);
      if i == |w| then r.(d := r.d + w)
      else
        var frame := if w[i].val == TERM then r.d + w[..i] else r.d + w[..i] + [w[i]];
        Receiver(false, [], r.queue + [frame])
  }

  /** The receiver, character by character: a start (0xfb) in lane 0 or 4 begins a frame with a preamble byte (0x55);
      in a frame the lanes in front of the first control character are taken, which ends it, and a control character
      other than a terminate (0xfd) stays in the frame. */
  lemma ReceiveIs(r: Receiver, w: seq<Lane>, i: nat)
    requires |w| == 4 || |w| == 8
    requires i <= |w| && (forall j :: 0 <= j < i ==> !w[j].ctl) && (i < |w| ==> w[i].ctl)
    ensures !r.inFrame && w[0] == Lane(true, 0xfb) ==>
      Receive(r, w) == Receiver(true, [Lane(false, 0x55)] + w[1..], r.queue)
    ensures !r.inFrame && w[0] != Lane(true, 0xfb) && |w| == 8 && w[4] == Lane(true, 0xfb) ==>
      Receive(r, w) == Receiver(true, [Lane(false, 0x55)] + w[5..], r.queue)
    ensures !r.inFrame && w[0] != Lane(true, 0xfb) && !(|w| == 8 && w[4] == Lane(true, 0xfb)) ==> Receive(r, w) == r
    ensures r.inFrame && i == |w| ==> Receive(r, w) == Receiver(true, r.d + w, r.queue)
    ensures r.inFrame && i < |w| ==>
      Receive(r, w) == Receiver(false, [], r.queue + [r.d + w[..i] + if w[i].val == 0xfd then [] else [w[i]]])
  {
    assert FirstControl(w) == i by { FirstIs(w, i); }
    if i < |w| { assert r.d + w[..i] + [] == r.d + w[..i]; }
  }

  lemma FirstIs(w: seq<Lane>, i: nat)
    requires i <= |w| && (forall j :: 0 <= j < i ==> !w[j].ctl) && (i < |w| ==> w[i].ctl)
    ensures FirstControl(w) == i
  {
    hide FirstControl;
  }

  /** The sink's loop over the lanes of a word. */
  class Sink {
    var inFrame: bool
    var d: seq<Lane>
    var queue: seq<seq<Lane>>

    function State(): Receiver
      reads this
    {
      Receiver(inFrame, d, queue)
    }

    constructor ()
      ensures State() == Receiver(false, [], [])
    {
      inFrame, d, queue := false, [], [];
    }

    method Accept(w: seq<Lane>)
      requires |w| == 4 || |w| == 8
      modifies this
      ensures State() == Receive(old(State()), w)
    {
      if !inFrame {
        if w[0] == Control(START) {
          inFrame, d := true, [DataLane(ETH_PRE)];
          for i := 1 to |w|
            invariant inFrame && queue == old(queue) && d == [DataLane(ETH_PRE)] + w[1..i]
          {
            d := d + [w[i]];
          }
          assert w[1..|w|] == w[1..];
        } else if |w| == 8 && w[4] == Control(START) {
          inFrame, d := true, [DataLane(ETH_PRE)];
          for i := 5 to |w|
            invariant inFrame && queue == old(queue) && d == [DataLane(ETH_PRE)] + w[5..i]
          {
            d := d + [w[i]];
          }
          assert w[5..|w|] == w[5..];
        }
      } else {
        for i := 0 to |w|
          invariant inFrame && queue == old(queue) && d == old(d) + w[..i] && i <= FirstControl(w)
        {
          if w[i].ctl {
            if w[i].val != TERM { d := d + [w[i]]; }
            queue := queue + [d];
            inFrame, d := false, [];
            return;
          } else {
            d := d + [w[i]];
          }
        }
      }
    }
  }

  /** The receiver while frame f arrives: its first j bytes are in, and rem is still to come. */
  ghost predicate Arriving(r: Receiver, f: seq<byte>, rem: seq<Lane>, done: seq<seq<Lane>>) {
    if rem == [] then r == Receiver(false, [], done + [Plain(f)])
    else exists j: nat :: j <= |f| && r == Receiver(true, Plain(f[..j]), done) && rem == Plain(f[j..]) + [Control(TERM)]
  }

  /** The first word of a frame. The frame must fill the word its start character is in. */
  lemma FirstWord(r: Receiver, f: seq<byte>, inLane4: bool, bw: nat)
    requires (bw == 4 && !inLane4) || bw == 8
    requires !r.inFrame && |f| >= (if inLane4 then 4 else bw) && f[0] == ETH_PRE
    ensures var rem := Sent(f, inLane4);
      Arriving(Receive(r, NextWord(rem, bw)), f, Rest(rem, bw), r.queue)
  {
    var rem := Sent(f, inLane4);
    var m := if inLane4 then 4 else bw;
    var w := NextWord(rem, bw);
    var r' := Receive(r, w);
    assert w[if inLane4 then 4 else 0] == Control(START);
    assert r'.d == Plain(f[..m]);
    assert Rest(rem, bw) == Plain(f[m..]) + [Control(TERM)];
    assert Rest(rem, bw) != [];
  }

  /** Bytes of a frame as lanes, in two parts. */
  lemma PlainSplit(f: seq<byte>, j: nat, n: nat)
    requires j + n <= |f|
    ensures Plain(f[..j]) + Plain(f[j..j + n]) == Plain(f[..j + n])
    ensures Plain(f[j..])[..n] == Plain(f[j..j + n])
  {
    var a, b := Plain(f[..j]) + Plain(f[j..j + n]), Plain(f[..j + n]);
    forall i | 0 <= i < j + n ensures a[i] == b[i] {
    }
  }

  /** A word of frame bytes only. */
  lemma FullWord(r: Receiver, x: seq<byte>)
    requires r.inFrame && (|x| == 4 || |x| == 8)
    ensures Receive(r, Plain(x)) == r.(d := r.d + Plain(x))
  {
    assert FirstControl(Plain(x)) == |x|;
  }

  /** The last word of a frame. */
  lemma LastWord(r: Receiver, x: seq<byte>, n: nat)
    requires r.inFrame && (|x| + 1 + n == 4 || |x| + 1 + n == 8)
    ensures Receive(r, Plain(x) + [Control(TERM)] + Idles(n)) == Receiver(false, [], r.queue + [r.d + Plain(x)])
  {
    var w := Plain(x) + [Control(TERM)] + Idles(n);
    assert w[|x|] == Control(TERM) && forall i :: 0 <= i < |x| ==> w[i] == DataLane(x[i]);
    assert FirstControl(w) == |x|;
    assert w[..|x|] == Plain(x);
  }

  /** A further word of a frame. */
  lemma FurtherWord(r: Receiver, f: seq<byte>, rem: seq<Lane>, done: seq<seq<Lane>>, bw: nat)
    requires (bw == 4 || bw == 8) && rem != [] && Arriving(r, f, rem, done)
    ensures Arriving(Receive(r, NextWord(rem, bw)), f, Rest(rem, bw), done)
  {
    hide Receive;
    var j: nat :| j <= |f| && r == Receiver(true, Plain(f[..j]), done) && rem == Plain(f[j..]) + [Control(TERM)];
    var n := |f| - j;
    if n >= bw {
      PlainSplit(f, j, bw);
      assert NextWord(rem, bw) == Plain(f[j..j + bw]);
      FullWord(r, f[j..j + bw]);
      assert Rest(rem, bw) == Plain(f[j + bw..]) + [Control(TERM)];
    } else {
      PlainSplit(f, j, n);
      assert f[j..j + n] == f[j..] && f[..j + n] == f;
      assert NextWord(rem, bw) == Plain(f[j..]) + [Control(TERM)] + Idles(bw - n - 1);
      LastWord(r, f[j..], bw - n - 1);
    }
  }
}
