/** 64b/66b block encoding and decoding (clause 49.2.4 of IEEE 802.3). A block has a two-bit header and 64 bits, the
    least significant first. The fields that the code shifts into place and combines never overlap, so a block is
    written here as their concatenation. */
module BlockCode {
  import opened Bits
  import opened Storage
  import opened Xgmii

  const SYNC_DATA: nat := 2
  const SYNC_CTRL: nat := 1

  const TYPE_CTRL: nat := 0x1e
  const TYPE_OS_4: nat := 0x2d
  const TYPE_START_4: nat := 0x33
  const TYPE_OS_START: nat := 0x66
  const TYPE_OS_04: nat := 0x55
  const TYPE_START_0: nat := 0x78
  const TYPE_OS_0: nat := 0x4b

  datatype Block = Block(header: nat, data: seq<bool>)

  /** The n low binary digits of x, the least significant first. */
  function Digits(x: nat, n: nat): (b: seq<bool>)
    ensures |b| == n
    decreases n
  {
    if n == 0 then [] else [x % 2 == 1] + Digits(x / 2, n - 1)
  }

  function Num(b: seq<bool>): nat {
    if b == [] then 0 else (if b[0] then 1 else 0) + 2 * Num(b[1..])
  }

  lemma {:induction false} NumOfBits(x: nat, n: nat)
    requires x < Pow2(n)
    ensures Num(Digits(x, n)) == x
    decreases n
  {
    if n > 0 { NumOfBits(x / 2, n - 1); }
  }

  /** The 7-bit code of a lane at a control position; anything without a code gives the error code. */
  function Code(l: Lane): nat {
    if !l.ctl then 0x1e
    else if l.val == IDLE then 0x00
    else if l.val == LPI then 0x06
    else if l.val == RES_0 then 0x2d
    else if l.val == RES_1 then 0x33
    else if l.val == RES_2 then 0x4b
    else if l.val == RES_3 then 0x55
    else if l.val == RES_4 then 0x66
    else if l.val == RES_5 then 0x78
    else 0x1e
  }

  /** The control character of a 7-bit code. */
  function Char(code: nat): byte {
    if code == 0x00 then IDLE
    else if code == 0x06 then LPI
    else if code == 0x2d then RES_0
    else if code == 0x33 then RES_1
    else if code == 0x4b then RES_2
    else if code == 0x55 then RES_3
    else if code == 0x66 then RES_4
    else if code == 0x78 then RES_5
    else ERROR
  }

  /** A control character that has a code of its own. */
  predicate Coded(l: Lane) { l.ctl && Char(Code(l)) == l.val }

  type Word = w: seq<Lane> | |w| == 8 witness seq(8, _ => Lane(false, 0))

  predicate NoCtl(w: seq<Lane>) { forall i :: 0 <= i < |w| ==> !w[i].ctl }
  predicate AllCoded(w: seq<Lane>) { forall i :: 0 <= i < |w| ==> Coded(w[i]) }

  /** The lanes' bytes, eight bits each. */
  function Bytes(w: seq<Lane>): (b: seq<bool>)
    ensures |b| == 8 * |w|
  {
    if w == [] then [] else Digits(w[0].val as nat, 8) + Bytes(w[1..])
  }

  /** The lanes' control codes, seven bits each. */
  function Codes(w: seq<Lane>): (b: seq<bool>)
    ensures |b| == 7 * |w|
  {
    if w == [] then [] else Digits(Code(w[0]), 7) + Codes(w[1..])
  }

  predicate Is(l: Lane, c: byte) { l.ctl && l.val == c }

  predicate Ordered(l: Lane) { Is(l, SEQ_OS) || Is(l, SIG_OS) }

  /** The O code of an ordered set. */
  function OCode(l: Lane): nat { if l.val == SIG_OS then 0xf else 0x0 }

  function OChar(code: nat): byte { if code == 0 then SEQ_OS else if code == 0xf then SIG_OS else ERROR }

  /** The block type for a terminate character in lane k. */
  function TermType(k: nat): nat
    requires k < 8
  {
    [0x87, 0x99, 0xaa, 0xb4, 0xcc, 0xd2, 0xe1, 0xff][k]
  }

  /** block_type_term_lane: the lane of the terminate character, 8 when the block has none. */
  function TermLane(bt: nat): (k: nat)
    ensures k < 8 ==> bt == TermType(k)
    ensures k == 8 ==> forall j :: 0 <= j < 8 ==> bt != TermType(j)
    ensures k <= 8
  {
    if bt == 0x87 then 0 else if bt == 0x99 then 1 else if bt == 0xaa then 2 else if bt == 0xb4 then 3
    else if bt == 0xcc then 4 else if bt == 0xd2 then 5 else if bt == 0xe1 then 6 else if bt == 0xff then 7 else 8
  }

  /** The first lane that holds a terminate character with data before it, 8 when there is none. */
  function TermAt(w: Word): (k: nat)
    ensures k <= 8 && (k < 8 ==> Is(w[k], TERM) && NoCtl(w[..k]))
  {
    if Is(w[0], TERM) then 0
    else if Is(w[1], TERM) && NoCtl(w[..1]) then 1
    else if Is(w[2], TERM) && NoCtl(w[..2]) then 2
    else if Is(w[3], TERM) && NoCtl(w[..3]) then 3
    else if Is(w[4], TERM) && NoCtl(w[..4]) then 4
    else if Is(w[5], TERM) && NoCtl(w[..5]) then 5
    else if Is(w[6], TERM) && NoCtl(w[..6]) then 6
    else if Is(w[7], TERM) && NoCtl(w[..7]) then 7
    else 8
  }

  function CtrlBlock(bt: nat, fields: seq<bool>): Block { Block(SYNC_CTRL, Digits(bt, 8) + fields) }

  /** The encoder of the source: one block for eight lanes. The OS_0 form keeps the low lanes' codes, of which the last
      four bits fall off the end. */
  function Encode(w: Word): (b: Block)
    ensures |b.data| == 64
  {
    if NoCtl(w) then Block(SYNC_DATA, Bytes(w))
    else if Is(w[0], START) && NoCtl(w[1..]) then CtrlBlock(TYPE_START_0, Bytes(w[1..]))
    else if Is(w[4], START) && NoCtl(w[5..]) then
      if Ordered(w[0]) && NoCtl(w[1..4]) then
        CtrlBlock(TYPE_OS_START, Bytes(w[1..4]) + Digits(OCode(w[0]), 4) + Digits(0, 4) + Bytes(w[5..]))
      else
        CtrlBlock(TYPE_START_4, Codes(w[..4]) + Digits(0, 4) + Bytes(w[5..]))
    else if Ordered(w[0]) && NoCtl(w[1..4]) then
      if Ordered(w[4]) && NoCtl(w[5..]) then
        CtrlBlock(TYPE_OS_04, Bytes(w[1..4]) + Digits(OCode(w[0]), 4) + Digits(OCode(w[4]), 4) + Bytes(w[5..]))
      else
        CtrlBlock(TYPE_OS_0, Bytes(w[1..4]) + Digits(OCode(w[0]), 4) + Digits(0, 4) + Codes(w[..4])[..24])
    else if Ordered(w[4]) && NoCtl(w[5..]) then
      CtrlBlock(TYPE_OS_4, Codes(w[..4]) + Digits(OCode(w[4]), 4) + Bytes(w[5..]))
    else
      var k := TermAt(w);
      if k < 8 then CtrlBlock(TermType(k), Bytes(w[..k]) + Digits(0, 7 - k) + Codes(w[k + 1..]))
      else CtrlBlock(TYPE_CTRL, Codes(w))
  }

  /** n data lanes from the bytes at bit p on. */
  function DataLanes(d: seq<bool>, p: nat, n: nat): (w: seq<Lane>)
    requires p + 8 * n <= |d|
    ensures |w| == n
    decreases n
  {
    if n == 0 then [] else [Lane(false, ByteVal(d[p..p + 8]))] + DataLanes(d, p + 8, n - 1)
  }

  function ByteVal(b: seq<bool>): byte
    requires |b| == 8
  {
    Num(b) % 0x100
  }

  /** n control lanes from the codes at bit p on. */
  function ControlLanes(d: seq<bool>, p: nat, n: nat): (w: seq<Lane>)
    requires p + 7 * n <= |d|
    ensures |w| == n
    decreases n
  {
    if n == 0 then [] else [Lane(true, Char(Num(d[p..p + 7])))] + ControlLanes(d, p + 7, n - 1)
  }

  /** The decoder of the sink: the control codes of lane i stand at bit 8 + 7 * i, the bytes of lane i at 8 + 8 * i. */
  function Decode(b: Block): (w: Word)
    requires |b.data| == 64
  {
    var d := b.data;
    var error := seq(8, _ => Lane(true, ERROR));
    if b.header == SYNC_DATA then DataLanes(d, 0, 8)
    else if b.header == SYNC_CTRL then
      var bt := Num(d[..8]);
      var o0, o4 := Lane(true, OChar(Num(d[32..36]))), Lane(true, OChar(Num(d[36..40])));
      if bt == TYPE_CTRL then ControlLanes(d, 8, 8)
      else if bt == TYPE_OS_4 then ControlLanes(d, 8, 4) + [o4] + DataLanes(d, 40, 3)
      else if bt == TYPE_START_4 then ControlLanes(d, 8, 4) + [Lane(true, START)] + DataLanes(d, 40, 3)
      else if bt == TYPE_OS_START then [o0] + DataLanes(d, 8, 3) + [Lane(true, START)] + DataLanes(d, 40, 3)
      else if bt == TYPE_OS_04 then [o0] + DataLanes(d, 8, 3) + [o4] + DataLanes(d, 40, 3)
      else if bt == TYPE_START_0 then [Lane(true, START)] + DataLanes(d, 8, 7)
      else if bt == TYPE_OS_0 then
        var o := Lane(true, if Num(d[32..36]) == 0 || Num(d[32..36]) == 0xf then SEQ_OS else ERROR);
        [o] + DataLanes(d, 8, 3) + ControlLanes(d, 36, 4)
      else
        var k := TermLane(bt);
        if k < 8 then DataLanes(d, 8, k) + [Lane(true, TERM)] + ControlLanes(d, 15 + 7 * k, 7 - k)
        else error
    else error
  }

  /** What a lane at a control position turns into. */
  function Recoded(w: seq<Lane>): (r: seq<Lane>)
    ensures |r| == |w|
    ensures r == w <==> AllCoded(w)
  {
    if w == [] then [] else
      var r := [Lane(true, Char(Code(w[0])))] + Recoded(w[1..]);
      assert AllCoded(w) <==> Coded(w[0]) && AllCoded(w[1..]);
      assert r == w <==> r[0] == w[0] && r[1..] == w[1..];
      r
  }

  lemma ByteBits(x: byte)
    ensures ByteVal(Digits(x as nat, 8)) == x
  {
    assert Pow2(8) == 256;
    NumOfBits(x as nat, 8);
  }

  lemma CodeBits(l: Lane)
    ensures Num(Digits(Code(l), 7)) == Code(l)
  {
    assert Pow2(7) == 128;
    NumOfBits(Code(l), 7);
  }

  /** A field between others. */
  lemma Middle(pre: seq<bool>, x: seq<bool>, rest: seq<bool>, post: seq<bool>)
    ensures pre + (x + rest) + post == pre + x + rest + post
    ensures (pre + (x + rest) + post)[|pre|..|pre| + |x|] == x
  {
  }

  /** Data bytes anywhere in a block come back as the lanes they were. */
  lemma {:induction false} BytesBack(pre: seq<bool>, w: seq<Lane>, post: seq<bool>)
    requires NoCtl(w)
    ensures DataLanes(pre + Bytes(w) + post, |pre|, |w|) == w
    decreases |w|
  {
    hide Digits, ByteVal;
    if w != [] {
      var x := Digits(w[0].val as nat, 8);
      Middle(pre, x, Bytes(w[1..]), post);
      ByteBits(w[0].val);
      BytesBack(pre + x, w[1..], post);
    }
  }

  /** Control codes anywhere in a block come back as the characters they stand for. */
  lemma {:induction false} CodesBack(pre: seq<bool>, w: seq<Lane>, post: seq<bool>)
    ensures ControlLanes(pre + Codes(w) + post, |pre|, |w|) == Recoded(w)
    decreases |w|
  {
    hide Digits, Num, Code, Char;
    if w != [] {
      var x := Digits(Code(w[0]), 7);
      Middle(pre, x, Codes(w[1..]), post);
      CodeBits(w[0]);
      CodesBack(pre + x, w[1..], post);
    }
  }

  lemma TypeBack(bt: nat, fields: seq<bool>)
    requires bt < 0x100
    ensures Num((Digits(bt, 8) + fields)[..8]) == bt
  {
    assert Pow2(8) == 256;
    NumOfBits(bt, 8);
    assert (Digits(bt, 8) + fields)[..8] == Digits(bt, 8);
  }

  lemma OCodeBack(l: Lane)
    requires Ordered(l)
    ensures Lane(true, OChar(Num(Digits(OCode(l), 4)))) == l
  {
    assert Pow2(4) == 16;
    NumOfBits(OCode(l), 4);
  }

  lemma DataBack(w: Word)
    requires NoCtl(w)
    ensures Decode(Encode(w)) == w
  {
    hide Bytes, DataLanes, Num, Digits;
    BytesBack([], w, []);
    assert [] + Bytes(w) + [] == Bytes(w);
  }

  lemma Start0Back(w: Word)
    requires Is(w[0], START) && NoCtl(w[1..])
    ensures Decode(Encode(w)) == w
  {
    hide Bytes, DataLanes, Num, Digits;
    TypeBack(TYPE_START_0, Bytes(w[1..]));
    BytesBack(Digits(TYPE_START_0, 8), w[1..], []);
    assert Digits(TYPE_START_0, 8) + Bytes(w[1..]) + [] == Encode(w).data;
    assert w == [w[0]] + w[1..];
  }

  lemma EncodeTerm(w: Word, k: nat)
    requires k < 8 && Is(w[k], TERM) && NoCtl(w[..k]) && !(NoCtl(w[5..]) && (Is(w[4], START) || Ordered(w[4])))
    ensures Encode(w) == CtrlBlock(TermType(k), Bytes(w[..k]) + Digits(0, 7 - k) + Codes(w[k + 1..]))
  {
    hide Bytes, Codes, Digits, TermAt;
    TermFirst(w, k);
    TermNotFront(w, k);
  }

  /** A terminate in lane k with data before it is in the way of the forms that begin with a start or an ordered set. */
  lemma TermNotFront(w: Word, k: nat)
    requires k < 8 && Is(w[k], TERM) && NoCtl(w[..k])
    ensures !NoCtl(w) && !(Is(w[0], START) && NoCtl(w[1..])) && !(Ordered(w[0]) && NoCtl(w[1..4]) && k < 4)
    ensures k > 0 ==> !w[0].ctl
    ensures !Is(w[k], START) && !Ordered(w[k])
  {
    if k > 0 { assert w[k] == w[1..][k - 1] && !w[..k][0].ctl; }
    if 0 < k < 4 { assert w[1..4][k - 1] == w[k]; }
  }

  lemma TermFirst(w: Word, k: nat)
    requires k < 8 && Is(w[k], TERM) && NoCtl(w[..k])
    ensures TermAt(w) == k
  {
  }

  lemma DecodeTerm(b: Block, k: nat)
    requires |b.data| == 64 && b.header == SYNC_CTRL && k < 8 && Num(b.data[..8]) == TermType(k)
    ensures Decode(b) == DataLanes(b.data, 8, k) + [Lane(true, TERM)] + ControlLanes(b.data, 15 + 7 * k, 7 - k)
  {
    hide DataLanes, ControlLanes, Num;
  }

  lemma TypeRange(k: nat)
    requires k < 8
    ensures TermType(k) < 0x100
  {
  }

  /** Terminate in lane k. */
  lemma TermBack(w: Word, k: nat)
    requires k < 8 && Is(w[k], TERM) && NoCtl(w[..k]) && !(NoCtl(w[5..]) && (Is(w[4], START) || Ordered(w[4])))
    ensures Decode(Encode(w)) == w <==> AllCoded(w[k + 1..])
  {
    hide Bytes, DataLanes, Codes, ControlLanes, Num, Digits, Encode, Decode, TermType, AllCoded, Recoded;
    EncodeTerm(w, k);
    TypeRange(k);
    var bt, bytes, codes := Digits(TermType(k), 8), Bytes(w[..k]), Codes(w[k + 1..]);
    var zeros := Digits(0, 7 - k);
    TypeBack(TermType(k), bytes + zeros + codes);
    BytesBack(bt, w[..k], zeros + codes);
    CodesBack(bt + bytes + zeros, w[k + 1..], []);
    assert Encode(w).data == bt + bytes + (zeros + codes) == bt + bytes + zeros + codes + [];
    DecodeTerm(Encode(w), k);
    var r := Recoded(w[k + 1..]);
    assert w == w[..k] + [w[k]] + w[k + 1..];
    assert (w[..k] + [w[k]] + r)[k + 1..] == r;
  }

  lemma ControlBack(w: Word)
    requires TermAt(w) == 8 && !NoCtl(w) && !(Is(w[0], START) && NoCtl(w[1..]))
    requires !(Ordered(w[0]) && NoCtl(w[1..4])) && !(NoCtl(w[5..]) && (Is(w[4], START) || Ordered(w[4])))
    ensures Decode(Encode(w)) == w <==> AllCoded(w)
  {
    hide Bytes, DataLanes, Codes, ControlLanes, Num, Digits;
    var bt := Digits(TYPE_CTRL, 8);
    TypeBack(TYPE_CTRL, Codes(w));
    CodesBack(bt, w, []);
    assert bt + Codes(w) + [] == Encode(w).data;
  }

  /** The fields of the forms that end with three bytes, from bit 40 on. */
  lemma LastThree(front: seq<bool>, w: Word)
    requires |front| == 40 && NoCtl(w[5..])
    ensures DataLanes(front + Bytes(w[5..]), 40, 3) == w[5..]
  {
    BytesBack(front, w[5..], []);
    assert front + Bytes(w[5..]) + [] == front + Bytes(w[5..]);
  }

  /** The forms that begin with four control characters: START_4 and OS_4. */
  lemma FrontCodes(w: Word, bt: nat, four: seq<bool>)
    requires NoCtl(w[5..]) && bt < 0x100 && |four| == 4
    ensures var d := Digits(bt, 8) + (Codes(w[..4]) + four + Bytes(w[5..]));
      && |d| == 64 && Num(d[..8]) == bt && d[36..40] == four
      && ControlLanes(d, 8, 4) == Recoded(w[..4]) && DataLanes(d, 40, 3) == w[5..]
  {
    hide Bytes, DataLanes, Codes, ControlLanes, Num, Digits;
    var t := Digits(bt, 8);
    TypeBack(bt, Codes(w[..4]) + four + Bytes(w[5..]));
    CodesBack(t, w[..4], four + Bytes(w[5..]));
    LastThree(t + Codes(w[..4]) + four, w);
    var d := t + (Codes(w[..4]) + four + Bytes(w[5..]));
    assert d == t + Codes(w[..4]) + (four + Bytes(w[5..])) == t + Codes(w[..4]) + four + Bytes(w[5..]);
    assert d[36..40] == four;
  }

  /** The forms that begin with an ordered set: OS_START, OS_04 and OS_0. */
  lemma FrontSet(w: Word, bt: nat, four: seq<bool>, rest: seq<bool>)
    requires Ordered(w[0]) && NoCtl(w[1..4]) && bt < 0x100 && |four| == 4 && |rest| == 24
    ensures var d := Digits(bt, 8) + (Bytes(w[1..4]) + Digits(OCode(w[0]), 4) + four + rest);
      && |d| == 64 && Num(d[..8]) == bt && Num(d[32..36]) == OCode(w[0]) && d[36..40] == four && d[40..] == rest
      && Lane(true, OChar(Num(d[32..36]))) == w[0] && DataLanes(d, 8, 3) == w[1..4]
  {
    hide Bytes, DataLanes, Num, Digits;
    var t, o := Digits(bt, 8), Digits(OCode(w[0]), 4);
    TypeBack(bt, Bytes(w[1..4]) + o + four + rest);
    BytesBack(t, w[1..4], o + four + rest);
    OCodeBack(w[0]);
    OCodeNum(w[0]);
    var d := t + (Bytes(w[1..4]) + o + four + rest);
    assert d == t + Bytes(w[1..4]) + (o + four + rest);
    assert d[32..36] == o && d[36..40] == four && d[40..] == rest;
  }

  lemma OCodeNum(l: Lane)
    ensures Num(Digits(OCode(l), 4)) == OCode(l)
  {
    assert Pow2(4) == 16;
    NumOfBits(OCode(l), 4);
  }

  lemma OsStartBack(w: Word)
    requires Ordered(w[0]) && NoCtl(w[1..4]) && Is(w[4], START) && NoCtl(w[5..])
    ensures Decode(Encode(w)) == w
  {
    hide Bytes, DataLanes, Codes, ControlLanes, Num, Digits;
    var z := Digits(0, 4);
    FrontSet(w, TYPE_OS_START, z, Bytes(w[5..]));
    LastThree(Digits(TYPE_OS_START, 8) + (Bytes(w[1..4]) + Digits(OCode(w[0]), 4) + z), w);
    assert Encode(w).data == Digits(TYPE_OS_START, 8) + (Bytes(w[1..4]) + Digits(OCode(w[0]), 4) + z) + Bytes(w[5..]);
    assert w == [w[0]] + w[1..4] + [w[4]] + w[5..];
  }

  lemma Start4Back(w: Word)
    requires Is(w[4], START) && NoCtl(w[5..]) && !(Ordered(w[0]) && NoCtl(w[1..4]))
    ensures Decode(Encode(w)) == w <==> AllCoded(w[..4])
  {
    hide Bytes, DataLanes, Codes, ControlLanes, Num, Digits;
    FrontCodes(w, TYPE_START_4, Digits(0, 4));
    assert w == w[..4] + [w[4]] + w[5..];
  }

  lemma Os4Back(w: Word)
    requires Ordered(w[4]) && NoCtl(w[5..]) && !(Ordered(w[0]) && NoCtl(w[1..4]))
    ensures Decode(Encode(w)) == w <==> AllCoded(w[..4])
  {
    hide Bytes, DataLanes, Codes, ControlLanes, Num, Digits;
    FrontCodes(w, TYPE_OS_4, Digits(OCode(w[4]), 4));
    OCodeBack(w[4]);
    assert w == w[..4] + [w[4]] + w[5..];
  }

  lemma Os04Back(w: Word)
    requires Ordered(w[0]) && NoCtl(w[1..4]) && Ordered(w[4]) && NoCtl(w[5..])
    ensures Decode(Encode(w)) == w
  {
    hide Bytes, DataLanes, Codes, ControlLanes, Num, Digits;
    var o := Digits(OCode(w[4]), 4);
    FrontSet(w, TYPE_OS_04, o, Bytes(w[5..]));
    OCodeBack(w[4]);
    LastThree(Digits(TYPE_OS_04, 8) + (Bytes(w[1..4]) + Digits(OCode(w[0]), 4) + o), w);
    assert Encode(w).data == Digits(TYPE_OS_04, 8) + (Bytes(w[1..4]) + Digits(OCode(w[0]), 4) + o) + Bytes(w[5..]);
    assert w == [w[0]] + w[1..4] + [w[4]] + w[5..];
  }


  /** The codes of an ordered set and three data lanes are error codes. */
  lemma FourErrorCodes(w: Word)
    requires Ordered(w[0]) && NoCtl(w[1..4])
    ensures var e := [false, true, true, true, true, false, false];
      Codes(w[..4]) == e + e + e + e
  {
    var e := [false, true, true, true, true, false, false];
    assert Digits(0x1e, 7) == e;
    forall i | 0 <= i < 4 ensures Code(w[i]) == 0x1e {
      if i > 0 { assert w[i] == w[1..4][i - 1]; }
    }
    assert w[..4][1..][1..][1..] == [w[3]] && w[..4][1..][1..] == [w[2], w[3]] && w[..4][1..] == [w[1], w[2], w[3]];
    assert Codes([w[3]]) == e;
    assert Codes([w[2], w[3]]) == e + e;
    assert Codes([w[1], w[2], w[3]]) == e + e + e;
  }

  const FRONT: seq<bool> := [false, false, false, false, false, true, true]
  const BETWEEN: seq<bool> := [true, true, false, false, false, true, true]

  /** Four zeros and the front of four error codes, cut into sevens. */
  lemma CutSevens()
    ensures var e := [false, true, true, true, true, false, false];
      [false, false, false, false] + (e + e + e + e)[..24] == FRONT + BETWEEN + BETWEEN + BETWEEN
  {
  }

  /** The control lanes read from four zeros followed by the front of four error codes. */
  lemma ErrorLanes(d: seq<bool>)
    requires |d| == 64 && d[36..] == FRONT + BETWEEN + BETWEEN + BETWEEN
    ensures ControlLanes(d, 36, 4) == [Lane(true, ERROR), Lane(true, ERROR), Lane(true, ERROR), Lane(true, ERROR)]
  {
    hide Num;
    assert d[36..43] == d[36..][0..7] == FRONT;
    assert d[43..50] == d[36..][7..14] == BETWEEN;
    assert d[50..57] == d[36..][14..21] == BETWEEN;
    assert d[57..64] == d[36..][21..28] == BETWEEN;
    SevenBits(false, false);
    SevenBits(true, true);
    assert ControlLanes(d, 57, 1) == [Lane(true, ERROR)];
    assert ControlLanes(d, 50, 2) == [Lane(true, ERROR), Lane(true, ERROR)];
    assert ControlLanes(d, 43, 3) == [Lane(true, ERROR), Lane(true, ERROR), Lane(true, ERROR)];
  }

  lemma SevenBits(a: bool, b: bool)
    ensures Num([a, b, false, false, false, true, true]) == 96 + (if a then 1 else 0) + (if b then 2 else 0)
  {
    assert Num([true]) == 1;
    assert Num([true, true]) == 3 by { assert [true, true][1..] == [true]; }
    assert Num([false, true, true]) == 6 by { assert [false, true, true][1..] == [true, true]; }
    assert Num([false, false, true, true]) == 12 by { assert [false, false, true, true][1..] == [false, true, true]; }
    var x := [false, false, false, true, true];
    assert Num(x) == 24 by { assert x[1..] == [false, false, true, true]; }
    assert Num([b] + x) == 48 + (if b then 1 else 0) by { assert ([b] + x)[1..] == x; }
    assert [a, b, false, false, false, true, true] == [a] + ([b] + x);
    assert ([a] + ([b] + x))[1..] == [b] + x;
  }

  /** The OS_0 form loses its upper four lanes and the kind of its ordered set: it decodes to a sequence ordered set and
      four error characters, whatever was sent. */
  lemma Os0Lost(w: Word)
    requires Ordered(w[0]) && NoCtl(w[1..4])
    requires !(Is(w[4], START) && NoCtl(w[5..])) && !(Ordered(w[4]) && NoCtl(w[5..]))
    ensures Decode(Encode(w)) ==
      [Lane(true, SEQ_OS)] + w[1..4] + [Lane(true, ERROR), Lane(true, ERROR), Lane(true, ERROR), Lane(true, ERROR)]
  {
    hide Bytes, DataLanes, Codes, ControlLanes, Num, Digits, Encode, Decode, CtrlBlock, OChar, OCode;
    var z, rest := Digits(0, 4), Codes(w[..4])[..24];
    Os0Encoded(w);
    FrontSet(w, TYPE_OS_0, z, rest);
    FourErrorCodes(w);
    FourZeros();
    var d := Encode(w).data;
    SplitAt(d);
    CutSevens();
    ErrorLanes(d);
    Os0Decoded(d, w[0]);
  }

  lemma SplitAt(d: seq<bool>)
    requires |d| == 64
    ensures d[36..] == d[36..40] + d[40..]
  {
  }

  lemma Os0Encoded(w: Word)
    requires Ordered(w[0]) && NoCtl(w[1..4])
    requires !(Is(w[4], START) && NoCtl(w[5..])) && !(Ordered(w[4]) && NoCtl(w[5..]))
    ensures Encode(w) == Block(SYNC_CTRL,
      Digits(TYPE_OS_0, 8) + (Bytes(w[1..4]) + Digits(OCode(w[0]), 4) + Digits(0, 4) + Codes(w[..4])[..24]))
  {
    hide Bytes, Codes, Digits;
    assert w[0].ctl;
  }

  lemma Os0Decoded(d: seq<bool>, l: Lane)
    requires |d| == 64 && Num(d[..8]) == TYPE_OS_0 && Num(d[32..36]) == OCode(l)
    ensures Decode(Block(SYNC_CTRL, d)) == [Lane(true, SEQ_OS)] + DataLanes(d, 8, 3) + ControlLanes(d, 36, 4)
  {
    hide Num, DataLanes, ControlLanes;
  }

  lemma FourZeros()
    ensures Digits(0, 4) == [false, false, false, false]
  {
  }

  /** The words that the block code can carry: data; a start in lane 0, or in lane 4 behind control characters or an
      ordered set; ordered sets in lane 4 or in both halves; a terminate in any lane with control characters behind it;
      control characters only. And, by accident, one kind of OS_0 word. */
  ghost predicate Carried(w: Word) {
    var set0, set4 := Ordered(w[0]) && NoCtl(w[1..4]), Ordered(w[4]) && NoCtl(w[5..]);
    if NoCtl(w) || (Is(w[0], START) && NoCtl(w[1..])) then true
    else if Is(w[4], START) && NoCtl(w[5..]) then set0 || AllCoded(w[..4])
    else if set0 then set4 || (Is(w[0], SEQ_OS) && forall i :: 4 <= i < 8 ==> Is(w[i], ERROR))
    else if set4 then AllCoded(w[..4])
    else if TermAt(w) < 8 then AllCoded(w[TermAt(w) + 1..])
    else AllCoded(w)
  }

  /** Decoding gives back exactly the words that can be carried. */
  lemma RoundTrip(w: Word)
    ensures Decode(Encode(w)) == w <==> Carried(w)
  {
    hide Encode, Decode, TermAt;
    var set0, set4 := Ordered(w[0]) && NoCtl(w[1..4]), Ordered(w[4]) && NoCtl(w[5..]);
    if NoCtl(w) {
      DataBack(w);
    } else if Is(w[0], START) && NoCtl(w[1..]) {
      Start0Back(w);
    } else if Is(w[4], START) && NoCtl(w[5..]) {
      if set0 { OsStartBack(w); } else { Start4Back(w); }
    } else if set0 {
      if set4 { Os04Back(w); } else { Os0Lost(w); assert w == [w[0]] + w[1..4] + w[4..]; }
    } else if set4 {
      Os4Back(w);
    } else if TermAt(w) < 8 {
      TermBack(w, TermAt(w));
    } else {
      ControlBack(w);
    }
  }
}
