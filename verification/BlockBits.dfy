/** Where every field of a 64b/66b block stands, bit by bit and in numbers (clause 49.2.4 of IEEE 802.3). Characters,
    codes and block types are written out here, so that what goes over the line is said apart from the encoder. */
module BlockBits {
  import opened Bits
  import opened Storage
  import opened Xgmii
  import opened BlockCode

  /** The n bits of d from bit p on are the binary digits of x, the least significant first. */
  ghost predicate Spells(d: seq<bool>, p: nat, n: nat, x: nat) {
    && p + n <= |d| && n <= 8
    && forall j :: 0 <= j < n ==> d[p + j] == (x / [1, 2, 4, 8, 16, 32, 64, 128][j] % 2 == 1)
  }

  lemma {:induction false} DigitAt(x: nat, n: nat, j: nat)
    requires j < n
    ensures Digits(x, n)[j] == (x / Pow2(j) % 2 == 1)
    decreases j
  {
    if j > 0 {
      DigitAt(x / 2, n - 1, j - 1);
      HalfDiv(x, Pow2(j - 1));
    }
  }

  /** A field put into place with Digits is spelled there. */
  lemma Spelled(d: seq<bool>, p: nat, n: nat, x: nat)
    requires n <= 8 && p + n <= |d| && d[p..p + n] == Digits(x, n)
    ensures Spells(d, p, n, x)
  {
    hide Digits, Pow2;
    Powers();
    forall j | 0 <= j < n ensures d[p + j] == (x / [1, 2, 4, 8, 16, 32, 64, 128][j] % 2 == 1) {
      assert d[p + j] == d[p..p + n][j];
      DigitAt(x, n, j);
    }
  }

  /** The number read from a field is the only one that the field spells. */
  lemma ReadField(d: seq<bool>, p: nat, n: nat, x: nat)
    requires n <= 8 && p + n <= |d| && x < Pow2(n)
    ensures Spells(d, p, n, Num(d[p..p + n]))
    ensures Spells(d, p, n, x) <==> Num(d[p..p + n]) == x
  {
    hide Digits, Num, Spells;
    var f := d[p..p + n];
    DigitsOfNum(f);
    Spelled(d, p, n, Num(f));
    if Spells(d, p, n, x) {
      SpelledDigits(d, p, n, x);
      NumOfBits(x, n);
    }
  }

  lemma SpelledDigits(d: seq<bool>, p: nat, n: nat, x: nat)
    requires Spells(d, p, n, x)
    ensures d[p..p + n] == Digits(x, n)
  {
    hide Digits, Pow2;
    Powers();
    forall j | 0 <= j < n ensures d[p..p + n][j] == Digits(x, n)[j] {
      DigitAt(x, n, j);
      assert d[p + j] == (x / [1, 2, 4, 8, 16, 32, 64, 128][j] % 2 == 1);
    }
  }

  lemma {:induction false} DigitsOfNum(b: seq<bool>)
    ensures Digits(Num(b), |b|) == b
    decreases |b|
  {
    if b != [] { DigitsOfNum(b[1..]); }
  }

  lemma {:induction false} NumBound(b: seq<bool>)
    ensures Num(b) < Pow2(|b|)
    decreases |b|
  {
    if b != [] { NumBound(b[1..]); }
  }

  lemma {:induction false} BytesAt(w: seq<Lane>, i: nat)
    requires i < |w|
    ensures Bytes(w)[8 * i..8 * i + 8] == Digits(w[i].val as nat, 8)
    decreases i
  {
    hide Digits;
    if i > 0 {
      BytesAt(w[1..], i - 1);
      assert Bytes(w)[8 * i..8 * i + 8] == Bytes(w[1..])[8 * (i - 1)..8 * (i - 1) + 8];
    }
  }

  lemma {:induction false} CodesAt(w: seq<Lane>, i: nat)
    requires i < |w|
    ensures Codes(w)[7 * i..7 * i + 7] == Digits(Code(w[i]), 7)
    decreases i
  {
    hide Digits, Code;
    if i > 0 {
      CodesAt(w[1..], i - 1);
      assert Codes(w)[7 * i..7 * i + 7] == Codes(w[1..])[7 * (i - 1)..7 * (i - 1) + 7];
    }
  }

  lemma SubField(d: seq<bool>, p: nat, q: nat, a: nat, b: nat)
    requires p <= q <= |d| && a <= b <= q - p
    ensures d[p..q][a..b] == d[p + a..p + b]
  {
    forall j | 0 <= j < b - a ensures d[p..q][a..b][j] == d[p + a..p + b][j] {
    }
  }

  /** The bytes of the lanes, eight bits each from bit p on. */
  lemma ByteField(d: seq<bool>, p: nat, w: seq<Lane>, i: nat)
    requires i < |w| && p + 8 * |w| <= |d| && d[p..p + 8 * |w|] == Bytes(w)
    ensures Spells(d, p + 8 * i, 8, w[i].val as nat)
  {
    hide Digits, Spells, Bytes;
    BytesAt(w, i);
    SubField(d, p, p + 8 * |w|, 8 * i, 8 * i + 8);
    Spelled(d, p + 8 * i, 8, w[i].val as nat);
  }

  /** The codes of the lanes, seven bits each from bit p on. */
  lemma CodeField(d: seq<bool>, p: nat, w: seq<Lane>, i: nat)
    requires i < |w| && p + 7 * |w| <= |d| && d[p..p + 7 * |w|] == Codes(w)
    ensures Spells(d, p + 7 * i, 7, Code(w[i]))
  {
    hide Digits, Spells, Codes, Code;
    CodesAt(w, i);
    SubField(d, p, p + 7 * |w|, 7 * i, 7 * i + 7);
    Spelled(d, p + 7 * i, 7, Code(w[i]));
  }

  /** The data bytes of lanes from..to in a block: lane i stands at bit 8 * i, or one byte behind it. */
  lemma LaneBytes(w: Word, from: nat, to: nat, d: seq<bool>, behind: nat)
    requires from <= to <= 8 && 8 * (to + behind) <= |d|
    requires d[8 * (from + behind)..8 * (to + behind)] == Bytes(w[from..to])
    ensures forall i :: from <= i < to ==> Spells(d, 8 * (i + behind), 8, w[i].val as nat)
  {
    hide Spells, Bytes;
    forall i | from <= i < to ensures Spells(d, 8 * (i + behind), 8, w[i].val as nat) {
      ByteField(d, 8 * (from + behind), w[from..to], i - from);
    }
  }

  /** The codes of lanes from..to, from bit 8 + 7 * from on. */
  lemma LaneCodes(w: Word, from: nat, to: nat, d: seq<bool>)
    requires from <= to <= 8 && 8 + 7 * to <= |d| && d[8 + 7 * from..8 + 7 * to] == Codes(w[from..to])
    ensures forall i :: from <= i < to ==> Spells(d, 8 + 7 * i, 7, Code(w[i]))
  {
    hide Spells, Codes, Code;
    forall i | from <= i < to ensures Spells(d, 8 + 7 * i, 7, Code(w[i])) {
      CodeField(d, 8 + 7 * from, w[from..to], i - from);
    }
  }

  /** The seven-bit codes: nine control characters have one, everything else is sent as an error. */
  lemma CodeIs(l: Lane)
    ensures l == Lane(true, 0x07) ==> Code(l) == 0x00
    ensures l == Lane(true, 0x06) ==> Code(l) == 0x06
    ensures l == Lane(true, 0x1c) ==> Code(l) == 0x2d
    ensures l == Lane(true, 0x3c) ==> Code(l) == 0x33
    ensures l == Lane(true, 0x7c) ==> Code(l) == 0x4b
    ensures l == Lane(true, 0xbc) ==> Code(l) == 0x55
    ensures l == Lane(true, 0xdc) ==> Code(l) == 0x66
    ensures l == Lane(true, 0xf7) ==> Code(l) == 0x78
    ensures !(l.ctl && l.val in [0x07, 0x06, 0x1c, 0x3c, 0x7c, 0xbc, 0xdc, 0xf7]) ==> Code(l) == 0x1e
  {
  }

  /** The characters of the seven-bit codes. */
  lemma CharIs(code: nat)
    ensures code < 0x80 ==> Char(code) as nat == match code
      case 0x00 => 0x07
      case 0x06 => 0x06
      case 0x2d => 0x1c
      case 0x33 => 0x3c
      case 0x4b => 0x7c
      case 0x55 => 0xbc
      case 0x66 => 0xdc
      case 0x78 => 0xf7
      case _ => 0xfe
  {
  }

  /** The two sync headers: 2 for a word without control characters, 1 for all others. */
  lemma Header(w: Word)
    ensures Encode(w).header == if forall i :: 0 <= i < 8 ==> !w[i].ctl then 2 else 1
  {
    hide Bytes, Codes, Digits;
  }

  lemma TypeField(bt: nat, fields: seq<bool>)
    requires bt < 0x100
    ensures Spells(CtrlBlock(bt, fields).data, 0, 8, bt)
    ensures forall p, q :: 0 <= p <= q <= |fields| ==> (Digits(bt, 8) + fields)[8 + p..8 + q] == fields[p..q]
  {
    hide Spells, Digits;
    var d := Digits(bt, 8) + fields;
    assert d[0..8] == Digits(bt, 8);
    Spelled(d, 0, 8, bt);
  }

  /** Eight data bytes. */
  lemma DataBits(w: Word)
    requires forall i :: 0 <= i < 8 ==> !w[i].ctl
    ensures var b := Encode(w);
      b.header == 2 && forall i :: 0 <= i < 8 ==> Spells(b.data, 8 * i, 8, w[i].val as nat)
  {
    hide Bytes, Spells;
    assert w[0..8] == w && Encode(w).data[0..64] == Bytes(w);
    LaneBytes(w, 0, 8, Encode(w).data, 0);
  }

  /** A start in lane 0 and seven data bytes. */
  lemma Start0Bits(w: Word)
    requires w[0] == Lane(true, 0xfb) && forall i :: 1 <= i < 8 ==> !w[i].ctl
    ensures var b := Encode(w);
      && b.header == 1 && Spells(b.data, 0, 8, 0x78)
      && forall i :: 1 <= i < 8 ==> Spells(b.data, 8 * i, 8, w[i].val as nat)
  {
    hide Bytes, Spells, Digits;
    var d := Encode(w).data;
    TypeField(0x78, Bytes(w[1..]));
    assert w[1..8] == w[1..] && d[8..64] == Bytes(w[1..8]);
    LaneBytes(w, 1, 8, d, 0);
  }

  lemma SomeLanes(w: Word, from: nat, to: nat)
    requires from <= to <= 8
    ensures NoCtl(w[from..to]) <==> forall i :: from <= i < to ==> !w[i].ctl
    ensures to == 8 ==> w[from..to] == w[from..]
  {
    if NoCtl(w[from..to]) {
      forall i | from <= i < to ensures !w[i].ctl { assert !w[from..to][i - from].ctl; }
    }
  }

  /** The two ordered sets. */
  lemma OrderedIs(l: Lane)
    ensures Ordered(l) <==> l in [Lane(true, 0x9c), Lane(true, 0x5c)]
    ensures Ordered(l) ==> OCode(l) == if l.val == 0x5c then 15 else 0
  {
  }

  /** The fields of the forms that begin with four control codes. */
  lemma FrontCodeBits(w: Word, bt: nat, o: nat)
    requires bt < 0x100
    ensures var d := CtrlBlock(bt, Codes(w[..4]) + Digits(o, 4) + Bytes(w[5..])).data;
      && |d| == 64 && Spells(d, 0, 8, bt) && Spells(d, 36, 4, o)
      && (forall i :: 0 <= i < 4 ==> Spells(d, 8 + 7 * i, 7, Code(w[i])))
      && forall i :: 5 <= i < 8 ==> Spells(d, 8 * i, 8, w[i].val as nat)
  {
    hide Bytes, Codes, Spells, Digits, Code;
    var c, z, y := Codes(w[..4]), Digits(o, 4), Bytes(w[5..]);
    var t := Digits(bt, 8);
    var d := t + (c + z + y);
    TypeField(bt, c + z + y);
    assert d[8..36] == c && d[36..40] == z && d[40..64] == y;
    assert w[..4] == w[0..4] && w[5..] == w[5..8];
    LaneCodes(w, 0, 4, d);
    Spelled(d, 36, 4, o);
    LaneBytes(w, 5, 8, d, 0);
  }

  /** The fields of the forms that begin with an ordered set. */
  lemma FrontSetBits(w: Word, bt: nat, o: nat, rest: seq<bool>)
    requires bt < 0x100 && |rest| == 24
    ensures var d := CtrlBlock(bt, Bytes(w[1..4]) + Digits(OCode(w[0]), 4) + Digits(o, 4) + rest).data;
      && |d| == 64 && Spells(d, 0, 8, bt) && Spells(d, 32, 4, OCode(w[0])) && Spells(d, 36, 4, o)
      && (forall i :: 1 <= i < 4 ==> Spells(d, 8 * i, 8, w[i].val as nat)) && d[40..] == rest
  {
    hide Bytes, Spells, Digits, OCode;
    var y, a, z := Bytes(w[1..4]), Digits(OCode(w[0]), 4), Digits(o, 4);
    var d := Digits(bt, 8) + (y + a + z + rest);
    TypeField(bt, y + a + z + rest);
    assert d[8..32] == y && d[32..36] == a && d[36..40] == z && d[40..] == rest;
    Spelled(d, 32, 4, OCode(w[0]));
    Spelled(d, 36, 4, o);
    LaneBytes(w, 1, 4, d, 0);
  }

  /** A start in lane 4 behind four control characters. */
  lemma Start4Bits(w: Word)
    requires w[4] == Lane(true, 0xfb) && forall i :: 5 <= i < 8 ==> !w[i].ctl
    requires !(w[0] in [Lane(true, 0x9c), Lane(true, 0x5c)] && forall i :: 1 <= i < 4 ==> !w[i].ctl)
    ensures var b := Encode(w);
      && b.header == 1 && Spells(b.data, 0, 8, 0x33) && Spells(b.data, 36, 4, 0)
      && (forall i :: 0 <= i < 4 ==> Spells(b.data, 8 + 7 * i, 7, Code(w[i])))
      && forall i :: 5 <= i < 8 ==> Spells(b.data, 8 * i, 8, w[i].val as nat)
  {
    hide Bytes, Codes, Spells, Digits, Code;
    OrderedIs(w[0]);
    SomeLanes(w, 1, 4);
    SomeLanes(w, 5, 8);
    FrontCodeBits(w, 0x33, 0);
    NotData(w, 4);
  }

  /** A control character in some lane; behind lane 0 it rules out the form that starts there. */
  lemma NotData(w: Word, k: nat)
    requires k < 8 && w[k].ctl
    ensures !NoCtl(w) && (k > 0 ==> !NoCtl(w[1..]))
  {
    if k > 0 { assert w[1..][k - 1].ctl; }
  }

  /** An ordered set in lane 0 and a start in lane 4. */
  lemma OsStartBits(w: Word)
    requires w[0] in [Lane(true, 0x9c), Lane(true, 0x5c)] && w[4] == Lane(true, 0xfb)
    requires forall i :: 1 <= i < 8 && i != 4 ==> !w[i].ctl
    ensures var b := Encode(w);
      && b.header == 1 && Spells(b.data, 0, 8, 0x66) && Spells(b.data, 36, 4, 0)
      && Spells(b.data, 32, 4, if w[0].val == 0x5c then 15 else 0)
      && forall i :: 1 <= i < 8 && i != 4 ==> Spells(b.data, 8 * i, 8, w[i].val as nat)
  {
    hide Bytes, Codes, Spells, Digits, OCode;
    OrderedIs(w[0]);
    SomeLanes(w, 1, 4);
    SomeLanes(w, 5, 8);
    FrontSetBits(w, 0x66, 0, Bytes(w[5..]));
    NotData(w, 4);
    LaneBytes(w, 5, 8, Encode(w).data, 0);
  }

  /** Ordered sets in lanes 0 and 4. */
  lemma Os04Bits(w: Word)
    requires w[0] in [Lane(true, 0x9c), Lane(true, 0x5c)] && w[4] in [Lane(true, 0x9c), Lane(true, 0x5c)]
    requires forall i :: 1 <= i < 8 && i != 4 ==> !w[i].ctl
    ensures var b := Encode(w);
      && b.header == 1 && Spells(b.data, 0, 8, 0x55)
      && Spells(b.data, 32, 4, if w[0].val == 0x5c then 15 else 0)
      && Spells(b.data, 36, 4, if w[4].val == 0x5c then 15 else 0)
      && forall i :: 1 <= i < 8 && i != 4 ==> Spells(b.data, 8 * i, 8, w[i].val as nat)
  {
    hide Bytes, Codes, Spells, Digits, OCode;
    OrderedIs(w[0]);
    OrderedIs(w[4]);
    SomeLanes(w, 1, 4);
    SomeLanes(w, 5, 8);
    FrontSetBits(w, 0x55, OCode(w[4]), Bytes(w[5..]));
    NotData(w, 4);
    LaneBytes(w, 5, 8, Encode(w).data, 0);
  }

  /** An ordered set in lane 0 only: the codes of the lower lanes, all of them error codes, are put where those of the
      upper ones belong, and their last four bits fall off. */
  lemma Os0Bits(w: Word)
    requires w[0] in [Lane(true, 0x9c), Lane(true, 0x5c)] && forall i :: 1 <= i < 4 ==> !w[i].ctl
    requires !(w[4] in [Lane(true, 0x9c), Lane(true, 0x5c), Lane(true, 0xfb)] && forall i :: 5 <= i < 8 ==> !w[i].ctl)
    ensures var b := Encode(w);
      && b.header == 1 && Spells(b.data, 0, 8, 0x4b) && Spells(b.data, 36, 4, 0)
      && Spells(b.data, 32, 4, if w[0].val == 0x5c then 15 else 0)
      && (forall i :: 1 <= i < 4 ==> Spells(b.data, 8 * i, 8, w[i].val as nat))
      && (forall i :: 0 <= i < 3 ==> Spells(b.data, 40 + 7 * i, 7, 0x1e)) && Spells(b.data, 61, 3, 6)
  {
    hide Bytes, Codes, Spells, Digits, OCode, Encode;
    OrderedIs(w[0]);
    OrderedIs(w[4]);
    SomeLanes(w, 1, 4);
    SomeLanes(w, 5, 8);
    Os0Encoded(w);
    FrontSetBits(w, 0x4b, 0, Codes(w[..4])[..24]);
    FourErrorCodes(w);
    CutErrors(Encode(w).data);
  }

  lemma FourTimes(d: seq<bool>, e: seq<bool>)
    requires |d| == 64 && |e| == 7 && d[40..] == (e + e + e + e)[..24]
    ensures (forall i :: 0 <= i < 3 ==> d[40 + 7 * i..47 + 7 * i] == e) && d[61..64] == e[..3]
  {
    forall i | 0 <= i < 3 ensures d[40 + 7 * i..47 + 7 * i] == e {
      forall j | 0 <= j < 7 ensures d[40 + 7 * i..47 + 7 * i][j] == e[j] {
        assert d[40 + 7 * i + j] == d[40..][7 * i + j] == (e + e + e + e)[7 * i + j];
      }
    }
    forall j | 0 <= j < 3 ensures d[61..64][j] == e[..3][j] {
      assert d[61 + j] == d[40..][21 + j];
    }
  }

  lemma CutErrors(d: seq<bool>)
    requires |d| == 64
    requires var e := [false, true, true, true, true, false, false]; d[40..] == (e + e + e + e)[..24]
    ensures (forall i :: 0 <= i < 3 ==> Spells(d, 40 + 7 * i, 7, 0x1e)) && Spells(d, 61, 3, 6)
  {
    hide Spells;
    var e := [false, true, true, true, true, false, false];
    assert Digits(0x1e, 7) == e && Digits(6, 3) == e[..3];
    FourTimes(d, e);
    forall i | 0 <= i < 3 ensures Spells(d, 40 + 7 * i, 7, 0x1e) { Spelled(d, 40 + 7 * i, 7, 0x1e); }
    Spelled(d, 61, 3, 6);
  }

  /** An ordered set in lane 4 behind four control characters. */
  lemma Os4Bits(w: Word)
    requires w[4] in [Lane(true, 0x9c), Lane(true, 0x5c)] && forall i :: 5 <= i < 8 ==> !w[i].ctl
    requires !(w[0] in [Lane(true, 0x9c), Lane(true, 0x5c)] && forall i :: 1 <= i < 4 ==> !w[i].ctl)
    ensures var b := Encode(w);
      && b.header == 1 && Spells(b.data, 0, 8, 0x2d) && Spells(b.data, 36, 4, if w[4].val == 0x5c then 15 else 0)
      && (forall i :: 0 <= i < 4 ==> Spells(b.data, 8 + 7 * i, 7, Code(w[i])))
      && forall i :: 5 <= i < 8 ==> Spells(b.data, 8 * i, 8, w[i].val as nat)
  {
    hide Bytes, Codes, Spells, Digits, Code, OCode;
    OrderedIs(w[0]);
    OrderedIs(w[4]);
    SomeLanes(w, 1, 4);
    SomeLanes(w, 5, 8);
    FrontCodeBits(w, 0x2d, OCode(w[4]));
    NotData(w, 4);
  }

  lemma TermFields(t: seq<bool>, y: seq<bool>, z: seq<bool>, c: seq<bool>, k: nat)
    requires k < 8 && |t| == 8 && |y| == 8 * k && |z| == 7 - k && |c| == 7 * (7 - k)
    ensures var d := t + (y + z + c);
      |d| == 64 && d[8..8 + 8 * k] == y && d[8 + 8 * k..15 + 7 * k] == z && d[15 + 7 * k..64] == c
  {
    var d := t + (y + z + c);
    assert d == t + y + (z + c) == t + y + z + c;
  }

  /** A terminate in lane k behind data bytes. */
  lemma TermBits(w: Word, k: nat)
    requires k < 8 && w[k] == Lane(true, 0xfd) && forall i :: 0 <= i < k ==> !w[i].ctl
    requires !(w[4] in [Lane(true, 0x9c), Lane(true, 0x5c), Lane(true, 0xfb)] && forall i :: 5 <= i < 8 ==> !w[i].ctl)
    ensures var b := Encode(w);
      && b.header == 1 && Spells(b.data, 0, 8, [0x87, 0x99, 0xaa, 0xb4, 0xcc, 0xd2, 0xe1, 0xff][k])
      && (forall i :: 0 <= i < k ==> Spells(b.data, 8 + 8 * i, 8, w[i].val as nat))
      && Spells(b.data, 8 + 8 * k, 7 - k, 0)
      && forall i :: k < i < 8 ==> Spells(b.data, 8 + 7 * i, 7, Code(w[i]))
  {
    hide Bytes, Codes, Spells, Digits, Code, TermType, Encode;
    SomeLanes(w, 5, 8);
    SomeLanes(w, 0, k);
    assert w[0..k] == w[..k] && w[k + 1..8] == w[k + 1..];
    OrderedIs(w[4]);
    EncodeTerm(w, k);
    TypeRange(k);
    TermTypeIs(k);
    var y, z, c := Bytes(w[..k]), Digits(0, 7 - k), Codes(w[k + 1..]);
    TypeField(TermType(k), y + z + c);
    var d := Encode(w).data;
    TermFields(Digits(TermType(k), 8), y, z, c, k);
    LaneBytes(w, 0, k, d, 1);
    Spelled(d, 8 + 8 * k, 7 - k, 0);
    LaneCodes(w, k + 1, 8, d);
  }

  lemma TermTypeIs(k: nat)
    requires k < 8
    ensures TermType(k) == [0x87, 0x99, 0xaa, 0xb4, 0xcc, 0xd2, 0xe1, 0xff][k]
  {
  }

  /** All other words: eight control codes. */
  lemma ControlBits(w: Word)
    requires exists i :: 0 <= i < 8 && w[i].ctl
    requires !(w[0] == Lane(true, 0xfb) && forall i :: 1 <= i < 8 ==> !w[i].ctl)
    requires !(w[0] in [Lane(true, 0x9c), Lane(true, 0x5c)] && forall i :: 1 <= i < 4 ==> !w[i].ctl)
    requires !(w[4] in [Lane(true, 0x9c), Lane(true, 0x5c), Lane(true, 0xfb)] && forall i :: 5 <= i < 8 ==> !w[i].ctl)
    requires forall k :: 0 <= k < 8 && w[k] == Lane(true, 0xfd) ==> exists i :: 0 <= i < k && w[i].ctl
    ensures var b := Encode(w);
      && b.header == 1 && Spells(b.data, 0, 8, 0x1e)
      && forall i :: 0 <= i < 8 ==> Spells(b.data, 8 + 7 * i, 7, Code(w[i]))
  {
    hide Bytes, Codes, Spells, Digits, Code;
    OrderedIs(w[0]);
    OrderedIs(w[4]);
    SomeLanes(w, 1, 4);
    SomeLanes(w, 5, 8);
    SomeLanes(w, 1, 8);
    assert TermAt(w) == 8 by { NoTerm(w); }
    TypeField(0x1e, Codes(w));
    assert w[0..8] == w && Encode(w).data[8..64] == Codes(w);
    LaneCodes(w, 0, 8, Encode(w).data);
  }

  lemma NoTerm(w: Word)
    requires forall k :: 0 <= k < 8 && w[k] == Lane(true, 0xfd) ==> exists i :: 0 <= i < k && w[i].ctl
    ensures TermAt(w) == 8
  {
    hide TermAt;
    forall k | 0 <= k < 8 && w[k] == Lane(true, 0xfd) ensures !NoCtl(w[..k]) {
      var i :| 0 <= i < k && w[i].ctl;
      assert w[..k][i].ctl;
    }
  }

  /** A data lane from the eight bits at p. */
  ghost predicate DataAt(d: seq<bool>, p: nat, l: Lane) { !l.ctl && Spells(d, p, 8, l.val as nat) }

  /** A control lane from the seven bits at p. */
  ghost predicate ControlAt(d: seq<bool>, p: nat, l: Lane) {
    exists c: nat :: c < 0x80 && Spells(d, p, 7, c) && l == Lane(true, Char(c))
  }

  /** An ordered set from the four bits at p. */
  ghost predicate SetAt(d: seq<bool>, p: nat, l: Lane) {
    l == Lane(true, if Spells(d, p, 4, 0) then 0x9c else if Spells(d, p, 4, 15) then 0x5c else 0xfe)
  }

  lemma {:induction false} DataLaneAt(d: seq<bool>, p: nat, n: nat, i: nat)
    requires p + 8 * n <= |d| && i < n
    ensures DataAt(d, p + 8 * i, DataLanes(d, p, n)[i])
    decreases n
  {
    hide Spells, Num, ByteVal;
    if i == 0 {
      OneByte(d, p);
    } else {
      DataLaneAt(d, p + 8, n - 1, i - 1);
    }
  }

  lemma OneByte(d: seq<bool>, p: nat)
    requires p + 8 <= |d|
    ensures DataAt(d, p, Lane(false, ByteVal(d[p..p + 8])))
  {
    hide Spells, Num, Pow2;
    Powers();
    NumBound(d[p..p + 8]);
    ReadField(d, p, 8, 0);
  }

  lemma {:induction false} ControlLaneAt(d: seq<bool>, p: nat, n: nat, i: nat)
    requires p + 7 * n <= |d| && i < n
    ensures ControlAt(d, p + 7 * i, ControlLanes(d, p, n)[i])
    decreases n
  {
    hide Spells, Num, Char, Pow2;
    if i == 0 {
      Powers();
      NumBound(d[p..p + 7]);
      ReadField(d, p, 7, 0);
    } else {
      ControlLaneAt(d, p + 7, n - 1, i - 1);
    }
  }

  lemma AllData(d: seq<bool>, p: nat, n: nat)
    requires p + 8 * n <= |d|
    ensures forall i :: 0 <= i < n ==> DataAt(d, p + 8 * i, DataLanes(d, p, n)[i])
  {
    forall i | 0 <= i < n ensures DataAt(d, p + 8 * i, DataLanes(d, p, n)[i]) { DataLaneAt(d, p, n, i); }
  }

  lemma AllControl(d: seq<bool>, p: nat, n: nat)
    requires p + 7 * n <= |d|
    ensures forall i :: 0 <= i < n ==> ControlAt(d, p + 7 * i, ControlLanes(d, p, n)[i])
  {
    forall i | 0 <= i < n ensures ControlAt(d, p + 7 * i, ControlLanes(d, p, n)[i]) { ControlLaneAt(d, p, n, i); }
  }

  lemma OneSet(d: seq<bool>, p: nat)
    requires p + 4 <= |d|
    ensures SetAt(d, p, Lane(true, OChar(Num(d[p..p + 4]))))
    ensures Spells(d, p, 4, 0) || Spells(d, p, 4, 15) <==> Num(d[p..p + 4]) in [0, 15]
  {
    hide Spells, Num, Pow2;
    Powers();
    ReadField(d, p, 4, 0);
    ReadField(d, p, 4, 15);
  }

  lemma ReadType(d: seq<bool>, bt: nat)
    requires |d| == 64 && bt < 0x100
    ensures Spells(d, 0, 8, bt) <==> Num(d[..8]) == bt
  {
    hide Spells, Num, Pow2;
    Powers();
    ReadField(d, 0, 8, bt);
    assert d[0..8] == d[..8];
  }

  /** A block with header 2 is eight data bytes; one with a header other than 1 and 2 is eight errors. */
  lemma HeaderDecoded(b: Block)
    requires |b.data| == 64
    ensures b.header == 2 ==> forall i :: 0 <= i < 8 ==> DataAt(b.data, 8 * i, Decode(b)[i])
    ensures b.header != 1 && b.header != 2 ==> forall i :: 0 <= i < 8 ==> Decode(b)[i] == Lane(true, 0xfe)
  {
    hide Num, DataLanes, ControlLanes, DataAt;
    AllData(b.data, 0, 8);
  }

  /** The forms that begin with four control characters. */
  lemma FrontCodesDecoded(b: Block)
    requires |b.data| == 64 && b.header == 1
    ensures Spells(b.data, 0, 8, 0x1e) ==> forall i :: 0 <= i < 8 ==> ControlAt(b.data, 8 + 7 * i, Decode(b)[i])
    ensures Spells(b.data, 0, 8, 0x2d) || Spells(b.data, 0, 8, 0x33) ==>
      && (forall i :: 0 <= i < 4 ==> ControlAt(b.data, 8 + 7 * i, Decode(b)[i]))
      && (forall i :: 5 <= i < 8 ==> DataAt(b.data, 8 * i, Decode(b)[i]))
    ensures Spells(b.data, 0, 8, 0x2d) ==> SetAt(b.data, 36, Decode(b)[4])
    ensures Spells(b.data, 0, 8, 0x33) ==> Decode(b)[4] == Lane(true, 0xfb)
  {
    hide Num, DataLanes, ControlLanes, DataAt, ControlAt, Spells, SetAt, OChar;
    var d := b.data;
    ReadType(d, 0x1e);
    ReadType(d, 0x2d);
    ReadType(d, 0x33);
    AllControl(d, 8, 8);
    AllControl(d, 8, 4);
    Three(d, 40);
    OneSet(d, 36);
  }

  lemma Three(d: seq<bool>, p: nat)
    requires p + 24 <= |d|
    ensures var w := DataLanes(d, p, 3); DataAt(d, p, w[0]) && DataAt(d, p + 8, w[1]) && DataAt(d, p + 16, w[2])
  {
    hide DataLanes, DataAt;
    DataLaneAt(d, p, 3, 0);
    DataLaneAt(d, p, 3, 1);
    DataLaneAt(d, p, 3, 2);
  }

  /** The forms that begin with a start or an ordered set. */
  lemma FrontSetDecoded(b: Block)
    requires |b.data| == 64 && b.header == 1
    ensures Spells(b.data, 0, 8, 0x78) ==>
      && Decode(b)[0] == Lane(true, 0xfb)
      && forall i :: 1 <= i < 8 ==> DataAt(b.data, 8 * i, Decode(b)[i])
    ensures Spells(b.data, 0, 8, 0x66) || Spells(b.data, 0, 8, 0x55) || Spells(b.data, 0, 8, 0x4b) ==>
      forall i :: 1 <= i < 4 ==> DataAt(b.data, 8 * i, Decode(b)[i])
    ensures Spells(b.data, 0, 8, 0x66) || Spells(b.data, 0, 8, 0x55) ==>
      && SetAt(b.data, 32, Decode(b)[0])
      && forall i :: 5 <= i < 8 ==> DataAt(b.data, 8 * i, Decode(b)[i])
    ensures Spells(b.data, 0, 8, 0x66) ==> Decode(b)[4] == Lane(true, 0xfb)
    ensures Spells(b.data, 0, 8, 0x55) ==> SetAt(b.data, 36, Decode(b)[4])
    ensures Spells(b.data, 0, 8, 0x4b) ==>
      && Decode(b)[0] == Lane(true, if Spells(b.data, 32, 4, 0) || Spells(b.data, 32, 4, 15) then 0x9c else 0xfe)
      && forall i :: 4 <= i < 8 ==> ControlAt(b.data, 8 + 7 * i, Decode(b)[i])
  {
    hide Num, DataLanes, ControlLanes, DataAt, ControlAt, Spells, SetAt, OChar;
    var d := b.data;
    ReadType(d, 0x78);
    ReadType(d, 0x66);
    ReadType(d, 0x55);
    ReadType(d, 0x4b);
    AllData(d, 8, 7);
    AllControl(d, 36, 4);
    Three(d, 8);
    Three(d, 40);
    OneSet(d, 32);
    OneSet(d, 36);
  }

  /** A terminate in lane k. */
  lemma TermDecoded(b: Block, k: nat)
    requires |b.data| == 64 && b.header == 1 && k < 8
    requires Spells(b.data, 0, 8, [0x87, 0x99, 0xaa, 0xb4, 0xcc, 0xd2, 0xe1, 0xff][k])
    ensures Decode(b)[k] == Lane(true, 0xfd)
    ensures forall i :: 0 <= i < k ==> DataAt(b.data, 8 + 8 * i, Decode(b)[i])
    ensures forall i :: k < i < 8 ==> ControlAt(b.data, 8 + 7 * i, Decode(b)[i])
  {
    hide Num, DataLanes, ControlLanes, DataAt, ControlAt, Spells, TermType, Decode;
    var d := b.data;
    TypeRange(k);
    TermTypeIs(k);
    ReadType(d, TermType(k));
    DecodeTerm(b, k);
    AllData(d, 8, k);
    AllControl(d, 15 + 7 * k, 7 - k);
    forall i | k < i < 8 ensures ControlAt(d, 8 + 7 * i, Decode(b)[i]) {
      assert Decode(b)[i] == ControlLanes(d, 15 + 7 * k, 7 - k)[i - k - 1];
      assert 15 + 7 * k + 7 * (i - k - 1) == 8 + 7 * i;
    }
  }

  /** Any other block type is eight errors. */
  lemma OtherDecoded(b: Block)
    requires |b.data| == 64 && b.header == 1
    requires forall t: nat :: Spells(b.data, 0, 8, t) && t < 0x100 ==>
      t !in [0x1e, 0x2d, 0x33, 0x66, 0x55, 0x78, 0x4b, 0x87, 0x99, 0xaa, 0xb4, 0xcc, 0xd2, 0xe1, 0xff]
    ensures forall i :: 0 <= i < 8 ==> Decode(b)[i] == Lane(true, 0xfe)
  {
    hide Num, DataLanes, ControlLanes, Spells, OChar, Pow2;
    var t := Num(b.data[..8]);
    Powers();
    NumBound(b.data[..8]);
    ReadType(b.data, t);
  }
}
