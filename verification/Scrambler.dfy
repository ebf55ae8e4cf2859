/** The self-synchronising scrambler 1 + x^39 + x^58 of 10GBASE-R (clause 49.2.6 of IEEE 802.3). The state is the last
    58 bits on the line, the newest first. */
module Scrambler {
  type State = s: seq<bool> | |s| == 58 witness seq(58, _ => false)

  function Xor3(a: bool, b: bool, c: bool): bool { (a != b) != c }

  /** The state after bit b went over the line: bits 38 and 57 of the state are the taps. */
  function Shift(s: State, b: bool): State { [b] + s[..57] }

  function Scramble(s: State, bits: seq<bool>): (line: seq<bool>)
    ensures |line| == |bits|
    decreases |bits|
  {
    if bits == [] then []
    else
      var b := Xor3(s[38], s[57], bits[0]);
      [b] + Scramble(Shift(s, b), bits[1..])
  }

  function Descramble(s: State, line: seq<bool>): (bits: seq<bool>)
    ensures |bits| == |line|
    decreases |line|
  {
    if line == [] then []
    else [Xor3(s[38], s[57], line[0])] + Descramble(Shift(s, line[0]), line[1..])
  }

  /** The state after a whole line sequence. */
  function ShiftAll(s: State, line: seq<bool>): State
    decreases |line|
  {
    if line == [] then s else ShiftAll(Shift(s, line[0]), line[1..])
  }

  /** From equal states descrambling undoes scrambling, and the states stay equal. */
  lemma {:induction false} Inverse(s: State, bits: seq<bool>)
    ensures Descramble(s, Scramble(s, bits)) == bits
    decreases |bits|
  {
    hide Shift;
    if bits != [] {
      var b := Xor3(s[38], s[57], bits[0]);
      var rest := Scramble(Shift(s, b), bits[1..]);
      Inverse(Shift(s, b), bits[1..]);
      HeadTail(b, rest);
      assert Descramble(s, [b] + rest) == [bits[0]] + Descramble(Shift(s, b), rest);
    }
  }

  lemma HeadTail(b: bool, rest: seq<bool>)
    ensures ([b] + rest)[0] == b && ([b] + rest)[1..] == rest
  {
  }

  /** The line bit i places back: an earlier line bit, or one of the state's. */
  function Back(s: State, line: seq<bool>, n: nat, i: nat): bool
    requires n <= |line| && 1 <= i <= 58
  {
    if i <= n then line[n - i] else s[i - 1 - n]
  }

  /** Descrambled bit n depends on line bits n, n - 39 and n - 58 only. */
  lemma {:induction false} DescrambledBit(s: State, line: seq<bool>, n: nat)
    requires n < |line|
    ensures Descramble(s, line)[n] == Xor3(Back(s, line, n, 39), Back(s, line, n, 58), line[n])
    decreases |line|
  {
    if n > 0 { DescrambledBit(Shift(s, line[0]), line[1..], n - 1); }
  }

  /** Every line bit is the exclusive or of its data bit and the line bits 39 and 58 places back, those before the first
      one being in the state. */
  lemma {:induction false} LineBit(s: State, data: seq<bool>, n: nat)
    requires n < |data|
    ensures var line := Scramble(s, data);
      var back39, back58 := if n < 39 then s[38 - n] else line[n - 39], if n < 58 then s[57 - n] else line[n - 58];
      line[n] == (data[n] != (back39 != back58))
    decreases |data|
  {
    if n > 0 {
      var b := Scramble(s, data)[0];
      LineBit(Shift(s, b), data[1..], n - 1);
      assert Scramble(s, data)[1..] == Scramble(Shift(s, b), data[1..]);
    }
  }

  /** Every descrambled bit is the exclusive or of the same three line bits. */
  lemma DataBit(s: State, line: seq<bool>, n: nat)
    requires n < |line|
    ensures
      var back39, back58 := if n < 39 then s[38 - n] else line[n - 39], if n < 58 then s[57 - n] else line[n - 58];
      Descramble(s, line)[n] == (line[n] != (back39 != back58))
  {
    DescrambledBit(s, line, n);
  }

  /** Self-synchronisation: whatever state the receiver starts from, every bit from position 58 on is right. */
  lemma SelfSync(s: State, s': State, bits: seq<bool>, n: nat)
    requires 58 <= n < |bits|
    ensures Descramble(s', Scramble(s, bits))[n] == bits[n]
  {
    var line := Scramble(s, bits);
    Inverse(s, bits);
    DescrambledBit(s, line, n);
    DescrambledBit(s', line, n);
  }

  /** The state after n line bits, bit by bit: the last of them, then what is left of the old state. */
  lemma {:induction false} ShiftAllAt(s: State, line: seq<bool>, i: nat)
    requires i < 58
    ensures ShiftAll(s, line)[i] == if i < |line| then line[|line| - 1 - i] else s[i - |line|]
    decreases |line|
  {
    if line != [] { ShiftAllAt(Shift(s, line[0]), line[1..], i); }
  }

  /** After 58 line bits the state no longer depends on the one before. */
  lemma Forgotten(s: State, s': State, line: seq<bool>)
    requires |line| >= 58
    ensures ShiftAll(s, line) == ShiftAll(s', line)
  {
    var a, b := ShiftAll(s, line), ShiftAll(s', line);
    forall i | 0 <= i < 58 ensures a[i] == b[i] {
      ShiftAllAt(s, line, i);
      ShiftAllAt(s', line, i);
    }
  }

  /** One wrong bit on the line makes exactly three wrong bits: its own, and those 39 and 58 later. */
  lemma ErrorSpread(s: State, line: seq<bool>, k: nat, n: nat)
    requires k < |line| && n < |line|
    ensures Descramble(s, line[k := !line[k]])[n] != Descramble(s, line)[n] <==> n == k || n == k + 39 || n == k + 58
  {
    DescrambledBit(s, line, n);
    DescrambledBit(s, line[k := !line[k]], n);
  }

  /** The scrambler loop of the source: one bit after the other. */
  method ScrambleWord(state: State, data: seq<bool>) returns (state': State, line: seq<bool>)
    ensures line == Scramble(state, data) && state' == ShiftAll(state, line)
  {
    hide Shift, Scramble, ShiftAll;
    state', line := state, [];
    NoBits(state, data);
    for i := 0 to |data|
      invariant |line| == i && line + Scramble(state', data[i..]) == Scramble(state, data)
      invariant state' == ShiftAll(state, line)
    {
      var b := Xor3(state'[38], state'[57], data[i]);
      ScrambleStep(state', data, i, line);
      ShiftAllAppend(state, line, b);
      state', line := Shift(state', b), line + [b];
    }
    NoneLeft(state', data, line);
  }

  lemma NoBits(s: State, data: seq<bool>)
    ensures data[0..] == data && ShiftAll(s, []) == s && [] + Scramble(s, data) == Scramble(s, data)
    ensures data[..0] == [] && [] + Descramble(s, data) == Descramble(s, data)
  {
  }

  lemma NoneLeft(s: State, data: seq<bool>, done: seq<bool>)
    ensures done + Scramble(s, data[|data|..]) == done && done + Descramble(s, data[|data|..]) == done
    ensures data[..|data|] == data
  {
  }

  /** One more bit scrambled. */
  lemma ScrambleStep(s: State, data: seq<bool>, i: nat, line: seq<bool>)
    requires i < |data|
    ensures var b := Xor3(s[38], s[57], data[i]);
      line + [b] + Scramble(Shift(s, b), data[i + 1..]) == line + Scramble(s, data[i..])
  {
    hide Shift, Xor3;
    var b := Xor3(s[38], s[57], data[i]);
    assert data[i..][1..] == data[i + 1..];
    assert Scramble(s, data[i..]) == [b] + Scramble(Shift(s, b), data[i + 1..]);
  }

  /** One more bit descrambled. */
  lemma DescrambleStep(s: State, line: seq<bool>, i: nat, data: seq<bool>)
    requires i < |line|
    ensures data + [Xor3(s[38], s[57], line[i])] + Descramble(Shift(s, line[i]), line[i + 1..])
      == data + Descramble(s, line[i..])
    ensures line[..i + 1] == line[..i] + [line[i]]
  {
    hide Shift, Xor3;
    assert line[i..][1..] == line[i + 1..];
    assert Descramble(s, line[i..]) == [Xor3(s[38], s[57], line[i])] + Descramble(Shift(s, line[i]), line[i + 1..]);
  }

  lemma {:induction false} ShiftAllAppend(s: State, line: seq<bool>, b: bool)
    ensures ShiftAll(s, line + [b]) == Shift(ShiftAll(s, line), b)
    decreases |line|
  {
    if line == [] {
      assert (line + [b])[1..] == [];
    } else {
      ShiftAllAppend(Shift(s, line[0]), line[1..], b);
      assert (line + [b])[1..] == line[1..] + [b];
    }
  }

  /** The descrambler loop of the sink. */
  method DescrambleWord(state: State, line: seq<bool>) returns (state': State, data: seq<bool>)
    ensures data == Descramble(state, line) && state' == ShiftAll(state, line)
  {
    hide Shift, Descramble, ShiftAll;
    state', data := state, [];
    NoBits(state, line);
    for i := 0 to |line|
      invariant |data| == i && data + Descramble(state', line[i..]) == Descramble(state, line)
      invariant state' == ShiftAll(state, line[..i])
    {
      DescrambleStep(state', line, i, data);
      ShiftAllAppend(state, line[..i], line[i]);
      data := data + [Xor3(state'[38], state'[57], line[i])];
      state' := Shift(state', line[i]);
    }
    NoneLeft(state', line, data);
  }
}
