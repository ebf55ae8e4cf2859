/** Long file names on FAT volumes: 13 UTF-16 units per directory entry, stored from the last part of the name to the
    first one and rebuilt by dir_read's recogniser. */
module Lfn {
  import opened Bits
  import opened Storage
  import opened FatTable

  const MAX_LFN: nat := 255    // FF_MAX_LFN
  const FILLER: nat := 0xFFFF
  const LLEF: nat := 0x40      // last long entry flag
  const AM_LFN: byte := 0x0F
  const NO_LFN: nat := 0xFF    // dir_read's order count while there is no valid name

  /** Offset of unit s of an entry. */
  function LfnOfs(s: nat): nat
    requires s < 13
  {
    [1, 3, 5, 7, 9, 14, 16, 18, 20, 22, 24, 28, 30][s]
  }

  /** Unit s of an entry. */
  function Unit(e: seq<byte>, s: nat): nat
    requires |e| == 32 && s < 13
  {
    LdWord(e, LfnOfs(s))
  }

  /** The thirteen units of an entry as its bytes show them: five words from byte 1 on, six from byte 14 on and two from
      byte 28 on, low byte first. */
  ghost function Words(e: seq<byte>): (w: seq<nat>)
    requires |e| == 32
    ensures |w| == 13
  {
    [e[1] as nat + 0x100 * e[2] as nat, e[3] as nat + 0x100 * e[4] as nat, e[5] as nat + 0x100 * e[6] as nat,
     e[7] as nat + 0x100 * e[8] as nat, e[9] as nat + 0x100 * e[10] as nat,
     e[14] as nat + 0x100 * e[15] as nat, e[16] as nat + 0x100 * e[17] as nat, e[18] as nat + 0x100 * e[19] as nat,
     e[20] as nat + 0x100 * e[21] as nat, e[22] as nat + 0x100 * e[23] as nat, e[24] as nat + 0x100 * e[25] as nat,
     e[28] as nat + 0x100 * e[29] as nat, e[30] as nat + 0x100 * e[31] as nat]
  }

  /** The offset table leads to those words. */
  lemma UnitIs(e: seq<byte>, s: nat)
    requires |e| == 32 && s < 13
    ensures Unit(e, s) == Words(e)[s]
  {
  }

  /** A long name: no unit is a terminator or the filler. */
  ghost predicate Name(n: seq<nat>) {
    0 < |n| <= MAX_LFN && forall i :: 0 <= i < |n| ==> 0 < n[i] < FILLER
  }

  /** The name's unit at position i, as stored: behind the name a terminator, then fillers. */
  function NameUnit(n: seq<nat>, i: nat): nat { if i < |n| then n[i] else if i == |n| then 0 else FILLER }

  /** Number of entries for a name. */
  function Entries(n: seq<nat>): nat { (|n| + 12) / 13 }

  /** e holds part k (counted from 1) of name n, with the checksum of the short name. */
  ghost predicate HoldsPart(e: seq<byte>, n: seq<nat>, k: nat, sum: byte) {
    && |e| == 32 && 1 <= k <= Entries(n)
    && e[0] as nat == k + (if k == Entries(n) then LLEF else 0)
    && e[11] == AM_LFN && e[12] == 0 && e[13] == sum && e[26] == 0 && e[27] == 0
    && forall s :: 0 <= s < 13 ==> Unit(e, s) == NameUnit(n, (k - 1) * 13 + s)
  }

  /** Names have 1 to 255 units. */
  lemma NameIs(n: seq<nat>)
    ensures Name(n) <==> 1 <= |n| <= 255 && forall i :: 0 <= i < |n| ==> 0 < n[i] < 0xFFFF
  {
  }

  /** The bytes of an entry that holds part k of a name: the order with the flag 0x40 in the last part, attribute 0x0F,
      the checksum, and the part's units, behind the name a terminator and fillers. */
  lemma HoldsBytes(e: seq<byte>, n: seq<nat>, k: nat, sum: byte)
    requires HoldsPart(e, n, k, sum)
    ensures |e| == 32 && e[11] == 0x0F && e[12] == 0 && e[13] == sum && e[26] == 0 && e[27] == 0
    ensures 1 <= k <= (|n| + 12) / 13 && e[0] as nat == if k == (|n| + 12) / 13 then k + 0x40 else k
    ensures forall s :: 0 <= s < 13 ==>
      var i := (k - 1) * 13 + s;
      Words(e)[s] == if i < |n| then n[i] else if i == |n| then 0 else 0xFFFF
  {
    hide Unit, LfnOfs, Words;
    forall s | 0 <= s < 13 ensures Words(e)[s] == NameUnit(n, (k - 1) * 13 + s) { UnitIs(e, s); }
  }

  /** The bytes of an entry that hold no unit of the name. */
  function Fixed(e: seq<byte>): seq<byte>
    requires |e| == 32
  {
    [e[11], e[12], e[13], e[26], e[27]]
  }

  /** st_word of unit s */
  method PutUnit(dir: array<byte>, s: nat, v: nat)
    requires dir.Length == 32 && s < 13 && v < 0x1_0000
    modifies dir
    ensures Fixed(dir[..]) == old(Fixed(dir[..])) && dir[0] == old(dir[0])
    ensures forall t :: 0 <= t < 13 ==> Unit(dir[..], t) == if t == s then v else old(Unit(dir[..], t))
  {
    var o := LfnOfs(s);
    dir[o], dir[o + 1] := v % 0x100, v / 0x100 % 0x100;
  }

  /** The order byte is not part of a unit. */
  method PutOrd(dir: array<byte>, b: byte)
    requires dir.Length == 32
    modifies dir
    ensures Fixed(dir[..]) == old(Fixed(dir[..])) && dir[0] == b
    ensures forall t :: 0 <= t < 13 ==> Unit(dir[..], t) == old(Unit(dir[..], t))
  {
    dir[0] := b;
  }

  /** put_lfn: make entry `ord` of name n, whose buffer is lfn (the name with its terminator). */
  method PutLfn(lfn: seq<nat>, dir: array<byte>, ord: nat, sum: byte, ghost n: seq<nat>)
    requires dir.Length == 32 && Name(n) && lfn == n + [0] && 1 <= ord <= Entries(n)
    modifies dir
    ensures HoldsPart(dir[..], n, ord, sum)
    ensures dir[0] as nat == if ord == (|n| + 12) / 13 then ord + 0x40 else ord
    ensures dir[11] == 0x0F && dir[12] == 0 && dir[13] == sum && dir[26] == 0 && dir[27] == 0
    ensures forall s :: 0 <= s < 13 ==>
      var i := (ord - 1) * 13 + s;
      Words(dir[..])[s] == if i < |n| then n[i] else if i == |n| then 0 else 0xFFFF
  {
    hide Unit, LfnOfs, Words;
    dir[13], dir[11], dir[12], dir[26], dir[27] := sum, AM_LFN, 0, 0, 0;
    var i := (ord - 1) * 13;
    var s, wc := 0, 0;
    while s < 13
      invariant 0 <= s <= 13 && i <= |lfn| && 0 <= wc <= FILLER
      invariant wc != FILLER ==> i == (ord - 1) * 13 + s && i <= |n| && (s > 0 ==> wc != 0)
      invariant wc == FILLER ==> |n| < (ord - 1) * 13 + s
      invariant Fixed(dir[..]) == [AM_LFN, 0, sum, 0, 0]
      invariant forall t :: 0 <= t < s ==> Unit(dir[..], t) == NameUnit(n, (ord - 1) * 13 + t)
    {
      if wc != FILLER {
        wc := lfn[i];
        i := i + 1;
      }
      PutUnit(dir, s, wc);
      if wc == 0 { wc := FILLER; }
      s := s + 1;
    }
    var last := wc == FILLER || lfn[i] == 0;
    PutOrd(dir, if last then ord + LLEF else ord);
    HoldsBytes(dir[..], n, ord, sum);
  }

  /** How many units of an entry are read as part of the name: up to and with a terminator. */
  function Used(e: seq<byte>, s: nat): (k: nat)
    requires |e| == 32 && s <= 13
    ensures s <= k <= 13
    ensures forall t :: s <= t < k - 1 ==> Unit(e, t) != 0
    ensures k < 13 ==> k > s && Unit(e, k - 1) == 0
    decreases 13 - s
  {
    if s == 13 then 13 else if Unit(e, s) == 0 then s + 1 else Used(e, s + 1)
  }

  /** The entry's place in the name buffer, in 32-bit arithmetic: an order of 0 lies far beyond it. */
  function Place(ord: nat): nat { (ord - 1 + 0x1_0000_0000) % 0x1_0000_0000 * 13 % 0x1_0000_0000 }

  /** The last long entry flag, and the order without it. */
  predicate Last(e: seq<byte>)
    requires |e| == 32
  {
    e[0] as nat / LLEF % 2 == 1
  }

  function Order(e: seq<byte>): nat
    requires |e| == 32
  {
    if Last(e) then e[0] as nat - LLEF else e[0] as nat
  }

  /** An entry pick_lfn accepts: cluster field 0, fillers behind a terminator, and room for its units. */
  ghost predicate Pickable(e: seq<byte>)
    requires |e| == 32
  {
    var k := Used(e, 0);
    var at := Place(Order(e));
    && e[26] == 0 && e[27] == 0 && (forall t :: k <= t < 13 ==> Unit(e, t) == FILLER) && at + k <= MAX_LFN + 1
    && (Last(e) && Unit(e, k - 1) != 0 ==> at + k < MAX_LFN + 1)
  }

  /** The buffer b' after an entry's units went to position `at` of buffer b; a last part without terminator gets one.
      */
  ghost predicate Picked(e: seq<byte>, b: seq<nat>, b': seq<nat>, at: nat, last: bool)
    requires |e| == 32
  {
    var k := Used(e, 0);
    |b'| == |b| && forall j {:trigger b'[j]} :: 0 <= j < |b| ==>
      b'[j] == if at <= j < at + k then Unit(e, j - at)
               else if last && j == at + k && Unit(e, k - 1) != 0 then 0
               else b[j]
  }

  /** The same from the bytes of the entry: the order without its flag 0x40 says to which places the words go, k of them
      up to the first zero; a last part without a zero gets one behind it. */
  ghost predicate PickedBytes(e: seq<byte>, b: seq<nat>, b': seq<nat>)
    requires |e| == 32
  {
    var last := e[0] as nat / 0x40 % 2 == 1;
    var at := (if last then e[0] as nat - 0x41 else e[0] as nat - 1) * 13;
    exists k: nat {:trigger Words(e)[..k]} :: 1 <= k <= 13 && 0 <= at && at + k <= |b| == 256
      && (k == 13 || Words(e)[k - 1] == 0) && (forall s :: 0 <= s < k - 1 ==> Words(e)[s] != 0)
      && if last && Words(e)[k - 1] != 0 then at + k < |b| && b' == b[..at] + Words(e)[..k] + [0] + b[at + k + 1..]
         else b' == b[..at] + Words(e)[..k] + b[at + k..]
  }

  lemma PickedIs(e: seq<byte>, b: seq<nat>, b': seq<nat>)
    requires |e| == 32 && Pickable(e) && Picked(e, b, b', Place(Order(e)), Last(e)) && |b| == MAX_LFN + 1
    ensures PickedBytes(e, b, b')
  {
    hide Unit, LfnOfs, Words, Place, Order, Used;
    var k, at, w := Used(e, 0), Place(Order(e)), Words(e);
    PlaceIs(e);
    forall s | 0 <= s < 13 ensures w[s] == Unit(e, s) { UnitIs(e, s); }
    assert b' == if Last(e) && w[k - 1] != 0 then b[..at] + w[..k] + [0] + b[at + k + 1..]
                 else b[..at] + w[..k] + b[at + k..];
  }

  /** The place of an entry in the name buffer, if its order is not 0. */
  lemma PlaceIs(e: seq<byte>)
    requires |e| == 32
    ensures Last(e) <==> e[0] as nat / 0x40 % 2 == 1
    ensures var at := (if Last(e) then e[0] as nat - 0x41 else e[0] as nat - 1) * 13;
      if at >= 0 then Place(Order(e)) == at else Place(Order(e)) > MAX_LFN + 1
  {
  }

  /** pick_lfn: take an entry's units into the name buffer. */
  method PickLfn(lfnbuf: array<nat>, e: seq<byte>) returns (ok: bool)
    requires lfnbuf.Length == MAX_LFN + 1 && |e| == 32
    modifies lfnbuf
    ensures ok <==> Pickable(e)
    ensures ok ==> Picked(e, old(lfnbuf[..]), lfnbuf[..], Place(Order(e)), Last(e))
    ensures ok ==> PickedBytes(e, old(lfnbuf[..]), lfnbuf[..])
  {
    hide Unit, LfnOfs, Place, Used, Last, Order;
    if LdWord(e, 26) != 0 { return false; }
    var last := Last(e);
    var i := Place(Order(e));
    var wc := 1;
    var s := 0;
    ghost var at, k := i, Used(e, 0);
    while s < 13
      invariant 0 <= s <= 13 && i == at + if s < k then s else k
      invariant wc == 0 <==> s >= k && Unit(e, k - 1) == 0
      invariant s >= 13 && wc != 0 ==> k == 13
      invariant forall t :: k <= t < s ==> Unit(e, t) == FILLER
      invariant s > 0 ==> i <= MAX_LFN + 1
      invariant forall j :: 0 <= j < lfnbuf.Length ==>
        lfnbuf[j] == if at <= j < i then Unit(e, j - at) else old(lfnbuf[j])
    {
      var uc := Unit(e, s);
      if wc != 0 {
        if i >= MAX_LFN + 1 { return false; }
        lfnbuf[i] := uc;
        wc := uc;
        i := i + 1;
      } else {
        if uc != FILLER { return false; }
      }
      s := s + 1;
    }
    if last && wc != 0 {
      if i >= MAX_LFN + 1 { return false; }
      lfnbuf[i] := 0;
    }
    PickedIs(e, old(lfnbuf[..]), lfnbuf[..]);
    return true;
  }

  /** Entry orders of a name, with and without the flag. */
  lemma OrderOf(e: seq<byte>, n: seq<nat>, k: nat)
    requires |e| == 32 && Name(n) && 1 <= k <= Entries(n) && e[0] as nat == k + (if k == Entries(n) then LLEF else 0)
    ensures Order(e) == k && (Last(e) <==> k == Entries(n)) && e[0] as nat % 0x40 == k
    ensures Place(k) == (k - 1) * 13 && (k - 1) * 13 <= |n|
  {
  }

  /** A part of a name has plain units, then perhaps the terminator and fillers. */
  lemma UsedOf(e: seq<byte>, n: seq<nat>, k: nat, sum: byte)
    requires HoldsPart(e, n, k, sum) && Name(n) && (k - 1) * 13 <= |n|
    ensures var u := Used(e, 0);
      && u == (if |n| + 1 - (k - 1) * 13 < 13 then |n| + 1 - (k - 1) * 13 else 13)
      && (Unit(e, u - 1) == 0 <==> |n| + 1 - (k - 1) * 13 <= 13)
      && (k < Entries(n) ==> |n| > k * 13 - 1)
  {
    hide Unit, LfnOfs;
    var u := Used(e, 0);
    assert Unit(e, u - 1) == NameUnit(n, (k - 1) * 13 + u - 1);
    if |n| - (k - 1) * 13 < 13 {
      assert Unit(e, |n| - (k - 1) * 13) == NameUnit(n, |n|) == 0;
    }
  }

  /** An entry made by put_lfn is accepted, and its units go where they belong. */
  lemma HoldsPicks(e: seq<byte>, n: seq<nat>, k: nat, sum: byte)
    requires HoldsPart(e, n, k, sum) && Name(n)
    ensures Pickable(e) && Order(e) == k && (Last(e) <==> k == Entries(n)) && Place(k) == (k - 1) * 13
    ensures Used(e, 0) == if |n| + 1 - (k - 1) * 13 < 13 then |n| + 1 - (k - 1) * 13 else 13
    ensures Unit(e, Used(e, 0) - 1) == 0 <==> |n| + 1 - (k - 1) * 13 <= 13
  {
    hide Unit, LfnOfs, Used, Place, Order, Last;
    OrderOf(e, n, k);
    UsedOf(e, n, k, sum);
  }

  /** cmp_lfn: does an entry agree with the name in the buffer, up to case folding? */
  method CmpLfn(fold: nat -> nat, lfnbuf: seq<nat>, e: seq<byte>) returns (r: bool)
    requires |lfnbuf| == MAX_LFN + 1 && |e| == 32
    ensures r <==> Agrees(fold, lfnbuf, e)
  {
    hide Unit, LfnOfs, Place, Used, Last, Order;
    if LdWord(e, 26) != 0 { return false; }
    var i := Place(e[0] as nat % 0x40);
    var wc := 1;
    var s := 0;
    ghost var at, k := i, Used(e, 0);
    while s < 13
      invariant 0 <= s <= 13 && i == at + if s < k then s else k
      invariant wc == 0 <==> s >= k && Unit(e, k - 1) == 0
      invariant s >= 13 && wc != 0 ==> k == 13
      invariant forall t :: k <= t < s ==> Unit(e, t) == FILLER
      invariant s > 0 ==> i <= MAX_LFN + 1
      invariant forall t :: 0 <= t < s && t < k ==> fold(Unit(e, t)) == fold(lfnbuf[at + t])
    {
      var uc := Unit(e, s);
      if wc != 0 {
        if i >= MAX_LFN + 1 || fold(uc) != fold(lfnbuf[i]) { return false; }
        i := i + 1;
        wc := uc;
      } else {
        if uc != FILLER { return false; }
      }
      s := s + 1;
    }
    PlaceBound(e, at);
    if Last(e) && wc != 0 && lfnbuf[i] != 0 { return false; }
    return true;
  }

  /** The entry's units agree with the buffer at its place, and a full last part ends where the name does. */
  ghost predicate Agrees(fold: nat -> nat, lfnbuf: seq<nat>, e: seq<byte>)
    requires |e| == 32
  {
    var k, at := Used(e, 0), Place(e[0] as nat % 0x40);
    && e[26] == 0 && e[27] == 0 && at + k <= |lfnbuf|
    && (forall t :: 0 <= t < k ==> fold(Unit(e, t)) == fold(lfnbuf[at + t]))
    && (forall t :: k <= t < 13 ==> Unit(e, t) == FILLER)
    && (Last(e) && Unit(e, k - 1) != 0 && at + k < |lfnbuf| ==> lfnbuf[at + k] == 0)
  }

  /** A full entry never ends exactly at the end of the buffer. */
  lemma PlaceBound(e: seq<byte>, at: nat)
    requires |e| == 32 && at == Place(e[0] as nat % 0x40)
    ensures at + 13 <= MAX_LFN + 1 ==> at + 13 < MAX_LFN + 1
  {
  }

  /** cmp_lfn accepts every entry put_lfn makes of a name, under any case folding. */
  lemma HoldsAgrees(fold: nat -> nat, lfnbuf: seq<nat>, e: seq<byte>, n: seq<nat>, k: nat, sum: byte)
    requires HoldsPart(e, n, k, sum) && Name(n) && n + [0] <= lfnbuf && |lfnbuf| == MAX_LFN + 1
    ensures Agrees(fold, lfnbuf, e)
  {
    hide Unit, LfnOfs, Used, Place, Order, Last;
    HoldsPicks(e, n, k, sum);
    OrderOf(e, n, k);
    var u, at := Used(e, 0), (k - 1) * 13;
    forall t | 0 <= t < u ensures fold(Unit(e, t)) == fold(lfnbuf[at + t]) {
      assert Unit(e, t) == NameUnit(n, at + t) == (n + [0])[at + t];
    }
    if |n| == at + 13 { assert (n + [0])[|n|] == 0; }
  }

  /** sum_sfn: checksum of a short name's 11 bytes, rotating right in 8 bits. */
  function SumSfn(name: seq<byte>): byte {
    if name == [] then 0
    else
      var sum := SumSfn(name[..|name| - 1]) as nat;
      (sum / 2 + sum * 0x80 + name[|name| - 1] as nat) % 0x100
  }

  /** One more byte: the sum so far is rotated right by one bit, its lowest bit becoming the highest one, and the byte
      is added in eight bits. */
  lemma SumStep(name: seq<byte>, c: byte)
    ensures SumSfn([]) == 0
    ensures var s := SumSfn(name) as nat;
      SumSfn(name + [c]) as nat == ((if s % 2 == 1 then 0x80 else 0) + s / 2 + c as nat) % 0x100
  {
    assert (name + [c])[..|name|] == name;
    var s := SumSfn(name) as nat;
    var h := s / 2;
    assert s * 0x80 == h * 0x100 + s % 2 * 0x80;
    DivUnique(h + s * 0x80 + c as nat, 0x100, h + (h + s % 2 * 0x80 + c as nat) / 0x100,
              (h + s % 2 * 0x80 + c as nat) % 0x100);
  }

  /** The loop of sum_sfn over the eleven bytes of a short name. */
  method ComputeSum(dir: seq<byte>) returns (sum: byte)
    requires |dir| == 32
    ensures sum == SumSfn(dir[..11])
  {
    sum := 0;
    for n := 0 to 11
      invariant sum == SumSfn(dir[..n])
    {
      assert dir[..n + 1][..n] == dir[..n];
      sum := (sum as nat / 2 + sum as nat * 0x80 + dir[n] as nat) % 0x100;
    }
  }

  /** Attribute bits of an entry. */
  function Attr(e: seq<byte>): nat
    requires |e| == 32
  {
    e[11] as nat % 0x40
  }

  /** An entry without valid data for a file listing: deleted, a dot entry, or a volume label. */
  predicate Skipped(e: seq<byte>)
    requires |e| == 32
  {
    e[0] == 0xE5 || e[0] == 0x2E || Attr(e) == 0x08 || Attr(e) == 0x28
  }

  /** A short-name entry, where dir_read stops. */
  predicate Short(e: seq<byte>)
    requires |e| == 32
  {
    e[0] != 0 && !Skipped(e) && Attr(e) != AM_LFN as nat
  }

  /** Entries that dir_read passes over have a first byte 0xE5 or 0x2E ('.') or are volume labels; it stops at those
      that are not part of a long name. */
  lemma ShortIs(e: seq<byte>)
    requires |e| == 32
    ensures Skipped(e) <==> e[0] in [0xE5, 0x2E] || e[11] as nat % 0x40 in [0x08, 0x28]
    ensures Short(e) <==> e[0] !in [0x00, 0xE5, 0x2E] && e[11] as nat % 0x40 !in [0x08, 0x28, 0x0F]
  {
  }

  /** Entries start to i - 1 are the parts of a name down from the flagged last one to part ord + 1, of one checksum. */
  ghost predicate Sequence(es: seq<seq<byte>>, start: nat, i: nat, ord: nat, sum: byte) {
    && start <= i <= |es| && (forall j :: start <= j < i ==> |es[j]| == 32)
    && forall j {:trigger es[j]} :: start <= j < i ==>
         Attr(es[j]) == AM_LFN as nat && es[j][13] == sum && Pickable(es[j])
         && Order(es[j]) == ord + (i - j) && (Last(es[j]) <==> j == start)
  }

  /** One LFN entry in dir_read. */
  method ReadLfnEntry(e: seq<byte>, lfnbuf: array<nat>, ord: nat, sum: byte) returns (ord': nat, sum': byte)
    requires |e| == 32 && lfnbuf.Length == MAX_LFN + 1
    modifies lfnbuf
    ensures sum' == if Last(e) then e[13] else sum
    ensures ord' == NO_LFN || (ord' + 1 == Order(e) && (Last(e) || Order(e) == ord) && sum' == e[13] && Pickable(e))
    ensures Pickable(e) && sum' == e[13] && (Last(e) || Order(e) == ord) ==>
      ord' == Order(e) - 1 && Picked(e, old(lfnbuf[..]), lfnbuf[..], Place(Order(e)), Last(e))
  {
    var b := e[0] as nat;
    ord', sum' := ord, sum;
    if Last(e) {
      sum' := e[13];
      b := b - LLEF;
      ord' := b;
    }
    var ok := b == ord' && sum' == e[13];
    if ok { ok := PickLfn(lfnbuf, e); }
    PickableOrder(e);
    ord' := if ok then ord' - 1 else NO_LFN;
  }

  lemma PickableOrder(e: seq<byte>)
    requires |e| == 32
    ensures Pickable(e) ==> Order(e) > 0
  {
  }

  /** The entries of name n lie at positions p and on, last part first, followed by their short entry, with nothing in
      front of them that dir_read would stop at. */
  ghost predicate StoredAt(es: seq<seq<byte>>, p: nat, n: seq<nat>) {
    && Name(n) && p + Entries(n) < |es| && (forall j :: 0 <= j < |es| ==> |es[j]| == 32)
    && Short(es[p + Entries(n)]) && (forall j :: 0 <= j < p ==> !Short(es[j]) && es[j][0] != 0)
    && forall k {:trigger PartAt(es, p, n, k)} :: 1 <= k <= Entries(n) ==> PartAt(es, p, n, k)
  }

  ghost predicate PartAt(es: seq<seq<byte>>, p: nat, n: seq<nat>, k: nat)
    requires p + Entries(n) < |es| && k <= Entries(n) && forall j :: 0 <= j < |es| ==> |es[j]| == 32
  {
    HoldsPart(es[p + Entries(n) - k], n, k, SumSfn(es[p + Entries(n)][..11]))
  }

  /** The buffer has the name from position `from` on, with its terminator. */
  ghost predicate HasFrom(b: seq<nat>, n: seq<nat>, from: nat) {
    |b| == MAX_LFN + 1 && forall i {:trigger b[i]} :: from <= i <= |n| && i < |b| ==> b[i] == NameUnit(n, i)
  }

  /** Picking part k puts the name into the buffer from there on. */
  lemma PickedPart(e: seq<byte>, n: seq<nat>, k: nat, sum: byte, b: seq<nat>, b': seq<nat>)
    requires HoldsPart(e, n, k, sum) && Name(n) && Picked(e, b, b', Place(k), k == Entries(n))
    requires k < Entries(n) ==> HasFrom(b, n, k * 13)
    requires |b| == MAX_LFN + 1
    ensures HasFrom(b', n, (k - 1) * 13)
  {
    hide Unit, LfnOfs, HoldsPart, Pickable, Place, Used, Order, Last;
    HoldsPicks(e, n, k, sum);
    var at := (k - 1) * 13;
    forall i: nat | at <= i <= |n| && i < |b'| ensures b'[i] == NameUnit(n, i) {
      if i < at + 13 { UnitAt(e, n, k, sum, i - at); }
    }
  }

  lemma UnitAt(e: seq<byte>, n: seq<nat>, k: nat, sum: byte, s: nat)
    requires HoldsPart(e, n, k, sum) && s < 13
    ensures Unit(e, s) == NameUnit(n, (k - 1) * 13 + s)
  {
    hide Unit, LfnOfs;
  }

  /** The turn of dir_read's loop at part k of a stored name. */
  method ReadPart(es: seq<seq<byte>>, lfnbuf: array<nat>, ord: nat, sum: byte, ghost p: nat, ghost n: seq<nat>, at: nat)
      returns (ord': nat, sum': byte)
    requires at < |es| && lfnbuf.Length == MAX_LFN + 1 && (forall j :: 0 <= j < |es| ==> |es[j]| == 32)
    requires StoredAt(es, p, n) && p < at < p + Entries(n) ==> Midway(es, p, n, at, ord, sum, lfnbuf[..])
    modifies lfnbuf
    ensures sum' == if Last(es[at]) then es[at][13] else sum
    ensures ord' == NO_LFN ||
      (ord' + 1 == Order(es[at]) && (Last(es[at]) || Order(es[at]) == ord) && sum' == es[at][13] && Pickable(es[at]))
    ensures StoredAt(es, p, n) && p <= at < p + Entries(n) ==> Midway(es, p, n, at + 1, ord', sum', lfnbuf[..])
  {
    hide Pickable, Picked, HoldsPart, HasFrom, SumSfn;
    ghost var b := lfnbuf[..];
    ghost var here := StoredAt(es, p, n) && p <= at < p + Entries(n);
    ghost var k := if here then p + Entries(n) - at else 0;
    if here {
      assert PartAt(es, p, n, k);
      PartFacts(es[at], n, k, SumSfn(es[p + Entries(n)][..11]));
    }
    ord', sum' := ReadLfnEntry(es[at], lfnbuf, ord, sum);
    if here { PickedPart(es[at], n, k, SumSfn(es[p + Entries(n)][..11]), b, lfnbuf[..]); }
  }

  lemma PartFacts(e: seq<byte>, n: seq<nat>, k: nat, sum: byte)
    requires HoldsPart(e, n, k, sum) && Name(n)
    ensures Pickable(e) && Order(e) == k && (Last(e) <==> k == Entries(n)) && e[13] == sum
    ensures e[0] != 0 && !Skipped(e) && Attr(e) == AM_LFN as nat
  {
    HoldsPicks(e, n, k, sum);
  }

  /** In the middle of a stored name, before position at: the parts read so far are in the buffer. */
  ghost predicate Midway(es: seq<seq<byte>>, p: nat, n: seq<nat>, at: nat, ord: nat, sum: byte, b: seq<nat>) {
    && StoredAt(es, p, n) && p <= at <= p + Entries(n)
    && ord == p + Entries(n) - at && sum == SumSfn(es[p + Entries(n)][..11]) && HasFrom(b, n, ord * 13)
  }

  /** dir_read on a FAT volume, for files: the first short entry, and whether a long name belongs to it. A long name is
      reported only when the entries before it are all its parts, in order, with the short name's checksum; and the name
      stored at position p is found, with the whole name in the buffer. */
  method DirRead(es: seq<seq<byte>>, lfnbuf: array<nat>, ghost p: nat, ghost n: seq<nat>)
      returns (found: bool, at: nat, hasLfn: bool)
    requires lfnbuf.Length == MAX_LFN + 1 && forall j :: 0 <= j < |es| ==> |es[j]| == 32
    modifies lfnbuf
    ensures found ==> at < |es| && Short(es[at]) && forall j :: 0 <= j < at ==> !Short(es[j])
    ensures found && hasLfn ==> exists start: nat :: start < at && Sequence(es, start, at, 0, SumSfn(es[at][..11]))
    ensures StoredAt(es, p, n) ==>
      found && at == p + Entries(n) && hasLfn && lfnbuf[..|n| + 1] == n + [0]
  {
    hide Pickable, SumSfn, HasFrom, PartAt;
    var ord, sum := NO_LFN, 0xFF;
    ghost var start := 0;
    at := 0;
    while at < |es|
      invariant at <= |es| && forall j :: 0 <= j < at ==> !Short(es[j]) && es[j][0] != 0
      invariant ord != NO_LFN ==> start < at && Sequence(es, start, at, ord, sum)
      invariant StoredAt(es, p, n) ==> at <= p + Entries(n)
      invariant StoredAt(es, p, n) && p < at ==> Midway(es, p, n, at, ord, sum, lfnbuf[..])
      decreases |es| - at
    {
      var e := es[at];
      if StoredAt(es, p, n) && p <= at < p + Entries(n) { PartThere(es, p, n, at); }
      if e[0] == 0 { return false, at, false; }
      if Skipped(e) {
        ord := NO_LFN;
      } else if Attr(e) == AM_LFN as nat {
        if Last(e) { start := at; }
        ord, sum := ReadPart(es, lfnbuf, ord, sum, p, n, at);
      } else {
        if StoredAt(es, p, n) { WholeName(es, p, n, at, lfnbuf[..]); }
        var own := ComputeSum(e);
        return true, at, !(ord != 0 || sum != own);
      }
      at := at + 1;
    }
    return false, at, false;
  }

  lemma PartThere(es: seq<seq<byte>>, p: nat, n: seq<nat>, at: nat)
    requires StoredAt(es, p, n) && p <= at < p + Entries(n)
    ensures es[at][0] != 0 && !Skipped(es[at]) && Attr(es[at]) == AM_LFN as nat
  {
    var k := p + Entries(n) - at;
    assert PartAt(es, p, n, k);
    PartFacts(es[at], n, k, SumSfn(es[p + Entries(n)][..11]));
  }

  /** After the last part the buffer holds the whole name. */
  lemma WholeName(es: seq<seq<byte>>, p: nat, n: seq<nat>, at: nat, b: seq<nat>)
    requires StoredAt(es, p, n) && |b| == MAX_LFN + 1
    ensures at == p + Entries(n) && HasFrom(b, n, 0) ==> b[..|n| + 1] == n + [0]
  {
  }

  /** es has part k of the name, counted from the end. */
  ghost predicate Part(es: seq<seq<byte>>, n: seq<nat>, k: nat, sum: byte) {
    0 <= Entries(n) - k < |es| && HoldsPart(es[Entries(n) - k], n, k, sum)
  }

  /** dir_register's loop: the entries of a name, from the highest order down to 1. */
  method StoreName(lfn: seq<nat>, sum: byte, ghost n: seq<nat>) returns (es: seq<seq<byte>>)
    requires Name(n) && lfn == n + [0]
    ensures |es| == Entries(n) && forall k :: 1 <= k <= Entries(n) ==> Part(es, n, k, sum)
  {
    hide HoldsPart;
    es := [];
    var nent := (|lfn| - 1 + 12) / 13;
    while nent > 0
      invariant 0 <= nent <= Entries(n) && |es| == Entries(n) - nent
      invariant forall k :: nent < k <= Entries(n) ==> Part(es, n, k, sum)
    {
      var dir := new byte[32](_ => 0);
      PutLfn(lfn, dir, nent, sum, n);
      ghost var was := es;
      es := es + [dir[..]];
      forall k | nent <= k <= Entries(n) ensures Part(es, n, k, sum) {
        if k > nent { assert Part(was, n, k, sum); }
      }
      nent := nent - 1;
    }
  }

  /** The long-name round trip: a name stored with its short entry is read back, unit by unit. */
  method RoundTrip(lfn: seq<nat>, sfn: seq<byte>, lfnbuf: array<nat>, ghost n: seq<nat>) returns (ok: bool)
    requires Name(n) && lfn == n + [0] && |sfn| == 32 && Short(sfn) && lfnbuf.Length == MAX_LFN + 1
    modifies lfnbuf
    ensures ok && lfnbuf[..|n| + 1] == n + [0]
  {
    hide HoldsPart, SumSfn, Short;
    var sum := ComputeSum(sfn);
    var es := StoreName(lfn, sum, n);
    Lengths(es, n, SumSfn(sfn[..11]));
    var all := es + [sfn];
    forall k {:trigger PartAt(all, 0, n, k)} | 1 <= k <= Entries(n) ensures PartAt(all, 0, n, k) {
      assert Part(es, n, k, SumSfn(sfn[..11]));
    }
    assert StoredAt(all, 0, n);
    var found, at, hasLfn := DirRead(all, lfnbuf, 0, n);
    ok := found && hasLfn;
  }

  lemma Lengths(es: seq<seq<byte>>, n: seq<nat>, sum: byte)
    requires |es| == Entries(n) && forall k :: 1 <= k <= Entries(n) ==> Part(es, n, k, sum)
    ensures forall j :: 0 <= j < |es| ==> |es[j]| == 32
  {
    forall j | 0 <= j < |es| ensures |es[j]| == 32 {
      assert Part(es, n, Entries(n) - j, sum);
    }
  }
}
