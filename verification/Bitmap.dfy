/** The exFAT allocation bitmap: one bit per cluster, searched and changed through the sector window. */
module Bitmap {
  import opened Bits
  import opened Storage
  import opened Volume
  import opened FatTable
  import opened Allocator

  /** The bitmap lies in the data area; an exFAT volume has one FAT. */
  ghost predicate HasBitmap(g: Geometry, v: seq<byte>, base: nat) {
    Holds(g, v) && g.nFats == 1 && g.database <= base && |v| % SS == 0 && SS * base + (g.nFatent - 2 + 7) / 8 <= |v|
  }

  /** Whether cluster j + 2 is in use. */
  ghost predicate UsedAt(g: Geometry, v: seq<byte>, base: nat, j: nat)
    requires HasBitmap(g, v, base) && j < g.nFatent - 2
  {
    Bit(v[SS * base + j / 8], j % 8)
  }

  /** The bitmap as a sequence: element j tells whether cluster j + 2 is in use. */
  ghost function Used(g: Geometry, v: seq<byte>, base: nat): (u: seq<bool>)
    requires HasBitmap(g, v, base)
    ensures |u| == g.nFatent - 2
    ensures forall j {:trigger u[j]} :: 0 <= j < |u| ==> u[j] == UsedAt(g, v, base, j)
  {
    seq(g.nFatent - 2, j requires 0 <= j < g.nFatent - 2 && HasBitmap(g, v, base) => UsedAt(g, v, base, j))
  }

  /** Which bit of the volume belongs to cluster j + 2. */
  lemma UsedBit(g: Geometry, v: seq<byte>, base: nat, j: nat)
    requires HasBitmap(g, v, base) && j < g.nFatent - 2
    ensures 512 * base + j / 8 < |v|
    ensures Used(g, v, base)[j] <==> v[512 * base + j / 8] as nat / [1, 2, 4, 8, 16, 32, 64, 128][j % 8] % 2 == 1
  {
    hide Bit, Pow2;
    Powers();
    BitIs(v[SS * base + j / 8] as nat, j % 8);
  }

  /** The t-th bit after start, counted around n bits. */
  function Cyc(start: nat, t: nat, n: nat): nat {
    if start + t < n then start + t else start + t - n
  }

  /** The ctr bits before step k of a scan from start are free, and the one before them, if any, is in use. */
  ghost predicate Scanned(u: seq<bool>, start: nat, k: nat, ctr: nat)
    requires start < |u| && k <= |u|
  {
    && ctr <= k
    && (forall t :: k - ctr <= t < k ==> !u[Cyc(start, t, |u|)])
    && (ctr < k ==> u[Cyc(start, k - ctr - 1, |u|)])
  }

  /** No ncl bits in a row are free within the first k steps. */
  ghost predicate NoRun(u: seq<bool>, start: nat, k: nat, ncl: nat)
    requires start < |u| && k <= |u|
  {
    forall a: nat {:trigger HasUsed(u, start, a, ncl)} :: a + ncl <= k ==> HasUsed(u, start, a, ncl)
  }

  ghost predicate HasUsed(u: seq<bool>, start: nat, a: nat, ncl: nat)
    requires start < |u| && a + ncl <= |u|
  {
    exists t :: a <= t < a + ncl && u[Cyc(start, t, |u|)]
  }

  /** The ncl bits from bit `first` on, counted around the end, are free. */
  ghost predicate FreeRun(u: seq<bool>, first: nat, ncl: nat)
    requires first < |u|
  {
    ncl <= |u| && forall t {:trigger Cyc(first, t, |u|)} :: 0 <= t < ncl ==> !u[Cyc(first, t, |u|)]
  }

  /** The ncl bits from bit `first` on are the first run of free ones on the way once around from bit start. */
  ghost predicate FirstRun(u: seq<bool>, start: nat, first: nat, ncl: nat) {
    && start < |u| && first < |u| && 0 < ncl && FreeRun(u, first, ncl)
    && exists a: nat {:trigger Cyc(start, a, |u|)} ::
         a + ncl <= |u| && first == Cyc(start, a, |u|) && NoRun(u, start, a + ncl - 1, ncl)
  }

  /** One step of the scan. */
  lemma ScanStep(u: seq<bool>, start: nat, k: nat, ctr: nat, ncl: nat)
    requires start < |u| && k < |u| && Scanned(u, start, k, ctr) && ctr < ncl && NoRun(u, start, k, ncl)
    ensures var c := if u[Cyc(start, k, |u|)] then 0 else ctr + 1;
      Scanned(u, start, k + 1, c) && (c < ncl ==> NoRun(u, start, k + 1, ncl))
  {
    var c := if u[Cyc(start, k, |u|)] then 0 else ctr + 1;
    if c < ncl {
      forall a: nat {:trigger HasUsed(u, start, a, ncl)} | a + ncl <= k + 1 ensures HasUsed(u, start, a, ncl) {
        if a + ncl == k + 1 {
          var t := k - c;
          assert a <= t < a + ncl && u[Cyc(start, t, |u|)];
        }
      }
    }
  }

  /** The sector of a bit lies in the volume. */
  lemma BitInVolume(g: Geometry, v: seq<byte>, base: nat, j: nat)
    requires HasBitmap(g, v, base) && j < g.nFatent - 2
    ensures SS * (base + j / 8 / SS) < |v|
  {
  }

  /** Show the byte with bit j in the window. */
  method ShowBit(fs: FatFs, j: nat) returns (res: FRESULT)
    requires fs.Valid() && fs.Coherent() && HasBitmap(fs.g, fs.View(), fs.bitbase) && j < fs.g.nFatent - 2
    modifies fs`winsect, fs`wflag, fs`copyLost, fs.win, fs.drive
    ensures fs.Valid() && fs.Coherent() && fs.View() == old(fs.View()) && (old(fs.Mirrored()) ==> fs.Mirrored())
    ensures res == FR_OK || (res == FR_DISK_ERR && !fs.drive.reliable)
    ensures res == FR_OK ==> Showing(fs, j)
  {
    hide Image, CopyAgrees;
    BitInVolume(fs.g, fs.View(), fs.bitbase, j);
    res := fs.MoveWindow(fs.bitbase + j / 8 / SS);
  }

  /** The window shows the sector of bit j. */
  ghost predicate Showing(fs: FatFs, j: nat)
    requires fs.Valid()
    reads fs`winsect, fs`wflag, fs`copyLost, fs.win, fs.drive
  {
    var s := fs.bitbase + j / 8 / SS;
    fs.winsect == s && SS * s + SS <= |fs.View()| && fs.View()[SS * s..SS * s + SS] == fs.win[..]
  }

  lemma StillShowing(fs: FatFs, j: nat, j': nat)
    requires fs.Valid() && Showing(fs, j) && j' / 8 / SS == j / 8 / SS
    ensures Showing(fs, j')
  {
  }

  lemma WindowBit(fs: FatFs, j: nat)
    requires fs.Valid() && HasBitmap(fs.g, fs.View(), fs.bitbase) && j < fs.g.nFatent - 2 && Showing(fs, j)
    ensures And(fs.win[j / 8 % SS] as nat, Pow2(j % 8)) != 0 <==> Used(fs.g, fs.View(), fs.bitbase)[j]
  {
    hide Image;
    var s := fs.bitbase + j / 8 / SS;
    assert fs.View()[SS * s..SS * s + SS][j / 8 % SS] == fs.View()[SS * s + j / 8 % SS];
    assert SS * s + j / 8 % SS == SS * fs.bitbase + j / 8;
    AndBit(fs.win[j / 8 % SS] as nat, j % 8);
  }

  /** Read bit j; the window already shows it when `loaded`. */
  method ReadBit(fs: FatFs, j: nat, loaded: bool) returns (ok: bool, used: bool)
    requires fs.Valid() && fs.Coherent() && HasBitmap(fs.g, fs.View(), fs.bitbase) && j < fs.g.nFatent - 2
    requires loaded ==> Showing(fs, j)
    modifies fs`winsect, fs`wflag, fs`copyLost, fs.win, fs.drive
    ensures fs.Valid() && fs.Coherent() && fs.View() == old(fs.View()) && (old(fs.Mirrored()) ==> fs.Mirrored())
    ensures fs.drive.reliable ==> ok
    ensures ok ==> Showing(fs, j) && used == Used(fs.g, fs.View(), fs.bitbase)[j]
  {
    hide Image, CopyAgrees, And, Pow2, UsedAt, Showing, HasBitmap, Used;
    ok, used := true, false;
    if !loaded {
      var res := ShowBit(fs, j);
      ok := res == FR_OK;
    }
    if ok {
      WindowBit(fs, j);
      used := And(fs.win[j / 8 % SS] as nat, Pow2(j % 8)) != 0;
    }
  }

  /** Where a scan from start stands after k steps: at bit val, with the last ctr bits free from bit scl on. */
  ghost predicate Scan(u: seq<bool>, start: nat, k: nat, val: nat, scl: nat, ctr: nat, ncl: nat) {
    && start < |u| && ctr <= k <= |u| && ctr < ncl
    && val == Cyc(start, k, |u|) && scl == Cyc(start, k - ctr, |u|)
    && Scanned(u, start, k, ctr) && NoRun(u, start, k, ncl)
  }

  /** One turn of the scan, which met bit val in use or free. */
  lemma ScanTurn(u: seq<bool>, start: nat, k: nat, val: nat, scl: nat, ctr: nat, ncl: nat)
    requires Scan(u, start, k, val, scl, ctr, ncl) && k < |u|
    ensures val < |u|
    ensures var next := if val + 1 >= |u| then 0 else val + 1;
      if u[val] then Scan(u, start, k + 1, next, next, 0, ncl)
      else if ctr + 1 < ncl then Scan(u, start, k + 1, next, scl, ctr + 1, ncl)
      else scl < |u| && FirstRun(u, start, scl, ncl)
    ensures (if val + 1 >= |u| then 0 else val + 1) == start <==> k + 1 == |u|
  {
    hide Scanned, NoRun, FreeRun;
    ScanStep(u, start, k, ctr, ncl);
    if !u[val] && ctr + 1 == ncl {
      FoundRun(u, start, k + 1, ncl);
      assert Cyc(start, k - ctr, |u|) == scl && k - ctr + ncl - 1 == k;
    }
  }

  /** find_bitmap. The scan starts at cluster clst and goes once around the volume. It returns the first cluster of
      ncl free ones, counted around the end of the volume, or 0 when there are none in a row on its way. The two
      inner loops of the code, over the bits of a byte and over the bytes of the sector, are one loop here. */
  method FindBitmap(fs: FatFs, clst: nat, ncl: nat) returns (ret: nat)
    requires fs.Valid() && fs.Coherent() && HasBitmap(fs.g, fs.View(), fs.bitbase)
    requires ncl > 0 && clst < 0x1_0000_0000
    modifies fs`winsect, fs`wflag, fs`copyLost, fs.win, fs.drive
    ensures fs.Valid() && fs.Coherent() && fs.View() == old(fs.View()) && (old(fs.Mirrored()) ==> fs.Mirrored())
    ensures ret == 0 || ret == DISK_ERROR || 2 <= ret < fs.g.nFatent
    ensures var u := Used(fs.g, fs.View(), fs.bitbase);
      var start := if 2 <= clst < fs.g.nFatent then clst - 2 else 0;
      && (2 <= ret < fs.g.nFatent ==> FirstRun(u, start, ret - 2, ncl))
      && (ret == 0 ==> NoRun(u, start, |u|, ncl))
    ensures fs.drive.reliable ==> ret != DISK_ERROR
  {
    hide Image, CopyAgrees, Scan, NoRun, FirstRun, Showing, UsedAt, Cyc, HasBitmap, Used, FatFs.Mirrored;
    EocIsEnd(fs.g);
    var n := fs.g.nFatent - 2;
    ghost var u := Used(fs.g, fs.View(), fs.bitbase);
    var start := (clst - 2 + 0x1_0000_0000) % 0x1_0000_0000;
    if start >= n { start := 0; }
    var scl: nat, val: nat, ctr: nat := start, start, 0;
    var loaded := false;
    ScanStart(u, start, ncl);
    ghost var k: nat := 0;
    while true
      invariant fs.Valid() && fs.Coherent() && fs.View() == old(fs.View()) && (old(fs.Mirrored()) ==> fs.Mirrored())
      invariant k < n && ctr < ncl && Scan(u, start, k, val, scl, ctr, ncl)
      invariant loaded ==> val < n && Showing(fs, val)
      decreases n - k
    {
      ScanTurn(u, start, k, val, scl, ctr, ncl);
      var ok, used := ReadBit(fs, val, loaded);
      if !ok { return DISK_ERROR; }
      loaded := (val + 1) / 8 / SS == val / 8 / SS;   // the next bit is in the same sector
      if loaded { StillShowing(fs, val, val + 1); }
      val := val + 1;
      if val >= n { val, loaded := 0, false; }
      if !used {
        ctr := ctr + 1;
        if ctr == ncl { return scl + 2; }
      } else {
        scl, ctr := val, 0;
      }
      k := k + 1;
      if val == start {
        ScanEnd(u, start, val, scl, ctr, ncl);
        return 0;
      }
    }
  }

  lemma ScanStart(u: seq<bool>, start: nat, ncl: nat)
    requires start < |u| && ncl > 0
    ensures Scan(u, start, 0, start, start, 0, ncl)
  {
  }

  lemma ScanEnd(u: seq<bool>, start: nat, val: nat, scl: nat, ctr: nat, ncl: nat)
    requires Scan(u, start, |u|, val, scl, ctr, ncl)
    ensures start < |u| && NoRun(u, start, |u|, ncl)
  {
  }

  /** A completed run, counted from its first cluster. */
  lemma FoundRun(u: seq<bool>, start: nat, k: nat, ncl: nat)
    requires start < |u| && k <= |u| && 0 < ncl && Scanned(u, start, k, ncl)
    ensures FreeRun(u, Cyc(start, k - ncl, |u|), ncl)
  {
    var first := Cyc(start, k - ncl, |u|);
    forall t | 0 <= t < ncl ensures !u[Cyc(first, t, |u|)] {
      assert Cyc(first, t, |u|) == Cyc(start, k - ncl + t, |u|);
    }
  }

  /** find_bitmap for one cluster is complete: it finds nothing only when every cluster is in use. */
  lemma NoRunOfOne(u: seq<bool>, start: nat)
    requires start < |u|
    ensures NoRun(u, start, |u|, 1) <==> forall j :: 0 <= j < |u| ==> u[j]
  {
    if NoRun(u, start, |u|, 1) {
      forall j | 0 <= j < |u| ensures u[j] {
        var t := if j >= start then j - start else j + |u| - start;
        assert HasUsed(u, start, t, 1) && Cyc(start, t, |u|) == j;
      }
    } else {
      var a: nat :| a + 1 <= |u| && !HasUsed(u, start, a, 1);
      assert !u[Cyc(start, a, |u|)];
    }
  }

  /** u with the k bits from bit `first` on set to bv. */
  ghost function SetBits(u: seq<bool>, first: nat, k: nat, bv: bool): (u': seq<bool>)
    requires first + k <= |u|
    ensures |u'| == |u|
    ensures forall j {:trigger u'[j]} :: 0 <= j < |u| ==> u'[j] == if first <= j < first + k then bv else u[j]
  {
    seq(|u|, j requires 0 <= j < |u| => if first <= j < first + k then bv else u[j])
  }

  lemma SetOneMore(u: seq<bool>, first: nat, k: nat, bv: bool)
    requires first + k < |u|
    ensures SetBits(u, first, k, bv)[first + k := bv] == SetBits(u, first, k + 1, bv)
    ensures SetBits(u, first, k, bv)[first + k] == u[first + k]
    ensures SetBits(u, first, 0, bv) == u
  {
  }

  /** The view with bit j of the bitmap flipped. */
  ghost function Flipped(g: Geometry, v: seq<byte>, base: nat, j: nat): (v': seq<byte>)
    requires HasBitmap(g, v, base) && j < g.nFatent - 2
    ensures |v'| == |v|
  {
    var x := Xor(v[SS * base + j / 8] as nat, Pow2(j % 8));
    Splice(v, SS * base + j / 8, [x % 0x100])
  }

  lemma ByteXor(x: byte, k: nat)
    requires k < 8
    ensures Xor(x as nat, Pow2(k)) < 0x100
  {
    assert Pow2(0) == 1 && Pow2(1) == 2 && Pow2(2) == 4 && Pow2(3) == 8 && Pow2(4) == 16;
    assert Pow2(5) == 32 && Pow2(6) == 64 && Pow2(7) == 128 && Pow2(8) == 256;
    XorBound(x as nat, Pow2(k), 8);
  }

  lemma FlippedAt(g: Geometry, v: seq<byte>, base: nat, j: nat, i: nat)
    requires HasBitmap(g, v, base) && j < g.nFatent - 2 && i < g.nFatent - 2
    ensures UsedAt(g, Flipped(g, v, base, j), base, i) <==> UsedAt(g, v, base, i) != (i == j)
  {
    hide Bit, Xor, Pow2;
    var b := v[SS * base + j / 8];
    ByteXor(b, j % 8);
    if i / 8 == j / 8 { XorBit(b as nat, j % 8, i % 8); }
  }

  lemma FlippedElsewhere(g: Geometry, v: seq<byte>, base: nat, j: nat)
    requires HasBitmap(g, v, base) && j < g.nFatent - 2
    ensures HasBitmap(g, Flipped(g, v, base, j), base)
    ensures SameOutside(v, Flipped(g, v, base, j), SS * base, (g.nFatent - 2 + 7) / 8)
    ensures Links(g, Flipped(g, v, base, j)) == Links(g, v)
  {
    hide Links, Xor, Pow2;
    var v' := Flipped(g, v, base, j);
    assert forall b: nat {:trigger g.FatByte(b)} :: g.FatByte(b) ==> b < SS * g.database;
    SameLinks(g, v, v');
  }

  /** Flipping bit j changes that cluster's state and nothing else, neither another cluster's state nor the FAT. */
  lemma FlippedBit(g: Geometry, v: seq<byte>, base: nat, j: nat)
    requires HasBitmap(g, v, base) && j < g.nFatent - 2
    ensures HasBitmap(g, Flipped(g, v, base, j), base)
    ensures Used(g, Flipped(g, v, base, j), base) == Used(g, v, base)[j := !Used(g, v, base)[j]]
    ensures Links(g, Flipped(g, v, base, j)) == Links(g, v)
    ensures SameOutside(v, Flipped(g, v, base, j), SS * base, (g.nFatent - 2 + 7) / 8)
  {
    hide Links, Flipped, UsedAt, SameOutside, HasBitmap;
    FlippedElsewhere(g, v, base, j);
    forall i | 0 <= i < g.nFatent - 2
      ensures UsedAt(g, Flipped(g, v, base, j), base, i) == (UsedAt(g, v, base, i) != (i == j))
    {
      FlippedAt(g, v, base, j, i);
    }
  }

  /** The byte of bit j in its sector, and the view with it flipped there. */
  lemma FlippedInSector(g: Geometry, v: seq<byte>, base: nat, j: nat, s: nat, w: seq<byte>)
    requires HasBitmap(g, v, base) && j < g.nFatent - 2 && s == base + j / 8 / SS
    requires SS * s + SS <= |v| && v[SS * s..SS * s + SS] == w
    ensures var o := j / 8 % SS;
      var x := Xor(w[o] as nat, Pow2(j % 8));
      x < 0x100 && Splice(v, SS * s + o, [x % 0x100]) == Flipped(g, v, base, j)
  {
    hide Xor, Pow2, Splice;
    var o := j / 8 % SS;
    DivMod(j / 8, SS);
    assert SS * s + o == SS * base + j / 8;
    assert w[o] == v[SS * s + o];
    ByteXor(w[o], j % 8);
  }

  /** Flip bit j in the window that shows it. */
  method FlipBit(fs: FatFs, j: nat)
    requires fs.Valid() && fs.Coherent() && HasBitmap(fs.g, fs.View(), fs.bitbase) && j < fs.g.nFatent - 2
    requires Showing(fs, j)
    modifies fs`wflag, fs.win
    ensures fs.Valid() && fs.Coherent() && (old(fs.Mirrored()) ==> fs.Mirrored())
    ensures fs.View() == Flipped(fs.g, old(fs.View()), fs.bitbase, j)
    ensures Showing(fs, j)
  {
    hide Image, CopyAgrees, And, Xor, Pow2, Splice, Holds, Geometry.Valid, Flipped, HasBitmap, FatFs.Mirrored;
    ghost var v, s := fs.View(), fs.winsect;
    var o := j / 8 % SS;
    FlippedInSector(fs.g, v, fs.bitbase, j, s, fs.win[..]);
    assert fs.drive.sectors > s by { assert SS * s + SS <= SS * fs.drive.sectors; }
    BitmapNotCopy(fs.g, v, fs.bitbase, s);
    fs.Put(o, [Xor(fs.win[o] as nat, Pow2(j % 8))]);
    assert fs.Coherent();
    WindowShowsImage(fs.g, fs.drive.data, s, fs.win[..], true);
  }

  /** An exFAT volume has one FAT, so no sector is in a copy. */
  lemma BitmapNotCopy(g: Geometry, v: seq<byte>, base: nat, s: nat)
    requires HasBitmap(g, v, base)
    ensures !g.CopySector(s)
  {
  }

  /** The k bits from `first` on were not bv and are now, the others are as they were. */
  ghost predicate Changed(u: seq<bool>, u': seq<bool>, first: nat, k: nat, bv: bool) {
    && first + k <= |u| && u' == SetBits(u, first, k, bv)
    && forall j :: first <= j < first + k ==> u[j] == !bv
  }

  /** v' is v with the k bits from `first` on changed to bv, and the FAT as it was. */
  ghost predicate Flips(g: Geometry, v: seq<byte>, v': seq<byte>, base: nat, first: nat, k: nat, bv: bool)
    requires HasBitmap(g, v, base)
  {
    && HasBitmap(g, v', base) && Links(g, v') == Links(g, v)
    && SameOutside(v, v', SS * base, (g.nFatent - 2 + 7) / 8)
    && Changed(Used(g, v, base), Used(g, v', base), first, k, bv)
  }

  lemma FlipsStart(g: Geometry, v: seq<byte>, base: nat, first: nat, bv: bool)
    requires HasBitmap(g, v, base) && first < g.nFatent - 2
    ensures Flips(g, v, v, base, first, 0, bv)
  {
    SetOneMore(Used(g, v, base), first, 0, bv);
  }

  lemma FlipsStep(g: Geometry, v: seq<byte>, v': seq<byte>, base: nat, first: nat, k: nat, bv: bool)
    requires HasBitmap(g, v, base) && first + k < g.nFatent - 2 && Flips(g, v, v', base, first, k, bv)
    ensures Used(g, v', base)[first + k] == Used(g, v, base)[first + k]
    ensures Used(g, v', base)[first + k] != bv ==>
      Flips(g, v, Flipped(g, v', base, first + k), base, first, k + 1, bv)
  {
    hide HasBitmap, UsedAt, Links, Flipped;
    SetOneMore(Used(g, v, base), first, k, bv);
    FlippedBit(g, v', base, first + k);
  }

  /** change_bitmap: the ncl bits from cluster clst on change to bv; the first one that already is bv stops it. The
      two inner loops of the code are one loop here. */
  method ChangeBitmap(fs: FatFs, clst: nat, ncl: nat, bv: bool) returns (res: FRESULT, ghost k: nat)
    requires fs.Valid() && fs.Coherent() && HasBitmap(fs.g, fs.View(), fs.bitbase)
    requires 2 <= clst && ncl > 0 && clst + ncl <= fs.g.nFatent
    modifies fs`winsect, fs`wflag, fs`copyLost, fs.win, fs.drive
    ensures fs.Valid() && fs.Coherent() && (old(fs.Mirrored()) ==> fs.Mirrored())
    ensures res == FR_OK || res == FR_INT_ERR || (res == FR_DISK_ERR && !fs.drive.reliable)
    ensures k <= ncl && (res == FR_OK ==> k == ncl)
    ensures Flips(fs.g, old(fs.View()), fs.View(), fs.bitbase, clst - 2, k, bv)
    ensures res == FR_INT_ERR ==> k < ncl && Used(fs.g, old(fs.View()), fs.bitbase)[clst - 2 + k] == bv
  {
    hide Image, CopyAgrees, UsedAt, Showing, Links, HasBitmap, Used, SameOutside, Flipped, Changed, FatFs.Mirrored;
    hide FatFs.Coherent, Geometry.Valid;
    ghost var v := fs.View();
    var j := clst - 2;
    var left := ncl;
    var loaded := false;
    k := 0;
    FlipsStart(fs.g, v, fs.bitbase, j, bv);
    while true
      invariant fs.Valid() && fs.Coherent() && (old(fs.Mirrored()) ==> fs.Mirrored())
      invariant HasBitmap(fs.g, v, fs.bitbase) && Flips(fs.g, v, fs.View(), fs.bitbase, clst - 2, k, bv)
      invariant k < ncl && left == ncl - k && j == clst - 2 + k
      invariant loaded ==> Showing(fs, j)
      decreases ncl - k
    {
      FlipsStep(fs.g, v, fs.View(), fs.bitbase, clst - 2, k, bv);
      var ok, used := ReadBit(fs, j, loaded);
      if !ok { return FR_DISK_ERR, k; }
      if bv == used { return FR_INT_ERR, k; }
      FlipBit(fs, j);
      k := k + 1;
      left := left - 1;
      if left == 0 { return FR_OK, k; }
      loaded := (j + 1) / 8 / SS == j / 8 / SS;   // the next bit is in the same sector
      if loaded { StillShowing(fs, j, j + 1); }
      j := j + 1;
    }
  }

  /** Number of clear bits among the first j. */
  ghost function ClearBelow(u: seq<bool>, j: nat): (n: nat)
    requires j <= |u|
    ensures n <= j
  {
    if j == 0 then 0 else ClearBelow(u, j - 1) + if u[j - 1] then 0 else 1
  }

  /** Number of free clusters. */
  ghost function ClearBits(u: seq<bool>): nat { ClearBelow(u, |u|) }

  /** Changing one bit changes the count by that bit. */
  lemma {:induction false} ClearUpdate(u: seq<bool>, x: nat, bv: bool, j: nat)
    requires x < |u| && j <= |u|
    ensures ClearBelow(u[x := bv], j) + (if x < j && !u[x] then 1 else 0)
         == ClearBelow(u, j) + (if x < j && !bv then 1 else 0)
    decreases j
  {
    if j > 0 { ClearUpdate(u, x, bv, j - 1); }
  }

  /** The bits below j are all the clear ones exactly when none is clear from j on. */
  lemma {:induction false} ClearRest(u: seq<bool>, j: nat, m: nat)
    requires j <= m <= |u|
    ensures ClearBelow(u, j) <= ClearBelow(u, m)
    ensures ClearBelow(u, j) == ClearBelow(u, m) <==> forall i :: j <= i < m ==> u[i]
    decreases m
  {
    if j < m { ClearRest(u, j, m - 1); }
  }

  /** The free-cluster count, when the volume has one, is the number of clear bits. */
  ghost predicate BitsCounted(fs: FatFs)
    requires fs.Valid() && HasBitmap(fs.g, fs.View(), fs.bitbase)
    reads fs`winsect, fs`wflag, fs`copyLost, fs`freeClst, fs.win, fs.drive
  {
    fs.freeClst <= fs.g.nFatent - 2 ==> fs.freeClst == ClearBits(Used(fs.g, fs.View(), fs.bitbase))
  }

  /** x without its n low binary digits: `x >> n`. */
  function Shifted(x: nat, n: nat): nat { if n == 0 then x else Shifted(x / 2, n - 1) }

  /** The lowest digit after shifting by n is digit n. */
  lemma {:induction false} ShiftedBit(x: nat, n: nat)
    ensures Shifted(x, n) % 2 == 1 <==> Bit(x, n)
    ensures Shifted(x, n + 1) == Shifted(x, n) / 2
    decreases n
  {
    if n > 0 { ShiftedBit(x / 2, n - 1); } else { assert Shifted(x, 1) == Shifted(x / 2, 0); }
  }

  /** Count the clear bits of the byte of the window that begins with bit j, as far as it has bits of the bitmap. */
  method CountByte(fs: FatFs, j: nat) returns (bits: nat, n: nat)
    requires fs.Valid() && HasBitmap(fs.g, fs.View(), fs.bitbase) && j < fs.g.nFatent - 2 && j % 8 == 0
    requires Showing(fs, j)
    ensures bits == if fs.g.nFatent - 2 - j < 8 then fs.g.nFatent - 2 - j else 8
    ensures var u := Used(fs.g, fs.View(), fs.bitbase); n == ClearBelow(u, j + bits) - ClearBelow(u, j)
  {
    hide Image, Showing, HasBitmap, UsedAt, Pow2, And, Bit, Shifted;
    ghost var u := Used(fs.g, fs.View(), fs.bitbase);
    var i := j / 8 % SS;
    ghost var x := fs.win[i] as nat;
    var clst, bm, b := fs.g.nFatent - 2 - j, fs.win[i] as nat, 8;
    bits, n := 0, 0;
    assert bm == Shifted(x, 0) by { ShiftNone(x); }
    while b > 0 && clst > 0
      invariant b == 8 - bits && 0 <= clst == fs.g.nFatent - 2 - j - bits && bm == Shifted(x, bits)
      invariant n == ClearBelow(u, j + bits) - ClearBelow(u, j)
    {
      SameByte(j, bits);
      StillShowing(fs, j, j + bits);
      WindowBit(fs, j + bits);
      AndBit(x, bits);
      ShiftedBit(x, bits);
      if bm % 2 == 0 { n := n + 1; }
      bm := bm / 2;
      bits, b, clst := bits + 1, b - 1, clst - 1;
    }
  }

  lemma ShiftNone(x: nat)
    ensures Shifted(x, 0) == x
  {
  }

  lemma SameByte(j: nat, i: nat)
    requires j % 8 == 0 && i < 8
    ensures (j + i) / 8 == j / 8 && (j + i) % 8 == i
  {
  }

  /** The scan of the bitmap in f_getfree, byte by byte through the window; k bits are counted when it ends. */
  method ScanBitmap(fs: FatFs) returns (res: FRESULT, nfree: nat, ghost k: nat)
    requires fs.Valid() && fs.Coherent() && HasBitmap(fs.g, fs.View(), fs.bitbase)
    modifies fs`winsect, fs`wflag, fs`copyLost, fs.win, fs.drive
    ensures fs.Valid() && fs.Coherent() && fs.View() == old(fs.View()) && (old(fs.Mirrored()) ==> fs.Mirrored())
    ensures res == FR_OK || (res == FR_DISK_ERR && !fs.drive.reliable)
    ensures k <= fs.g.nFatent - 2 && (res == FR_OK <==> k == fs.g.nFatent - 2)
    ensures nfree == ClearBelow(Used(fs.g, fs.View(), fs.bitbase), k)
  {
    hide Image, CopyAgrees, Showing, HasBitmap, UsedAt, Used;
    res, nfree, k := FR_OK, 0, 0;
    var clst, i, j := fs.g.nFatent - 2, 0, 0;
    while true
      invariant fs.Valid() && fs.Coherent() && fs.View() == old(fs.View()) && (old(fs.Mirrored()) ==> fs.Mirrored())
      invariant res == FR_OK && j == k < fs.g.nFatent - 2 && clst == fs.g.nFatent - 2 - k
      invariant k % 8 == 0 && i == k / 8 % SS && (i != 0 ==> Showing(fs, k))
      invariant nfree == ClearBelow(Used(fs.g, fs.View(), fs.bitbase), k)
      decreases clst
    {
      if i == 0 {
        res := ShowBit(fs, j);
        if res != FR_OK { break; }
      }
      var bits, n := CountByte(fs, j);
      nfree, clst := nfree + n, clst - bits;
      i := (i + 1) % SS;
      NextByte(k);
      if i != 0 { StillShowing(fs, k, k + 8); }
      j, k := j + bits, k + bits;
      if clst == 0 { break; }
    }
  }

  /** The byte behind the one with bit k is in the same sector, or begins the next one. */
  lemma NextByte(k: nat)
    requires k % 8 == 0
    ensures (k + 8) % 8 == 0 && (k + 8) / 8 == k / 8 + 1 && (k / 8 + 1) % SS == (k / 8 % SS + 1) % SS
    ensures (k / 8 % SS + 1) % SS != 0 ==> (k / 8 + 1) / SS == k / 8 / SS
  {
    var x := k / 8;
    DivMod(x, SS);
    if x % SS + 1 < SS {
      DivUnique(x + 1, SS, x / SS, x % SS + 1);
    } else {
      DivUnique(x + 1, SS, x / SS + 1, 0);
    }
  }
}
