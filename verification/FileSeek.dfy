/** f_lseek (normal seek) and f_truncate on FAT12/16/32 volumes. */
module FileSeek {
  import opened Bits
  import opened Storage
  import opened Volume
  import opened FatTable
  import opened Chains
  import opened FileData
  import opened Allocator
  import opened FileRead
  import opened FileWrite

  /** `x & ~(b - 1)` clears the bits of x below b. */
  function ClearBelow(x: nat, b: nat): int
    requires b > 0
  {
    x - And(x, b - 1)
  }

  /** `(ifptr - 1) & ~(bcs - 1)` is the file offset of the cluster that holds byte ifptr - 1. */
  lemma ClusterStart(g: Geometry, q: nat, f: nat)
    requires g.csize > 0 && IsPow2(g.csize) && Ofs(g, q) <= f < Ofs(g, q) + g.ClusterBytes()
    ensures ClearBelow(f, g.ClusterBytes()) == Ofs(g, q) && f / g.ClusterBytes() == q
  {
    var k: nat :| g.csize == Pow2(k);
    PowTimes512(k);
    MaskIsMod(f, k + 9);
    DivUnique(f, g.ClusterBytes(), q, f - Ofs(g, q));
  }

  lemma PowTimes512(k: nat)
    ensures Pow2(k + 9) == SS * Pow2(k)
  {
    assert Pow2(k + 9) == 2 * Pow2(k + 8) == 4 * Pow2(k + 7) == 8 * Pow2(k + 6);
    assert Pow2(k + 6) == 2 * Pow2(k + 5) == 4 * Pow2(k + 4) == 8 * Pow2(k + 3);
    assert Pow2(k + 3) == 2 * Pow2(k + 2) == 4 * Pow2(k + 1) == 8 * Pow2(k);
  }

  /** The cluster the seek starts from: the current one when the target is in it or behind it. */
  predicate FromCurrent(ofs: nat, ifptr: nat, bcs: nat)
    requires ofs > 0 && bcs > 0
  {
    ifptr > 0 && (ofs - 1) / bcs >= (ifptr - 1) / bcs
  }

  /** Seeking onwards from the current cluster is right exactly when the target is not before it. */
  lemma FromCurrentMeans(g: Geometry, q: nat, ofs: nat, f: nat)
    requires g.csize > 0 && ofs > 0 && Ofs(g, q) < f <= Ofs(g, q) + g.ClusterBytes()
    ensures FromCurrent(ofs, f, g.ClusterBytes()) <==> ofs > Ofs(g, q)
  {
    var b := g.ClusterBytes();
    DivUnique(f - 1, b, q, f - 1 - Ofs(g, q));
    var p := (ofs - 1) / b;
    assert ofs - 1 == p * b + (ofs - 1) % b;
    if p >= q { MulMono(q, p, b); } else { MulMono(p + 1, q, b); }
  }

  /** What a seek keeps: the chain only grew by free clusters, in read-only mode nothing changed at all. */
  ghost predicate SeekKeeps(fp: Fil, v: seq<byte>, ch: seq<nat>, size: nat)
    requires fp.Based()
    reads fp`sclust, fp`chain, fp`objsize, fp`sect, fp.fs`winsect, fp.fs`wflag, fp.fs`copyLost, fp.fs.win, fp.fs.drive
  {
    && Since(fp, v, ch) && size <= fp.objsize
    && (!fp.writable ==> fp.fs.View() == v && fp.chain == ch && fp.objsize == size)
  }

  lemma SeekNoOnes(fp: Fil, v: seq<byte>, ch: seq<nat>, size: nat)
    requires fp.Based() && SeekKeeps(fp, v, ch, size)
    ensures Sized(fp.fs.g, v) && (NoOnes(Links(fp.fs.g, v)) ==> NoOnes(Table(fp.fs)))
  {
    hide NoOnes, Image, CopyAgrees, Links, Data, Geometry.DataFits, Untouched, IsChain;
    if NoOnes(Links(fp.fs.g, v)) { GrewNoOnes(fp.fs.g, v, ch, fp.fs.View(), fp.chain); }
  }

  /** The loop of f_lseek stands at the beginning of its current cluster. */
  ghost predicate AtClusterStart(fp: Fil)
    reads fp`idx, fp`chain, fp`clust, fp`fptr
  {
    fp.idx < |fp.chain| && fp.clust == fp.chain[fp.idx] && fp.fptr == Ofs(fp.fs.g, fp.idx)
  }

  /** Following the chain in f_lseek's loop: by create_chain in write mode, by get_fat otherwise. */
  method FollowSeek(fp: Fil, ghost v: seq<byte>, ghost ch: seq<nat>, ghost size: nat)
      returns (res: FRESULT, full: bool)
    requires fp.Valid() && fp.fptr > 0 && fp.fptr == Ofs(fp.fs.g, fp.idx) + fp.fs.g.ClusterBytes()
    requires !fp.writable ==> fp.fptr < fp.objsize
    requires SeekKeeps(fp, v, ch, size)
    modifies fp`chain, fp`sclust, fp`clust, fp`idx, fp.fs, fp.fs.win, fp.fs.drive
    ensures fp.fs.Valid() && (old(fp.fs.Mirrored()) ==> fp.fs.Mirrored())
    ensures res == FR_OK && old(CountRight(fp.fs)) ==> CountRight(fp.fs)
    ensures res == FR_OK ==> fp.Based() && SeekKeeps(fp, v, ch, size)
    ensures res == FR_OK && full ==>
      fp.Valid() && fp.writable && AtEnd(fp) && (fp.fs.freeClst == 0 || NoFree(Table(fp.fs)))
    ensures Excused(fp.fs, !fp.writable || NoOnes(Links(fp.fs.g, v)), res)
    ensures res == FR_OK && !full ==> AtClusterStart(fp)
  {
    hide NoOnes, NoFree, Image, CopyAgrees, Links, Ofs, Data, Geometry.DataFits, Grew, FatFs.Coherent, Sized;
    hide Geometry.Valid, FatFs.Mirrored;
    var g := fp.fs.g;
    ghost var q, v1, ch1 := IndexAt(fp), fp.fs.View(), fp.chain;
    OfsStep(g, fp.idx);
    ChainInRange(g, Table(fp.fs), ch1);
    EocIsEnd(g);
    SeekNoOnes(fp, v, ch, size);
    res, full := FR_OK, false;
    var clst;
    if fp.writable {
      clst := NextWrite(fp);
      if clst == 0 { full := true; return; }
    } else {
      OfsIndex(g, q, |fp.chain|, fp.fptr);
      clst := NextRead(fp);
    }
    if clst == DISK_ERROR { res := FR_DISK_ERR; return; }
    if clst <= 1 || clst >= g.nFatent { res := FR_INT_ERR; return; }
    if fp.writable {
      GrewTrans(g, v, ch, v1, ch1, fp.fs.View(), fp.chain);
    }
    fp.clust, fp.idx := clst, q;
  }

  /** One step of f_lseek's loop over the current cluster: the file grows with the file pointer in write mode. */
  method PassCluster(fp: Fil, ghost v: seq<byte>, ghost ch: seq<nat>, ghost size: nat)
    requires fp.Based() && AtClusterStart(fp) && fp.fptr <= fp.objsize && SeekKeeps(fp, v, ch, size)
    requires fp.fptr + fp.fs.g.ClusterBytes() <= 0xFFFFFFFF
    requires !fp.writable ==> fp.fptr + fp.fs.g.ClusterBytes() <= fp.objsize
    modifies fp`fptr, fp`objsize, fp`modified
    ensures fp.Valid() && SeekKeeps(fp, v, ch, size) && fp.fptr == old(fp.fptr) + fp.fs.g.ClusterBytes()
    ensures fp.fptr > 0 && fp.fptr == Ofs(fp.fs.g, fp.idx) + fp.fs.g.ClusterBytes() && fp.fptr % SS == 0
    ensures fp.objsize == if fp.writable then Max(old(fp.objsize), fp.fptr) else old(fp.objsize)
    ensures fp.modified <==> old(fp.modified) || fp.objsize > old(fp.objsize)
  {
    hide NoOnes, Image, CopyAgrees, Links, Ofs, Data, Geometry.DataFits, Grew, IsChain, Clst2Sect;
    Positive(fp.fs.g, fp.fs.View());
    OfsAligned(fp.fs.g, fp.idx + 1);
    OfsStep(fp.fs.g, fp.idx);
    OfsMono(fp.fs.g, fp.idx + 1, |fp.chain|);
    fp.fptr := fp.fptr + fp.fs.g.ClusterBytes();
    if fp.writable && fp.fptr > fp.objsize {
      fp.objsize := fp.fptr;
      fp.modified := true;
    }
  }

  /** The cluster following loop of f_lseek. What is left of the offset afterwards lies in the current cluster; it
      is 0 when the volume got full, with the file pointer at the end of the last cluster. */
  method SeekLoop(fp: Fil, rest: nat, ghost v: seq<byte>, ghost ch: seq<nat>, ghost size: nat)
      returns (res: FRESULT, ofs: nat)
    requires fp.Based() && AtClusterStart(fp) && fp.fptr <= fp.objsize && SeekKeeps(fp, v, ch, size)
    requires 0 < rest && fp.fptr + rest <= 0xFFFFFFFF && (!fp.writable ==> fp.fptr + rest <= fp.objsize)
    modifies fp`chain, fp`sclust, fp`clust, fp`idx, fp`fptr, fp`objsize, fp`modified, fp.fs, fp.fs.win, fp.fs.drive
    ensures fp.fs.Valid() && (old(fp.fs.Mirrored()) ==> fp.fs.Mirrored())
    ensures res == FR_OK && old(CountRight(fp.fs)) ==> CountRight(fp.fs)
    ensures res == FR_OK ==> fp.Based() && SeekKeeps(fp, v, ch, size) && fp.fptr <= fp.objsize
    ensures Excused(fp.fs, !fp.writable || NoOnes(Links(fp.fs.g, v)), res)
    ensures res == FR_OK ==> fp.objsize == old(fp.objsize) || fp.objsize == fp.fptr
    ensures fp.objsize >= old(fp.objsize) && (fp.modified <==> old(fp.modified) || fp.objsize > old(fp.objsize))
    ensures res == FR_OK && ofs == 0 ==> fp.Valid() && fp.writable && fp.fptr % SS == 0 && AtEnd(fp)
    ensures res == FR_OK && ofs == 0 ==> fp.fptr < old(fp.fptr) + rest && (fp.fs.freeClst == 0 || NoFree(Table(fp.fs)))
    ensures res == FR_OK && ofs > 0 ==>
      AtClusterStart(fp) && ofs <= fp.fs.g.ClusterBytes() && fp.fptr + ofs == old(fp.fptr) + rest
  {
    hide NoOnes, NoFree, Image, CopyAgrees, Links, Ofs, Data, Geometry.DataFits, Grew, IsChain, CountRight;
    var bcs := fp.fs.g.ClusterBytes();
    Positive(fp.fs.g, fp.fs.View());
    res, ofs := FR_OK, rest;
    while ofs > bcs
      invariant fp.Based() && AtClusterStart(fp) && fp.fptr <= fp.objsize && SeekKeeps(fp, v, ch, size)
      invariant old(fp.fs.Mirrored()) ==> fp.fs.Mirrored()
      invariant old(CountRight(fp.fs)) ==> CountRight(fp.fs)
      invariant 0 < ofs && fp.fptr + ofs == old(fp.fptr) + rest && res == FR_OK
      invariant fp.objsize == old(fp.objsize) || fp.objsize == fp.fptr
      invariant fp.objsize >= old(fp.objsize) && (fp.modified <==> old(fp.modified) || fp.objsize > old(fp.objsize))
      invariant !fp.writable ==> fp.fptr + ofs <= fp.objsize
      decreases ofs
    {
      ofs := ofs - bcs;
      PassCluster(fp, v, ch, size);
      var full;
      res, full := FollowSeek(fp, v, ch, size);
      if res != FR_OK { return; }
      if full { ofs := 0; return; }
    }
  }

  /** Where a seek to ofs ends: a read-only file is not left, and a FAT file ends below 4 GiB. */
  function SeekTarget(ofs: nat, size: nat, writable: bool): nat {
    var o := if ofs >= 0x1_0000_0000 then 0xFFFFFFFF else ofs;
    if o > size && !writable then size else o
  }

  /** In read-only mode the target is min(ofs, size), in write mode min(ofs, 2^32 - 1). */
  lemma SeekTargetIs(ofs: nat, size: nat, writable: bool)
    requires size <= 0xFFFF_FFFF
    ensures var limit, t := if writable then 0xFFFF_FFFF else size, SeekTarget(ofs, size, writable);
      t <= ofs && t <= limit && (t == ofs || t == limit)
  {
  }

  /** The first half of f_lseek: start from the current cluster or from the top of the file. ofs is what is left
      of the offset, none when the volume is full and the file has no cluster. */
  method SeekStart(fp: Fil, target: nat) returns (res: FRESULT, ofs: nat)
    requires fp.Valid() && 0 < target <= 0xFFFFFFFF && (!fp.writable ==> target <= fp.objsize)
    modifies fp`chain, fp`sclust, fp`clust, fp`idx, fp`fptr, fp.fs, fp.fs.win, fp.fs.drive
    ensures fp.fs.Valid() && (old(fp.fs.Mirrored()) ==> fp.fs.Mirrored())
    ensures res == FR_OK && old(CountRight(fp.fs)) ==> CountRight(fp.fs)
    ensures res == FR_OK ==> fp.Based() && SeekKeeps(fp, old(fp.fs.View()), old(fp.chain), fp.objsize)
    ensures Excused(fp.fs, !fp.writable || old(NoOnes(Table(fp.fs))), res)
    ensures res == FR_OK && ofs > 0 ==> AtClusterStart(fp) && fp.fptr + ofs == target && fp.fptr <= fp.objsize
    ensures res == FR_OK && ofs == 0 ==>
      fp.fptr == 0 && fp.chain == [] && fp.writable && (fp.fs.freeClst == 0 || NoFree(Table(fp.fs)))
  {
    hide Image, CopyAgrees, Links, Ofs, Data, Geometry.DataFits, Grew, FatFs.Mirrored, CountRight, FatFs.Coherent;
    hide Sized, Geometry.Valid, NoOnes, NoFree, Table;
    var g := fp.fs.g;
    Positive(g, fp.fs.View());
    ChainInRange(g, Table(fp.fs), fp.chain);
    FollowGrew(g, fp.fs.View(), fp.chain);
    var bcs := g.ClusterBytes();
    var ifptr := fp.fptr;
    res, ofs := FR_OK, target;
    if ifptr > 0 { FromCurrentMeans(g, fp.idx, target, ifptr); }
    if FromCurrent(ofs, ifptr, bcs) {
      ClusterStart(g, fp.idx, ifptr - 1);
      fp.fptr := ClearBelow(ifptr - 1, bcs);
      ofs := ofs - fp.fptr;
    } else {
      fp.fptr := 0;
      OfsStep(g, 0);
      var clst := fp.sclust;
      if clst == 0 {
        clst := NextWrite(fp);
        if clst == 1 { res := FR_INT_ERR; return; }
        if clst == DISK_ERROR { res := FR_DISK_ERR; return; }
        if clst == 0 { fp.clust, ofs := 0, 0; return; }
      }
      fp.clust, fp.idx := clst, 0;
    }
  }

  lemma SeekSector(g: Geometry, q: nat, ofs: nat)
    requires ofs <= g.ClusterBytes()
    ensures (Ofs(g, q) + ofs) % SS == ofs % SS && (ofs % SS != 0 ==> ofs / SS < g.csize)
  {
    hide Ofs;
    OfsAligned(g, q);
    var m := q * g.csize;
    DivUnique(Ofs(g, q) + ofs, SS, m + ofs / SS, ofs % SS);
  }

  /** The end of f_lseek: the offset inside the current cluster, the sector of the file pointer, the file size. */
  method SeekEnd(fp: Fil, ofs: nat)
    requires fp.Based() && AtClusterStart(fp) && fp.fptr <= fp.objsize && fp.fptr + ofs <= 0xFFFFFFFF
    requires 0 < ofs <= fp.fs.g.ClusterBytes()
    modifies fp`fptr, fp`objsize, fp`sect, fp`modified
    ensures fp.Valid() && fp.fptr == old(fp.fptr) + ofs && fp.objsize == Max(old(fp.objsize), fp.fptr)
    ensures fp.modified <==> old(fp.modified) || fp.objsize > old(fp.objsize)
  {
    hide Image, CopyAgrees, Links, Data, Clst2Sect, Ofs, Geometry.DataFits, FatFs.Mirrored, CountRight;
    hide FatFs.Coherent, Geometry.Valid;
    var g := fp.fs.g;
    OfsStep(g, fp.idx);
    OfsMono(g, fp.idx + 1, |fp.chain|);
    ClusterBounds(g, fp.fs.View(), fp.clust);
    SeekSector(g, fp.idx, ofs);
    var nsect := 0;
    fp.fptr := fp.fptr + ofs;
    if ofs % SS != 0 {
      nsect := Clst2Sect(g, fp.clust);
      nsect := nsect + ofs / SS;
    }
    if fp.fptr > fp.objsize {
      fp.objsize := fp.fptr;
      fp.modified := true;
    }
    if fp.fptr % SS != 0 && nsect != fp.sect { fp.sect := nsect; }
  }

  /** f_lseek. In read-only mode the file pointer ends at min(ofs, size) and the volume is as before. In write mode
      the file grows up to the offset, its old bytes staying, unless its last cluster is used up and none is free; the
      new bytes are whatever the allocated clusters hold. */
  method FLseek(fp: Fil, ofs: nat) returns (res: FRESULT)
    requires fp.Valid()
    modifies fp, fp.fs, fp.fs.win, fp.fs.drive
    ensures fp.fs.Valid() && (old(fp.fs.Mirrored()) ==> fp.fs.Mirrored())
    ensures res == FR_OK <==> old(fp.err) == FR_OK && fp.err == FR_OK
    ensures res == FR_OK && old(CountRight(fp.fs)) ==> CountRight(fp.fs)
    ensures res == FR_OK ==> fp.Valid() && Since(fp, old(fp.fs.View()), old(fp.chain))
    ensures res == FR_OK && !fp.writable ==>
      fp.fs.View() == old(fp.fs.View()) && fp.chain == old(fp.chain) && fp.objsize == old(fp.objsize)
    ensures var target := SeekTarget(ofs, old(fp.objsize), fp.writable);
      && (res == FR_OK ==> fp.fptr <= target && fp.objsize == Max(old(fp.objsize), fp.fptr))
      && (res == FR_OK && fp.fptr < target ==>
            fp.writable && AtEnd(fp) && (fp.fs.freeClst == 0 || NoFree(Table(fp.fs))))
    ensures res == FR_OK ==> fp.Content()[..old(fp.objsize)] == old(fp.Content())
    // the directory entry is to be written when the file has grown
    ensures fp.modified <==> old(fp.modified) || fp.objsize > old(fp.objsize)
    // the errors: an earlier one, a failing drive or a damaged FAT
    ensures old(fp.err) != FR_OK ==> res == old(fp.err) && unchanged(fp)
    ensures old(fp.err) == FR_OK ==> Excused(fp.fs, !fp.writable || old(NoOnes(Table(fp.fs))), res)
  {
    hide NoOnes, NoFree, Image, CopyAgrees, Links, Ofs, Data, Geometry.DataFits, Grew, IsChain, Fil.CursorAt;
    hide FatFs.Mirrored, CountRight, FatFs.Coherent, Sized, Geometry.Valid;
    res := fp.err;
    if res != FR_OK { return; }
    ghost var v, ch, size := fp.fs.View(), fp.chain, fp.objsize;
    ChainInRange(fp.fs.g, Table(fp.fs), ch);
    FollowGrew(fp.fs.g, v, ch);
    var left := if ofs >= 0x1_0000_0000 then 0xFFFFFFFF else ofs;
    if left > fp.objsize && !fp.writable { left := fp.objsize; }
    if left == 0 {
      fp.fptr := 0;
      CursorAtTop(fp);
      return;
    }
    res, left := SeekStart(fp, left);
    if res != FR_OK { fp.err := res; return; }
    if left == 0 { CursorAtTop(fp); OfsStep(fp.fs.g, 0); return; }
    res, left := SeekLoop(fp, left, v, ch, size);
    if res != FR_OK { fp.err := res; return; }
    if left > 0 { SeekEnd(fp, left); }
  }

  lemma CursorAtTop(fp: Fil)
    requires fp.fptr == 0
    ensures fp.CursorAt(0)
  {
  }

  /** The table after truncating chain ch to its first k clusters. */
  ghost function Truncated(t: seq<nat>, ch: seq<nat>, k: nat, eoc: nat): (t': seq<nat>)
    requires k <= |ch| && (ch == [] || IsChain(t, ch))
    ensures |t'| == |t|
  {
    if k == |ch| then t
    else Freed(Cut(t, if k == 0 then 0 else ch[k - 1], eoc), ch[k..])
  }

  /** Truncating keeps the first clusters as a chain. */
  lemma TruncatedChain(t: seq<nat>, ch: seq<nat>, k: nat, eoc: nat)
    requires k <= |ch| && (ch == [] || IsChain(t, ch)) && eoc >= |t|
    ensures k > 0 ==> IsChain(Truncated(t, ch, k, eoc), ch[..k])
  {
    if 0 < k < |ch| {
      var t1 := t[ch[k - 1] := eoc];
      ChainCut(t, ch, k, eoc);
      ChainDistinct(t, ch);
      forall i | 0 <= i < k ensures ch[..k][i] !in ch[k..] {
      }
      ChainFrame(t1, Freed(t1, ch[k..]), ch[..k]);
    } else if k == |ch| {
      assert ch[..k] == ch;
    }
  }

  lemma TruncatedAll(t: seq<nat>, ch: seq<nat>, eoc: nat)
    requires IsChain(t, ch)
    ensures Truncated(t, ch, 0, eoc) == Freed(t, ch) && |t| > 0 && Cut(t, 0, eoc) == t
  {
    assert ch[0..] == ch;
  }

  /** What truncating behind position q of a chain finds there: the rest of the chain, or its end. */
  lemma TruncatedBehind(t: seq<nat>, ch: seq<nat>, q: nat, eoc: nat)
    requires IsChain(t, ch) && q < |ch| && eoc >= |t|
    ensures 2 <= ch[q] < |t| && t[ch[q]] >= 2 && (t[ch[q]] < |t| <==> q + 1 < |ch|)
    ensures q + 1 < |ch| ==> var rest := ch[q + 1..];
      && IsChain(Cut(t, ch[q], eoc), rest) && rest[0] == t[ch[q]]
      && Truncated(t, ch, q + 1, eoc) == Freed(Cut(t, ch[q], eoc), rest)
    ensures q + 1 == |ch| ==> Truncated(t, ch, q + 1, eoc) == t
  {
    if q + 1 < |ch| {
      assert t[ch[q]] == ch[q + 1];
      ChainCut(t, ch, q + 1, eoc);
    }
  }

  /** The part of f_truncate for a file pointer inside the file: free the clusters behind the current one. */
  method RemoveBehind(fp: Fil) returns (res: FRESULT)
    requires fp.Valid() && 0 < fp.fptr < fp.objsize
    modifies fp.fs, fp.fs.win, fp.fs.drive
    ensures fp.fs.Valid() && (old(fp.fs.Mirrored()) ==> fp.fs.Mirrored())
    ensures res == FR_OK && old(CountRight(fp.fs)) ==> CountRight(fp.fs)
    ensures fp.idx < |fp.chain| && IsChain(old(Table(fp.fs)), fp.chain)
    ensures res == FR_OK || (res == FR_DISK_ERR && !fp.fs.drive.reliable)
    ensures res == FR_OK ==> fp.fs.Coherent()
    ensures res == FR_OK ==> Table(fp.fs) == Truncated(old(Table(fp.fs)), fp.chain, fp.idx + 1, Eoc(fp.fs.g))
    ensures res == FR_OK ==>
      SameOutside(old(fp.fs.View()), fp.fs.View(), SS * fp.fs.g.fatbase, SS * fp.fs.g.fsize)
  {
    hide Image, CopyAgrees, Links, Ofs, Data, Geometry.DataFits, IsChain, Truncated, Freed, Cut;
    hide FatFs.Mirrored, Sized, Geometry.Valid;
    ghost var t, ch, k := Table(fp.fs), fp.chain, fp.idx + 1;
    EocIsEnd(fp.fs.g);
    TruncatedBehind(t, ch, fp.idx, Eoc(fp.fs.g));
    var ncl := GetFat(fp.fs, fp.clust);
    if ncl == DISK_ERROR { res := FR_DISK_ERR; return; }
    if ncl == 1 { res := FR_INT_ERR; return; }
    res := FR_OK;
    if ncl < fp.fs.g.nFatent {
      res := RemoveChain(fp.fs, ncl, fp.clust, ch[k..]);
    }
  }

  /** The removal done by f_truncate. */
  method RemoveTail(fp: Fil) returns (res: FRESULT)
    requires fp.Valid() && fp.fptr < fp.objsize
    modifies fp`sclust, fp.fs, fp.fs.win, fp.fs.drive
    ensures fp.fs.Valid() && (old(fp.fs.Mirrored()) ==> fp.fs.Mirrored())
    ensures res == FR_OK && old(CountRight(fp.fs)) ==> CountRight(fp.fs)
    ensures res == FR_OK || (res == FR_DISK_ERR && !fp.fs.drive.reliable)
    ensures fp.chain != [] && IsChain(old(Table(fp.fs)), fp.chain) && (fp.fptr > 0 ==> fp.idx < |fp.chain|)
    ensures res == FR_OK ==> fp.fs.Coherent() && fp.sclust == if fp.fptr == 0 then 0 else old(fp.sclust)
    ensures var k := if fp.fptr == 0 then 0 else fp.idx + 1;
      res == FR_OK ==> Table(fp.fs) == Truncated(old(Table(fp.fs)), fp.chain, k, Eoc(fp.fs.g))
    ensures res == FR_OK ==>
      SameOutside(old(fp.fs.View()), fp.fs.View(), SS * fp.fs.g.fatbase, SS * fp.fs.g.fsize)
  {
    hide Image, CopyAgrees, Links, Ofs, Data, Geometry.DataFits, Truncated, IsChain, Freed;
    if fp.fptr == 0 {
      OfsStep(fp.fs.g, 0);
      TruncatedAll(Table(fp.fs), fp.chain, Eoc(fp.fs.g));
      res := RemoveChain(fp.fs, fp.sclust, 0, fp.chain);
      fp.sclust := 0;
    } else {
      res := RemoveBehind(fp);
    }
  }

  /** f_truncate: the file is cut at the file pointer, and exactly the clusters behind it become free. */
  method FTruncate(fp: Fil) returns (res: FRESULT)
    requires fp.Valid()
    modifies fp, fp.fs, fp.fs.win, fp.fs.drive
    ensures fp.fs.Valid() && (old(fp.fs.Mirrored()) ==> fp.fs.Mirrored())
    ensures res == FR_OK <==> old(fp.err) == FR_OK && fp.writable && fp.err == FR_OK
    ensures res == FR_OK && old(CountRight(fp.fs)) ==> CountRight(fp.fs)
    ensures res == FR_OK ==> fp.Valid() && fp.fptr == fp.objsize == old(fp.fptr)
    ensures res == FR_OK ==> fp.Content() == old(fp.Content())[..fp.objsize]
    ensures res == FR_OK ==>
      SameOutside(old(fp.fs.View()), fp.fs.View(), SS * fp.fs.g.fatbase, SS * fp.fs.g.fsize)
    ensures res == FR_OK && old(fp.fptr < fp.objsize) ==>
      var k := if fp.objsize == 0 then 0 else fp.idx + 1;
      && k <= |old(fp.chain)| && fp.chain == old(fp.chain)[..k]
      && old(fp.chain == [] || IsChain(Table(fp.fs), fp.chain))
      && Table(fp.fs) == Truncated(old(Table(fp.fs)), old(fp.chain), k, Eoc(fp.fs.g))
    ensures res == FR_OK && old(fp.fptr == fp.objsize) ==>
      fp.fs.View() == old(fp.fs.View()) && fp.chain == old(fp.chain)
    ensures fp.modified <==> old(fp.modified) || (old(fp.err) == FR_OK && fp.writable && old(fp.fptr < fp.objsize))
    // the errors: an earlier one, a file not opened for writing, a failing drive
    ensures old(fp.err) != FR_OK ==> res == old(fp.err) && unchanged(fp)
    ensures old(fp.err) == FR_OK && !fp.writable ==> res == FR_DENIED && unchanged(fp)
    ensures old(fp.err) == FR_OK && fp.writable ==> res == FR_OK || (res == FR_DISK_ERR && !fp.fs.drive.reliable)
  {
    hide Image, CopyAgrees, Links, Ofs, Data, Geometry.DataFits, Truncated, Cluster, IsChain, CountRight;
    hide FatFs.Coherent;
    res := fp.err;
    if res != FR_OK { return; }
    if !fp.writable { res := FR_DENIED; return; }
    if fp.fptr < fp.objsize {
      ghost var g, v, t, ch, size := fp.fs.g, fp.fs.View(), Table(fp.fs), fp.chain, fp.objsize;
      ghost var k := if fp.fptr == 0 then 0 else fp.idx + 1;
      res := RemoveTail(fp);
      fp.objsize := fp.fptr;
      fp.modified := true;
      if res != FR_OK { fp.err := res; return; }
      TruncatedChain(t, ch, k, Eoc(g));
      ChainInRange(g, t, ch);
      fp.chain := ch[..k];
      TruncatedData(g, v, fp.fs.View(), ch, k);
      OfsStep(g, fp.idx);
    }
  }

  /** The kept clusters keep their bytes. */
  lemma TruncatedData(g: Geometry, v: seq<byte>, v': seq<byte>, ch: seq<nat>, k: nat)
    requires Sized(g, v) && InRange(g, ch) && k <= |ch|
    requires SameOutside(v, v', SS * g.fatbase, SS * g.fsize)
    ensures Sized(g, v') && InRange(g, ch[..k]) && Data(g, v', ch[..k]) <= Data(g, v, ch)
  {
    hide Links, Geometry.DataFits, Cluster, Data;
    FatChangeKeepsData(g, v, v');
    SameData(g, v, v', ch[..k]);
    DataPrefix(g, v, ch, k);
  }

  lemma {:induction false} DataPrefix(g: Geometry, v: seq<byte>, ch: seq<nat>, k: nat)
    requires Sized(g, v) && InRange(g, ch) && k <= |ch|
    ensures Data(g, v, ch[..k]) <= Data(g, v, ch)
    decreases |ch|
  {
    if k < |ch| {
      DataPrefix(g, v, ch[..|ch| - 1], k);
      assert ch[..|ch| - 1][..k] == ch[..k];
    } else {
      assert ch[..k] == ch;
    }
  }
}
