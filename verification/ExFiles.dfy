/** Files that grow on an exFAT volume: f_write at their ends and f_sync, for any number of open files. */
module ExFiles {
  import opened Bits
  import opened Storage
  import opened Volume
  import opened FatTable
  import opened Chains
  import opened Allocator
  import opened Bitmap
  import opened ExFat
  import E = ExFat
  import R = ExFatRemove

  /** Bytes in n clusters. */
  function Bytes(csize: nat, n: nat): nat { n * (SS * csize) }

  /** An object is open: its fields and the FAT t spell its chain, whose clusters are in use in the bitmap u, and its
      size ends in the last of them. */
  ghost predicate ObjOk(t: seq<nat>, u: seq<bool>, o: Lazy, objsize: nat, csize: nat, ch: seq<nat>) {
    && csize > 0 && |t| == |u| + 2 && |t| <= EOC
    && if ch == [] then o.sclust == 0 && o.nFrag == 0 && o.stat != 3 && objsize == 0
       else Spells(t, o, ch) && AllUsed(u, ch) && Bytes(csize, |ch| - 1) < objsize <= Bytes(csize, |ch|)
  }

  /** The size tells the number of clusters. */
  lemma SizeTells(objsize: nat, csize: nat, n: nat)
    requires csize > 0 && 0 < n < 0x1_0000_0000 && Bytes(csize, n - 1) < objsize <= Bytes(csize, n)
    ensures LastOfs(objsize, csize) == n - 1
  {
    var x, b := objsize - 1, SS * csize;
    assert n * b == (n - 1) * b + b;
    var r := x - (n - 1) * b;
    DivMod(r, SS);
    assert x == ((n - 1) * csize + r / SS) * SS + r % SS;
    DivUnique(x, SS, (n - 1) * csize + r / SS, r % SS);
    DivUnique(x / SS, csize, n - 1, r / SS);
  }

  /** A full object is at a cluster boundary, and only then. */
  lemma Boundary(objsize: nat, csize: nat, n: nat)
    requires csize > 0 && (if n == 0 then objsize == 0 else Bytes(csize, n - 1) < objsize <= Bytes(csize, n))
    ensures objsize % (SS * csize) == 0 <==> objsize == Bytes(csize, n)
    ensures objsize % (SS * csize) != 0 ==> n > 0 && Bytes(csize, n) == objsize - objsize % (SS * csize) + SS * csize
    ensures Bytes(csize, n + 1) == Bytes(csize, n) + SS * csize
  {
    var b := SS * csize;
    assert (n + 1) * b == n * b + b;
    if n > 0 {
      assert n * b == (n - 1) * b + b;
      if objsize == n * b { DivUnique(objsize, b, n, 0); } else { DivUnique(objsize, b, n - 1, objsize - (n - 1) * b); }
    } else {
      DivUnique(0, b, 0, 0);
    }
  }

  /** From bits u and chain ch to u' and ch': clusters that were clear were appended and are in use now. */
  ghost predicate Took(u: seq<bool>, ch: seq<nat>, u': seq<bool>, ch': seq<nat>) {
    && |u'| == |u| && ch <= ch'
    && (forall k :: |ch| <= k < |ch'| ==> 2 <= ch'[k] < |u| + 2 && !u[ch'[k] - 2] && u'[ch'[k] - 2])
    && (forall j :: 0 <= j < |u| && u[j] ==> u'[j])
    && (forall j :: 0 <= j < |u| && u'[j] && !u[j] ==> j + 2 in ch')
  }

  /** An object's chain went from ch to ch'; nothing else was touched. */
  ghost predicate Advance(t: seq<nat>, u: seq<bool>, ch: seq<nat>, t': seq<nat>, u': seq<bool>, ch': seq<nat>) {
    SameBut(t, t', ch') && Took(u, ch, u', ch')
  }

  lemma AdvanceNone(t: seq<nat>, u: seq<bool>, ch: seq<nat>)
    ensures Advance(t, u, ch, t, u, ch)
  {
  }

  lemma AdvanceTrans(t: seq<nat>, u: seq<bool>, ch: seq<nat>, t1: seq<nat>, u1: seq<bool>, ch1: seq<nat>,
                     t2: seq<nat>, u2: seq<bool>, ch2: seq<nat>)
    requires Advance(t, u, ch, t1, u1, ch1) && Advance(t1, u1, ch1, t2, u2, ch2)
    ensures Advance(t, u, ch, t2, u2, ch2)
  {
    assert forall i :: 0 <= i < |ch1| ==> ch1[i] == ch2[i];
    forall c | 0 <= c < |t| && c !in ch2 ensures t2[c] == t[c] {
      assert c !in ch1;
    }
    forall k | |ch| <= k < |ch2| ensures 2 <= ch2[k] < |u| + 2 && !u[ch2[k] - 2] && u2[ch2[k] - 2] {
      if k < |ch1| { assert ch1[k] == ch2[k]; }
    }
    forall j | 0 <= j < |u| && u2[j] && !u[j] ensures j + 2 in ch2 {
      if u1[j] { var i :| 0 <= i < |ch1| && ch1[i] == j + 2; assert ch2[i] == j + 2; }
    }
  }

  /** Another object stays open. */
  lemma OtherObject(t: seq<nat>, u: seq<bool>, ch: seq<nat>, t': seq<nat>, u': seq<bool>, ch': seq<nat>,
                    o: Lazy, objsize: nat, csize: nat, s: seq<nat>)
    requires Advance(t, u, ch, t', u', ch') && ObjOk(t, u, o, objsize, csize, s) && Disjoint(s, ch)
    ensures ObjOk(t', u', o, objsize, csize, s) && Disjoint(s, ch')
  {
    if s != [] {
      forall i, j | 0 <= i < |s| && 0 <= j < |ch'| ensures s[i] != ch'[j] {
        if j < |ch| { assert ch[j] == ch'[j]; } else { assert !u[ch'[j] - 2] && u[s[i] - 2]; }
      }
      forall i | 0 <= i < |s| ensures t'[s[i]] == t[s[i]] {
        assert s[i] !in ch';
      }
    }
  }

  /** What create_chain needs of an open object to stretch it. */
  lemma CanStretch(t: seq<nat>, u: seq<bool>, o: Lazy, objsize: nat, csize: nat, ch: seq<nat>)
    requires ObjOk(t, u, o, objsize, csize, ch) && ch != []
    ensures Place(t, o, objsize, csize, ch, |ch| - 1) && 2 <= ch[|ch| - 1] < |t|
  {
    R.ReleasedCount(u, ch);
    SizeTells(objsize, csize, |ch|);
  }

  /** The object after one cluster was taken for it, its start cluster set and its size ending in that cluster. */
  lemma Stretched(t: seq<nat>, u: seq<bool>, o: Lazy, objsize: nat, csize: nat, ch: seq<nat>, clst: nat, ncl: nat,
                  t': seq<nat>, u': seq<bool>, o': Lazy, objsize': nat)
    requires ObjOk(t, u, o, objsize, csize, ch) && Extended(u, u', t, t', o, o', clst, ch, ncl)
    requires clst == if ch == [] then 0 else ch[|ch| - 1]
    requires Bytes(csize, |ch|) < objsize' <= Bytes(csize, |ch| + 1)
    ensures ObjOk(t', u', if ch == [] then o'.(sclust := ncl) else o', objsize', csize, ch + [ncl])
    ensures o'.sclust == 0 <==> ch == []
    ensures Advance(t, u, ch, t', u', ch + [ncl])
  {
    hide Bytes, Grown, GrownTable, Spells;
    if ch == [] {
      FirstSpells(t, o', ncl);
      assert ch + [ncl] == [ncl];
    } else {
      MoreUsed(u, ch, ncl);
      StartsAt(t', o', ch + [ncl]);
    }
  }

  lemma StartsAt(t: seq<nat>, o: Lazy, ch: seq<nat>)
    requires Spells(t, o, ch)
    ensures o.sclust == ch[0] >= 2
  {
  }

  /** An object with its first cluster. */
  lemma FirstSpells(t: seq<nat>, o: Lazy, ncl: nat)
    requires 2 <= ncl < |t| && o.stat == 2 && o.nFrag == 0
    ensures Spells(t, o.(sclust := ncl), [ncl])
  {
  }

  lemma MoreUsed(u: seq<bool>, ch: seq<nat>, ncl: nat)
    requires AllUsed(u, ch) && 2 <= ncl < |u| + 2
    ensures AllUsed(u[ncl - 2 := true], ch + [ncl])
  {
  }

  /** FIL, as far as allocation is concerned. */
  class ExFil {
    const fs: FatFs
    const obj: FfObj
    var clust: nat             // the cluster the file pointer is in or at the end of: the file's last one
    ghost var chain: seq<nat>

    constructor (fs: FatFs, obj: FfObj)
      ensures this.fs == fs && this.obj == obj && clust == 0 && chain == []
    {
      this.fs, this.obj, clust, chain := fs, obj, 0, [];
    }
  }

  /** The volume is an exFAT volume with an allocation bitmap. */
  ghost predicate Vol(fs: FatFs)
    reads fs`winsect, fs`wflag, fs`copyLost, fs.win, fs.drive
  {
    fs.Valid() && fs.Coherent() && fs.g.fsType.EXFAT? && HasBitmap(fs.g, fs.View(), fs.bitbase)
  }

  /** The bitmap. */
  ghost function UsedBits(fs: FatFs): seq<bool>
    requires Vol(fs)
    reads fs`winsect, fs`wflag, fs`copyLost, fs.win, fs.drive
  {
    Used(fs.g, fs.View(), fs.bitbase)
  }

  /** The file is open and its file pointer at its end. */
  ghost predicate Open(fp: ExFil)
    requires Vol(fp.fs)
    reads fp, fp.obj, fp.fs`winsect, fp.fs`wflag, fp.fs`copyLost, fp.fs.win, fp.fs.drive
  {
    && ObjOk(Table(fp.fs), UsedBits(fp.fs), fp.obj.State(), fp.obj.objsize, fp.fs.g.csize, fp.chain)
    && (fp.chain != [] ==> fp.clust == fp.chain[|fp.chain| - 1])
  }

  /** No cluster is free, as far as create_chain can tell. */
  ghost predicate Full(fs: FatFs)
    requires Vol(fs)
    reads fs`winsect, fs`wflag, fs`copyLost, fs`freeClst, fs.win, fs.drive
  {
    fs.freeClst == 0 || AllBits(UsedBits(fs))
  }

  /** One turn of f_write's loop at the end of the file, up to the end of a cluster: a new one at a cluster boundary. */
  method AppendStep(fp: ExFil, left: nat) returns (res: FRESULT, full: bool, wcnt: nat)
    requires Vol(fp.fs) && Open(fp) && left > 0
    modifies fp`clust, fp`chain, fp.obj, fp.fs, fp.fs.win, fp.fs.drive
    ensures fp.fs.Valid() && (old(fp.fs.Mirrored()) ==> fp.fs.Mirrored())
    ensures res == FR_OK || (res == FR_DISK_ERR && !fp.fs.drive.reliable)
    ensures res == FR_OK ==> Vol(fp.fs) && Open(fp) && wcnt <= left && fp.obj.objsize == old(fp.obj.objsize) + wcnt
    ensures res == FR_OK ==>
      Advance(old(Table(fp.fs)), old(UsedBits(fp.fs)), old(fp.chain), Table(fp.fs), UsedBits(fp.fs), fp.chain)
    ensures res == FR_OK && old(BitsCounted(fp.fs)) ==> BitsCounted(fp.fs)
    ensures res == FR_OK ==> (full <==> wcnt == 0) && (old(Full(fp.fs)) ==> Full(fp.fs))
    ensures res == FR_OK && full ==> fp.obj.objsize == Bytes(fp.fs.g.csize, |fp.chain|) && Full(fp.fs)
  {
    hide Image, CopyAgrees, Links, HasBitmap, Used, Spells, AllUsed, Bytes, Extended, Took, SameBut, FirstRun, Place;
    hide AllBits, FatFs.Mirrored, FatFs.Coherent, Geometry.Valid, BitsCounted;
    var fs, obj, csize := fp.fs, fp.obj, fp.fs.g.csize;
    ghost var t, u, o, size, ch := Table(fs), UsedBits(fs), obj.State(), obj.objsize, fp.chain;
    var b := SS * csize;
    res, full, wcnt := FR_OK, false, b - obj.objsize % b;
    Boundary(size, csize, |ch|);
    AdvanceNone(t, u, ch);
    if wcnt > left { wcnt := left; }
    if obj.objsize % b == 0 {
      if ch != [] { CanStretch(t, u, o, size, csize, ch); }
      var clst := if obj.objsize == 0 then 0 else fp.clust;
      var ncl := E.CreateChain(fs, obj, clst, ch, if ch == [] then 0 else |ch| - 1);
      if ncl == 0 { full, wcnt := true, 0; return; }
      if ncl == DISK_ERROR { res := FR_DISK_ERR; return; }
      Stretched(t, u, o, size, csize, ch, clst, ncl, Table(fs), UsedBits(fs), obj.State(), size + wcnt);
      fp.clust := ncl;
      if obj.sclust == 0 { obj.sclust := ncl; }
      fp.chain := ch + [ncl];
    }
    obj.objsize := obj.objsize + wcnt;
  }

  /** f_write of len bytes at the end of the file, and what it does to the allocation. */
  method Append(fp: ExFil, len: nat) returns (res: FRESULT, done: nat)
    requires Vol(fp.fs) && Open(fp)
    modifies fp`clust, fp`chain, fp.obj, fp.fs, fp.fs.win, fp.fs.drive
    ensures fp.fs.Valid() && (old(fp.fs.Mirrored()) ==> fp.fs.Mirrored())
    ensures res == FR_OK || (res == FR_DISK_ERR && !fp.fs.drive.reliable)
    ensures res == FR_OK ==> Vol(fp.fs) && Open(fp) && done <= len && fp.obj.objsize == old(fp.obj.objsize) + done
    ensures res == FR_OK ==>
      Advance(old(Table(fp.fs)), old(UsedBits(fp.fs)), old(fp.chain), Table(fp.fs), UsedBits(fp.fs), fp.chain)
    ensures res == FR_OK && old(BitsCounted(fp.fs)) ==> BitsCounted(fp.fs)
    ensures res == FR_OK && old(Full(fp.fs)) ==> Full(fp.fs)
    // fewer bytes only when the last cluster is used up and none is free
    ensures res == FR_OK && done < len ==> fp.obj.objsize == Bytes(fp.fs.g.csize, |fp.chain|) && Full(fp.fs)
  {
    hide Image, CopyAgrees, Links, HasBitmap, Used, ObjOk, Bytes, Advance, AllBits, FatFs.Mirrored, FatFs.Coherent;
    hide Geometry.Valid, BitsCounted;
    ghost var t, u, ch := Table(fp.fs), UsedBits(fp.fs), fp.chain;
    res, done := FR_OK, 0;
    AdvanceNone(t, u, ch);
    while done < len
      invariant res == FR_OK && Vol(fp.fs) && Open(fp) && done <= len
      invariant fp.obj.objsize == old(fp.obj.objsize) + done && (old(fp.fs.Mirrored()) ==> fp.fs.Mirrored())
      invariant Advance(t, u, ch, Table(fp.fs), UsedBits(fp.fs), fp.chain)
      invariant (old(BitsCounted(fp.fs)) ==> BitsCounted(fp.fs)) && (old(Full(fp.fs)) ==> Full(fp.fs))
    {
      ghost var t1, u1, ch1 := Table(fp.fs), UsedBits(fp.fs), fp.chain;
      var full, wcnt;
      res, full, wcnt := AppendStep(fp, len - done);
      if res != FR_OK { return; }
      AdvanceTrans(t, u, ch, t1, u1, ch1, Table(fp.fs), UsedBits(fp.fs), fp.chain);
      if full { return; }
      done := done + wcnt;
    }
  }

  /** The chain is on the FAT, or contiguous. */
  ghost predicate Written(t: seq<nat>, o: Lazy, ch: seq<nat>) {
    ch != [] ==> o.nFrag == 0 && if o.stat == 2 then RunUp(ch, 0, |ch|) else o.stat == 0 && IsChain(t, ch)
  }

  /** f_sync, as far as the FAT is concerned: the missing links are filled in. */
  method Sync(fp: ExFil) returns (res: FRESULT)
    requires Vol(fp.fs) && Open(fp)
    modifies fp.obj`stat, fp.obj`nFrag, fp.fs`winsect, fp.fs`wflag, fp.fs`copyLost, fp.fs.win, fp.fs.drive
    ensures fp.fs.Valid() && (old(fp.fs.Mirrored()) ==> fp.fs.Mirrored())
    ensures res == FR_OK || (res == FR_DISK_ERR && !fp.fs.drive.reliable)
    ensures res == FR_OK ==> Vol(fp.fs) && Open(fp) && Written(Table(fp.fs), fp.obj.State(), fp.chain)
    ensures res == FR_OK ==> UsedBits(fp.fs) == old(UsedBits(fp.fs))
    ensures res == FR_OK && old(BitsCounted(fp.fs)) ==> BitsCounted(fp.fs)
    ensures res == FR_OK ==>
      Advance(old(Table(fp.fs)), old(UsedBits(fp.fs)), fp.chain, Table(fp.fs), UsedBits(fp.fs), fp.chain)
  {
    hide Image, CopyAgrees, Links, HasBitmap, Used, Spells, AllUsed, Bytes, SameBut, RunUp, IsChain;
    hide FatFs.Mirrored, FatFs.Coherent, Geometry.Valid;
    res := FR_OK;
    AdvanceNone(Table(fp.fs), UsedBits(fp.fs), fp.chain);
    if fp.obj.sclust != 0 {
      ghost var v := fp.fs.View();
      res := FillBoth(fp.fs, fp.obj, fp.clust, fp.chain);
      if res != FR_OK { return; }
      FatKeepsBitmap(fp.fs.g, v, fp.fs.View(), fp.fs.bitbase);
    } else if fp.chain != [] {
      StartsAt(Table(fp.fs), fp.obj.State(), fp.chain);
    }
  }

  /** The files are open on the volume, and no cluster is in two of them. */
  ghost predicate AllOpen(fs: FatFs, fps: seq<ExFil>)
    reads fps, set fp | fp in fps :: fp.obj, fs`winsect, fs`wflag, fs`copyLost, fs.win, fs.drive
  {
    && Vol(fs) && (forall i :: 0 <= i < |fps| ==> fps[i].fs == fs && Open(fps[i]))
    && (forall i, j :: 0 <= i < |fps| && 0 <= j < |fps| && i != j ==> Separate(fps[i], fps[j]))
  }

  ghost predicate Separate(fp: ExFil, fp': ExFil)
    reads fp`chain, fp'`chain
  {
    fp != fp' && fp.obj != fp'.obj && Disjoint(fp.chain, fp'.chain)
  }

  datatype Call = Grow(len: nat) | Close

  /** An open file, as a value. */
  datatype File = File(o: Lazy, size: nat, chain: seq<nat>)

  ghost function FileOf(fp: ExFil): File
    reads fp, fp.obj
  {
    File(fp.obj.State(), fp.obj.objsize, fp.chain)
  }

  ghost function Files(fps: seq<ExFil>): (r: seq<File>)
    reads fps, set fp | fp in fps :: fp.obj
    ensures |r| == |fps| && forall i :: 0 <= i < |fps| ==> r[i] == FileOf(fps[i])
  {
    seq(|fps|, i requires 0 <= i < |fps| reads fps, set fp | fp in fps :: fp.obj => FileOf(fps[i]))
  }

  /** One call on file i: the others stay open with their chains. */
  method Perform(fs: FatFs, fps: seq<ExFil>, i: nat, call: Call) returns (res: FRESULT, done: nat)
    requires AllOpen(fs, fps) && i < |fps|
    modifies fps[i], fps[i].obj, fs, fs.win, fs.drive
    ensures fs.Valid() && (old(fs.Mirrored()) ==> fs.Mirrored())
    ensures res == FR_OK || (res == FR_DISK_ERR && !fs.drive.reliable)
    ensures res == FR_OK ==> AllOpen(fs, fps) && fps[i].obj.objsize == old(fps[i].obj.objsize) + done
    ensures res == FR_OK ==>
      Advance(old(Table(fs)), old(UsedBits(fs)), old(fps[i].chain), Table(fs), UsedBits(fs), fps[i].chain)
    ensures res == FR_OK ==> Vol(fs) && Files(fps) == old(Files(fps))[i := FileOf(fps[i])]
    ensures res == FR_OK && old(Full(fs)) ==> Full(fs)
    ensures res == FR_OK && old(BitsCounted(fs)) ==> BitsCounted(fs)
    ensures res == FR_OK && call.Grow? ==> done <= call.len
    ensures res == FR_OK && call.Grow? && done < call.len ==>
      fps[i].obj.objsize == Bytes(fs.g.csize, |fps[i].chain|) && Full(fs)
    ensures res == FR_OK && call.Close? ==>
      done == 0 && fps[i].chain == old(fps[i].chain) && UsedBits(fs) == old(UsedBits(fs))
      && Written(Table(fs), fps[i].obj.State(), fps[i].chain)
  {
    hide Image, CopyAgrees, Links, HasBitmap, Used, ObjOk, Bytes, Advance, AllBits, FatFs.Mirrored, FatFs.Coherent;
    hide Geometry.Valid, BitsCounted, Written, Disjoint;
    ghost var t, u, ch := Table(fs), UsedBits(fs), fps[i].chain;
    done := 0;
    match call {
      case Grow(len) => res, done := Append(fps[i], len);
      case Close => res := Sync(fps[i]);
    }
    if res != FR_OK { return; }
    forall j | 0 <= j < |fps| && j != i ensures Open(fps[j]) && Separate(fps[j], fps[i]) && Separate(fps[i], fps[j]) {
      var fp := fps[j];
      assert old(Separate(fps[j], fps[i]));
      OtherObject(t, u, ch, Table(fs), UsedBits(fs), fps[i].chain,
        fp.obj.State(), fp.obj.objsize, fs.g.csize, fp.chain);
      DisjointBack(fp.chain, fps[i].chain);
    }
    forall j, k | 0 <= j < |fps| && 0 <= k < |fps| && j != k ensures Separate(fps[j], fps[k]) {
      assert old(Separate(fps[j], fps[k]));
    }
  }

  lemma DisjointBack(s: seq<nat>, s': seq<nat>)
    requires Disjoint(s, s')
    ensures Disjoint(s', s)
  {
  }

  ghost predicate InSome(cs: seq<File>, c: nat) { exists i :: 0 <= i < |cs| && c in cs[i].chain }

  /** A run took the files from cs to cs': each chain got longer by clusters that were clear before the run and are in
      use now, no other bit was changed, and no link outside the chains. */
  ghost predicate RunOk(t: seq<nat>, u: seq<bool>, cs: seq<File>, t': seq<nat>, u': seq<bool>, cs': seq<File>) {
    && |t'| == |t| && |u'| == |u| && |cs'| == |cs|
    && (forall i :: 0 <= i < |cs| ==> cs[i].chain <= cs'[i].chain)
    && (forall c {:trigger t'[c]} :: 0 <= c < |t| && !InSome(cs', c) ==> t'[c] == t[c])
    && (forall j :: 0 <= j < |u| && u[j] ==> u'[j])
    && (forall j :: 0 <= j < |u| && u'[j] && !u[j] ==> InSome(cs', j + 2))
    && (forall i, k {:trigger cs'[i].chain[k]} :: 0 <= i < |cs| && |cs[i].chain| <= k < |cs'[i].chain| ==>
          NewIn(u, u', cs'[i].chain[k]))
  }

  /** Cluster c was taken between u and u'. */
  ghost predicate NewIn(u: seq<bool>, u': seq<bool>, c: nat) {
    |u'| == |u| && 2 <= c < |u| + 2 && !u[c - 2] && u'[c - 2]
  }

  lemma RunNone(t: seq<nat>, u: seq<bool>, cs: seq<File>)
    ensures RunOk(t, u, cs, t, u, cs)
  {
  }

  lemma SomeStays(cs: seq<File>, i: nat, f: File, c: nat)
    requires i < |cs| && cs[i].chain <= f.chain
    ensures InSome(cs, c) ==> InSome(cs[i := f], c)
    ensures c in f.chain ==> InSome(cs[i := f], c)
  {
    var cs' := cs[i := f];
    if c in f.chain { assert c in cs'[i].chain; }
    if InSome(cs, c) {
      var k :| 0 <= k < |cs| && c in cs[k].chain;
      if k == i { assert c in cs'[i].chain; } else { assert c in cs'[k].chain; }
    }
  }

  /** One more call, which took file i to f. */
  lemma RunMore(t0: seq<nat>, u0: seq<bool>, cs0: seq<File>, t: seq<nat>, u: seq<bool>, cs: seq<File>,
                i: nat, t': seq<nat>, u': seq<bool>, f: File)
    requires RunOk(t0, u0, cs0, t, u, cs) && i < |cs| && Advance(t, u, cs[i].chain, t', u', f.chain)
    ensures RunOk(t0, u0, cs0, t', u', cs[i := f])
  {
    hide InSome;
    var cs' := cs[i := f];
    forall c | 0 <= c < |t0| && !InSome(cs', c) ensures t'[c] == t0[c] {
      SomeStays(cs, i, f, c);
    }
    forall j | 0 <= j < |u0| && u'[j] && !u0[j] ensures InSome(cs', j + 2) {
      SomeStays(cs, i, f, j + 2);
    }
    forall m, k | 0 <= m < |cs0| && |cs0[m].chain| <= k < |cs'[m].chain| ensures NewIn(u0, u', cs'[m].chain[k]) {
      if m != i || k < |cs[i].chain| {
        assert cs[m].chain[k] == cs'[m].chain[k] && NewIn(u0, u, cs[m].chain[k]);
      }
    }
  }

  /** How much the calls added to file i. */
  ghost function Total(calls: seq<(nat, Call)>, dones: seq<nat>, i: nat): nat
    requires |dones| == |calls|
    decreases |calls|
  {
    if calls == [] then 0
    else
      var n := |calls| - 1;
      Total(calls[..n], dones[..n], i) + if calls[n].0 == i then dones[n] else 0
  }

  lemma TotalMore(calls: seq<(nat, Call)>, dones: seq<nat>, call: (nat, Call), done: nat, i: nat)
    requires |dones| == |calls|
    ensures Total(calls + [call], dones + [done], i) == Total(calls, dones, i) + if call.0 == i then done else 0
  {
    assert (calls + [call])[..|calls|] == calls && (dones + [done])[..|dones|] == dones;
  }

  /** Any run of writes at the end and syncs on any number of files. */
  method RunCalls(fs: FatFs, fps: seq<ExFil>, calls: seq<(nat, Call)>) returns (res: FRESULT, dones: seq<nat>)
    requires AllOpen(fs, fps) && forall k :: 0 <= k < |calls| ==> calls[k].0 < |fps|
    modifies fps, (set fp | fp in fps :: fp.obj), fs, fs.win, fs.drive
    ensures fs.Valid() && (old(fs.Mirrored()) ==> fs.Mirrored())
    ensures res == FR_OK || (res == FR_DISK_ERR && !fs.drive.reliable)
    ensures res == FR_OK ==> Vol(fs) && AllOpen(fs, fps) && (old(BitsCounted(fs)) ==> BitsCounted(fs))
    ensures res == FR_OK ==>
      RunOk(old(Table(fs)), old(UsedBits(fs)), old(Files(fps)), Table(fs), UsedBits(fs), Files(fps))
    ensures res == FR_OK ==> |dones| == |calls| && forall k :: 0 <= k < |calls| ==> Fits(calls[k].1, dones[k])
    ensures res == FR_OK && !Full(fs) ==> forall k :: 0 <= k < |calls| ==> Complete(calls[k].1, dones[k])
    ensures res == FR_OK ==> forall i :: 0 <= i < |fps| ==>
      Files(fps)[i].size == old(Files(fps))[i].size + Total(calls, dones, i)
  {
    hide Image, CopyAgrees, Links, HasBitmap, Used, AllOpen, Advance, RunOk, FatFs.Mirrored, FatFs.Coherent, Total;
    hide Geometry.Valid, BitsCounted, Written, Full, ObjOk, InSome;
    VolOf(fs, fps);
    ghost var t, u, cs := Table(fs), UsedBits(fs), Files(fps);
    res, dones := FR_OK, [];
    RunNone(t, u, cs);
    assert calls[..0] == [];
    forall i | 0 <= i < |fps| ensures Total([], [], i) == 0 { TotalNone(i); }
    for k := 0 to |calls|
      invariant Vol(fs) && (old(fs.Mirrored()) ==> fs.Mirrored()) && res == FR_OK && |dones| == k
      invariant AllOpen(fs, fps) && (old(BitsCounted(fs)) ==> BitsCounted(fs))
      invariant RunOk(t, u, cs, Table(fs), UsedBits(fs), Files(fps))
      invariant forall m :: 0 <= m < k ==> Fits(calls[m].1, dones[m])
      invariant !Full(fs) ==> forall m :: 0 <= m < k ==> Complete(calls[m].1, dones[m])
      invariant forall i :: 0 <= i < |fps| ==> Files(fps)[i].size == cs[i].size + Total(calls[..k], dones, i)
    {
      ghost var i, t1, u1, cs1 := calls[k].0, Table(fs), UsedBits(fs), Files(fps);
      var done;
      res, done := Perform(fs, fps, calls[k].0, calls[k].1);
      if res != FR_OK { return; }
      RunMore(t, u, cs, t1, u1, cs1, i, Table(fs), UsedBits(fs), Files(fps)[i]);
      assert calls[..k + 1] == calls[..k] + [calls[k]];
      forall m | 0 <= m < |fps|
        ensures Files(fps)[m].size == cs[m].size + Total(calls[..k + 1], dones + [done], m)
      {
        TotalMore(calls[..k], dones, calls[k], done, m);
      }
      dones := dones + [done];
    }
    assert calls[..|calls|] == calls;
  }

  predicate Fits(call: Call, done: nat) {
    match call
    case Grow(len) => done <= len
    case Close => done == 0
  }

  /** Everything asked for was written. */
  predicate Complete(call: Call, done: nat) { call.Grow? ==> done == call.len }

  lemma VolOf(fs: FatFs, fps: seq<ExFil>)
    requires AllOpen(fs, fps)
    ensures Vol(fs)
  {
  }

  lemma TotalNone(i: nat)
    ensures Total([], [], i) == 0
  {
  }

  /** f_sync of every file: afterwards each chain is on the FAT, or contiguous. */
  method SyncAll(fs: FatFs, fps: seq<ExFil>) returns (res: FRESULT)
    requires AllOpen(fs, fps)
    modifies fps, (set fp | fp in fps :: fp.obj), fs, fs.win, fs.drive
    ensures fs.Valid() && (old(fs.Mirrored()) ==> fs.Mirrored())
    ensures res == FR_OK || (res == FR_DISK_ERR && !fs.drive.reliable)
    ensures res == FR_OK ==> Vol(fs) && AllOpen(fs, fps) && UsedBits(fs) == old(UsedBits(fs))
    ensures res == FR_OK && old(BitsCounted(fs)) ==> BitsCounted(fs)
    ensures res == FR_OK && old(Full(fs)) ==> Full(fs)
    ensures res == FR_OK ==>
      RunOk(old(Table(fs)), old(UsedBits(fs)), old(Files(fps)), Table(fs), UsedBits(fs), Files(fps))
    ensures res == FR_OK ==> forall i :: 0 <= i < |fps| ==>
      && Files(fps)[i].size == old(Files(fps))[i].size && Files(fps)[i].chain == old(Files(fps))[i].chain
      && Settled(Table(fs), Files(fps)[i])
  {
    hide Image, CopyAgrees, Links, HasBitmap, Used, AllOpen, Advance, RunOk, FatFs.Mirrored, FatFs.Coherent;
    hide Geometry.Valid, BitsCounted, Written;
    VolOf(fs, fps);
    ghost var t, u, cs := Table(fs), UsedBits(fs), Files(fps);
    res := FR_OK;
    RunNone(t, u, cs);
    for k := 0 to |fps|
      invariant Vol(fs) && (old(fs.Mirrored()) ==> fs.Mirrored()) && res == FR_OK
      invariant AllOpen(fs, fps) && UsedBits(fs) == u && (old(BitsCounted(fs)) ==> BitsCounted(fs))
      invariant RunOk(t, u, cs, Table(fs), u, Files(fps)) && (old(Full(fs)) ==> Full(fs))
      invariant forall i :: 0 <= i < |fps| ==> Files(fps)[i].size == cs[i].size && Files(fps)[i].chain == cs[i].chain
      invariant forall i :: 0 <= i < k ==> Settled(Table(fs), Files(fps)[i])
    {
      ghost var t1, cs1 := Table(fs), Files(fps);
      Apart(fs, fps, k);
      var done;
      res, done := Perform(fs, fps, k, Close);
      if res != FR_OK { return; }
      RunMore(t, u, cs, t1, u, cs1, k, Table(fs), u, Files(fps)[k]);
      forall i | 0 <= i < k ensures Settled(Table(fs), Files(fps)[i]) {
        StaysSettled(t1, u, cs1[k].chain, Table(fs), u, Files(fps)[i]);
      }
    }
  }

  ghost predicate Settled(t: seq<nat>, f: File) { Written(t, f.o, f.chain) }

  lemma Apart(fs: FatFs, fps: seq<ExFil>, k: nat)
    requires AllOpen(fs, fps) && k < |fps|
    ensures forall i :: 0 <= i < |fps| && i != k ==> Disjoint(Files(fps)[i].chain, Files(fps)[k].chain)
  {
    hide ObjOk;
    forall i | 0 <= i < |fps| && i != k ensures Disjoint(Files(fps)[i].chain, Files(fps)[k].chain) {
      assert Separate(fps[i], fps[k]);
    }
  }

  /** Another file's chain stays on the FAT. */
  lemma StaysSettled(t: seq<nat>, u: seq<bool>, ch: seq<nat>, t': seq<nat>, u': seq<bool>, f: File)
    requires Settled(t, f) && Advance(t, u, ch, t', u', ch) && Disjoint(f.chain, ch)
    ensures Settled(t', f)
  {
    var s := f.chain;
    if s != [] && f.o.stat != 2 {
      forall i | 0 <= i < |s| ensures t'[s[i]] == t[s[i]] {
        assert s[i] !in ch;
      }
      ChainFrame(t, t', s);
    }
  }

  /** The whole run: after any writes and syncs in any order, and a sync of every file, the FAT or plain contiguity
      spells for each file exactly the clusters allocated to it, in order; nothing else on the volume changed. */
  method RunAndSync(fs: FatFs, fps: seq<ExFil>, calls: seq<(nat, Call)>) returns (res: FRESULT, dones: seq<nat>)
    requires AllOpen(fs, fps) && forall k :: 0 <= k < |calls| ==> calls[k].0 < |fps|
    modifies fps, (set fp | fp in fps :: fp.obj), fs, fs.win, fs.drive
    ensures fs.drive.reliable ==> res == FR_OK
    ensures res == FR_OK ==> Vol(fs) && AllOpen(fs, fps) && |dones| == |calls|
    ensures res == FR_OK && old(BitsCounted(fs)) ==> BitsCounted(fs)
    ensures res == FR_OK ==> forall k :: 0 <= k < |calls| ==> Fits(calls[k].1, dones[k])
    ensures res == FR_OK && !Full(fs) ==> forall k :: 0 <= k < |calls| ==> Complete(calls[k].1, dones[k])
    ensures res == FR_OK ==>
      RunOk(old(Table(fs)), old(UsedBits(fs)), old(Files(fps)), Table(fs), UsedBits(fs), Files(fps))
    ensures res == FR_OK ==> forall i :: 0 <= i < |fps| ==>
      && Settled(Table(fs), Files(fps)[i])
      && Files(fps)[i].size == old(Files(fps))[i].size + Total(calls, dones, i)
  {
    hide Image, CopyAgrees, Links, HasBitmap, Used, AllOpen, RunOk, FatFs.Mirrored, FatFs.Coherent, Geometry.Valid;
    hide BitsCounted, Settled, Total, FileOf, Full, Fits, Complete;
    VolOf(fs, fps);
    ghost var t, u, cs := Table(fs), UsedBits(fs), Files(fps);
    res, dones := RunCalls(fs, fps, calls);
    if res != FR_OK { return; }
    ghost var t1, cs1 := Table(fs), Files(fps);
    res := SyncAll(fs, fps);
    if res != FR_OK { return; }
    RunTrans(t, u, cs, t1, UsedBits(fs), cs1, Table(fs), Files(fps));
  }

  lemma RunTrans(t: seq<nat>, u: seq<bool>, cs: seq<File>, t1: seq<nat>, u1: seq<bool>, cs1: seq<File>,
                 t2: seq<nat>, cs2: seq<File>)
    requires RunOk(t, u, cs, t1, u1, cs1) && RunOk(t1, u1, cs1, t2, u1, cs2)
    requires forall i :: 0 <= i < |cs1| ==> cs2[i].chain == cs1[i].chain
    ensures RunOk(t, u, cs, t2, u1, cs2)
  {
    forall c ensures InSome(cs1, c) <==> InSome(cs2, c) {
      if InSome(cs1, c) { var i :| 0 <= i < |cs1| && c in cs1[i].chain; assert c in cs2[i].chain; }
      if InSome(cs2, c) { var i :| 0 <= i < |cs2| && c in cs2[i].chain; assert c in cs1[i].chain; }
    }
    hide InSome;
  }
}
