/** File objects on FAT12/16/32 volumes, and f_read. */
module FileRead {
  import opened Bits
  import opened Storage
  import opened Volume
  import opened FatTable
  import opened Chains
  import opened FileData
  import opened Allocator

  /** FIL with its FFOBJID. */
  class Fil {
    const fs: FatFs
    const readable: bool   // FA_READ
    const writable: bool   // FA_WRITE
    var modified: bool     // FA_MODIFIED
    var err: FRESULT       // abort flag
    var sclust: nat        // start cluster, 0: none
    var objsize: nat       // file size
    var fptr: nat          // file pointer
    var clust: nat         // current cluster, invalid when fptr is 0
    var sect: nat          // sector of fptr, when fptr is inside a sector
    ghost var chain: seq<nat>  // the clusters of the file
    ghost var idx: nat         // index of clust in chain

    constructor (f: FatFs, r: bool, w: bool, start: nat, size: nat, ghost ch: seq<nat>)
      ensures fs == f && readable == r && writable == w && sclust == start && objsize == size
      ensures fptr == 0 && sect == 0 && err == FR_OK && chain == ch
    {
      fs, readable, writable, modified, err := f, r, w, false, FR_OK;
      sclust, objsize, fptr, clust, sect, chain, idx := start, size, 0, 0, 0, ch, 0;
    }

    /** The file's chain is a chain of the FAT that is long enough for its size. */
    ghost predicate Based()
      reads `sclust, `chain, `objsize, `sect, fs`winsect, fs`wflag, fs`copyLost, fs.win, fs.drive
    {
      && fs.Valid() && fs.Coherent() && !fs.g.fsType.EXFAT? && Sized(fs.g, fs.View())
      && (if sclust == 0 then chain == [] else IsChain(Table(fs), chain) && chain[0] == sclust)
      && objsize <= 0xFFFFFFFF && objsize <= Ofs(fs.g, |chain|)
      && sect < LBA_LIMIT
    }

    /** clust and sect are right for file pointer f: clust is the cluster of byte f - 1, and sect is the sector of
        byte f when f is not sector aligned. */
    ghost predicate CursorAt(f: nat)
      reads `idx, `chain, `clust, `sect
    {
      && (f > 0 ==> idx < |chain| && clust == chain[idx] && Ofs(fs.g, idx) < f <= Ofs(fs.g, idx) + fs.g.ClusterBytes())
      && (f % SS != 0 ==> sect == Clst2Sect(fs.g, clust) + (f - Ofs(fs.g, idx)) / SS)
    }

    /** clust is the cluster that holds byte f. */
    ghost predicate Within(f: nat)
      reads `idx, `chain, `clust
    {
      idx < |chain| && clust == chain[idx] && Ofs(fs.g, idx) <= f < Ofs(fs.g, idx) + fs.g.ClusterBytes()
    }

    ghost predicate Valid()
      reads this, fs`winsect, fs`wflag, fs`copyLost, fs.win, fs.drive
    {
      Based() && fptr <= objsize && CursorAt(fptr)
    }

    /** The bytes of the file. */
    ghost function Content(): (c: seq<byte>)
      requires Based()
      reads `sclust, `chain, `objsize, `sect, fs`winsect, fs`wflag, fs`copyLost, fs.win, fs.drive
      ensures |c| == objsize
    {
      ChainInRange(fs.g, Table(fs), chain);
      Data(fs.g, fs.View(), chain)[..objsize]
    }
  }

  lemma ChainInRange(g: Geometry, t: seq<nat>, ch: seq<nat>)
    requires |t| == g.nFatent && (ch == [] || IsChain(t, ch))
    ensures InRange(g, ch)
  {
  }

  lemma OfsAligned(g: Geometry, q: nat)
    ensures Ofs(g, q) == SS * (q * g.csize) && Ofs(g, q) % SS == 0
  {
    Assoc(q, g.csize);
  }

  lemma Assoc(q: nat, c: nat)
    ensures q * (SS * c) == SS * (q * c)
  {
  }

  /** `fptr / SS & (csize - 1)` is the sector of fptr in its cluster. */
  lemma SectorInCluster(g: Geometry, q: nat, f: nat)
    requires g.csize > 0 && IsPow2(g.csize) && Ofs(g, q) <= f < Ofs(g, q) + g.ClusterBytes()
    ensures And(f / SS, g.csize - 1) == (f - Ofs(g, q)) / SS < g.csize
    ensures f % SS == (f - Ofs(g, q)) % SS
  {
    var k: nat :| g.csize == Pow2(k);
    MaskIsMod(f / SS, k);
    var r := f - Ofs(g, q);
    var m := q * g.csize;
    OfsAligned(g, q);
    hide Ofs, And, Pow2;
    DivUnique(f, SS, m + r / SS, r % SS);
    assert r / SS < g.csize;
    DivUnique(f / SS, g.csize, q, r / SS);
  }

  /** Bytes of a file inside one cluster, on the volume. */
  lemma FileSlice(g: Geometry, v: seq<byte>, ch: seq<nat>, q: nat, r: nat, m: nat)
    requires Sized(g, v) && InRange(g, ch) && q < |ch| && r + m <= g.ClusterBytes()
    ensures Ofs(g, q) + r + m <= |Data(g, v, ch)| && ClusterAddr(g, ch[q]) + r + m <= |v|
    ensures Data(g, v, ch)[Ofs(g, q) + r..Ofs(g, q) + r + m] ==
      v[ClusterAddr(g, ch[q]) + r..ClusterAddr(g, ch[q]) + r + m]
  {
    hide Data, Ofs, Clst2Sect;
    DataAt(g, v, ch, q);
    ClusterBounds(g, v, ch[q]);
    SliceSlice(Data(g, v, ch), Ofs(g, q), g.ClusterBytes(), r, m);
    SliceSlice(v, ClusterAddr(g, ch[q]), g.ClusterBytes(), r, m);
  }

  /** Sectors of the data area as read directly from the drive, with the dirty window copied over its sector. */
  lemma DirectRead(g: Geometry, d: seq<byte>, ws: nat, w: seq<byte>, dirty: bool, s: nat, n: nat)
    requires g.Valid() && |w| == SS && g.database <= s && SS * (s + n) <= |d|
    ensures var raw := d[SS * s..SS * (s + n)];
      Image(g, d, ws, w, dirty)[SS * s..SS * (s + n)] ==
        if dirty && s <= ws < s + n then Splice(raw, SS * (ws - s), w) else raw
  {
    var raw := d[SS * s..SS * (s + n)];
    var x := if dirty && s <= ws < s + n then Splice(raw, SS * (ws - s), w) else raw;
    var y := Image(g, d, ws, w, dirty)[SS * s..SS * (s + n)];
    forall i | 0 <= i < SS * n ensures x[i] == y[i] {
      assert !g.CopyByte(SS * s + i);
    }
  }

  /** Where byte k of a file is on the volume: byte r of the cluster with index q. */
  lemma ContentByte(fp: Fil, q: nat, r: nat, k: nat, a: nat)
    requires fp.Based() && q < |fp.chain| && r < 512 * fp.fs.g.csize
    requires k == 512 * fp.fs.g.csize * q + r && a == 512 * (fp.fs.g.database + fp.fs.g.csize * (fp.chain[q] - 2)) + r
    ensures a < |fp.fs.View()| && (k < fp.objsize ==> fp.Content()[k] == fp.fs.View()[a])
  {
    hide Image, Links, IsChain, Data, Geometry.DataFits;
    ChainInRange(fp.fs.g, Table(fp.fs), fp.chain);
    DataByte(fp.fs.g, fp.fs.View(), fp.chain, q, r, k, a);
  }

  /** The index in the chain of the cluster that holds the byte at the file pointer. */
  ghost function IndexAt(fp: Fil): (q: nat)
    reads fp
  {
    if fp.fptr == 0 then 0
    else if fp.fptr == Ofs(fp.fs.g, fp.idx) + fp.fs.g.ClusterBytes() then fp.idx + 1
    else fp.idx
  }

  /** At a sector boundary the masked sector number tells the sector in the cluster, and 0 a new cluster. */
  lemma AtBoundary(fp: Fil)
    requires fp.Valid() && fp.fptr % SS == 0
    ensures var g, q, f := fp.fs.g, IndexAt(fp), fp.fptr;
      && Ofs(g, q) <= f < Ofs(g, q) + g.ClusterBytes()
      && And(f / SS, g.csize - 1) == (f - Ofs(g, q)) / SS < g.csize
      && (And(f / SS, g.csize - 1) == 0 <==> f == Ofs(g, q))
      && (And(f / SS, g.csize - 1) == 0 ==> q == if f == 0 then 0 else fp.idx + 1)
      && (And(f / SS, g.csize - 1) != 0 ==> q == fp.idx && f > 0)
  {
    hide Ofs, And;
    var g, q := fp.fs.g, IndexAt(fp);
    OfsStep(g, q);
    OfsStep(g, fp.idx);
    SectorInCluster(g, q, fp.fptr);
  }

  lemma ValidSector(g: Geometry, c: nat)
    requires g.Valid() && 2 <= c < g.nFatent
    ensures Clst2Sect(g, c) >= g.database > 0
  {
  }

  /** f_read at a cluster boundary: the next cluster, by following the chain. */
  method NextRead(fp: Fil) returns (clst: nat)
    requires fp.Valid() && IndexAt(fp) < |fp.chain| && (fp.fptr > 0 ==> IndexAt(fp) == fp.idx + 1)
    modifies fp.fs`winsect, fp.fs`wflag, fp.fs`copyLost, fp.fs.win, fp.fs.drive
    ensures fp.Based() && fp.fs.View() == old(fp.fs.View()) && (old(fp.fs.Mirrored()) ==> fp.fs.Mirrored())
    ensures IndexAt(fp) < |fp.chain|
    ensures clst == fp.chain[IndexAt(fp)] || clst == DISK_ERROR
    ensures fp.fs.drive.reliable ==> clst == fp.chain[IndexAt(fp)]
    ensures 2 <= fp.chain[IndexAt(fp)] < fp.fs.g.nFatent < DISK_ERROR
  {
    hide Image, CopyAgrees, Links, Ofs;
    EocIsEnd(fp.fs.g);
    if fp.fptr == 0 {
      clst := fp.sclust;
    } else {
      assert Table(fp.fs)[fp.chain[fp.idx]] == fp.chain[fp.idx + 1];
      clst := GetFat(fp.fs, fp.clust);
    }
  }

  /** f_read at a sector boundary: find the sector, following the chain at a cluster boundary. */
  method LocateRead(fp: Fil) returns (res: FRESULT, sect: nat, csect: nat)
    requires fp.Valid() && fp.fptr < fp.objsize && fp.fptr % SS == 0
    modifies fp`clust, fp`idx, fp.fs`winsect, fp.fs`wflag, fp.fs`copyLost, fp.fs.win, fp.fs.drive
    ensures fp.Based() && fp.fs.View() == old(fp.fs.View()) && (old(fp.fs.Mirrored()) ==> fp.fs.Mirrored())
    ensures res == FR_OK || res == FR_DISK_ERR
    ensures fp.fs.drive.reliable ==> res == FR_OK
    ensures res == FR_OK ==> fp.Within(fp.fptr)
    ensures res == FR_OK ==> csect == (fp.fptr - Ofs(fp.fs.g, fp.idx)) / SS < fp.fs.g.csize
    ensures res == FR_OK ==> sect == Clst2Sect(fp.fs.g, fp.clust) + csect && 2 <= fp.clust < fp.fs.g.nFatent
    ensures res == FR_OK ==> sect + fp.fs.g.csize - csect <= fp.fs.drive.sectors
  {
    hide Image, CopyAgrees, Links, Ofs, And, Clst2Sect;
    var g := fp.fs.g;
    ghost var q := IndexAt(fp);
    AtBoundary(fp);
    OfsIndex(g, q, |fp.chain|, fp.fptr);
    csect := And(fp.fptr / SS, g.csize - 1);
    res, sect := FR_INT_ERR, 0;
    if csect == 0 {
      var clst := NextRead(fp);
      if clst < 2 { return; }
      if clst == DISK_ERROR { res := FR_DISK_ERR; return; }
      fp.clust, fp.idx := clst, q;
    }
    ValidSector(g, fp.clust);
    ClusterBounds(g, fp.fs.View(), fp.clust);
    sect := Clst2Sect(g, fp.clust);
    if sect == 0 { return; }
    res, sect := FR_OK, sect + csect;
  }

  /** Copy the dirty window over its sector in the caller's buffer. */
  method OverlayWindow(fs: FatFs, sect: nat, cc: nat, buff: array<byte>, pos: nat)
    requires fs.win.Length == SS && fs.winsect < LBA_LIMIT && sect + cc < LBA_LIMIT
    requires pos + SS * cc <= buff.Length && buff != fs.win
    modifies buff
    ensures buff[..] == if fs.wflag && sect <= fs.winsect < sect + cc
      then Splice(old(buff[..]), pos + SS * (fs.winsect - sect), fs.win[..]) else old(buff[..])
  {
    hide Splice;
    Sub64InRange(fs.winsect, sect, cc);
    if fs.wflag && Sub64(fs.winsect, sect) < cc {
      MemCpy(buff, pos + Sub64(fs.winsect, sect) * SS, fs.win[..]);
    }
  }

  /** The direct path of f_read: cc whole sectors of the data area, with the dirty window copied over. */
  method ReadSectors(fs: FatFs, sect: nat, cc: nat, buff: array<byte>, pos: nat) returns (ok: bool)
    requires fs.Valid() && fs.g.database <= sect && sect < LBA_LIMIT && sect + cc <= fs.drive.sectors
    requires pos + SS * cc <= buff.Length && buff != fs.win
    modifies buff
    ensures fs.drive.reliable ==> ok
    ensures ok ==> buff[..] == Splice(old(buff[..]), pos, fs.View()[SS * sect..SS * (sect + cc)])
  {
    hide Image, CopyAgrees, Splice;
    ok := fs.drive.Read(buff, pos, sect, cc);
    if !ok { return; }
    ghost var raw := fs.drive.data[SS * sect..SS * (sect + cc)];
    DirectRead(fs.g, fs.drive.data, fs.winsect, fs.win[..], fs.wflag, sect, cc);
    OverlayWindow(fs, sect, cc, buff, pos);
    if fs.wflag && sect <= fs.winsect < sect + cc {
      SpliceTwice(old(buff[..]), pos, raw, SS * (fs.winsect - sect), fs.win[..]);
    }
  }

  lemma SpliceTwice(d: seq<byte>, at: nat, w: seq<byte>, o: nat, x: seq<byte>)
    requires at + |w| <= |d| && o + |x| <= |w|
    ensures Splice(Splice(d, at, w), at + o, x) == Splice(d, at, Splice(w, o, x))
  {
  }

  /** The bytes of the file at offset r of the current cluster, on the volume. */
  lemma ContentSlice(fp: Fil, r: nat, m: nat)
    requires fp.Based() && fp.idx < |fp.chain| && fp.clust == fp.chain[fp.idx]
    requires r + m <= fp.fs.g.ClusterBytes() && Ofs(fp.fs.g, fp.idx) + r + m <= fp.objsize
    ensures var a, o := ClusterAddr(fp.fs.g, fp.clust) + r, Ofs(fp.fs.g, fp.idx) + r;
      a + m <= |fp.fs.View()| && SS * fp.fs.g.database <= a &&
      fp.Content()[o..o + m] == fp.fs.View()[a..a + m]
  {
    hide Image, CopyAgrees, Links, Ofs, Data, Clst2Sect;
    ChainInRange(fp.fs.g, Table(fp.fs), fp.chain);
    FileSlice(fp.fs.g, fp.fs.View(), fp.chain, fp.idx, r, m);
    ClusterBounds(fp.fs.g, fp.fs.View(), fp.clust);
    var d, o := Data(fp.fs.g, fp.fs.View(), fp.chain), Ofs(fp.fs.g, fp.idx) + r;
    assert d[..fp.objsize][o..o + m] == d[o..o + m];
  }

  /** The sector path of f_read: bytes of one sector, through the window. */
  method ReadPartial(fs: FatFs, sect: nat, o: nat, n: nat, buff: array<byte>, pos: nat) returns (res: FRESULT)
    requires fs.Valid() && fs.Coherent() && fs.g.database <= sect && sect < LBA_LIMIT && sect < fs.drive.sectors
    requires o + n <= SS && pos + n <= buff.Length && buff != fs.win
    modifies fs`winsect, fs`wflag, fs`copyLost, fs.win, fs.drive, buff
    ensures fs.Valid() && fs.Coherent() && fs.View() == old(fs.View()) && (old(fs.Mirrored()) ==> fs.Mirrored())
    ensures res == FR_OK || res == FR_DISK_ERR
    ensures SS * sect + SS <= |fs.View()| && (fs.drive.reliable ==> res == FR_OK)
    ensures res == FR_OK ==>
      buff[..] == Splice(old(buff[..]), pos, fs.View()[SS * sect + o..SS * sect + o + n])
  {
    hide Image, CopyAgrees, Splice;
    res := fs.MoveWindow(sect);
    if res != FR_OK { return; }
    SliceSlice(fs.View(), SS * sect, SS, o, n);
    MemCpy(buff, pos, fs.win[o..o + n]);
  }

  /** Bytes up to the end of the sector stay in the cluster. */
  lemma PartialFits(g: Geometry, q: nat, f: nat, m: nat)
    requires Ofs(g, q) <= f < Ofs(g, q) + g.ClusterBytes() && m <= SS - f % SS
    ensures var r := f - Ofs(g, q); r + m <= g.ClusterBytes() && r == SS * (r / SS) + f % SS
    ensures (f + m) % SS != 0 ==> (f + m - Ofs(g, q)) / SS == (f - Ofs(g, q)) / SS
  {
    hide Ofs;
    OfsAligned(g, q);
    var t, r := q * g.csize, f - Ofs(g, q);
    var x, y := r / SS, r % SS;
    DivUnique(f, SS, t + x, y);
    assert x < g.csize;
    if y + m < SS {
      DivUnique(r + m, SS, x, y + m);
    } else {
      DivUnique(f + m, SS, t + x + 1, 0);
    }
  }

  /** Whole sectors of the current cluster stay in it. */
  lemma SectorsFit(g: Geometry, q: nat, f: nat, csect: nat, cc: nat)
    requires Ofs(g, q) <= f < Ofs(g, q) + g.ClusterBytes() && f % SS == 0
    requires csect == (f - Ofs(g, q)) / SS && csect + cc <= g.csize && 0 < cc
    ensures f - Ofs(g, q) == SS * csect && f - Ofs(g, q) + SS * cc <= g.ClusterBytes()
    ensures (f + SS * cc) % SS == 0
  {
    hide Ofs;
    OfsAligned(g, q);
    MulMono(csect + cc, g.csize, SS);
  }

  /** Inside a sector the current cluster holds the byte at the file pointer. */
  lemma Inside(fp: Fil)
    requires fp.CursorAt(fp.fptr) && fp.fptr % SS != 0
    ensures fp.Within(fp.fptr)
  {
    hide Ofs;
    OfsAligned(fp.fs.g, fp.idx);
  }

  /** The direct path of f_read, from a located sector on. */
  method ReadDirect(fp: Fil, sect: nat, csect: nat, buff: array<byte>, pos: nat, btr: nat)
      returns (res: FRESULT, rcnt: nat)
    requires fp.Based() && SS <= btr <= fp.objsize - fp.fptr && fp.fptr % SS == 0
    requires fp.Within(fp.fptr) && csect == (fp.fptr - Ofs(fp.fs.g, fp.idx)) / SS < fp.fs.g.csize
    requires sect == Clst2Sect(fp.fs.g, fp.clust) + csect
    requires pos + btr <= buff.Length && buff != fp.fs.win
    modifies buff
    ensures res == FR_OK || res == FR_DISK_ERR
    ensures fp.fs.drive.reliable ==> res == FR_OK
    ensures res == FR_OK ==> 0 < rcnt <= btr && fp.CursorAt(fp.fptr + rcnt)
    ensures res == FR_OK ==> buff[..] == Splice(old(buff[..]), pos, fp.Content()[fp.fptr..fp.fptr + rcnt])
  {
    hide Image, CopyAgrees, Links, Ofs, And, Clst2Sect, Data, Splice, IsChain, Sized;
    var g := fp.fs.g;
    var cc := btr / SS;
    if csect + cc > g.csize { cc := g.csize - csect; }
    SectorsFit(g, fp.idx, fp.fptr, csect, cc);
    ContentSlice(fp, SS * csect, SS * cc);
    rcnt := SS * cc;
    var ok := ReadSectors(fp.fs, sect, cc, buff, pos);
    res := if ok then FR_OK else FR_DISK_ERR;
  }

  /** The last part of f_read's loop body: bytes up to the end of the sector. */
  method ReadRest(fp: Fil, buff: array<byte>, pos: nat, btr: nat) returns (res: FRESULT, rcnt: nat)
    requires fp.Based() && fp.Within(fp.fptr) && 0 < btr <= fp.objsize - fp.fptr
    requires fp.sect == Clst2Sect(fp.fs.g, fp.clust) + (fp.fptr - Ofs(fp.fs.g, fp.idx)) / SS
    requires pos + btr <= buff.Length && buff != fp.fs.win
    modifies fp.fs`winsect, fp.fs`wflag, fp.fs`copyLost, fp.fs.win, fp.fs.drive, buff
    ensures fp.Based() && fp.fs.View() == old(fp.fs.View()) && (old(fp.fs.Mirrored()) ==> fp.fs.Mirrored())
    ensures res == FR_OK || res == FR_DISK_ERR
    ensures fp.fs.drive.reliable ==> res == FR_OK
    ensures res == FR_OK ==> 0 < rcnt <= btr && fp.CursorAt(fp.fptr + rcnt)
    ensures res == FR_OK ==>
      buff[..] == Splice(old(buff[..]), pos, old(fp.Content())[fp.fptr..fp.fptr + rcnt])
  {
    hide Image, CopyAgrees, Links, Ofs, And, Clst2Sect, Data, Splice, IsChain, Sized, FatFs.Mirrored, FatFs.Coherent;
    hide Geometry.Valid;
    var g := fp.fs.g;
    rcnt := SS - fp.fptr % SS;
    if rcnt > btr { rcnt := btr; }
    PartialFits(g, fp.idx, fp.fptr, rcnt);
    ContentSlice(fp, fp.fptr - Ofs(g, fp.idx), rcnt);
    ghost var bs := fp.Content()[fp.fptr..fp.fptr + rcnt];
    res := ReadPartial(fp.fs, fp.sect, fp.fptr % SS, rcnt, buff, pos);
    assert res == FR_OK ==> buff[..] == Splice(old(buff[..]), pos, bs);
  }

  /** One turn of f_read's loop. */
  method ReadStep(fp: Fil, buff: array<byte>, pos: nat, btr: nat) returns (res: FRESULT, rcnt: nat)
    requires fp.Valid() && 0 < btr <= fp.objsize - fp.fptr
    requires pos + btr <= buff.Length && buff != fp.fs.win
    modifies fp`clust, fp`idx, fp`sect, fp.fs`winsect, fp.fs`wflag, fp.fs`copyLost, fp.fs.win, fp.fs.drive, buff
    ensures fp.Based() && fp.fs.View() == old(fp.fs.View()) && (old(fp.fs.Mirrored()) ==> fp.fs.Mirrored())
    ensures res == FR_OK || res == FR_DISK_ERR
    ensures fp.fs.drive.reliable ==> res == FR_OK
    ensures res == FR_OK ==> 0 < rcnt <= btr && fp.CursorAt(fp.fptr + rcnt)
    ensures res == FR_OK ==>
      buff[..] == Splice(old(buff[..]), pos, old(fp.Content())[fp.fptr..fp.fptr + rcnt])
  {
    hide Image, CopyAgrees, Links, Ofs, And, Clst2Sect, Data, Splice, IsChain, Sized;
    var g := fp.fs.g;
    rcnt := 0;
    if fp.fptr % SS == 0 {
      var sect, csect;
      res, sect, csect := LocateRead(fp);
      if res != FR_OK { return; }
      if btr / SS > 0 {
        res, rcnt := ReadDirect(fp, sect, csect, buff, pos, btr);
        return;
      }
      fp.sect := sect;
    } else {
      Inside(fp);
    }
    res, rcnt := ReadRest(fp, buff, pos, btr);
  }

  /** Reading on: bytes f to k of c are in place, the next r follow. */
  lemma ReadOn(d: seq<byte>, c: seq<byte>, f: nat, k: nat, r: nat)
    requires f <= k && k + r <= |c| && k + r - f <= |d|
    ensures Splice(Splice(d, 0, c[f..k]), k - f, c[k..k + r]) == Splice(d, 0, c[f..k + r])
  {
    assert c[f..k] + c[k..k + r] == c[f..k + r];
  }

  /** f_read: the bytes at the file pointer, as many as asked for and as there are. */
  method FRead(fp: Fil, buff: array<byte>, btr: nat) returns (res: FRESULT, br: nat)
    requires fp.Valid() && btr <= buff.Length && buff != fp.fs.win
    modifies fp`clust, fp`idx, fp`sect, fp`fptr, fp`err
    modifies fp.fs`winsect, fp.fs`wflag, fp.fs`copyLost, fp.fs.win, fp.fs.drive, buff
    ensures fp.Based() && fp.fs.View() == old(fp.fs.View()) && (old(fp.fs.Mirrored()) ==> fp.fs.Mirrored())
    ensures res == FR_OK <==> old(fp.err) == FR_OK && fp.readable && fp.err == FR_OK
    ensures res == FR_OK ==> br == if btr <= fp.objsize - old(fp.fptr) then btr else fp.objsize - old(fp.fptr)
    ensures res == FR_OK ==> fp.Valid() && fp.Content() == old(fp.Content()) && fp.fptr == old(fp.fptr) + br
    ensures res == FR_OK ==> buff[..] == Splice(old(buff[..]), 0, fp.Content()[old(fp.fptr)..fp.fptr])
    // the errors: an earlier one, a file not opened for reading, a failing drive
    ensures old(fp.err) != FR_OK ==> res == old(fp.err) && unchanged(fp)
    ensures old(fp.err) == FR_OK && !fp.readable ==> res == FR_DENIED && unchanged(fp)
    ensures old(fp.err) == FR_OK && fp.readable ==> res == FR_OK || (res == FR_DISK_ERR && !fp.fs.drive.reliable)
  {
    hide Image, CopyAgrees, Links, Ofs, And, Clst2Sect, Data, Splice, IsChain, Sized, Fil.CursorAt, Geometry.Valid;
    hide FatFs.Coherent;
    br := 0;
    res := fp.err;
    if res != FR_OK { return; }
    if !fp.readable { res := FR_DENIED; return; }
    var left: nat := btr;
    var remain := fp.objsize - fp.fptr;
    if left > remain { left := remain; }
    ghost var f, n, c := fp.fptr, left, fp.Content();
    assert n == if btr <= fp.objsize - old(fp.fptr) then btr else fp.objsize - old(fp.fptr);
    ghost var b := buff[..];
    assert c[f..f] == [] && Splice(b, 0, []) == b;
    while left > 0
      invariant fp.Valid() && fp.fs.View() == old(fp.fs.View()) && (old(fp.fs.Mirrored()) ==> fp.fs.Mirrored())
      invariant res == FR_OK == fp.err && br + left == n && fp.fptr == f + br
      invariant fp.Content() == c && n <= |b| == buff.Length && f + n <= |c|
      invariant buff[..] == Splice(b, 0, c[f..fp.fptr])
      decreases left
    {
      var rcnt;
      res, rcnt := ReadStep(fp, buff, br, left);
      if res != FR_OK { fp.err := res; return; }
      ReadOn(b, c, f, fp.fptr, rcnt);
      left, br, fp.fptr := left - rcnt, br + rcnt, fp.fptr + rcnt;
    }
  }
}
