/** f_write on FAT12/16/32 volumes. */
module FileWrite {
  import opened Bits
  import opened Storage
  import opened Volume
  import opened FatTable
  import opened Chains
  import opened FileData
  import opened Allocator
  import opened FileRead

  /** c with w written at position f, growing if w ends behind c. */
  function Overwritten(c: seq<byte>, f: nat, w: seq<byte>): (r: seq<byte>)
    requires f <= |c|
    ensures |r| == if f + |w| > |c| then f + |w| else |c|
  {
    c[..f] + w + if f + |w| <= |c| then c[f + |w|..] else []
  }

  lemma OverwrittenTwice(c: seq<byte>, f: nat, w: seq<byte>, x: seq<byte>)
    requires f <= |c|
    ensures Overwritten(Overwritten(c, f, w), f + |w|, x) == Overwritten(c, f, w + x)
  {
  }

  lemma OverwrittenMore(c: seq<byte>, f: nat, buff: array<byte>, n: nat, m: nat)
    requires f <= |c| && n + m <= buff.Length
    ensures Overwritten(Overwritten(c, f, buff[..n]), f + n, buff[n..n + m]) == Overwritten(c, f, buff[..n + m])
  {
    hide Overwritten;
    OverwrittenTwice(c, f, buff[..n], buff[n..n + m]);
    assert buff[..n] + buff[n..n + m] == buff[..n + m];
  }

  /** From volume v with chain ch to volume v' with chain ch': the chain is kept and goes on with clusters that
      were free, and nothing else is touched. */
  ghost predicate Grew(g: Geometry, v: seq<byte>, ch: seq<nat>, v': seq<byte>, ch': seq<nat>) {
    && Sized(g, v) && Untouched(g, v, v', ch') && ch <= ch' && InRange(g, ch')
    && forall i :: |ch| <= i < |ch'| ==> Links(g, v)[ch'[i]] == 0
  }

  lemma PrefixIn(ch: seq<nat>, ch': seq<nat>)
    requires ch <= ch'
    ensures forall c :: c in ch ==> c in ch'
  {
    assert forall i :: 0 <= i < |ch| ==> ch[i] == ch'[i];
  }

  lemma GrewTrans(g: Geometry, v: seq<byte>, ch: seq<nat>, v1: seq<byte>, ch1: seq<nat>, v2: seq<byte>, ch2: seq<nat>)
    requires Grew(g, v, ch, v1, ch1) && Grew(g, v1, ch1, v2, ch2)
    requires ch1 == [] || IsChain(Links(g, v1), ch1)
    ensures Grew(g, v, ch, v2, ch2)
  {
    hide Links, IsChain, Geometry.DataFits;
    PrefixIn(ch1, ch2);
    UntouchedTrans(g, v, v1, v2, ch1, ch2);
    forall i | |ch| <= i < |ch2| ensures Links(g, v)[ch2[i]] == 0 {
      if i < |ch1| {
        assert ch2[i] == ch1[i];
      } else {
        var c := ch2[i];
        if ch1 != [] { FreeNotInChain(Links(g, v1), ch1, c); }
        assert Links(g, v1)[c] == Links(g, v)[c];
      }
    }
  }

  /** A file on a disjoint chain keeps its chain and its bytes. */
  lemma OtherFile(g: Geometry, v: seq<byte>, ch: seq<nat>, v': seq<byte>, ch': seq<nat>, s: seq<nat>)
    requires Grew(g, v, ch, v', ch') && IsChain(Links(g, v), s) && Disjoint(s, ch)
    ensures IsChain(Links(g, v'), s) && Disjoint(s, ch')
    ensures InRange(g, s) && Data(g, v', s) == Data(g, v, s)
  {
    hide Links, Geometry.DataFits, Cluster, Data;
    var t := Links(g, v);
    forall i, j | 0 <= i < |s| && 0 <= j < |ch'| ensures s[i] != ch'[j] {
      if j >= |ch| { FreeNotInChain(t, s, ch'[j]); }
    }
    forall i | 0 <= i < |s| ensures s[i] !in ch' && Links(g, v')[s[i]] == t[s[i]] {
    }
    ChainFrame(t, Links(g, v'), s);
    SameData(g, v, v', s);
  }

  /** Linking a new cluster behind the chain. */
  lemma LinkedGrew(g: Geometry, v: seq<byte>, ch: seq<nat>, ncl: nat)
    requires Sized(g, v) && 2 <= ncl < g.nFatent && Links(g, v)[ncl] == 0
    requires ch == [] || IsChain(Links(g, v), ch)
    ensures var clst := if ch == [] then 0 else ch[|ch| - 1];
      clst < g.nFatent && (clst == 0 || clst >= 2) &&
      var v' := Linked(g, v, clst, ncl);
      && Sized(g, v') && Grew(g, v, ch, v', ch + [ncl]) && IsChain(Links(g, v'), ch + [ncl])
      && InRange(g, ch) && Data(g, v', ch) == Data(g, v, ch)
  {
    hide Links, Linked, Cluster, Data;
    var t := Links(g, v);
    var clst := if ch == [] then 0 else ch[|ch| - 1];
    EocIsEnd(g);
    LinkedTable(g, v, clst, ncl);
    var v' := Linked(g, v, clst, ncl);
    FatChangeKeepsData(g, v, v');
    SameData(g, v, v', ch);
    if ch != [] { ChainAppend(t, ch, ncl, Eoc(g)); }
  }

  /** f_write at a cluster boundary: the next cluster of the chain, which create_chain follows or stretches. */
  method NextWrite(fp: Fil) returns (clst: nat)
    requires fp.Valid() && IndexAt(fp) <= |fp.chain| && (fp.fptr > 0 ==> IndexAt(fp) == fp.idx + 1)
    modifies fp`chain, fp`sclust, fp.fs, fp.fs.win, fp.fs.drive
    ensures fp.fs.Valid() && fp.fs.Coherent() && (old(fp.fs.Mirrored()) ==> fp.fs.Mirrored())
    ensures clst != DISK_ERROR && old(CountRight(fp.fs)) ==> CountRight(fp.fs)
    ensures clst < 2 ==>
      fp.fs.View() == old(fp.fs.View()) && fp.chain == old(fp.chain) && fp.sclust == old(fp.sclust) && fp.Based()
    ensures clst == 0 ==> IndexAt(fp) == |fp.chain| && (fp.fs.freeClst == 0 || NoFree(Table(fp.fs)))
    ensures clst == 1 ==> !NoOnes(old(Table(fp.fs)))
    ensures fp.fs.drive.reliable ==> clst != DISK_ERROR
    ensures 2 <= clst && clst != DISK_ERROR ==>
      && fp.Based() && IndexAt(fp) < |fp.chain| && clst == fp.chain[IndexAt(fp)]
      && Grew(fp.fs.g, old(fp.fs.View()), old(fp.chain), fp.fs.View(), fp.chain)
      && InRange(fp.fs.g, old(fp.chain))
      && Data(fp.fs.g, old(fp.fs.View()), old(fp.chain)) <= Data(fp.fs.g, fp.fs.View(), fp.chain)
  {
    hide Image, CopyAgrees, Links, Ofs, Data, Linked, Geometry.DataFits, Chosen, FatFs.Coherent, CountRight;
    hide Geometry.Valid, Grew;
    ghost var g, v, ch, q := fp.fs.g, fp.fs.View(), fp.chain, IndexAt(fp);
    EocIsEnd(g);
    ChainInRange(g, Links(g, v), ch);
    if q < |ch| { FollowGrew(g, v, ch); }
    if fp.fptr == 0 && fp.sclust != 0 { return fp.sclust; }
    if q < |ch| { assert Links(g, v)[ch[fp.idx]] == ch[fp.idx + 1]; }
    clst := CreateChain(fp.fs, if fp.fptr == 0 then 0 else fp.clust);
    if clst < 2 || clst == DISK_ERROR { return; }
    if q == |ch| {
      LinkedGrew(g, v, ch, clst);
      AppendData(g, fp.fs.View(), ch, clst);
      fp.chain := ch + [clst];
    }
    if fp.sclust == 0 { fp.sclust := clst; }
  }

  lemma FollowGrew(g: Geometry, v: seq<byte>, ch: seq<nat>)
    requires Sized(g, v) && InRange(g, ch)
    ensures Grew(g, v, ch, v, ch)
  {
  }

  /** A longer chain's data begins with the shorter one's. */
  lemma AppendData(g: Geometry, v: seq<byte>, ch: seq<nat>, c: nat)
    requires Sized(g, v) && InRange(g, ch) && 2 <= c < g.nFatent
    ensures InRange(g, ch + [c]) && |Data(g, v, ch + [c])| >= |Data(g, v, ch)|
    ensures Data(g, v, ch) <= Data(g, v, ch + [c])
  {
    assert (ch + [c])[..|ch|] == ch;
  }

  /** From an earlier volume v and chain ch, the file's chain and data have only grown. */
  ghost predicate Since(fp: Fil, v: seq<byte>, ch: seq<nat>)
    requires fp.Based()
    reads fp`sclust, fp`chain, fp`objsize, fp`sect, fp.fs`winsect, fp.fs`wflag, fp.fs`copyLost, fp.fs.win, fp.fs.drive
  {
    var g := fp.fs.g;
    ChainInRange(g, Table(fp.fs), fp.chain);
    Grew(g, v, ch, fp.fs.View(), fp.chain) && InRange(g, ch) && Data(g, v, ch) <= Data(g, fp.fs.View(), fp.chain)
  }

  /** The errors an operation that extends a file can end with: a failing drive, or an entry of value 1 in the FAT
      (which no operation writes), as the search for a free cluster stops at one. */
  ghost predicate Excused(fs: FatFs, noOnes: bool, res: FRESULT) {
    res == FR_OK || (res == FR_DISK_ERR && !fs.drive.reliable) || (res == FR_INT_ERR && !noOnes)
  }

  /** Growing a chain stores no entry of value 1. */
  lemma GrewNoOnes(g: Geometry, v: seq<byte>, ch: seq<nat>, v': seq<byte>, ch': seq<nat>)
    requires Grew(g, v, ch, v', ch') && NoOnes(Links(g, v)) && (ch' == [] || IsChain(Links(g, v'), ch'))
    ensures NoOnes(Links(g, v'))
  {
    hide Links, Cluster, Geometry.DataFits;
    var t, t' := Links(g, v), Links(g, v');
    forall c | 2 <= c < |t'| ensures t'[c] != 1 {
      if c in ch' {
        var i :| 0 <= i < |ch'| && ch'[i] == c;
        if i < |ch'| - 1 { assert t'[ch'[i]] == ch'[i + 1]; }
      } else {
        assert t'[c] == t[c];
      }
    }
  }

  /** The file pointer is at the end of the last cluster. */
  ghost predicate AtEnd(fp: Fil)
    reads fp`fptr, fp`chain
  {
    fp.fptr == Ofs(fp.fs.g, |fp.chain|)
  }

  /** That is the end of the file, too. */
  lemma EndOfContent(fp: Fil)
    requires fp.Valid() && AtEnd(fp)
    ensures fp.fptr == |fp.Content()|
  {
    hide Data, Ofs, Links, IsChain, Image;
  }

  /** f_write at a sector boundary: enter the next cluster when it is a cluster boundary. */
  method EnterCluster(fp: Fil) returns (res: FRESULT, full: bool, csect: nat)
    requires fp.Valid() && fp.fptr % SS == 0
    modifies fp`chain, fp`sclust, fp`clust, fp`idx, fp.fs, fp.fs.win, fp.fs.drive
    ensures fp.fs.Valid() && fp.fs.Coherent() && (old(fp.fs.Mirrored()) ==> fp.fs.Mirrored())
    ensures res == FR_OK && old(CountRight(fp.fs)) ==> CountRight(fp.fs)
    ensures res == FR_OK ==> fp.Based() && Since(fp, old(fp.fs.View()), old(fp.chain))
    ensures res == FR_OK && full ==>
      && fp.fs.View() == old(fp.fs.View()) && fp.chain == old(fp.chain) && fp.Valid() && AtEnd(fp)
      && (fp.fs.freeClst == 0 || NoFree(Table(fp.fs)))
    ensures Excused(fp.fs, old(NoOnes(Table(fp.fs))), res)
    ensures res == FR_OK && !full ==>
      fp.Within(fp.fptr) && csect == (fp.fptr - Ofs(fp.fs.g, fp.idx)) / SS < fp.fs.g.csize
  {
    hide Image, CopyAgrees, Links, Ofs, And, Clst2Sect, Data, Geometry.DataFits, Grew, NoOnes, NoFree, FatFs.Mirrored;
    hide CountRight, Sized, Geometry.Valid, FatFs.Coherent, IsChain;
    var g := fp.fs.g;
    ghost var q := IndexAt(fp);
    AtBoundary(fp);
    ChainInRange(g, Table(fp.fs), fp.chain);
    FollowGrew(g, fp.fs.View(), fp.chain);
    csect := And(fp.fptr / SS, g.csize - 1);
    res, full := FR_OK, false;
    if csect == 0 {
      var clst := NextWrite(fp);
      if clst == 0 { full := true; return; }
      if clst == 1 { res := FR_INT_ERR; return; }
      if clst == DISK_ERROR { res := FR_DISK_ERR; return; }
      fp.clust, fp.idx := clst, q;
    }
  }

  /** f_write at a sector boundary: find the sector, allocating at a cluster boundary. */
  method LocateWrite(fp: Fil) returns (res: FRESULT, full: bool, sect: nat, csect: nat)
    requires fp.Valid() && fp.fptr % SS == 0
    modifies fp`chain, fp`sclust, fp`clust, fp`idx, fp.fs, fp.fs.win, fp.fs.drive
    ensures fp.fs.Valid() && (res == FR_OK ==> fp.fs.Coherent()) && (old(fp.fs.Mirrored()) ==> fp.fs.Mirrored())
    ensures res == FR_OK && old(CountRight(fp.fs)) ==> CountRight(fp.fs)
    ensures res == FR_OK ==> fp.Based() && Since(fp, old(fp.fs.View()), old(fp.chain))
    ensures res == FR_OK && full ==>
      && fp.fs.View() == old(fp.fs.View()) && fp.chain == old(fp.chain) && fp.Valid() && AtEnd(fp)
      && (fp.fs.freeClst == 0 || NoFree(Table(fp.fs)))
    ensures Excused(fp.fs, old(NoOnes(Table(fp.fs))), res)
    ensures res == FR_OK && !full ==>
      && fp.Within(fp.fptr) && csect == (fp.fptr - Ofs(fp.fs.g, fp.idx)) / SS < fp.fs.g.csize
      && sect == Clst2Sect(fp.fs.g, fp.clust) + csect && 2 <= fp.clust < fp.fs.g.nFatent
      && sect + fp.fs.g.csize - csect <= fp.fs.drive.sectors
  {
    hide Image, CopyAgrees, Links, Ofs, And, Clst2Sect, Data, Geometry.DataFits, IsChain, Grew, NoOnes, NoFree;
    hide FatFs.Mirrored, Sized, Geometry.Valid;
    sect := 0;
    res, full, csect := EnterCluster(fp);
    if res != FR_OK || full { return; }
    if fp.fs.winsect == fp.sect {
      res := fp.fs.SyncWindow();
      if res != FR_OK { return; }
    }
    InRangeAt(fp.fs.g, Table(fp.fs), fp.chain, fp.idx);
    ClusterBounds(fp.fs.g, fp.fs.View(), fp.clust);
    ValidSector(fp.fs.g, fp.clust);
    sect := Clst2Sect(fp.fs.g, fp.clust);
    if sect == 0 { res := FR_INT_ERR; return; }
    sect := sect + csect;
  }

  /** A direct write of whole data sectors: a window on one of them takes the new bytes and becomes clean. */
  lemma DirectWrite(g: Geometry, d: seq<byte>, ws: nat, w: seq<byte>, dirty: bool, s: nat, n: nat, bs: seq<byte>)
    requires g.Valid() && |w| == SS && |bs| == SS * n && g.database <= s && SS * (s + n) <= |d|
    ensures var d' := Splice(d, SS * s, bs);
      if s <= ws < s + n
      then var w' := bs[SS * (ws - s)..SS * (ws - s) + SS];
        && Image(g, d', ws, w', false) == Splice(Image(g, d, ws, w, dirty), SS * s, bs)
        && d'[SS * ws..SS * ws + SS] == w'
      else
        && Image(g, d', ws, w, dirty) == Splice(Image(g, d, ws, w, dirty), SS * s, bs)
        && (SS * ws + SS <= |d| ==> d'[SS * ws..SS * ws + SS] == d[SS * ws..SS * ws + SS])
  {
    var d' := Splice(d, SS * s, bs);
    forall a | SS * s <= a < SS * (s + n) ensures !g.CopyByte(a) {
    }
    if s <= ws < s + n {
      SliceOfSplice(d, SS * s, bs, SS * (ws - s), SS);
    }
  }

  lemma SliceOfSplice(d: seq<byte>, at: nat, w: seq<byte>, o: nat, n: nat)
    requires at + |w| <= |d| && o + n <= |w|
    ensures Splice(d, at, w)[at + o..at + o + n] == w[o..o + n]
  {
    SliceSlice(Splice(d, at, w), at, |w|, o, n);
  }

  /** Writing data sectors does not concern the FAT copies. */
  lemma DataKeepsCopies(g: Geometry, d: seq<byte>, ws: nat, dirty: bool, s: nat, n: nat, bs: seq<byte>)
    requires g.Valid() && g.nFats == 2 && SS * g.database <= |d| && CopyAgrees(g, d, ws, dirty)
    requires |bs| == SS * n && g.database <= s && SS * (s + n) <= |d|
    ensures CopyAgrees(g, Splice(d, SS * s, bs), ws, dirty && !(s <= ws < s + n))
  {
    hide Splice;
  }

  lemma SpliceAll(d: seq<byte>, w: seq<byte>)
    requires |d| == |w|
    ensures Splice(d, 0, w) == w
  {
  }

  /** A window on one of the sectors written directly takes its new bytes and becomes clean. */
  method RefreshWindow(fs: FatFs, sect: nat, cc: nat, buff: array<byte>, pos: nat)
    requires fs.win.Length == SS && fs.winsect < LBA_LIMIT && sect + cc < LBA_LIMIT
    requires pos + SS * cc <= buff.Length && buff != fs.win
    modifies fs`wflag, fs.win
    ensures sect <= fs.winsect < sect + cc ==> !fs.wflag
    ensures sect <= fs.winsect < sect + cc ==>
      fs.win[..] == buff[pos..pos + SS * cc][SS * (fs.winsect - sect)..SS * (fs.winsect - sect) + SS]
    ensures !(sect <= fs.winsect < sect + cc) ==> fs.wflag == old(fs.wflag) && fs.win[..] == old(fs.win[..])
  {
    hide Splice;
    Sub64InRange(fs.winsect, sect, cc);
    if Sub64(fs.winsect, sect) < cc {
      var o := pos + Sub64(fs.winsect, sect) * SS;
      SliceSlice(buff[..], pos, SS * cc, o - pos, SS);
      SpliceAll(fs.win[..], buff[o..o + SS]);
      MemCpy(fs.win, 0, buff[o..o + SS]);
      fs.wflag := false;
    }
  }

  /** The direct path of f_write: cc whole sectors, refreshing a window that shows one of them. */
  method WriteSectors(fs: FatFs, sect: nat, cc: nat, buff: array<byte>, pos: nat) returns (ok: bool)
    requires fs.Valid() && fs.Coherent() && fs.g.database <= sect && sect + cc <= fs.drive.sectors
    requires pos + SS * cc <= buff.Length && buff != fs.win
    modifies fs`wflag, fs.win, fs.drive
    ensures fs.Valid()
    ensures fs.drive.reliable ==> ok
    ensures ok ==> fs.Coherent() && (old(fs.Mirrored()) ==> fs.Mirrored())
    ensures ok ==> fs.View() == Splice(old(fs.View()), SS * sect, buff[pos..pos + SS * cc])
  {
    hide Image, CopyAgrees, Splice;
    ghost var d, bs := fs.drive.data, buff[pos..pos + SS * cc];
    ok := fs.drive.Write(buff, pos, sect, cc);
    if !ok { return; }
    DirectWrite(fs.g, d, fs.winsect, fs.win[..], fs.wflag, sect, cc, bs);
    if fs.g.nFats == 2 && !fs.copyLost && old(fs.Mirrored()) {
      DataKeepsCopies(fs.g, d, fs.winsect, fs.wflag, sect, cc, bs);
    }
    RefreshWindow(fs, sect, cc, buff, pos);
  }

  /** Storing bytes into a window, whatever it shows, makes its whole sector the new window. */
  lemma DirtyImage(g: Geometry, d: seq<byte>, s: nat, w: seq<byte>, dirty: bool, w': seq<byte>)
    requires |w| == SS && |w'| == SS && SS * s + SS <= |d| && !g.CopySector(s)
    ensures Image(g, d, s, w', true) == Splice(Image(g, d, s, w, dirty), SS * s, w')
  {
    forall a | SS * s <= a < SS * s + SS ensures !g.CopyByte(a) {
    }
  }

  /** The sector path of f_write: bytes of one sector, through the window. w0 is what the window held: the sector,
      or anything when the window was only claimed for it. */
  method WriteWindow(fs: FatFs, sect: nat, o: nat, n: nat, buff: array<byte>, pos: nat)
      returns (res: FRESULT, ghost w0: seq<byte>)
    requires fs.Valid() && (fs.Coherent() || fs.winsect == sect) && fs.g.database <= sect < fs.drive.sectors
    requires o + n <= SS && pos + n <= buff.Length && buff != fs.win
    modifies fs`winsect, fs`wflag, fs`copyLost, fs.win, fs.drive
    ensures fs.Valid() && |w0| == SS && (res == FR_OK || res == FR_DISK_ERR)
    ensures fs.drive.reliable ==> res == FR_OK
    ensures SS * sect + SS <= |old(fs.View())|
    ensures res == FR_OK ==> fs.Coherent() && (old(fs.Mirrored()) ==> fs.Mirrored())
    ensures res == FR_OK ==> fs.View() == Splice(old(fs.View()), SS * sect, Splice(w0, o, buff[pos..pos + n]))
    ensures res == FR_OK && old(fs.Coherent()) ==> w0 == old(fs.View())[SS * sect..SS * sect + SS]
  {
    hide Image, Splice;
    w0 := fs.win[..];
    res := fs.MoveWindow(sect);
    if res != FR_OK { return; }
    w0 := fs.win[..];
    DirtyImage(fs.g, fs.drive.data, sect, w0, fs.wflag, Splice(w0, o, buff[pos..pos + n]));
    MemCpy(fs.win, o, buff[pos..pos + n]);
    fs.wflag := true;
  }

  /** From v to v' the file with chain ch and size `size` had w written at offset f, and nothing else changed. */
  ghost predicate WroteAt(g: Geometry, v: seq<byte>, v': seq<byte>, ch: seq<nat>, size: nat, f: nat, w: seq<byte>)
  {
    && Sized(g, v) && InRange(g, ch) && Grew(g, v, ch, v', ch) && Links(g, v') == Links(g, v)
    && f <= size <= |Data(g, v, ch)| && f + |w| <= |Data(g, v, ch)|
    && Data(g, v', ch)[..Max(size, f + |w|)] == Overwritten(Data(g, v, ch)[..size], f, w)
  }

  /** Bytes x stored at offset r of the cluster with index q. */
  lemma StoreInChain(g: Geometry, v: seq<byte>, ch: seq<nat>, q: nat, r: nat, x: seq<byte>)
    requires Sized(g, v) && IsChain(Links(g, v), ch) && q < |ch| && r + |x| <= g.ClusterBytes()
    ensures ClusterAddr(g, ch[q]) + r + |x| <= |v|
    ensures var v' := Splice(v, ClusterAddr(g, ch[q]) + r, x);
      && InRange(g, ch) && Grew(g, v, ch, v', ch) && Links(g, v') == Links(g, v)
      && Ofs(g, q) + r + |x| <= |Data(g, v, ch)| && Data(g, v', ch) == Splice(Data(g, v, ch), Ofs(g, q) + r, x)
  {
    hide Splice, Links, Cluster, Clst2Sect, Data, Ofs, Geometry.DataFits;
    ChainInRange(g, Links(g, v), ch);
    ChainDistinct(Links(g, v), ch);
    ClusterChange(g, v, ch[q], r, x);
    var v' := Splice(v, ClusterAddr(g, ch[q]) + r, x);
    assert forall c :: c !in ch ==> c !in [ch[q]];
    DataSplice(g, v, v', ch, q, r, x);
  }

  /** The file's bytes after x was stored over the data d at position at, where x carries w at offset o and
      otherwise holds what was there, or begins with w at the end of the file. */
  lemma ContentAfter(d: seq<byte>, size: nat, f: nat, w: seq<byte>, x: seq<byte>, o: nat)
    requires f <= size <= |d| && o <= f && f - o + |x| <= |d| && o + |w| <= |x|
    requires x == Splice(d[f - o..f - o + |x|], o, w) || (o == 0 && f == size && x[..|w|] == w)
    ensures Splice(d, f - o, x)[..Max(size, f + |w|)] == Overwritten(d[..size], f, w)
  {
    hide Overwritten, Splice;
    var l, r := Splice(d, f - o, x)[..Max(size, f + |w|)], Overwritten(d[..size], f, w);
    forall i | 0 <= i < |l| ensures l[i] == r[i] {
      OverwrittenAt(d[..size], f, w, i);
      SplicedAt(d, f - o, x, i);
      if f - o <= i < f - o + |x| { StoredAt(d, f, w, x, o, i - (f - o)); }
    }
  }

  lemma OverwrittenAt(c: seq<byte>, f: nat, w: seq<byte>, i: nat)
    requires f <= |c| && i < |Overwritten(c, f, w)|
    ensures Overwritten(c, f, w)[i] == if f <= i < f + |w| then w[i - f] else c[i]
  {
  }

  lemma SplicedAt(d: seq<byte>, at: nat, w: seq<byte>, i: nat)
    requires at + |w| <= |d| && i < |d|
    ensures Splice(d, at, w)[i] == if at <= i < at + |w| then w[i - at] else d[i]
  {
  }

  /** Byte k of what is stored: the new one, or what was there. */
  lemma StoredAt(d: seq<byte>, f: nat, w: seq<byte>, x: seq<byte>, o: nat, k: nat)
    requires o <= f && f - o + |x| <= |d| && o + |w| <= |x| && k < |x|
    requires x == Splice(d[f - o..f - o + |x|], o, w) || (o == 0 && x[..|w|] == w)
    ensures o <= k < o + |w| ==> x[k] == w[k - o]
    ensures !(o <= k < o + |w|) && x == Splice(d[f - o..f - o + |x|], o, w) ==> x[k] == d[f - o + k]
  {
    hide Splice;
    var y := d[f - o..f - o + |x|];
    if x == Splice(y, o, w) {
      SplicedAt(y, o, w, k);
    } else if k < |w| {
      assert x[..|w|][k] == x[k];
    }
  }

  /** Storing w at its place in the current cluster. */
  lemma WroteDirect(g: Geometry, v: seq<byte>, ch: seq<nat>, q: nat, r: nat, w: seq<byte>, size: nat)
    requires Sized(g, v) && IsChain(Links(g, v), ch) && q < |ch| && r + |w| <= g.ClusterBytes()
    requires Ofs(g, q) + r <= size <= Ofs(g, |ch|)
    ensures ClusterAddr(g, ch[q]) + r + |w| <= |v|
    ensures WroteAt(g, v, Splice(v, ClusterAddr(g, ch[q]) + r, w), ch, size, Ofs(g, q) + r, w)
    ensures Links(g, Splice(v, ClusterAddr(g, ch[q]) + r, w)) == Links(g, v)
  {
    hide Links, Ofs, Clst2Sect, Data, Splice, Geometry.DataFits, Overwritten;
    StoreInChain(g, v, ch, q, r, w);
    ContentAfter(Data(g, v, ch), size, Ofs(g, q) + r, w, w, 0);
  }

  /** Storing the sector w0 with w laid over its offset o at sector offset r of the current cluster, where w0 is
      the old sector, or w begins the sector at the end of the file. */
  lemma WroteSector(g: Geometry, v: seq<byte>, ch: seq<nat>, q: nat, r: nat, w0: seq<byte>, o: nat, w: seq<byte>,
                    size: nat)
    requires Sized(g, v) && IsChain(Links(g, v), ch) && q < |ch| && r + SS <= g.ClusterBytes()
    requires |w0| == SS && o + |w| <= SS && Ofs(g, q) + r + o <= size <= Ofs(g, |ch|)
    requires ClusterAddr(g, ch[q]) + r + SS <= |v|
    requires w0 == v[ClusterAddr(g, ch[q]) + r..ClusterAddr(g, ch[q]) + r + SS] || (o == 0 && Ofs(g, q) + r == size)
    ensures WroteAt(g, v, Splice(v, ClusterAddr(g, ch[q]) + r, Splice(w0, o, w)), ch, size, Ofs(g, q) + r + o, w)
    ensures Links(g, Splice(v, ClusterAddr(g, ch[q]) + r, Splice(w0, o, w))) == Links(g, v)
  {
    hide Links, Ofs, Clst2Sect, Data, Splice, Geometry.DataFits, Overwritten;
    ChainInRange(g, Links(g, v), ch);
    FileSlice(g, v, ch, q, r, SS);
    StoreInChain(g, v, ch, q, r, Splice(w0, o, w));
    ContentAfter(Data(g, v, ch), size, Ofs(g, q) + r + o, w, Splice(w0, o, w), o);
  }

  /** The direct path of f_write, from a located sector on. */
  method WriteDirect(fp: Fil, sect: nat, csect: nat, buff: array<byte>, pos: nat, btw: nat)
      returns (res: FRESULT, wcnt: nat)
    requires fp.Based() && fp.fptr <= fp.objsize && SS <= btw && fp.fptr % SS == 0
    requires fp.Within(fp.fptr) && csect == (fp.fptr - Ofs(fp.fs.g, fp.idx)) / SS < fp.fs.g.csize
    requires sect == Clst2Sect(fp.fs.g, fp.clust) + csect && sect + fp.fs.g.csize - csect <= fp.fs.drive.sectors
    requires pos + btw <= buff.Length && buff != fp.fs.win
    modifies fp.fs`wflag, fp.fs.win, fp.fs.drive
    ensures fp.fs.Valid() && (res == FR_OK || res == FR_DISK_ERR)
    ensures fp.fs.drive.reliable ==> res == FR_OK
    ensures res == FR_OK ==> 0 < wcnt <= btw && fp.CursorAt(fp.fptr + wcnt)
    ensures res == FR_OK ==> fp.fs.Coherent() && (old(fp.fs.Mirrored()) ==> fp.fs.Mirrored())
    ensures res == FR_OK ==> Table(fp.fs) == old(Table(fp.fs))
    ensures res == FR_OK ==>
      WroteAt(fp.fs.g, old(fp.fs.View()), fp.fs.View(), fp.chain, fp.objsize, fp.fptr, buff[pos..pos + wcnt])
  {
    hide Image, CopyAgrees, Links, Ofs, And, Clst2Sect, Data, Splice, Geometry.DataFits, WroteAt, IsChain;
    hide FatFs.Mirrored, Sized, Geometry.Valid;
    var g := fp.fs.g;
    var cc := btw / SS;
    if csect + cc > g.csize { cc := g.csize - csect; }
    SectorsFit(g, fp.idx, fp.fptr, csect, cc);
    InRangeAt(g, Table(fp.fs), fp.chain, fp.idx);
    ValidSector(g, fp.clust);
    wcnt := SS * cc;
    WroteDirect(g, fp.fs.View(), fp.chain, fp.idx, SS * csect, buff[pos..pos + wcnt], fp.objsize);
    var ok := WriteSectors(fp.fs, sect, cc, buff, pos);
    res := if ok then FR_OK else FR_DISK_ERR;
  }

  lemma InRangeAt(g: Geometry, t: seq<nat>, ch: seq<nat>, q: nat)
    requires |t| == g.nFatent && IsChain(t, ch) && q < |ch|
    ensures 2 <= ch[q] < g.nFatent
  {
  }

  /** The last part of f_write's loop body: bytes up to the end of the sector. `claimed` tells that the window was
      just claimed for the sector at the end of the file without reading it. */
  method WriteRest(fp: Fil, ghost claimed: bool, buff: array<byte>, pos: nat, btw: nat)
      returns (res: FRESULT, wcnt: nat)
    requires Ready(fp, claimed) && 0 < btw
    requires pos + btw <= buff.Length && buff != fp.fs.win
    modifies fp.fs`winsect, fp.fs`wflag, fp.fs`copyLost, fp.fs.win, fp.fs.drive
    ensures fp.fs.Valid() && (res == FR_OK || res == FR_DISK_ERR)
    ensures fp.fs.drive.reliable ==> res == FR_OK
    ensures res == FR_OK ==> 0 < wcnt <= btw && fp.CursorAt(fp.fptr + wcnt)
    ensures res == FR_OK ==> fp.fs.Coherent() && (old(fp.fs.Mirrored()) ==> fp.fs.Mirrored())
    ensures res == FR_OK ==> Table(fp.fs) == old(Table(fp.fs))
    ensures res == FR_OK ==>
      WroteAt(fp.fs.g, old(fp.fs.View()), fp.fs.View(), fp.chain, fp.objsize, fp.fptr, buff[pos..pos + wcnt])
  {
    hide Image, CopyAgrees, Links, Ofs, And, Clst2Sect, Data, Splice, Geometry.DataFits, WroteAt, IsChain;
    hide FatFs.Mirrored, FatFs.Coherent, Sized, Geometry.Valid;
    var g := fp.fs.g;
    wcnt := SS - fp.fptr % SS;
    if wcnt > btw { wcnt := btw; }
    PartialFits(g, fp.idx, fp.fptr, wcnt);
    InRangeAt(g, Table(fp.fs), fp.chain, fp.idx);
    ValidSector(g, fp.clust);
    ghost var v, r, o := fp.fs.View(), (fp.fptr - Ofs(g, fp.idx)) / SS, fp.fptr % SS;
    SectorFits(g, r, o);
    ghost var w0;
    res, w0 := WriteWindow(fp.fs, fp.sect, fp.fptr % SS, wcnt, buff, pos);
    if res == FR_OK {
      WroteSector(g, v, fp.chain, fp.idx, SS * r, w0, o, buff[pos..pos + wcnt], fp.objsize);
    }
  }

  lemma SectorFits(g: Geometry, r: nat, o: nat)
    requires SS * r + o < g.ClusterBytes()
    ensures SS * r + SS <= g.ClusterBytes()
  {
  }

  /** At the end of the file the window is claimed for the sector without reading it. */
  method ClaimWindow(fs: FatFs, sect: nat) returns (res: FRESULT)
    requires fs.Valid() && fs.Coherent() && fs.g.database <= sect < fs.drive.sectors
    modifies fs`winsect, fs`wflag, fs`copyLost, fs.drive
    ensures fs.Valid() && fs.View() == old(fs.View()) && (old(fs.Mirrored()) ==> fs.Mirrored())
    ensures res == FR_OK ==> fs.winsect == sect
    ensures res == FR_OK || res == FR_DISK_ERR
    ensures fs.drive.reliable ==> res == FR_OK
  {
    hide Image;
    res := fs.SyncWindow();
    if res == FR_OK {
      CleanImage(fs.g, fs.drive.data, fs.winsect, fs.win[..], sect, fs.win[..]);
      fs.winsect := sect;
    }
  }

  lemma SectorBound(fp: Fil)
    requires fp.Based() && fp.Within(fp.fptr)
    ensures Clst2Sect(fp.fs.g, fp.clust) + (fp.fptr - Ofs(fp.fs.g, fp.idx)) / SS < fp.fs.drive.sectors
  {
    hide Clst2Sect, Ofs;
    ClusterBounds(fp.fs.g, fp.fs.View(), fp.clust);
  }

  /** The body of f_write's loop at a sector boundary: locate the sector, write whole sectors directly if there are any,
      or else make the sector the current one, claiming the window for it at the end of the file. v1 is the volume after
      allocating and before storing. */
  method WriteAtBoundary(fp: Fil, buff: array<byte>, pos: nat, btw: nat)
      returns (res: FRESULT, full: bool, wcnt: nat, ghost claimed: bool, ghost v1: seq<byte>)
    requires fp.Valid() && fp.fptr % SS == 0 && 0 < btw && pos + btw <= buff.Length && buff != fp.fs.win
    modifies fp`chain, fp`sclust, fp`clust, fp`idx, fp`sect, fp.fs, fp.fs.win, fp.fs.drive
    ensures fp.fs.Valid() && Excused(fp.fs, old(NoOnes(Table(fp.fs))), res)
    ensures res == FR_OK ==> (old(fp.fs.Mirrored()) ==> fp.fs.Mirrored())
    ensures res == FR_OK && old(CountRight(fp.fs)) ==> CountRight(fp.fs)
    ensures res == FR_OK ==> Allocated(fp, old(fp.fs.View()), old(fp.chain), v1)
    ensures res == FR_OK && full ==>
      fp.fs.View() == old(fp.fs.View()) && fp.chain == old(fp.chain) && fp.Valid() && AtEnd(fp)
      && (fp.fs.freeClst == 0 || NoFree(Table(fp.fs)))
    ensures res == FR_OK && !full && wcnt > 0 ==> fp.fs.Coherent() && wcnt <= btw && fp.CursorAt(fp.fptr + wcnt)
    ensures res == FR_OK && !full && wcnt > 0 ==> fp.sect < LBA_LIMIT
    ensures res == FR_OK && !full && wcnt > 0 ==>
      WroteAt(fp.fs.g, v1, fp.fs.View(), fp.chain, fp.objsize, fp.fptr, buff[pos..pos + wcnt])
    ensures res == FR_OK && !full && wcnt == 0 ==> Ready(fp, claimed) && fp.fs.View() == v1
  {
    hide Image, CopyAgrees, Links, Ofs, And, Clst2Sect, Data, Splice, Geometry.DataFits, WroteAt, IsChain, Grew;
    hide NoOnes, NoFree, Geometry.Valid;
    wcnt, claimed, v1 := 0, false, fp.fs.View();
    var sect, csect;
    res, full, sect, csect := LocateWrite(fp);
    v1 := fp.fs.View();
    if res != FR_OK || full { return; }
    ValidSector(fp.fs.g, fp.clust);
    if btw / SS > 0 {
      res, wcnt := WriteDirect(fp, sect, csect, buff, pos, btw);
      return;
    }
    if fp.fptr >= fp.objsize {
      res := ClaimWindow(fp.fs, sect);
      if res != FR_OK { return; }
      claimed := true;
    }
    fp.sect := sect;
  }

  /** The current sector is the one of the file pointer, and the window shows it, or was claimed for it at the end of
      the file. */
  ghost predicate Ready(fp: Fil, claimed: bool)
    reads fp, fp.fs`winsect, fp.fs`wflag, fp.fs`copyLost, fp.fs.win, fp.fs.drive
  {
    && fp.fs.Valid() && fp.Within(fp.fptr) && fp.fptr <= fp.objsize <= Ofs(fp.fs.g, |fp.chain|)
    && !fp.fs.g.fsType.EXFAT? && Sized(fp.fs.g, fp.fs.View()) && IsChain(Table(fp.fs), fp.chain)
    && fp.sect == Clst2Sect(fp.fs.g, fp.clust) + (fp.fptr - Ofs(fp.fs.g, fp.idx)) / SS < fp.fs.drive.sectors
    && (fp.fs.Coherent() || (claimed && fp.fs.winsect == fp.sect))
    && (claimed ==> fp.fptr == fp.objsize && fp.fptr % SS == 0)
  }

  /** The body of f_write's loop. v1 is the volume after allocating and before storing. */
  method WriteBody(fp: Fil, buff: array<byte>, pos: nat, btw: nat)
      returns (res: FRESULT, full: bool, wcnt: nat, ghost v1: seq<byte>)
    requires fp.Valid() && 0 < btw && pos + btw <= buff.Length && buff != fp.fs.win
    modifies fp`chain, fp`sclust, fp`clust, fp`idx, fp`sect, fp.fs, fp.fs.win, fp.fs.drive
    ensures fp.fs.Valid()
    ensures res == FR_OK ==> fp.fs.Coherent() && (old(fp.fs.Mirrored()) ==> fp.fs.Mirrored())
    ensures res == FR_OK && old(CountRight(fp.fs)) ==> CountRight(fp.fs)
    ensures Excused(fp.fs, old(NoOnes(Table(fp.fs))), res)
    ensures res == FR_OK ==> Allocated(fp, old(fp.fs.View()), old(fp.chain), v1)
    ensures res == FR_OK && full ==>
      fp.fs.View() == old(fp.fs.View()) && fp.chain == old(fp.chain) && fp.Valid() && AtEnd(fp)
      && (fp.fs.freeClst == 0 || NoFree(Table(fp.fs)))
    ensures res == FR_OK && !full ==> 0 < wcnt <= btw && fp.CursorAt(fp.fptr + wcnt) && fp.sect < LBA_LIMIT
    ensures res == FR_OK && !full ==>
      WroteAt(fp.fs.g, v1, fp.fs.View(), fp.chain, fp.objsize, fp.fptr, buff[pos..pos + wcnt])
  {
    hide Image, CopyAgrees, Links, Ofs, And, Clst2Sect, Data, Splice, Geometry.DataFits, WroteAt, IsChain, Grew;
    hide NoOnes, NoFree, Geometry.Valid, FatFs.Mirrored;
    ghost var claimed := false;
    full, wcnt, v1 := false, 0, fp.fs.View();
    if fp.fptr % SS == 0 {
      res, full, wcnt, claimed, v1 := WriteAtBoundary(fp, buff, pos, btw);
      if res != FR_OK || full || wcnt > 0 { return; }
    } else {
      Inside(fp);
      SectorBound(fp);
      ChainInRange(fp.fs.g, Table(fp.fs), fp.chain);
      FollowGrew(fp.fs.g, v1, fp.chain);
    }
    res, wcnt := WriteRest(fp, claimed, buff, pos, btw);
  }

  /** From v to v1 at most the file's chain grew, keeping its data. */
  ghost predicate Allocated(fp: Fil, v: seq<byte>, ch: seq<nat>, v1: seq<byte>)
    reads fp
  {
    var g := fp.fs.g;
    && Sized(g, v1)
    && (if fp.sclust == 0 then fp.chain == [] else IsChain(Links(g, v1), fp.chain) && fp.chain[0] == fp.sclust)
    && Grew(g, v, ch, v1, fp.chain) && InRange(g, ch) && Data(g, v, ch) <= Data(g, v1, fp.chain)
  }

  /** Allocating and then storing, put together. */
  lemma StepContent(fp: Fil, v: seq<byte>, ch: seq<nat>, v1: seq<byte>, v2: seq<byte>, size: nat, f: nat, w: seq<byte>)
    requires Allocated(fp, v, ch, v1) && WroteAt(fp.fs.g, v1, v2, fp.chain, size, f, w)
    requires fp.chain != [] && size <= |Data(fp.fs.g, v, ch)|
    ensures var g := fp.fs.g;
      && Sized(g, v2) && IsChain(Links(g, v2), fp.chain) && Grew(g, v, ch, v2, fp.chain)
      && Max(size, f + |w|) <= Ofs(g, |fp.chain|)
      && Data(g, v2, fp.chain)[..Max(size, f + |w|)] == Overwritten(Data(g, v, ch)[..size], f, w)
  {
    var g := fp.fs.g;
    hide Links, Ofs, Data, Geometry.DataFits, IsChain, Overwritten;
    GrewTrans(g, v, ch, v1, fp.chain, v2, fp.chain);
    assert Data(g, v1, fp.chain)[..size] == Data(g, v, ch)[..size];
  }

  /** One turn of f_write's loop. */
  method WriteStep(fp: Fil, buff: array<byte>, pos: nat, btw: nat) returns (res: FRESULT, full: bool, wcnt: nat)
    requires fp.Valid() && 0 < btw && pos + btw <= buff.Length && buff != fp.fs.win
    requires fp.fptr + btw <= 0xFFFFFFFF
    modifies fp`chain, fp`sclust, fp`clust, fp`idx, fp`sect, fp`fptr, fp`objsize, fp.fs, fp.fs.win, fp.fs.drive
    ensures fp.fs.Valid()
    ensures res == FR_OK ==> fp.Valid() && (old(fp.fs.Mirrored()) ==> fp.fs.Mirrored())
    ensures res == FR_OK && old(CountRight(fp.fs)) ==> CountRight(fp.fs)
    ensures Excused(fp.fs, old(NoOnes(Table(fp.fs))), res)
    ensures res == FR_OK ==> Grew(fp.fs.g, old(fp.fs.View()), old(fp.chain), fp.fs.View(), fp.chain)
    ensures res == FR_OK ==> fp.fptr == old(fp.fptr) + wcnt && wcnt <= btw
    ensures res == FR_OK ==> fp.Content() == Overwritten(old(fp.Content()), old(fp.fptr), buff[pos..pos + wcnt])
    ensures res == FR_OK && full ==> wcnt == 0 && AtEnd(fp) && (fp.fs.freeClst == 0 || NoFree(Table(fp.fs)))
    ensures res == FR_OK && !full ==> 0 < wcnt
  {
    hide Image, CopyAgrees, Links, Ofs, Data, Geometry.DataFits, WroteAt, IsChain, Grew, Fil.CursorAt, Overwritten;
    hide NoOnes, NoFree, FatFs.Mirrored, CountRight, Sized, Geometry.Valid, FatFs.Coherent;
    ghost var v, ch, c, size, f := fp.fs.View(), fp.chain, fp.Content(), fp.objsize, fp.fptr;
    ghost var v1;
    ChainInRange(fp.fs.g, Table(fp.fs), ch);
    assert c == Data(fp.fs.g, v, ch)[..size];
    res, full, wcnt, v1 := WriteBody(fp, buff, pos, btw);
    if res != FR_OK { return; }
    if full {
      OverwriteNothing(c, f);
      FollowGrew(fp.fs.g, v, ch);
      wcnt := 0;
      return;
    }
    fp.fptr := fp.fptr + wcnt;
    fp.objsize := if fp.fptr > fp.objsize then fp.fptr else fp.objsize;
    WroteChain(fp.fs.g, v1, fp.fs.View(), fp.chain, size, f, buff[pos..pos + wcnt]);
    StepContent(fp, v, ch, v1, fp.fs.View(), size, f, buff[pos..pos + wcnt]);
  }

  lemma OverwriteNothing(c: seq<byte>, f: nat)
    requires f <= |c|
    ensures Overwritten(c, f, []) == c
  {
  }

  /** A file something was written to has clusters. */
  lemma WroteChain(g: Geometry, v: seq<byte>, v': seq<byte>, ch: seq<nat>, size: nat, f: nat, w: seq<byte>)
    requires WroteAt(g, v, v', ch, size, f, w) && |w| > 0
    ensures ch != []
  {
    hide Ofs;
    OfsStep(g, 0);
  }

  /** How many of btw bytes f_write may write at file pointer f: a file on FAT12/16/32 ends below 4 GiB. */
  function WriteLimit(f: nat, btw: nat): nat
    requires f <= 0xFFFFFFFF
  {
    if f + btw <= 0xFFFFFFFF then btw else 0xFFFFFFFF - f
  }

  /** The loop of f_write, over the btw bytes that may be written. */
  method WriteAll(fp: Fil, buff: array<byte>, btw: nat) returns (res: FRESULT, bw: nat)
    requires fp.Valid() && fp.err == FR_OK && btw <= buff.Length && fp.fptr + btw <= 0xFFFFFFFF && buff != fp.fs.win
    modifies fp, fp.fs, fp.fs.win, fp.fs.drive
    ensures fp.fs.Valid() && fp.err == res && Excused(fp.fs, old(NoOnes(Table(fp.fs))), res)
    ensures res == FR_OK ==> fp.Valid() && fp.modified && (old(fp.fs.Mirrored()) ==> fp.fs.Mirrored())
    ensures res == FR_OK && old(CountRight(fp.fs)) ==> CountRight(fp.fs)
    ensures res == FR_OK ==> bw <= btw && fp.fptr == old(fp.fptr) + bw
    ensures res == FR_OK ==> fp.Content() == Overwritten(old(fp.Content()), old(fp.fptr), buff[..bw])
    ensures res == FR_OK ==> Grew(fp.fs.g, old(fp.fs.View()), old(fp.chain), fp.fs.View(), fp.chain)
    ensures res == FR_OK && bw < btw ==> AtEnd(fp) && (fp.fs.freeClst == 0 || NoFree(Table(fp.fs)))
  {
    hide Image, CopyAgrees, Links, Ofs, Data, Geometry.DataFits, WroteAt, IsChain, Grew, Fil.CursorAt, Overwritten;
    hide NoOnes, NoFree, Sized, Geometry.Valid, Splice, FatFs.Mirrored, CountRight, FatFs.Coherent, Untouched;
    hide AtEnd;
    res, bw := FR_OK, 0;
    var left := btw;
    ghost var v, ch, c, f := fp.fs.View(), fp.chain, fp.Content(), fp.fptr;
    OverwriteNothing(c, f);
    assert buff[..0] == [];
    ChainInRange(fp.fs.g, Table(fp.fs), ch);
    FollowGrew(fp.fs.g, v, ch);
    while left > 0
      invariant fp.Valid() && res == FR_OK == fp.err && bw + left == btw && fp.fptr == f + bw
      invariant old(fp.fs.Mirrored()) ==> fp.fs.Mirrored()
      invariant old(CountRight(fp.fs)) ==> CountRight(fp.fs)
      invariant Grew(fp.fs.g, v, ch, fp.fs.View(), fp.chain)
      invariant fp.Content() == Overwritten(c, f, buff[..bw])
      decreases left
    {
      ghost var v1, ch1 := fp.fs.View(), fp.chain;
      if NoOnes(Links(fp.fs.g, v)) { GrewNoOnes(fp.fs.g, v, ch, v1, ch1); }
      var full, wcnt;
      res, full, wcnt := WriteStep(fp, buff, bw, left);
      if res != FR_OK { fp.err := res; return; }
      GrewTrans(fp.fs.g, v, ch, v1, ch1, fp.fs.View(), fp.chain);
      OverwrittenMore(c, f, buff, bw, wcnt);
      if full { break; }
      left, bw := left - wcnt, bw + wcnt;
    }
    fp.modified := true;
  }

  /** f_write. It reports bw bytes written: exactly that prefix of the buffer is spliced into the file at the old
      file pointer, and fewer than the limit only when the last cluster is used up and none is free. What Grew says of
      the volume is that the chain only grew by free clusters and nothing outside it changed; OtherFile draws the
      consequence for every file on a disjoint chain. */
  method FWrite(fp: Fil, buff: array<byte>, btw: nat) returns (res: FRESULT, bw: nat)
    requires fp.Valid() && btw <= buff.Length && btw <= 0xFFFFFFFF && buff != fp.fs.win
    modifies fp, fp.fs, fp.fs.win, fp.fs.drive
    ensures fp.fs.Valid()
    ensures res == FR_OK <==> old(fp.err) == FR_OK && fp.writable && fp.err == FR_OK
    ensures res == FR_OK ==> fp.Valid() && fp.modified && (old(fp.fs.Mirrored()) ==> fp.fs.Mirrored())
    ensures res == FR_OK && old(CountRight(fp.fs)) ==> CountRight(fp.fs)
    ensures res == FR_OK ==> bw <= WriteLimit(old(fp.fptr), btw) && fp.fptr == old(fp.fptr) + bw
    ensures res == FR_OK ==> fp.Content() == Overwritten(old(fp.Content()), old(fp.fptr), buff[..bw])
    ensures res == FR_OK ==> Grew(fp.fs.g, old(fp.fs.View()), old(fp.chain), fp.fs.View(), fp.chain)
    ensures res == FR_OK && bw < WriteLimit(old(fp.fptr), btw) ==>
      AtEnd(fp) && (fp.fs.freeClst == 0 || NoFree(Table(fp.fs)))
    // the errors: an earlier one, a file not opened for writing, a failing drive or a damaged FAT
    ensures old(fp.err) != FR_OK ==> res == old(fp.err) && unchanged(fp)
    ensures old(fp.err) == FR_OK && !fp.writable ==> res == FR_DENIED && unchanged(fp)
    ensures old(fp.err) == FR_OK && fp.writable ==> Excused(fp.fs, old(NoOnes(Table(fp.fs))), res)
  {
    hide Image, CopyAgrees, Links, Ofs, Data, Geometry.DataFits, IsChain, Grew, Fil.CursorAt, Overwritten, AtEnd;
    hide NoOnes, NoFree, Sized, Geometry.Valid, FatFs.Mirrored, CountRight, FatFs.Coherent, Excused;
    bw := 0;
    res := fp.err;
    if res != FR_OK { return; }
    if !fp.writable { res := FR_DENIED; return; }
    var left: nat := btw;
    if (fp.fptr + btw) % 0x1_0000_0000 < fp.fptr % 0x1_0000_0000 {
      left := 0xFFFFFFFF - fp.fptr % 0x1_0000_0000;
    }
    assert left == WriteLimit(fp.fptr, btw);
    res, bw := WriteAll(fp, buff, left);
  }
}
