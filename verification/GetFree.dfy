/** f_getfree: count the free clusters when no count is known. */
module GetFree {
  import opened Bits
  import opened Storage
  import opened Volume
  import opened FatTable
  import opened Chains
  import opened Allocator
  import B = Bitmap
  import M = Mount

  /** Number of zero entries below c, entries 0 and 1 included. */
  ghost function Zeros(t: seq<nat>, c: nat): (n: nat)
    requires c <= |t|
    ensures n <= c
  {
    if c == 0 then 0 else Zeros(t, c - 1) + if t[c - 1] == 0 then 1 else 0
  }

  /** How many of the entries 0 and 1 are zero, among the first c. */
  ghost function Reserved(t: seq<nat>, c: nat): (n: nat)
    requires c <= |t|
    ensures n <= 2
  {
    (if c > 0 && t[0] == 0 then 1 else 0) + if c > 1 && t[1] == 0 then 1 else 0
  }

  /** Entries 0 and 1 belong to no cluster; counting them is right only when neither is zero. */
  lemma {:induction false} ZerosAreFree(t: seq<nat>, c: nat)
    requires c <= |t|
    ensures Zeros(t, c) == FreeBelow(t, c) + Reserved(t, c)
    decreases c
  {
    if c > 0 { ZerosAreFree(t, c - 1); }
  }

  /** Number of free clusters from c on. */
  ghost function FreeFrom(t: seq<nat>, c: nat): nat
    requires c <= |t|
    decreases |t| - c
  {
    if c == |t| then 0 else FreeFrom(t, c + 1) + if c >= 2 && t[c] == 0 then 1 else 0
  }

  lemma {:induction false} FreeSplit(t: seq<nat>, c: nat)
    requires c <= |t|
    ensures FreeBelow(t, c) + FreeFrom(t, c) == FreeCount(t)
    decreases |t| - c
  {
    if c < |t| { FreeSplit(t, c + 1); }
  }

  /** What a scan has counted when it stands before entry c: FAT12 is scanned from cluster 2 on, FAT16 and FAT32 from
      entry 0 on. */
  ghost function Counted(g: Geometry, t: seq<nat>, c: nat): nat
    requires c <= |t|
  {
    if g.fsType.FAT12? then FreeBelow(t, c) else Zeros(t, c)
  }

  /** A count taken before entry c is the number of free clusters exactly when the free clusters it has not reached are
      as many as the zero entries it counted that belong to no cluster. */
  lemma CountedRight(g: Geometry, t: seq<nat>, c: nat)
    requires c <= |t|
    ensures Counted(g, t, c) == FreeCount(t) <==> FreeFrom(t, c) == if g.fsType.FAT12? then 0 else Reserved(t, c)
  {
    FreeSplit(t, c);
    ZerosAreFree(t, c);
  }

  /** The table of a volume with n clusters whose entries are all e. */
  function Uniform(head: seq<nat>, n: nat, e: nat): (t: seq<nat>)
    ensures |t| == |head| + n && forall c :: |head| <= c < |t| ==> t[c] == e
  {
    head + seq(n, _ => e)
  }

  lemma {:induction false} UniformCount(head: seq<nat>, n: nat, e: nat, c: nat)
    requires |head| == 2 <= c <= n + 2
    ensures var t := Uniform(head, n, e);
      FreeBelow(t, c) == (if e == 0 then c - 2 else 0) && Zeros(t, c) == Reserved(head, 2) + FreeBelow(t, c)
    decreases c
  {
    hide Uniform;
    var t := Uniform(head, n, e);
    if c > 2 {
      UniformCount(head, n, e, c - 1);
    } else {
      UniformHead(head, n, e);
      assert Zeros(t, 2) == Zeros(t, 1) + (if t[1] == 0 then 1 else 0);
      assert Zeros(t, 1) == Zeros(t, 0) + (if t[0] == 0 then 1 else 0);
    }
  }

  lemma UniformHead(head: seq<nat>, n: nat, e: nat)
    requires |head| == 2
    ensures Uniform(head, n, e)[0] == head[0] && Uniform(head, n, e)[1] == head[1]
  {
  }

  /** A volume with a FAT16, as mounting types it. */
  ghost predicate HasFat16(g: Geometry) {
    g.Valid() && g.fsType.FAT16? && M.TypeOf(g.nFatent - 2) == FAT16
  }

  /** On an empty volume, a scan that a disk error stops at the first sector keeps the count 0. */
  lemma InterruptedCount(g: Geometry)
    requires HasFat16(g)
    ensures var n := g.nFatent - 2;
      var t := Uniform([0xFFF8, 0xFFFF], n, 0);
      |t| == g.nFatent && Counted(g, t, 0) == 0 && FreeCount(t) == FreeFrom(t, 0) == n > 0
  {
    var n := g.nFatent - 2;
    var t := Uniform([0xFFF8, 0xFFFF], n, 0);
    UniformCount([0xFFF8, 0xFFFF], n, 0, n + 2);
    FreeSplit(t, 0);
  }

  /** On a full volume whose entry 0 is zero, a whole scan finds a free cluster. */
  lemma ZeroReservedCount(g: Geometry)
    requires HasFat16(g)
    ensures var n := g.nFatent - 2;
      var t := Uniform([0, 0xFFFF], n, 0xFFFF);
      |t| == g.nFatent && Counted(g, t, |t|) == 1 && FreeCount(t) == 0 && Reserved(t, |t|) == 1
  {
    var n := g.nFatent - 2;
    UniformCount([0, 0xFFFF], n, 0xFFFF, n + 2);
    UniformHead([0, 0xFFFF], n, 0xFFFF);
  }

  /** The window shows the sector of FAT byte k. */
  ghost predicate Showing(fs: FatFs, k: nat)
    requires fs.Valid()
    reads fs`winsect, fs`wflag, fs`copyLost, fs.win, fs.drive
  {
    var a := SS * fs.g.fatbase + k - k % SS;
    a + SS <= |fs.View()| && fs.View()[a..a + SS] == fs.win[..]
  }

  lemma StillShowing(fs: FatFs, k: nat, k': nat)
    requires fs.Valid() && Showing(fs, k) && k' / SS == k / SS
    ensures Showing(fs, k')
  {
    assert k - k % SS == k' - k' % SS;
  }

  /** The entry in the window. */
  lemma WindowEntry(fs: FatFs, c: nat)
    requires fs.Valid() && !fs.g.fsType.FAT12? && !fs.g.fsType.EXFAT? && c < fs.g.nFatent
    requires Showing(fs, EntryOfs(fs.g.fsType, c))
    ensures var k := EntryOfs(fs.g.fsType, c);
      k % SS + EntryLen(fs.g.fsType) <= SS
      && (if fs.g.fsType.FAT16? then LdWord(fs.win[..], k % SS) else LdDword(fs.win[..], k % SS) % 0x1000_0000)
         == Table(fs)[c]
  {
    hide Image;
    var k := EntryOfs(fs.g.fsType, c);
    var a := SS * fs.g.fatbase + k - k % SS;
    EntryInSector(fs.g, c);
    EntryFits(fs.g, c);
    var v := fs.View();
    var w := v[a..a + SS];
    assert forall o :: 0 <= o < SS ==> w[o] == v[a + o];
  }

  /** The scan of a FAT16 or FAT32 table, entry by entry through the window. */
  method ScanEntries(fs: FatFs) returns (res: FRESULT, nfree: nat, ghost k: nat)
    requires fs.Valid() && fs.Coherent() && (fs.g.fsType.FAT16? || fs.g.fsType.FAT32?)
    modifies fs`winsect, fs`wflag, fs`copyLost, fs.win, fs.drive
    ensures fs.Valid() && fs.Coherent() && fs.View() == old(fs.View()) && (old(fs.Mirrored()) ==> fs.Mirrored())
    ensures res == FR_OK || (res == FR_DISK_ERR && !fs.drive.reliable)
    ensures k <= fs.g.nFatent && (res == FR_OK <==> k == fs.g.nFatent) && nfree == Zeros(Table(fs), k)
  {
    hide Image, CopyAgrees, Links, EntryLen, LdWord, LdDword, Geometry.FatBytes, Geometry.MaxClusters, Showing;
    res, nfree, k := FR_OK, 0, 0;
    var size := if fs.g.fsType.FAT16? then 2 else 4;
    var c, i := 0, 0;
    while true
      invariant fs.Valid() && fs.Coherent() && fs.View() == old(fs.View()) && (old(fs.Mirrored()) ==> fs.Mirrored())
      invariant c < fs.g.nFatent && i == EntryOfs(fs.g.fsType, c) % SS && res == FR_OK
      invariant i != 0 ==> Showing(fs, EntryOfs(fs.g.fsType, c))
      invariant nfree == Zeros(Table(fs), c) && k == c
      decreases fs.g.nFatent - c
    {
      if i == 0 {
        res := ShowEntry(fs, c);
        if res != FR_OK { break; }
      }
      WindowEntry(fs, c);
      var zero := ZeroAt(fs, i);
      if zero { nfree := nfree + 1; }
      i := (i + size) % SS;
      NextEntry(fs, c);
      c, k := c + 1, k + 1;
      if c == fs.g.nFatent { break; }
    }
  }

  /** Whether the entry at byte i of the window is zero. */
  method ZeroAt(fs: FatFs, i: nat) returns (zero: bool)
    requires fs.win.Length == SS && i + EntryLen(fs.g.fsType) <= SS && (fs.g.fsType.FAT16? || fs.g.fsType.FAT32?)
    ensures zero <==>
      (if fs.g.fsType.FAT16? then LdWord(fs.win[..], i) else LdDword(fs.win[..], i) % 0x1000_0000) == 0
  {
    if fs.g.fsType.FAT16? {
      zero := LdWord(fs.win[..], i) == 0;
    } else {
      zero := LdDword(fs.win[..], i) % 0x1000_0000 == 0;
    }
  }

  /** Bring the sector of entry c, which begins a sector, into the window. */
  method ShowEntry(fs: FatFs, c: nat) returns (res: FRESULT)
    requires fs.Valid() && fs.Coherent() && !fs.g.fsType.FAT12? && c < fs.g.nFatent
    modifies fs`winsect, fs`wflag, fs`copyLost, fs.win, fs.drive
    ensures fs.Valid() && fs.Coherent() && fs.View() == old(fs.View()) && (old(fs.Mirrored()) ==> fs.Mirrored())
    ensures res == FR_OK || (res == FR_DISK_ERR && !fs.drive.reliable)
    ensures res == FR_OK ==> Showing(fs, EntryOfs(fs.g.fsType, c))
  {
    hide Image, CopyAgrees;
    EntryInSector(fs.g, c);
    res := ShowFat(fs, EntryOfs(fs.g.fsType, c));
  }

  /** The next entry is in the same sector, or begins the next one. */
  lemma NextEntry(fs: FatFs, c: nat)
    requires fs.Valid() && (fs.g.fsType.FAT16? || fs.g.fsType.FAT32?) && c < fs.g.nFatent
    requires Showing(fs, EntryOfs(fs.g.fsType, c))
    ensures EntryOfs(fs.g.fsType, c + 1) % SS ==
      (EntryOfs(fs.g.fsType, c) % SS + if fs.g.fsType.FAT16? then 2 else 4) % SS
    ensures EntryOfs(fs.g.fsType, c + 1) % SS != 0 ==> Showing(fs, EntryOfs(fs.g.fsType, c + 1))
  {
    hide Showing;
    var k, k' := EntryOfs(fs.g.fsType, c), EntryOfs(fs.g.fsType, c + 1);
    EntryInSector(fs.g, c);
    NextOfs(k, if fs.g.fsType.FAT16? then 2 else 4);
    if k' % SS != 0 { StillShowing(fs, k, k'); }
  }

  /** Stepping on by n bytes inside a sector, or to the start of the next one. */
  lemma NextOfs(k: nat, n: nat)
    requires 0 < n && k % SS + n <= SS
    ensures (k + n) % SS == (k % SS + n) % SS
    ensures (k + n) % SS != 0 ==> (k + n) / SS == k / SS
  {
    var q, r := k / SS, k % SS;
    if r + n < SS {
      DivUnique(k + n, SS, q, r + n);
      DivUnique(r + n, SS, 0, r + n);
    } else {
      DivUnique(k + n, SS, q + 1, 0);
      DivUnique(r + n, SS, 1, 0);
    }
  }

  /** Entry k is the first one of value 1. */
  ghost predicate FirstOne(t: seq<nat>, k: nat) {
    2 <= k < |t| && t[k] == 1 && NoOneBelow(t, k)
  }

  ghost predicate NoOneBelow(t: seq<nat>, k: nat) { forall x :: 2 <= x < k && x < |t| ==> t[x] != 1 }

  lemma NoneYet(t: seq<nat>)
    ensures NoOneBelow(t, 2)
  {
  }

  lemma NoOneMore(t: seq<nat>, k: nat)
    requires NoOneBelow(t, k) && k < |t| && t[k] != 1
    ensures NoOneBelow(t, k + 1)
  {
  }

  /** The scan of a FAT12 table, from cluster 2 on. */
  method ScanClusters(fs: FatFs) returns (res: FRESULT, nfree: nat, ghost k: nat)
    requires fs.Valid() && fs.Coherent() && fs.g.fsType.FAT12?
    modifies fs`winsect, fs`wflag, fs`copyLost, fs.win, fs.drive
    ensures fs.Valid() && fs.Coherent() && fs.View() == old(fs.View()) && (old(fs.Mirrored()) ==> fs.Mirrored())
    ensures res == FR_OK || (res == FR_DISK_ERR && !fs.drive.reliable) || (res == FR_INT_ERR && FirstOne(Table(fs), k))
    ensures k <= fs.g.nFatent && (res == FR_OK <==> k == fs.g.nFatent) && nfree == FreeBelow(Table(fs), k)
  {
    hide NoOneBelow, Image, CopyAgrees, Links, FatFs.Coherent, FatFs.View;
    EocIsEnd(fs.g);
    NoneYet(Table(fs));
    res, nfree, k := FR_OK, 0, 2;
    var clst := 2;
    while true
      invariant fs.Valid() && fs.Coherent() && fs.View() == old(fs.View()) && (old(fs.Mirrored()) ==> fs.Mirrored())
      invariant 2 <= clst < fs.g.nFatent && nfree == FreeBelow(Table(fs), clst) && res == FR_OK && k == clst
      invariant NoOneBelow(Table(fs), clst)
      decreases fs.g.nFatent - clst
    {
      var stat := GetFat(fs, clst);
      if stat == DISK_ERROR { res := FR_DISK_ERR; break; }
      if stat == 1 { res := FR_INT_ERR; break; }
      if stat == 0 { nfree := nfree + 1; }
      NoOneMore(Table(fs), clst);
      clst, k := clst + 1, k + 1;
      if clst >= fs.g.nFatent { break; }
    }
  }

  /** f_getfree on FAT12/16/32. A known count is returned; otherwise the table is scanned up to entry k and what was
      counted is kept, also when the scan was interrupted. The kept count is right exactly when the free clusters from
      k on balance the zero entries that belong to no cluster. */
  method FGetFree(fs: FatFs) returns (res: FRESULT, nclst: nat, ghost k: nat)
    requires fs.Valid() && fs.Coherent() && !fs.g.fsType.EXFAT?
    modifies fs, fs.win, fs.drive
    ensures fs.Valid() && fs.Coherent() && fs.View() == old(fs.View()) && (old(fs.Mirrored()) ==> fs.Mirrored())
    ensures fs.freeClst == nclst && k <= fs.g.nFatent
    ensures old(fs.freeClst) <= fs.g.nFatent - 2 ==> res == FR_OK && nclst == old(fs.freeClst)
    ensures old(fs.freeClst) > fs.g.nFatent - 2 ==>
      nclst == Counted(fs.g, Table(fs), k) && (res == FR_OK <==> k == fs.g.nFatent)
    ensures res == FR_OK || (res == FR_DISK_ERR && !fs.drive.reliable)
         || (res == FR_INT_ERR && fs.g.fsType.FAT12? && FirstOne(Table(fs), k))
    ensures old(fs.freeClst) > fs.g.nFatent - 2 && nclst <= fs.g.nFatent - 2 ==>
      (CountRight(fs) <==> FreeFrom(Table(fs), k) == if fs.g.fsType.FAT12? then 0 else Reserved(Table(fs), k))
  {
    hide Image, CopyAgrees, Links, FirstOne, FatFs.Mirrored, FatFs.Coherent, Reserved, Geometry.Valid;
    k := 0;
    if fs.freeClst <= fs.g.nFatent - 2 { return FR_OK, fs.freeClst, k; }
    if fs.g.fsType.FAT12? {
      res, nclst, k := ScanClusters(fs);
    } else {
      res, nclst, k := ScanEntries(fs);
    }
    CountedRight(fs.g, Table(fs), k);
    fs.freeClst := nclst;
    fs.fsiFlag := true;
  }

  /** f_getfree on exFAT: the clear bits of the allocation bitmap are counted. The kept count is right exactly when no
      bit is clear from the place on where the scan ended. */
  method FGetFreeBits(fs: FatFs) returns (res: FRESULT, nclst: nat, ghost k: nat)
    requires fs.Valid() && fs.Coherent() && fs.g.fsType.EXFAT? && B.HasBitmap(fs.g, fs.View(), fs.bitbase)
    modifies fs, fs.win, fs.drive
    ensures fs.Valid() && fs.Coherent() && fs.View() == old(fs.View()) && (old(fs.Mirrored()) ==> fs.Mirrored())
    ensures fs.freeClst == nclst && k <= fs.g.nFatent - 2
    ensures res == FR_OK || (res == FR_DISK_ERR && !fs.drive.reliable)
    ensures old(fs.freeClst) <= fs.g.nFatent - 2 ==> res == FR_OK && nclst == old(fs.freeClst)
    ensures var u := B.Used(fs.g, fs.View(), fs.bitbase);
      old(fs.freeClst) > fs.g.nFatent - 2 ==>
        nclst == B.ClearBelow(u, k) && (res == FR_OK <==> k == |u|) &&
        (B.BitsCounted(fs) <==> forall j :: k <= j < |u| ==> u[j])
  {
    hide Image, CopyAgrees, Links, B.HasBitmap, B.UsedAt;
    k := 0;
    if fs.freeClst <= fs.g.nFatent - 2 { return FR_OK, fs.freeClst, k; }
    res, nclst, k := B.ScanBitmap(fs);
    B.ClearRest(B.Used(fs.g, fs.View(), fs.bitbase), k, fs.g.nFatent - 2);
    fs.freeClst := nclst;
    fs.fsiFlag := true;
  }
}
