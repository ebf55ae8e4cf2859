/** Cluster allocation on FAT12/16/32 volumes: create_chain and remove_chain. */
module Allocator {
  import opened Storage
  import opened Volume
  import opened FatTable
  import opened Chains

  const DISK_ERROR: nat := 0xFFFFFFFF   // also the value that marks the end of a chain when it is stored

  /** The value an entry holds after storing DISK_ERROR's bit pattern: the end-of-chain mark. */
  function Eoc(g: Geometry): nat { EntryMask(g.fsType) }

  lemma EocIsEnd(g: Geometry)
    requires g.Valid()
    ensures Eoc(g) >= g.nFatent && DISK_ERROR % (EntryMask(g.fsType) + 1) == Eoc(g)
    ensures g.nFatent < DISK_ERROR && EntryMask(g.fsType) < DISK_ERROR
  {
  }

  /** The end-of-chain mark of each type. */
  lemma EocIs(g: Geometry)
    ensures Eoc(g) == match g.fsType
                      case FAT12 => 0xFFF
                      case FAT16 => 0xFFFF
                      case FAT32 => 0x0FFF_FFFF
                      case EXFAT => 0x7FFF_FFFF
  {
  }

  /** The free-cluster count, when the volume has one, is right. */
  ghost predicate CountRight(fs: FatFs)
    requires fs.Valid()
    reads fs`winsect, fs`wflag, fs`copyLost, fs`freeClst, fs.win, fs.drive
  {
    fs.freeClst <= fs.g.nFatent - 2 ==> fs.freeClst == FreeCount(Table(fs))
  }

  /** get_fat on FAT12/16/32: what the bytes of an entry mean is in LinkBytes. */
  method GetFat(fs: FatFs, clst: nat) returns (val: nat)
    requires fs.Valid() && fs.Coherent()
    modifies fs`winsect, fs`wflag, fs`copyLost, fs.win, fs.drive
    ensures fs.Valid() && fs.Coherent() && fs.View() == old(fs.View()) && (old(fs.Mirrored()) ==> fs.Mirrored())
    ensures !(2 <= clst < fs.g.nFatent) ==> val == 1
    ensures 2 <= clst < fs.g.nFatent ==> val == 0xFFFFFFFF || val == Table(fs)[clst]
    ensures 2 <= clst < fs.g.nFatent && fs.drive.reliable ==> val == Table(fs)[clst] < 0xFFFFFFFF
  {
    hide Image, CopyAgrees, Link;
    EocIsEnd(fs.g);
    if clst < 2 || clst >= fs.g.nFatent { return 1; }
    var ok;
    ok, val := LoadFat(fs, clst);
    LinkBound(fs.g, fs.View(), clst);
    if !ok { val := DISK_ERROR; }
  }

  /** What put_fat does to the table. */
  lemma StoredTable(g: Geometry, v: seq<byte>, c: nat, val: nat)
    requires Holds(g, v) && 2 <= c < g.nFatent && val < 0x1_0000_0000
    ensures Links(g, Stored(g, v, c, val)) ==
      Links(g, v)[c := if val == DISK_ERROR then Eoc(g) else val % (EntryMask(g.fsType) + 1)]
    ensures val < g.nFatent ==> val % (EntryMask(g.fsType) + 1) == val
    ensures SameOutside(v, Stored(g, v, c, val), SS * g.fatbase, SS * g.fsize)
  {
    hide Links, Stored;
    StoredLinks(g, v, c, val);
    EocIsEnd(g);
    SmallMod(val, EntryMask(g.fsType) + 1);
  }

  lemma SmallMod(x: nat, d: nat)
    requires d > 0
    ensures x < d ==> x % d == x
  {
  }

  /** The bytes after linking ncl to clst (or to nothing when clst is 0). */
  ghost function Linked(g: Geometry, v: seq<byte>, clst: nat, ncl: nat): (v': seq<byte>)
    requires Holds(g, v) && 2 <= ncl < g.nFatent && (clst == 0 || 2 <= clst < g.nFatent)
    ensures |v'| == |v|
  {
    var v1 := Stored(g, v, ncl, DISK_ERROR);
    if clst == 0 then v1 else Stored(g, v1, clst, ncl)
  }

  /** What linking does to the table: one formerly free cluster becomes the end, clst leads to it. */
  lemma LinkedTable(g: Geometry, v: seq<byte>, clst: nat, ncl: nat)
    requires Holds(g, v) && 2 <= ncl < g.nFatent && (clst == 0 || 2 <= clst < g.nFatent)
    ensures var t := Links(g, v)[ncl := Eoc(g)];
      Links(g, Linked(g, v, clst, ncl)) == if clst == 0 then t else t[clst := ncl]
    ensures SameOutside(v, Linked(g, v, clst, ncl), SS * g.fatbase, SS * g.fsize)
  {
    hide Links, Stored;
    EocIsEnd(g);
    StoredTable(g, v, ncl, DISK_ERROR);
    if clst != 0 {
      StoredTable(g, Stored(g, v, ncl, DISK_ERROR), clst, ncl);
    }
  }

  /** Linking takes one cluster from the free ones. */
  lemma LinkedCount(g: Geometry, v: seq<byte>, clst: nat, ncl: nat)
    requires Holds(g, v) && 2 <= ncl < g.nFatent && Links(g, v)[ncl] == 0
    requires clst == 0 || (2 <= clst < g.nFatent && Links(g, v)[clst] != 0)
    ensures FreeCount(Links(g, Linked(g, v, clst, ncl))) == FreeCount(Links(g, v)) - 1
  {
    hide Links, Linked;
    LinkedTable(g, v, clst, ncl);
    EocIsEnd(g);
    var t := Links(g, v);
    FreeBelowUpdate(t, ncl, Eoc(g), |t|);
    if clst != 0 {
      FreeBelowUpdate(t[ncl := Eoc(g)], clst, ncl, |t|);
    }
  }

  /** Entries of value 1 are written by no operation; the search stops at one. */
  ghost predicate NoOnes(t: seq<nat>) { forall c :: 2 <= c < |t| ==> t[c] != 1 }

  /** Cluster ncl is the first free one behind scl, counted around the end of the table. */
  ghost predicate FirstFree(t: seq<nat>, scl: nat, ncl: nat) {
    && 2 <= ncl < |t| && t[ncl] == 0
    && (forall x :: scl < x < (if ncl > scl then ncl else |t|) ==> t[x] != 0)
    && (ncl <= scl ==> forall x :: 2 <= x < ncl ==> t[x] != 0)
  }

  /** The cluster create_chain takes: the neighbour of clst if that is free, else the first free one behind the last
      allocated cluster, or behind clst when there is no such hint. */
  ghost predicate Chosen(t: seq<nat>, clst: nat, last: nat, ncl: nat)
    requires |t| > 2 && clst < |t|
  {
    var next := if clst + 1 >= |t| then 2 else clst + 1;
    if clst == 0 then FirstFree(t, if 0 < last < |t| then last else 1, ncl)
    else if t[next] == 0 then ncl == next
    else FirstFree(t, if 2 <= last < |t| then last else clst, ncl)
  }

  /** The search loop of create_chain: from the cluster after scl around to scl. Returns 0 when no cluster is
      free, the status that stopped it when it met an entry of value 1 or a disk error. */
  method FindFree(fs: FatFs, scl: nat) returns (ncl: nat)
    requires fs.Valid() && fs.Coherent() && 1 <= scl < fs.g.nFatent
    modifies fs`winsect, fs`wflag, fs`copyLost, fs.win, fs.drive
    ensures fs.Valid() && fs.Coherent() && fs.View() == old(fs.View()) && (old(fs.Mirrored()) ==> fs.Mirrored())
    ensures ncl == 0 ==> NoFree(Table(fs))
    ensures ncl == 1 ==> exists c :: 2 <= c < fs.g.nFatent && Table(fs)[c] == 1
    ensures ncl == 0 || ncl == 1 || ncl == DISK_ERROR || FirstFree(Table(fs), scl, ncl)
    ensures fs.drive.reliable ==> ncl != DISK_ERROR
  {
    hide Image, CopyAgrees, Links, FatFs.Mirrored, FatFs.Coherent, Geometry.Valid;
    EocIsEnd(fs.g);
    ghost var t := Table(fs);
    ghost var wrapped := false;
    ncl := scl;
    while true
      invariant fs.Valid() && fs.Coherent() && fs.View() == old(fs.View()) && (old(fs.Mirrored()) ==> fs.Mirrored())
      invariant if wrapped then 2 <= ncl < scl else scl <= ncl < fs.g.nFatent
      invariant forall x :: scl < x < (if wrapped then fs.g.nFatent else ncl + 1) ==> t[x] != 0
      invariant wrapped ==> forall x :: 2 <= x <= ncl ==> t[x] != 0
      decreases if wrapped then scl - ncl else 2 * fs.g.nFatent - ncl
    {
      ncl := ncl + 1;
      if ncl >= fs.g.nFatent {
        ncl := 2;
        wrapped := true;
        if ncl > scl { return 0; }
      }
      var cs := GetFat(fs, ncl);
      if cs == 0 { return; }
      if cs == 1 || cs == DISK_ERROR { return cs; }
      if ncl == scl { return 0; }
    }
  }

  /** The part of create_chain for FAT12/16/32 that chooses the new cluster: the one after clst if it is free,
      else the first free one after the suggested cluster. */
  method ChooseCluster(fs: FatFs, clst: nat) returns (ncl: nat)
    requires fs.Valid() && fs.Coherent() && (clst == 0 || 2 <= clst < fs.g.nFatent)
    modifies fs`winsect, fs`wflag, fs`copyLost, fs.win, fs.drive
    ensures fs.Valid() && fs.Coherent() && fs.View() == old(fs.View()) && (old(fs.Mirrored()) ==> fs.Mirrored())
    ensures ncl == 0 ==> NoFree(Table(fs))
    ensures ncl == 1 ==> exists c :: 2 <= c < fs.g.nFatent && Table(fs)[c] == 1
    ensures ncl == 0 || ncl == 1 || ncl == DISK_ERROR || Chosen(Table(fs), clst, old(fs.lastClst), ncl)
    ensures fs.drive.reliable ==> ncl != DISK_ERROR
  {
    hide Image, CopyAgrees, Links;
    EocIsEnd(fs.g);
    var scl;
    if clst == 0 {
      scl := fs.lastClst;
      if scl == 0 || scl >= fs.g.nFatent { scl := 1; }
    } else {
      scl := clst;
      ncl := scl + 1;
      if ncl >= fs.g.nFatent { ncl := 2; }
      var cs := GetFat(fs, ncl);
      if cs == 0 { return; }
      if cs == 1 || cs == DISK_ERROR { return cs; }
      cs := fs.lastClst;
      if cs >= 2 && cs < fs.g.nFatent { scl := cs; }
    }
    ncl := FindFree(fs, scl);
  }

  /** The part of create_chain that marks and links the chosen cluster. */
  method LinkCluster(fs: FatFs, clst: nat, ncl: nat) returns (res: FRESULT)
    requires fs.Valid() && fs.Coherent() && 2 <= ncl < fs.g.nFatent && (clst == 0 || 2 <= clst < fs.g.nFatent)
    modifies fs`winsect, fs`wflag, fs`copyLost, fs.win, fs.drive
    ensures fs.Valid() && fs.Coherent() && (old(fs.Mirrored()) ==> fs.Mirrored())
    ensures res == FR_OK || res == FR_DISK_ERR
    ensures fs.drive.reliable ==> res == FR_OK
    ensures res == FR_OK ==> fs.View() == Linked(fs.g, old(fs.View()), clst, ncl)
  {
    hide Image, CopyAgrees, Stored;
    EocIsEnd(fs.g);
    res := PutFat(fs, ncl, DISK_ERROR);
    if res == FR_OK && clst != 0 {
      res := PutFat(fs, clst, ncl);
    }
  }

  /** create_chain's answer when the object already goes on after clst, or cannot. */
  ghost predicate Stretchable(t: seq<nat>, clst: nat) {
    clst == 0 || (2 <= clst < |t| && t[clst] >= |t|)
  }

  /** create_chain on FAT12/16/32. */
  method CreateChain(fs: FatFs, clst: nat) returns (ncl: nat)
    requires fs.Valid() && fs.Coherent()
    modifies fs, fs.win, fs.drive
    ensures fs.Valid() && fs.Coherent() && (old(fs.Mirrored()) ==> fs.Mirrored())
    // the chain already goes on, or clst is not a cluster of a chain
    ensures !old(Stretchable(Table(fs), clst)) ==>
      fs.View() == old(fs.View()) && fs.freeClst == old(fs.freeClst) && fs.lastClst == old(fs.lastClst)
    ensures !old(Stretchable(Table(fs), clst)) && ncl != DISK_ERROR ==>
      ncl == if 2 <= clst < fs.g.nFatent && Table(fs)[clst] >= 2 then Table(fs)[clst] else 1
    // nothing was allocated
    ensures old(Stretchable(Table(fs), clst)) && ncl < 2 ==>
      fs.View() == old(fs.View()) && fs.freeClst == old(fs.freeClst) && fs.lastClst == old(fs.lastClst)
    ensures old(Stretchable(Table(fs), clst)) && ncl == 0 ==> old(fs.freeClst) == 0 || NoFree(Table(fs))
    ensures old(Stretchable(Table(fs), clst)) && ncl == 1 ==>
      exists c :: 2 <= c < fs.g.nFatent && Table(fs)[c] == 1
    // a formerly free cluster was linked
    ensures ncl < 2 || ncl == DISK_ERROR || ncl < fs.g.nFatent
    ensures old(Stretchable(Table(fs), clst)) && 2 <= ncl < fs.g.nFatent ==>
      && Chosen(old(Table(fs)), clst, old(fs.lastClst), ncl) && old(Table(fs))[ncl] == 0
      && fs.View() == Linked(fs.g, old(fs.View()), clst, ncl)
      && old(fs.freeClst) != 0 && fs.lastClst == ncl
      && fs.freeClst == if old(fs.freeClst) <= fs.g.nFatent - 2 then old(fs.freeClst) - 1 else old(fs.freeClst)
    ensures fs.drive.reliable ==> ncl != DISK_ERROR
    // the search is complete, and the count stays right
    ensures old(Stretchable(Table(fs), clst) && CountRight(fs) && NoOnes(Table(fs))) && ncl != DISK_ERROR ==>
      (ncl == 0 <==> NoFree(old(Table(fs))))
    ensures old(CountRight(fs)) && ncl != DISK_ERROR ==> CountRight(fs)
  {
    hide Image, CopyAgrees, Links, Linked;
    EocIsEnd(fs.g);
    NoFreeCount(Table(fs), fs.g.nFatent);
    ghost var v := fs.View();
    if clst != 0 {
      var cs := GetFat(fs, clst);
      if cs < 2 { return 1; }
      if cs == DISK_ERROR { return cs; }
      if cs < fs.g.nFatent { return cs; }
    }
    if fs.freeClst == 0 { return 0; }
    ncl := ChooseCluster(fs, clst);
    if ncl == 0 || ncl == 1 || ncl == DISK_ERROR { return; }
    var res := LinkCluster(fs, clst, ncl);
    if res == FR_OK {
      LinkedCount(fs.g, v, clst, ncl);
      fs.lastClst := ncl;
      if fs.freeClst <= fs.g.nFatent - 2 { fs.freeClst := fs.freeClst - 1; }
      fs.fsiFlag := true;
    } else {
      ncl := DISK_ERROR;
    }
  }

  /** t with pclst, unless it is 0, made the end of its chain. */
  function Cut(t: seq<nat>, pclst: nat, eoc: nat): (t': seq<nat>)
    requires pclst < |t|
    ensures |t'| == |t|
  {
    if pclst == 0 then t else t[pclst := eoc]
  }

  /** Freeing one more cluster of s. */
  lemma FreedStep(t: seq<nat>, s: seq<nat>, k: nat)
    requires (forall i :: 0 <= i < |s| ==> s[i] < |t|) && k < |s|
    ensures Freed(t, s[..k])[s[k] := 0] == Freed(t, s[..k + 1])
  {
    assert s[..k + 1] == s[..k] + [s[k]];
  }

  /** Freeing a used cluster leaves one more free, and the count is at most the number of clusters. */
  lemma FreeOne(t: seq<nat>, c: nat)
    requires 2 <= c < |t| && t[c] != 0
    ensures FreeCount(t[c := 0]) == FreeCount(t) + 1 <= |t| - 2
  {
    FreeBelowUpdate(t, c, 0, |t|);
  }

  /** The value at the place reached in a chain being freed. */
  lemma FreedHead(t: seq<nat>, s: seq<nat>, k: nat)
    requires IsChain(t, s) && k < |s|
    ensures Freed(t, s[..k])[s[k]] == t[s[k]] >= 2
    ensures t[s[k]] == if k + 1 < |s| then s[k + 1] else t[s[|s| - 1]]
  {
    ChainDistinct(t, s);
    if k + 1 < |s| { assert t[s[k]] == s[k + 1]; }
  }

  /** One turn of remove_chain's loop, when the cluster is not free: free it and count it. */
  method FreeCluster(fs: FatFs, clst: nat) returns (res: FRESULT)
    requires fs.Valid() && fs.Coherent() && 2 <= clst < fs.g.nFatent && Table(fs)[clst] != 0
    modifies fs, fs.win, fs.drive
    ensures fs.Valid() && fs.Coherent() && (old(fs.Mirrored()) ==> fs.Mirrored())
    ensures res == FR_OK || res == FR_DISK_ERR
    ensures fs.drive.reliable ==> res == FR_OK
    ensures res == FR_OK ==> Table(fs) == old(Table(fs))[clst := 0] && fs.lastClst == old(fs.lastClst)
    ensures res == FR_OK ==> SameOutside(old(fs.View()), fs.View(), SS * fs.g.fatbase, SS * fs.g.fsize)
    ensures res == FR_OK && old(CountRight(fs)) ==> CountRight(fs)
  {
    hide Image, CopyAgrees, Links, Stored;
    ghost var v, t := fs.View(), Table(fs);
    res := PutFat(fs, clst, 0);
    if res != FR_OK { return; }
    StoredTable(fs.g, v, clst, 0);
    FreeOne(t, clst);
    if fs.freeClst < fs.g.nFatent - 2 {
      fs.freeClst := fs.freeClst + 1;
      fs.fsiFlag := true;
    }
  }

  /** remove_chain on FAT12/16/32. The loop ends on any table contents, because each turn frees a used cluster;
      on a chain s it frees exactly the clusters of s. */
  method RemoveChain(fs: FatFs, clst: nat, pclst: nat, ghost s: seq<nat>) returns (res: FRESULT)
    requires fs.Valid() && fs.Coherent()
    modifies fs, fs.win, fs.drive
    ensures fs.Valid() && fs.Coherent() && (old(fs.Mirrored()) ==> fs.Mirrored())
    ensures !(2 <= clst < fs.g.nFatent) ==> res == FR_INT_ERR && fs.View() == old(fs.View())
    ensures res == FR_OK ==> SameOutside(old(fs.View()), fs.View(), SS * fs.g.fatbase, SS * fs.g.fsize)
    ensures res == FR_OK ==> pclst < fs.g.nFatent && fs.lastClst == old(fs.lastClst)
    ensures res == FR_OK && old(CountRight(fs) && (pclst != 0 && pclst < fs.g.nFatent ==> Table(fs)[pclst] != 0)) ==>
      CountRight(fs)
    ensures var t := if pclst < fs.g.nFatent then Cut(old(Table(fs)), pclst, Eoc(fs.g)) else [];
      IsChain(t, s) && s[0] == clst && pclst != 1 ==> res != FR_INT_ERR && (res == FR_OK ==> Table(fs) == Freed(t, s))
    ensures res == FR_OK || res == FR_INT_ERR || (res == FR_DISK_ERR && !fs.drive.reliable)
  {
    hide Image, CopyAgrees, Links, Stored;
    EocIsEnd(fs.g);
    if clst < 2 || clst >= fs.g.nFatent { return FR_INT_ERR; }
    if pclst != 0 {
      res := MarkEnd(fs, pclst);
      if res != FR_OK { return; }
    }
    res := FreeAll(fs, clst, s);
  }

  /** Mark the previous cluster as the end of its chain. */
  method MarkEnd(fs: FatFs, pclst: nat) returns (res: FRESULT)
    requires fs.Valid() && fs.Coherent()
    modifies fs`winsect, fs`wflag, fs`copyLost, fs.win, fs.drive
    ensures fs.Valid() && fs.Coherent() && (old(fs.Mirrored()) ==> fs.Mirrored())
    ensures res == FR_INT_ERR <==> !(2 <= pclst < fs.g.nFatent)
    ensures res == FR_OK || res == FR_INT_ERR || (res == FR_DISK_ERR && !fs.drive.reliable)
    ensures res == FR_OK ==> Table(fs) == Cut(old(Table(fs)), pclst, Eoc(fs.g)) && pclst != 0
    ensures res == FR_OK ==> SameOutside(old(fs.View()), fs.View(), SS * fs.g.fatbase, SS * fs.g.fsize)
    ensures res == FR_OK && old(CountRight(fs)) && old(Table(fs))[pclst] != 0 ==> CountRight(fs)
  {
    hide Image, CopyAgrees, Links, Stored;
    ghost var v, t := fs.View(), Table(fs);
    EocIsEnd(fs.g);
    res := PutFat(fs, pclst, DISK_ERROR);
    if res == FR_OK {
      StoredTable(fs.g, v, pclst, DISK_ERROR);
      FreeBelowUpdate(t, pclst, Eoc(fs.g), |t|);
    }
  }

  /** The loop of remove_chain. */
  method FreeAll(fs: FatFs, start: nat, ghost s: seq<nat>) returns (res: FRESULT)
    requires fs.Valid() && fs.Coherent() && 2 <= start < fs.g.nFatent
    modifies fs, fs.win, fs.drive
    ensures fs.Valid() && fs.Coherent() && (old(fs.Mirrored()) ==> fs.Mirrored())
    ensures res == FR_OK ==> SameOutside(old(fs.View()), fs.View(), SS * fs.g.fatbase, SS * fs.g.fsize)
    ensures res == FR_OK ==> fs.lastClst == old(fs.lastClst) && (old(CountRight(fs)) ==> CountRight(fs))
    ensures IsChain(old(Table(fs)), s) && s[0] == start ==>
      res != FR_INT_ERR && (res == FR_OK ==> Table(fs) == Freed(old(Table(fs)), s))
    ensures res == FR_OK || res == FR_INT_ERR || (res == FR_DISK_ERR && !fs.drive.reliable)
  {
    hide Image, CopyAgrees, Links, Stored;
    EocIsEnd(fs.g);
    ghost var t := Table(fs);
    ghost var k := 0;
    ghost var chained := IsChain(t, s) && s[0] == start;
    assert chained ==> Freed(t, s[..0]) == t;
    var clst := start;
    while true
      invariant fs.Valid() && fs.Coherent() && (old(fs.Mirrored()) ==> fs.Mirrored())
      invariant 2 <= clst < fs.g.nFatent
      invariant SameOutside(old(fs.View()), fs.View(), SS * fs.g.fatbase, SS * fs.g.fsize)
      invariant fs.lastClst == old(fs.lastClst) && (old(CountRight(fs)) ==> CountRight(fs))
      invariant chained ==> k < |s| && clst == s[k] && Table(fs) == Freed(t, s[..k])
      decreases fs.g.nFatent - FreeCount(Table(fs))
    {
      if chained { FreedHead(t, s, k); }
      var nxt := GetFat(fs, clst);
      if nxt == 0 { return FR_OK; }
      if nxt == 1 { return FR_INT_ERR; }
      if nxt == DISK_ERROR { return FR_DISK_ERR; }
      FreeOne(Table(fs), clst);
      res := FreeCluster(fs, clst);
      if res != FR_OK { return; }
      if chained { FreedStep(t, s, k); }
      clst := nxt;
      k := k + 1;
      if clst >= fs.g.nFatent { break; }
    }
    if chained { assert s[..k] == s; }
    res := FR_OK;
  }
}
