/** remove_chain on exFAT volumes: the bitmap bits are cleared run by run, the links stay, and the object's status is
    settled afterwards. */
module ExFatRemove {
  import opened Storage
  import opened Volume
  import opened FatTable
  import opened Chains
  import opened Allocator
  import opened Bitmap
  import opened ExFat

  /** u with the bits of the clusters of s cleared. */
  ghost function Released(u: seq<bool>, s: seq<nat>): (u': seq<bool>)
    ensures |u'| == |u|
    ensures forall j {:trigger u'[j]} :: 0 <= j < |u| ==> u'[j] == (u[j] && j + 2 !in s)
  {
    seq(|u|, j requires 0 <= j < |u| => u[j] && j + 2 !in s)
  }

  /** Releasing the clusters of s, all in use, makes as many more bits clear. */
  lemma {:induction false} ReleasedCount(u: seq<bool>, s: seq<nat>)
    requires Distinct(s) && AllUsed(u, s)
    ensures ClearBits(Released(u, s)) == ClearBits(u) + |s| <= |u|
    decreases |s|
  {
    if s == [] {
      assert Released(u, s) == u;
    } else {
      var n := |s| - 1;
      ReleasedCount(u, s[..n]);
      assert s == s[..n] + [s[n]];
      ClearUpdate(Released(u, s[..n]), s[n] - 2, false, |u|);
      assert Released(u, s) == Released(u, s[..n])[s[n] - 2 := false];
    }
  }

  /** The numbers of a counting run. */
  lemma RunNumbers(ch: seq<nat>, q: nat, p: nat, c: nat)
    requires q <= p < |ch| && RunUp(ch, q, p + 1)
    ensures ch[p] == ch[q] + (p - q)
    ensures c in ch[q..p + 1] <==> ch[q] <= c <= ch[p]
  {
    if ch[q] <= c <= ch[p] {
      InRun(ch, q, p + 1, c);
      assert ch[q..p + 1][c - ch[q]] == c;
    }
    if c in ch[q..p + 1] {
      var x :| 0 <= x < |ch[q..p + 1]| && ch[q..p + 1][x] == c;
      assert ch[q + x] == c;
    }
  }

  /** Clearing the bits of a counting run of the chain releases its clusters, which were in use until then. */
  lemma ReleasedRun(u: seq<bool>, ch: seq<nat>, k: nat, q: nat, p: nat)
    requires Distinct(ch) && AllUsed(u, ch) && k <= q <= p < |ch| && RunUp(ch, q, p + 1)
    ensures ch[q] >= 2 && ch[q] - 2 + (p - q + 1) <= |u|
    ensures forall j :: ch[q] - 2 <= j < ch[q] - 2 + (p - q + 1) ==> Released(u, ch[k..q])[j]
    ensures SetBits(Released(u, ch[k..q]), ch[q] - 2, p - q + 1, false) == Released(u, ch[k..p + 1])
  {
    RunNumbers(ch, q, p, ch[p]);
    forall j | ch[q] - 2 <= j < ch[q] - 2 + (p - q + 1) ensures Released(u, ch[k..q])[j] {
      InRun(ch, q, p + 1, j + 2);
      assert ch[q + (j + 2 - ch[q])] == j + 2;
      assert forall x :: 0 <= x < |ch[k..q]| ==> ch[k..q][x] == ch[k + x];
    }
    assert ch[k..p + 1] == ch[k..q] + ch[q..p + 1];
    ReleasedMore(u, ch[k..q], ch[q..p + 1], ch, q, p);
  }

  lemma ReleasedMore(u: seq<bool>, s: seq<nat>, run: seq<nat>, ch: seq<nat>, q: nat, p: nat)
    requires q <= p < |ch| && RunUp(ch, q, p + 1) && run == ch[q..p + 1]
    requires ch[q] >= 2 && ch[q] - 2 + (p - q + 1) <= |u|
    ensures SetBits(Released(u, s), ch[q] - 2, p - q + 1, false) == Released(u, s + run)
  {
    var a, b := SetBits(Released(u, s), ch[q] - 2, p - q + 1, false), Released(u, s + run);
    forall j | 0 <= j < |u| ensures a[j] == b[j] {
      RunNumbers(ch, q, p, j + 2);
      assert j + 2 in s + run <==> j + 2 in s || j + 2 in run;
    }
  }

  /** The FAT after the cluster before position k was marked as the end. */
  ghost function CutTable(t: seq<nat>, o: Lazy, ch: seq<nat>, k: nat): (t': seq<nat>)
    requires k <= |ch| && forall i :: 0 <= i < |ch| ==> ch[i] < |t|
    ensures |t'| == |t|
  {
    if k > 0 && o.stat != 2 then t[ch[k - 1] := EOC] else t
  }

  /** The status remove_chain leaves. */
  ghost function CutStat(o: Lazy, ch: seq<nat>, k: nat): nat
    requires k <= |ch|
  {
    if k == 0 then 0
    else if o.stat == 0 && RunUp(ch, 0, k) then 2
    else if o.stat == 3 && k - 1 <= o.nCont then 2
    else o.stat
  }

  /** Cutting the chain before position k: the object with its settled status spells the clusters that remain. */
  lemma CutSpells(t: seq<nat>, o: Lazy, ch: seq<nat>, k: nat)
    requires Spells(t, o, ch) && o.nFrag == 0 && 0 < k < |ch| && |t| <= EOC
    ensures Spells(CutTable(t, o, ch, k), o.(stat := CutStat(o, ch, k)), ch[..k])
    ensures o.stat == 0 ==> Spells(CutTable(t, o, ch, k), o, ch[..k])
    ensures o.stat == 3 ==> (ch[0] <= ch[k - 1] <= ch[0] + o.nCont <==> k - 1 <= o.nCont)
  {
    var t', s := CutTable(t, o, ch, k), ch[..k];
    forall i {:trigger t'[s[i]]} | Head(o) <= i < k - 1 && o.stat != 2 ensures t'[s[i]] == s[i + 1] {
      assert t[ch[i]] == ch[i + 1] && ch[i] != ch[k - 1];
    }
    if o.stat == 3 {
      if k - 1 <= o.nCont {
        assert ch[k - 1] == ch[0] + (k - 1);
      } else {
        AfterRun(ch, o.nCont, k - 1);
        assert ch[o.nCont] == ch[0] + o.nCont && ch[o.nCont] != ch[k - 1];
      }
    }
  }

  /** get_fat leads from position i of the chain to the next one, or to its end. */
  ghost predicate Leads(t: seq<nat>, o: Lazy, objsize: nat, csize: nat, ch: seq<nat>, i: nat)
    requires csize > 0 && o.sclust < 0x1_0000_0000 && i < |ch| && ch[i] < 0x1_0000_0000
  {
    var next := ExLink(t, o, objsize, csize, ch[i]);
    if i == |ch| - 1 then next >= |t| else next == ch[i + 1]
  }

  ghost predicate Tail(t: seq<nat>, o: Lazy, objsize: nat, csize: nat, ch: seq<nat>, k: nat)
    requires csize > 0 && o.sclust < 0x1_0000_0000
    requires forall i :: 0 <= i < |ch| ==> ch[i] < 0x1_0000_0000
  {
    forall i: nat :: k <= i < |ch| ==> Leads(t, o, objsize, csize, ch, i)
  }

  /** The chain from position k on is still told by get_fat once the cluster before it was marked as the end. */
  lemma TailStays(t: seq<nat>, o: Lazy, objsize: nat, csize: nat, ch: seq<nat>, k: nat)
    requires Spells(t, o, ch) && SizeRight(o, objsize, csize, |ch|) && o.nFrag == 0 && k < |ch| && |t| <= EOC
    ensures Tail(CutTable(t, o, ch, k), o, objsize, csize, ch, k)
    ensures ExLink(CutTable(t, o, ch, k), o, objsize, csize, ch[|ch| - 1]) == ExLink(t, o, objsize, csize, ch[|ch| - 1])
  {
    var t' := CutTable(t, o, ch, k);
    forall i: nat | k <= i < |ch|
      ensures ExLink(t', o, objsize, csize, ch[i]) == ExLink(t, o, objsize, csize, ch[i])
      ensures Leads(t, o, objsize, csize, ch, i)
    {
      ExLinkFollows(t, o, ch, objsize, csize, i);
      if k > 0 { assert ch[k - 1] != ch[i]; }
    }
    assert forall i: nat :: k <= i < |ch| && Leads(t, o, objsize, csize, ch, i) ==> Leads(t', o, objsize, csize, ch, i);
  }

  /** The free count after n clusters were freed. */
  function Counted(free: nat, n: nat, limit: nat): nat {
    if free >= limit then free else if free + n >= limit then limit else free + n
  }

  /** Clear the bits of the clusters from scl = ch[q] to ecl = ch[p]. */
  method ReleaseRun(fs: FatFs, scl: nat, ecl: nat, ghost u: seq<bool>, ghost ch: seq<nat>, ghost k: nat,
                    ghost q: nat, ghost p: nat) returns (res: FRESULT)
    requires fs.Valid() && fs.Coherent() && HasBitmap(fs.g, fs.View(), fs.bitbase) && |u| == fs.g.nFatent - 2
    requires Distinct(ch) && AllUsed(u, ch) && k <= q <= p < |ch| && RunUp(ch, q, p + 1)
    requires scl == ch[q] && ecl == ch[p] && Used(fs.g, fs.View(), fs.bitbase) == Released(u, ch[k..q])
    modifies fs`winsect, fs`wflag, fs`copyLost, fs.win, fs.drive
    ensures fs.Valid() && fs.Coherent() && (old(fs.Mirrored()) ==> fs.Mirrored())
    ensures res == FR_OK || (res == FR_DISK_ERR && !fs.drive.reliable)
    ensures HasBitmap(fs.g, fs.View(), fs.bitbase) && Table(fs) == old(Table(fs))
    ensures res == FR_OK ==> Used(fs.g, fs.View(), fs.bitbase) == Released(u, ch[k..p + 1])
  {
    hide Image, CopyAgrees, Links, HasBitmap, UsedAt, Released, SetBits, SameOutside;
    ReleasedRun(u, ch, k, q, p);
    assert ecl == scl + (p - q);
    ghost var done;
    res, done := ChangeBitmap(fs, scl, ecl - scl + 1, false);
  }

  /** What the loop of remove_chain learns at position p of the chain. */
  lemma AtPosition(t: seq<nat>, o: Lazy, objsize: nat, csize: nat, u: seq<bool>, ch: seq<nat>, k: nat, q: nat, p: nat)
    requires csize > 0 && o.sclust < |t| && |t| == |u| + 2 && |t| <= EOC && AllUsed(u, ch)
    requires Tail(t, o, objsize, csize, ch, k) && k <= q <= p < |ch| && RunUp(ch, q, p + 1)
    ensures 2 <= ch[p] < |t|
    ensures var next := ExLink(t, o, objsize, csize, ch[p]);
      if p == |ch| - 1 then next >= |t|
      else
        && 2 <= next < |t| && next == ch[p + 1] && RunUp(ch, p + 1, p + 2)
        && (next == ch[p] + 1 ==> RunUp(ch, q, p + 2))
  {
    assert Leads(t, o, objsize, csize, ch, p);
    if p < |ch| - 1 { assert 2 <= ch[p + 1] < |t|; }
  }

  lemma NoneReleased(u: seq<bool>, ch: seq<nat>, k: nat)
    requires k < |ch|
    ensures Released(u, ch[k..k]) == u
  {
  }

  lemma RunOfOne(ch: seq<nat>, k: nat)
    requires k < |ch|
    ensures RunUp(ch, k, k + 1)
  {
  }

  /** The loop of remove_chain on an exFAT volume. The run at the end of the chain is released unless its last cluster
      is followed, by number, by the value that marks the end: e tells how far the chain was released. */
  method ReleaseRuns(fs: FatFs, obj: FfObj, start: nat, ghost ch: seq<nat>, ghost k: nat)
    returns (res: FRESULT, ghost e: nat)
    requires fs.Valid() && fs.Coherent() && fs.g.fsType.EXFAT? && HasBitmap(fs.g, fs.View(), fs.bitbase)
    requires fs.g.csize > 0 && obj.sclust < fs.g.nFatent && Distinct(ch) && k < |ch| && start == ch[k]
    requires AllUsed(Used(fs.g, fs.View(), fs.bitbase), ch)
    requires Tail(Table(fs), obj.State(), obj.objsize, fs.g.csize, ch, k)
    modifies fs, fs.win, fs.drive
    ensures fs.Valid() && fs.Coherent() && (old(fs.Mirrored()) ==> fs.Mirrored())
    ensures res == FR_OK || (res == FR_DISK_ERR && !fs.drive.reliable)
    ensures HasBitmap(fs.g, fs.View(), fs.bitbase) && Table(fs) == old(Table(fs))
    ensures res == FR_OK ==> k <= e <= |ch| && fs.lastClst == old(fs.lastClst)
    ensures res == FR_OK ==>
      Used(fs.g, fs.View(), fs.bitbase) == Released(old(Used(fs.g, fs.View(), fs.bitbase)), ch[k..e])
    ensures res == FR_OK ==>
      (e < |ch| <==> ExLink(Table(fs), obj.State(), obj.objsize, fs.g.csize, ch[|ch| - 1]) == ch[|ch| - 1] + 1)
    ensures res == FR_OK ==> fs.freeClst == Counted(old(fs.freeClst), |ch| - k, fs.g.nFatent - 2)
  {
    hide Image, CopyAgrees, Links, HasBitmap, Used, ExLink, Released, RunUp, AllUsed, Tail, Distinct;
    RunOfOne(ch, k);
    NoneReleased(Used(fs.g, fs.View(), fs.bitbase), ch, k);
    EocIsEnd(fs.g);
    ghost var u := Used(fs.g, fs.View(), fs.bitbase);
    ghost var t := Table(fs);
    var clst, scl, ecl := start, start, start;
    ghost var p, q := k, k;
    res, e := FR_OK, k;
    while true
      invariant fs.Valid() && fs.Coherent() && (old(fs.Mirrored()) ==> fs.Mirrored())
      invariant res == FR_OK && k <= q <= p < |ch| && clst == ecl == ch[p] && scl == ch[q] && RunUp(ch, q, p + 1)
      invariant HasBitmap(fs.g, fs.View(), fs.bitbase) && Table(fs) == t
      invariant Used(fs.g, fs.View(), fs.bitbase) == Released(u, ch[k..q])
      invariant fs.lastClst == old(fs.lastClst)
      invariant fs.freeClst == Counted(old(fs.freeClst), p - k, fs.g.nFatent - 2)
      decreases |ch| - p
    {
      AtPosition(t, obj.State(), obj.objsize, fs.g.csize, u, ch, k, q, p);
      var nxt := ExFat.GetFat(fs, obj, clst);
      if nxt == 0 { break; }
      if nxt == 1 { res := FR_INT_ERR; return; }
      if nxt == DISK_ERROR { res := FR_DISK_ERR; return; }
      if fs.freeClst < fs.g.nFatent - 2 {
        fs.freeClst := fs.freeClst + 1;
        fs.fsiFlag := true;
      }
      if ecl + 1 == nxt {
        ecl := nxt;
      } else {
        res := ReleaseRun(fs, scl, ecl, u, ch, k, q, p);
        if res != FR_OK { return; }
        scl, ecl := nxt, nxt;
        q := p + 1;
      }
      clst := nxt;
      p := p + 1;
      if clst >= fs.g.nFatent { break; }
    }
    e := q;
  }

  /** The end of remove_chain on an exFAT volume: settle the status of the object, whose chain now ends at pclst. */
  method SettleStatus(fs: FatFs, obj: FfObj, pclst: nat, ghost t: seq<nat>, ghost ch: seq<nat>, ghost k: nat)
      returns (res: FRESULT)
    requires fs.Valid() && fs.Coherent() && fs.g.fsType.EXFAT? && fs.g.csize > 0 && k < |ch|
    requires Spells(t, obj.State(), ch) && obj.nFrag == 0 && |t| == fs.g.nFatent
    requires Table(fs) == CutTable(t, obj.State(), ch, k) && pclst == if k == 0 then 0 else ch[k - 1]
    modifies fs`winsect, fs`wflag, fs`copyLost, fs.win, fs.drive, obj`stat
    ensures fs.Valid() && fs.Coherent() && fs.View() == old(fs.View()) && (old(fs.Mirrored()) ==> fs.Mirrored())
    ensures res == FR_OK || (res == FR_DISK_ERR && !fs.drive.reliable)
    ensures res == FR_OK ==> obj.stat == CutStat(old(obj.State()), ch, k)
  {
    hide Image, CopyAgrees, Links, LinksOn, FatFs.Mirrored, FatFs.Coherent, Geometry.Valid;
    EocIsEnd(fs.g);
    if pclst == 0 {
      obj.stat := 0;
    } else {
      CutSpells(t, obj.State(), ch, k);
      if obj.stat == 0 {
        var contiguous;
        OnFat(Table(fs), obj.State(), ch[..k]);
        res, contiguous := GotContiguous(fs, obj, pclst, ch[..k]);
        if res != FR_OK { return; }
        assert RunUp(ch[..k], 0, k) <==> RunUp(ch, 0, k) by { SameRun(ch, k); }
        if contiguous { obj.stat := 2; }
      } else if obj.stat == 3 && pclst >= obj.sclust && pclst <= obj.sclust + obj.nCont {
        obj.stat := 2;
      }
    }
    res := FR_OK;
  }

  /** An object with status 0 and no link missing has its chain on the FAT. */
  lemma OnFat(t: seq<nat>, o: Lazy, ch: seq<nat>)
    requires Spells(t, o, ch) && o.stat == 0 && o.nFrag == 0
    ensures IsChain(t, ch)
  {
  }

  lemma SameRun(ch: seq<nat>, k: nat)
    requires k <= |ch|
    ensures RunUp(ch[..k], 0, k) <==> RunUp(ch, 0, k)
  {
    if RunUp(ch[..k], 0, k) {
      forall i | 0 <= i < k ensures ch[i] == ch[0] + i { assert ch[..k][i] == ch[i]; }
    }
  }

  /** Follow the links of a chain s on the FAT from its start to pclst, its last cluster: do they count up by one? */
  method GotContiguous(fs: FatFs, obj: FfObj, pclst: nat, ghost s: seq<nat>) returns (res: FRESULT, contiguous: bool)
    requires fs.Valid() && fs.Coherent() && fs.g.fsType.EXFAT? && fs.g.csize > 0
    requires obj.stat == 0 && obj.nFrag == 0 && IsChain(Table(fs), s) && Distinct(s)
    requires obj.sclust == s[0] && pclst == s[|s| - 1]
    modifies fs`winsect, fs`wflag, fs`copyLost, fs.win, fs.drive
    ensures fs.Valid() && fs.Coherent() && fs.View() == old(fs.View()) && (old(fs.Mirrored()) ==> fs.Mirrored())
    ensures res == FR_OK || (res == FR_DISK_ERR && !fs.drive.reliable)
    ensures res == FR_OK ==> (contiguous <==> RunUp(s, 0, |s|))
  {
    hide Image, CopyAgrees, Links;
    EocIsEnd(fs.g);
    ghost var t := Table(fs);
    var clst := obj.sclust;
    ghost var p: nat := 0;
    res, contiguous := FR_OK, true;
    while clst != pclst
      invariant fs.Valid() && fs.Coherent() && fs.View() == old(fs.View()) && (old(fs.Mirrored()) ==> fs.Mirrored())
      invariant p < |s| && clst == s[p] && RunUp(s, 0, p + 1) && res == FR_OK && contiguous
      decreases |s| - p
    {
      assert t[s[p]] == s[p + 1];
      var nxt := ExFat.GetFat(fs, obj, clst);
      if nxt < 2 { res := FR_INT_ERR; return; }
      if nxt == DISK_ERROR { res := FR_DISK_ERR; return; }
      if nxt != clst + 1 { contiguous := false; break; }
      clst := clst + 1;
      p := p + 1;
    }
  }

  /** The bits cleared for the clusters from position k to e are counted, and there is room for all up to the end. */
  lemma TailCount(u: seq<bool>, ch: seq<nat>, k: nat, e: nat)
    requires Distinct(ch) && AllUsed(u, ch) && k <= e <= |ch|
    ensures ClearBits(Released(u, ch[k..e])) == ClearBits(u) + (e - k)
    ensures ClearBits(u) + (|ch| - k) <= |u|
  {
    ReleasedCount(u, ch[k..e]);
    ReleasedCount(u, ch[k..]);
  }

  /** remove_chain on an exFAT volume, from position k of the object's chain on, once no links are missing at its
      growing edge. */
  method RemoveChain(fs: FatFs, obj: FfObj, clst: nat, pclst: nat, ghost ch: seq<nat>, ghost k: nat)
      returns (res: FRESULT, ghost e: nat)
    requires fs.Valid() && fs.Coherent() && fs.g.fsType.EXFAT? && HasBitmap(fs.g, fs.View(), fs.bitbase)
    requires Spells(Table(fs), obj.State(), ch) && SizeRight(obj.State(), obj.objsize, fs.g.csize, |ch|)
    requires obj.nFrag == 0 && AllUsed(Used(fs.g, fs.View(), fs.bitbase), ch)
    requires k < |ch| && clst == ch[k] && pclst == if k == 0 then 0 else ch[k - 1]
    modifies fs, fs.win, fs.drive, obj`stat
    ensures fs.Valid() && fs.Coherent() && (old(fs.Mirrored()) ==> fs.Mirrored())
    ensures res == FR_OK || (res == FR_DISK_ERR && !fs.drive.reliable)
    ensures res == FR_OK ==> HasBitmap(fs.g, fs.View(), fs.bitbase) && k <= e <= |ch|
    ensures res == FR_OK ==>
      Used(fs.g, fs.View(), fs.bitbase) == Released(old(Used(fs.g, fs.View(), fs.bitbase)), ch[k..e])
    ensures res == FR_OK ==>
      (e < |ch| <==> old(ExLink(Table(fs), obj.State(), obj.objsize, fs.g.csize, ch[|ch| - 1])) == ch[|ch| - 1] + 1)
    ensures res == FR_OK ==> Table(fs) == CutTable(old(Table(fs)), old(obj.State()), ch, k)
    ensures res == FR_OK && k == 0 ==> obj.stat == 0
    ensures res == FR_OK && k > 0 ==>
      Spells(Table(fs), obj.State(), ch[..k]) && (old(obj.stat) == 0 && RunUp(ch, 0, k) ==> obj.stat == 2)
    ensures res == FR_OK ==> fs.freeClst == Counted(old(fs.freeClst), |ch| - k, fs.g.nFatent - 2)
    // a right count stays right exactly when the last run was released
    ensures res == FR_OK && old(BitsCounted(fs) && fs.freeClst <= fs.g.nFatent - 2) ==>
      (BitsCounted(fs) <==> e == |ch|)
  {
    hide Image, CopyAgrees, Links, HasBitmap, Used, ExLink, Released, LinksOn, RunUp, AllUsed, Tail, LastOfs;
    EocIsEnd(fs.g);
    e := k;
    ghost var t, v, u := Table(fs), fs.View(), Used(fs.g, fs.View(), fs.bitbase);
    TailStays(t, obj.State(), obj.objsize, fs.g.csize, ch, k);
    if k > 0 { CutSpells(t, obj.State(), ch, k); }
    if clst < 2 || clst >= fs.g.nFatent { return FR_INT_ERR, e; }
    if pclst != 0 && obj.stat != 2 {
      res := SetLink(fs, pclst, DISK_ERROR);
      if res != FR_OK { return; }
      FatKeepsBitmap(fs.g, v, fs.View(), fs.bitbase);
    }
    res, e := ReleaseRuns(fs, obj, clst, ch, k);
    if res != FR_OK { return; }
    TailCount(u, ch, k, e);
    res := SettleStatus(fs, obj, pclst, t, ch, k);
  }

  /** When remove_chain leaves the last run's bits set: exactly when the chain ends at cluster 0x7FFFFFFE, which only a
      volume of the largest size has. The end mark is then taken for the next cluster by number. */
  lemma LastRunKept(t: seq<nat>, o: Lazy, ch: seq<nat>, objsize: nat, csize: nat)
    requires Spells(t, o, ch) && SizeRight(o, objsize, csize, |ch|) && o.nFrag == 0 && |t| <= EOC
    requires o.stat == 2 || t[ch[|ch| - 1]] == EOC
    ensures ExLink(t, o, objsize, csize, ch[|ch| - 1]) == ch[|ch| - 1] + 1 <==> ch[|ch| - 1] == EOC - 1
    ensures ch[|ch| - 1] == EOC - 1 ==> |t| == EOC
  {
    hide ExLink, LastOfs;
    ExLinkAt(t, o, ch, objsize, csize, |ch| - 1);
  }

  /** Such an object: one cluster, the last one of a volume of the largest size. get_fat's end mark is the next
      cluster by number, so removing it leaves its bit set. */
  lemma LastRunKeptInstance(t: seq<nat>)
    requires |t| == EOC
    ensures var o, ch := Lazy(EOC - 1, 2, 0, 0), [EOC - 1];
      && Spells(t, o, ch) && SizeRight(o, 1, 1, |ch|)
      && ExLink(t, o, 1, 1, ch[|ch| - 1]) == ch[|ch| - 1] + 1
  {
    LastRunKept(t, Lazy(EOC - 1, 2, 0, 0), [EOC - 1], 1, 1);
  }
}
