/** Fast seek: the cluster link map table of a file, how f_lseek builds it and how it is looked up. */
module Clmt {
  import opened Bits
  import opened Storage
  import opened Volume
  import opened FatTable
  import opened Chains
  import opened Allocator
  import opened FileData
  import opened FileRead

  /** Number of fragments of a chain: its maximal runs of clusters that count up by one. */
  function Fragments(ch: seq<nat>): nat {
    var n := |ch|;
    if n == 0 then 0
    else Fragments(ch[..n - 1]) + if n == 1 || ch[n - 1] != ch[n - 2] + 1 then 1 else 0
  }

  /** From position offs[m] of ch to position offs[m + 1] the clusters count up by one. */
  ghost predicate Fragment(ch: seq<nat>, offs: seq<nat>, m: nat)
    requires m < |offs| - 1
  {
    offs[m] < offs[m + 1] <= |ch| && RunUp(ch, offs[m], offs[m + 1])
  }

  /** offs are the positions in ch where the fragments start, and the position behind the last one. */
  ghost predicate Split(ch: seq<nat>, offs: seq<nat>) {
    && |offs| > 0 && offs[0] == 0 && offs[|offs| - 1] == |ch|
    && forall m: nat :: m < |offs| - 1 ==> Fragment(ch, offs, m)
  }

  /** The m-th pair of the table is the length and the first cluster of the m-th fragment. */
  ghost predicate PairAt(tbl: seq<nat>, ch: seq<nat>, offs: seq<nat>, m: nat)
    requires m < |offs| - 1 && 2 * m + 2 < |tbl|
  {
    Fragment(ch, offs, m) && tbl[2 * m + 1] == offs[m + 1] - offs[m] && tbl[2 * m + 2] == ch[offs[m]]
  }

  /** tbl is the terminated link map of chain ch. */
  ghost predicate MapOf(tbl: seq<nat>, ch: seq<nat>, offs: seq<nat>) {
    && Split(ch, offs) && 2 * |offs| - 1 < |tbl| && tbl[2 * |offs| - 1] == 0
    && forall m: nat :: m < |offs| - 1 ==> PairAt(tbl, ch, offs, m)
  }

  /** Cluster number `n` of the file, counted from 0, or 0 when the file has no such cluster: what following the chain
      n times from its start gives. */
  function ClusterNumber(ch: seq<nat>, n: nat): nat { if n < |ch| then ch[n] else 0 }

  /** Number of the cluster that holds byte ofs of a file, in 32 bits. */
  function Order(ofs: nat, csize: nat): nat
    requires csize > 0
  {
    ofs / SS / csize % WORD32
  }

  lemma InFragment(ch: seq<nat>, offs: seq<nat>, m: nat, d: nat)
    requires m < |offs| - 1 && Fragment(ch, offs, m)
    ensures d < offs[m + 1] - offs[m] ==> ch[offs[m] + d] == ch[offs[m]] + d
  {
  }

  /** clmt_clust: the cluster that holds byte ofs of the file, 0 when there is none. */
  method ClmtClust(cltbl: array<nat>, ofs: nat, csize: nat, ghost ch: seq<nat>, ghost offs: seq<nat>)
      returns (clst: nat)
    requires csize > 0 && MapOf(cltbl[..], ch, offs)
    ensures clst == ClusterNumber(ch, Order(ofs, csize))
    ensures var n := ofs / 512 / csize % 0x1_0000_0000; clst == if n < |ch| then ch[n] else 0
  {
    var cl := Order(ofs, csize);
    var p := 1;
    ghost var m, n: nat := 0, cl;
    while true
      invariant p < cltbl.Length && m < |offs| && p == 2 * m + 1 && cl + offs[m] == n
      decreases |offs| - m
    {
      var ncl := cltbl[p];
      assert ncl == cltbl[..][2 * m + 1];
      if m < |offs| - 1 {
        assert PairAt(cltbl[..], ch, offs, m);
        InFragment(ch, offs, m, cl);
      }
      p := p + 1;
      if ncl == 0 { return 0; }
      if cl < ncl { break; }
      cl := cl - ncl;
      p := p + 1;
      m := m + 1;
    }
    return cl + cltbl[p];
  }

  /** One more fragment, from position offs' last entry to position j. */
  lemma SplitMore(ch: seq<nat>, offs: seq<nat>, j: nat)
    requires |offs| > 0 && offs[0] == 0 && offs[|offs| - 1] < j <= |ch| && RunUp(ch, offs[|offs| - 1], j)
    requires Split(ch[..offs[|offs| - 1]], offs)
    ensures Split(ch[..j], offs + [j])
  {
    var i, offs' := offs[|offs| - 1], offs + [j];
    forall m: nat | m < |offs'| - 1 ensures Fragment(ch[..j], offs', m) {
      if m < |offs| - 1 { assert Fragment(ch[..i], offs, m); }
    }
  }

  /** A run of n clusters that does not go on counting from the one before it is one fragment more. */
  lemma {:induction false} OneFragment(ch: seq<nat>, i: nat, j: nat)
    requires i < j <= |ch| && RunUp(ch, i, j) && (i > 0 ==> ch[i] != ch[i - 1] + 1)
    ensures Fragments(ch[..j]) == Fragments(ch[..i]) + 1
    decreases j
  {
    assert ch[..j][..j - 1] == ch[..j - 1];
    if j > i + 1 {
      OneFragment(ch, i, j - 1);
      assert ch[j - 1] == ch[i] + (j - 1 - i) && ch[j - 2] == ch[i] + (j - 2 - i);
    }
  }

  /** The value that marks the end of chain ch. */
  ghost function LastMark(t: seq<nat>, ch: seq<nat>): (mark: nat)
    requires IsChain(t, ch)
    ensures mark == t[ch[|ch| - 1]] >= |t|
  {
    t[ch[|ch| - 1]]
  }

  lemma RunOfNone(ch: seq<nat>, i: nat)
    requires i < |ch|
    ensures RunUp(ch, i, i)
  {
  }

  /** One more cluster of the fragment. */
  lemma FragmentStep(t: seq<nat>, ch: seq<nat>, i: nat, j: nat)
    requires IsChain(t, ch) && i <= j < |ch| && RunUp(ch, i, j) && (i < j ==> ch[j] == ch[j - 1] + 1)
    ensures RunUp(ch, i, j + 1) && 2 <= ch[j] < |t|
    ensures if j < |ch| - 1 then t[ch[j]] == ch[j + 1] >= 2 else t[ch[j]] >= |t|
  {
    if i < j { assert ch[j - 1] == ch[i] + (j - 1 - i); }
    if j < |ch| - 1 { assert t[ch[j]] == ch[j + 1]; }
  }

  /** The inner loop of the link map creation: follow the chain from position i to the end j of its fragment. nxt is
      what the FAT says behind it. On the very last entry a mark that is the next cluster number by value is followed
      too, which get_fat refuses. */
  method NextFragment(fs: FatFs, start: nat, ghost ch: seq<nat>, ghost i: nat)
      returns (res: FRESULT, ncl: nat, nxt: nat, ghost j: nat)
    requires fs.Valid() && fs.Coherent() && IsChain(Table(fs), ch) && i < |ch| && start == ch[i]
    modifies fs`winsect, fs`wflag, fs`copyLost, fs.win, fs.drive
    ensures fs.Valid() && fs.Coherent() && fs.View() == old(fs.View()) && (old(fs.Mirrored()) ==> fs.Mirrored())
    ensures res == FR_OK || res == FR_INT_ERR || (res == FR_DISK_ERR && !fs.drive.reliable)
    ensures res == FR_OK ==> i < j <= |ch| && ncl == j - i && RunUp(ch, i, j) && nxt != ch[j - 1] + 1
    ensures res == FR_OK ==> nxt == if j < |ch| then ch[j] else LastMark(Table(fs), ch)
    ensures res == FR_INT_ERR ==> LastMark(Table(fs), ch) == ch[|ch| - 1] + 1
  {
    hide Image, CopyAgrees, Links, IsChain, RunUp;
    EocIsEnd(fs.g);
    ghost var t := Table(fs);
    ghost var mark := LastMark(t, ch);
    j, ncl, nxt, res := i, 0, start, FR_OK;
    assert RunUp(ch, i, i) by { RunOfNone(ch, i); }
    while true
      invariant fs.Valid() && fs.Coherent() && fs.View() == old(fs.View()) && (old(fs.Mirrored()) ==> fs.Mirrored())
      invariant i <= j <= |ch| && ncl == j - i && RunUp(ch, i, j) && res == FR_OK
      invariant if j < |ch| then nxt == ch[j] else nxt == mark == ch[j - 1] + 1 && nxt >= fs.g.nFatent
      invariant i < j < |ch| ==> ch[j] == ch[j - 1] + 1
      decreases |ch| + 1 - j
    {
      if j < |ch| { FragmentStep(t, ch, i, j); }
      var pcl := nxt;
      ncl := ncl + 1;
      nxt := GetFat(fs, nxt);
      if nxt <= 1 { res := FR_INT_ERR; return; }
      if nxt == DISK_ERROR { res := FR_DISK_ERR; return; }
      j := j + 1;
      if nxt != pcl + 1 { break; }
    }
  }

  /** The pairs of the first fragments that fit into a table of tlen items are stored. */
  ghost predicate Stored(tbl: seq<nat>, tlen: nat, ch: seq<nat>, offs: seq<nat>)
    requires tlen <= |tbl|
  {
    forall m: nat :: m < |offs| - 1 && 2 * m + 4 <= tlen ==> PairAt(tbl, ch, offs, m)
  }

  /** Storing the next pair, if it fits. */
  lemma StorePair(tbl: seq<nat>, tbl': seq<nat>, tlen: nat, ch: seq<nat>, offs: seq<nat>, j: nat)
    requires |tbl| == |tbl'| && tlen <= |tbl| && |offs| > 0 && Stored(tbl, tlen, ch, offs)
    requires offs[|offs| - 1] < j <= |ch| && RunUp(ch, offs[|offs| - 1], j)
    requires var m := |offs| - 1;
      if 2 * m + 4 <= tlen then tbl' == tbl[2 * m + 1 := j - offs[m]][2 * m + 2 := ch[offs[m]]] else tbl' == tbl
    ensures Stored(tbl', tlen, ch, offs + [j])
  {
    var offs' := offs + [j];
    forall m: nat | m < |offs'| - 1 && 2 * m + 4 <= tlen ensures PairAt(tbl', ch, offs', m) {
      if m < |offs| - 1 { assert PairAt(tbl, ch, offs, m); }
    }
  }

  /** Storing the pair in the table. */
  method PutPair(cltbl: array<nat>, p: nat, tlen: nat, ncl: nat, tcl: nat, ulen: nat,
                 ghost ch: seq<nat>, ghost offs: seq<nat>, ghost j: nat) returns (p': nat)
    requires tlen <= cltbl.Length && |offs| > 0 && Stored(cltbl[..], tlen, ch, offs) && ulen == 2 * |offs| + 2
    requires offs[|offs| - 1] < j <= |ch| && RunUp(ch, offs[|offs| - 1], j)
    requires ncl == j - offs[|offs| - 1] && tcl == ch[offs[|offs| - 1]] && (ulen <= tlen ==> p == ulen - 3)
    modifies cltbl
    ensures Stored(cltbl[..], tlen, ch, offs + [j]) && (ulen <= tlen ==> p' == ulen - 1)
    ensures forall k :: 0 <= k < cltbl.Length && (k >= tlen || k == 0) ==> cltbl[k] == old(cltbl[k])
  {
    p' := p;
    if ulen <= tlen {
      cltbl[p'], p' := ncl, p' + 1;
      cltbl[p'], p' := tcl, p' + 1;
    }
    StorePair(old(cltbl[..]), cltbl[..], tlen, ch, offs, j);
  }

  lemma NotEmpty(t: seq<nat>, ch: seq<nat>)
    requires IsChain(t, ch)
    ensures |ch| > 0 && 2 <= ch[0] < |t|
  {
  }

  /** The outer loop of the link map creation: a pair for each fragment, as far as they fit. */
  method WritePairs(fs: FatFs, sclust: nat, cltbl: array<nat>, tlen: nat, ghost ch: seq<nat>)
      returns (res: FRESULT, p: nat, ulen: nat, ghost offs: seq<nat>)
    requires fs.Valid() && fs.Coherent() && IsChain(Table(fs), ch) && ch[0] == sclust && 0 < cltbl.Length
    requires tlen <= cltbl.Length
    modifies cltbl, fs`winsect, fs`wflag, fs`copyLost, fs.win, fs.drive
    ensures fs.Valid() && fs.Coherent() && fs.View() == old(fs.View()) && (old(fs.Mirrored()) ==> fs.Mirrored())
    ensures forall k :: 0 < k < cltbl.Length && k >= tlen ==> cltbl[k] == old(cltbl[k])
    ensures res == FR_OK || res == FR_INT_ERR || (res == FR_DISK_ERR && !fs.drive.reliable)
    ensures res == FR_INT_ERR ==> LastMark(Table(fs), ch) == ch[|ch| - 1] + 1
    ensures res == FR_OK ==> Split(ch, offs) && Fragments(ch) == |offs| - 1 && ulen == 2 * |offs|
    ensures res == FR_OK ==> Stored(cltbl[..], tlen, ch, offs) && (ulen <= tlen ==> p == ulen - 1)
  {
    hide Image, CopyAgrees, Links, IsChain, RunUp;
    NotEmpty(Table(fs), ch);
    p, ulen := 1, 2;
    var cl := sclust;
    res, offs := FR_OK, [0];
    ghost var i: nat := 0;
    while true
      invariant fs.Valid() && fs.Coherent() && fs.View() == old(fs.View()) && (old(fs.Mirrored()) ==> fs.Mirrored())
      invariant res == FR_OK && i < |ch| && cl == ch[i] && |offs| > 0 && offs[0] == 0 && offs[|offs| - 1] == i
      invariant Split(ch[..i], offs) && Fragments(ch[..i]) == |offs| - 1 && ulen == 2 * |offs|
      invariant i > 0 ==> ch[i] != ch[i - 1] + 1
      invariant Stored(cltbl[..], tlen, ch, offs) && (ulen <= tlen ==> p == ulen - 1)
      invariant forall k :: 0 < k < cltbl.Length && k >= tlen ==> cltbl[k] == old(cltbl[k])
      decreases |ch| - i
    {
      var tcl := cl;
      ulen := ulen + 2;
      var ncl;
      ghost var j;
      res, ncl, cl, j := NextFragment(fs, cl, ch, i);
      if res != FR_OK { return; }
      SplitMore(ch, offs, j);
      OneFragment(ch, i, j);
      p := PutPair(cltbl, p, tlen, ncl, tcl, ulen, ch, offs, j);
      offs := offs + [j];
      i := j;
      EndReached(Table(fs), ch, i, cl);
      if cl >= fs.g.nFatent { break; }
    }
  }

  /** What get_fat tells behind position j - 1 is a cluster number exactly when the chain goes on there. */
  lemma EndReached(t: seq<nat>, ch: seq<nat>, j: nat, nxt: nat)
    requires IsChain(t, ch) && 0 < j <= |ch| && nxt == (if j < |ch| then ch[j] else LastMark(t, ch))
    ensures nxt < |t| <==> j < |ch|
    ensures nxt >= |t| ==> ch[..j] == ch
  {
  }

  /** The link map item by item: item 0 says how many items there are; item 2m + 1 is the number of clusters of fragment
      m and item 2m + 2 its first one, the others counting up from it; the last item is 0. Fragment m covers the chain's
      positions offs[m] up to offs[m + 1]. */
  ghost predicate LinkMap(tbl: seq<nat>, ch: seq<nat>, offs: seq<nat>) {
    && |offs| > 0 && offs[0] == 0 && offs[|offs| - 1] == |ch|
    && 2 * |offs| <= |tbl| && tbl[0] == 2 * |offs| && tbl[2 * |offs| - 1] == 0
    && forall m: nat :: m < |offs| - 1 ==> PairIs(tbl, ch, offs, m)
  }

  ghost predicate PairIs(tbl: seq<nat>, ch: seq<nat>, offs: seq<nat>, m: nat)
    requires m < |offs| - 1 && 2 * m + 2 < |tbl|
  {
    && tbl[2 * m + 1] > 0 && offs[m + 1] == offs[m] + tbl[2 * m + 1] <= |ch|
    && forall i :: offs[m] <= i < offs[m + 1] ==> ch[i] == tbl[2 * m + 2] + (i - offs[m])
  }

  lemma MapIs(tbl: seq<nat>, ch: seq<nat>, offs: seq<nat>)
    requires MapOf(tbl, ch, offs) && tbl[0] == 2 * |offs|
    ensures LinkMap(tbl, ch, offs)
  {
    forall m: nat | m < |offs| - 1 ensures PairIs(tbl, ch, offs, m) {
      assert PairAt(tbl, ch, offs, m);
    }
  }

  /** A fragment starts where a cluster does not follow the one before it by number. */
  ghost predicate Starts(ch: seq<nat>, i: int) { 0 <= i < |ch| && (i == 0 || ch[i] != ch[i - 1] + 1) }

  lemma {:induction false} FragmentsAre(ch: seq<nat>)
    ensures Fragments(ch) == |set i | 0 <= i < |ch| && Starts(ch, i)|
    decreases |ch|
  {
    var n := |ch|;
    var starts := set i | 0 <= i < n && Starts(ch, i);
    if n == 0 {
      assert starts == {};
    } else {
      var pre := ch[..n - 1];
      FragmentsAre(pre);
      var before := set i | 0 <= i < |pre| && Starts(pre, i);
      assert forall i :: 0 <= i < n - 1 ==> (Starts(ch, i) <==> Starts(pre, i));
      assert starts == before + if Starts(ch, n - 1) then {n - 1} else {};
    }
  }

  /** f_lseek(CREATE_LINKMAP): build the link map of the chain ch (empty when there is no start cluster) in a table of
      cltbl[0] items. The table gets the number of items it needs in its first place, whether they fit or not. */
  method CreateLinkMap(fs: FatFs, sclust: nat, cltbl: array<nat>, ghost ch: seq<nat>)
      returns (res: FRESULT, ghost offs: seq<nat>)
    requires fs.Valid() && fs.Coherent()
    requires if sclust == 0 then ch == [] else IsChain(Table(fs), ch) && ch[0] == sclust
    requires 0 < cltbl.Length && cltbl[0] <= cltbl.Length
    modifies cltbl, fs`winsect, fs`wflag, fs`copyLost, fs.win, fs.drive
    ensures fs.Valid() && fs.Coherent() && fs.View() == old(fs.View()) && (old(fs.Mirrored()) ==> fs.Mirrored())
    ensures forall k :: 0 < k < cltbl.Length && k >= old(cltbl[0]) ==> cltbl[k] == old(cltbl[k])
    ensures res == FR_OK || res == FR_NOT_ENOUGH_CORE ==> cltbl[0] == 2 + 2 * Fragments(ch)
    ensures res == FR_OK ==> 2 + 2 * Fragments(ch) <= old(cltbl[0]) && MapOf(cltbl[..], ch, offs)
    // the table: its own length, then length and first cluster of each fragment, then 0
    ensures res == FR_OK ==> LinkMap(cltbl[..], ch, offs)
    ensures res == FR_NOT_ENOUGH_CORE ==> 2 + 2 * Fragments(ch) > old(cltbl[0])
    ensures res == FR_INT_ERR ==> ch != [] && LastMark(Table(fs), ch) == ch[|ch| - 1] + 1
    ensures res in {FR_OK, FR_NOT_ENOUGH_CORE, FR_INT_ERR} || (res == FR_DISK_ERR && !fs.drive.reliable)
  {
    hide Image, CopyAgrees, Links, IsChain, RunUp;
    var tlen := cltbl[0];
    var p: nat, ulen: nat := 1, 2;
    res, offs := FR_OK, [0];
    if sclust != 0 {
      NotEmpty(Table(fs), ch);
      res, p, ulen, offs := WritePairs(fs, sclust, cltbl, tlen, ch);
      if res != FR_OK { return; }
    }
    ghost var stored := cltbl[..];
    cltbl[0] := ulen;
    if ulen <= tlen {
      cltbl[p] := 0;
      forall m: nat | m < |offs| - 1 ensures PairAt(cltbl[..], ch, offs, m) {
        assert PairAt(stored, ch, offs, m);
      }
      MapIs(cltbl[..], ch, offs);
    } else {
      res := FR_NOT_ENOUGH_CORE;
    }
  }

  /** `ofs / SS / csize` is the index of the cluster that holds byte ofs. */
  lemma ClusterIndex(g: Geometry, ofs: nat)
    requires g.csize > 0 && ofs < WORD32
    ensures var q := Order(ofs, g.csize); Ofs(g, q) <= ofs < Ofs(g, q) + g.ClusterBytes()
  {
    var n := ofs / SS;
    var q := n / g.csize;
    DivMod(n, g.csize);
    SmallQuotient(n, g.csize);
    OfsAligned(g, q);
    assert Order(ofs, g.csize) == q;
    assert ofs == SS * n + ofs % SS;
  }

  lemma SmallQuotient(n: nat, d: nat)
    requires d > 0
    ensures n / d <= n
  {
    DivMod(n, d);
    MulMono(1, d, n / d);
  }

  /** Inside a sector, a byte and the one before it lie in the same sector. */
  lemma SameSector(g: Geometry, q: nat, f: nat)
    requires Ofs(g, q) < f && f % SS != 0
    ensures (f - 1 - Ofs(g, q)) / SS == (f - Ofs(g, q)) / SS
  {
    OfsAligned(g, q);
  }

  /** Cluster and sector of file offset f in a file with chain ch, as the fast seek computes them. */
  lemma FastPlace(g: Geometry, v: seq<byte>, ch: seq<nat>, f: nat)
    requires Sized(g, v) && InRange(g, ch) && 0 < f <= Ofs(g, |ch|) && f < WORD32
    ensures g.csize > 0
    ensures var q := Order(f - 1, g.csize);
      && q < |ch| && Ofs(g, q) < f <= Ofs(g, q) + g.ClusterBytes() && 0 < Clst2Sect(g, ch[q])
      && (f % SS != 0 ==> And((f - 1) / SS, g.csize - 1) == (f - Ofs(g, q)) / SS)
      && SS * (Clst2Sect(g, ch[q]) + And((f - 1) / SS, g.csize - 1)) < |v|
  {
    hide Order, Ofs, And, Clst2Sect, Geometry.DataFits;
    Positive(g, v);
    var q := Order(f - 1, g.csize);
    ClusterIndex(g, f - 1);
    OfsIndex(g, q, |ch|, f - 1);
    ClusterBounds(g, v, ch[q]);
    SectorInCluster(g, q, f - 1);
    if f % SS != 0 { SameSector(g, q, f); }
  }

  /** The part of the fast seek that places the cursor at offset `to`. */
  method Place(fp: Fil, cltbl: array<nat>, to: nat, ghost offs: seq<nat>) returns (res: FRESULT)
    requires fp.Based() && MapOf(cltbl[..], fp.chain, offs) && 0 < to <= fp.objsize
    modifies fp`clust, fp`idx, fp`sect
    ensures fp.Based() && fp.CursorAt(to) && res == FR_OK
  {
    hide Image, CopyAgrees, Links, Data, Ofs, IsChain, Geometry.DataFits, MapOf, Order, And, Clst2Sect;
    var g := fp.fs.g;
    ChainInRange(g, Table(fp.fs), fp.chain);
    FastPlace(g, fp.fs.View(), fp.chain, to);
    fp.clust := ClmtClust(cltbl, to - 1, g.csize, fp.chain, offs);
    fp.idx := Order(to - 1, g.csize);
    var dsc := Clst2Sect(g, fp.clust);
    if dsc == 0 { return FR_INT_ERR; }
    dsc := dsc + And((to - 1) / SS, g.csize - 1);
    if to % SS != 0 && dsc != fp.sect { fp.sect := dsc; }
    res := FR_OK;
  }

  /** The fast seek of f_lseek: with the link map in place the file pointer ends at min(ofs, size), without a look at
      the FAT. */
  method FastSeek(fp: Fil, cltbl: array<nat>, ofs: nat, ghost offs: seq<nat>) returns (res: FRESULT)
    requires fp.Valid() && MapOf(cltbl[..], fp.chain, offs)
    modifies fp`fptr, fp`clust, fp`idx, fp`sect, fp`err
    ensures res == old(fp.err) == fp.err
    ensures res == FR_OK ==> fp.Valid() && fp.fptr == if ofs > fp.objsize then fp.objsize else ofs
    ensures res == FR_OK ==> fp.Content() == old(fp.Content())
  {
    hide Image, CopyAgrees, Links, Data, Ofs, IsChain, Geometry.DataFits, MapOf, Fil.CursorAt;
    res := fp.err;
    if res != FR_OK { return; }
    fp.fptr := if ofs > fp.objsize then fp.objsize else ofs;
    if fp.fptr > 0 {
      res := Place(fp, cltbl, fp.fptr, offs);
      fp.err := res;
    } else {
      AtTop(fp);
    }
  }

  lemma AtTop(fp: Fil)
    ensures fp.CursorAt(0)
  {
  }
}
