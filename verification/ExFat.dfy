/** exFAT cluster chains whose links are written lazily: a contiguous object has no links at all, and the links of
    its first fragment and of the fragment at its growing edge are kept in the object until they are filled in. */
module ExFat {
  import opened Storage
  import opened Volume
  import opened FatTable
  import opened Chains
  import opened Allocator
  import opened Bitmap

  const EOC: nat := 0x7FFFFFFF

  /** The allocation fields of FFOBJID. stat: 0 the FAT chain is valid, 2 contiguous with no chain on the FAT,
      3 fragmented in this session. nCont: size of the first fragment less one, when stat is 3. nFrag: size of the
      fragment at the growing edge whose links are missing. */
  datatype Lazy = Lazy(sclust: nat, stat: nat, nCont: nat, nFrag: nat)

  /** Number of leading clusters whose links are not on the FAT. */
  function Head(o: Lazy): nat { if o.stat == 3 then o.nCont else 0 }

  /** Size of the fragment at the growing edge whose last link leads nowhere yet. */
  function Edge(o: Lazy): nat { if o.nFrag == 0 then 1 else o.nFrag }

  /** The object's fields and the FAT t together spell the clusters of ch. */
  ghost predicate Spells(t: seq<nat>, o: Lazy, ch: seq<nat>) {
    && |ch| > 0 && ch[0] == o.sclust && Distinct(ch) && (forall i :: 0 <= i < |ch| ==> 2 <= ch[i] < |t|)
    && (o.stat == 0 || o.stat == 2 || o.stat == 3)
    && (o.stat == 2 ==> o.nFrag == 0 && RunUp(ch, 0, |ch|))
    && (o.stat != 2 ==> LinksOn(t, o, ch))
  }

  ghost predicate LinksOn(t: seq<nat>, o: Lazy, ch: seq<nat>)
    requires |ch| > 0 && forall i :: 0 <= i < |ch| ==> ch[i] < |t|
  {
    && (o.stat == 3 ==> o.nCont + 1 + Edge(o) <= |ch| && RunUp(ch, 0, o.nCont + 1))
    && o.nFrag <= |ch| && RunUp(ch, |ch| - o.nFrag, |ch|)
    && (forall i {:trigger t[ch[i]]} :: Head(o) <= i < |ch| - Edge(o) ==> t[ch[i]] == ch[i + 1])
    && (o.nFrag == 0 ==> t[ch[|ch| - 1]] >= |t|)
  }

  /** t with the links of the n clusters up to lcl filled in, the last one leading to term. */
  ghost function FillLast(t: seq<nat>, lcl: nat, n: nat, term: nat): (t': seq<nat>)
    ensures |t'| == |t|
    ensures forall c {:trigger t'[c]} :: 0 <= c < |t| ==>
      t'[c] == if lcl - n < c < lcl then c + 1 else if n > 0 && c == lcl then term else t[c]
  {
    seq(|t|, c requires 0 <= c < |t| =>
      if lcl - n < c < lcl then c + 1 else if n > 0 && c == lcl then term else t[c])
  }

  /** t with the links of the n clusters from cl on filled in. */
  ghost function FillFirst(t: seq<nat>, cl: nat, n: nat): (t': seq<nat>)
    ensures |t'| == |t|
    ensures forall c {:trigger t'[c]} :: 0 <= c < |t| ==> t'[c] == if cl <= c < cl + n then c + 1 else t[c]
  {
    seq(|t|, c requires 0 <= c < |t| => if cl <= c < cl + n then c + 1 else t[c])
  }

  /** The object's fields after cluster c was added behind cluster `last`. */
  function Grown(o: Lazy, last: nat, c: nat): Lazy
    requires o.sclust <= last || o.stat != 2
  {
    if o.stat == 2 && c == last + 1 then o
    else
      var o1 := if o.stat == 2 then o.(nCont := last - o.sclust, stat := 3) else o;
      o1.(nFrag := if c != last + 1 then 1 else if o1.nFrag == 0 then 2 else o1.nFrag + 1)
  }

  /** The FAT after cluster c was added behind cluster `last`. */
  ghost function GrownTable(t: seq<nat>, o: Lazy, last: nat, c: nat): (t': seq<nat>)
    ensures |t'| == |t|
  {
    if c == last + 1 then t else FillLast(t, last, Edge(o), c)
  }

  /** The FAT and the object's fields after fill_first_frag and fill_last_frag. */
  ghost function Filled(t: seq<nat>, o: Lazy, last: nat): (t': seq<nat>)
    ensures |t'| == |t|
  {
    FillLast(if o.stat == 3 then FillFirst(t, o.sclust, o.nCont) else t, last, o.nFrag, EOC)
  }

  ghost predicate SameBut(t: seq<nat>, t': seq<nat>, ch: seq<nat>) {
    |t'| == |t| && forall c {:trigger t'[c]} :: 0 <= c < |t| && c !in ch ==> t'[c] == t[c]
  }

  /** A cluster before a run of the chain has none of the run's numbers. */
  lemma NotInRun(ch: seq<nat>, a: nat, i: nat)
    requires i < a < |ch| && Distinct(ch) && RunUp(ch, a, |ch|)
    ensures !(ch[a] <= ch[i] <= ch[|ch| - 1])
  {
    if ch[a] <= ch[i] <= ch[|ch| - 1] {
      InRun(ch, a, |ch|, ch[i]);
    }
  }

  /** Adding the cluster next to the last one makes the growing edge longer. */
  lemma GrowNext(t: seq<nat>, o: Lazy, ch: seq<nat>, c: nat)
    requires Spells(t, o, ch) && 2 <= c < |t| && c !in ch && c == ch[|ch| - 1] + 1 && o.stat != 2
    ensures Spells(t, Grown(o, ch[|ch| - 1], c), ch + [c])
  {
    var o', ch' := Grown(o, ch[|ch| - 1], c), ch + [c];
    assert Distinct(ch');
  }

  /** The links of the growing edge once they are filled in and lead on to c, which is elsewhere. */
  lemma EdgeLinks(t: seq<nat>, ch: seq<nat>, n: nat, c: nat, i: nat)
    requires |ch| > 0 && (forall i :: 0 <= i < |ch| ==> ch[i] < |t|) && Distinct(ch)
    requires 0 < n <= |ch| && RunUp(ch, |ch| - n, |ch|) && i < |ch|
    ensures FillLast(t, ch[|ch| - 1], n, c)[ch[i]] ==
      if i == |ch| - 1 then c else if i < |ch| - n then t[ch[i]] else ch[i + 1]
  {
    if i < |ch| - n { NotInRun(ch, |ch| - n, i); }
  }

  /** The links after adding a cluster elsewhere. */
  lemma ApartLinks(t: seq<nat>, o: Lazy, ch: seq<nat>, c: nat)
    requires Spells(t, o, ch) && 2 <= c < |t| && c !in ch && c != ch[|ch| - 1] + 1
    ensures o.sclust <= ch[|ch| - 1] || o.stat != 2
    ensures LinksOn(GrownTable(t, o, ch[|ch| - 1], c), Grown(o, ch[|ch| - 1], c), ch + [c])
  {
    hide FillLast;
    var last, ch' := ch[|ch| - 1], ch + [c];
    var n := Edge(o);
    var o', t' := Grown(o, last, c), FillLast(t, last, n, c);
    forall i {:trigger t'[ch'[i]]} | Head(o') <= i < |ch'| - 1 ensures t'[ch'[i]] == ch'[i + 1] {
      EdgeLinks(t, ch, n, c, i);
      if i < |ch| - n { assert t[ch[i]] == ch[i + 1]; }
    }
  }

  /** Adding a cluster elsewhere links the growing edge to it. */
  lemma GrowApart(t: seq<nat>, o: Lazy, ch: seq<nat>, c: nat)
    requires Spells(t, o, ch) && 2 <= c < |t| && c !in ch && c != ch[|ch| - 1] + 1
    ensures o.sclust <= ch[|ch| - 1] || o.stat != 2
    ensures Spells(GrownTable(t, o, ch[|ch| - 1], c), Grown(o, ch[|ch| - 1], c), ch + [c])
    ensures SameBut(t, GrownTable(t, o, ch[|ch| - 1], c), ch)
  {
    var last := ch[|ch| - 1];
    var n := Edge(o);
    assert SameBut(t, FillLast(t, last, n, c), ch) by {
      forall x | 0 <= x < |t| && x !in ch ensures !(last - n < x <= last) {
        if last - n < x <= last { InRun(ch, |ch| - n, |ch|, x); }
      }
    }
    hide LinksOn, FillLast, SameBut;
    ApartLinks(t, o, ch, c);
    assert Distinct(ch + [c]);
  }

  /** Adding a cluster keeps the object spelling its chain. */
  lemma GrowSpells(t: seq<nat>, o: Lazy, ch: seq<nat>, c: nat)
    requires Spells(t, o, ch) && 2 <= c < |t| && c !in ch
    ensures o.sclust <= ch[|ch| - 1] || o.stat != 2
    ensures Spells(GrownTable(t, o, ch[|ch| - 1], c), Grown(o, ch[|ch| - 1], c), ch + [c])
    ensures SameBut(t, GrownTable(t, o, ch[|ch| - 1], c), ch)
  {
    hide LinksOn;
    if c != ch[|ch| - 1] + 1 {
      GrowApart(t, o, ch, c);
    } else if o.stat != 2 {
      GrowNext(t, o, ch, c);
    } else {
      assert Distinct(ch + [c]);
    }
  }

  /** A cluster behind the first fragment has none of that fragment's numbers, except the fragment's last. */
  lemma AfterRun(ch: seq<nat>, n: nat, i: nat)
    requires n <= i < |ch| && Distinct(ch) && RunUp(ch, 0, n + 1)
    ensures !(ch[0] <= ch[i] < ch[0] + n)
  {
    if ch[0] <= ch[i] < ch[0] + n {
      InRun(ch, 0, n + 1, ch[i]);
    }
  }

  /** Filling in the first fragment's links. */
  lemma FirstFilled(t: seq<nat>, o: Lazy, ch: seq<nat>)
    requires Spells(t, o, ch) && o.stat == 3
    ensures Spells(FillFirst(t, o.sclust, o.nCont), o.(stat := 0), ch)
    ensures SameBut(t, FillFirst(t, o.sclust, o.nCont), ch)
  {
    var t' := FillFirst(t, o.sclust, o.nCont);
    forall c | 0 <= c < |t| && c !in ch ensures t'[c] == t[c] {
      if o.sclust <= c < o.sclust + o.nCont { InRun(ch, 0, o.nCont + 1, c); }
    }
    forall i {:trigger t'[ch[i]]} | 0 <= i < |ch| ensures t'[ch[i]] == if i < o.nCont then ch[i + 1] else t[ch[i]] {
      if i < o.nCont {
        assert ch[i] == ch[0] + i && ch[i + 1] == ch[0] + (i + 1);
      } else {
        AfterRun(ch, o.nCont, i);
      }
    }
  }

  /** Filling in the growing edge's links, as seeking and closing do. */
  lemma LastFilled(t: seq<nat>, o: Lazy, ch: seq<nat>)
    requires Spells(t, o, ch) && |t| <= EOC
    ensures Spells(FillLast(t, ch[|ch| - 1], o.nFrag, EOC), o.(nFrag := 0), ch)
    ensures SameBut(t, FillLast(t, ch[|ch| - 1], o.nFrag, EOC), ch)
  {
    var last := ch[|ch| - 1];
    var t' := FillLast(t, last, o.nFrag, EOC);
    if o.nFrag > 0 {
      forall c | 0 <= c < |t| && c !in ch ensures t'[c] == t[c] {
        if last - o.nFrag < c <= last { InRun(ch, |ch| - o.nFrag, |ch|, c); }
      }
      forall i {:trigger t'[ch[i]]} | 0 <= i < |ch|
        ensures t'[ch[i]] == if i == |ch| - 1 then EOC else if i < |ch| - o.nFrag then t[ch[i]] else ch[i + 1]
      {
        EdgeLinks(t, ch, o.nFrag, EOC, i);
      }
    }
  }

  /** Filling in the missing links makes the FAT spell exactly the chain. */
  lemma FilledIsChain(t: seq<nat>, o: Lazy, ch: seq<nat>)
    requires Spells(t, o, ch) && |t| <= EOC
    ensures var t' := Filled(t, o, ch[|ch| - 1]);
      SameBut(t, t', ch) && if o.stat == 2 then t' == t && RunUp(ch, 0, |ch|) else IsChain(t', ch)
  {
    var o1 := if o.stat == 3 then o.(stat := 0) else o;
    var t1 := if o.stat == 3 then FillFirst(t, o.sclust, o.nCont) else t;
    if o.stat == 3 { FirstFilled(t, o, ch); }
    LastFilled(t1, o1, ch);
  }

  /** The object goes on spelling its chain. */
  lemma FilledSpells(t: seq<nat>, o: Lazy, ch: seq<nat>)
    requires Spells(t, o, ch) && |t| <= EOC
    ensures Spells(Filled(t, o, ch[|ch| - 1]), o.(nFrag := 0, stat := if o.stat == 3 then 0 else o.stat), ch)
  {
    hide LinksOn, FillFirst, FillLast;
    var t1 := if o.stat == 3 then FillFirst(t, o.sclust, o.nCont) else t;
    if o.stat == 3 { FirstFilled(t, o, ch); }
    LastFilled(t1, if o.stat == 3 then o.(stat := 0) else o, ch);
  }

  /** A run of successful create_chain calls, each adding the next cluster of ns behind the last one. */
  ghost function GrowAll(t: seq<nat>, o: Lazy, ch: seq<nat>, ns: seq<nat>): (r: (seq<nat>, Lazy))
    requires |ch| > 0
    decreases |ns|
  {
    var last := ch[|ch| - 1];
    if ns == [] || (last < o.sclust && o.stat == 2) then (t, o)
    else GrowAll(GrownTable(t, o, last, ns[0]), Grown(o, last, ns[0]), ch + [ns[0]], ns[1..])
  }

  lemma {:induction false} GrowAllSpells(t: seq<nat>, o: Lazy, ch: seq<nat>, ns: seq<nat>)
    requires Spells(t, o, ch) && Distinct(ch + ns) && forall i :: 0 <= i < |ns| ==> 2 <= ns[i] < |t|
    ensures var (t', o') := GrowAll(t, o, ch, ns);
      Spells(t', o', ch + ns) && SameBut(t, t', ch + ns)
    decreases |ns|
  {
    if ns == [] {
      assert ch + ns == ch;
    } else {
      assert ch + ns == ch + [ns[0]] + ns[1..];
      assert (ch + ns)[|ch|] == ns[0];
      assert forall i :: 0 <= i < |ch| ==> ch[i] == (ch + ns)[i];
      GrowSpells(t, o, ch, ns[0]);
      GrowAllSpells(GrownTable(t, o, ch[|ch| - 1], ns[0]), Grown(o, ch[|ch| - 1], ns[0]), ch + [ns[0]], ns[1..]);
    }
  }

  /** Lazy links: whatever run of clusters was added, filling in the missing links afterwards makes the FAT, or plain
      contiguity, spell exactly the allocated clusters in order, and no link of another object has changed. */
  lemma LazyLinksSpell(t: seq<nat>, o: Lazy, ch: seq<nat>, ns: seq<nat>)
    requires Spells(t, o, ch) && |t| <= EOC
    requires Distinct(ch + ns) && forall i :: 0 <= i < |ns| ==> 2 <= ns[i] < |t|
    ensures var (t', o') := GrowAll(t, o, ch, ns);
      var all := ch + ns;
      var filled := Filled(t', o', all[|all| - 1]);
      SameBut(t, filled, all) && if o'.stat == 2 then RunUp(all, 0, |all|) else IsChain(filled, all)
  {
    GrowAllSpells(t, o, ch, ns);
    var (t', o') := GrowAll(t, o, ch, ns);
    FilledIsChain(t', o', ch + ns);
  }

  /** FFOBJID: a file or directory as the allocation functions see it. */
  class FfObj {
    var sclust: nat   // first cluster, 0 when there is none
    var objsize: nat  // size in bytes
    var stat: nat
    var nCont: nat
    var nFrag: nat

    function State(): Lazy
      reads this`sclust, this`stat, this`nCont, this`nFrag
    {
      Lazy(sclust, stat, nCont, nFrag)
    }
  }

  /** Offset of the object's last cluster from its first, as get_fat computes it. */
  function LastOfs(objsize: nat, csize: nat): nat
    requires csize > 0
  {
    if objsize == 0 then 0 else (objsize - 1) / SS / csize % 0x1_0000_0000
  }

  /** get_fat's answer on an exFAT volume, from the object's fields and the FAT t. */
  function ExLink(t: seq<nat>, o: Lazy, objsize: nat, csize: nat, clst: nat): nat
    requires csize > 0 && clst < 0x1_0000_0000 && o.sclust < 0x1_0000_0000
  {
    if clst < 2 || clst >= |t| then 1
    else if (objsize != 0 && o.sclust != 0) || o.stat == 0 then
      var cofs := (clst - o.sclust + 0x1_0000_0000) % 0x1_0000_0000;
      var clen := LastOfs(objsize, csize);
      if o.stat == 2 && cofs <= clen then if cofs == clen then EOC else clst + 1
      else if o.stat == 3 && cofs < o.nCont then clst + 1
      else if o.stat != 2 then if o.nFrag != 0 then EOC else t[clst]
      else 1
    else 1
  }

  /** objsize is kept up to date: it says how many clusters the chain has. */
  ghost predicate SizeRight(o: Lazy, objsize: nat, csize: nat, n: nat) {
    csize > 0 && (o.stat != 0 ==> objsize > 0) && (o.stat == 2 ==> LastOfs(objsize, csize) == n - 1)
  }

  /** What get_fat answers inside the chain, by position. */
  lemma ExLinkAt(t: seq<nat>, o: Lazy, ch: seq<nat>, objsize: nat, csize: nat, i: nat)
    requires Spells(t, o, ch) && SizeRight(o, objsize, csize, |ch|) && i < |ch| && |t| <= EOC
    ensures ExLink(t, o, objsize, csize, ch[i]) ==
      if o.stat == 2 then if i == |ch| - 1 then EOC else ch[i] + 1
      else if o.stat == 3 && i < o.nCont then ch[i] + 1
      else if o.nFrag != 0 then EOC else t[ch[i]]
  {
    hide LastOfs;
    var c := ch[i];
    if o.stat == 2 {
      assert c == o.sclust + i;
    } else if o.stat == 3 {
      assert ch[o.nCont] == ch[0] + o.nCont;
      if i < o.nCont {
        assert c == o.sclust + i;
      } else {
        AfterRun(ch, o.nCont, i);
      }
    }
  }

  /** get_fat tells the next cluster of the chain from position i, or its end, exactly in a contiguous object, inside
      the first fragment, at the last cluster, and everywhere once no links are missing at the growing edge. */
  lemma ExLinkFollows(t: seq<nat>, o: Lazy, ch: seq<nat>, objsize: nat, csize: nat, i: nat)
    requires Spells(t, o, ch) && SizeRight(o, objsize, csize, |ch|) && i < |ch| && |t| <= EOC
    ensures var next := ExLink(t, o, objsize, csize, ch[i]);
      (if i == |ch| - 1 then next >= |t| else next == ch[i + 1])
      <==> o.stat == 2 || (o.stat == 3 && i < o.nCont) || o.nFrag == 0 || i == |ch| - 1
  {
    hide ExLink, LastOfs;
    ExLinkAt(t, o, ch, objsize, csize, i);
    if i < |ch| - 1 {
      if o.stat == 2 || (o.stat == 3 && i < o.nCont) {
        assert ch[i] == ch[0] + i && ch[i + 1] == ch[0] + (i + 1);
      } else if o.nFrag == 0 {
        assert t[ch[i]] == ch[i + 1];
      }
    }
  }

  /** get_fat on an exFAT volume */
  method GetFat(fs: FatFs, obj: FfObj, clst: nat) returns (val: nat)
    requires fs.Valid() && fs.Coherent() && fs.g.csize > 0 && clst < 0x1_0000_0000 && obj.sclust < 0x1_0000_0000
    modifies fs`winsect, fs`wflag, fs`copyLost, fs.win, fs.drive
    ensures fs.Valid() && fs.Coherent() && fs.View() == old(fs.View()) && (old(fs.Mirrored()) ==> fs.Mirrored())
    ensures val == ExLink(Table(fs), obj.State(), obj.objsize, fs.g.csize, clst) || val == DISK_ERROR
    ensures fs.drive.reliable && fs.g.fsType.EXFAT? ==>
      val == ExLink(Table(fs), obj.State(), obj.objsize, fs.g.csize, clst) < DISK_ERROR
  {
    hide Image, CopyAgrees, Link;
    EocIsEnd(fs.g);
    if clst < 2 || clst >= fs.g.nFatent { return 1; }
    if (obj.objsize != 0 && obj.sclust != 0) || obj.stat == 0 {
      var cofs := (clst - obj.sclust + 0x1_0000_0000) % 0x1_0000_0000;
      var clen := LastOfs(obj.objsize, fs.g.csize);
      if obj.stat == 2 && cofs <= clen { return if cofs == clen then EOC else clst + 1; }
      if obj.stat == 3 && cofs < obj.nCont { return clst + 1; }
      if obj.stat != 2 {
        if obj.nFrag != 0 { return EOC; }
        var ok;
        ok, val := LoadFat(fs, clst);
        LinkBound(fs.g, fs.View(), clst);
        if !ok { val := DISK_ERROR; }
        return;
      }
    }
    return 1;
  }

  /** The bitmap does not depend on the FAT. */
  lemma FatKeepsBitmap(g: Geometry, v: seq<byte>, v': seq<byte>, base: nat)
    requires HasBitmap(g, v, base) && SameOutside(v, v', SS * g.fatbase, SS * g.fsize)
    ensures HasBitmap(g, v', base) && Used(g, v', base) == Used(g, v, base)
  {
    forall j | 0 <= j < g.nFatent - 2 ensures UsedAt(g, v', base, j) == UsedAt(g, v, base, j) {
      assert SS * base + j / 8 >= SS * (g.fatbase + g.fsize);
    }
  }

  /** put_fat of a link or of the end mark */
  method SetLink(fs: FatFs, clst: nat, val: nat) returns (res: FRESULT)
    requires fs.Valid() && fs.Coherent() && fs.g.fsType.EXFAT? && 2 <= clst < fs.g.nFatent
    requires val < fs.g.nFatent || val == DISK_ERROR
    modifies fs`winsect, fs`wflag, fs`copyLost, fs.win, fs.drive
    ensures fs.Valid() && fs.Coherent() && (old(fs.Mirrored()) ==> fs.Mirrored())
    ensures res == FR_OK || (res == FR_DISK_ERR && !fs.drive.reliable)
    ensures res == FR_OK ==> Table(fs) == old(Table(fs))[clst := if val == DISK_ERROR then EOC else val]
    ensures res == FR_OK ==> SameOutside(old(fs.View()), fs.View(), SS * fs.g.fatbase, SS * fs.g.fsize)
  {
    hide Image, CopyAgrees, Links, Stored;
    EocIsEnd(fs.g);
    StoredTable(fs.g, fs.View(), clst, val);
    res := PutFat(fs, clst, val);
  }

  /** fill_first_frag */
  method FillFirstFrag(fs: FatFs, obj: FfObj) returns (res: FRESULT)
    requires fs.Valid() && fs.Coherent() && fs.g.fsType.EXFAT?
    requires obj.stat == 3 ==> 2 <= obj.sclust && obj.sclust + obj.nCont < fs.g.nFatent
    modifies fs`winsect, fs`wflag, fs`copyLost, fs.win, fs.drive, obj`stat
    ensures fs.Valid() && fs.Coherent() && (old(fs.Mirrored()) ==> fs.Mirrored())
    ensures res == FR_OK || (res == FR_DISK_ERR && !fs.drive.reliable)
    ensures res == FR_OK ==> obj.stat == if old(obj.stat) == 3 then 0 else old(obj.stat)
    ensures res == FR_OK ==>
      Table(fs) == if old(obj.stat) == 3 then FillFirst(old(Table(fs)), obj.sclust, obj.nCont) else old(Table(fs))
    ensures res == FR_OK ==> SameOutside(old(fs.View()), fs.View(), SS * fs.g.fatbase, SS * fs.g.fsize)
  {
    hide Image, CopyAgrees, Links;
    ghost var t := Table(fs);
    if obj.stat == 3 {
      var cl, n := obj.sclust, obj.nCont;
      while n > 0
        invariant fs.Valid() && fs.Coherent() && (old(fs.Mirrored()) ==> fs.Mirrored())
        invariant 0 <= n <= obj.nCont && cl == obj.sclust + obj.nCont - n
        invariant Table(fs) == FillFirst(t, obj.sclust, obj.nCont - n)
        invariant SameOutside(old(fs.View()), fs.View(), SS * fs.g.fatbase, SS * fs.g.fsize)
      {
        res := SetLink(fs, cl, cl + 1);
        if res != FR_OK { return; }
        cl, n := cl + 1, n - 1;
      }
      obj.stat := 0;
    }
    res := FR_OK;
  }

  /** fill_last_frag */
  method FillLastFrag(fs: FatFs, obj: FfObj, lcl: nat, term: nat) returns (res: FRESULT)
    requires fs.Valid() && fs.Coherent() && fs.g.fsType.EXFAT?
    requires term < fs.g.nFatent || term == DISK_ERROR
    requires obj.nFrag < lcl < fs.g.nFatent
    modifies fs`winsect, fs`wflag, fs`copyLost, fs.win, fs.drive, obj`nFrag
    ensures fs.Valid() && fs.Coherent() && (old(fs.Mirrored()) ==> fs.Mirrored())
    ensures res == FR_OK || (res == FR_DISK_ERR && !fs.drive.reliable)
    ensures res == FR_OK ==> obj.nFrag == 0
    ensures res == FR_OK ==>
      Table(fs) == FillLast(old(Table(fs)), lcl, old(obj.nFrag), if term == DISK_ERROR then EOC else term)
    ensures res == FR_OK ==> SameOutside(old(fs.View()), fs.View(), SS * fs.g.fatbase, SS * fs.g.fsize)
  {
    hide Image, CopyAgrees, Links;
    ghost var t, all := Table(fs), obj.nFrag;
    ghost var mark := if term == DISK_ERROR then EOC else term;
    while obj.nFrag > 0
      invariant fs.Valid() && fs.Coherent() && (old(fs.Mirrored()) ==> fs.Mirrored())
      invariant obj.nFrag <= all
      invariant Table(fs) ==
        if obj.nFrag > 0 then FillFirst(t, lcl - all + 1, all - obj.nFrag) else FillLast(t, lcl, all, mark)
      invariant SameOutside(old(fs.View()), fs.View(), SS * fs.g.fatbase, SS * fs.g.fsize)
    {
      res := SetLink(fs, lcl - obj.nFrag + 1, if obj.nFrag > 1 then lcl - obj.nFrag + 2 else term);
      if res != FR_OK { return; }
      obj.nFrag := obj.nFrag - 1;
    }
    res := FR_OK;
  }

  /** Filling in both fragments, as closing the file does: the FAT then spells the chain. */
  method FillBoth(fs: FatFs, obj: FfObj, lcl: nat, ghost ch: seq<nat>) returns (res: FRESULT)
    requires fs.Valid() && fs.Coherent() && fs.g.fsType.EXFAT?
    requires Spells(Table(fs), obj.State(), ch) && lcl == ch[|ch| - 1]
    modifies fs`winsect, fs`wflag, fs`copyLost, fs.win, fs.drive, obj`stat, obj`nFrag
    ensures fs.Valid() && fs.Coherent() && (old(fs.Mirrored()) ==> fs.Mirrored())
    ensures res == FR_OK || (res == FR_DISK_ERR && !fs.drive.reliable)
    ensures res == FR_OK ==> SameBut(old(Table(fs)), Table(fs), ch)
    ensures res == FR_OK && old(obj.stat) == 2 ==> Table(fs) == old(Table(fs)) && RunUp(ch, 0, |ch|)
    ensures res == FR_OK && old(obj.stat) != 2 ==> IsChain(Table(fs), ch)
    ensures res == FR_OK ==> obj.nFrag == 0 && obj.stat == (if old(obj.stat) == 2 then 2 else 0)
    ensures res == FR_OK ==> SameOutside(old(fs.View()), fs.View(), SS * fs.g.fatbase, SS * fs.g.fsize)
    ensures res == FR_OK ==> Spells(Table(fs), obj.State(), ch)
  {
    hide Image, CopyAgrees, Links, RunUp, LinksOn, FillFirst, FillLast;
    FilledIsChain(Table(fs), obj.State(), ch);
    FilledSpells(Table(fs), obj.State(), ch);
    FragmentsFit(Table(fs), obj.State(), ch);
    res := FillFirstFrag(fs, obj);
    if res == FR_OK { res := FillLastFrag(fs, obj, lcl, DISK_ERROR); }
  }

  lemma FragmentsFit(t: seq<nat>, o: Lazy, ch: seq<nat>)
    requires Spells(t, o, ch)
    ensures o.nFrag < ch[|ch| - 1] < |t|
    ensures o.stat == 3 ==> o.sclust + o.nCont < |t|
  {
    if o.stat == 3 { assert ch[o.nCont] == ch[0] + o.nCont; }
    if o.nFrag > 0 { assert ch[|ch| - 1] == ch[|ch| - o.nFrag] + (o.nFrag - 1); }
  }

  /** Every cluster of the chain is in use. */
  ghost predicate AllUsed(u: seq<bool>, ch: seq<nat>) {
    forall i :: 0 <= i < |ch| ==> 2 <= ch[i] < |u| + 2 && u[ch[i] - 2]
  }

  /** The bit at which a search for a free cluster from scl on starts. */
  function StartBit(scl: nat, nFatent: nat): nat { if 2 <= scl < nFatent then scl - 2 else 0 }

  /** Where create_chain's search starts: at the cluster to stretch, else at the last allocated one. */
  function SearchFrom(clst: nat, last: nat, nFatent: nat): nat {
    if clst != 0 then clst else if 0 < last < nFatent then last else 1
  }

  /** Find a free cluster, the first one from scl on, and mark it in use. */
  method TakeCluster(fs: FatFs, scl: nat) returns (ncl: nat)
    requires fs.Valid() && fs.Coherent() && HasBitmap(fs.g, fs.View(), fs.bitbase) && scl < 0x1_0000_0000
    modifies fs`winsect, fs`wflag, fs`copyLost, fs.win, fs.drive
    ensures fs.Valid() && fs.Coherent() && (old(fs.Mirrored()) ==> fs.Mirrored())
    ensures HasBitmap(fs.g, fs.View(), fs.bitbase) && Table(fs) == old(Table(fs))
    ensures ncl == 0 || ncl == DISK_ERROR || 2 <= ncl < fs.g.nFatent
    ensures var u := old(Used(fs.g, fs.View(), fs.bitbase));
      && (ncl == 0 ==> fs.View() == old(fs.View()) && forall j :: 0 <= j < |u| ==> u[j])
      && (2 <= ncl < fs.g.nFatent ==> !u[ncl - 2] && Used(fs.g, fs.View(), fs.bitbase) == u[ncl - 2 := true])
      && (2 <= ncl < fs.g.nFatent ==> FirstRun(u, StartBit(scl, fs.g.nFatent), ncl - 2, 1))
    ensures fs.drive.reliable ==> ncl != DISK_ERROR
  {
    hide Image, CopyAgrees, Links, UsedAt, HasBitmap, SameOutside, NoRun;
    EocIsEnd(fs.g);
    ghost var u := Used(fs.g, fs.View(), fs.bitbase);
    NoRunOfOne(u, StartBit(scl, fs.g.nFatent));
    ncl := FindBitmap(fs, scl, 1);
    if ncl == 0 || ncl == DISK_ERROR { return; }
    assert !u[Cyc(ncl - 2, 0, |u|)];
    var res, k := ChangeBitmap(fs, ncl, 1, true);
    var failed: nat := if res == FR_DISK_ERR then DISK_ERROR else 1;
    if res != FR_OK { ncl := failed; }
  }

  /** The part of create_chain that notes a new cluster in the object: it is behind clst, or the first one. */
  method NoteCluster(fs: FatFs, obj: FfObj, clst: nat, ncl: nat) returns (res: FRESULT)
    requires fs.Valid() && fs.Coherent() && fs.g.fsType.EXFAT? && 2 <= ncl < fs.g.nFatent
    requires clst != 0 ==> obj.nFrag < clst < fs.g.nFatent && 2 <= clst && (obj.stat == 2 ==> obj.sclust <= clst)
    modifies fs`winsect, fs`wflag, fs`copyLost, fs.win, fs.drive, obj`stat, obj`nCont, obj`nFrag
    ensures fs.Valid() && fs.Coherent() && (old(fs.Mirrored()) ==> fs.Mirrored())
    ensures res == FR_OK || (res == FR_DISK_ERR && !fs.drive.reliable)
    ensures clst == 0 ==> res == FR_OK && obj.State() == old(obj.State()).(stat := 2) && fs.View() == old(fs.View())
    ensures clst != 0 && res == FR_OK ==> obj.State() == Grown(old(obj.State()), clst, ncl)
    ensures clst != 0 && res == FR_OK ==> Table(fs) == GrownTable(old(Table(fs)), old(obj.State()), clst, ncl)
    ensures res == FR_OK ==> SameOutside(old(fs.View()), fs.View(), SS * fs.g.fatbase, SS * fs.g.fsize)
  {
    hide Image, CopyAgrees, Links, FillLast;
    res := FR_OK;
    if clst == 0 {
      obj.stat := 2;
    } else if obj.stat == 2 && ncl != clst + 1 {
      obj.nCont := clst - obj.sclust;
      obj.stat := 3;
    }
    if obj.stat != 2 {
      if ncl == clst + 1 {
        obj.nFrag := if obj.nFrag != 0 then obj.nFrag + 1 else 2;
      } else {
        if obj.nFrag == 0 { obj.nFrag := 1; }
        res := FillLastFrag(fs, obj, clst, ncl);
        if res == FR_OK { obj.nFrag := 1; }
      }
    }
  }

  /** Position i of the object's chain, which get_fat can look behind. */
  ghost predicate Place(t: seq<nat>, o: Lazy, objsize: nat, csize: nat, ch: seq<nat>, i: nat) {
    && Spells(t, o, ch) && SizeRight(o, objsize, csize, |ch|) && i < |ch|
    && (o.stat == 2 || (o.stat == 3 && i < o.nCont) || o.nFrag == 0 || i == |ch| - 1)
  }

  ghost predicate AllBits(u: seq<bool>) { forall j :: 0 <= j < |u| ==> u[j] }

  /** What create_chain needs to know of the chain before it takes a cluster. */
  lemma BehindLast(t: seq<nat>, o: Lazy, ch: seq<nat>, objsize: nat, csize: nat, i: nat)
    requires Place(t, o, objsize, csize, ch, i) && |t| <= EOC
    ensures csize > 0 && 2 <= ch[i] < |t| && o.sclust < |t| && o.nFrag < ch[|ch| - 1]
    ensures var next := ExLink(t, o, objsize, csize, ch[i]);
      if i == |ch| - 1 then |t| <= next else next == ch[i + 1] && 2 <= next < |t|
    ensures o.stat == 2 ==> o.sclust <= ch[|ch| - 1]
  {
    ExLinkFollows(t, o, ch, objsize, csize, i);
    FragmentsFit(t, o, ch);
  }

  /** What a successful create_chain does on an exFAT volume, from the bits u and links t before to u' and t' after:
      one formerly free cluster is in use, and the object with the FAT spells the chain with it, or the new chain. */
  ghost predicate Extended(u: seq<bool>, u': seq<bool>, t: seq<nat>, t': seq<nat>, o: Lazy, o': Lazy,
                           clst: nat, ch: seq<nat>, ncl: nat) {
    && 2 <= ncl < |u| + 2 && !u[ncl - 2] && u' == u[ncl - 2 := true]
    && (clst == 0 ==> t' == t && o' == o.(stat := 2))
    && (clst != 0 ==> |ch| > 0 && clst == ch[|ch| - 1] && (o.sclust <= clst || o.stat != 2))
    && (clst != 0 ==> t' == GrownTable(t, o, clst, ncl) && o' == Grown(o, clst, ncl))
    && (clst != 0 ==> ncl !in ch && Spells(t', o', ch + [ncl]) && SameBut(t, t', ch))
  }

  /** It takes one from the number of clear bits. */
  lemma ExtendedCount(u: seq<bool>, u': seq<bool>, t: seq<nat>, t': seq<nat>, o: Lazy, o': Lazy,
                      clst: nat, ch: seq<nat>, ncl: nat)
    requires Extended(u, u', t, t', o, o', clst, ch, ncl)
    ensures |u'| == |u| && ClearBits(u) == ClearBits(u') + 1
  {
    ClearUpdate(u, ncl - 2, true, |u|);
  }

  /** The part of create_chain that takes a free cluster, the first one from scl on, and notes it in the object. */
  method ClaimCluster(fs: FatFs, obj: FfObj, clst: nat, scl: nat, ghost ch: seq<nat>) returns (ncl: nat)
    requires fs.Valid() && fs.Coherent() && fs.g.fsType.EXFAT? && HasBitmap(fs.g, fs.View(), fs.bitbase)
    requires clst != 0 ==> Spells(Table(fs), obj.State(), ch) && clst == ch[|ch| - 1]
    requires clst != 0 ==> AllUsed(Used(fs.g, fs.View(), fs.bitbase), ch)
    requires scl < 0x1_0000_0000
    modifies fs`winsect, fs`wflag, fs`copyLost, fs.win, fs.drive, obj`stat, obj`nCont, obj`nFrag
    ensures fs.Valid() && fs.Coherent() && (old(fs.Mirrored()) ==> fs.Mirrored())
    ensures ncl == 0 || ncl == DISK_ERROR || 2 <= ncl < fs.g.nFatent
    ensures fs.drive.reliable ==> ncl != DISK_ERROR
    ensures 2 <= ncl < fs.g.nFatent ==>
      FirstRun(old(Used(fs.g, fs.View(), fs.bitbase)), StartBit(scl, fs.g.nFatent), ncl - 2, 1)
    ensures ncl == 0 ==> fs.View() == old(fs.View()) && obj.State() == old(obj.State())
    ensures ncl != DISK_ERROR ==> (ncl == 0 <==> AllBits(old(Used(fs.g, fs.View(), fs.bitbase))))
    ensures 2 <= ncl < fs.g.nFatent ==> HasBitmap(fs.g, fs.View(), fs.bitbase)
    ensures 2 <= ncl < fs.g.nFatent ==>
      Extended(old(Used(fs.g, fs.View(), fs.bitbase)), Used(fs.g, fs.View(), fs.bitbase), old(Table(fs)), Table(fs),
        old(obj.State()), obj.State(), clst, ch, ncl)
  {
    hide Image, CopyAgrees, Links, LinksOn, Grown, GrownTable, HasBitmap, Used, SameBut, FirstRun;
    EocIsEnd(fs.g);
    if clst != 0 { FragmentsFit(Table(fs), obj.State(), ch); }
    ncl := TakeCluster(fs, scl);
    if ncl == 0 || ncl == DISK_ERROR { return; }
    ghost var v := fs.View();
    if clst != 0 { GrowSpells(Table(fs), obj.State(), ch, ncl); }
    var res := NoteCluster(fs, obj, clst, ncl);
    if res == FR_OK {
      FatKeepsBitmap(fs.g, v, fs.View(), fs.bitbase);
    } else {
      ncl := DISK_ERROR;
    }
  }

  /** create_chain on an exFAT volume, for a new chain (clst is 0) or behind position i of the chain ch, where get_fat
      tells what follows. */
  method CreateChain(fs: FatFs, obj: FfObj, clst: nat, ghost ch: seq<nat>, ghost i: nat) returns (ncl: nat)
    requires fs.Valid() && fs.Coherent() && fs.g.fsType.EXFAT? && HasBitmap(fs.g, fs.View(), fs.bitbase)
    requires clst != 0 ==> Place(Table(fs), obj.State(), obj.objsize, fs.g.csize, ch, i) && clst == ch[i]
    requires clst != 0 ==> AllUsed(Used(fs.g, fs.View(), fs.bitbase), ch)
    modifies fs, fs.win, fs.drive, obj`stat, obj`nCont, obj`nFrag
    ensures fs.Valid() && fs.Coherent() && (old(fs.Mirrored()) ==> fs.Mirrored())
    ensures ncl == 0 || ncl == DISK_ERROR || 2 <= ncl < fs.g.nFatent
    // the chain goes on behind clst
    ensures clst != 0 && i < |ch| - 1 ==> fs.View() == old(fs.View()) && obj.State() == old(obj.State())
    ensures clst != 0 && i < |ch| - 1 ==> fs.freeClst == old(fs.freeClst) && (ncl == ch[i + 1] || ncl == DISK_ERROR)
    ensures fs.drive.reliable ==> ncl != DISK_ERROR
    // nothing was free
    ensures ncl == 0 ==>
      fs.View() == old(fs.View()) && obj.State() == old(obj.State()) && fs.freeClst == old(fs.freeClst)
    ensures (clst == 0 || i == |ch| - 1) && ncl != DISK_ERROR ==>
      (ncl == 0 <==> old(fs.freeClst) == 0 || AllBits(old(Used(fs.g, fs.View(), fs.bitbase))))
    // one formerly free cluster was taken
    ensures (clst == 0 || i == |ch| - 1) && 2 <= ncl < fs.g.nFatent ==> HasBitmap(fs.g, fs.View(), fs.bitbase)
    ensures (clst == 0 || i == |ch| - 1) && 2 <= ncl < fs.g.nFatent ==>
      Extended(old(Used(fs.g, fs.View(), fs.bitbase)), Used(fs.g, fs.View(), fs.bitbase), old(Table(fs)), Table(fs),
        old(obj.State()), obj.State(), clst, ch, ncl)
    ensures (clst == 0 || i == |ch| - 1) && 2 <= ncl < fs.g.nFatent ==>
      FirstRun(old(Used(fs.g, fs.View(), fs.bitbase)),
        StartBit(SearchFrom(clst, old(fs.lastClst), fs.g.nFatent), fs.g.nFatent), ncl - 2, 1)
    ensures (clst == 0 || i == |ch| - 1) && 2 <= ncl < fs.g.nFatent ==> fs.lastClst == ncl
    ensures (clst == 0 || i == |ch| - 1) && 2 <= ncl < fs.g.nFatent ==>
      fs.freeClst == if old(fs.freeClst) <= fs.g.nFatent - 2 then old(fs.freeClst) - 1 else old(fs.freeClst)
    // the count stays right
    ensures old(BitsCounted(fs)) && ncl != DISK_ERROR ==> HasBitmap(fs.g, fs.View(), fs.bitbase) && BitsCounted(fs)
  {
    hide Image, CopyAgrees, Links, Spells, HasBitmap, Used, ExLink, SizeRight, Extended, AllBits, AllUsed, FirstRun;
    hide FatFs.Mirrored, FatFs.Coherent, Geometry.Valid;
    EocIsEnd(fs.g);
    ghost var u, t, o := Used(fs.g, fs.View(), fs.bitbase), Table(fs), obj.State();
    var scl := clst;
    if clst == 0 {
      scl := fs.lastClst;
      if scl == 0 || scl >= fs.g.nFatent { scl := 1; }
    } else {
      BehindLast(Table(fs), obj.State(), ch, obj.objsize, fs.g.csize, i);
      var cs := GetFat(fs, obj, clst);
      ncl := 1;
      if cs < 2 { return; }
      if cs == DISK_ERROR { return cs; }
      if cs < fs.g.nFatent { return cs; }
    }
    if fs.freeClst == 0 { return 0; }
    ncl := ClaimCluster(fs, obj, clst, scl, ch);
    if ncl == 0 || ncl == DISK_ERROR { return; }
    ExtendedCount(u, Used(fs.g, fs.View(), fs.bitbase), t, Table(fs), o, obj.State(), clst, ch, ncl);
    fs.lastClst := ncl;
    if fs.freeClst <= fs.g.nFatent - 2 { fs.freeClst := fs.freeClst - 1; }
    fs.fsiFlag := true;
  }
}
