/** The data area of a volume: clusters, and files as the concatenation of the clusters of a chain. */
module FileData {
  import opened Bits
  import opened Storage
  import opened Volume
  import opened FatTable
  import opened Chains

  /** clst2sect: first sector of a cluster, 0 for an invalid cluster number. */
  function Clst2Sect(g: Geometry, clst: nat): nat {
    if clst < 2 || clst >= g.nFatent then 0 else g.database + g.csize * (clst - 2)
  }

  /** v holds the whole data area. */
  ghost predicate Sized(g: Geometry, v: seq<byte>) {
    Holds(g, v) && g.DataFits(|v| / SS) && |v| % SS == 0
  }

  lemma Positive(g: Geometry, v: seq<byte>)
    requires Sized(g, v)
    ensures g.csize > 0 && IsPow2(g.csize)
  {
  }

  function ClusterAddr(g: Geometry, c: nat): nat { SS * Clst2Sect(g, c) }

  /** Clusters lie in the data area. */
  lemma ClusterBounds(g: Geometry, v: seq<byte>, c: nat)
    requires Sized(g, v) && 2 <= c < g.nFatent
    ensures SS * g.database <= ClusterAddr(g, c) && ClusterAddr(g, c) + g.ClusterBytes() <= |v|
  {
    hide Geometry.FatBytes, Geometry.MaxClusters, IsPow2;
    MulMono(c - 1, g.nFatent - 2, g.csize);
    assert g.csize * (c - 2) + g.csize == (c - 1) * g.csize;
    assert (g.nFatent - 2) * g.csize == g.csize * (g.nFatent - 2);
  }

  /** Clusters lie one after the other. */
  lemma ClusterOrder(g: Geometry, c: nat, c': nat)
    requires 2 <= c < c' < g.nFatent
    ensures ClusterAddr(g, c) + g.ClusterBytes() <= ClusterAddr(g, c')
  {
    MulMono(c - 1, c' - 2, g.csize);
    assert g.csize * (c - 2) + g.csize == (c - 1) * g.csize;
    assert (c' - 2) * g.csize == g.csize * (c' - 2);
  }

  ghost predicate InRange(g: Geometry, ch: seq<nat>) {
    forall i :: 0 <= i < |ch| ==> 2 <= ch[i] < g.nFatent
  }

  /** The bytes of cluster c. */
  ghost function Cluster(g: Geometry, v: seq<byte>, c: nat): (s: seq<byte>)
    requires Sized(g, v) && 2 <= c < g.nFatent
    ensures |s| == g.ClusterBytes()
  {
    ClusterBounds(g, v, c);
    v[ClusterAddr(g, c)..ClusterAddr(g, c) + g.ClusterBytes()]
  }

  /** File offset at which the cluster with index q in its chain begins. */
  function Ofs(g: Geometry, q: nat): nat { q * g.ClusterBytes() }

  lemma OfsStep(g: Geometry, q: nat)
    ensures Ofs(g, q + 1) == Ofs(g, q) + g.ClusterBytes() && Ofs(g, 0) == 0
  {
  }

  lemma OfsMono(g: Geometry, p: nat, q: nat)
    requires p <= q
    ensures Ofs(g, p) <= Ofs(g, q)
  {
    MulMono(p, q, g.ClusterBytes());
  }

  /** A file offset determines the index of its cluster. */
  lemma OfsIndex(g: Geometry, p: nat, q: nat, o: nat)
    requires Ofs(g, p) <= o < Ofs(g, q)
    ensures p < q
  {
    if q <= p { OfsMono(g, q, p); }
  }

  /** All bytes of the clusters of chain ch, in order. */
  ghost function Data(g: Geometry, v: seq<byte>, ch: seq<nat>): (s: seq<byte>)
    requires Sized(g, v) && InRange(g, ch)
    ensures |s| == Ofs(g, |ch|)
  {
    if ch == [] then []
    else
      OfsStep(g, |ch| - 1);
      Data(g, v, ch[..|ch| - 1]) + Cluster(g, v, ch[|ch| - 1])
  }

  /** The cluster with index q occupies its slice of the data. */
  lemma {:induction false} DataAt(g: Geometry, v: seq<byte>, ch: seq<nat>, q: nat)
    requires Sized(g, v) && InRange(g, ch) && q < |ch|
    ensures Ofs(g, q) + g.ClusterBytes() <= |Data(g, v, ch)|
    ensures Data(g, v, ch)[Ofs(g, q)..Ofs(g, q) + g.ClusterBytes()] == Cluster(g, v, ch[q])
    decreases |ch|
  {
    hide Ofs, Cluster, Sized, Geometry.ClusterBytes;
    OfsStep(g, q);
    OfsMono(g, q + 1, |ch|);
    var rest := ch[..|ch| - 1];
    OfsStep(g, |rest|);
    if q < |rest| {
      DataAt(g, v, rest, q);
      PrefixSlice(Data(g, v, rest), Cluster(g, v, ch[|rest|]), Ofs(g, q), Ofs(g, q) + g.ClusterBytes());
    }
  }

  lemma PrefixSlice(d: seq<byte>, e: seq<byte>, a: nat, b: nat)
    requires a <= b <= |d|
    ensures (d + e)[a..b] == d[a..b]
  {
  }

  /** Where byte r of the cluster with index q is on the volume. */
  lemma DataByte(g: Geometry, v: seq<byte>, ch: seq<nat>, q: nat, r: nat, k: nat, a: nat)
    requires Sized(g, v) && InRange(g, ch) && q < |ch| && r < 512 * g.csize
    requires k == 512 * g.csize * q + r && a == 512 * (g.database + g.csize * (ch[q] - 2)) + r
    ensures a < |v| && k < |Data(g, v, ch)| && Data(g, v, ch)[k] == v[a]
  {
    hide Data, Links, Geometry.DataFits;
    DataAt(g, v, ch, q);
    ClusterBounds(g, v, ch[q]);
    var d, o, n := Data(g, v, ch), Ofs(g, q), g.ClusterBytes();
    assert o == 512 * g.csize * q;
    assert d[o..o + n][r] == d[o + r];
    assert Cluster(g, v, ch[q])[r] == v[ClusterAddr(g, ch[q]) + r];
  }

  /** A chain's data depends on its clusters only. */
  lemma {:induction false} SameData(g: Geometry, v: seq<byte>, v': seq<byte>, ch: seq<nat>)
    requires Sized(g, v) && |v'| == |v| && InRange(g, ch)
    requires forall c :: c in ch ==> Cluster(g, v', c) == Cluster(g, v, c)
    ensures Data(g, v', ch) == Data(g, v, ch)
    decreases |ch|
  {
    hide Cluster;
    if ch != [] {
      SameData(g, v, v', ch[..|ch| - 1]);
    }
  }

  /** Storing w at offset r of the cluster with index q changes the data of the chain there. */
  lemma {:induction false} DataSplice(g: Geometry, v: seq<byte>, v': seq<byte>, ch: seq<nat>, q: nat, r: nat,
                                      w: seq<byte>)
    requires Sized(g, v) && |v'| == |v| && InRange(g, ch) && q < |ch| && Distinct(ch) && r + |w| <= g.ClusterBytes()
    requires Cluster(g, v', ch[q]) == Splice(Cluster(g, v, ch[q]), r, w)
    requires forall c :: c in ch && c != ch[q] ==> Cluster(g, v', c) == Cluster(g, v, c)
    ensures Ofs(g, q) + r + |w| <= |Data(g, v, ch)|
    ensures Data(g, v', ch) == Splice(Data(g, v, ch), Ofs(g, q) + r, w)
    decreases |ch|
  {
    hide Ofs, Cluster, Splice;
    OfsStep(g, q);
    OfsMono(g, q + 1, |ch|);
    var rest := ch[..|ch| - 1];
    OfsStep(g, |rest|);
    if q < |rest| {
      DataSplice(g, v, v', rest, q, r, w);
      SpliceLeft(Data(g, v, rest), Cluster(g, v, ch[|rest|]), Ofs(g, q) + r, w);
    } else {
      SameData(g, v, v', rest);
      SpliceRight(Data(g, v, rest), Cluster(g, v, ch[q]), r, w);
    }
  }

  lemma SpliceLeft(a: seq<byte>, b: seq<byte>, at: nat, w: seq<byte>)
    requires at + |w| <= |a|
    ensures Splice(a + b, at, w) == Splice(a, at, w) + b
  {
  }

  lemma SpliceRight(a: seq<byte>, b: seq<byte>, at: nat, w: seq<byte>)
    requires at + |w| <= |b|
    ensures Splice(a + b, |a| + at, w) == a + Splice(b, at, w)
  {
  }

  /** What changing the volume from v to v' leaves alone: links and data of clusters outside ch, and every byte
      before the data area that is not in the first FAT. */
  ghost predicate Untouched(g: Geometry, v: seq<byte>, v': seq<byte>, ch: seq<nat>)
    requires Sized(g, v)
  {
    && |v'| == |v|
    && (forall c {:trigger Links(g, v')[c]} :: 2 <= c < g.nFatent && c !in ch ==> Links(g, v')[c] == Links(g, v)[c])
    && (forall c {:trigger Cluster(g, v', c)} :: 2 <= c < g.nFatent && c !in ch ==>
          Cluster(g, v', c) == Cluster(g, v, c))
    && (forall a {:trigger v'[a]} :: 0 <= a < SS * g.database && !g.FatByte(a) ==> v'[a] == v[a])
  }

  lemma UntouchedTrans(g: Geometry, v: seq<byte>, v1: seq<byte>, v2: seq<byte>, ch1: seq<nat>, ch2: seq<nat>)
    requires Sized(g, v) && Untouched(g, v, v1, ch1) && Untouched(g, v1, v2, ch2)
    requires forall c :: c in ch1 ==> c in ch2
    ensures Untouched(g, v, v2, ch2)
  {
    hide Links, Cluster;
    forall c | 2 <= c < g.nFatent && c !in ch2 ensures Links(g, v2)[c] == Links(g, v)[c] {
      assert Links(g, v1)[c] == Links(g, v)[c];
    }
    forall c | 2 <= c < g.nFatent && c !in ch2 ensures Cluster(g, v2, c) == Cluster(g, v, c) {
      assert Cluster(g, v1, c) == Cluster(g, v, c);
    }
    forall a | 0 <= a < SS * g.database && !g.FatByte(a) ensures v2[a] == v[a] {
      assert v1[a] == v[a];
    }
  }

  /** Changing bytes of the first FAT leaves the data of every cluster. */
  lemma FatChangeKeepsData(g: Geometry, v: seq<byte>, v': seq<byte>)
    requires Sized(g, v) && SameOutside(v, v', SS * g.fatbase, SS * g.fsize)
    ensures forall c {:trigger Cluster(g, v', c)} :: 2 <= c < g.nFatent ==> Cluster(g, v', c) == Cluster(g, v, c)
  {
    forall c | 2 <= c < g.nFatent ensures Cluster(g, v', c) == Cluster(g, v, c) {
      hide Clst2Sect;
      ClusterBounds(g, v, c);
    }
  }

  /** Changing bytes of one cluster leaves the table and the other clusters. */
  lemma ClusterChange(g: Geometry, v: seq<byte>, c: nat, r: nat, w: seq<byte>)
    requires Sized(g, v) && 2 <= c < g.nFatent && r + |w| <= g.ClusterBytes()
    ensures ClusterAddr(g, c) + r + |w| <= |v|
    ensures var v' := Splice(v, ClusterAddr(g, c) + r, w);
      && Links(g, v') == Links(g, v) && Untouched(g, v, v', [c])
      && Cluster(g, v', c) == Splice(Cluster(g, v, c), r, w)
  {
    hide Clst2Sect, Links;
    ClusterBounds(g, v, c);
    var v' := Splice(v, ClusterAddr(g, c) + r, w);
    SameLinks(g, v, v');
    forall x | 2 <= x < g.nFatent && x != c ensures Cluster(g, v', x) == Cluster(g, v, x) {
      ClusterBounds(g, v, x);
      if x < c { ClusterOrder(g, x, c); } else { ClusterOrder(g, c, x); }
    }
  }
}
