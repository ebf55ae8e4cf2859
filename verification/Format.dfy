/** The FAT12/16/32 branch of f_mkfs: choosing the volume's configuration and writing its boot sector. */
module Format {
  import opened Bits
  import opened Storage
  import opened Volume
  import opened FatTable
  import opened Mount

  /** What the retry loop works on: the volume, the alignment and the format options. */
  datatype Params = Params(
    bVol: nat, szVol: nat,    // first sector and size of the volume
    szBlk: nat,               // erase block size to align the data area to, in sectors
    nFat: nat, nRoot: nat,    // number of FATs, entries of the root directory
    fat32Allowed: bool)       // the options allow FAT32
  {
    /** The ranges f_mkfs clips its parameters to before the loop. */
    ghost predicate Valid() {
      && 128 <= szVol < 0x1_0000_0000 && bVol + szVol < 0x1000_0000_0000_0000
      && 1 <= szBlk <= 0x8000 && IsPow2(szBlk)
      && (nFat == 1 || nFat == 2) && 16 <= nRoot <= 32768 && nRoot % 16 == 0
    }
  }

  /** Cluster sizes in sectors, or 0 for automatic selection. */
  predicate AuSize(n: nat) { n == 0 || ClusterSize(n) }

  predicate ClusterSize(n: nat) {
    n == 1 || n == 2 || n == 4 || n == 8 || n == 16 || n == 32 || n == 64 || n == 128
  }

  const CST: seq<nat> := [1, 4, 16, 64, 256, 512, 0]
  const CST32: seq<nat> := [1, 2, 4, 8, 16, 32, 0]

  /** The cluster size the boundary table gives for volume size n: it doubles with every boundary passed. */
  function AutoAu(table: seq<nat>, n: nat, i: nat, pau: nat): nat
    decreases |table| - i
  {
    if i < |table| && table[i] != 0 && table[i] <= n then AutoAu(table, n, i + 1, 2 * pau) else pau
  }

  /** `for (i = 0, pau = 1; cst[i] && cst[i] <= n; i++, pau <<= 1) ;` */
  method SelectAu(table: seq<nat>, n: nat) returns (pau: nat)
    requires |table| == 7 && table[6] == 0
    ensures pau == AutoAu(table, n, 0, 1)
  {
    var i := 0;
    pau := 1;
    while table[i] != 0 && table[i] <= n
      invariant 0 <= i < |table| && AutoAu(table, n, i, pau) == AutoAu(table, n, 0, 1)
      decreases |table| - i
    {
      i, pau := i + 1, 2 * pau;
    }
  }

  lemma AutoAuSize(table: seq<nat>, n: nat)
    requires |table| == 7 && table[6] == 0
    ensures ClusterSize(AutoAu(table, n, 0, 1))
  {
    assert AutoAu(table, n, 6, 64) == 64;
    assert AutoAu(table, n, 5, 32) == 32 || AutoAu(table, n, 5, 32) == AutoAu(table, n, 6, 64);
    assert AutoAu(table, n, 4, 16) == 16 || AutoAu(table, n, 4, 16) == AutoAu(table, n, 5, 32);
    assert AutoAu(table, n, 3, 8) == 8 || AutoAu(table, n, 3, 8) == AutoAu(table, n, 4, 16);
    assert AutoAu(table, n, 2, 4) == 4 || AutoAu(table, n, 2, 4) == AutoAu(table, n, 3, 8);
    assert AutoAu(table, n, 1, 2) == 2 || AutoAu(table, n, 1, 2) == AutoAu(table, n, 2, 4);
  }

  /** The automatic cluster size: for FAT12/16 by the volume size in units of 4096 sectors, for FAT32 in units of
      131072. */
  lemma AutoAuIs(n: nat)
    ensures AutoAu(CST, n, 0, 1) == if n < 1 then 1 else if n < 4 then 2 else if n < 16 then 4 else if n < 64 then 8
                                    else if n < 256 then 16 else if n < 512 then 32 else 64
    ensures AutoAu(CST32, n, 0, 1) == if n < 1 then 1 else if n < 2 then 2 else if n < 4 then 4 else if n < 8 then 8
                                      else if n < 16 then 16 else if n < 32 then 32 else 64
  {
    AutoSteps(CST, n);
    AutoSteps(CST32, n);
  }

  lemma AutoSteps(table: seq<nat>, n: nat)
    requires |table| == 7 && table[6] == 0 && forall i :: 0 <= i < 6 ==> table[i] > 0
    ensures AutoAu(table, n, 0, 1) ==
      if n < table[0] then 1 else if n < table[1] then 2 else if n < table[2] then 4 else if n < table[3] then 8
      else if n < table[4] then 16 else if n < table[5] then 32 else 64
  {
    assert AutoAu(table, n, 6, 64) == 64;
    assert AutoAu(table, n, 5, 32) == if n < table[5] then 32 else 64;
    assert n >= table[4] ==> AutoAu(table, n, 4, 16) == AutoAu(table, n, 5, 32);
    assert n >= table[3] ==> AutoAu(table, n, 3, 8) == AutoAu(table, n, 4, 16);
    assert n >= table[2] ==> AutoAu(table, n, 2, 4) == AutoAu(table, n, 3, 8);
    assert n >= table[1] ==> AutoAu(table, n, 1, 2) == AutoAu(table, n, 2, 4);
  }

  /** A configuration as the loop leaves it. */
  datatype Config = Config(fsty: FsType, pau: nat, szRsv: nat, szFat: nat, szDir: nat, bFat: nat, nClst: nat)

  datatype Outcome = Abort | Retry(szAu: nat, fsty: FsType) | Done(c: Config)

  /** Sectors from b to the next multiple of the power of two s: `((b + s - 1) & ~(s - 1)) - b` in 32 bits. */
  function AlignGap(b: nat, s: nat): nat
    requires s > 0
  {
    U32(b + s - 1 - And(b + s - 1, s - 1) - b)
  }

  lemma GapBelow(b: nat, s: nat)
    requires 0 < s <= 0x8000 && IsPow2(s)
    ensures AlignGap(b, s) < s && (b + AlignGap(b, s)) % s == 0
  {
    var k: nat :| s == Pow2(k);
    MaskIsMod(b + s - 1, k);
    DivMod(b + s - 1, s);
    GapIs(b + s - 1, (b + s - 1) % s, b, s);
    hide AlignGap, And, Pow2;
    DivUnique(b + AlignGap(b, s), s, (b + s - 1) / s, 0);
  }

  lemma GapIs(x: nat, r: nat, b: nat, s: nat)
    requires 0 < s <= 0x8000 && x == b + s - 1 && And(x, s - 1) == r < s
    ensures AlignGap(b, s) == s - 1 - r
  {
  }

  /** FAT size in sectors for an estimated number of clusters, by type. */
  function FatSectorsFor(fsty: FsType, nClst: nat): nat {
    match fsty
    case FAT32 => U32(nClst * 4 + 8 + SS - 1) / SS
    case FAT12 => U32((nClst * 3 + 1) / 2 + 3 + SS - 1) / SS
    case _ => U32(U32(nClst * 2 + 4) + SS - 1) / SS
  }

  /** One pass of the loop up to the final number of clusters. */
  function Layout(p: Params, fsty: FsType, pau: nat, nClst0: nat): Config
    requires p.szBlk > 0 && pau > 0 && p.nFat > 0
  {
    var szFat := FatSectorsFor(fsty, nClst0);
    var szRsv := if fsty.FAT32? then 32 else 1;
    var szDir := if fsty.FAT32? then 0 else p.nRoot * 32 / SS;
    var n := AlignGap(p.bVol + szRsv + U32(FatArea(szFat, p.nFat)) + szDir, p.szBlk);
    var odd := if fsty.FAT32? then n else if p.nFat == 2 then n % 2 else 0;    // sectors the FAT is moved by
    var szFat' := if fsty.FAT32? then szFat else szFat + if p.nFat == 2 then n / 2 else n;
    var szRsv' := szRsv + odd;
    Config(fsty, pau, szRsv', szFat', szDir, p.bVol + szRsv',
           Clusters(U32(p.szVol - szRsv' - U32(FatArea(szFat', p.nFat)) - szDir), pau))
  }

  /** End of the system area before alignment, relative to the volume. */
  function DataOfs(p: Params, fsty: FsType, nClst0: nat): nat {
    var szRsv := if fsty.FAT32? then 32 else 1;
    var szDir := if fsty.FAT32? then 0 else p.nRoot * 32 / SS;
    szRsv + U32(FatArea(FatSectorsFor(fsty, nClst0), p.nFat)) + szDir
  }

  /** The validity checks at the end of the pass. */
  function Judge(p: Params, szAu: nat, c: Config): Outcome {
    if c.fsty.FAT32? && c.nClst <= MAX_FAT16 then
      if szAu == 0 && c.pau / 2 != 0 then Retry(c.pau / 2, FAT32) else Abort
    else if c.fsty.FAT16? && c.nClst > MAX_FAT16 then
      if szAu == 0 && c.pau * 2 <= 64 then Retry(c.pau * 2, FAT16)
      else if p.fat32Allowed then Retry(szAu, FAT32)
      else if szAu == 0 && c.pau * 2 <= 128 then Retry(c.pau * 2, FAT16)
      else Abort
    else if c.fsty.FAT16? && c.nClst <= MAX_FAT12 then
      if szAu == 0 && c.pau * 2 <= 128 then Retry(c.pau * 2, FAT16) else Abort
    else if c.fsty.FAT12? && c.nClst > MAX_FAT12 then Abort
    else Done(c)
  }

  /** One pass of the loop. */
  function Pass(p: Params, szAu: nat, fsty: FsType): Outcome
    requires p.szBlk > 0 && p.nFat > 0
  {
    PassWith(p, szAu, fsty, AuFor(p, szAu, fsty))
  }

  /** The pass from the choice of the cluster size on. */
  function PassWith(p: Params, szAu: nat, fsty: FsType, pau: nat): Outcome
    requires p.szBlk > 0 && p.nFat > 0
  {
    if pau == 0 then Abort else
    var nClst0 := Clusters(p.szVol, pau);
    if fsty.FAT32? && (nClst0 <= MAX_FAT16 || nClst0 > MAX_FAT32) then Abort
    else
      var fsty' := if !fsty.FAT32? && nClst0 <= MAX_FAT12 then FAT12 else fsty;
      if p.szVol < DataOfs(p, fsty', nClst0) + pau * 16 then Abort
      else Judge(p, szAu, Layout(p, fsty', pau, nClst0))
  }

  lemma ClusterFacts(s: nat, pau: nat)
    requires ClusterSize(pau)
    ensures Clusters(s, pau) <= s < 128 * Clusters(s, pau) + 128
  {
    MulMono(1, pau, Clusters(s, pau));
    MulMono(pau, 128, Clusters(s, pau));
  }

  lemma ClusterDiff(s1: nat, s2: nat, pau: nat)
    requires ClusterSize(pau) && s1 <= s2
    ensures Clusters(s1, pau) <= Clusters(s2, pau) <= Clusters(s1, pau) + (s2 - s1)
  {
    var n1, n2 := Clusters(s1, pau), Clusters(s2, pau);
    assert pau * (n2 + 1) == pau * n2 + pau;
    Cancel(pau, n1, n2 + 1);
    if n2 > n1 {
      MulMono(1, pau, n2 - n1 - 1);
      assert pau * n2 == pau * n1 + pau + pau * (n2 - n1 - 1);
    }
  }

  lemma Cancel(d: nat, a: nat, b: nat)
    requires d * a < d * b
    ensures a < b
  {
    if b <= a { MulMono(b, a, d); }
  }

  /** Sectors before the data area. */
  function SysSectors(p: Params, c: Config): nat { c.szRsv + FatArea(c.szFat, p.nFat) + c.szDir }

  /** What a configuration must satisfy to be a volume: it fits, its data area is aligned, its size fields fit their
      places in the boot sector, its cluster count is the one its type stands for, and its FAT is large enough. */
  ghost predicate Good(p: Params, c: Config)
    requires p.szBlk > 0
  {
    && ClusterSize(c.pau) && SysSectors(p, c) <= p.szVol
    && c.nClst == Clusters(p.szVol - SysSectors(p, c), c.pau) && c.bFat == p.bVol + c.szRsv
    && 0 < c.szRsv < 0x1_0000 && c.szDir == (if c.fsty.FAT32? then 0 else p.nRoot * 32 / SS)
    && 0 < c.szFat < (if c.fsty.FAT32? then 0x1000_0000 else 0x1_0000)
    && (p.bVol + SysSectors(p, c)) % p.szBlk == 0
    && (c.fsty.FAT12? || c.fsty.FAT16? || c.fsty.FAT32?)
    && (c.fsty.FAT12? ==> c.nClst <= MAX_FAT12)
    && (c.fsty.FAT16? ==> MAX_FAT12 < c.nClst <= MAX_FAT16)
    && (c.fsty.FAT32? ==> MAX_FAT16 < c.nClst <= MAX_FAT32)
    && NeededFat(c.fsty, c.nClst + 2) <= SS * c.szFat
  }

  /** Bytes of a FAT with n entries. */
  function NeededFat(t: FsType, n: nat): nat {
    match t
    case FAT12 => n * 3 / 2 + n % 2
    case FAT16 => n * 2
    case _ => n * 4
  }

  lemma U32Facts(x: int)
    requires -0x1_0000_0000 <= x < 0x1_0000_0000
    ensures U32(x) == if x >= 0 then x else x + 0x1_0000_0000
  {
  }

  // What the parameters say about a pass with FAT type ty and clusters of pau sectors, before any of it is computed.

  /** Sectors of the volume before the data area, without its alignment. */
  function Start(p: Params, ty: FsType, pau: nat): nat
    requires pau > 0
  {
    DataOfs(p, ty, Clusters(p.szVol, pau))
  }

  /** Sectors the alignment adds. */
  function Gap(p: Params, ty: FsType, pau: nat): nat
    requires pau > 0 && p.szBlk > 0
  {
    AlignGap(p.bVol + Start(p, ty, pau), p.szBlk)
  }

  /** Sectors left for clusters; none if the areas before do not fit. */
  function Room(p: Params, ty: FsType, pau: nat): int
    requires pau > 0 && p.szBlk > 0
  {
    p.szVol - Start(p, ty, pau) - Gap(p, ty, pau)
  }

  /** n clusters make a volume of type ty. */
  predicate InType(ty: FsType, n: nat) {
    match ty
    case FAT12 => n <= MAX_FAT12
    case FAT16 => MAX_FAT12 < n <= MAX_FAT16
    case FAT32 => MAX_FAT16 < n <= MAX_FAT32
    case EXFAT => false
  }

  /** A pass ends with a volume: sixteen clusters fit before the alignment, the aligned data area begins inside the
      volume, and the clusters there are as many as the type stands for. */
  predicate Accepts(p: Params, ty: FsType, pau: nat)
    requires pau > 0 && p.szBlk > 0
  {
    && Start(p, ty, pau) + 16 * pau <= p.szVol && Room(p, ty, pau) >= 0
    && InType(ty, Clusters(Room(p, ty, pau), pau))
  }

  /** The estimated number of clusters is one for which a pass tries type ty. */
  predicate Tried(ty: FsType, n0: nat) {
    match ty
    case FAT12 => n0 <= MAX_FAT12
    case FAT16 => n0 > MAX_FAT12
    case FAT32 => MAX_FAT16 < n0 <= MAX_FAT32
    case EXFAT => false
  }

  lemma FatSectorsBound(ty: FsType, n0: nat)
    requires Tried(ty, n0)
    ensures 0 < FatSectorsFor(ty, n0) < 0x80_0000 || (ty.FAT16? && FatSectorsFor(ty, n0) == 0)
    ensures ty.FAT12? ==> FatSectorsFor(ty, n0) <= 13 && NeededFat(FAT12, n0 + 2) <= SS * FatSectorsFor(ty, n0)
    ensures ty.FAT32? ==>
      FatSectorsFor(ty, n0) <= n0 / 128 + 2 && NeededFat(FAT32, n0 + 2) <= SS * FatSectorsFor(ty, n0)
    ensures ty.FAT16? && n0 < 0x4000_0000 ==>
      && n0 / 256 <= FatSectorsFor(ty, n0) <= n0 / 256 + 2 && 0 < FatSectorsFor(ty, n0)
      && NeededFat(FAT16, n0 + 2) <= SS * FatSectorsFor(ty, n0)
  {
    hide U32;
    match ty {
      case FAT12 => U32Facts((n0 * 3 + 1) / 2 + 3 + SS - 1); Needed12(n0, n0);
      case FAT32 => U32Facts(n0 * 4 + 8 + SS - 1);
      case FAT16 =>
        U32Bound(U32(n0 * 2 + 4) + SS - 1);
        if n0 < 0x4000_0000 {
          U32Facts(n0 * 2 + 4);
          U32Facts(n0 * 2 + 4 + SS - 1);
          Needed16(n0, n0);
        }
    }
  }

  /** A FAT12 sized for n0 clusters holds n of them. */
  lemma Needed12(n: nat, n0: nat)
    requires n <= n0
    ensures NeededFat(FAT12, n + 2) <= SS * (((n0 * 3 + 1) / 2 + 3 + SS - 1) / SS)
  {
    assert NeededFat(FAT12, n + 2) <= (n0 * 3 + 1) / 2 + 3;
  }

  /** A FAT16 sized for n0 clusters holds n of them. */
  lemma Needed16(n: nat, n0: nat)
    requires n <= n0
    ensures NeededFat(FAT16, n + 2) <= SS * ((n0 * 2 + 4 + SS - 1) / SS)
  {
  }

  lemma U32Bound(x: nat)
    ensures U32(x) / SS < 0x80_0000
  {
  }

  /** Where the FAT is moved or expanded, the areas before the data grow by the gap. */
  lemma GapSplit(s0: nat, n: nat, nFat: nat)
    requires nFat == 1 || nFat == 2
    ensures var s1 := s0 + if nFat == 2 then n / 2 else n;
      (if nFat == 2 then n % 2 else 0) + FatArea(s1, nFat) == FatArea(s0, nFat) + n && s0 <= s1 <= s0 + n
  {
    hide FatArea;
  }

  /** An area that does not fit leaves, in unsigned arithmetic, more clusters than FAT16 has. */
  lemma Overrun(x: int, pau: nat)
    requires -0x200_0000 <= x < 0x1_0000_0000 && ClusterSize(pau)
    ensures if x >= 0 then U32(x) == x else Clusters(U32(x), pau) > MAX_FAT16
  {
    hide U32, Clusters;
    U32Facts(x);
    ClusterFacts(U32(x), pau);
  }

  /** What a pass lays out. */
  lemma LayoutFacts(p: Params, ty: FsType, pau: nat)
    requires p.Valid() && ClusterSize(pau) && Tried(ty, Clusters(p.szVol, pau))
    ensures Gap(p, ty, pau) < p.szBlk && (p.bVol + Start(p, ty, pau) + Gap(p, ty, pau)) % p.szBlk == 0
    ensures var s0 := FatSectorsFor(ty, Clusters(p.szVol, pau));
      Start(p, ty, pau) == (if ty.FAT32? then 32 else 1 + p.nRoot * 32 / SS) + FatArea(s0, p.nFat)
    ensures var c, s0 := Layout(p, ty, pau, Clusters(p.szVol, pau)), FatSectorsFor(ty, Clusters(p.szVol, pau));
      && c.fsty == ty && c.pau == pau
      && SysSectors(p, c) == Start(p, ty, pau) + Gap(p, ty, pau) && c.bFat == p.bVol + c.szRsv
      && 0 < c.szRsv < 0x1_0000 && c.szDir == (if ty.FAT32? then 0 else p.nRoot * 32 / SS)
      && s0 <= c.szFat <= s0 + (if ty.FAT32? then 0 else 0x8000)
      && (if Room(p, ty, pau) >= 0 then c.nClst == Clusters(Room(p, ty, pau), pau) else c.nClst > MAX_FAT16)
  {
    hide IsPow2, AlignGap, Clusters, FatArea, U32, ClusterSize, NeededFat, FatSectorsFor;
    var n0 := Clusters(p.szVol, pau);
    var s0 := FatSectorsFor(ty, n0);
    FatSectorsBound(ty, n0);
    U32Facts(FatArea(s0, p.nFat));
    GapBelow(p.bVol + Start(p, ty, pau), p.szBlk);
    var n := Gap(p, ty, pau);
    if !ty.FAT32? { GapSplit(s0, n, p.nFat); }
    var c := Layout(p, ty, pau, n0);
    U32Facts(FatArea(c.szFat, p.nFat));
    Overrun(Room(p, ty, pau), pau);
  }

  /** A FAT32 volume always has room for its areas. */
  lemma RoomOfFat32(p: Params, pau: nat)
    requires p.Valid() && ClusterSize(pau) && Tried(FAT32, Clusters(p.szVol, pau))
    ensures Room(p, FAT32, pau) >= 0 && Clusters(Room(p, FAT32, pau), pau) <= MAX_FAT32
  {
    hide Clusters, FatArea, AlignGap, IsPow2, ClusterSize, FatSectorsFor;
    LayoutFacts(p, FAT32, pau);
    FatSectorsBound(FAT32, Clusters(p.szVol, pau));
    ClusterFacts(p.szVol, pau);
    ClusterDiff(Room(p, FAT32, pau), p.szVol, pau);
  }

  /** A FAT sized for n0 clusters is large enough for n. */
  lemma FewerNeeded(ty: FsType, n: nat, n0: nat)
    requires n <= n0
    ensures NeededFat(ty, n + 2) <= NeededFat(ty, n0 + 2)
  {
  }

  /** How far the estimated number of FAT16 clusters is from the final one. */
  lemma EstimateOfFat16(p: Params, pau: nat)
    requires p.Valid() && ClusterSize(pau) && Tried(FAT16, Clusters(p.szVol, pau))
    requires Room(p, FAT16, pau) >= 0 && Clusters(Room(p, FAT16, pau), pau) <= MAX_FAT16
    ensures Clusters(p.szVol, pau) < 0x2_0000
  {
    hide Clusters, FatArea, AlignGap, IsPow2, ClusterSize, FatSectorsFor;
    var n0 := Clusters(p.szVol, pau);
    LayoutFacts(p, FAT16, pau);
    FatSectorsBound(FAT16, n0);
    ClusterDiff(Room(p, FAT16, pau), p.szVol, pau);
    assert n0 < 0x4000_0000;
  }

  /** A pass that accepts has laid out a volume. */
  lemma LayoutGood(p: Params, ty: FsType, pau: nat)
    requires p.Valid() && ClusterSize(pau) && Tried(ty, Clusters(p.szVol, pau)) && Accepts(p, ty, pau)
    ensures Good(p, Layout(p, ty, pau, Clusters(p.szVol, pau)))
  {
    hide IsPow2, AlignGap, Clusters, FatArea, ClusterSize, NeededFat, FatSectorsFor, Layout, Start, Gap, SysSectors;
    var n0 := Clusters(p.szVol, pau);
    LayoutFacts(p, ty, pau);
    FatSectorsBound(ty, n0);
    ClusterDiff(Room(p, ty, pau), p.szVol, pau);
    FewerNeeded(ty, Clusters(Room(p, ty, pau), pau), n0);
    if ty.FAT16? { EstimateOfFat16(p, pau); }
  }

  /** The cluster size a pass works with: the one asked for, or the table's. */
  function AuFor(p: Params, szAu: nat, fsty: FsType): nat {
    if szAu != 0 then szAu
    else if fsty.FAT32? then AutoAu(CST32, p.szVol / 0x20000, 0, 1)
    else AutoAu(CST, p.szVol / 0x1000, 0, 1)
  }

  lemma AuForSize(p: Params, szAu: nat, fsty: FsType)
    requires AuSize(szAu)
    ensures ClusterSize(AuFor(p, szAu, fsty))
  {
    hide AutoAu;
    AutoAuSize(CST32, p.szVol / 0x20000);
    AutoAuSize(CST, p.szVol / 0x1000);
  }

  /** The FAT type a pass tries. */
  function TypeFor(p: Params, szAu: nat, fsty: FsType): FsType
    requires AuFor(p, szAu, fsty) > 0
  {
    if !fsty.FAT32? && Clusters(p.szVol, AuFor(p, szAu, fsty)) <= MAX_FAT12 then FAT12 else fsty
  }

  /** A pass completes exactly when the volume has the room and the clusters its type needs, and has then laid out
      such a volume. */
  lemma PassAccepts(p: Params, szAu: nat, fsty: FsType)
    requires p.Valid() && AuSize(szAu) && (fsty.FAT16? || fsty.FAT32?)
    ensures ClusterSize(AuFor(p, szAu, fsty))
    ensures var pau, ty := AuFor(p, szAu, fsty), TypeFor(p, szAu, fsty);
      var n0 := Clusters(p.szVol, pau);
      && (Pass(p, szAu, fsty).Done? <==> Tried(ty, n0) && Accepts(p, ty, pau))
      && (Pass(p, szAu, fsty).Done? ==>
            Pass(p, szAu, fsty).c == Layout(p, ty, pau, n0) && Good(p, Layout(p, ty, pau, n0)))
  {
    hide Layout, Good, AutoAu, AuFor, Judge, Clusters, ClusterSize, Room, InType, DataOfs;
    AuForSize(p, szAu, fsty);
    AuPositive(p, szAu, fsty);
    var pau, ty := AuFor(p, szAu, fsty), TypeFor(p, szAu, fsty);
    var n0 := Clusters(p.szVol, pau);
    if Tried(ty, n0) {
      LayoutFits(p, ty, pau);
      JudgeDone(p, szAu, Layout(p, ty, pau, n0));
      if Accepts(p, ty, pau) { LayoutGood(p, ty, pau); }
    }
  }

  lemma AuPositive(p: Params, szAu: nat, fsty: FsType)
    requires AuSize(szAu)
    ensures AuFor(p, szAu, fsty) > 0
  {
    AuForSize(p, szAu, fsty);
  }

  /** What the checks at the end of a pass let through. */
  lemma JudgeDone(p: Params, szAu: nat, c: Config)
    requires !c.fsty.EXFAT?
    ensures Judge(p, szAu, c).Done? <==> (if c.fsty.FAT32? then c.nClst > MAX_FAT16 else InType(c.fsty, c.nClst))
    ensures Judge(p, szAu, c).Done? ==> Judge(p, szAu, c).c == c
  {
  }

  /** The number of clusters laid out is right for the type exactly when there is room for it. */
  lemma LayoutFits(p: Params, ty: FsType, pau: nat)
    requires p.Valid() && ClusterSize(pau) && Tried(ty, Clusters(p.szVol, pau))
    ensures var c := Layout(p, ty, pau, Clusters(p.szVol, pau));
      c.fsty == ty && c.pau == pau &&
      ((if ty.FAT32? then c.nClst > MAX_FAT16 else InType(ty, c.nClst))
        <==> Room(p, ty, pau) >= 0 && InType(ty, Clusters(Room(p, ty, pau), pau)))
  {
    hide Layout, Clusters, ClusterSize, Room, SysSectors, Start, Gap;
    LayoutFacts(p, ty, pau);
    if ty.FAT32? { RoomOfFat32(p, pau); }
  }

  /** A retry keeps a valid cluster size and changes the automatic one or the type. */
  lemma PassRetries(p: Params, szAu: nat, fsty: FsType)
    requires p.Valid() && AuSize(szAu) && (fsty.FAT16? || fsty.FAT32?) && Pass(p, szAu, fsty).Retry?
    ensures var r := Pass(p, szAu, fsty);
      && AuSize(r.szAu) && (r.fsty.FAT16? || r.fsty.FAT32?)
      && (if szAu == 0 then r.szAu != 0 || (fsty.FAT16? && r.fsty.FAT32?)
          else r.szAu == szAu && fsty.FAT16? && r.fsty.FAT32?)
  {
    hide DataOfs, AutoAu, Clusters, Layout;
    AuForSize(p, szAu, fsty);
    var pau := AuFor(p, szAu, fsty);
    LayoutType(p, FAT32, pau, Clusters(p.szVol, pau));
    LayoutType(p, FAT12, pau, Clusters(p.szVol, pau));
    LayoutType(p, FAT16, pau, Clusters(p.szVol, pau));
  }

  lemma LayoutType(p: Params, fsty: FsType, pau: nat, n0: nat)
    requires p.Valid() && ClusterSize(pau)
    ensures Layout(p, fsty, pau, n0).fsty == fsty && Layout(p, fsty, pau, n0).pau == pau
  {
  }

  /** What the passes come to, one after the other. */
  ghost function Settle(p: Params, szAu: nat, fsty: FsType): Outcome
    requires p.Valid() && AuSize(szAu) && (fsty.FAT16? || fsty.FAT32?)
    decreases (if szAu == 0 then 2 else 0) + (if fsty.FAT32? then 0 else 1)
  {
    var r := Pass(p, szAu, fsty);
    if r.Retry? then
      PassRetries(p, szAu, fsty);
      Settle(p, r.szAu, r.fsty)
    else r
  }

  /** c is the layout of a pass that accepted. */
  ghost predicate Laid(p: Params, c: Config)
    requires p.Valid()
  {
    && ClusterSize(c.pau) && Tried(c.fsty, Clusters(p.szVol, c.pau)) && Accepts(p, c.fsty, c.pau)
    && c == Layout(p, c.fsty, c.pau, Clusters(p.szVol, c.pau)) && Good(p, c)
  }

  lemma {:induction false} SettleLaid(p: Params, szAu: nat, fsty: FsType)
    requires p.Valid() && AuSize(szAu) && (fsty.FAT16? || fsty.FAT32?)
    ensures var r := Settle(p, szAu, fsty); !r.Retry? && (r.Done? ==> Laid(p, r.c))
    decreases (if szAu == 0 then 2 else 0) + (if fsty.FAT32? then 0 else 1)
  {
    hide Pass, Good, Layout, Accepts, Clusters, ClusterSize, Tried;
    var r := Pass(p, szAu, fsty);
    PassAccepts(p, szAu, fsty);
    AuForSize(p, szAu, fsty);
    if r.Retry? {
      PassRetries(p, szAu, fsty);
      SettleLaid(p, r.szAu, r.fsty);
    } else if r.Done? {
      LayoutType(p, TypeFor(p, szAu, fsty), AuFor(p, szAu, fsty), Clusters(p.szVol, AuFor(p, szAu, fsty)));
    }
  }

  /** With a given cluster size formatting completes exactly when the pass for FAT12/16 or FAT32 accepts, or the options
      allow FAT32, FAT16 would have too many clusters, and FAT32 accepts. */
  lemma ExplicitSize(p: Params, szAu: nat, fsty: FsType)
    requires p.Valid() && ClusterSize(szAu) && (fsty.FAT16? || fsty.FAT32?)
    ensures var n0, ty := Clusters(p.szVol, szAu), TypeFor(p, szAu, fsty);
      Settle(p, szAu, fsty).Done? <==>
        || (Tried(ty, n0) && Accepts(p, ty, szAu))
        || (ty.FAT16? && p.fat32Allowed && Start(p, FAT16, szAu) + 16 * szAu <= p.szVol
            && (Room(p, FAT16, szAu) < 0 || Clusters(Room(p, FAT16, szAu), szAu) > MAX_FAT16)
            && Tried(FAT32, n0) && Accepts(p, FAT32, szAu))
  {
    hide Good, Layout, Clusters, Accepts, Pass, Tried;
    var n0, ty := Clusters(p.szVol, szAu), TypeFor(p, szAu, fsty);
    PassAccepts(p, szAu, fsty);
    PassAccepts(p, szAu, FAT32);
    GivenRetries(p, szAu, fsty);
    GivenRetries(p, szAu, FAT32);
  }

  /** With a given cluster size the only retry is the change to FAT32. */
  lemma GivenRetries(p: Params, szAu: nat, fsty: FsType)
    requires p.Valid() && ClusterSize(szAu) && (fsty.FAT16? || fsty.FAT32?)
    ensures Pass(p, szAu, fsty).Retry? ==> Pass(p, szAu, fsty) == Retry(szAu, FAT32)
    ensures Pass(p, szAu, fsty).Retry? <==>
      TypeFor(p, szAu, fsty).FAT16? && p.fat32Allowed && Start(p, FAT16, szAu) + 16 * szAu <= p.szVol
      && (Room(p, FAT16, szAu) < 0 || Clusters(Room(p, FAT16, szAu), szAu) > MAX_FAT16)
  {
    hide Layout, DataOfs, Clusters, Room, ClusterSize;
    AuSizes(szAu);
    var n0, ty := Clusters(p.szVol, szAu), TypeFor(p, szAu, fsty);
    LayoutType(p, ty, szAu, n0);
    if ty.FAT16? { LayoutFacts(p, FAT16, szAu); }
  }

  lemma AuSizes(szAu: nat)
    requires ClusterSize(szAu)
    ensures szAu > 0 && AuSize(szAu)
  {
  }

  lemma PassIs(p: Params, szAu: nat, fsty: FsType)
    requires p.Valid()
    ensures PassWith(p, szAu, fsty, AuFor(p, szAu, fsty)) == Pass(p, szAu, fsty)
  {
    hide PassWith, AuFor;
  }

  /** The retry loop of f_mkfs. It ends, because a retry fixes the cluster size or switches to FAT32. */
  method Configure(p: Params, szAu0: nat, fsty0: FsType) returns (r: Outcome)
    requires p.Valid() && AuSize(szAu0) && (fsty0.FAT16? || fsty0.FAT32?)
    ensures r == Settle(p, szAu0, fsty0) && (r.Abort? || (r.Done? && Laid(p, r.c)))
  {
    hide Laid, Pass, PassWith, AutoAu;
    SettleLaid(p, szAu0, fsty0);
    var szAu, fsty := szAu0, fsty0;
    while true
      invariant AuSize(szAu) && (fsty.FAT16? || fsty.FAT32?)
      invariant Settle(p, szAu, fsty) == Settle(p, szAu0, fsty0)
      decreases (if szAu == 0 then 2 else 0) + (if fsty.FAT32? then 0 else 1)
    {
      var pau := szAu;
      if pau == 0 {
        if fsty.FAT32? {
          pau := SelectAu(CST32, p.szVol / 0x20000);
        } else {
          pau := SelectAu(CST, p.szVol / 0x1000);
        }
      }
      r := PassWith(p, szAu, fsty, pau);
      PassIs(p, szAu, fsty);
      match r {
        case Abort => return;
        case Done(_) => return;
        case Retry(a, t) => PassRetries(p, szAu, fsty); szAu, fsty := a, t;
      }
    }
  }

  const OEM_NAME: seq<byte> := [0x4D, 0x53, 0x44, 0x4F, 0x53, 0x35, 0x2E, 0x30]                      // "MSDOS5.0"
  const NO_NAME: seq<byte> := [0x4E, 0x4F, 0x20, 0x4E, 0x41, 0x4D, 0x45, 0x20, 0x20, 0x20, 0x20]     // "NO NAME    "

  const BPB_Media: nat := 21
  const BPB_SecPerTrk: nat := 24
  const BPB_NumHeads: nat := 26
  const BPB_HiddSec: nat := 28
  const BS_DrvNum: nat := 36
  const BS_BootSig: nat := 38
  const BS_VolID: nat := 39
  const BS_VolLab: nat := 43
  const BPB_FSInfo32: nat := 48
  const BPB_BkBootSec32: nat := 50
  const BS_DrvNum32: nat := 64
  const BS_BootSig32: nat := 66
  const BS_VolID32: nat := 67
  const BS_VolLab32: nat := 71

  /** The fields of the boot sector that mounting looks at. */
  ghost predicate VbrOf(sec: seq<byte>, p: Params, c: Config)
    requires |sec| == SS
  {
    && IsFatVbr(sec) && LdWord(sec, BPB_BytsPerSec) == SS && sec[BPB_SecPerClus] as nat == c.pau
    && LdWord(sec, BPB_RsvdSecCnt) == c.szRsv && sec[BPB_NumFATs] as nat == p.nFat
    && LdWord(sec, BPB_RootEntCnt) == (if c.fsty.FAT32? then 0 else p.nRoot)
    && TotalSectors(sec) == p.szVol && FatSize(sec) == c.szFat
    && (c.fsty.FAT32? ==> LdWord(sec, BPB_FSVer32) == 0 && LdDword(sec, BPB_RootClus32) == 2)
  }

  /** sec holds the bytes bs at offset o. */
  ghost predicate Has(sec: seq<byte>, o: nat, bs: seq<byte>) {
    o + |bs| <= |sec| && sec[o..o + |bs|] == bs
  }

  lemma HasStays(sec: seq<byte>, o: nat, bs: seq<byte>, o': nat, bs': seq<byte>)
    requires o + |bs| <= |sec| && Has(sec, o', bs') && (o' + |bs'| <= o || o + |bs| <= o')
    ensures Has(Splice(sec, o, bs), o', bs')
  {
    var x, y := Splice(sec, o, bs)[o'..o' + |bs'|], sec[o'..o' + |bs'|];
    assert forall i :: 0 <= i < |bs'| ==> x[i] == y[i];
  }

  /** st_byte, st_word, st_dword and mem_cpy into the work area. */
  method Store(buf: array<byte>, o: nat, bs: seq<byte>)
    requires o + |bs| <= buf.Length
    modifies buf
    ensures Has(buf[..], o, bs)
    ensures forall o': nat, bs': seq<byte> {:trigger Has(buf[..], o', bs')} ::
      Has(old(buf[..]), o', bs') && (o' + |bs'| <= o || o + |bs| <= o') ==> Has(buf[..], o', bs')
  {
    ghost var was := buf[..];
    forall i | 0 <= i < |bs| { buf[o + i] := bs[i]; }
    assert buf[..] == Splice(was, o, bs);
    forall o': nat, bs': seq<byte> | Has(was, o', bs') && (o' + |bs'| <= o || o + |bs| <= o')
      ensures Has(buf[..], o', bs')
    {
      HasStays(was, o, bs, o', bs');
    }
  }

  /** The fields common to all types, as the bytes that are written or left zero. */
  ghost predicate CommonBytes(sec: seq<byte>, p: Params, c: Config) {
    && Has(sec, BS_JmpBoot, [0xEB, 0xFE, 0x90] + OEM_NAME)
    && Has(sec, BPB_BytsPerSec, WordBytes(SS)) && Has(sec, BPB_SecPerClus, [c.pau % 0x100])
    && Has(sec, BPB_RsvdSecCnt, WordBytes(c.szRsv % 0x1_0000)) && Has(sec, BPB_NumFATs, [p.nFat % 0x100])
    && Has(sec, BPB_RootEntCnt, WordBytes((if c.fsty.FAT32? then 0 else p.nRoot) % 0x1_0000))
    && (if p.szVol < 0x1_0000 then Has(sec, BPB_TotSec16, WordBytes(p.szVol))
        else Has(sec, BPB_TotSec16, [0, 0]) && Has(sec, BPB_TotSec32, DwordBytes(p.szVol)))
  }

  /** The fields that no code of the file system reads. */
  ghost predicate Int13Bytes(sec: seq<byte>, hidden: nat) {
    && Has(sec, BPB_Media, [0xF8]) && Has(sec, BPB_SecPerTrk, WordBytes(63)) && Has(sec, BPB_NumHeads, WordBytes(255))
    && Has(sec, BPB_HiddSec, DwordBytes(hidden))
  }

  /** The fields that depend on the type. */
  ghost predicate TypeBytes(sec: seq<byte>, c: Config, serial: nat) {
    && Has(sec, BS_55AA, WordBytes(0xAA55))
    && if c.fsty.FAT32?
       then && Has(sec, BPB_FATSz16, [0, 0]) && Has(sec, BPB_FATSz32, DwordBytes(c.szFat))
            && Has(sec, BPB_FSVer32, [0, 0]) && Has(sec, BPB_RootClus32, DwordBytes(2))
            && Has(sec, BPB_FSInfo32, WordBytes(1)) && Has(sec, BPB_BkBootSec32, WordBytes(6))
            && Has(sec, BS_DrvNum32, [0x80]) && Has(sec, BS_BootSig32, [0x29])
            && Has(sec, BS_VolID32, DwordBytes(serial)) && Has(sec, BS_VolLab32, NO_NAME + FAT32_NAME)
       else && Has(sec, BPB_FATSz16, WordBytes(c.szFat % 0x1_0000))
            && Has(sec, BS_DrvNum, [0x80]) && Has(sec, BS_BootSig, [0x29])
            && Has(sec, BS_VolID, DwordBytes(serial)) && Has(sec, BS_VolLab, NO_NAME + FAT_NAME)
  }

  /** Create the boot sector: the fields common to all types. */
  method WriteCommon(buf: array<byte>, p: Params, c: Config)
    requires buf.Length == SS
    modifies buf
    ensures CommonBytes(buf[..], p, c) && Has(buf[..], BPB_FATSz16, [0, 0]) && Has(buf[..], BPB_FSVer32, [0, 0])
  {
    hide Has, WordBytes, DwordBytes;
    forall i | 0 <= i < SS { buf[i] := 0; }
    Blank(buf[..]);
    Store(buf, BS_JmpBoot, [0xEB, 0xFE, 0x90] + OEM_NAME);
    Store(buf, BPB_BytsPerSec, WordBytes(SS));
    Store(buf, BPB_SecPerClus, [c.pau % 0x100]);
    Store(buf, BPB_RsvdSecCnt, WordBytes(c.szRsv % 0x1_0000));
    Store(buf, BPB_NumFATs, [p.nFat % 0x100]);
    Store(buf, BPB_RootEntCnt, WordBytes((if c.fsty.FAT32? then 0 else p.nRoot) % 0x1_0000));
    if p.szVol < 0x1_0000 {
      Store(buf, BPB_TotSec16, WordBytes(p.szVol));
    } else {
      Store(buf, BPB_TotSec32, DwordBytes(p.szVol));
    }
  }

  lemma Blank(sec: seq<byte>)
    requires |sec| == SS && forall i :: 0 <= i < SS ==> sec[i] == 0
    ensures Has(sec, BPB_TotSec16, [0, 0]) && Has(sec, BPB_FATSz16, [0, 0]) && Has(sec, BPB_FSVer32, [0, 0])
  {
  }

  /** The fields that no code of the file system reads. */
  method WriteInt13(buf: array<byte>, ghost p: Params, ghost c: Config, hidden: nat)
    requires buf.Length == SS
    requires CommonBytes(buf[..], p, c) && Has(buf[..], BPB_FATSz16, [0, 0]) && Has(buf[..], BPB_FSVer32, [0, 0])
    modifies buf
    ensures CommonBytes(buf[..], p, c) && Has(buf[..], BPB_FATSz16, [0, 0]) && Has(buf[..], BPB_FSVer32, [0, 0])
    ensures Int13Bytes(buf[..], hidden)
  {
    hide Has, WordBytes, DwordBytes;
    Store(buf, BPB_Media, [0xF8]);
    Store(buf, BPB_SecPerTrk, WordBytes(63));
    Store(buf, BPB_NumHeads, WordBytes(255));
    Store(buf, BPB_HiddSec, DwordBytes(hidden));
  }

  /** The fields of FAT32. */
  method WriteType32(buf: array<byte>, ghost p: Params, c: Config, serial: nat, ghost hidden: nat)
    requires buf.Length == SS && c.fsty.FAT32?
    requires CommonBytes(buf[..], p, c) && Has(buf[..], BPB_FATSz16, [0, 0]) && Has(buf[..], BPB_FSVer32, [0, 0])
    requires Int13Bytes(buf[..], hidden)
    modifies buf
    ensures CommonBytes(buf[..], p, c) && TypeBytes(buf[..], c, serial) && Int13Bytes(buf[..], hidden)
  {
    hide Has, WordBytes, DwordBytes;
    Store(buf, BS_VolID32, DwordBytes(serial));
    Store(buf, BPB_FATSz32, DwordBytes(c.szFat));
    Store(buf, BPB_RootClus32, DwordBytes(2));
    Store(buf, BPB_FSInfo32, WordBytes(1));
    Store(buf, BPB_BkBootSec32, WordBytes(6));
    Store(buf, BS_DrvNum32, [0x80]);
    Store(buf, BS_BootSig32, [0x29]);
    Store(buf, BS_VolLab32, NO_NAME + FAT32_NAME);
    Store(buf, BS_55AA, WordBytes(0xAA55));
  }

  /** The fields of FAT12 and FAT16. */
  method WriteType16(buf: array<byte>, ghost p: Params, c: Config, serial: nat, ghost hidden: nat)
    requires buf.Length == SS && !c.fsty.FAT32?
    requires CommonBytes(buf[..], p, c) && Int13Bytes(buf[..], hidden)
    modifies buf
    ensures CommonBytes(buf[..], p, c) && TypeBytes(buf[..], c, serial) && Int13Bytes(buf[..], hidden)
  {
    hide Has, WordBytes, DwordBytes;
    Store(buf, BS_VolID, DwordBytes(serial));
    Store(buf, BPB_FATSz16, WordBytes(c.szFat % 0x1_0000));
    Store(buf, BS_DrvNum, [0x80]);
    Store(buf, BS_BootSig, [0x29]);
    Store(buf, BS_VolLab, NO_NAME + FAT_NAME);
    Store(buf, BS_55AA, WordBytes(0xAA55));
  }

  lemma ByteField(sec: seq<byte>, o: nat, b: byte)
    requires Has(sec, o, [b])
    ensures o < |sec| && sec[o] == b
  {
    assert sec[o..o + 1][0] == sec[o];
  }

  lemma WordField(sec: seq<byte>, o: nat, v: nat)
    requires Has(sec, o, WordBytes(v)) && v < 0x1_0000
    ensures o + 2 <= |sec| && LdWord(sec, o) == v
  {
    assert sec[o] == sec[o..o + 2][0] && sec[o + 1] == sec[o..o + 2][1];
  }

  lemma ZeroField(sec: seq<byte>, o: nat)
    requires Has(sec, o, [0, 0])
    ensures o + 2 <= |sec| && LdWord(sec, o) == 0
  {
    assert sec[o] == sec[o..o + 2][0] && sec[o + 1] == sec[o..o + 2][1];
  }

  lemma DwordField(sec: seq<byte>, o: nat, v: nat)
    requires Has(sec, o, DwordBytes(v)) && v < 0x1_0000_0000
    ensures o + 4 <= |sec| && LdDword(sec, o) == v
  {
    hide DwordBytes;
    LdWhole(sec, o);
    DwordRoundTrip(v);
  }

  /** Reading the written fields back gives the configuration. */
  lemma BytesAreFields(sec: seq<byte>, p: Params, c: Config, serial: nat)
    requires |sec| == SS && p.Valid() && Good(p, c) && CommonBytes(sec, p, c) && TypeBytes(sec, c, serial)
    ensures VbrOf(sec, p, c)
  {
    hide Has, WordBytes, DwordBytes, LdWord, LdDword, IsPow2, Clusters, SysSectors, NeededFat;
    WordField(sec, BS_55AA, 0xAA55);
    WordField(sec, BPB_BytsPerSec, SS);
    ByteField(sec, BPB_SecPerClus, c.pau);
    WordField(sec, BPB_RsvdSecCnt, c.szRsv);
    ByteField(sec, BPB_NumFATs, p.nFat);
    WordField(sec, BPB_RootEntCnt, if c.fsty.FAT32? then 0 else p.nRoot);
    if p.szVol < 0x1_0000 {
      WordField(sec, BPB_TotSec16, p.szVol);
    } else {
      ZeroField(sec, BPB_TotSec16);
      DwordField(sec, BPB_TotSec32, p.szVol);
    }
    if c.fsty.FAT32? {
      ZeroField(sec, BPB_FATSz16);
      DwordField(sec, BPB_FATSz32, c.szFat);
      ZeroField(sec, BPB_FSVer32);
      DwordField(sec, BPB_RootClus32, 2);
    } else {
      WordField(sec, BPB_FATSz16, c.szFat);
    }
    Jump(sec, c);
  }

  lemma Jump(sec: seq<byte>, c: Config)
    requires |sec| == SS && Has(sec, BS_JmpBoot, [0xEB, 0xFE, 0x90] + OEM_NAME)
    requires if c.fsty.FAT32? then Has(sec, BS_VolLab32, NO_NAME + FAT32_NAME)
             else Has(sec, BS_VolLab, NO_NAME + FAT_NAME)
    ensures sec[BS_JmpBoot] == 0xEB
    ensures sec[BS_FilSysType..BS_FilSysType + 3] == FAT_NAME[..3]
         || sec[BS_FilSysType32..BS_FilSysType32 + 5] == FAT32_NAME[..5]
  {
    assert sec[0] == sec[0..11][0];
    if c.fsty.FAT32? {
      SliceSlice(sec, BS_VolLab32, 19, 11, 5);
      assert (NO_NAME + FAT32_NAME)[11..16] == FAT32_NAME[..5];
    } else {
      SliceSlice(sec, BS_VolLab, 19, 11, 3);
      assert (NO_NAME + FAT_NAME)[11..14] == FAT_NAME[..3];
    }
  }

  /** The fields all types have, byte by byte. */
  lemma CommonLayout(sec: seq<byte>, p: Params, c: Config)
    requires |sec| == 512 && p.Valid() && Good(p, c) && CommonBytes(sec, p, c)
    ensures sec[0..11] == [0xEB, 0xFE, 0x90, 0x4D, 0x53, 0x44, 0x4F, 0x53, 0x35, 0x2E, 0x30]
    ensures sec[11..13] == [0x00, 0x02] && sec[13] as nat == c.pau && sec[14..16] == [c.szRsv % 0x100, c.szRsv / 0x100]
    ensures var nRoot := if c.fsty.FAT32? then 0 else p.nRoot;
      sec[16] as nat == p.nFat && sec[17..19] == [nRoot % 0x100, nRoot / 0x100]
  {
    hide IsPow2, Clusters, SysSectors, NeededFat, Has, Good, WordBytes;
    Bounds(p, c);
    ByteField(sec, BPB_SecPerClus, c.pau % 0x100);
    ByteField(sec, BPB_NumFATs, p.nFat % 0x100);
    WordLayout(sec, BPB_BytsPerSec, 512);
    WordLayout(sec, BPB_RsvdSecCnt, c.szRsv);
    WordLayout(sec, BPB_RootEntCnt, if c.fsty.FAT32? then 0 else p.nRoot);
    JumpLayout(sec);
  }

  lemma WordLayout(sec: seq<byte>, o: nat, v: nat)
    requires Has(sec, o, WordBytes(v)) && v < 0x1_0000
    ensures o + 2 <= |sec| && sec[o..o + 2] == [v % 0x100, v / 0x100]
  {
  }

  lemma JumpLayout(sec: seq<byte>)
    requires |sec| == 512 && Has(sec, BS_JmpBoot, [0xEB, 0xFE, 0x90] + OEM_NAME)
    ensures sec[0..11] == [0xEB, 0xFE, 0x90, 0x4D, 0x53, 0x44, 0x4F, 0x53, 0x35, 0x2E, 0x30]
  {
  }

  lemma Bounds(p: Params, c: Config)
    requires p.Valid() && Good(p, c)
    ensures c.pau <= 128 && c.szRsv < 0x1_0000 && p.nFat <= 2 && p.nRoot <= 32768
  {
  }

  lemma SizeLayout(sec: seq<byte>, p: Params, c: Config)
    requires |sec| == 512 && p.szVol < 0x1_0000_0000 && CommonBytes(sec, p, c)
    ensures p.szVol < 0x1_0000 ==> sec[19..21] == [p.szVol % 0x100, p.szVol / 0x100]
    ensures p.szVol >= 0x1_0000 ==>
      && sec[19..21] == [0, 0]
      && sec[32..36] ==
         [p.szVol % 0x100, p.szVol / 0x100 % 0x100, p.szVol / 0x1_0000 % 0x100, p.szVol / 0x100_0000]
  {
  }

  lemma Int13Layout(sec: seq<byte>, hidden: nat)
    requires |sec| == 512 && Int13Bytes(sec, hidden)
    ensures sec[21] == 0xF8 && sec[24..26] == [63, 0] && sec[26..28] == [255, 0]
    ensures sec[28..32] ==
      [hidden % 0x100, hidden / 0x100 % 0x100, hidden / 0x1_0000 % 0x100, hidden / 0x100_0000 % 0x100]
  {
    ByteField(sec, BPB_Media, 0xF8);
  }

  /** The fields of each type, byte by byte. */
  lemma TypeLayout(sec: seq<byte>, c: Config, serial: nat)
    requires |sec| == 512 && TypeBytes(sec, c, serial) && c.szFat < (if c.fsty.FAT32? then 0x1000_0000 else 0x1_0000)
    ensures sec[510..512] == [0x55, 0xAA]
    ensures var id := [serial % 0x100, serial / 0x100 % 0x100, serial / 0x1_0000 % 0x100, serial / 0x100_0000 % 0x100];
      var noName := [0x4E, 0x4F, 0x20, 0x4E, 0x41, 0x4D, 0x45, 0x20, 0x20, 0x20, 0x20];
      if c.fsty.FAT32? then
        && sec[22..24] == [0, 0] && sec[42..44] == [0, 0] && sec[44..48] == [2, 0, 0, 0]
        && sec[36..40] ==
           [c.szFat % 0x100, c.szFat / 0x100 % 0x100, c.szFat / 0x1_0000 % 0x100, c.szFat / 0x100_0000]
        && sec[48..50] == [1, 0] && sec[50..52] == [6, 0] && sec[64] == 0x80 && sec[66] == 0x29
        && sec[67..71] == id && sec[71..90] == noName + [0x46, 0x41, 0x54, 0x33, 0x32, 0x20, 0x20, 0x20]
      else
        && sec[22..24] == [c.szFat % 0x100, c.szFat / 0x100] && sec[36] == 0x80 && sec[38] == 0x29
        && sec[39..43] == id && sec[43..62] == noName + [0x46, 0x41, 0x54, 0x20, 0x20, 0x20, 0x20, 0x20]
  {
    if c.fsty.FAT32? {
      ByteField(sec, BS_DrvNum32, 0x80);
      ByteField(sec, BS_BootSig32, 0x29);
    } else {
      ByteField(sec, BS_DrvNum, 0x80);
      ByteField(sec, BS_BootSig, 0x29);
    }
  }

  /** The "Create FAT VBR" part of f_mkfs. */
  method WriteVbr(buf: array<byte>, p: Params, c: Config, serial: nat)
    requires buf.Length == SS && p.Valid() && Laid(p, c)
    modifies buf
    ensures VbrOf(buf[..], p, c)
    ensures CommonBytes(buf[..], p, c) && Int13Bytes(buf[..], U32(p.bVol)) && TypeBytes(buf[..], c, serial)
  {
    hide Has, CommonBytes, TypeBytes, Int13Bytes, Good, VbrOf;
    WriteCommon(buf, p, c);
    WriteInt13(buf, p, c, U32(p.bVol));
    if c.fsty.FAT32? {
      WriteType32(buf, p, c, serial, U32(p.bVol));
    } else {
      WriteType16(buf, p, c, serial, U32(p.bVol));
    }
    BytesAreFields(buf[..], p, c, serial);
  }

  lemma ClusterSizeOneBit(pau: nat)
    requires ClusterSize(pau)
    ensures And(pau, pau - 1) == 0 && IsPow2(pau)
  {
    hide And;
    assert Pow2(3) == 8 && Pow2(4) == 16 && Pow2(7) == 128;
    var k := if pau == 1 then 0 else if pau == 2 then 1 else if pau == 4 then 2 else if pau == 8 then 3
             else if pau == 16 then 4 else if pau == 32 then 5 else if pau == 64 then 6 else 7;
    assert pau == Pow2(k);
    MaskIsMod(pau, k);
    DivUnique(pau, pau, 1, 0);
  }

  /** The volume a configuration describes. */
  function Formatted(p: Params, c: Config): Geometry {
    Geometry(c.fsty, p.nFat, c.pau, c.nClst + 2, c.szFat, p.bVol, c.bFat, p.bVol + SysSectors(p, c))
  }

  /** mount_volume finds on the written boot sector the volume f_mkfs laid out, exactly when one cluster fits behind the
      aligned areas, which is a question of the parameters. */
  lemma MountAgrees(sec: seq<byte>, p: Params, c: Config)
    requires |sec| == SS && p.Valid() && Laid(p, c) && VbrOf(sec, p, c)
    ensures MountFat(sec, p.bVol).Mounted? <==>
      Start(p, c.fsty, c.pau) + Gap(p, c.fsty, c.pau) + c.pau <= p.szVol
    ensures MountFat(sec, p.bVol).Mounted? ==> MountFat(sec, p.bVol).g == Formatted(p, c)
    ensures MountFat(sec, p.bVol).Mounted? ==> Formatted(p, c).DataFits(p.bVol + p.szVol)
    ensures MountFat(sec, p.bVol).Mounted? && !c.fsty.FAT32? ==>
      MountFat(sec, p.bVol).dirbase == c.bFat + FatArea(c.szFat, p.nFat) && MountFat(sec, p.bVol).nRootdir == p.nRoot
    ensures MountFat(sec, p.bVol).Mounted? && c.fsty.FAT32? ==>
      MountFat(sec, p.bVol).dirbase == 2 && MountFat(sec, p.bVol).nRootdir == 0
  {
    hide And, LdWord, LdDword, IsPow2, Clusters, FatArea, IsFatVbr, TotalSectors, FatSize;
    hide Layout, Accepts, Tried, Start, Gap;
    LaidClusters(p, c);
    ClusterSizeOneBit(c.pau);
    Wrap(c.szRsv, FatArea(c.szFat, p.nFat), c.szDir);
    U32Facts(FatArea(c.szFat, p.nFat));
    assert SystemSectors(sec) == SysSectors(p, c);
    if c.nClst > 0 {
      MountedLayout(sec, p.bVol, p.bVol + p.szVol);
    }
  }

  /** A layout has a cluster exactly when one fits behind the aligned areas. */
  lemma LaidClusters(p: Params, c: Config)
    requires p.Valid() && Laid(p, c)
    ensures c.nClst > 0 <==> Start(p, c.fsty, c.pau) + Gap(p, c.fsty, c.pau) + c.pau <= p.szVol
  {
    hide Layout, Start, Gap;
    LayoutFacts(p, c.fsty, c.pau);
    var n := c.nClst;
    if n > 0 { MulMono(1, n, c.pau); } else { assert c.pau * n == 0; }
  }

  /** With blocks of at most fifteen clusters every finished format has a cluster; only FAT12 needs the bound. */
  lemma SmallBlocks(p: Params, c: Config)
    requires p.Valid() && Laid(p, c) && (p.szBlk <= 15 * c.pau || !c.fsty.FAT12?)
    ensures Start(p, c.fsty, c.pau) + Gap(p, c.fsty, c.pau) + c.pau <= p.szVol
  {
    hide Layout, Start, Gap;
    LaidClusters(p, c);
    LayoutFacts(p, c.fsty, c.pau);
  }

  /** f_mkfs on FAT12/16/32: find a configuration and write its boot sector. It is done exactly when the passes settle
      on a layout, and what it wrote is mounted exactly when one cluster fits behind the aligned areas. */
  method MakeFat(p: Params, szAu: nat, fsty: FsType, buf: array<byte>, serial: nat) returns (done: bool, c: Config)
    requires p.Valid() && AuSize(szAu) && (fsty.FAT16? || fsty.FAT32?) && buf.Length == SS
    modifies buf
    ensures done <==> Settle(p, szAu, fsty).Done?
    ensures done ==> Settle(p, szAu, fsty) == Done(c) && IsFatVbr(buf[..]) && ClusterSize(c.pau)
    ensures done ==> (MountFat(buf[..], p.bVol).Mounted? <==>
      Start(p, c.fsty, c.pau) + Gap(p, c.fsty, c.pau) + c.pau <= p.szVol)
    ensures done && (p.szBlk <= 15 * c.pau || !c.fsty.FAT12?) ==> MountFat(buf[..], p.bVol).Mounted?
    ensures done && MountFat(buf[..], p.bVol).Mounted? ==>
      MountFat(buf[..], p.bVol).g == Formatted(p, c) && Formatted(p, c).DataFits(p.bVol + p.szVol)
  {
    hide VbrOf, Pass, MountFat, Settle, Start, Gap, Layout, Accepts, Tried, Good;
    var r := Configure(p, szAu, fsty);
    done, c := false, Config(FAT12, 0, 0, 0, 0, 0, 0);
    if r.Abort? { return; }
    done, c := true, r.c;
    WriteVbr(buf, p, c, serial);
    MountAgrees(buf[..], p, c);
    if p.szBlk <= 15 * c.pau || !c.fsty.FAT12? { SmallBlocks(p, c); }
    VbrIsFat(buf[..], p, c);
  }

  lemma VbrIsFat(sec: seq<byte>, p: Params, c: Config)
    requires |sec| == SS && VbrOf(sec, p, c)
    ensures IsFatVbr(sec)
  {
  }

  /** A volume of 128 sectors at sector 0, aligned to 128 sectors. */
  const TINY: Params := Params(0, 128, 128, 1, 512, false)

  /** What f_mkfs makes of it: no cluster at all. */
  const TINY_LAYOUT: Config := Config(FAT12, 1, 1, 95, 32, 1, 0)

  /** Its parameters are in order and f_mkfs finishes, but mounting refuses what it wrote. */
  lemma TinyHasNoCluster(sec: seq<byte>)
    requires |sec| == SS && VbrOf(sec, TINY, TINY_LAYOUT)
    ensures TINY.Valid() && Settle(TINY, 0, FAT16) == Done(TINY_LAYOUT)
    ensures IsFatVbr(sec) && MountFat(sec, TINY.bVol) == NoFilesystem
  {
    hide And, AlignGap, FatSectorsFor, Layout, Good, Accepts, MountFat, VbrOf, Start, Gap;
    TinyNumbers();
    TinyLayout();
    TinyValid();
    SettleLaid(TINY, 0, FAT16);
    LaidClusters(TINY, TINY_LAYOUT);
    MountAgrees(sec, TINY, TINY_LAYOUT);
    VbrIsFat(sec, TINY, TINY_LAYOUT);
  }

  lemma TinyValid()
    ensures TINY.Valid()
  {
    assert Pow2(3) == 8 && Pow2(7) == 128;
  }

  lemma TinyNumbers()
    ensures AutoAu(CST, TINY.szVol / 0x1000, 0, 1) == 1 && Clusters(128, 1) == 128
    ensures And(161, 127) == 33 && AlignGap(34, 128) == 94 && FatSectorsFor(FAT12, 128) == 1
  {
    hide And, AutoAu, AlignGap, FatSectorsFor, Clusters;
    TinyMask();
    TinyAu();
    TinyGap();
    TinyFat();
  }

  lemma TinyAu()
    ensures AutoAu(CST, TINY.szVol / 0x1000, 0, 1) == 1
  {
  }

  lemma TinyGap()
    requires And(161, 127) == 33
    ensures AlignGap(34, 128) == 94
  {
    hide And;
  }

  lemma TinyFat()
    ensures Clusters(128, 1) == 128 && FatSectorsFor(FAT12, 128) == 1
  {
    hide And;
    ClusterFacts(128, 1);
  }

  lemma TinyMask()
    ensures And(161, 127) == 33
  {
    assert And(5, 3) == 1 && And(10, 7) == 2 && And(20, 15) == 4 && And(40, 31) == 8 && And(80, 63) == 16;
  }

  lemma TinyLayout()
    requires And(161, 127) == 33 && AlignGap(34, 128) == 94 && FatSectorsFor(FAT12, 128) == 1
    ensures Layout(TINY, FAT12, 1, 128) == TINY_LAYOUT
  {
    hide And, IsPow2, AlignGap;
    assert Layout(TINY, FAT12, 1, 128).szFat == 95;
    assert Layout(TINY, FAT12, 1, 128).nClst == Clusters(0, 1) == 0;
  }
}
