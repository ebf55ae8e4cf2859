/** The numbers f_mkfs works with on FAT12/16/32: the areas of a volume in sectors, and what the automatic cluster size
    comes to. */
module FormatNumbers {
  import opened Bits
  import opened Storage
  import opened Volume
  import opened FatTable
  import opened Mount
  import opened Format

  /** Sectors of one FAT for n estimated clusters: one and a half, two or four bytes for each entry and the two in front
      of them, in unsigned 32-bit arithmetic. */
  lemma FatSectors(ty: FsType, n: nat)
    requires Tried(ty, n)
    ensures ty.FAT12? ==> FatSectorsFor(ty, n) == ((3 * n + 1) / 2 + 3 + 511) / 512
    ensures ty.FAT16? ==> FatSectorsFor(ty, n) == ((2 * n + 4) % 0x1_0000_0000 + 511) % 0x1_0000_0000 / 512
    ensures ty.FAT32? ==> FatSectorsFor(ty, n) == (4 * n + 8 + 511) / 512
  {
    hide U32;
    MaxClustersAre();
    match ty {
      case FAT12 => U32Facts((n * 3 + 1) / 2 + 3 + SS - 1);
      case FAT32 => U32Facts(n * 4 + 8 + SS - 1);
      case FAT16 => U32Is(n * 2 + 4); U32Is(U32(n * 2 + 4) + SS - 1);
    }
  }

  lemma U32Is(x: nat)
    ensures U32(x) == x % 0x1_0000_0000
  {
  }

  lemma MaxClustersAre()
    ensures MAX_FAT12 == 4085 && MAX_FAT16 == 65525 && MAX_FAT32 == 268435445
  {
  }

  /** How the alignment of the data area changes the areas: on FAT32 the reserved area grows, otherwise the FATs do,
      with an odd sector for two of them in front. */
  lemma LayoutParts(p: Params, ty: FsType, pau: nat, n: nat)
    requires p.szBlk > 0 && pau > 0 && (p.nFat == 1 || p.nFat == 2)
    ensures var c, gap := Layout(p, ty, pau, n), AlignGap(p.bVol + DataOfs(p, ty, n), p.szBlk);
      var fat := FatSectorsFor(ty, n);
      && (ty.FAT32? ==> c.szRsv == 32 + gap && c.szFat == fat && c.szDir == 0)
      && (!ty.FAT32? ==> c.szDir == p.nRoot / 16)
      && (!ty.FAT32? && p.nFat == 1 ==> c.szRsv == 1 && c.szFat == fat + gap)
      && (!ty.FAT32? && p.nFat == 2 ==> c.szRsv == 1 + gap % 2 && c.szFat == fat + gap / 2)
  {
    hide AlignGap, FatSectorsFor, Clusters, U32, FatArea;
    var ofs := DataOfs(p, ty, n);
    assert p.bVol + ofs == p.bVol + (if ty.FAT32? then 32 else 1) + U32(FatArea(FatSectorsFor(ty, n), p.nFat))
      + if ty.FAT32? then 0 else p.nRoot * 32 / SS;
  }

  /** The areas of a volume: 1 reserved sector, or 32 on FAT32; the FATs; on FAT12/16 the root directory, sixteen
      entries to a sector. Behind them the data area begins at a multiple of the erase block. */
  lemma LayoutIs(p: Params, ty: FsType, pau: nat)
    requires p.Valid() && ClusterSize(pau) && Tried(ty, Clusters(p.szVol, pau))
    ensures var n := Clusters(p.szVol, pau);
      var c, gap, fat := Layout(p, ty, pau, n), Gap(p, ty, pau), FatSectorsFor(ty, n);
      var start := if ty.FAT32? then 32 + p.nFat * fat else 1 + p.nFat * fat + p.nRoot / 16;
      && gap < p.szBlk && (p.bVol + start + gap) % p.szBlk == 0 && c.bFat == p.bVol + c.szRsv
      && (ty.FAT32? ==> c.szRsv == 32 + gap && c.szFat == fat && c.szDir == 0)
      && (!ty.FAT32? ==> c.szDir == p.nRoot / 16)
      && (!ty.FAT32? && p.nFat == 1 ==> c.szRsv == 1 && c.szFat == fat + gap)
      && (!ty.FAT32? && p.nFat == 2 ==> c.szRsv == 1 + gap % 2 && c.szFat == fat + gap / 2)
      && (start + gap <= p.szVol ==> c.nClst == Clusters(p.szVol - start - gap, pau))
  {
    hide IsPow2, AlignGap, FatSectorsFor, NeededFat, ClusterSize, Layout, Clusters;
    LayoutFacts(p, ty, pau);
    AuSizes(pau);
    LayoutParts(p, ty, pau, Clusters(p.szVol, pau));
  }

  /** Whole clusters are the quotient. */
  lemma ClustersAre(sectors: nat, pau: nat)
    requires ClusterSize(pau)
    ensures pau > 0 && Clusters(sectors, pau) == sectors / pau
  {
    AuSizes(pau);
  }

  /** The areas of type ty fit with sixteen clusters behind them, before the alignment. */
  ghost predicate Fits(p: Params, ty: FsType, pau: nat)
    requires pau > 0
  {
    Start(p, ty, pau) + 16 * pau <= p.szVol
  }

  /** With the automatic cluster size of pau sectors, a pass for FAT16 goes on with twice the size when FAT16 would have
      more than 65525 clusters, as long as that is at most 64 sectors; then with FAT32 if the options allow it, or with
      128 sectors. It also goes on with twice the size when there would be 4085 clusters or fewer. */
  lemma RetryOfFat16(p: Params)
    requires p.Valid()
    ensures var pau := AuFor(p, 0, FAT16);
      pau in [1, 2, 4, 8, 16, 32, 64] && pau == AutoAu(CST, p.szVol / 4096, 0, 1)
    ensures var pau := AuFor(p, 0, FAT16);
      var many := Room(p, FAT16, pau) < 0 || Clusters(Room(p, FAT16, pau), pau) > 65525;
      var few := Room(p, FAT16, pau) >= 0 && Clusters(Room(p, FAT16, pau), pau) <= 4085;
      var goesOn := Clusters(p.szVol, pau) > 4085 && Fits(p, FAT16, pau);
      && (goesOn && many && (pau <= 32 || !p.fat32Allowed) ==> Pass(p, 0, FAT16) == Retry(2 * pau, FAT16))
      && (goesOn && many && pau > 32 && p.fat32Allowed ==> Pass(p, 0, FAT16) == Retry(0, FAT32))
      && (goesOn && few ==> Pass(p, 0, FAT16) == Retry(2 * pau, FAT16))
      && (!goesOn || !(many || few) ==> !Pass(p, 0, FAT16).Retry?)
  {
    hide Layout, DataOfs, Clusters, Room, AutoAu, ClusterSize;
    AutoSizes(p);
    var pau := AuFor(p, 0, FAT16);
    var n0, ty := Clusters(p.szVol, pau), TypeFor(p, 0, FAT16);
    LayoutType(p, ty, pau, n0);
    if ty.FAT16? { LayoutFacts(p, FAT16, pau); }
  }

  lemma AutoSizes(p: Params)
    ensures AuFor(p, 0, FAT16) in [1, 2, 4, 8, 16, 32, 64] && AuFor(p, 0, FAT32) in [1, 2, 4, 8, 16, 32, 64]
    ensures AuFor(p, 0, FAT16) == AutoAu(CST, p.szVol / 4096, 0, 1)
    ensures AuFor(p, 0, FAT32) == AutoAu(CST32, p.szVol / 131072, 0, 1)
    ensures ClusterSize(AuFor(p, 0, FAT16)) && ClusterSize(AuFor(p, 0, FAT32))
  {
    hide AutoAu;
    AutoAuIs(p.szVol / 4096);
    AutoAuIs(p.szVol / 131072);
  }

  /** A pass for FAT32 goes on with half the automatic size while FAT32 would have 65525 clusters or fewer. */
  lemma RetryOfFat32(p: Params)
    requires p.Valid()
    ensures var pau := AuFor(p, 0, FAT32);
      pau in [1, 2, 4, 8, 16, 32, 64] && pau == AutoAu(CST32, p.szVol / 131072, 0, 1)
    ensures var pau := AuFor(p, 0, FAT32);
      var n0 := Clusters(p.szVol, pau);
      var few := Room(p, FAT32, pau) >= 0 && Clusters(Room(p, FAT32, pau), pau) <= 65525;
      Pass(p, 0, FAT32) ==
        if !(65525 < n0 <= 268435445 && Fits(p, FAT32, pau)) || (few && pau == 1) then Abort
        else if few then Retry(pau / 2, FAT32)
        else Done(Layout(p, FAT32, pau, n0))
  {
    hide Layout, DataOfs, Clusters, AutoAu, ClusterSize;
    AutoSizes(p);
    var pau := AuFor(p, 0, FAT32);
    var n0 := Clusters(p.szVol, pau);
    LayoutType(p, FAT32, pau, n0);
    if Tried(FAT32, n0) {
      LayoutFacts(p, FAT32, pau);
      RoomOfFat32(p, pau);
    }
  }

  /** What formatting with the automatic cluster size of pau sectors comes to, in terms of given sizes and the options:
      first for FAT12/16. */
  lemma AutomaticFat16(p: Params, pau: nat)
    requires p.Valid() && pau == AuFor(p, 0, FAT16) && pau in [1, 2, 4, 8, 16, 32, 64]
    ensures var many := Room(p, FAT16, pau) < 0 || Clusters(Room(p, FAT16, pau), pau) > 65525;
      var few := Room(p, FAT16, pau) >= 0 && Clusters(Room(p, FAT16, pau), pau) <= 4085;
      Settle(p, 0, FAT16) ==
        if !(Clusters(p.szVol, pau) > 4085 && Fits(p, FAT16, pau)) || !(many || few) then Pass(p, 0, FAT16)
        else if few || pau <= 32 || !p.fat32Allowed then Settle(p, 2 * pau, FAT16)
        else Settle(p, 0, FAT32)
  {
    hide Layout, Pass, Clusters, Room, AuFor, Fits;
    RetryOfFat16(p);
  }

  /** The same for FAT32. */
  lemma AutomaticFat32(p: Params, pau: nat)
    requires p.Valid() && pau == AuFor(p, 0, FAT32) && pau in [1, 2, 4, 8, 16, 32, 64]
    ensures var n0 := Clusters(p.szVol, pau);
      Settle(p, 0, FAT32) ==
        if !(65525 < n0 <= 268435445 && Fits(p, FAT32, pau)) then Abort
        else if Room(p, FAT32, pau) >= 0 && Clusters(Room(p, FAT32, pau), pau) <= 65525 then
          if pau == 1 then Abort else Settle(p, pau / 2, FAT32)
        else Done(Layout(p, FAT32, pau, n0))
  {
    hide Layout, Pass, Clusters, Room, AuFor, Fits;
    RetryOfFat32(p);
  }
}
