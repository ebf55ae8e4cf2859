/** The FAT12/16/32 branch of mount_volume: from the bytes of a boot sector to the geometry of the volume. */
module Mount {
  import opened Bits
  import opened Storage
  import opened Volume
  import opened FatTable

  /** Unsigned 32-bit arithmetic of DWORD. */
  function U32(x: int): nat { x % WORD32 }

  // Offsets in the boot sector.
  const BS_JmpBoot: nat := 0
  const BPB_BytsPerSec: nat := 11
  const BPB_SecPerClus: nat := 13
  const BPB_RsvdSecCnt: nat := 14
  const BPB_NumFATs: nat := 16
  const BPB_RootEntCnt: nat := 17
  const BPB_TotSec16: nat := 19
  const BPB_FATSz16: nat := 22
  const BPB_TotSec32: nat := 32
  const BPB_FATSz32: nat := 36
  const BPB_FSVer32: nat := 42
  const BPB_RootClus32: nat := 44
  const BS_FilSysType: nat := 54
  const BS_FilSysType32: nat := 82
  const BS_55AA: nat := 510

  const FAT_NAME: seq<byte> := [0x46, 0x41, 0x54, 0x20, 0x20, 0x20, 0x20, 0x20]     // "FAT     "
  const FAT32_NAME: seq<byte> := [0x46, 0x41, 0x54, 0x33, 0x32, 0x20, 0x20, 0x20]   // "FAT32   "

  /** check_fs on FAT12/16/32: the boot signature, a jump instruction and a FAT type string. */
  predicate IsFatVbr(sec: seq<byte>)
    requires |sec| == SS
  {
    && LdWord(sec, BS_55AA) == 0xAA55
    && (sec[BS_JmpBoot] == 0xE9 || sec[BS_JmpBoot] == 0xEB || sec[BS_JmpBoot] == 0xE8)
    && (sec[BS_FilSysType..BS_FilSysType + 3] == FAT_NAME[..3]
        || sec[BS_FilSysType32..BS_FilSysType32 + 5] == FAT32_NAME[..5])
  }

  datatype MountResult = NoFilesystem | Mounted(g: Geometry, dirbase: nat, nRootdir: nat)

  function FatSize(sec: seq<byte>): nat
    requires |sec| == SS
  {
    if LdWord(sec, BPB_FATSz16) != 0 then LdWord(sec, BPB_FATSz16) else LdDword(sec, BPB_FATSz32)
  }

  function TotalSectors(sec: seq<byte>): nat
    requires |sec| == SS
  {
    if LdWord(sec, BPB_TotSec16) != 0 then LdWord(sec, BPB_TotSec16) else LdDword(sec, BPB_TotSec32)
  }

  /** Sectors of all FATs. */
  function FatArea(fsize: nat, nFats: nat): (r: nat)
    ensures nFats == 1 ==> r == fsize
    ensures nFats == 2 ==> r == 2 * fsize
  {
    fsize * nFats
  }

  /** Reserved sectors, FATs and root directory, as the code adds them up in 32 bits. */
  function SystemSectors(sec: seq<byte>): nat
    requires |sec| == SS
  {
    U32(LdWord(sec, BPB_RsvdSecCnt) + U32(FatArea(FatSize(sec), sec[BPB_NumFATs] as nat))
        + LdWord(sec, BPB_RootEntCnt) / 16)
  }

  /** The FAT type by the number of clusters. */
  function TypeOf(nclst: nat): FsType {
    if nclst <= MAX_FAT12 then FAT12 else if nclst <= MAX_FAT16 then FAT16 else FAT32
  }

  /** Whole clusters in a number of sectors. */
  function Clusters(sectors: nat, csize: nat): (n: nat)
    requires csize > 0
    ensures csize * n <= sectors < csize * n + csize
  {
    sectors / csize
  }

  function MountFat(sec: seq<byte>, bsect: nat): MountResult
    requires |sec| == SS
  {
    MountWith(LdWord(sec, BPB_BytsPerSec), LdWord(sec, BPB_FSVer32), LdDword(sec, BPB_RootClus32),
              sec[BPB_NumFATs] as nat, sec[BPB_SecPerClus] as nat, LdWord(sec, BPB_RootEntCnt),
              LdWord(sec, BPB_RsvdSecCnt), TotalSectors(sec), FatSize(sec), SystemSectors(sec), bsect)
  }

  /** The checks of mount_volume on the values of the fields. */
  function MountWith(bps: nat, fsver: nat, rootClus: nat, nFats: nat, csize: nat, nRootdir: nat, nrsv: nat, tsect: nat,
                     fsize: nat, sysect: nat, bsect: nat): MountResult
  {
    if bps != SS then NoFilesystem
    else if nFats != 1 && nFats != 2 then NoFilesystem
    else if csize == 0 || And(csize, csize - 1) != 0 then NoFilesystem
    else if nRootdir % 16 != 0 || nrsv == 0 || tsect < sysect then NoFilesystem
    else
      var nclst := Clusters(tsect - sysect, csize);
      if nclst == 0 || nclst > MAX_FAT32 then NoFilesystem
      else
        var g := Geometry(TypeOf(nclst), nFats, csize, nclst + 2, fsize, bsect, bsect + nrsv, bsect + sysect);
        if g.fsType.FAT32? && (fsver != 0 || nRootdir != 0) then NoFilesystem
        else if !g.fsType.FAT32? && nRootdir == 0 then NoFilesystem
        else if g.fsize < (g.FatBytes() + SS - 1) / SS then NoFilesystem
        else Mounted(g,
                     if g.fsType.FAT32? then rootClus else g.fatbase + U32(FatArea(fsize, nFats)),
                     nRootdir)
  }

  /** A byte with no common one-bit with its predecessor is a power of two. */
  lemma OneBit(x: nat)
    requires 0 < x < 256 && And(x, x - 1) == 0
    ensures IsPow2(x)
    decreases x
  {
    if x == 1 {
      assert x == Pow2(0);
    } else if x % 2 == 0 {
      assert (x - 1) / 2 == x / 2 - 1;
      OneBit(x / 2);
      var k: nat :| x / 2 == Pow2(k);
      assert x == Pow2(k + 1);
    } else {
      assert And(x, x - 1) == 2 * And(x / 2, (x - 1) / 2);
      AndSelf(x / 2);
    }
  }

  lemma AndSelf(x: nat)
    ensures And(x, x) == x
  {
  }

  /** The cluster sizes that pass. */
  lemma OneBitIs(x: nat)
    requires 0 < x < 256
    ensures And(x, x - 1) == 0 <==> x in {1, 2, 4, 8, 16, 32, 64, 128}
  {
    hide And;
    Powers();
    if And(x, x - 1) == 0 {
      OneBit(x);
      var k: nat :| x == Pow2(k);
      if k >= 8 { PowBeyond(k); }
    }
    if x in {1, 2, 4, 8, 16, 32, 64, 128} {
      var k := if x == 1 then 0 else if x == 2 then 1 else if x == 4 then 2 else if x == 8 then 3
               else if x == 16 then 4 else if x == 32 then 5 else if x == 64 then 6 else 7;
      assert x == Pow2(k);
      MaskIsMod(x, k);
      DivUnique(x, x, 1, 0);
    }
  }

  lemma {:induction false} PowBeyond(k: nat)
    requires k >= 8
    ensures Pow2(k) >= 256
    decreases k
  {
    if k == 8 { Powers(); } else { PowBeyond(k - 1); }
  }

  /** Which bytes of a sector make it a FAT boot sector. */
  lemma VbrBytes(sec: seq<byte>)
    requires |sec| == 512
    ensures IsFatVbr(sec) <==>
      && sec[510] == 0x55 && sec[511] == 0xAA && (sec[0] == 0xE9 || sec[0] == 0xEB || sec[0] == 0xE8)
      && ((sec[54] == 0x46 && sec[55] == 0x41 && sec[56] == 0x54)
          || (sec[82] == 0x46 && sec[83] == 0x41 && sec[84] == 0x54 && sec[85] == 0x33 && sec[86] == 0x32))
  {
    var a, b := sec[54..57], sec[82..87];
    assert a == [sec[54], sec[55], sec[56]] && b == [sec[82], sec[83], sec[84], sec[85], sec[86]];
    assert FAT_NAME[..3] == [0x46, 0x41, 0x54] && FAT32_NAME[..5] == [0x46, 0x41, 0x54, 0x33, 0x32];
    assert sec[510] as nat + 0x100 * sec[511] as nat == 0xAA55 <==> sec[510] == 0x55 && sec[511] == 0xAA;
  }

  /** What mounting reads where, and when it accepts: the number of clusters n tells the FAT type. */
  lemma MountBytes(sec: seq<byte>, bsect: nat, csize: nat, nrsv: nat, nFats: nat, nRoot: nat, tot: nat, fsz: nat,
                   sys: nat, n: nat)
    requires |sec| == 512
    requires csize == sec[13] as nat && nrsv == sec[14] as nat + 0x100 * sec[15] as nat && nFats == sec[16] as nat
    requires nRoot == sec[17] as nat + 0x100 * sec[18] as nat
    requires var small := sec[19] as nat + 0x100 * sec[20] as nat;
      tot == if small != 0 then small
             else sec[32] as nat + 0x100 * sec[33] as nat + 0x1_0000 * sec[34] as nat + 0x100_0000 * sec[35] as nat
    requires var small := sec[22] as nat + 0x100 * sec[23] as nat;
      fsz == if small != 0 then small
             else sec[36] as nat + 0x100 * sec[37] as nat + 0x1_0000 * sec[38] as nat + 0x100_0000 * sec[39] as nat
    requires sys == (nrsv + fsz * nFats % 0x1_0000_0000 + nRoot / 16) % 0x1_0000_0000
    requires n == if csize > 0 && sys <= tot then (tot - sys) / csize else 0
    ensures MountFat(sec, bsect).Mounted? <==>
      && sec[11] == 0 && sec[12] == 2 && (nFats == 1 || nFats == 2) && csize in {1, 2, 4, 8, 16, 32, 64, 128}
      && nRoot % 16 == 0 && nrsv != 0 && 0 < n <= 0x0FFF_FFF5
      && (if n <= 65525 then nRoot != 0 else nRoot == 0 && sec[42] == 0 && sec[43] == 0)
      && (if n <= 4085 then 3 * (n + 2) <= 2 * 512 * fsz else if n <= 65525 then 2 * (n + 2) <= 512 * fsz
          else 4 * (n + 2) <= 512 * fsz)
    ensures MountFat(sec, bsect).Mounted? ==>
      && MountFat(sec, bsect).g ==
         Geometry(if n <= 4085 then FAT12 else if n <= 65525 then FAT16 else FAT32, nFats, csize, n + 2, fsz,
                  bsect, bsect + nrsv, bsect + sys)
      && MountFat(sec, bsect).nRootdir == nRoot
      && MountFat(sec, bsect).dirbase ==
         if n <= 65525 then bsect + nrsv + fsz * nFats % 0x1_0000_0000
         else sec[44] as nat + 0x100 * sec[45] as nat + 0x1_0000 * sec[46] as nat + 0x100_0000 * sec[47] as nat
  {
    hide MountWith;
    FieldBytes(sec);
    MountNumbers(LdWord(sec, 11), LdWord(sec, 42), LdDword(sec, 44),
                 nFats, csize, nRoot, nrsv, tot, fsz, sys, bsect, n);
  }

  lemma FieldBytes(sec: seq<byte>)
    requires |sec| == 512
    ensures LdWord(sec, 11) == 512 <==> sec[11] == 0 && sec[12] == 2
    ensures LdWord(sec, 42) == 0 <==> sec[42] == 0 && sec[43] == 0
  {
  }

  /** The checks on the numbers. */
  lemma MountNumbers(bps: nat, fsver: nat, rootClus: nat, nFats: nat, csize: nat, nRoot: nat, nrsv: nat, tot: nat,
                     fsz: nat, sys: nat, bsect: nat, n: nat)
    requires csize < 256 && n == if csize > 0 && sys <= tot then (tot - sys) / csize else 0
    ensures var r := MountWith(bps, fsver, rootClus, nFats, csize, nRoot, nrsv, tot, fsz, sys, bsect);
      && (r.Mounted? <==>
           && bps == 512 && (nFats == 1 || nFats == 2) && csize in {1, 2, 4, 8, 16, 32, 64, 128}
           && nRoot % 16 == 0 && nrsv != 0 && 0 < n <= 0x0FFF_FFF5
           && (if n <= 65525 then nRoot != 0 else nRoot == 0 && fsver == 0)
           && (if n <= 4085 then 3 * (n + 2) <= 2 * 512 * fsz else if n <= 65525 then 2 * (n + 2) <= 512 * fsz
               else 4 * (n + 2) <= 512 * fsz))
      && (r.Mounted? ==>
           && r.g == Geometry(if n <= 4085 then FAT12 else if n <= 65525 then FAT16 else FAT32,
                              nFats, csize, n + 2, fsz, bsect, bsect + nrsv, bsect + sys)
           && r.nRootdir == nRoot
           && r.dirbase == if n <= 65525 then bsect + nrsv + fsz * nFats % 0x1_0000_0000 else rootClus)
  {
    hide And, Clusters, IsPow2, Geometry.FatBytes, TypeOf;
    if csize > 0 { OneBitIs(csize); }
    if csize > 0 && sys <= tot { ClustersIs(tot - sys, csize); }
    TypeIs(n);
    NeedIs(Geometry(TypeOf(n), nFats, csize, n + 2, fsz, bsect, bsect + nrsv, bsect + sys));
  }

  /** The FAT type by the number of clusters. */
  lemma TypeIs(n: nat)
    ensures TypeOf(n) == if n <= 4085 then FAT12 else if n <= 65525 then FAT16 else FAT32
  {
  }

  /** The FAT is too small exactly when its sectors have fewer bytes than the entries need. */
  lemma NeedIs(g: Geometry)
    ensures g.fsize < (g.FatBytes() + SS - 1) / SS <==>
      match g.fsType
      case FAT12 => 3 * g.nFatent > 2 * 512 * g.fsize
      case FAT16 => 2 * g.nFatent > 512 * g.fsize
      case FAT32 => 4 * g.nFatent > 512 * g.fsize
      case EXFAT => 4 * g.nFatent > 512 * g.fsize
  {
    hide Geometry.FatBytes;
    CeilIs(g.FatBytes(), g.fsize);
    FatBytesIs(g);
  }

  lemma FatBytesIs(g: Geometry)
    ensures g.fsType.FAT12? ==> 3 * g.nFatent <= 2 * g.FatBytes() <= 3 * g.nFatent + 1
    ensures g.fsType.FAT16? ==> g.FatBytes() == 2 * g.nFatent
    ensures g.fsType.FAT32? || g.fsType.EXFAT? ==> g.FatBytes() == 4 * g.nFatent
  {
    HalfUp(g.nFatent);
  }

  lemma HalfUp(n: nat)
    ensures 3 * n <= 2 * (n * 3 / 2 + n % 2) <= 3 * n + 1
  {
    var q, r := n / 2, n % 2;
    DivMod(n, 2);
    DivUnique(n * 3, 2, 3 * q + r, r);
  }

  lemma CeilIs(bytes: nat, sectors: nat)
    ensures sectors < (bytes + 511) / 512 <==> bytes > 512 * sectors
  {
  }

  lemma ClustersIs(sectors: nat, csize: nat)
    requires csize > 0
    ensures Clusters(sectors, csize) == sectors / csize
  {
  }

  /** The sum of the areas before the data, without 32-bit wrap-around. */
  function TrueSystemSectors(sec: seq<byte>): nat
    requires |sec| == SS
  {
    LdWord(sec, BPB_RsvdSecCnt) + FatArea(FatSize(sec), sec[BPB_NumFATs] as nat) + LdWord(sec, BPB_RootEntCnt) / 16
  }

  lemma WordRange(sec: seq<byte>, o: nat)
    requires o + 4 <= |sec|
    ensures LdWord(sec, o) < 0x1_0000 && LdDword(sec, o) < 0x1_0000_0000
  {
  }

  /** The wrapped sum leaves room for a and b exactly when nothing wrapped. */
  lemma Wrap(a: nat, b: nat, c: nat)
    requires a < 0x1_0000 && c < 0x1_0000
    ensures a + b + c < 0x1_0000_0000 ==> U32(a + U32(b) + c) == a + b + c
    ensures a + b <= U32(a + U32(b) + c) <==> a + b + c < 0x1_0000_0000
  {
    if b >= 0x1_0000_0000 {
      assert U32(a + U32(b) + c) < 0x1_0000_0000;
    } else {
      assert U32(b) == b;
    }
  }

  lemma SectorsHold(bytes: nat, sectors: nat)
    requires sectors >= (bytes + SS - 1) / SS
    ensures bytes <= SS * sectors
  {
  }

  /** What the checks of mount_volume establish. */
  lemma MountedFacts(sec: seq<byte>, bsect: nat)
    requires |sec| == SS && MountFat(sec, bsect).Mounted?
    ensures var g := MountFat(sec, bsect).g;
      && (g.nFats == 1 || g.nFats == 2) && g.csize > 0 && IsPow2(g.csize)
      && 3 <= g.nFatent <= g.MaxClusters() + 2 && g.FatBytes() <= SS * g.fsize
      && g.volbase == bsect < g.fatbase && g.fatbase == bsect + LdWord(sec, BPB_RsvdSecCnt)
      && g.database == bsect + SystemSectors(sec) && SystemSectors(sec) <= TotalSectors(sec)
      && g.csize * (g.nFatent - 2) <= TotalSectors(sec) - SystemSectors(sec)
      && g.FatSectors() == FatArea(FatSize(sec), sec[BPB_NumFATs] as nat)
  {
    hide LdWord, LdDword, And, FatArea, IsPow2, Clusters, Geometry.FatBytes;
    var g := MountFat(sec, bsect).g;
    OneBit(g.csize);
    SectorsHold(g.FatBytes(), g.fsize);
  }

  /** A mounted volume has a layout in which FATs, root directory and data do not overlap exactly when the sum of
      the areas before the data fits 32 bits; mount_volume does not check that. */
  lemma MountedLayout(sec: seq<byte>, bsect: nat, limit: nat)
    requires |sec| == SS && MountFat(sec, bsect).Mounted?
    requires bsect + TotalSectors(sec) <= limit < LBA_LIMIT
    ensures var g := MountFat(sec, bsect).g; g.DataFits(limit) <==> TrueSystemSectors(sec) < 0x1_0000_0000
  {
    MountedFacts(sec, bsect);
    WordRange(sec, BPB_RsvdSecCnt);
    WordRange(sec, BPB_RootEntCnt);
    Wrap(LdWord(sec, BPB_RsvdSecCnt), FatArea(FatSize(sec), sec[BPB_NumFATs] as nat), LdWord(sec, BPB_RootEntCnt) / 16);
    hide MountFat, LdWord, LdDword, FatArea, IsPow2, Geometry.FatBytes, FatSize, TotalSectors, Geometry.FatSectors, U32;
  }

  /** Where the root directory of a FAT12/16 volume lies: between the FATs and the data. */
  lemma MountedRoot(sec: seq<byte>, bsect: nat)
    requires |sec| == SS && MountFat(sec, bsect).Mounted? && !MountFat(sec, bsect).g.fsType.FAT32?
    requires TrueSystemSectors(sec) < 0x1_0000_0000
    ensures var m := MountFat(sec, bsect);
      m.dirbase == m.g.fatbase + m.g.FatSectors() && m.dirbase + m.nRootdir / 16 == m.g.database
  {
    hide LdWord, LdDword, FatArea, IsPow2, Geometry.FatBytes, Clusters, And, Geometry.FatSectors, FatSize, U32;
    MountedFacts(sec, bsect);
    WordRange(sec, BPB_RootEntCnt);
    WordRange(sec, BPB_RsvdSecCnt);
    U32Small(FatArea(FatSize(sec), sec[BPB_NumFATs] as nat));
    Wrap(LdWord(sec, BPB_RsvdSecCnt), FatArea(FatSize(sec), sec[BPB_NumFATs] as nat), LdWord(sec, BPB_RootEntCnt) / 16);
  }

  lemma U32Small(x: nat)
    ensures x < 0x1_0000_0000 ==> U32(x) == x
  {
  }

  /** A boot sector with two FATs of 0x80000001 sectors. */
  function HugeFats(): (sec: seq<byte>)
    ensures |sec| == SS
  {
    seq(SS, i => if i == 0 then 0xEB else if i == 1 then 0xFE else if i == 2 then 0x90
                 else if i == 12 then 0x02 else if i == 13 then 1 else if i == 14 then 32 else if i == 16 then 2
                 else if i == 33 then 0x20 else if i == 34 then 0x01
                 else if i == 36 then 1 else if i == 39 then 0x80 else if i == 44 then 2
                 else if i == 82 then 0x46 else if i == 83 then 0x41 else if i == 84 then 0x54
                 else if i == 85 then 0x33 else if i == 86 then 0x32
                 else if i == 510 then 0x55 else if i == 511 then 0xAA else 0)
  }

  lemma HugeFatsVbr()
    ensures IsFatVbr(HugeFats())
  {
    var sec := HugeFats();
    var name := sec[BS_FilSysType32..BS_FilSysType32 + 5];
    assert name[0] == 0x46 && name[1] == 0x41 && name[2] == 0x54 && name[3] == 0x33 && name[4] == 0x32;
    assert name == FAT32_NAME[..5];
  }

  /** It is taken for a FAT boot sector and mounted, because the size of both FATs together wraps around to 2 sectors,
      and its data area overlaps its FATs. */
  lemma HugeFatsMounted()
    ensures IsFatVbr(HugeFats())
    ensures MountFat(HugeFats(), 0).Mounted? && !MountFat(HugeFats(), 0).g.DataFits(0x12000)
  {
    HugeFatsVbr();
    hide IsFatVbr;
    var sec := HugeFats();
    assert LdWord(sec, BPB_BytsPerSec) == SS && LdWord(sec, BPB_RsvdSecCnt) == 32 && LdWord(sec, BPB_RootEntCnt) == 0;
    assert LdWord(sec, BPB_TotSec16) == 0 && LdDword(sec, BPB_TotSec32) == 0x12000;
    assert LdWord(sec, BPB_FATSz16) == 0 && LdDword(sec, BPB_FATSz32) == 0x80000001;
    assert LdWord(sec, BPB_FSVer32) == 0 && And(1, 0) == 0;
    assert FatArea(0x80000001, 2) == 0x1_0000_0002;
    assert SystemSectors(sec) == 34;
    var n := Clusters(0x12000 - 34, 1);
    assert n == 0x12000 - 34;
    assert MountFat(sec, 0).Mounted?;
    MountedLayout(sec, 0, 0x12000);
  }
}
