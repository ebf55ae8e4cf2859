/** Geometry of a mounted volume, and the volume as the file system sees it through its sector window. */
module Volume {
  import opened Bits
  import opened Storage

  datatype FsType = FAT12 | FAT16 | FAT32 | EXFAT

  const MAX_FAT12: nat := 0xFF5
  const MAX_FAT16: nat := 0xFFF5
  const MAX_FAT32: nat := 0x0FFFFFF5
  const MAX_EXFAT: nat := 0x7FFFFFFD

  /** The fields of FATFS that mounting computes once. */
  datatype Geometry = Geometry(
    fsType: FsType,
    nFats: nat,        // number of FATs
    csize: nat,        // cluster size in sectors
    nFatent: nat,      // number of FAT entries: clusters + 2
    fsize: nat,        // sectors per FAT
    volbase: nat,      // first sector of the volume
    fatbase: nat,      // first sector of the FAT
    database: nat)     // first sector of cluster 2
  {
    function MaxClusters(): nat {
      match fsType
      case FAT12 => MAX_FAT12
      case FAT16 => MAX_FAT16
      case FAT32 => MAX_FAT32
      case EXFAT => MAX_EXFAT
    }

    /** Bytes a FAT needs for nFatent entries. */
    function FatBytes(): nat {
      match fsType
      case FAT12 => nFatent * 3 / 2 + nFatent % 2
      case FAT16 => nFatent * 2
      case FAT32 => nFatent * 4
      case EXFAT => nFatent * 4
    }

    function FatSectors(): nat { if nFats == 2 then 2 * fsize else fsize }

    /** Layout of the FAT area. */
    ghost predicate Valid() {
      && (nFats == 1 || nFats == 2)
      && 3 <= nFatent <= MaxClusters() + 2
      && FatBytes() <= SS * fsize
      && volbase < fatbase && fatbase + FatSectors() <= database < LBA_LIMIT
    }

    function ClusterBytes(): nat { SS * csize }

    /** Layout of the data area: nFatent - 2 clusters of a power of two sectors each, below sector `limit`. */
    ghost predicate DataFits(limit: nat) {
      Valid() && csize > 0 && IsPow2(csize) && database + csize * (nFatent - 2) <= limit
    }

    /** Sector s belongs to the second FAT, which is written as a copy and never read. */
    predicate CopySector(s: nat) { nFats == 2 && fatbase + fsize <= s < fatbase + 2 * fsize }

    predicate CopyByte(a: nat) { nFats == 2 && SS * (fatbase + fsize) <= a < SS * (fatbase + 2 * fsize) }

    /** Byte a belongs to the first FAT. */
    predicate FatByte(a: nat) { SS * fatbase <= a < SS * (fatbase + fsize) }
  }

  /** The largest number of clusters of each type. */
  lemma MaxClustersIs(g: Geometry)
    ensures g.MaxClusters() == match g.fsType
                               case FAT12 => 4085
                               case FAT16 => 65525
                               case FAT32 => 0x0FFF_FFF5
                               case EXFAT => 0x7FFF_FFFD
  {
  }

  /** The volume as the file system sees it: the drive with a dirty window laid over its sector. The second
      FAT is only ever written, so its bytes are left out of the view. */
  ghost function Image(g: Geometry, data: seq<byte>, winsect: nat, win: seq<byte>, dirty: bool): (v: seq<byte>)
    requires |win| == SS
    ensures |v| == |data|
    ensures forall a {:trigger v[a]} :: 0 <= a < |data| ==>
      v[a] == if g.CopyByte(a) then 0
              else if dirty && SS * winsect <= a < SS * winsect + SS then win[a - SS * winsect]
              else data[a]
  {
    seq(|data|, a requires 0 <= a < |data| && |win| == SS =>
      if g.CopyByte(a) then 0
      else if dirty && SS * winsect <= a < SS * winsect + SS then win[a - SS * winsect]
      else data[a])
  }

  /** Within g's first FAT the copy agrees, except where the window is dirty. */
  ghost predicate CopyAgrees(g: Geometry, data: seq<byte>, winsect: nat, dirty: bool)
    requires g.Valid() && g.nFats == 2 && SS * g.database <= |data|
  {
    forall a: nat {:trigger g.FatByte(a)} :: g.FatByte(a) && !(dirty && SS * winsect <= a < SS * winsect + SS) ==>
      data[a] == data[a + SS * g.fsize]
  }

  lemma DirtyCopies(g: Geometry, data: seq<byte>, winsect: nat, dirty: bool)
    requires g.Valid() && g.nFats == 2 && SS * g.database <= |data| && CopyAgrees(g, data, winsect, dirty)
    ensures CopyAgrees(g, data, winsect, true)
  {
  }

  /** Writing the dirty window back does not change the volume's view. */
  lemma FlushKeepsImage(g: Geometry, d: seq<byte>, s: nat, w: seq<byte>)
    requires |w| == SS && SS * s + SS <= |d|
    ensures Image(g, Splice(d, SS * s, w), s, w, false) == Image(g, d, s, w, true)
  {
  }

  /** Writing a sector of the second FAT does not change the volume's view. */
  lemma CopyKeepsImage(g: Geometry, d: seq<byte>, d': seq<byte>, s: nat, c: nat, w: seq<byte>, dirty: bool)
    requires |w| == SS && g.CopySector(c) && SameOutside(d, d', SS * c, SS)
    ensures Image(g, d', s, w, dirty) == Image(g, d, s, w, dirty)
  {
  }

  /** A failed write under the dirty window does not change the volume's view. */
  lemma FailKeepsImage(g: Geometry, d: seq<byte>, d': seq<byte>, s: nat, w: seq<byte>)
    requires |w| == SS && SameOutside(d, d', SS * s, SS)
    ensures Image(g, d', s, w, true) == Image(g, d, s, w, true)
  {
  }

  /** A clean window does not show in the view. */
  lemma CleanImage(g: Geometry, d: seq<byte>, s: nat, w: seq<byte>, s': nat, w': seq<byte>)
    requires |w| == SS && |w'| == SS
    ensures Image(g, d, s, w, false) == Image(g, d, s', w', false)
  {
  }

  /** A window that is dirty or shows its sector holds the view's bytes of that sector. */
  lemma WindowShowsImage(g: Geometry, d: seq<byte>, s: nat, w: seq<byte>, dirty: bool)
    requires |w| == SS && SS * s + SS <= |d| && !g.CopySector(s)
    requires dirty || d[SS * s..SS * s + SS] == w
    ensures Image(g, d, s, w, dirty)[SS * s..SS * s + SS] == w
  {
    var v := Image(g, d, s, w, dirty);
    forall o | 0 <= o < SS ensures v[SS * s + o] == w[o] {
      assert !g.CopyByte(SS * s + o);
      assert !dirty ==> d[SS * s..SS * s + SS][o] == d[SS * s + o];
    }
  }

  /** Storing bytes into the window stores them into the view. */
  lemma PutImage(g: Geometry, d: seq<byte>, s: nat, w: seq<byte>, dirty: bool, o: nat, bs: seq<byte>)
    requires |w| == SS && SS * s + SS <= |d| && !g.CopySector(s) && o + |bs| <= SS
    requires dirty || d[SS * s..SS * s + SS] == w
    ensures Image(g, d, s, Splice(w, o, bs), true) == Splice(Image(g, d, s, w, dirty), SS * s + o, bs)
  {
    var v := Image(g, d, s, w, dirty);
    WindowShowsImage(g, d, s, w, dirty);
    forall a | 0 <= a < |d|
      ensures Image(g, d, s, Splice(w, o, bs), true)[a] == Splice(v, SS * s + o, bs)[a]
    {
      if SS * s <= a < SS * s + SS {
        assert v[SS * s..SS * s + SS][a - SS * s] == v[a];
        assert !g.CopyByte(a);
      }
    }
  }

  /** Reflecting the flushed sector to the second FAT restores the agreement there. */
  lemma FlushKeepsCopies(g: Geometry, d: seq<byte>, d2: seq<byte>, s: nat, w: seq<byte>)
    requires |w| == SS && g.Valid() && SS * g.database <= |d| && g.nFats == 2
    requires SS * s + SS <= |d| && CopyAgrees(g, d, s, true) && !g.CopySector(s)
    requires var d1 := Splice(d, SS * s, w);
      d2 == if g.fatbase <= s < g.fatbase + g.fsize then Splice(d1, SS * (s + g.fsize), w) else d1
    ensures CopyAgrees(g, d2, s, false)
  {
    forall a: nat {:trigger g.FatByte(a)} | g.FatByte(a) ensures d2[a] == d2[a + SS * g.fsize] {
      if SS * s <= a < SS * s + SS {
        assert d2[a] == w[a - SS * s];
      } else {
        assert d2[a] == d[a];
      }
    }
  }

  /** A failed write under the dirty window does not concern the FAT copies. */
  lemma FailKeepsCopies(g: Geometry, d: seq<byte>, d': seq<byte>, s: nat)
    requires g.Valid() && g.nFats == 2 && SS * g.database <= |d| && CopyAgrees(g, d, s, true) && !g.CopySector(s)
    requires SameOutside(d, d', SS * s, SS)
    ensures CopyAgrees(g, d', s, true)
  {
    hide Geometry.FatBytes, Geometry.MaxClusters;
    forall a: nat {:trigger g.FatByte(a)} | g.FatByte(a) && !(SS * s <= a < SS * s + SS)
      ensures d'[a] == d'[a + SS * g.fsize]
    {
      assert d[a] == d[a + SS * g.fsize];
    }
  }

  datatype FRESULT = FR_OK | FR_DISK_ERR | FR_INT_ERR | FR_DENIED | FR_NOT_ENOUGH_CORE

  /** The mutable part of FATFS. */
  class FatFs {
    const g: Geometry
    const drive: Drive
    const bitbase: nat  // first sector of the allocation bitmap (exFAT)
    const win: array<byte>
    var winsect: nat    // sector appearing in win
    var wflag: bool     // win differs from the drive
    var lastClst: nat   // last allocated cluster
    var freeClst: nat   // number of free clusters, when at most nFatent - 2
    var fsiFlag: bool   // FSINFO needs writing
    ghost var copyLost: bool  // some write to the second FAT failed; the code does not look at its result

    /** The state mount_volume leaves: nothing in the window that matters, allocation hints unknown. */
    constructor (geometry: Geometry, d: Drive, bitmap: nat)
      requires geometry.Valid() && d.Valid() && geometry.database <= d.sectors
      ensures Valid() && Coherent() && g == geometry && drive == d && bitbase == bitmap && fresh(win) && !copyLost
      ensures lastClst == freeClst == 0xFFFFFFFF && !wflag && |View()| == |d.data|
      // the volume is what the drive holds
      ensures forall a :: 0 <= a < |d.data| ==> View()[a] == if g.CopyByte(a) then 0 else d.data[a]
      ensures Mirrored() <==> (g.nFats == 2 ==> CopyAgrees(g, d.data, winsect, false))
    {
      g, drive, bitbase := geometry, d, bitmap;
      win := new byte[SS](_ => 0);
      winsect, wflag := LBA_LIMIT - 1, false;
      lastClst, freeClst, fsiFlag, copyLost := 0xFFFFFFFF, 0xFFFFFFFF, false, false;
    }

    ghost predicate Valid()
      reads `winsect, `wflag, `copyLost, win, drive
    {
      && win.Length == SS && g.Valid() && drive.Valid() && g.database <= drive.sectors
      && winsect < LBA_LIMIT
      && (wflag ==> winsect < drive.sectors && !g.CopySector(winsect))
      && (drive.reliable ==> !copyLost)
    }

    /** A clean window shows its sector. */
    ghost predicate Coherent()
      requires Valid()
      reads `winsect, `wflag, `copyLost, win, drive
    {
      !wflag && winsect < drive.sectors ==> drive.data[SS * winsect..SS * winsect + SS] == win[..]
    }

    ghost function View(): seq<byte>
      requires Valid()
      reads `winsect, `wflag, `copyLost, win, drive
    {
      Image(g, drive.data, winsect, win[..], wflag)
    }

    /** The FAT copies differ at most in the dirty window sector, unless a write to the copy failed. */
    ghost predicate Mirrored()
      requires Valid()
      reads `winsect, `wflag, `copyLost, win, drive
    {
      g.nFats == 2 && !copyLost ==> CopyAgrees(g, drive.data, winsect, wflag)
    }

    /** With two FATs and a drive whose writes succeed, the copies differ at most in the dirty window sector. */
    lemma ReliableCopies()
      requires Valid() && Mirrored() && drive.reliable && g.nFats == 2
      ensures CopyAgrees(g, drive.data, winsect, wflag)
    {
    }

    /** sync_window */
    method SyncWindow() returns (res: FRESULT)
      requires Valid()
      modifies this`wflag, this`copyLost, drive
      ensures Valid() && View() == old(View()) && (old(Mirrored()) ==> Mirrored())
      ensures res == FR_OK || res == FR_DISK_ERR
      ensures res == FR_OK ==> !wflag && (old(Coherent()) ==> Coherent())
      ensures res == FR_DISK_ERR ==> wflag && old(wflag)
      ensures drive.reliable ==> res == FR_OK
    {
      hide Geometry.FatBytes, Geometry.MaxClusters, Splice, Image, CopyAgrees, Geometry.Valid;
      res := FR_OK;
      if wflag {
        ghost var d := drive.data;
        var ok := FlushWindow();
        if ok {
          ok := ReflectToCopy();
          if !ok { copyLost := true; }
          if g.nFats == 2 && !copyLost && old(Mirrored()) {
            FlushKeepsCopies(g, d, drive.data, winsect, win[..]);
          }
        } else {
          res := FR_DISK_ERR;
        }
      }
    }

    /** The first half of sync_window: write the dirty window back to its sector. */
    method FlushWindow() returns (ok: bool)
      requires Valid() && wflag
      modifies this`wflag, drive
      ensures Valid() && View() == old(View()) && wflag == !ok && (drive.reliable ==> ok)
      ensures ok ==> drive.data == Splice(old(drive.data), SS * winsect, win[..])
      ensures ok ==> drive.data[SS * winsect..SS * winsect + SS] == win[..]
      ensures !ok && old(Mirrored()) ==> Mirrored()
    {
      hide Geometry.FatBytes, Geometry.MaxClusters, Splice, Image, CopyAgrees, Geometry.Valid;
      ghost var d, w := drive.data, win[..];
      ok := drive.Write(win, 0, winsect, 1);
      assert win[0..SS] == w;
      if ok {
        FlushKeepsImage(g, d, winsect, w);
        wflag := false;
      } else {
        FailKeepsImage(g, d, drive.data, winsect, w);
        if g.nFats == 2 && !copyLost && old(Mirrored()) { FailKeepsCopies(g, d, drive.data, winsect); }
      }
    }

    /** The second half of sync_window: a flushed sector of the first FAT goes to the second one as well. */
    method ReflectToCopy() returns (ok: bool)
      requires Valid() && !wflag && winsect < drive.sectors && !g.CopySector(winsect)
      modifies drive
      ensures Valid() && View() == old(View())
      ensures drive.data[SS * winsect..SS * winsect + SS] == old(drive.data[SS * winsect..SS * winsect + SS])
      ensures var toCopy := g.nFats == 2 && g.fatbase <= winsect < g.fatbase + g.fsize;
        ok && toCopy ==> drive.data == Splice(old(drive.data), SS * (winsect + g.fsize), win[..])
      ensures var toCopy := g.nFats == 2 && g.fatbase <= winsect < g.fatbase + g.fsize;
        ok && !toCopy ==> drive.data == old(drive.data)
      ensures drive.reliable ==> ok
    {
      ok := true;
      Sub64InRange(winsect, g.fatbase, g.fsize);
      if Sub64(winsect, g.fatbase) < g.fsize {
        if g.nFats == 2 {
          ok := drive.Write(win, 0, winsect + g.fsize, 1);
          assert win[0..SS] == win[..];
          CopyKeepsImage(g, old(drive.data), drive.data, winsect, winsect + g.fsize, win[..], false);
        }
      }
    }

    /** move_window. A window that already is at the sector is left as it is, whatever it shows. */
    method MoveWindow(sect: nat) returns (res: FRESULT)
      requires Valid() && (Coherent() || winsect == sect) && sect < LBA_LIMIT
      modifies this`winsect, this`wflag, this`copyLost, win, drive
      ensures Valid() && View() == old(View()) && (old(Mirrored()) ==> Mirrored())
      ensures old(Coherent()) ==> Coherent()
      ensures res == FR_OK || res == FR_DISK_ERR
      ensures res == FR_OK ==> winsect == sect
      ensures drive.reliable && sect < drive.sectors ==> res == FR_OK
      ensures old(Coherent()) && res == FR_OK && sect < drive.sectors && !g.CopySector(sect) ==>
        View()[SS * sect..SS * sect + SS] == win[..]
    {
      hide Geometry.FatBytes, Geometry.MaxClusters, Splice, Image;
      res := FR_OK;
      if sect != winsect {
        res := SyncWindow();
        if res == FR_OK {
          ghost var s, w := winsect, win[..];
          var ok := drive.Read(win, 0, sect, 1);
          assert win[0..SS] == win[..];
          CleanImage(g, drive.data, s, w, if ok then sect else LBA_LIMIT - 1, win[..]);
          if ok {
            winsect := sect;
          } else {
            winsect := Sub64(0, 1);
            res := FR_DISK_ERR;
          }
        }
      }
      if old(Coherent()) && res == FR_OK && sect < drive.sectors && !g.CopySector(sect) {
        WindowShowsImage(g, drive.data, sect, win[..], wflag);
      }
    }

    /** Store bytes into the window and mark it dirty. */
    method Put(o: nat, bs: seq<byte>)
      requires Valid() && Coherent() && o + |bs| <= SS && winsect < drive.sectors && !g.CopySector(winsect)
      modifies this`wflag, win
      ensures Valid() && wflag
      ensures View() == Splice(old(View()), SS * winsect + o, bs)
      ensures old(Mirrored()) ==> Mirrored()
    {
      hide Image, CopyAgrees, Splice, Geometry.Valid;
      ghost var w := win[..];
      MemCpy(win, o, bs);
      PutImage(g, drive.data, winsect, w, wflag, o, bs);
      if g.nFats == 2 && old(Mirrored()) && !copyLost { DirtyCopies(g, drive.data, winsect, wflag); }
      wflag := true;
    }
  }
}
