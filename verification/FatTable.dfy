/** The FAT as bytes: entries of 12, 16, 28 or 31 bits packed little-endian (section 4.1 of the Microsoft FAT
    specification), and the functions that read and change one entry through the sector window. */
module FatTable {
  import opened Bits
  import opened Storage
  import opened Volume

  function LdWord(w: seq<byte>, o: nat): nat
    requires o + 2 <= |w|
  {
    w[o] as nat + 0x100 * w[o + 1] as nat
  }

  function LdDword(w: seq<byte>, o: nat): nat
    requires o + 4 <= |w|
  {
    w[o] as nat + 0x100 * w[o + 1] as nat + 0x1_0000 * w[o + 2] as nat + 0x100_0000 * w[o + 3] as nat
  }

  function WordBytes(v: nat): (bs: seq<byte>)
    ensures |bs| == 2
  {
    [v % 0x100, v / 0x100 % 0x100]
  }

  function DwordBytes(v: nat): (bs: seq<byte>)
    ensures |bs| == 4
  {
    [v % 0x100, v / 0x100 % 0x100, v / 0x1_0000 % 0x100, v / 0x100_0000 % 0x100]
  }

  /** The largest value an entry holds. */
  function EntryMask(t: FsType): nat {
    match t
    case FAT12 => 0xFFF
    case FAT16 => 0xFFFF
    case FAT32 => 0x0FFFFFFF
    case EXFAT => 0x7FFFFFFF
  }

  /** Byte offset of entry c in the FAT. */
  function EntryOfs(t: FsType, c: nat): nat {
    match t
    case FAT12 => c + c / 2
    case FAT16 => 2 * c
    case FAT32 => 4 * c
    case EXFAT => 4 * c
  }

  function EntryLen(t: FsType): nat {
    if t.FAT12? || t.FAT16? then 2 else 4
  }

  ghost predicate Holds(g: Geometry, v: seq<byte>) { g.Valid() && SS * g.database <= |v| }

  lemma EntryFits(g: Geometry, c: nat)
    requires g.Valid() && c < g.nFatent
    ensures EntryOfs(g.fsType, c) + EntryLen(g.fsType) <= SS * g.fsize
  {
  }

  /** The value of FAT entry c in the view v of a volume. */
  ghost function Link(g: Geometry, v: seq<byte>, c: nat): nat
    requires Holds(g, v) && c < g.nFatent
  {
    EntryFits(g, c);
    var a := SS * g.fatbase + EntryOfs(g.fsType, c);
    match g.fsType
    case FAT12 => if c % 2 == 1 then LdWord(v, a) / 16 else LdWord(v, a) % 0x1000
    case FAT16 => LdWord(v, a)
    case FAT32 => LdDword(v, a) % 0x1000_0000
    case EXFAT => LdDword(v, a) % 0x8000_0000
  }

  /** All entries of the FAT. */
  ghost function Links(g: Geometry, v: seq<byte>): (t: seq<nat>)
    requires Holds(g, v)
    ensures |t| == g.nFatent
    ensures forall c :: 0 <= c < g.nFatent ==> t[c] == Link(g, v, c)
  {
    seq(g.nFatent, c requires 0 <= c < g.nFatent && Holds(g, v) => Link(g, v, c))
  }

  /** What the bytes of an entry mean. */
  lemma LinkBytes(g: Geometry, v: seq<byte>, c: nat)
    requires Holds(g, v) && c < g.nFatent
    ensures var a := 512 * g.fatbase + c + c / 2;
      g.fsType.FAT12? ==>
        && a + 1 < |v|
        && Links(g, v)[c] == if c % 2 == 1 then v[a] as nat / 0x10 + 0x10 * v[a + 1] as nat
           else v[a] as nat + 0x100 * (v[a + 1] as nat % 0x10)
    ensures var a := 512 * g.fatbase + 2 * c;
      g.fsType.FAT16? ==>
        a + 1 < |v| && Links(g, v)[c] == v[a] as nat + 0x100 * v[a + 1] as nat
    ensures var a := 512 * g.fatbase + 4 * c;
      g.fsType.FAT32? ==>
        && a + 3 < |v|
        && Links(g, v)[c] == v[a] as nat + 0x100 * v[a + 1] as nat + 0x1_0000 * v[a + 2] as nat
                    + 0x100_0000 * (v[a + 3] as nat % 0x10)
    ensures var a := 512 * g.fatbase + 4 * c;
      g.fsType.EXFAT? ==>
        && a + 3 < |v|
        && Links(g, v)[c] == v[a] as nat + 0x100 * v[a + 1] as nat + 0x1_0000 * v[a + 2] as nat
                    + 0x100_0000 * (v[a + 3] as nat % 0x80)
  {
    EntryFits(g, c);
    assert Links(g, v)[c] == Link(g, v, c);
    if g.fsType.FAT12? {
      Link12(g, v, c);
    } else if !g.fsType.FAT16? {
      var a := SS * g.fatbase + 4 * c;
      TopByte(v[a] as nat + 0x100 * v[a + 1] as nat + 0x1_0000 * v[a + 2] as nat, v[a + 3]);
    }
  }

  /** The quotients and remainders that cut a byte off at the top. */
  lemma TopByte(low: nat, b: nat)
    requires low < 0x100_0000 && b < 0x100
    ensures (low + 0x100_0000 * b) % 0x1000_0000 == low + 0x100_0000 * (b % 0x10)
    ensures (low + 0x100_0000 * b) % 0x8000_0000 == low + 0x100_0000 * (b % 0x80)
    ensures (low + 0x100_0000 * b) / 0x1000_0000 == b / 0x10
  {
    DivUnique(low + 0x100_0000 * b, 0x1000_0000, b / 0x10, low + 0x100_0000 * (b % 0x10));
    DivUnique(low + 0x100_0000 * b, 0x8000_0000, b / 0x80, low + 0x100_0000 * (b % 0x80));
  }

  /** The table depends on the bytes of the first FAT only. */
  lemma SameLinks(g: Geometry, v: seq<byte>, v': seq<byte>)
    requires Holds(g, v) && |v'| == |v|
    requires forall a: nat :: g.FatByte(a) ==> v[a] == v'[a]
    ensures Links(g, v) == Links(g, v')
  {
    forall c | 0 <= c < g.nFatent ensures Link(g, v, c) == Link(g, v', c) {
      EntryFits(g, c);
    }
  }

  /** Changing a 16-bit entry. */
  lemma StoreFat16(g: Geometry, v: seq<byte>, c: nat, val: nat)
    requires Holds(g, v) && 2 <= c < g.nFatent && g.fsType.FAT16?
    ensures SS * g.fatbase + 2 * c + 2 <= |v|
    ensures Links(g, Splice(v, SS * g.fatbase + 2 * c, WordBytes(val))) == Links(g, v)[c := val % 0x1_0000]
  {
    EntryFits(g, c);
    var a := SS * g.fatbase + 2 * c;
    var v' := Splice(v, a, WordBytes(val));
    assert v'[a] == WordBytes(val)[0] && v'[a + 1] == WordBytes(val)[1];
    assert Link(g, v', c) == val % 0x1_0000 by {
      DivUnique(val, 0x1_0000, val / 0x100 / 0x100, val / 0x100 % 0x100 * 0x100 + val % 0x100);
    }
    forall x | 0 <= x < g.nFatent && x != c ensures Link(g, v', x) == Link(g, v, x) {
      EntryFits(g, x);
    }
  }

  /** First and second byte of 12-bit entry c after storing val, over the bytes p, q that were there. */
  function First12(c: nat, val: nat, p: byte): byte {
    if c % 2 == 1 then p % 0x10 + val % 0x10 * 0x10 else val % 0x100
  }

  function Second12(c: nat, val: nat, q: byte): byte {
    if c % 2 == 1 then val / 0x10 % 0x100 else q / 0x10 * 0x10 + val / 0x100 % 0x10
  }

  ghost function Stored12(g: Geometry, v: seq<byte>, c: nat, val: nat): (v': seq<byte>)
    requires Holds(g, v) && 2 <= c < g.nFatent && g.fsType.FAT12?
    ensures |v'| == |v|
  {
    EntryFits(g, c);
    var a := SS * g.fatbase + c + c / 2;
    Splice(Splice(v, a, [First12(c, val, v[a])]), a + 1, [Second12(c, val, v[a + 1])])
  }

  /** Changing a 12-bit entry keeps the neighbour that shares one of its bytes. */
  lemma StoreFat12(g: Geometry, v: seq<byte>, c: nat, val: nat)
    requires Holds(g, v) && 2 <= c < g.nFatent && g.fsType.FAT12?
    ensures Links(g, Stored12(g, v, c, val)) == Links(g, v)[c := val % 0x1000]
  {
    var v' := Stored12(g, v, c, val);
    forall x | 0 <= x < g.nFatent ensures Link(g, v', x) == if x == c then val % 0x1000 else Link(g, v, x) {
      Store12At(g, v, c, val, x);
    }
  }

  /** The value of 12-bit entry c held in its two bytes. */
  function Value12(c: nat, p: byte, q: byte): nat {
    if c % 2 == 1 then p as nat / 0x10 + 0x10 * q as nat else p as nat + 0x100 * (q as nat % 0x10)
  }

  lemma Link12(g: Geometry, v: seq<byte>, c: nat)
    requires Holds(g, v) && c < g.nFatent && g.fsType.FAT12?
    ensures var a := SS * g.fatbase + c + c / 2; a + 2 <= |v| && Link(g, v, c) == Value12(c, v[a], v[a + 1])
  {
    EntryFits(g, c);
    var a := SS * g.fatbase + c + c / 2;
    SplitWord(v[a], v[a + 1]);
  }

  lemma SplitWord(p: byte, q: byte)
    ensures (p as nat + 0x100 * q as nat) / 0x10 == p as nat / 0x10 + 0x10 * q as nat
    ensures (p as nat + 0x100 * q as nat) % 0x1000 == p as nat + 0x100 * (q as nat % 0x10)
  {
    var x := p as nat + 0x100 * q as nat;
    DivUnique(x, 0x10, p as nat / 0x10 + 0x10 * q as nat, p as nat % 0x10);
    DivUnique(x, 0x1000, q as nat / 0x10, p as nat + 0x100 * (q as nat % 0x10));
  }

  lemma Nibbles12(c: nat, val: nat, p: byte, q: byte)
    ensures Value12(c, First12(c, val, p), Second12(c, val, q)) == val % 0x1000
    ensures c % 2 == 1 ==> First12(c, val, p) % 0x10 == p % 0x10
    ensures c % 2 == 0 ==> Second12(c, val, q) / 0x10 == q / 0x10
  {
    Digits(val);
    if c % 2 == 1 { OddNibbles(c, val, p, q); } else { EvenNibbles(c, val, p, q); }
  }

  lemma OddNibbles(c: nat, val: nat, p: byte, q: byte)
    requires c % 2 == 1 && val / 0x10 % 0x100 == val / 0x10 % 0x10 + 0x10 * (val / 0x100 % 0x10)
    ensures First12(c, val, p) == 0x10 * (val % 0x10) + p % 0x10
    ensures Second12(c, val, q) == val / 0x10 % 0x10 + 0x10 * (val / 0x100 % 0x10)
  {
  }

  lemma EvenNibbles(c: nat, val: nat, p: byte, q: byte)
    requires c % 2 == 0 && val % 0x100 == val % 0x10 + 0x10 * (val / 0x10 % 0x10)
    ensures First12(c, val, p) == val % 0x10 + 0x10 * (val / 0x10 % 0x10)
    ensures Second12(c, val, q) == 0x10 * (q / 0x10) + val / 0x100 % 0x10
  {
  }

  /** The three low hexadecimal digits of a value. */
  lemma Digits(val: nat)
    ensures val % 0x100 == val % 0x10 + 0x10 * (val / 0x10 % 0x10)
    ensures val / 0x10 % 0x100 == val / 0x10 % 0x10 + 0x10 * (val / 0x100 % 0x10)
    ensures val % 0x1000 == val % 0x10 + 0x10 * (val / 0x10 % 0x10) + 0x100 * (val / 0x100 % 0x10)
  {
    var h1, n0 := val / 0x10, val % 0x10;
    var h2, n1 := h1 / 0x10, h1 % 0x10;
    var h3, n2 := h2 / 0x10, h2 % 0x10;
    DivUnique(val, 0x100, h2, 0x10 * n1 + n0);
    DivUnique(val, 0x1000, h3, 0x100 * n2 + 0x10 * n1 + n0);
    DivUnique(h1, 0x100, h3, 0x10 * n2 + n1);
  }

  lemma Store12At(g: Geometry, v: seq<byte>, c: nat, val: nat, x: nat)
    requires Holds(g, v) && 2 <= c < g.nFatent && g.fsType.FAT12? && x < g.nFatent
    ensures Link(g, Stored12(g, v, c, val), x) == if x == c then val % 0x1000 else Link(g, v, x)
  {
    var v' := Stored12(g, v, c, val);
    Link12(g, v, c);
    Link12(g, v, x);
    Link12(g, v', x);
    var a, b := SS * g.fatbase + c + c / 2, SS * g.fatbase + x + x / 2;
    Nibbles12(c, val, v[a], v[a + 1]);
    if c % 2 == 1 && x == c - 1 {
      assert b + 1 == a;
    } else if c % 2 == 0 && x == c + 1 {
      assert b == a + 1;
    } else if x != c {
      assert b + 1 < a || a + 1 < b;
    }
  }

  /** Changing a 32-bit entry; FAT32 keeps the top four bits, exFAT stores all of them. */
  lemma StoreFat32(g: Geometry, v: seq<byte>, c: nat, val: nat)
    requires Holds(g, v) && 2 <= c < g.nFatent && (g.fsType.FAT32? || g.fsType.EXFAT?)
    requires val < 0x1_0000_0000
    ensures SS * g.fatbase + 4 * c + 4 <= |v|
    ensures var v' := Splice(v, SS * g.fatbase + 4 * c, DwordBytes(val));
      && LdDword(v', SS * g.fatbase + 4 * c) == val
      && Links(g, v') == Links(g, v)[c := val % (EntryMask(g.fsType) + 1)]
  {
    EntryFits(g, c);
    var a := SS * g.fatbase + 4 * c;
    var v' := Splice(v, a, DwordBytes(val));
    DwordRoundTrip(val);
    assert v'[a] == DwordBytes(val)[0] && v'[a + 1] == DwordBytes(val)[1];
    assert v'[a + 2] == DwordBytes(val)[2] && v'[a + 3] == DwordBytes(val)[3];
    assert LdDword(v', a) == LdDword(DwordBytes(val), 0);
    forall x | 0 <= x < g.nFatent && x != c ensures Link(g, v', x) == Link(g, v, x) {
      EntryFits(g, x);
    }
  }

  lemma DwordRoundTrip(val: nat)
    requires val < 0x1_0000_0000
    ensures LdDword(DwordBytes(val), 0) == val
  {
  }

  // Reading and changing one entry through the window.

  /** The table as the volume currently holds it. */
  ghost function Table(fs: FatFs): (t: seq<nat>)
    requires fs.Valid()
    reads fs`winsect, fs`wflag, fs`copyLost, fs.win, fs.drive
    ensures |t| == fs.g.nFatent
  {
    Links(fs.g, fs.View())
  }

  /** The n bytes of the FAT from byte k on lie in one sector. */
  predicate OneSector(g: Geometry, k: nat, n: nat) { k < SS * g.fsize && k % SS + n <= SS }

  lemma EntryInSector(g: Geometry, c: nat)
    requires g.Valid() && c < g.nFatent && !g.fsType.FAT12?
    ensures OneSector(g, EntryOfs(g.fsType, c), EntryLen(g.fsType))
  {
    EntryFits(g, c);
  }

  lemma ByteInSector(g: Geometry, k: nat)
    requires k < SS * g.fsize
    ensures OneSector(g, k, 1)
  {
  }

  /** Bring the sector with byte k of the FAT into the window. */
  method ShowFat(fs: FatFs, k: nat) returns (res: FRESULT)
    requires fs.Valid() && fs.Coherent() && k < SS * fs.g.fsize
    modifies fs`winsect, fs`wflag, fs`copyLost, fs.win, fs.drive
    ensures fs.Valid() && fs.Coherent() && fs.View() == old(fs.View()) && (old(fs.Mirrored()) ==> fs.Mirrored())
    ensures res == FR_OK || res == FR_DISK_ERR
    ensures fs.drive.reliable ==> res == FR_OK
    ensures res == FR_OK ==> fs.winsect == fs.g.fatbase + k / SS
    ensures res == FR_OK ==> var a := SS * fs.g.fatbase + k - k % SS; fs.View()[a..a + SS] == fs.win[..]
  {
    hide Geometry.FatBytes, Geometry.MaxClusters, Image, CopyAgrees;
    res := fs.MoveWindow(fs.g.fatbase + k / SS);
    assert SS * fs.g.fatbase + k - k % SS == SS * (fs.g.fatbase + k / SS);
  }

  /** Read n bytes of the FAT from byte k on, which do not cross a sector. */
  method LoadFatBytes(fs: FatFs, k: nat, n: nat) returns (ok: bool, bs: seq<byte>)
    requires fs.Valid() && fs.Coherent() && OneSector(fs.g, k, n)
    modifies fs`winsect, fs`wflag, fs`copyLost, fs.win, fs.drive
    ensures fs.Valid() && fs.Coherent() && fs.View() == old(fs.View()) && (old(fs.Mirrored()) ==> fs.Mirrored())
    ensures fs.drive.reliable ==> ok
    ensures ok ==> fs.winsect == fs.g.fatbase + k / SS
    ensures ok ==> var a := SS * fs.g.fatbase + k; bs == fs.View()[a..a + n]
  {
    hide Geometry.FatBytes, Geometry.MaxClusters, Image, CopyAgrees;
    var res := ShowFat(fs, k);
    ok, bs := res == FR_OK, [];
    if ok {
      bs := fs.win[k % SS..k % SS + n];
      SliceSlice(fs.View(), SS * fs.g.fatbase + k - k % SS, SS, k % SS, n);
    }
  }

  lemma SliceSlice(v: seq<byte>, a: nat, m: nat, o: nat, n: nat)
    requires a + m <= |v| && o + n <= m
    ensures v[a..a + m][o..o + n] == v[a + o..a + o + n]
  {
    var x, y := v[a..a + m][o..o + n], v[a + o..a + o + n];
    forall i | 0 <= i < n ensures x[i] == y[i] {
      assert v[a..a + m][o + i] == v[a + o + i];
    }
  }

  /** The value of an entry from its bytes. */
  function Decode(t: FsType, c: nat, bs: seq<byte>): nat
    requires |bs| == EntryLen(t)
  {
    match t
    case FAT12 => if c % 2 == 1 then LdWord(bs, 0) / 0x10 else LdWord(bs, 0) % 0x1000
    case FAT16 => LdWord(bs, 0)
    case FAT32 => LdDword(bs, 0) % 0x1000_0000
    case EXFAT => LdDword(bs, 0) % 0x8000_0000
  }

  lemma DecodeIsLink(g: Geometry, v: seq<byte>, c: nat)
    requires Holds(g, v) && c < g.nFatent
    ensures var a := SS * g.fatbase + EntryOfs(g.fsType, c);
      var n := EntryLen(g.fsType); a + n <= |v| && Link(g, v, c) == Decode(g.fsType, c, v[a..a + n])
  {
    EntryFits(g, c);
  }

  /** The 12-bit branch of get_fat: the two bytes may lie in different sectors. */
  method LoadFat12(fs: FatFs, clst: nat) returns (ok: bool, bs: seq<byte>)
    requires fs.Valid() && fs.Coherent() && 2 <= clst < fs.g.nFatent && fs.g.fsType.FAT12?
    modifies fs`winsect, fs`wflag, fs`copyLost, fs.win, fs.drive
    ensures fs.Valid() && fs.Coherent() && fs.View() == old(fs.View()) && (old(fs.Mirrored()) ==> fs.Mirrored())
    ensures fs.drive.reliable ==> ok
    ensures ok ==> var a := SS * fs.g.fatbase + clst + clst / 2; bs == fs.View()[a..a + 2]
  {
    hide Geometry.FatBytes, Geometry.MaxClusters, Image, CopyAgrees, OneSector;
    EntryFits(fs.g, clst);
    var bc := clst + clst / 2;
    ByteInSector(fs.g, bc);
    ByteInSector(fs.g, bc + 1);
    ok, bs := LoadFatBytes(fs, bc, 1);
    if !ok { return; }
    var bs1;
    ok, bs1 := LoadFatBytes(fs, bc + 1, 1);
    if !ok { return; }
    Adjacent(fs.View(), SS * fs.g.fatbase + bc);
    bs := bs + bs1;
  }

  lemma Adjacent(v: seq<byte>, a: nat)
    requires a + 2 <= |v|
    ensures v[a..a + 1] + v[a + 1..a + 2] == v[a..a + 2]
  {
  }

  /** The bytes of a stored entry. */
  method LoadEntry(fs: FatFs, clst: nat) returns (ok: bool, bs: seq<byte>)
    requires fs.Valid() && fs.Coherent() && 2 <= clst < fs.g.nFatent
    modifies fs`winsect, fs`wflag, fs`copyLost, fs.win, fs.drive
    ensures fs.Valid() && fs.Coherent() && fs.View() == old(fs.View()) && (old(fs.Mirrored()) ==> fs.Mirrored())
    ensures fs.drive.reliable ==> ok
    ensures ok ==> EntryOfs(fs.g.fsType, clst) + EntryLen(fs.g.fsType) <= SS * fs.g.fsize
    ensures ok ==> var a := SS * fs.g.fatbase + EntryOfs(fs.g.fsType, clst);
      bs == fs.View()[a..a + EntryLen(fs.g.fsType)]
  {
    hide Geometry.FatBytes, Geometry.MaxClusters, Image, CopyAgrees, OneSector;
    EntryFits(fs.g, clst);
    if !fs.g.fsType.FAT12? { EntryInSector(fs.g, clst); }
    match fs.g.fsType {
      case FAT12 => ok, bs := LoadFat12(fs, clst);
      case FAT16 => ok, bs := LoadFatBytes(fs, clst * 2, 2);
      case FAT32 => ok, bs := LoadFatBytes(fs, clst * 4, 4);
      case EXFAT => ok, bs := LoadFatBytes(fs, clst * 4, 4);
    }
  }

  /** Entries stay below their mask. */
  lemma LinkBound(g: Geometry, v: seq<byte>, c: nat)
    requires Holds(g, v) && c < g.nFatent
    ensures Link(g, v, c) <= EntryMask(g.fsType)
  {
    EntryFits(g, c);
  }

  /** The part of get_fat that reads a stored entry; ok is false on a disk error. */
  method LoadFat(fs: FatFs, clst: nat) returns (ok: bool, val: nat)
    requires fs.Valid() && fs.Coherent() && 2 <= clst < fs.g.nFatent
    modifies fs`winsect, fs`wflag, fs`copyLost, fs.win, fs.drive
    ensures fs.Valid() && fs.Coherent() && fs.View() == old(fs.View()) && (old(fs.Mirrored()) ==> fs.Mirrored())
    ensures fs.drive.reliable ==> ok
    ensures ok ==> val == Table(fs)[clst]
    // what the bytes mean
    ensures var v, a := fs.View(), 512 * fs.g.fatbase + clst + clst / 2;
      ok && fs.g.fsType.FAT12? ==>
        && a + 1 < |v|
        && val == if clst % 2 == 1 then v[a] as nat / 0x10 + 0x10 * v[a + 1] as nat
           else v[a] as nat + 0x100 * (v[a + 1] as nat % 0x10)
    ensures var v, a := fs.View(), 512 * fs.g.fatbase + 2 * clst;
      ok && fs.g.fsType.FAT16? ==>
        a + 1 < |v| && val == v[a] as nat + 0x100 * v[a + 1] as nat
    ensures var v, a := fs.View(), 512 * fs.g.fatbase + 4 * clst;
      ok && fs.g.fsType.FAT32? ==>
        && a + 3 < |v|
        && val == v[a] as nat + 0x100 * v[a + 1] as nat + 0x1_0000 * v[a + 2] as nat
                    + 0x100_0000 * (v[a + 3] as nat % 0x10)
    ensures var v, a := fs.View(), 512 * fs.g.fatbase + 4 * clst;
      ok && fs.g.fsType.EXFAT? ==>
        && a + 3 < |v|
        && val == v[a] as nat + 0x100 * v[a + 1] as nat + 0x1_0000 * v[a + 2] as nat
                    + 0x100_0000 * (v[a + 3] as nat % 0x80)
  {
    hide Geometry.FatBytes, Geometry.MaxClusters, Image, CopyAgrees, Link, Decode, EntryOfs, Links, FatFs.Coherent;
    hide EntryLen;
    LinkBytes(fs.g, fs.View(), clst);
    var bs;
    ok, bs := LoadEntry(fs, clst);
    val := 0;
    if ok {
      val := Decode(fs.g.fsType, clst, bs);
      DecodeIsLink(fs.g, fs.View(), clst);
    }
  }

  /** v with entry c set to val, in the bytes put_fat writes. */
  ghost function Stored(g: Geometry, v: seq<byte>, c: nat, val: nat): (v': seq<byte>)
    requires Holds(g, v) && 2 <= c < g.nFatent
    ensures |v'| == |v|
  {
    EntryFits(g, c);
    var a := SS * g.fatbase + EntryOfs(g.fsType, c);
    match g.fsType
    case FAT12 => Stored12(g, v, c, val)
    case FAT16 => Splice(v, a, WordBytes(val))
    case FAT32 => Splice(v, a, DwordBytes(val % 0x1000_0000 + LdDword(v, a) / 0x1000_0000 * 0x1000_0000))
    case EXFAT => Splice(v, a, DwordBytes(val))
  }

  /** The bytes put_fat leaves. */
  lemma StoredBytes(g: Geometry, v: seq<byte>, c: nat, val: nat)
    requires Holds(g, v) && 2 <= c < g.nFatent && val < 0x1_0000_0000
    ensures var v', a := Stored(g, v, c, val), 512 * g.fatbase + c + c / 2;
      g.fsType.FAT12? ==>
        && a + 1 < |v| && SameOutside(v, v', a, 2)
        && v'[a] == (if c % 2 == 1 then v[a] as nat % 0x10 + val % 0x10 * 0x10 else val % 0x100)
        && v'[a + 1] == if c % 2 == 1 then val / 0x10 % 0x100 else v[a + 1] as nat / 0x10 * 0x10 + val / 0x100 % 0x10
    ensures var v', a := Stored(g, v, c, val), 512 * g.fatbase + 2 * c;
      g.fsType.FAT16? ==>
        a + 1 < |v| && SameOutside(v, v', a, 2) && v'[a] == val % 0x100 && v'[a + 1] == val / 0x100 % 0x100
    ensures var v', a := Stored(g, v, c, val), 512 * g.fatbase + 4 * c;
      g.fsType.FAT32? || g.fsType.EXFAT? ==>
        && a + 3 < |v| && SameOutside(v, v', a, 4)
        && v'[a] == val % 0x100 && v'[a + 1] == val / 0x100 % 0x100 && v'[a + 2] == val / 0x1_0000 % 0x100
        && v'[a + 3] == if g.fsType.FAT32? then val / 0x100_0000 % 0x10 + v[a + 3] as nat / 0x10 * 0x10
                        else val / 0x100_0000 % 0x100
  {
    hide Splice, DwordBytes, WordBytes;
    EntryFits(g, c);
    match g.fsType {
      case FAT12 => Bytes12(g, v, c, val);
      case FAT16 => WordAt(v, SS * g.fatbase + 2 * c, val);
      case EXFAT => DwordAt(v, SS * g.fatbase + 4 * c, val);
      case FAT32 =>
        var a := SS * g.fatbase + 4 * c;
        var old4 := LdDword(v, a);
        TopByte(v[a] as nat + 0x100 * v[a + 1] as nat + 0x1_0000 * v[a + 2] as nat, v[a + 3]);
        Merged28(val, v[a + 3] as nat / 0x10);
        DwordAt(v, a, val % 0x1000_0000 + old4 / 0x1000_0000 * 0x1000_0000);
    }
  }

  lemma Bytes12(g: Geometry, v: seq<byte>, c: nat, val: nat)
    requires Holds(g, v) && 2 <= c < g.nFatent && g.fsType.FAT12?
    ensures var a, v' := 512 * g.fatbase + c + c / 2, Stored12(g, v, c, val);
      a + 1 < |v| && v'[a] == First12(c, val, v[a]) && v'[a + 1] == Second12(c, val, v[a + 1])
      && SameOutside(v, v', a, 2)
  {
    EntryFits(g, c);
  }

  lemma WordAt(v: seq<byte>, a: nat, val: nat)
    requires a + 2 <= |v|
    ensures var v' := Splice(v, a, WordBytes(val));
      v'[a] == val % 0x100 && v'[a + 1] == val / 0x100 % 0x100 && SameOutside(v, v', a, 2)
  {
  }

  lemma DwordAt(v: seq<byte>, a: nat, val: nat)
    requires a + 4 <= |v|
    ensures var v' := Splice(v, a, DwordBytes(val));
      && v'[a] == val % 0x100 && v'[a + 1] == val / 0x100 % 0x100 && v'[a + 2] == val / 0x1_0000 % 0x100
      && v'[a + 3] == val / 0x100_0000 % 0x100 && SameOutside(v, v', a, 4)
  {
  }

  /** The low 28 bits of val under four bits that stay. */
  lemma Merged28(val: nat, top: nat)
    requires top < 0x10
    ensures var w := val % 0x1000_0000 + top * 0x1000_0000;
      && w % 0x100 == val % 0x100 && w / 0x100 % 0x100 == val / 0x100 % 0x100
      && w / 0x1_0000 % 0x100 == val / 0x1_0000 % 0x100
      && w / 0x100_0000 % 0x100 == val / 0x100_0000 % 0x10 + top * 0x10
  {
    var low := val % 0x1000_0000;
    LowBytes(low, val / 0x1000_0000);
    LowBytes(low, top);
  }

  /** What lies above 28 bits does not show in the bytes below. */
  lemma LowBytes(low: nat, t: nat)
    requires low < 0x1000_0000
    ensures var x := low + 0x1000_0000 * t;
      && x % 0x100 == low % 0x100 && x / 0x100 % 0x100 == low / 0x100 % 0x100
      && x / 0x1_0000 % 0x100 == low / 0x1_0000 % 0x100
      && x / 0x100_0000 == low / 0x100_0000 + 0x10 * t && x / 0x100_0000 % 0x10 == low / 0x100_0000
  {
    var x, a := low + 0x1000_0000 * t, low / 0x100;
    var b := a / 0x100;
    var c := b / 0x100;
    DivUnique(x, 0x100, a + 0x10_0000 * t, low % 0x100);
    DivUnique(a + 0x10_0000 * t, 0x100, b + 0x1000 * t, a % 0x100);
    DivUnique(b + 0x1000 * t, 0x100, c + 0x10 * t, b % 0x100);
    DivUnique(low, 0x1_0000, b, a % 0x100 * 0x100 + low % 0x100);
    DivUnique(low, 0x100_0000, c, b % 0x100 * 0x1_0000 + a % 0x100 * 0x100 + low % 0x100);
    DivUnique(x, 0x1_0000, b + 0x1000 * t, a % 0x100 * 0x100 + low % 0x100);
    DivUnique(x, 0x100_0000, c + 0x10 * t, b % 0x100 * 0x1_0000 + a % 0x100 * 0x100 + low % 0x100);
    DivUnique(c + 0x10 * t, 0x10, t, c);
  }

  /** put_fat sets one entry of the table and changes nothing outside the first FAT. */
  lemma StoredLinks(g: Geometry, v: seq<byte>, c: nat, val: nat)
    requires Holds(g, v) && 2 <= c < g.nFatent && val < 0x1_0000_0000
    ensures Links(g, Stored(g, v, c, val)) == Links(g, v)[c := val % (EntryMask(g.fsType) + 1)]
    ensures SameOutside(v, Stored(g, v, c, val), SS * g.fatbase, SS * g.fsize)
  {
    hide Links, Link, LdDword, WordBytes, DwordBytes, First12, Second12;
    EntryFits(g, c);
    match g.fsType {
      case FAT12 => StoreFat12(g, v, c, val);
      case FAT16 => StoreFat16(g, v, c, val);
      case FAT32 => Store28(g, v, c, val);
      case EXFAT => StoreFat32(g, v, c, val);
    }
  }

  /** Storing a FAT32 entry keeps the top four bits of the word. */
  lemma Store28(g: Geometry, v: seq<byte>, c: nat, val: nat)
    requires Holds(g, v) && 2 <= c < g.nFatent && val < 0x1_0000_0000 && g.fsType.FAT32?
    ensures Links(g, Stored(g, v, c, val)) == Links(g, v)[c := val % 0x1000_0000]
    ensures var a := SS * g.fatbase + 4 * c; var v' := Stored(g, v, c, val);
      a + 4 <= |v| && LdDword(v', a) / 0x1000_0000 == LdDword(v, a) / 0x1000_0000
  {
    hide Links, Link, DwordBytes;
    EntryFits(g, c);
    var old4 := LdDword(v, SS * g.fatbase + 4 * c);
    var w := val % 0x1000_0000 + old4 / 0x1000_0000 * 0x1000_0000;
    DivUnique(w, 0x1000_0000, old4 / 0x1000_0000, val % 0x1000_0000);
    StoreFat32(g, v, c, w);
  }

  /** Change bytes of the FAT in the window. */
  method StoreFatBytes(fs: FatFs, k: nat, bs: seq<byte>)
    requires fs.Valid() && fs.Coherent() && OneSector(fs.g, k, |bs|)
    requires fs.winsect == fs.g.fatbase + k / SS
    modifies fs`wflag, fs.win
    ensures fs.Valid() && fs.Coherent() && (old(fs.Mirrored()) ==> fs.Mirrored())
    ensures SS * fs.g.fatbase + k + |bs| <= |old(fs.View())|
    ensures fs.View() == Splice(old(fs.View()), SS * fs.g.fatbase + k, bs)
  {
    hide Geometry.FatBytes, Geometry.MaxClusters, Image, CopyAgrees, Splice;
    fs.Put(k % SS, bs);
    assert SS * fs.winsect + k % SS == SS * fs.g.fatbase + k;
  }

  /** Byte k of the FAT, read through the window. */
  method ReadFatByte(fs: FatFs, k: nat) returns (ok: bool, b: byte)
    requires fs.Valid() && fs.Coherent() && k < SS * fs.g.fsize
    modifies fs`winsect, fs`wflag, fs`copyLost, fs.win, fs.drive
    ensures fs.Valid() && fs.Coherent() && fs.View() == old(fs.View()) && (old(fs.Mirrored()) ==> fs.Mirrored())
    ensures SS * fs.g.fatbase + k < |fs.View()|
    ensures fs.drive.reliable ==> ok
    ensures ok ==> b == fs.View()[SS * fs.g.fatbase + k] && fs.winsect == fs.g.fatbase + k / SS
  {
    hide Geometry.FatBytes, Geometry.MaxClusters, Image, CopyAgrees, OneSector;
    ByteInSector(fs.g, k);
    var bs;
    ok, bs := LoadFatBytes(fs, k, 1);
    b := 0;
    if ok { b := bs[0]; }
  }

  /** The first byte of a 12-bit entry: merged with the half its neighbour owns. */
  method PutFirst12(fs: FatFs, bc: nat, clst: nat, val: nat) returns (ok: bool)
    requires fs.Valid() && fs.Coherent() && bc < SS * fs.g.fsize
    modifies fs`winsect, fs`wflag, fs`copyLost, fs.win, fs.drive
    ensures fs.Valid() && fs.Coherent() && (old(fs.Mirrored()) ==> fs.Mirrored())
    ensures SS * fs.g.fatbase + bc < |old(fs.View())|
    ensures fs.drive.reliable ==> ok
    ensures ok ==> var a := SS * fs.g.fatbase + bc;
      fs.View() == Splice(old(fs.View()), a, [First12(clst, val, old(fs.View())[a])])
  {
    hide Geometry.FatBytes, Geometry.MaxClusters, Image, CopyAgrees, Splice, First12, OneSector;
    var b;
    ok, b := ReadFatByte(fs, bc);
    ByteInSector(fs.g, bc);
    if ok { StoreFatBytes(fs, bc, [First12(clst, val, b)]); }
  }

  /** The second byte of a 12-bit entry. */
  method PutSecond12(fs: FatFs, bc: nat, clst: nat, val: nat) returns (ok: bool)
    requires fs.Valid() && fs.Coherent() && bc < SS * fs.g.fsize
    modifies fs`winsect, fs`wflag, fs`copyLost, fs.win, fs.drive
    ensures fs.Valid() && fs.Coherent() && (old(fs.Mirrored()) ==> fs.Mirrored())
    ensures SS * fs.g.fatbase + bc < |old(fs.View())|
    ensures fs.drive.reliable ==> ok
    ensures ok ==> var a := SS * fs.g.fatbase + bc;
      fs.View() == Splice(old(fs.View()), a, [Second12(clst, val, old(fs.View())[a])])
  {
    hide Geometry.FatBytes, Geometry.MaxClusters, Image, CopyAgrees, Splice, Second12, OneSector;
    var b;
    ok, b := ReadFatByte(fs, bc);
    ByteInSector(fs.g, bc);
    if ok { StoreFatBytes(fs, bc, [Second12(clst, val, b)]); }
  }

  /** The 12-bit branch of put_fat: the two bytes may lie in different sectors. */
  method PutFat12(fs: FatFs, clst: nat, val: nat) returns (ok: bool)
    requires fs.Valid() && fs.Coherent() && 2 <= clst < fs.g.nFatent && fs.g.fsType.FAT12?
    modifies fs`winsect, fs`wflag, fs`copyLost, fs.win, fs.drive
    ensures fs.Valid() && fs.Coherent() && (old(fs.Mirrored()) ==> fs.Mirrored())
    ensures fs.drive.reliable ==> ok
    ensures ok ==> fs.View() == Stored12(fs.g, old(fs.View()), clst, val)
  {
    hide Geometry.FatBytes, Geometry.MaxClusters, Image, CopyAgrees, Splice, First12, Second12, Stored12;
    EntryFits(fs.g, clst);
    TwoBytes12(fs.g, fs.View(), clst, val);
    var bc := clst + clst / 2;
    ok := PutFirst12(fs, bc, clst, val);
    if !ok { return; }
    ok := PutSecond12(fs, bc + 1, clst, val);
  }

  lemma TwoBytes12(g: Geometry, v: seq<byte>, c: nat, val: nat)
    requires Holds(g, v) && g.fsType.FAT12? && 2 <= c < g.nFatent
    ensures SS * g.fatbase + c + c / 2 + 2 <= |v|
    ensures var a := SS * g.fatbase + c + c / 2;
      Stored12(g, v, c, val) == Splice(Splice(v, a, [First12(c, val, v[a])]), a + 1, [Second12(c, val, v[a + 1])])
  {
    EntryFits(g, c);
  }

  /** The 28-bit branch of put_fat: the top four bits of the word stay. */
  method PutFat28(fs: FatFs, clst: nat, val: nat) returns (ok: bool)
    requires fs.Valid() && fs.Coherent() && 2 <= clst < fs.g.nFatent && fs.g.fsType.FAT32?
    modifies fs`winsect, fs`wflag, fs`copyLost, fs.win, fs.drive
    ensures fs.Valid() && fs.Coherent() && (old(fs.Mirrored()) ==> fs.Mirrored())
    ensures fs.drive.reliable ==> ok
    ensures ok ==> fs.View() == Stored(fs.g, old(fs.View()), clst, val)
  {
    hide Geometry.FatBytes, Geometry.MaxClusters, Image, CopyAgrees, Splice, LdDword, DwordBytes, OneSector;
    EntryFits(fs.g, clst);
    EntryInSector(fs.g, clst);
    ghost var a := SS * fs.g.fatbase + 4 * clst;
    LdWhole(fs.View(), a);
    var bs;
    ok, bs := LoadFatBytes(fs, clst * 4, 4);
    if !ok { return; }
    assert LdDword(bs, 0) == LdDword(fs.View(), a);
    StoreFatBytes(fs, clst * 4, DwordBytes(val % 0x1000_0000 + LdDword(bs, 0) / 0x1000_0000 * 0x1000_0000));
  }

  lemma LdWhole(v: seq<byte>, a: nat)
    requires a + 4 <= |v|
    ensures LdDword(v[a..a + 4], 0) == LdDword(v, a)
  {
  }

  /** The branches of put_fat that overwrite the whole entry. */
  method PutWhole(fs: FatFs, k: nat, bs: seq<byte>) returns (ok: bool)
    requires fs.Valid() && fs.Coherent() && OneSector(fs.g, k, |bs|)
    modifies fs`winsect, fs`wflag, fs`copyLost, fs.win, fs.drive
    ensures fs.Valid() && fs.Coherent() && (old(fs.Mirrored()) ==> fs.Mirrored())
    ensures SS * fs.g.fatbase + k + |bs| <= |old(fs.View())|
    ensures fs.drive.reliable ==> ok
    ensures ok ==> fs.View() == Splice(old(fs.View()), SS * fs.g.fatbase + k, bs)
  {
    hide Geometry.FatBytes, Geometry.MaxClusters, Image, CopyAgrees, Splice;
    var res := ShowFat(fs, k);
    ok := res == FR_OK;
    if ok { StoreFatBytes(fs, k, bs); }
  }

  /** The part of put_fat that stores an entry. */
  method PutEntry(fs: FatFs, clst: nat, val: nat) returns (ok: bool)
    requires fs.Valid() && fs.Coherent() && val < 0x1_0000_0000 && 2 <= clst < fs.g.nFatent
    modifies fs`winsect, fs`wflag, fs`copyLost, fs.win, fs.drive
    ensures fs.Valid() && fs.Coherent() && (old(fs.Mirrored()) ==> fs.Mirrored())
    ensures ok ==> fs.View() == Stored(fs.g, old(fs.View()), clst, val)
    ensures fs.drive.reliable ==> ok
  {
    hide Geometry.FatBytes, Geometry.MaxClusters, Image, CopyAgrees, Splice, LdDword, WordBytes, DwordBytes, Stored12;
    hide OneSector;
    EntryFits(fs.g, clst);
    if !fs.g.fsType.FAT12? { EntryInSector(fs.g, clst); }
    match fs.g.fsType {
      case FAT12 => ok := PutFat12(fs, clst, val);
      case FAT16 => ok := PutWhole(fs, clst * 2, WordBytes(val));
      case FAT32 => ok := PutFat28(fs, clst, val);
      case EXFAT => ok := PutWhole(fs, clst * 4, DwordBytes(val));
    }
  }

  /** put_fat */
  method PutFat(fs: FatFs, clst: nat, val: nat) returns (res: FRESULT)
    requires fs.Valid() && fs.Coherent() && val < 0x1_0000_0000
    modifies fs`winsect, fs`wflag, fs`copyLost, fs.win, fs.drive
    ensures fs.Valid() && fs.Coherent() && (old(fs.Mirrored()) ==> fs.Mirrored())
    ensures res == FR_INT_ERR <==> !(2 <= clst < fs.g.nFatent)
    ensures res == FR_INT_ERR ==> fs.View() == old(fs.View())
    ensures res == FR_OK ==> fs.View() == Stored(fs.g, old(fs.View()), clst, val)
    ensures res in {FR_OK, FR_DISK_ERR, FR_INT_ERR}
    ensures fs.drive.reliable ==> res != FR_DISK_ERR
    // the bytes stored
    ensures var v, v', a := old(fs.View()), fs.View(), 512 * fs.g.fatbase + clst + clst / 2;
      res == FR_OK && fs.g.fsType.FAT12? ==>
        && a + 1 < |v| && SameOutside(v, v', a, 2)
        && v'[a] == (if clst % 2 == 1 then v[a] as nat % 0x10 + val % 0x10 * 0x10 else val % 0x100)
        && v'[a + 1] == if clst % 2 == 1 then val / 0x10 % 0x100 else v[a + 1] as nat / 0x10 * 0x10 + val / 0x100 % 0x10
    ensures var v, v', a := old(fs.View()), fs.View(), 512 * fs.g.fatbase + 2 * clst;
      res == FR_OK && fs.g.fsType.FAT16? ==>
        a + 1 < |v| && SameOutside(v, v', a, 2) && v'[a] == val % 0x100 && v'[a + 1] == val / 0x100 % 0x100
    ensures var v, v', a := old(fs.View()), fs.View(), 512 * fs.g.fatbase + 4 * clst;
      res == FR_OK && (fs.g.fsType.FAT32? || fs.g.fsType.EXFAT?) ==>
        && a + 3 < |v| && SameOutside(v, v', a, 4)
        && v'[a] == val % 0x100 && v'[a + 1] == val / 0x100 % 0x100 && v'[a + 2] == val / 0x1_0000 % 0x100
        && v'[a + 3] == if fs.g.fsType.FAT32? then val / 0x100_0000 % 0x10 + v[a + 3] as nat / 0x10 * 0x10
                        else val / 0x100_0000 % 0x100
  {
    hide Geometry.FatBytes, Geometry.MaxClusters, Image, CopyAgrees, Stored, SameOutside;
    if clst < 2 || clst >= fs.g.nFatent { return FR_INT_ERR; }
    StoredBytes(fs.g, fs.View(), clst, val);
    var ok := PutEntry(fs, clst, val);
    res := if ok then FR_OK else FR_DISK_ERR;
  }
}
