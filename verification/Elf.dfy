/** The boot loader: it loads the segments of an ELF file in chunks, those for its own memory window into an alternate
    window, and copies that window back at the end. */
module Elf {
  import opened Storage

  const CHUNK: nat := 0x10000
  const PT_LOAD: nat := 1

  /** Where the boot ROM's own memory is, and its stand-in while it is in use. */
  datatype Window = Window(addr: nat, end: nat, alt: nat)
  {
    ghost predicate Valid(m: nat) {
      && addr < end <= m && (end - addr) % 8 == 0 && alt + (end - addr) <= m
      && (alt + (end - addr) <= addr || end <= alt)
    }

    predicate Inside(a: nat) { addr <= a < end }

    predicate InAlt(a: nat) { alt <= a < alt + (end - addr) }

    /** Where a byte for address a is put while loading. */
    function Reloc(a: nat): nat
      requires addr < end
    {
      if Inside(a) then a - addr + alt else a
    }
  }

  /** A program header of type PT_LOAD. */
  datatype Segment = Segment(offset: nat, vaddr: nat, filesz: nat, memsz: nat)
  {
    /** What byte k of the segment's memory is to hold: the file's bytes, then zeros. */
    function Byte(file: seq<byte>, k: nat): byte {
      if k < filesz && offset + k < |file| then file[offset + k] else 0
    }

    /** Number of bytes that come from the file. */
    function Stored(): nat { if filesz < memsz then filesz else memsz }
  }

  /** An open file. Reads and seeks may fail, and a read may return fewer bytes than asked for, unless the file is
      sound. */
  class File {
    const data: seq<byte>
    const sound: bool
    var pos: nat

    constructor (content: seq<byte>, steady: bool)
      ensures data == content && sound == steady && pos == 0
    {
      data, sound, pos := content, steady, 0;
    }

    ghost predicate Valid()
      reads this
    {
      pos <= |data|
    }

    /** f_lseek in read-only mode. */
    method Seek(ofs: nat) returns (ok: bool)
      requires Valid()
      modifies this
      ensures Valid() && (ok ==> pos == if ofs > |data| then |data| else ofs) && (sound ==> ok)
    {
      ok := *;
      ok := ok || sound;
      if ok { pos := if ofs > |data| then |data| else ofs; }
    }

    /** f_read into memory: rd bytes arrive. */
    method Read(mem: array<byte>, at: nat, size: nat) returns (ok: bool, rd: nat)
      requires Valid() && at + size <= mem.Length
      modifies this, mem
      ensures Valid() && SameOutside(old(mem[..]), mem[..], at, size)
      ensures ok ==> rd <= size && pos == old(pos) + rd
      ensures sound ==> ok && rd == if old(pos) + size <= |data| then size else |data| - old(pos)
      ensures ok ==> old(pos) + rd <= |data| && mem[..] == Splice(old(mem[..]), at, data[old(pos)..old(pos) + rd])
    {
      ok, rd := *, *;
      if rd > size || pos + rd > |data| { rd := 0; }
      if sound { ok, rd := true, if pos + size <= |data| then size else |data| - pos; }
      if ok {
        forall i | 0 <= i < rd { mem[at + i] := data[pos + i]; }
        pos := pos + rd;
      }
    }
  }

  /** The address a byte of memory stands for while loading. */
  function Home(w: Window, a: nat): int { if w.InAlt(a) then a - w.alt + w.addr else a }

  /** Byte a of memory belongs to the first p bytes of the segment, in place or at its stand-in. */
  predicate Hit(w: Window, s: Segment, p: nat, a: nat) {
    (w.InAlt(a) || !w.Inside(a)) && s.vaddr <= Home(w, a) < s.vaddr + p
  }

  /** Memory m with the first p bytes of the segment loaded. */
  ghost function Load(m: seq<byte>, w: Window, file: seq<byte>, s: Segment, p: nat): (m': seq<byte>)
    ensures |m'| == |m|
    ensures forall a: nat {:trigger m'[a]} :: a < |m| ==>
      m'[a] == if Hit(w, s, p, a) then s.Byte(file, Home(w, a) - s.vaddr) else m[a]
  {
    seq(|m|, a requires 0 <= a < |m| => if Hit(w, s, p, a) then s.Byte(file, Home(w, a) - s.vaddr) else m[a])
  }

  /** A segment the loader can place: in or above the window, in memory, and off the alternate window. */
  ghost predicate Placeable(w: Window, s: Segment, m: nat) {
    s.memsz > 0 ==>
      && w.addr <= s.vaddr && s.vaddr + s.memsz <= m
      && (s.vaddr + s.memsz <= w.alt || w.alt + (w.end - w.addr) <= s.vaddr)
  }

  /** How much of the segment's memory at address addr one step handles, and where it goes. */
  method Target(w: Window, addr: nat, want: nat) returns (at: nat, size: nat, alt: bool)
    requires w.addr < w.end && w.addr <= addr && 0 < want
    ensures 0 < size <= want && (alt <==> addr < w.end)
    ensures if alt then at == addr - w.addr + w.alt && addr + size <= w.end else at == addr
  {
    at, size, alt := addr, want, false;
    if addr + size > w.addr && addr < w.end {
      at := addr - w.addr + w.alt;
      if addr + size > w.end { size := w.end - addr; }
      alt := true;
    }
  }

  /** A step that stores the next n bytes of the segment at their target. */
  lemma LoadStep(m: seq<byte>, w: Window, file: seq<byte>, s: Segment, p: nat, at: nat, n: nat, bs: seq<byte>)
    requires w.Valid(|m|) && Placeable(w, s, |m|) && p + n <= s.memsz && n > 0 && |bs| == n
    requires var addr := s.vaddr + p;
      if addr < w.end then at == addr - w.addr + w.alt && addr + n <= w.end else at == addr
    requires forall i :: 0 <= i < n ==> bs[i] == s.Byte(file, p + i)
    ensures at + n <= |m| && Splice(Load(m, w, file, s, p), at, bs) == Load(m, w, file, s, p + n)
  {
    var a1, a2 := Splice(Load(m, w, file, s, p), at, bs), Load(m, w, file, s, p + n);
    forall a: nat | a < |m| ensures a1[a] == a2[a] {
      if at <= a < at + n {
        assert Home(w, a) == s.vaddr + p + (a - at);
      }
    }
  }

  lemma LoadNone(m: seq<byte>, w: Window, file: seq<byte>, s: Segment)
    ensures Load(m, w, file, s, 0) == m
  {
  }

  /** The file has all the bytes of the segment it is to give. */
  predicate InFile(file: seq<byte>, s: Segment) { s.Stored() > 0 ==> s.offset + s.Stored() <= |file| }

  /** The file position of the segment's byte p. */
  predicate AtByte(f: File, s: Segment, p: nat)
    reads f
  {
    f.pos == if p == 0 && s.offset > |f.data| then |f.data| else s.offset + p
  }

  /** From m to m' only bytes of the segment changed, in place or at their stand-ins. */
  ghost predicate Kept(m: seq<byte>, m': seq<byte>, w: Window, s: Segment) {
    |m'| == |m| && forall a: nat {:trigger m'[a]} :: a < |m| && !Hit(w, s, s.memsz, a) ==> m'[a] == m[a]
  }

  lemma LoadKeeps(m: seq<byte>, w: Window, file: seq<byte>, s: Segment, p: nat)
    requires p <= s.memsz
    ensures Kept(m, Load(m, w, file, s, p), w, s)
  {
  }

  /** Whatever a step stores at its target. */
  lemma StepKeeps(m: seq<byte>, m1: seq<byte>, m2: seq<byte>, w: Window, s: Segment, p: nat, at: nat, n: nat)
    requires Kept(m, m1, w, s) && SameOutside(m1, m2, at, n)
    requires w.Valid(|m|) && Placeable(w, s, |m|) && p + n <= s.memsz && n > 0
    requires var addr := s.vaddr + p;
      if addr < w.end then at == addr - w.addr + w.alt && addr + n <= w.end else at == addr
    ensures Kept(m, m2, w, s)
  {
    forall a: nat | a < |m| && !Hit(w, s, s.memsz, a) ensures m2[a] == m[a] {
      assert at <= a < at + n ==> Home(w, a) == s.vaddr + p + (a - at);
      assert m1[a] == m[a];
    }
  }

  lemma WindowThere(w: Window, s: Segment, m: nat)
    requires w.Valid(m) && Placeable(w, s, m)
    ensures w.addr < w.end && (s.memsz > 0 ==> w.addr <= s.vaddr)
  {
  }

  /** The target of a step lies in memory. */
  lemma TargetFits(w: Window, s: Segment, m: nat, pos: nat, at: nat, size: nat)
    requires w.Valid(m) && Placeable(w, s, m) && size > 0 && pos + size <= s.memsz
    requires var addr := s.vaddr + pos;
      if addr < w.end then at == addr - w.addr + w.alt && addr + size <= w.end else at == addr
    ensures at + size <= m
  {
  }

  /** The file's bytes from the segment's byte p on are the segment's bytes. */
  lemma FileBytes(file: seq<byte>, s: Segment, p: nat, bs: seq<byte>)
    requires p + |bs| <= s.filesz && s.offset + p + |bs| <= |file|
    requires bs == file[s.offset + p..s.offset + p + |bs|]
    ensures forall i :: 0 <= i < |bs| ==> bs[i] == s.Byte(file, p + i)
  {
  }

  /** One chunk of the segment's bytes, or as much of it as the read returns. */
  method LoadChunk(f: File, mem: array<byte>, w: Window, s: Segment, pos: nat, ghost m: seq<byte>)
      returns (ok: bool, size: nat, alt: bool)
    requires f.Valid() && w.Valid(mem.Length) && Placeable(w, s, mem.Length) && |m| == mem.Length
    requires pos < s.Stored() && AtByte(f, s, pos) && mem[..] == Load(m, w, f.data, s, pos)
    modifies f, mem
    ensures f.Valid() && (alt <==> s.vaddr + pos < w.end)
    ensures ok ==> 0 < size && pos + size <= s.Stored() && AtByte(f, s, pos + size)
    ensures ok ==> mem[..] == Load(m, w, f.data, s, pos + size) && s.offset + pos + size <= |f.data|
    ensures f.sound && s.offset + pos < |f.data| ==> ok
    ensures Kept(m, mem[..], w, s)
  {
    hide Load, Splice, Window.Valid, Placeable, Segment.Byte, Kept, Hit, SameOutside;
    LoadKeeps(m, w, f.data, s, pos);
    ghost var was := mem[..];
    var addr := s.vaddr + pos;
    size := CHUNK;
    if size > s.filesz - pos { size := s.filesz - pos; }
    if size > s.memsz - pos { size := s.memsz - pos; }
    var at;
    WindowThere(w, s, mem.Length);
    at, size, alt := Target(w, addr, size);
    ghost var from := f.pos;
    var rd;
    TargetFits(w, s, mem.Length, pos, at, size);
    ok, rd := f.Read(mem, at, size);
    StepKeeps(m, was, mem[..], w, s, pos, at, size);
    if !ok { return; }
    if rd == 0 { return false, size, alt; }
    if size > rd { size := rd; }
    FileBytes(f.data, s, pos, f.data[from..from + rd]);
    LoadStep(m, w, f.data, s, pos, at, size, f.data[from..from + rd]);
  }

  /** The first loop: the segment's bytes from the file, in chunks. */
  method LoadBytes(f: File, mem: array<byte>, w: Window, s: Segment, alt0: bool) returns (ok: bool, alt: bool)
    requires f.Valid() && w.Valid(mem.Length) && Placeable(w, s, mem.Length) && AtByte(f, s, 0)
    modifies f, mem
    ensures f.Valid() && (ok ==> InFile(f.data, s)) && (f.sound && InFile(f.data, s) ==> ok)
    ensures ok ==> mem[..] == Load(old(mem[..]), w, f.data, s, s.Stored())
    ensures (alt0 ==> alt) && (ok ==> (alt <==> alt0 || (s.Stored() > 0 && s.vaddr < w.end)))
    ensures Kept(old(mem[..]), mem[..], w, s)
  {
    hide Load, Placeable, Kept;
    ghost var m := mem[..];
    LoadNone(m, w, f.data, s);
    LoadKeeps(m, w, f.data, s, 0);
    ok, alt := true, alt0;
    var addr, pos: nat := s.vaddr, 0;
    while pos < s.filesz && pos < s.memsz
      invariant f.Valid() && ok && addr == s.vaddr + pos && pos <= s.Stored() && AtByte(f, s, pos)
      invariant pos > 0 ==> s.offset + pos <= |f.data|
      invariant mem[..] == Load(m, w, f.data, s, pos)
      invariant (alt <==> alt0 || (pos > 0 && s.vaddr < w.end)) && Kept(m, mem[..], w, s)
    {
      var size, here;
      ok, size, here := LoadChunk(f, mem, w, s, pos, m);
      if here { alt := true; }
      if !ok { return; }
      addr, pos := addr + size, pos + size;
    }
  }

  /** The second loop: zeros up to the segment's memory size. */
  method LoadZeros(mem: array<byte>, w: Window, s: Segment, alt0: bool, ghost m: seq<byte>, ghost file: seq<byte>)
      returns (alt: bool)
    requires w.Valid(mem.Length) && Placeable(w, s, mem.Length) && |m| == mem.Length
    requires mem[..] == Load(m, w, file, s, s.Stored()) && (s.Stored() > 0 && s.vaddr < w.end ==> alt0)
    modifies mem
    ensures mem[..] == Load(m, w, file, s, s.memsz)
    ensures alt <==> alt0 || (s.memsz > 0 && s.vaddr < w.end)
  {
    hide Load, Splice;
    alt := alt0;
    var pos := s.Stored();
    var addr := s.vaddr + pos;
    while pos < s.memsz
      invariant addr == s.vaddr + pos && s.Stored() <= pos <= s.memsz
      invariant mem[..] == Load(m, w, file, s, pos)
      invariant alt <==> alt0 || (pos > 0 && s.vaddr < w.end)
    {
      var size := CHUNK;
      if size > s.memsz - pos { size := s.memsz - pos; }
      var at, here;
      at, size, here := Target(w, addr, size);
      if here { alt := true; }
      LoadStep(m, w, file, s, pos, at, size, seq(size, _ => 0));
      ZeroFill(mem, at, size);
      addr, pos := addr + size, pos + size;
    }
  }

  method ZeroFill(mem: array<byte>, at: nat, size: nat)
    requires at + size <= mem.Length
    modifies mem
    ensures mem[..] == Splice(old(mem[..]), at, seq(size, _ => 0))
  {
    var p, s := at, size;
    while s > 0
      invariant 0 <= s <= size && p == at + size - s
      invariant forall a :: 0 <= a < mem.Length ==> mem[a] == if at <= a < p then 0 else old(mem[a])
    {
      mem[p] := 0;
      p, s := p + 1, s - 1;
    }
  }

  /** Load one segment whose bytes start at the file position. */
  method LoadSegment(f: File, mem: array<byte>, w: Window, s: Segment, alt0: bool) returns (ok: bool, alt: bool)
    requires f.Valid() && w.Valid(mem.Length) && Placeable(w, s, mem.Length)
    requires AtByte(f, s, 0)
    modifies f, mem
    ensures f.Valid() && (ok ==> InFile(f.data, s)) && (f.sound && InFile(f.data, s) ==> ok)
    ensures ok ==> mem[..] == Load(old(mem[..]), w, f.data, s, s.memsz)
    ensures (alt0 ==> alt) && (ok ==> (alt <==> alt0 || (s.memsz > 0 && s.vaddr < w.end)))
    ensures Kept(old(mem[..]), mem[..], w, s)
  {
    hide Load, Kept;
    ghost var m := mem[..];
    ok, alt := LoadBytes(f, mem, w, s, alt0);
    if ok {
      alt := LoadZeros(mem, w, s, alt, m, f.data);
      LoadKeeps(m, w, f.data, s, s.memsz);
    }
  }

  /** A little-endian number. */
  function Le(b: seq<byte>): nat { if b == [] then 0 else b[0] as nat + 0x100 * Le(b[1..]) }

  /** The number of n bytes at offset o of the file, 0 when the file ends before. */
  function Field(file: seq<byte>, o: nat, n: nat): nat { if o + n <= |file| then Le(file[o..o + n]) else 0 }

  /** read_num: v is the next number of the file, unless an error was or is met. */
  method ReadNum(f: File, size: nat, err: bool) returns (err': bool, v: nat)
    requires f.Valid() && 0 < size <= 16
    modifies f
    ensures f.Valid() && (err ==> err') && (f.sound ==> (err' <==> err || old(f.pos) + size > |f.data|))
    ensures !err' ==>
      old(f.pos) + size <= |f.data| && f.pos == old(f.pos) + size && v == Field(f.data, old(f.pos), size)
  {
    hide Splice;
    err', v := err, 0;
    if err' { return; }
    var buf := new byte[16](_ => 0);
    ghost var at := f.pos;
    var ok, rd := f.Read(buf, 0, size);
    if !ok { return true, 0; }
    if rd < size { return true, 0; }
    ghost var bs := f.data[at..at + size];
    var n := size;
    while n > 0
      invariant !err' && f.pos == at + size && n <= size && v == Le(bs[n..])
      invariant forall i :: 0 <= i < size ==> buf[i] == bs[i]
    {
      n := n - 1;
      LeStep(bs, n);
      v := buf[n] as nat + 0x100 * v;
    }
  }

  lemma LeStep(bs: seq<byte>, n: nat)
    requires n < |bs|
    ensures Le(bs[n..]) == bs[n] as nat + 0x100 * Le(bs[n + 1..])
  {
    assert bs[n..][1..] == bs[n + 1..];
  }

  // Where the fields of the headers are; x is the size of an address, 4 or 8.

  function PhOff(file: seq<byte>, x: nat): nat { Field(file, 24 + x, x) }
  function PhEntSize(file: seq<byte>, x: nat): nat { Field(file, 30 + 3 * x, 2) }
  function PhNum(file: seq<byte>, x: nat): nat { Field(file, 32 + 3 * x, 2) }

  function PhAt(file: seq<byte>, x: nat, i: nat): nat { PhOff(file, x) + i * PhEntSize(file, x) }

  predicate IsLoad(file: seq<byte>, x: nat, i: nat) { Field(file, PhAt(file, x, i), 4) == PT_LOAD }

  function SegmentAt(file: seq<byte>, x: nat, o: nat): Segment {
    Segment(Field(file, o, x), Field(file, o + x, x), Field(file, o + 3 * x, x), Field(file, o + 4 * x, x))
  }

  function Phdr(file: seq<byte>, x: nat, i: nat): Segment {
    SegmentAt(file, x, PhAt(file, x, i) + if x == 4 then 4 else 8)
  }

  // The same layout in numbers: little-endian words of two, four and eight bytes at their places in the file.

  ghost function Word2(file: seq<byte>, o: nat): nat
    requires o + 2 <= |file|
  {
    file[o] as nat + 0x100 * file[o + 1] as nat
  }

  ghost function Word4(file: seq<byte>, o: nat): nat
    requires o + 4 <= |file|
  {
    file[o] as nat + 0x100 * file[o + 1] as nat + 0x1_0000 * file[o + 2] as nat + 0x100_0000 * file[o + 3] as nat
  }

  ghost function Word8(file: seq<byte>, o: nat): nat
    requires o + 8 <= |file|
  {
    Word4(file, o) + 0x1_0000_0000 * Word4(file, o + 4)
  }

  lemma FieldIs2(file: seq<byte>, o: nat)
    requires o + 2 <= |file|
    ensures Field(file, o, 2) == Word2(file, o)
  {
    LeIs(file, o, 2);
    LeIs(file, o + 1, 1);
  }

  lemma FieldIs4(file: seq<byte>, o: nat)
    requires o + 4 <= |file|
    ensures Field(file, o, 4) == Word4(file, o)
  {
    LeIs(file, o, 4);
    LeIs(file, o + 1, 3);
    FieldIs2(file, o + 2);
  }

  lemma FieldIs8(file: seq<byte>, o: nat)
    requires o + 8 <= |file|
    ensures Field(file, o, 8) == Word8(file, o)
  {
    hide Le;
    LeIs(file, o, 8);
    LeIs(file, o + 1, 7);
    LeIs(file, o + 2, 6);
    LeIs(file, o + 3, 5);
    FieldIs4(file, o + 4);
  }

  lemma LeIs(file: seq<byte>, o: nat, n: nat)
    requires 0 < n && o + n <= |file|
    ensures Le(file[o..o + n]) == file[o] as nat + 0x100 * Le(file[o + 1..o + n])
    ensures n == 1 ==> Le(file[o + 1..o + n]) == 0
  {
    assert file[o..o + n][1..] == file[o + 1..o + n];
  }

  /** A header of type 1 to be loaded, told by its first four bytes. */
  lemma TypeIs(file: seq<byte>, o: nat)
    requires o + 4 <= |file|
    ensures Field(file, o, 4) == PT_LOAD <==> file[o..o + 4] == [1, 0, 0, 0]
  {
    FieldIs4(file, o);
  }

  /** The file's header in numbers: the entry address at 24, where the program headers are, how long each of them is and
      how many there are. */
  lemma HeaderIs(file: seq<byte>, x: nat)
    ensures x == 8 && |file| >= 58 ==>
      && Field(file, 24, x) == Word8(file, 24) && PhOff(file, x) == Word8(file, 32)
      && PhEntSize(file, x) == Word2(file, 54) && PhNum(file, x) == Word2(file, 56)
    ensures x == 4 && |file| >= 46 ==>
      && Field(file, 24, x) == Word4(file, 24) && PhOff(file, x) == Word4(file, 28)
      && PhEntSize(file, x) == Word2(file, 42) && PhNum(file, x) == Word2(file, 44)
  {
    hide Field, Word2, Word4, Word8;
    if x == 8 && |file| >= 58 {
      FieldIs8(file, 24);
      FieldIs8(file, 32);
      FieldIs2(file, 54);
      FieldIs2(file, 56);
    }
    if x == 4 && |file| >= 46 {
      FieldIs4(file, 24);
      FieldIs4(file, 28);
      FieldIs2(file, 42);
      FieldIs2(file, 44);
    }
  }

  /** A program header in numbers: offset, address, size in the file and size in memory. */
  lemma PhdrIs(file: seq<byte>, x: nat, o: nat)
    ensures x == 8 && o + 48 <= |file| ==>
      SegmentAt(file, x, o + 8) ==
        Segment(Word8(file, o + 8), Word8(file, o + 16), Word8(file, o + 32), Word8(file, o + 40))
    ensures x == 4 && o + 24 <= |file| ==>
      SegmentAt(file, x, o + 4) ==
        Segment(Word4(file, o + 4), Word4(file, o + 8), Word4(file, o + 16), Word4(file, o + 20))
  {
    hide Field, Word4, Word8;
    if x == 8 && o + 48 <= |file| {
      FieldIs8(file, o + 8);
      FieldIs8(file, o + 16);
      FieldIs8(file, o + 32);
      FieldIs8(file, o + 40);
    }
    if x == 4 && o + 24 <= |file| {
      FieldIs4(file, o + 4);
      FieldIs4(file, o + 8);
      FieldIs4(file, o + 16);
      FieldIs4(file, o + 20);
    }
  }

  /** Memory from vaddr on holds filesz bytes of the file from ofs on, cut off at memsz, and zeros up to memsz; what
      belongs to addresses from w.addr up to w.end is at w.alt while loading. */
  ghost predicate Placed(m: seq<byte>, w: Window, loading: bool, file: seq<byte>,
                         ofs: nat, vaddr: nat, filesz: nat, memsz: nat)
  {
    forall k: nat :: k < memsz ==> HasByte(m, w, loading, file, ofs, vaddr, filesz, k)
  }

  ghost predicate HasByte(m: seq<byte>, w: Window, loading: bool, file: seq<byte>,
                          ofs: nat, vaddr: nat, filesz: nat, k: nat)
  {
    var a := vaddr + k;
    var place := if loading && w.addr <= a < w.end then a - w.addr + w.alt else a;
    && place < |m| && (k < filesz ==> ofs + k < |file|)
    && m[place] == if k < filesz then file[ofs + k] else 0
  }

  /** What the program header at offset o asks for is in memory, if it is one of type 1. */
  ghost predicate HeaderDone(m: seq<byte>, w: Window, loading: bool, file: seq<byte>, x: nat, o: nat) {
    && o + 4 <= |file|
    && (x == 8 && file[o..o + 4] == [1, 0, 0, 0] ==>
          && o + 48 <= |file|
          && Placed(m, w, loading, file, Word8(file, o + 8), Word8(file, o + 16), Word8(file, o + 32),
                    Word8(file, o + 40)))
    && (x == 4 && file[o..o + 4] == [1, 0, 0, 0] ==>
          && o + 24 <= |file|
          && Placed(m, w, loading, file, Word4(file, o + 4), Word4(file, o + 8), Word4(file, o + 16),
                    Word4(file, o + 20)))
  }

  /** All program headers of the file, which says at 32, 54 and 56 (or 28, 42 and 44) where they are. */
  ghost predicate AllDone(m: seq<byte>, w: Window, loading: bool, file: seq<byte>, x: nat) {
    && (x == 8 ==> |file| >= 58 && forall i: nat :: i < Word2(file, 56) ==>
          EntryDone(m, w, loading, file, x, Word8(file, 32), Word2(file, 54), i))
    && (x == 4 ==> |file| >= 46 && forall i: nat :: i < Word2(file, 44) ==>
          EntryDone(m, w, loading, file, x, Word4(file, 28), Word2(file, 42), i))
  }

  ghost predicate EntryDone(m: seq<byte>, w: Window, loading: bool, file: seq<byte>, x: nat,
                            start: nat, size: nat, i: nat)
  {
    HeaderDone(m, w, loading, file, x, start + i * size)
  }

  /** The file has the whole of the program header at offset o, which for a segment to load is more than its type. */
  predicate HasHeader(file: seq<byte>, x: nat, o: nat) {
    && o + 4 <= |file|
    && (Field(file, o, 4) == PT_LOAD ==> o + (if x == 4 then 4 else 8) + 5 * x <= |file|)
  }

  /** The file has program header i and the segment's bytes. */
  predicate HasSegment(file: seq<byte>, x: nat, i: nat) {
    && HasHeader(file, x, PhAt(file, x, i))
    && (IsLoad(file, x, i) ==> InFile(file, Phdr(file, x, i)))
  }

  /** Read a program header. */
  method ReadPhdr(f: File, x: nat, ph: nat) returns (err: bool, load: bool, s: Segment)
    requires f.Valid() && (x == 4 || x == 8)
    modifies f
    ensures f.Valid() && (!err ==> HasHeader(f.data, x, ph)) && (f.sound && HasHeader(f.data, x, ph) ==> !err)
    ensures !err ==> (load <==> Field(f.data, ph, 4) == PT_LOAD)
    ensures !err && load ==> s == SegmentAt(f.data, x, ph + if x == 4 then 4 else 8)
  {
    s, load := Segment(0, 0, 0, 0), false;
    var ok := f.Seek(ph);
    var ptype;
    err, ptype := ReadNum(f, 4, !ok);
    if err { return; }
    load := ptype == PT_LOAD;
    if !load { return; }
    ok := f.Seek(f.pos + if x == 4 then 0 else 4);
    var offset, vaddr, paddr, filesz, memsz;
    err, offset := ReadNum(f, x, !ok);
    err, vaddr := ReadNum(f, x, err);
    err, paddr := ReadNum(f, x, err);
    err, filesz := ReadNum(f, x, err);
    err, memsz := ReadNum(f, x, err);
    s := Segment(offset, vaddr, filesz, memsz);
  }

  /** All segments can be placed, and no two of them share memory. */
  ghost predicate Bootable(file: seq<byte>, x: nat, w: Window, m: nat) {
    && (forall i: nat :: i < PhNum(file, x) && IsLoad(file, x, i) ==> Placeable(w, Phdr(file, x, i), m))
    && forall i: nat, j: nat :: i < j < PhNum(file, x) && IsLoad(file, x, i) && IsLoad(file, x, j) ==>
         Apart(Phdr(file, x, i), Phdr(file, x, j))
  }

  predicate Apart(s: Segment, t: Segment) { s.vaddr + s.memsz <= t.vaddr || t.vaddr + t.memsz <= s.vaddr }

  /** The segment's bytes are in memory, in place or at their stand-ins. */
  ghost predicate Loaded(m: seq<byte>, w: Window, file: seq<byte>, s: Segment) {
    && InFile(file, s)
    && forall a: nat {:trigger m[a]} :: a < |m| && Hit(w, s, s.memsz, a) ==> m[a] == s.Byte(file, Home(w, a) - s.vaddr)
  }

  lemma LoadedByLoad(m: seq<byte>, w: Window, file: seq<byte>, s: Segment)
    requires InFile(file, s)
    ensures Loaded(Load(m, w, file, s, s.memsz), w, file, s)
  {
  }

  /** Loading one segment leaves the others as they are. */
  lemma LoadedStays(m: seq<byte>, w: Window, file: seq<byte>, s: Segment, t: Segment)
    requires Loaded(m, w, file, s) && (Apart(s, t) || Apart(t, s))
    ensures Loaded(Load(m, w, file, t, t.memsz), w, file, s)
  {
  }

  /** Address a belongs to a segment of the file. */
  ghost predicate InSegment(file: seq<byte>, x: nat, a: int) {
    exists i: nat :: i < PhNum(file, x) && IsLoad(file, x, i) && Covers(Phdr(file, x, i), a)
  }

  predicate Covers(s: Segment, a: int) { s.vaddr <= a < s.vaddr + s.memsz }

  /** Memory m' differs from m in the bytes of segments only, and while loading not in the boot ROM's window; after the
      copy back that holds what the alternate window held where no segment is. */
  ghost predicate Framed(m: seq<byte>, m': seq<byte>, w: Window, file: seq<byte>, x: nat, copied: bool)
    requires w.Valid(|m|)
  {
    |m'| == |m| && forall a: nat {:trigger m'[a]} :: a < |m| ==>
      && (!InSegment(file, x, Home(w, a)) ==> m'[a] == m[if copied then w.Reloc(a) else a])
      && (!copied && w.Inside(a) ==> m'[a] == m[a])
  }

  lemma FramedNone(m: seq<byte>, w: Window, file: seq<byte>, x: nat)
    requires w.Valid(|m|)
    ensures Framed(m, m, w, file, x, false)
  {
  }

  /** Loading a segment of the file. */
  lemma FramedMore(m: seq<byte>, m1: seq<byte>, m2: seq<byte>, w: Window, file: seq<byte>, x: nat, i: nat)
    requires w.Valid(|m|) && i < PhNum(file, x) && IsLoad(file, x, i)
    requires Framed(m, m1, w, file, x, false) && Kept(m1, m2, w, Phdr(file, x, i))
    ensures Framed(m, m2, w, file, x, false)
  {
    var s := Phdr(file, x, i);
    hide PhNum, IsLoad, Phdr;
    forall a: nat | a < |m| && (!InSegment(file, x, Home(w, a)) || w.Inside(a)) ensures m2[a] == m[a] {
      assert Hit(w, s, s.memsz, a) ==> Covers(s, Home(w, a));
      assert m1[a] == m[a];
    }
  }

  /** The copy back. */
  lemma FramedCopy(m: seq<byte>, m1: seq<byte>, w: Window, file: seq<byte>, x: nat)
    requires w.Valid(|m|) && Framed(m, m1, w, file, x, false)
    ensures Framed(m, Splice(m1, w.addr, m1[w.alt..w.alt + (w.end - w.addr)]), w, file, x, true)
  {
    hide InSegment;
    var m2 := Splice(m1, w.addr, m1[w.alt..w.alt + (w.end - w.addr)]);
    forall a: nat | a < |m| && !InSegment(file, x, Home(w, a)) ensures m2[a] == m[w.Reloc(a)] {
      if w.Inside(a) {
        assert m2[a] == m1[w.Reloc(a)] && Home(w, w.Reloc(a)) == a == Home(w, a);
      } else {
        assert m2[a] == m1[a];
      }
    }
  }

  /** The loop over the program headers. alt tells whether the boot ROM's window is in use, as it may be from an earlier
      attempt to load. */
  method LoadAll(f: File, mem: array<byte>, w: Window, x: nat, phoff: nat, entsize: nat, num: nat, alt0: bool)
      returns (ok: bool, alt: bool)
    requires f.Valid() && w.Valid(mem.Length) && (x == 4 || x == 8) && Bootable(f.data, x, w, mem.Length)
    requires 34 + 3 * x <= |f.data|
    requires phoff == PhOff(f.data, x) && entsize == PhEntSize(f.data, x) && num == PhNum(f.data, x)
    modifies f, mem
    ensures f.Valid() && (ok ==> forall i: nat :: i < num ==> HasSegment(f.data, x, i))
    ensures f.sound && (forall i: nat :: i < num ==> HasSegment(f.data, x, i)) ==> ok
    ensures ok ==> forall i: nat :: i < num && IsLoad(f.data, x, i) ==> Loaded(mem[..], w, f.data, Phdr(f.data, x, i))
    ensures ok ==> AllDone(mem[..], w, true, f.data, x)
    ensures (alt0 ==> alt) && Framed(old(mem[..]), mem[..], w, f.data, x, false)
    ensures ok && !alt ==> forall i: nat :: i < num && IsLoad(f.data, x, i) ==>
      Phdr(f.data, x, i).memsz == 0 || Phdr(f.data, x, i).vaddr >= w.end
  {
    hide Load, Loaded, Placeable, SegmentAt, Field, PhOff, PhEntSize, PhNum, Framed, Kept, Window.Valid, AllDone;
    alt := alt0;
    ghost var m0 := mem[..];
    FramedNone(m0, w, f.data, x);
    var i := 0;
    while i < num
      invariant f.Valid() && i <= num && (alt0 ==> alt) && Framed(m0, mem[..], w, f.data, x, false)
      invariant forall j: nat :: j < i ==> HasSegment(f.data, x, j)
      invariant forall j: nat :: j < i && IsLoad(f.data, x, j) ==> Loaded(mem[..], w, f.data, Phdr(f.data, x, j))
      invariant !alt ==> forall j: nat :: j < i && IsLoad(f.data, x, j) ==>
        Phdr(f.data, x, j).memsz == 0 || Phdr(f.data, x, j).vaddr >= w.end
    {
      var err, load, s := ReadPhdr(f, x, phoff + i * entsize);
      if err {
        assert f.sound ==> !HasSegment(f.data, x, i);
        return false, alt;
      }
      if load {
        assert IsLoad(f.data, x, i) && s == Phdr(f.data, x, i);
        var sought := f.Seek(s.offset);
        if !sought { return false, alt; }
        ghost var m := mem[..];
        ok, alt := LoadSegment(f, mem, w, s, alt);
        FramedMore(m0, m, mem[..], w, f.data, x, i);
        if !ok {
          assert f.sound ==> !HasSegment(f.data, x, i);
          return;
        }
        LoadedByLoad(m, w, f.data, s);
        forall j: nat | j < i && IsLoad(f.data, x, j) ensures Loaded(mem[..], w, f.data, Phdr(f.data, x, j)) {
          LoadedStays(m, w, f.data, Phdr(f.data, x, j), s);
        }
      }
      i := i + 1;
    }
    ok := true;
    LoadedDone(mem[..], w, f.data, x);
  }

  /** When all segments are loaded, what the headers ask for is in memory or at its stand-in. */
  lemma LoadedDone(m: seq<byte>, w: Window, file: seq<byte>, x: nat)
    requires w.Valid(|m|) && (x == 4 || x == 8) && 34 + 3 * x <= |file| && Bootable(file, x, w, |m|)
    requires forall i: nat :: i < PhNum(file, x) ==> HasSegment(file, x, i)
    requires forall i: nat :: i < PhNum(file, x) && IsLoad(file, x, i) ==> Loaded(m, w, file, Phdr(file, x, i))
    ensures AllDone(m, w, true, file, x)
  {
    hide Field, Word2, Word4, Word8, Window.Valid, Placeable, Loaded, HeaderDone, SegmentAt, PhOff, PhEntSize, PhNum;
    HeaderIs(file, x);
    forall i: nat | i < PhNum(file, x)
      ensures EntryDone(m, w, true, file, x, PhOff(file, x), PhEntSize(file, x), i)
    {
      assert HasSegment(file, x, i);
      var s, o := Phdr(file, x, i), PhAt(file, x, i);
      if IsLoad(file, x, i) { LoadedPlaced(m, w, file, s); }
      HeaderBy(m, w, true, file, x, o);
    }
  }

  /** A header whose segment, if it has one to load, is in memory. */
  lemma HeaderBy(m: seq<byte>, w: Window, loading: bool, file: seq<byte>, x: nat, o: nat)
    requires (x == 4 || x == 8) && HasHeader(file, x, o)
    requires Field(file, o, 4) == PT_LOAD ==>
      var s := SegmentAt(file, x, o + if x == 4 then 4 else 8);
      Placed(m, w, loading, file, s.offset, s.vaddr, s.filesz, s.memsz)
    ensures HeaderDone(m, w, loading, file, x, o)
  {
    hide Field, Word4, Word8, Placed, SegmentAt;
    TypeIs(file, o);
    PhdrIs(file, x, o);
  }

  lemma LoadedPlaced(m: seq<byte>, w: Window, file: seq<byte>, s: Segment)
    requires w.Valid(|m|) && Placeable(w, s, |m|) && Loaded(m, w, file, s)
    ensures Placed(m, w, true, file, s.offset, s.vaddr, s.filesz, s.memsz)
  {
    hide Loaded, Placeable;
    LoadedInFile(m, w, file, s);
    forall k: nat | k < s.memsz ensures HasByte(m, w, true, file, s.offset, s.vaddr, s.filesz, k) {
      BytePlaced(m, w, file, s, k);
    }
  }

  /** When every segment is where it belongs, so is what the headers ask for. */
  lemma InMemoryDone(m: seq<byte>, w: Window, file: seq<byte>, x: nat)
    requires (x == 4 || x == 8) && 34 + 3 * x <= |file|
    requires forall i: nat :: i < PhNum(file, x) ==> HasSegment(file, x, i)
    requires forall i: nat :: i < PhNum(file, x) && IsLoad(file, x, i) ==> InMemory(m, file, Phdr(file, x, i))
    ensures AllDone(m, w, false, file, x)
  {
    hide Field, Word2, Word4, Word8, InMemory, HeaderDone, SegmentAt, PhOff, PhEntSize, PhNum;
    HeaderIs(file, x);
    forall i: nat | i < PhNum(file, x)
      ensures EntryDone(m, w, false, file, x, PhOff(file, x), PhEntSize(file, x), i)
    {
      assert HasSegment(file, x, i);
      if IsLoad(file, x, i) { InMemoryPlaced(m, w, file, Phdr(file, x, i)); }
      HeaderBy(m, w, false, file, x, PhAt(file, x, i));
    }
  }

  lemma InMemoryPlaced(m: seq<byte>, w: Window, file: seq<byte>, s: Segment)
    requires InMemory(m, file, s)
    ensures Placed(m, w, false, file, s.offset, s.vaddr, s.filesz, s.memsz)
  {
    forall k: nat | k < s.memsz ensures HasByte(m, w, false, file, s.offset, s.vaddr, s.filesz, k) {
      var b := s.Byte(file, k);
      assert m[s.vaddr + k] == b;
    }
  }

  /** The copy loop in assembly: eight bytes at a time from the alternate window to the boot ROM's own, until the two
      addresses are equal. */
  method CopyBack(mem: array<byte>, w: Window)
    requires w.Valid(mem.Length)
    modifies mem
    ensures mem[..] == Splice(old(mem[..]), w.addr, old(mem[..])[w.alt..w.alt + (w.end - w.addr)])
  {
    hide Splice, Window.Valid, Copied, Eights;
    ghost var m := mem[..];
    var t0, t1, t2 := w.addr, w.end, w.alt;
    ghost var k, n := 0, Eights(w, |m|);
    CopyNone(m, w);
    while true
      invariant k < n && t0 == w.addr + 8 * k && t2 == w.alt + 8 * k
      invariant mem[..] == Copied(m, w, k)
      decreases n - k
    {
      CopyMore(m, w, k);
      MoveEight(mem, t0, t2);
      t0, t2, k := t0 + 8, t2 + 8, k + 1;
      if t0 == t1 { break; }
    }
    assert k == n;
    assert mem[..] == Copied(m, w, n);
    CopyAll(m, w);
  }

  /** Memory m after k turns of the copy loop. */
  ghost function Copied(m: seq<byte>, w: Window, k: nat): (m': seq<byte>)
    requires w.Valid(|m|) && k <= Eights(w, |m|)
    ensures |m'| == |m|
  {
    Splice(m, w.addr, m[w.alt..w.alt + 8 * k])
  }

  /** How many turns the copy loop takes. */
  ghost function Eights(w: Window, m: nat): (n: nat)
    requires w.Valid(m)
    ensures 0 < n && w.end == w.addr + 8 * n <= m && w.alt + 8 * n <= m
  {
    (w.end - w.addr) / 8
  }

  /** One turn of the copy loop. */
  method MoveEight(mem: array<byte>, t0: nat, t2: nat)
    requires t0 + 8 <= mem.Length && t2 + 8 <= mem.Length
    modifies mem
    ensures mem[..] == Splice(old(mem[..]), t0, old(mem[..])[t2..t2 + 8])
  {
    forall i | 0 <= i < 8 { mem[t0 + i] := mem[t2 + i]; }
  }

  lemma CopyNone(m: seq<byte>, w: Window)
    requires w.Valid(|m|)
    ensures Copied(m, w, 0) == m
  {
  }

  lemma CopyAll(m: seq<byte>, w: Window)
    requires w.Valid(|m|)
    ensures Copied(m, w, Eights(w, |m|)) == Splice(m, w.addr, m[w.alt..w.alt + (w.end - w.addr)])
  {
  }

  /** Moving on by eight bytes. */
  lemma CopyMore(m: seq<byte>, w: Window, k: nat)
    requires w.Valid(|m|) && k < Eights(w, |m|)
    ensures var m' := Copied(m, w, k);
      Splice(m', w.addr + 8 * k, m'[w.alt + 8 * k..w.alt + 8 * k + 8]) == Copied(m, w, k + 1)
  {
    hide Splice;
    var n := 8 * k;
    var x, y := m[w.alt..w.alt + n], m[w.alt + n..w.alt + n + 8];
    SliceBeside(m, w.addr, x, w.alt + n, 8);
    SpliceOn(m, w.addr, x, y);
    assert m[w.alt..w.alt + n + 8] == x + y;
  }

  lemma SliceBeside(m: seq<byte>, at: nat, x: seq<byte>, o: nat, n: nat)
    requires at + |x| <= |m| && o + n <= |m| && (o + n <= at || at + |x| <= o)
    ensures Splice(m, at, x)[o..o + n] == m[o..o + n]
  {
    var a, b := Splice(m, at, x)[o..o + n], m[o..o + n];
    forall i | 0 <= i < n ensures a[i] == b[i] {
      assert a[i] == Splice(m, at, x)[o + i];
    }
  }

  lemma SpliceOn(m: seq<byte>, at: nat, x: seq<byte>, y: seq<byte>)
    requires at + |x| + |y| <= |m|
    ensures Splice(Splice(m, at, x), at + |x|, y) == Splice(m, at, x + y)
  {
  }

  /** The segment's memory holds its bytes of the file, which has them all, followed by zeros. */
  ghost predicate InMemory(m: seq<byte>, file: seq<byte>, s: Segment) {
    && InFile(file, s)
    && forall k: nat {:trigger s.Byte(file, k)} :: k < s.memsz ==>
         s.vaddr + k < |m| && m[s.vaddr + k] == s.Byte(file, k)
  }

  /** While loading, byte k of a loaded segment is at its stand-in. */
  lemma BytePlaced(m: seq<byte>, w: Window, file: seq<byte>, s: Segment, k: nat)
    requires w.Valid(|m|) && Placeable(w, s, |m|) && Loaded(m, w, file, s) && k < s.memsz
    ensures w.Reloc(s.vaddr + k) < |m| && m[w.Reloc(s.vaddr + k)] == s.Byte(file, k)
  {
    var a := w.Reloc(s.vaddr + k);
    assert Home(w, a) == s.vaddr + k;
    assert Hit(w, s, s.memsz, a);
  }

  lemma LoadedInFile(m: seq<byte>, w: Window, file: seq<byte>, s: Segment)
    requires Loaded(m, w, file, s)
    ensures InFile(file, s)
  {
  }

  /** After the copy back the segment is where it belongs. */
  lemma InPlace(m: seq<byte>, m': seq<byte>, w: Window, file: seq<byte>, s: Segment)
    requires w.Valid(|m|) && Placeable(w, s, |m|) && Loaded(m, w, file, s)
    requires (m' == m && (s.memsz == 0 || s.vaddr >= w.end))
          || m' == Splice(m, w.addr, m[w.alt..w.alt + (w.end - w.addr)])
    ensures InMemory(m', file, s)
  {
    hide Loaded, Segment.Byte;
    LoadedInFile(m, w, file, s);
    forall k: nat | k < s.memsz ensures s.vaddr + k < |m'| && m'[s.vaddr + k] == s.Byte(file, k) {
      BytePlaced(m, w, file, s, k);
      var x := s.vaddr + k;
      if w.Inside(x) { assert m[w.alt..w.alt + (w.end - w.addr)][x - w.addr] == m[w.Reloc(x)]; }
    }
  }

  /** The identification bytes: the magic number, the address size, little endian. */
  predicate Ident(file: seq<byte>, x: nat) {
    |file| >= 6 && file[..6] == [0x7f, 0x45, 0x4c, 0x46, if x == 4 then 1 else 2, 1]
  }

  method CheckIdent(f: File, x: nat) returns (ok: bool)
    requires f.Valid() && f.pos == 0
    modifies f
    ensures f.Valid() && (ok ==> Ident(f.data, x)) && (f.sound ==> (ok <==> Ident(f.data, x)))
  {
    var buf := new byte[16](_ => 0);
    var rd;
    ok, rd := f.Read(buf, 0, 6);
    if !ok { return; }
    if rd < 6 { return false; }
    assert buf[..6] == f.data[..6];
    if buf[0] != 0x7f || buf[1] != 0x45 || buf[2] != 0x4c || buf[3] != 0x46 { return false; }
    if buf[4] != (if x == 4 then 1 else 2) { return false; }
    if buf[5] != 1 { return false; }
  }

  /** The file is whole: it has the headers and all bytes of the segments. */
  predicate Whole(file: seq<byte>, x: nat) {
    Ident(file, x) && 34 + 3 * x <= |file| && forall i: nat :: i < PhNum(file, x) ==> HasSegment(file, x, i)
  }

  /** download: read the headers, load the segments, copy the window back. When it succeeds, every segment's memory
      holds its bytes of the file followed by zeros, whatever counts the reads returned; with a sound file it succeeds
      exactly when the file is whole. */
  method Download(f: File, mem: array<byte>, w: Window, x: nat, alt0: bool)
      returns (ok: bool, alt: bool, entry: nat)
    requires f.Valid() && f.pos == 0 && w.Valid(mem.Length) && (x == 4 || x == 8) && Bootable(f.data, x, w, mem.Length)
    modifies f, mem
    ensures (alt0 ==> alt) && Framed(old(mem[..]), mem[..], w, f.data, x, ok && alt)
    ensures (ok ==> Whole(f.data, x)) && (f.sound && Whole(f.data, x) ==> ok)
    ensures ok ==> AllDone(mem[..], w, false, f.data, x)
    ensures ok && x == 8 ==> entry == Word8(f.data, 24)
    ensures ok && x == 4 ==> entry == Word4(f.data, 24)
    ensures ok ==> forall i: nat :: i < PhNum(f.data, x) && IsLoad(f.data, x, i) ==>
      InMemory(mem[..], f.data, Phdr(f.data, x, i))
  {
    hide Field, Loaded, Placeable, SegmentAt, Framed, Window.Valid, Word2, Word4, Word8, AllDone;
    alt, entry := alt0, 0;
    FramedNone(mem[..], w, f.data, x);
    HeaderIs(f.data, x);
    ok := CheckIdent(f, x);
    if !ok { return; }
    ok := f.Seek(24);
    var err;
    err, entry := ReadNum(f, x, !ok);
    var phoff, entsize, num;
    err, phoff := ReadNum(f, x, err);
    if err { return false, alt, entry; }
    ok := f.Seek(f.pos + x + 6);
    err, entsize := ReadNum(f, 2, !ok);
    err, num := ReadNum(f, 2, err);
    if err { return false, alt, entry; }
    ok, alt := LoadAll(f, mem, w, x, phoff, entsize, num, alt);
    if !ok { return; }
    ghost var m := mem[..];
    if alt {
      FramedCopy(old(mem[..]), m, w, f.data, x);
      CopyBack(mem, w);
    }
    forall i: nat | i < num && IsLoad(f.data, x, i) ensures InMemory(mem[..], f.data, Phdr(f.data, x, i)) {
      InPlace(m, mem[..], w, f.data, Phdr(f.data, x, i));
    }
    InMemoryDone(mem[..], w, f.data, x);
  }
}
