/** Several open files on one FAT12/16/32 volume: every call on one of them keeps the volume consistent and all the
    other files as they are. */
module OpenFiles {
  import opened Bits
  import opened Storage
  import opened Volume
  import opened FatTable
  import opened Chains
  import opened FileData
  import opened Allocator
  import opened FileRead
  import opened FileWrite
  import opened FileSeek
  import opened FileSystem

  type Files = map<nat, seq<nat>>

  /** The files are open on fs, and their chains are different ones of those in m. */
  ghost predicate OpenSet(fs: FatFs, fps: seq<Fil>, m: Files)
    reads fps, fs`winsect, fs`wflag, fs`copyLost, fs.win, fs.drive
  {
    && fs.Valid() && fs.Coherent()
    && (forall i :: 0 <= i < |fps| ==> fps[i].fs == fs && fps[i].Valid() && InFiles(m, fps[i].chain))
    && (forall i, j :: 0 <= i < j < |fps| ==> fps[i] != fps[j] && Apart(fps[i].chain, fps[j].chain))
  }

  /** The chain of a file, if it has one, is the one of its start cluster. */
  ghost predicate InFiles(m: Files, ch: seq<nat>) { ch != [] ==> ch[0] in m && m[ch[0]] == ch }

  ghost predicate Apart(ch: seq<nat>, ch': seq<nat>) { ch != [] && ch' != [] ==> ch[0] != ch'[0] }

  /** All chains of the volume are accounted for. */
  ghost predicate Sound(fs: FatFs, m: Files)
    requires fs.Valid()
    reads fs`winsect, fs`wflag, fs`copyLost, fs.win, fs.drive
  {
    Consistent(fs.g, State(fs.View(), m))
  }

  /** A file that no step worked on is as before. */
  lemma KeptFile(g: Geometry, s: State, op: Op, s': State, ch: seq<nat>)
    requires Consistent(g, s) && Step(g, s, op, s') && InFiles(s.files, ch) && (ch != [] ==> !Touches(op, ch[0]))
    ensures Sized(g, s'.view) && InFiles(s'.files, ch)
    ensures IsChain(Links(g, s.view), ch) ==> IsChain(Links(g, s'.view), ch)
    ensures InRange(g, ch) && Data(g, s'.view, ch) == Data(g, s.view, ch)
  {
    hide Links, Data, Geometry.DataFits, IsChain, Step;
    StepConsistent(g, s, op, s');
    StepSized(g, s, op, s');
    if ch != [] {
      StepOthers(g, s, op, s', ch[0]);
    } else {
      NoChain(Links(g, s.view));
      NoData(g, s.view, s'.view);
    }
  }

  lemma NoChain(t: seq<nat>)
    ensures !IsChain(t, [])
  {
  }

  lemma StepSized(g: Geometry, s: State, op: Op, s': State)
    requires Step(g, s, op, s')
    ensures Sized(g, s.view) && Sized(g, s'.view)
  {
  }

  lemma NoData(g: Geometry, v: seq<byte>, v': seq<byte>)
    requires Sized(g, v) && Sized(g, v')
    ensures Data(g, v, []) == Data(g, v', []) == []
  {
  }

  /** The new start cluster of a growing file is no other file's. */
  lemma GrownApart(g: Geometry, s: State, ch: seq<nat>, ch': seq<nat>, other: seq<nat>, view: seq<byte>)
    requires Consistent(g, s) && Grew(g, s.view, ch, view, ch') && InFiles(s.files, other) && Apart(ch, other)
    ensures Apart(ch', other)
    ensures other != [] ==> !Touches(Extend(ch, ch'), other[0])
  {
    hide Links, Geometry.DataFits, Untouched, Step;
    if ch == [] && ch' != [] && other != [] {
      FreeNotOwned(Links(g, s.view), s.files, ch'[0]);
    }
  }

  /** The file object was open on a volume with view v and the chains m, with the bytes c. */
  ghost predicate OpenOn(fp: Fil, v: seq<byte>, m: Files, c: seq<byte>)
    reads fp
  {
    var g := fp.fs.g;
    && !g.fsType.EXFAT? && Sized(g, v) && InRange(g, fp.chain) && InFiles(m, fp.chain)
    && (if fp.sclust == 0 then fp.chain == [] else IsChain(Links(g, v), fp.chain) && fp.chain[0] == fp.sclust)
    && fp.objsize <= 0xFFFFFFFF && fp.objsize <= Ofs(g, |fp.chain|) && fp.sect < LBA_LIMIT
    && fp.fptr <= fp.objsize && fp.CursorAt(fp.fptr) && c == Data(g, v, fp.chain)[..fp.objsize]
  }

  lemma IsOpen(fp: Fil, m: Files)
    requires fp.Valid() && InFiles(m, fp.chain)
    ensures OpenOn(fp, fp.fs.View(), m, fp.Content())
  {
    ChainInRange(fp.fs.g, Table(fp.fs), fp.chain);
    hide Data, Links, IsChain, Sized, Ofs, Fil.CursorAt;
  }

  /** A file object that was not touched itself stays open over a step on another file. */
  lemma StaysOpen(fp: Fil, s: State, op: Op, s': State, c: seq<byte>)
    requires OpenOn(fp, s.view, s.files, c) && fp.fs.Valid() && fp.fs.Coherent() && s'.view == fp.fs.View()
    requires Consistent(fp.fs.g, s) && Step(fp.fs.g, s, op, s')
    requires fp.chain != [] ==> !Touches(op, fp.chain[0])
    ensures fp.Valid() && fp.Content() == c && InFiles(s'.files, fp.chain)
  {
    hide Data, Links, IsChain, Sized, Ofs, Fil.CursorAt, Partition, Step, Touches, Image;
    KeptFile(fp.fs.g, s, op, s', fp.chain);
  }

  /** Where a file object stands: the bytes of the file and the position in it. */
  datatype Cursor = Cursor(content: seq<byte>, pos: nat)

  ghost function Cursors(fs: FatFs, fps: seq<Fil>, m: Files): (cs: seq<Cursor>)
    requires OpenSet(fs, fps, m)
    reads fps, fs, fs.win, fs.drive
    ensures |cs| == |fps|
    ensures forall i {:trigger cs[i]} :: 0 <= i < |fps| ==> cs[i] == Cursor(fps[i].Content(), fps[i].fptr)
  {
    seq(|fps|, i requires 0 <= i < |fps| && OpenSet(fs, fps, m)
                 reads fps, fs, fs.win, fs.drive
               => Cursor(fps[i].Content(), fps[i].fptr))
  }

  datatype Call = Read(n: nat) | Write(bs: seq<byte>) | Seek(ofs: nat) | Truncate

  /** The file was opened for the call. */
  predicate Permitted(fp: Fil, call: Call) {
    match call
    case Read(_) => fp.readable
    case Write(_) => fp.writable
    case Seek(_) => true
    case Truncate => fp.writable
  }

  /** What a successful call does to the cursor of its file, and what it reads; full tells that no cluster is free. */
  ghost predicate Effect(call: Call, writable: bool, c: Cursor, c': Cursor, out: seq<byte>, full: bool) {
    c.pos <= |c.content| && |c.content| <= 0xFFFFFFFF &&
    match call
    case Read(n) =>
      && c'.content == c.content && c'.pos == (if n <= |c.content| - c.pos then c.pos + n else |c.content|)
      && out == c.content[c.pos..c'.pos]
    case Write(bs) =>
      && c.pos <= c'.pos <= c.pos + WriteLimit(c.pos, |bs|) && c'.pos - c.pos <= |bs|
      && c'.content == Overwritten(c.content, c.pos, bs[..c'.pos - c.pos])
      && (c'.pos - c.pos < WriteLimit(c.pos, |bs|) ==> full && c'.pos == |c'.content|)
    case Seek(ofs) =>
      var target := SeekTarget(ofs, |c.content|, writable);
      && c'.pos <= target && |c'.content| == Max(|c.content|, c'.pos) && c.content <= c'.content
      && (c'.pos < target ==> writable && full && c'.pos == |c'.content|) && (!writable ==> c'.content == c.content)
    case Truncate => c' == Cursor(c.content[..c.pos], c.pos)
  }

  /** One file's cursor moved as the call says, all others stayed. */
  ghost predicate Moves(cs: seq<Cursor>, i: nat, call: Call, writable: bool, cs': seq<Cursor>, out: seq<byte>,
                        full: bool)
  {
    && i < |cs| == |cs'| && Effect(call, writable, cs[i], cs'[i], out, full)
    && forall j :: 0 <= j < |cs| && j != i ==> cs'[j] == cs[j]
  }

  /** Before a call on file i: all files are open. */
  lemma AllOpen(fs: FatFs, fps: seq<Fil>, m: Files, cs: seq<Cursor>)
    requires OpenSet(fs, fps, m) && cs == Cursors(fs, fps, m)
    ensures forall j :: 0 <= j < |fps| ==> OpenOn(fps[j], fs.View(), m, cs[j].content) && fps[j].fptr == cs[j].pos
  {
    hide Data, Links, IsChain, Sized, Ofs, Fil.CursorAt, Image;
    forall j | 0 <= j < |fps| ensures OpenOn(fps[j], fs.View(), m, cs[j].content) && fps[j].fptr == cs[j].pos {
      IsOpen(fps[j], m);
    }
  }

  /** After a call on file i that took a step the files are open again, the others as before. */
  lemma OthersOpen(fs: FatFs, fps: seq<Fil>, i: nat, s: State, op: Op, s': State, cs: seq<Cursor>)
    requires fs.Valid() && fs.Coherent() && s'.view == fs.View() && i < |fps| == |cs|
    requires Consistent(fs.g, s) && Step(fs.g, s, op, s')
    requires fps[i].Valid() && InFiles(s'.files, fps[i].chain)
    requires forall j :: 0 <= j < |fps| ==> fps[j].fs == fs
    requires forall j :: 0 <= j < |fps| && j != i ==>
      && OpenOn(fps[j], s.view, s.files, cs[j].content) && fps[j].fptr == cs[j].pos
      && (fps[j].chain != [] ==> !Touches(op, fps[j].chain[0])) && Apart(fps[i].chain, fps[j].chain)
    requires forall j, k :: 0 <= j < k < |fps| ==> fps[j] != fps[k]
    requires forall j, k :: 0 <= j < k < |fps| && j != i && k != i ==> Apart(fps[j].chain, fps[k].chain)
    ensures Sound(fs, s'.files) && OpenSet(fs, fps, s'.files)
    ensures forall j :: 0 <= j < |fps| && j != i ==> Cursors(fs, fps, s'.files)[j] == cs[j]
  {
    hide Data, Links, IsChain, Sized, Ofs, Fil.CursorAt, Image, Partition, Step, Touches, OpenOn;
    StepConsistent(fs.g, s, op, s');
    forall j | 0 <= j < |fps| && j != i
      ensures fps[j].Valid() && fps[j].Content() == cs[j].content && InFiles(s'.files, fps[j].chain)
    {
      StaysOpen(fps[j], s, op, s', cs[j].content);
    }
  }

  /** The same after a call on file i that let its chain grow. */
  lemma GrownOpen(fs: FatFs, fps: seq<Fil>, i: nat, v: seq<byte>, ch: seq<nat>, m: Files, m': Files, cs: seq<Cursor>)
    requires fs.Valid() && fs.Coherent() && i < |fps| == |cs| && Consistent(fs.g, State(v, m)) && InFiles(m, ch)
    requires fps[i].fs == fs && fps[i].Valid() && Grew(fs.g, v, ch, fs.View(), fps[i].chain)
    requires m' == if fps[i].chain == [] then m else m[fps[i].chain[0] := fps[i].chain]
    requires forall j :: 0 <= j < |fps| && j != i ==>
      && fps[j].fs == fs && OpenOn(fps[j], v, m, cs[j].content) && fps[j].fptr == cs[j].pos
      && Apart(ch, fps[j].chain) && InFiles(m, fps[j].chain)
    requires forall j, k :: 0 <= j < k < |fps| ==> fps[j] != fps[k]
    requires forall j, k :: 0 <= j < k < |fps| && j != i && k != i ==> Apart(fps[j].chain, fps[k].chain)
    ensures Sound(fs, m') && OpenSet(fs, fps, m')
    ensures forall j :: 0 <= j < |fps| && j != i ==> Cursors(fs, fps, m')[j] == cs[j]
    ensures NoOnes(Links(fs.g, v)) ==> NoOnes(Table(fs))
  {
    hide Image, CopyAgrees, Links, Ofs, Data, IsChain, Geometry.DataFits, Grew, Fil.CursorAt, Partition, OpenOn;
    hide NoOnes;
    var g, ch' := fs.g, fps[i].chain;
    var s, s', op := State(v, m), State(fs.View(), m'), Extend(ch, ch');
    assert Step(g, s, op, s');
    forall j | 0 <= j < |fps| && j != i
      ensures Apart(ch', fps[j].chain) && (fps[j].chain != [] ==> !Touches(op, fps[j].chain[0]))
    {
      GrownApart(g, s, ch, ch', fps[j].chain, fs.View());
    }
    OthersOpen(fs, fps, i, s, op, s', cs);
    if NoOnes(Links(g, v)) { GrewNoOnes(g, v, ch, fs.View(), ch'); }
  }

  method Buffer(bs: seq<byte>) returns (buff: array<byte>)
    ensures fresh(buff) && buff[..] == bs
  {
    buff := new byte[|bs|](k requires 0 <= k < |bs| => bs[k]);
  }

  /** f_write with the bytes bs in the caller's buffer. */
  method WriteBytes(fp: Fil, bs: seq<byte>) returns (res: FRESULT)
    requires fp.Valid() && |bs| <= 0xFFFFFFFF
    modifies fp, fp.fs, fp.fs.win, fp.fs.drive
    ensures res == FR_OK ==> fp.Valid() && fp.err == FR_OK && (old(fp.fs.Mirrored()) ==> fp.fs.Mirrored())
    ensures res == FR_OK && old(CountRight(fp.fs)) ==> CountRight(fp.fs)
    ensures res == FR_OK ==> Grew(fp.fs.g, old(fp.fs.View()), old(fp.chain), fp.fs.View(), fp.chain)
    ensures fp.fs.Valid() && (old(fp.err) == FR_OK && fp.writable ==> Excused(fp.fs, old(NoOnes(Table(fp.fs))), res))
    ensures res == FR_OK ==>
      Effect(Write(bs), fp.writable, old(Cursor(fp.Content(), fp.fptr)), Cursor(fp.Content(), fp.fptr), [],
        fp.fs.freeClst == 0 || NoFree(Table(fp.fs)))
  {
    hide Image, CopyAgrees, Links, Ofs, Data, IsChain, Geometry.DataFits, Grew, Fil.CursorAt, Overwritten;
    hide FatFs.Mirrored, FatFs.Coherent, Sized, NoFree, NoOnes, Geometry.Valid, CountRight, Excused, AtEnd;
    var buff := Buffer(bs);
    var bw;
    res, bw := FWrite(fp, buff, |bs|);
    ghost var end := res == FR_OK && AtEnd(fp);
    if end { EndOfContent(fp); }
  }

  /** f_write on file i. */
  method WriteFile(fs: FatFs, fps: seq<Fil>, i: nat, bs: seq<byte>, ghost m: Files)
      returns (res: FRESULT, ghost m': Files)
    requires OpenSet(fs, fps, m) && Sound(fs, m) && i < |fps| && |bs| <= 0xFFFFFFFF
    modifies fps[i], fs, fs.win, fs.drive
    ensures res == FR_OK ==> OpenSet(fs, fps, m') && Sound(fs, m')
    ensures res == FR_OK && old(CountRight(fs)) ==> CountRight(fs)
    ensures res == FR_OK && old(fs.Mirrored()) ==> fs.Mirrored()
    ensures res == FR_OK && old(NoOnes(Table(fs))) ==> NoOnes(Table(fs))
    ensures res == FR_OK ==> fps[i].err == FR_OK
    ensures old(fps[i].err) == FR_OK && Permitted(fps[i], Write(bs)) ==> Excused(fs, old(NoOnes(Table(fs))), res)
    ensures res == FR_OK ==>
      Moves(old(Cursors(fs, fps, m)), i, Write(bs), fps[i].writable, Cursors(fs, fps, m'), [],
        fs.freeClst == 0 || NoFree(Table(fs)))
  {
    hide Image, CopyAgrees, Links, Ofs, Data, IsChain, Geometry.DataFits, Grew, Fil.CursorAt, Partition, Overwritten;
    hide FatFs.Mirrored, FatFs.Coherent, Sized, OpenOn, NoFree, NoOnes, Geometry.Valid, CountRight, Excused, Touches;
    hide WriteLimit;
    ghost var g, v, ch, cs := fs.g, fs.View(), fps[i].chain, Cursors(fs, fps, m);
    AllOpen(fs, fps, m, cs);
    res := WriteBytes(fps[i], bs);
    m' := m;
    if res != FR_OK { return; }
    m' := if fps[i].chain == [] then m else m[fps[i].chain[0] := fps[i].chain];
    GrownOpen(fs, fps, i, v, ch, m, m', cs);
  }

  /** f_lseek on file i. */
  method SeekFile(fs: FatFs, fps: seq<Fil>, i: nat, ofs: nat, ghost m: Files) returns (res: FRESULT, ghost m': Files)
    requires OpenSet(fs, fps, m) && Sound(fs, m) && i < |fps|
    modifies fps[i], fs, fs.win, fs.drive
    ensures res == FR_OK ==> OpenSet(fs, fps, m') && Sound(fs, m')
    ensures res == FR_OK && old(CountRight(fs)) ==> CountRight(fs)
    ensures res == FR_OK && old(fs.Mirrored()) ==> fs.Mirrored()
    ensures res == FR_OK && old(NoOnes(Table(fs))) ==> NoOnes(Table(fs))
    ensures res == FR_OK ==> fps[i].err == FR_OK
    ensures old(fps[i].err) == FR_OK ==> Excused(fs, old(NoOnes(Table(fs))), res)
    ensures res == FR_OK ==>
      Moves(old(Cursors(fs, fps, m)), i, Seek(ofs), fps[i].writable, Cursors(fs, fps, m'), [],
        fs.freeClst == 0 || NoFree(Table(fs)))
  {
    hide Image, CopyAgrees, Links, Ofs, Data, IsChain, Geometry.DataFits, Grew, Fil.CursorAt, Partition, Overwritten;
    hide FatFs.Mirrored, FatFs.Coherent, Sized, OpenOn, NoFree, NoOnes, CountRight, Geometry.Valid, AtEnd;
    ghost var g, v, ch, cs := fs.g, fs.View(), fps[i].chain, Cursors(fs, fps, m);
    AllOpen(fs, fps, m, cs);
    res := FLseek(fps[i], ofs);
    m' := m;
    if res != FR_OK { return; }
    m' := if fps[i].chain == [] then m else m[fps[i].chain[0] := fps[i].chain];
    GrownOpen(fs, fps, i, v, ch, m, m', cs);
    if AtEnd(fps[i]) { EndOfContent(fps[i]); }
    SoughtContent(fps[i], cs[i].content);
  }

  /** What seeking leaves of the bytes; in read-only mode all of them. */
  lemma SoughtContent(fp: Fil, c: seq<byte>)
    requires fp.Based() && |c| <= fp.objsize && fp.Content()[..|c|] == c
    ensures c <= fp.Content() && (fp.objsize == |c| ==> fp.Content() == c)
  {
  }

  /** A call that leaves volume and chain alone counts as growing by nothing. */
  lemma SameStep(g: Geometry, v: seq<byte>, m: Files, ch: seq<nat>)
    requires Consistent(g, State(v, m)) && InFiles(m, ch)
    ensures Step(g, State(v, m), Extend(ch, ch), State(v, m))
  {
    if ch != [] {
      assert m[ch[0] := ch] == m;
    }
    ChainInRange(g, Links(g, v), ch);
    FollowGrew(g, v, ch);
  }

  /** f_read on file i: what it reads is out. */
  method ReadFile(fs: FatFs, fps: seq<Fil>, i: nat, n: nat, ghost m: Files) returns (res: FRESULT, out: seq<byte>)
    requires OpenSet(fs, fps, m) && Sound(fs, m) && i < |fps|
    modifies fps[i], fs, fs.win, fs.drive
    ensures res == FR_OK ==> OpenSet(fs, fps, m) && Sound(fs, m) && Table(fs) == old(Table(fs))
    ensures res == FR_OK && old(CountRight(fs)) ==> CountRight(fs)
    ensures res == FR_OK && old(fs.Mirrored()) ==> fs.Mirrored()
    ensures res == FR_OK ==> fps[i].err == FR_OK
    ensures old(fps[i].err) == FR_OK && Permitted(fps[i], Read(n)) ==>
      res == FR_OK || (res == FR_DISK_ERR && !fs.drive.reliable)
    ensures res == FR_OK ==>
      Moves(old(Cursors(fs, fps, m)), i, Read(n), fps[i].writable, Cursors(fs, fps, m), out,
        fs.freeClst == 0 || NoFree(Table(fs)))
  {
    hide Image, CopyAgrees, Links, Ofs, Data, IsChain, Geometry.DataFits, Grew, Fil.CursorAt, Partition, Splice;
    hide FatFs.Mirrored, FatFs.Coherent, Sized, OpenOn, NoFree;
    out := [];
    ghost var g, v, ch, cs := fs.g, fs.View(), fps[i].chain, Cursors(fs, fps, m);
    AllOpen(fs, fps, m, cs);
    SameStep(g, v, m, ch);
    var buff := Buffer(seq(n, _ => 0));
    ghost var b := buff[..];
    var br;
    res, br := FRead(fps[i], buff, n);
    if res != FR_OK { return; }
    out := buff[..br];
    FrontOfSplice(b, cs[i].content[cs[i].pos..fps[i].fptr]);
    ghost var s := State(v, m);
    OthersOpen(fs, fps, i, s, Extend(ch, ch), s, cs);
  }

  lemma FrontOfSplice(d: seq<byte>, w: seq<byte>)
    requires |w| <= |d|
    ensures Splice(d, 0, w)[..|w|] == w
  {
  }

  /** f_truncate on file i. */
  method TruncateFile(fs: FatFs, fps: seq<Fil>, i: nat, ghost m: Files) returns (res: FRESULT, ghost m': Files)
    requires OpenSet(fs, fps, m) && Sound(fs, m) && i < |fps|
    modifies fps[i], fs, fs.win, fs.drive
    ensures res == FR_OK ==> OpenSet(fs, fps, m') && Sound(fs, m')
    ensures res == FR_OK && old(CountRight(fs)) ==> CountRight(fs)
    ensures res == FR_OK && old(fs.Mirrored()) ==> fs.Mirrored()
    ensures res == FR_OK && old(NoOnes(Table(fs))) ==> NoOnes(Table(fs))
    ensures res == FR_OK ==> fps[i].err == FR_OK
    ensures old(fps[i].err) == FR_OK && Permitted(fps[i], Truncate) ==>
      res == FR_OK || (res == FR_DISK_ERR && !fs.drive.reliable)
    ensures res == FR_OK ==>
      Moves(old(Cursors(fs, fps, m)), i, Truncate, fps[i].writable, Cursors(fs, fps, m'), [],
        fs.freeClst == 0 || NoFree(Table(fs)))
  {
    hide Image, CopyAgrees, Links, Ofs, Data, IsChain, Geometry.DataFits, Grew, Fil.CursorAt, Partition, Truncated;
    hide FatFs.Mirrored, FatFs.Coherent, Sized, OpenOn, NoFree, NoOnes;
    ghost var g, v, ch, cs := fs.g, fs.View(), fps[i].chain, Cursors(fs, fps, m);
    ghost var shorter := fps[i].fptr < fps[i].objsize;
    AllOpen(fs, fps, m, cs);
    SameStep(g, v, m, ch);
    HasChain(fps[i]);
    res := FTruncate(fps[i]);
    m' := m;
    if res != FR_OK { return; }
    ghost var s, k := State(v, m), |fps[i].chain|;
    if shorter {
      EocIsEnd(g);
      m' := if k == 0 then m - {ch[0]} else m[ch[0] := ch[..k]];
      assert Step(g, s, Cut(ch[0], k), State(fs.View(), m'));
      OthersOpen(fs, fps, i, s, Cut(ch[0], k), State(fs.View(), m'), cs);
      if NoOnes(Links(g, v)) { TruncatedNoOnes(Links(g, v), ch, k, Eoc(g)); }
    } else {
      OthersOpen(fs, fps, i, s, Extend(ch, ch), s, cs);
    }
  }

  /** A file with bytes has a chain. */
  lemma HasChain(fp: Fil)
    requires fp.Valid()
    ensures fp.fptr < fp.objsize ==> fp.chain != [] && IsChain(Table(fp.fs), fp.chain)
  {
    hide Image, Links, IsChain, Sized, Ofs;
    OfsStep(fp.fs.g, 0);
    NoChain(Table(fp.fs));
  }

  /** Truncating stores no entry of value 1. */
  lemma TruncatedNoOnes(t: seq<nat>, ch: seq<nat>, k: nat, eoc: nat)
    requires NoOnes(t) && k <= |ch| && (ch == [] || IsChain(t, ch)) && eoc > 1
    ensures NoOnes(Truncated(t, ch, k, eoc))
  {
  }

  /** No cluster is free, as far as create_chain can tell. */
  ghost predicate Full(fs: FatFs)
    requires fs.Valid()
    reads fs`winsect, fs`wflag, fs`copyLost, fs`freeClst, fs.win, fs.drive
  {
    fs.freeClst == 0 || NoFree(Table(fs))
  }

  predicate Sized32(call: Call) { call.Write? ==> |call.bs| <= 0xFFFFFFFF }

  /** One call on file i. */
  method Perform(fs: FatFs, fps: seq<Fil>, i: nat, call: Call, ghost m: Files)
      returns (res: FRESULT, out: seq<byte>, ghost m': Files)
    requires OpenSet(fs, fps, m) && Sound(fs, m) && i < |fps| && Sized32(call)
    modifies fps[i], fs, fs.win, fs.drive
    ensures res == FR_OK ==> OpenSet(fs, fps, m') && Sound(fs, m')
    ensures res == FR_OK && old(CountRight(fs)) ==> CountRight(fs)
    ensures res == FR_OK && old(fs.Mirrored()) ==> fs.Mirrored()
    ensures res == FR_OK && old(NoOnes(Table(fs))) ==> NoOnes(Table(fs))
    ensures res == FR_OK ==> fps[i].err == FR_OK
    ensures old(fps[i].err) == FR_OK && Permitted(fps[i], call) ==> Excused(fs, old(NoOnes(Table(fs))), res)
    ensures res == FR_OK ==>
      Moves(old(Cursors(fs, fps, m)), i, call, fps[i].writable, Cursors(fs, fps, m'), out, Full(fs))
  {
    hide Image, Links, OpenSet, Sound, NoOnes, CountRight, Moves, NoFree, FatFs.Mirrored;
    out, m' := [], m;
    match call {
      case Read(n) => res, out := ReadFile(fs, fps, i, n, m);
      case Write(bs) => res, m' := WriteFile(fs, fps, i, bs, m);
      case Seek(ofs) => res, m' := SeekFile(fs, fps, i, ofs, m);
      case Truncate => res, m' := TruncateFile(fs, fps, i, m);
    }
  }

  /** Where the files stood after a call, and whether the volume was full then. */
  datatype Snap = Snap(cursors: seq<Cursor>, full: bool)

  /** A run of calls seen from outside: each moves the cursor of its own file only. */
  ghost predicate Refines(trace: seq<Snap>, calls: seq<(nat, Call)>, outs: seq<seq<byte>>, fps: seq<Fil>) {
    && |trace| == |calls| + 1 && |outs| == |calls|
    && forall k {:trigger calls[k]} :: 0 <= k < |calls| ==>
         calls[k].0 < |fps| &&
         Moves(trace[k].cursors, calls[k].0, calls[k].1, fps[calls[k].0].writable,
               trace[k + 1].cursors, outs[k], trace[k + 1].full)
  }

  ghost predicate NoErrors(fps: seq<Fil>)
    reads fps
  {
    forall i :: 0 <= i < |fps| ==> fps[i].err == FR_OK
  }

  predicate AllPermitted(fps: seq<Fil>, calls: seq<(nat, Call)>)
    requires forall k :: 0 <= k < |calls| ==> calls[k].0 < |fps|
  {
    forall k :: 0 <= k < |calls| ==> Permitted(fps[calls[k].0], calls[k].1)
  }

  /** Any run of calls on any number of open files: they behave like independent cursors on byte sequences, the FAT
      stays a set of disjoint acyclic chains that covers all clusters in use, and the free count stays right. On a
      reliable drive with no entry of value 1 every permitted call succeeds. */
  method RunCalls(fs: FatFs, fps: seq<Fil>, calls: seq<(nat, Call)>, ghost m: Files)
      returns (res: FRESULT, outs: seq<seq<byte>>, ghost m': Files, ghost trace: seq<Snap>)
    requires OpenSet(fs, fps, m) && Sound(fs, m)
    requires forall k :: 0 <= k < |calls| ==> calls[k].0 < |fps| && Sized32(calls[k].1)
    modifies fps, fs, fs.win, fs.drive
    ensures res == FR_OK ==> OpenSet(fs, fps, m') && Sound(fs, m')
    ensures res == FR_OK && old(CountRight(fs)) ==> CountRight(fs)
    ensures res == FR_OK && old(fs.Mirrored()) ==> fs.Mirrored()
    ensures res == FR_OK ==> Refines(trace, calls, outs, fps)
    ensures res == FR_OK ==>
      trace[0].cursors == old(Cursors(fs, fps, m)) && trace[|calls|].cursors == Cursors(fs, fps, m')
    ensures fs.drive.reliable && old(NoOnes(Table(fs))) && old(NoErrors(fps)) && AllPermitted(fps, calls) ==>
      res == FR_OK
  {
    hide Image, Links, Fil.Valid, FatFs.Coherent, Sound, NoOnes, CountRight, Moves, NoFree;
    hide Permitted, Full, Apart, InFiles, FatFs.Mirrored;
    res, outs, m', trace := FR_OK, [], m, [Snap(Cursors(fs, fps, m), Full(fs))];
    assert calls[..0] == [];
    for k := 0 to |calls|
      invariant res == FR_OK && OpenSet(fs, fps, m') && Sound(fs, m')
      invariant old(CountRight(fs)) ==> CountRight(fs)
      invariant old(fs.Mirrored()) ==> fs.Mirrored()
      invariant old(NoOnes(Table(fs))) ==> NoOnes(Table(fs))
      invariant old(NoErrors(fps)) ==> NoErrors(fps)
      invariant Refines(trace, calls[..k], outs, fps) && trace[0].cursors == old(Cursors(fs, fps, m))
      invariant trace[k].cursors == Cursors(fs, fps, m')
    {
      var out;
      res, out, m' := Perform(fs, fps, calls[k].0, calls[k].1, m');
      if res != FR_OK { return; }
      RefinesMore(trace, calls[..k], outs, fps, calls[k], out, Snap(Cursors(fs, fps, m'), Full(fs)));
      assert calls[..k] + [calls[k]] == calls[..k + 1];
      outs, trace := outs + [out], trace + [Snap(Cursors(fs, fps, m'), Full(fs))];
    }
    assert calls[..|calls|] == calls;
  }

  lemma RefinesMore(trace: seq<Snap>, calls: seq<(nat, Call)>, outs: seq<seq<byte>>, fps: seq<Fil>,
                    call: (nat, Call), out: seq<byte>, snap: Snap)
    requires Refines(trace, calls, outs, fps) && call.0 < |fps|
    requires Moves(trace[|calls|].cursors, call.0, call.1, fps[call.0].writable, snap.cursors, out, snap.full)
    ensures Refines(trace + [snap], calls + [call], outs + [out], fps)
  {
    hide Moves;
    var trace', calls', outs' := trace + [snap], calls + [call], outs + [out];
    forall k | 0 <= k < |calls'|
      ensures calls'[k].0 < |fps| && Moves(trace'[k].cursors, calls'[k].0, calls'[k].1, fps[calls'[k].0].writable,
                trace'[k + 1].cursors, outs'[k], trace'[k + 1].full)
    {
      if k < |calls| { assert calls'[k] == calls[k]; }
    }
  }
}
