/** A read-only file under any sequence of f_lseek and f_read is a cursor on a byte array. */
module ReadSession {
  import opened Storage
  import opened Volume
  import opened FatTable
  import opened FileData
  import opened FileRead
  import opened FileSeek

  datatype Op = Seek(ofs: nat) | Read(n: nat)

  /** Where the cursor on the bytes c stands after an operation, and what the operation reads. */
  function Moved(c: seq<byte>, pos: nat, op: Op): (p: nat)
    requires pos <= |c|
    ensures p <= |c|
  {
    match op
    case Seek(ofs) => if ofs > |c| then |c| else ofs
    case Read(n) => if n > |c| - pos then |c| else pos + n
  }

  function Output(c: seq<byte>, pos: nat, op: Op): seq<byte>
    requires pos <= |c|
  {
    match op
    case Seek(_) => []
    case Read(_) => c[pos..Moved(c, pos, op)]
  }

  /** The outputs of a sequence of operations, and the final position. */
  function Outputs(c: seq<byte>, pos: nat, ops: seq<Op>): (r: (seq<seq<byte>>, nat))
    requires pos <= |c|
    ensures r.1 <= |c|
    decreases |ops|
  {
    if ops == [] then ([], pos)
    else
      var (outs, p) := Outputs(c, pos, ops[..|ops| - 1]);
      (outs + [Output(c, p, ops[|ops| - 1])], Moved(c, p, ops[|ops| - 1]))
  }

  /** One operation on the file. */
  method Perform(fp: Fil, op: Op) returns (res: FRESULT, out: seq<byte>)
    requires fp.Valid() && fp.readable && !fp.writable
    modifies fp, fp.fs, fp.fs.win, fp.fs.drive
    ensures res == FR_OK ==> fp.Valid() && fp.Content() == old(fp.Content()) && fp.fs.View() == old(fp.fs.View())
    ensures res == FR_OK ==> out == Output(old(fp.Content()), old(fp.fptr), op)
    ensures res == FR_OK ==> fp.fptr == Moved(old(fp.Content()), old(fp.fptr), op)
    ensures res == FR_OK ==> fp.err == old(fp.err)
    ensures fp.fs.drive.reliable && old(fp.err) == FR_OK ==> res == FR_OK
  {
    hide Image, CopyAgrees, Links, Data, Ofs, Fil.CursorAt, Sized;
    out := [];
    ghost var c := fp.Content();
    match op {
      case Seek(ofs) =>
        res := FLseek(fp, ofs);
        if res == FR_OK { WholeContent(fp, c); }
      case Read(n) =>
        var buff := new byte[n](_ => 0);
        var br;
        res, br := FRead(fp, buff, n);
        if res == FR_OK {
          out := buff[..br];
          Front(buff[..], c[old(fp.fptr)..fp.fptr], br);
        }
    }
  }

  lemma WholeContent(fp: Fil, c: seq<byte>)
    requires fp.Based() && fp.objsize == |c| && fp.Content()[..|c|] == c
    ensures fp.Content() == c
  {
    assert fp.Content()[..|c|] == fp.Content();
  }

  lemma Front(b: seq<byte>, w: seq<byte>, n: nat)
    requires |w| == n <= |b| && exists d: seq<byte> :: n <= |d| && b == Splice(d, 0, w)
    ensures b[..n] == w
  {
    var d: seq<byte> :| n <= |d| && b == Splice(d, 0, w);
  }

  /** Any sequence of seeks and reads returns exactly the bytes at the cursor, each time. */
  method PerformAll(fp: Fil, ops: seq<Op>) returns (res: FRESULT, outs: seq<seq<byte>>)
    requires fp.Valid() && fp.readable && !fp.writable
    modifies fp, fp.fs, fp.fs.win, fp.fs.drive
    ensures res == FR_OK ==> fp.Valid() && fp.Content() == old(fp.Content()) && fp.fs.View() == old(fp.fs.View())
    ensures res == FR_OK ==> (outs, fp.fptr) == Outputs(old(fp.Content()), old(fp.fptr), ops)
    ensures fp.fs.drive.reliable && old(fp.err) == FR_OK ==> res == FR_OK
  {
    hide Image, CopyAgrees, Links, Data, Ofs, Fil.CursorAt, Sized, Output, Moved;
    res, outs := FR_OK, [];
    ghost var c, pos := fp.Content(), fp.fptr;
    for i := 0 to |ops|
      invariant res == FR_OK && fp.err == old(fp.err) && fp.Valid()
      invariant fp.Content() == c && fp.fs.View() == old(fp.fs.View())
      invariant pos <= |c| && (outs, fp.fptr) == Outputs(c, pos, ops[..i])
    {
      var out;
      res, out := Perform(fp, ops[i]);
      if res != FR_OK { return; }
      outs := outs + [out];
      assert ops[..i + 1][..i] == ops[..i];
    }
    assert ops[..|ops|] == ops;
  }
}
