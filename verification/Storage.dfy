/** The lower layer of the file system: a drive of 512-byte sectors whose transfers may fail. */
module Storage {
  type byte = x: int | 0 <= x < 0x100

  const SS: nat := 512                          // sector size in bytes
  const LBA_LIMIT: nat := 0x1_0000_0000_0000_0000 // LBA_t is a 64-bit unsigned integer

  /** Unsigned 64-bit subtraction, as the C code computes `winsect - sect`. */
  function Sub64(a: nat, b: nat): nat
    requires a < LBA_LIMIT && b < LBA_LIMIT
  {
    (a - b + LBA_LIMIT) % LBA_LIMIT
  }

  /** Whether `winsect - base < len` in unsigned 64-bit arithmetic: a wrapped difference is never small. */
  lemma Sub64InRange(a: nat, base: nat, len: nat)
    requires a < 0x1_0000_0000_0000_0000 && base + len < 0x1_0000_0000_0000_0000
    ensures Sub64(a, base) < len <==> base <= a < base + len
    ensures Sub64(a, base) == if base <= a then a - base else a - base + 0x1_0000_0000_0000_0000
  {
  }

  /** d with the bytes from position `at` on replaced by w. */
  function Splice(d: seq<byte>, at: nat, w: seq<byte>): (r: seq<byte>)
    requires at + |w| <= |d|
    ensures |r| == |d|
    ensures r[at..at + |w|] == w
    ensures forall a {:trigger r[a]} :: 0 <= a < |d| ==> r[a] == if at <= a < at + |w| then w[a - at] else d[a]
  {
    d[..at] + w + d[at + |w|..]
  }

  /** d and e differ at most in the n bytes from position `at` on. */
  ghost predicate SameOutside(d: seq<byte>, e: seq<byte>, at: nat, n: nat) {
    |d| == |e| && forall a :: 0 <= a < |d| && !(at <= a < at + n) ==> d[a] == e[a]
  }

  /** Copy bytes into the caller's buffer. */
  method MemCpy(buff: array<byte>, pos: nat, bs: seq<byte>)
    requires pos + |bs| <= buff.Length
    modifies buff
    ensures buff[..] == Splice(old(buff[..]), pos, bs)
  {
    forall i | 0 <= i < |bs| { buff[pos + i] := bs[i]; }
  }

  class Drive {
    const sectors: nat
    const reliable: bool  // every transfer inside the drive succeeds
    var data: seq<byte>

    ghost predicate Valid()
      reads this
    {
      |data| == SS * sectors && sectors < LBA_LIMIT
    }

    constructor (content: seq<byte>, n: nat, steady: bool)
      requires |content| == SS * n && n < LBA_LIMIT
      ensures Valid() && data == content && sectors == n && reliable == steady
    {
      data, sectors, reliable := content, n, steady;
    }

    /** disk_read: on failure the destination holds anything. */
    method Read(buf: array<byte>, ofs: nat, sect: nat, count: nat) returns (ok: bool)
      requires Valid() && ofs + SS * count <= buf.Length
      modifies buf
      ensures SameOutside(old(buf[..]), buf[..], ofs, SS * count)
      ensures ok ==> sect + count <= sectors
      ensures reliable && sect + count <= sectors ==> ok
      ensures ok ==> buf[..] == Splice(old(buf[..]), ofs, data[SS * sect..SS * (sect + count)])
    {
      var failed: bool := *;
      ok := (reliable || !failed) && sect + count <= sectors;
      if ok {
        forall i | 0 <= i < SS * count { buf[ofs + i] := data[SS * sect + i]; }
      } else {
        var junk: seq<byte> := *;
        forall i | 0 <= i < SS * count && i < |junk| { buf[ofs + i] := junk[i]; }
      }
    }

    /** disk_write: on failure the addressed sectors hold anything. */
    method Write(buf: array<byte>, ofs: nat, sect: nat, count: nat) returns (ok: bool)
      requires Valid() && ofs + SS * count <= buf.Length
      modifies this
      ensures Valid()
      ensures ok ==> sect + count <= sectors
      ensures reliable && sect + count <= sectors ==> ok
      ensures ok ==> data == Splice(old(data), SS * sect, buf[ofs..ofs + SS * count])
      ensures SameOutside(old(data), data, SS * sect, SS * count)
    {
      var failed: bool := *;
      ok := (reliable || !failed) && sect + count <= sectors;
      if ok {
        data := Splice(data, SS * sect, buf[ofs..ofs + SS * count]);
      } else {
        var junk: seq<byte> := *;
        var was := data;
        if |junk| == |was| {
          data := seq(|was|, a requires 0 <= a < |was| && |junk| == |was| =>
            if SS * sect <= a < SS * (sect + count) then junk[a] else was[a]);
        }
      }
    }
  }
}
