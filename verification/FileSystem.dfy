/** Runs of file operations on a FAT12/16/32 volume with any number of files. */
module FileSystem {
  import opened Storage
  import opened Volume
  import opened FatTable
  import opened Chains
  import opened FileData
  import opened Allocator
  import opened FileWrite
  import opened FileSeek

  /** The volume and the chains of its files and directories by start cluster. */
  datatype State = State(view: seq<byte>, files: map<nat, seq<nat>>)

  /** What one call of f_write or f_lseek (Extend) or of f_truncate (Cut) does, as their contracts state it. */
  datatype Op =
    | Extend(ch: seq<nat>, ch': seq<nat>)  // the chain of the file before and after
    | Cut(h: nat, k: nat)                  // the file's start cluster and how many clusters stay

  ghost predicate Step(g: Geometry, s: State, op: Op, s': State) {
    Sized(g, s.view) && Sized(g, s'.view) &&
    match op
    case Extend(ch, ch') =>
      && (ch == [] || (ch[0] in s.files && s.files[ch[0]] == ch))
      && Grew(g, s.view, ch, s'.view, ch') && (ch' == [] || IsChain(Links(g, s'.view), ch'))
      && s'.files == if ch' == [] then s.files else s.files[ch'[0] := ch']
    case Cut(h, k) =>
      && h in s.files && k <= |s.files[h]| && IsChain(Links(g, s.view), s.files[h])
      && SameOutside(s.view, s'.view, SS * g.fatbase, SS * g.fsize)
      && Links(g, s'.view) == Truncated(Links(g, s.view), s.files[h], k, Eoc(g))
      && s'.files == if k == 0 then s.files - {h} else s.files[h := s.files[h][..k]]
  }

  /** The FAT is a set of disjoint acyclic chains, one for every file. */
  ghost predicate Consistent(g: Geometry, s: State) {
    Sized(g, s.view) && Partition(Links(g, s.view), s.files)
  }

  /** Every operation keeps the volume consistent. */
  lemma StepConsistent(g: Geometry, s: State, op: Op, s': State)
    requires Consistent(g, s) && Step(g, s, op, s')
    ensures Consistent(g, s')
  {
    hide Links, Cluster, Geometry.DataFits, Partition, Grew;
    EocIsEnd(g);
    match op {
      case Extend(ch, ch') =>
        if ch' == [] {
          ExtendNothing(g, s, ch, s');
        } else {
          ExtendPartition(g, s, ch, s', ch');
        }
      case Cut(h, k) =>
        var t, c := Links(g, s.view), s.files[h];
        if k == 0 {
          assert c[0..] == c;
          RemoveAllKeepsPartition(t, s.files, h);
        } else if k < |c| {
          RemoveTailKeepsPartition(t, s.files, h, k, Eoc(g));
        } else {
          assert c[..k] == c && s.files[h := c] == s.files;
        }
    }
  }

  lemma ExtendNothing(g: Geometry, s: State, ch: seq<nat>, s': State)
    requires Sized(g, s.view) && Sized(g, s'.view) && Grew(g, s.view, ch, s'.view, [])
    requires Partition(Links(g, s.view), s.files)
    ensures Partition(Links(g, s'.view), s.files)
  {
    hide Links, Cluster, Geometry.DataFits;
    var t, t' := Links(g, s.view), Links(g, s'.view);
    forall x | x in s.files ensures IsChain(t', s.files[x]) {
      ChainFrame(t, t', s.files[x]);
    }
    forall c: nat | InUse(t', c) ensures Owned(s.files, c) {
      assert t'[c] == t[c] && InUse(t, c);
    }
  }

  lemma ExtendPartition(g: Geometry, s: State, ch: seq<nat>, s': State, ch': seq<nat>)
    requires Sized(g, s.view) && Sized(g, s'.view) && Grew(g, s.view, ch, s'.view, ch')
    requires Partition(Links(g, s.view), s.files) && ch' != [] && IsChain(Links(g, s'.view), ch')
    requires ch == [] || (ch[0] in s.files && s.files[ch[0]] == ch)
    requires s'.files == s.files[ch'[0] := ch']
    ensures Partition(Links(g, s'.view), s'.files)
  {
    hide Links, Cluster, Data, Geometry.DataFits, IsChain;
    var t, t', m, m', h := Links(g, s.view), Links(g, s'.view), s.files, s'.files, ch'[0];
    assert ch != [] ==> ch[0] == h;
    if ch == [] { FreeNotOwned(t, m, h); }
    forall x | x in m && x != h
      ensures IsChain(t', m[x]) && Disjoint(m[x], ch') && Disjoint(ch', m[x])
    {
      assert Disjoint(m[x], ch);
      OtherFile(g, s.view, ch, s'.view, ch', m[x]);
    }
    assert AllChains(t', m');
    assert AllDisjoint(m');
    forall c: nat | InUse(t', c) ensures Owned(m', c) {
      if c in ch' {
        assert c in m'[h];
      } else {
        assert t'[c] == t[c] && InUse(t, c);
        var k :| k in m && c in m[k];
        PrefixIn(ch, ch');
        assert k in m' && c in m'[k];
      }
    }
  }

  /** The file an operation works on. */
  predicate Touches(op: Op, h: nat) {
    match op
    case Extend(ch, ch') => ch' != [] && ch'[0] == h
    case Cut(c, _) => c == h
  }

  /** Every operation keeps the chain and all bytes of every other file. */
  lemma StepOthers(g: Geometry, s: State, op: Op, s': State, h: nat)
    requires Consistent(g, s) && Step(g, s, op, s') && h in s.files && !Touches(op, h)
    ensures h in s'.files && s'.files[h] == s.files[h]
    ensures InRange(g, s.files[h]) && Data(g, s'.view, s.files[h]) == Data(g, s.view, s.files[h])
  {
    hide Links, Cluster, Data, Geometry.DataFits;
    match op {
      case Extend(ch, ch') =>
        assert ch != [] ==> ch' != [] && ch'[0] == ch[0];
        assert Disjoint(s.files[h], ch);
        OtherFile(g, s.view, ch, s'.view, ch', s.files[h]);
      case Cut(_, _) =>
        FatChangeKeepsData(g, s.view, s'.view);
        SameData(g, s.view, s'.view, s.files[h]);
    }
  }

  /** A run: states with the operations between them. */
  ghost predicate Run(g: Geometry, ss: seq<State>, ops: seq<Op>) {
    |ss| == |ops| + 1 && forall i {:trigger ops[i]} :: 0 <= i < |ops| ==> Step(g, ss[i], ops[i], ss[i + 1])
  }

  /** In every state of every run the FAT is a set of disjoint acyclic chains that covers all clusters in use. */
  lemma {:induction false} RunConsistent(g: Geometry, ss: seq<State>, ops: seq<Op>, i: nat)
    requires Run(g, ss, ops) && Consistent(g, ss[0]) && i < |ss|
    ensures Consistent(g, ss[i])
    decreases i
  {
    if i > 0 {
      RunConsistent(g, ss, ops, i - 1);
      StepConsistent(g, ss[i - 1], ops[i - 1], ss[i]);
    }
  }

  /** A file that no operation of a run works on keeps its chain and all its bytes through the run. */
  lemma {:induction false} RunOthers(g: Geometry, ss: seq<State>, ops: seq<Op>, i: nat, h: nat)
    requires Run(g, ss, ops) && Consistent(g, ss[0]) && i < |ss| && h in ss[0].files
    requires forall k :: 0 <= k < i ==> !Touches(ops[k], h)
    ensures Sized(g, ss[i].view) && h in ss[i].files && ss[i].files[h] == ss[0].files[h] && InRange(g, ss[0].files[h])
    ensures Data(g, ss[i].view, ss[0].files[h]) == Data(g, ss[0].view, ss[0].files[h])
    decreases i
  {
    hide Data, Step;
    if i > 0 {
      RunOthers(g, ss, ops, i - 1, h);
      RunConsistent(g, ss, ops, i - 1);
      StepOthers(g, ss[i - 1], ops[i - 1], ss[i], h);
      RunConsistent(g, ss, ops, i);
    }
  }
}
