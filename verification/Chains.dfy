/** Cluster chains over a FAT seen as a sequence of links: 0 is free, 2..|t|-1 the next cluster, |t| or more
    the end of a chain. */
module Chains {

  ghost predicate IsChain(t: seq<nat>, s: seq<nat>) {
    && |s| > 0
    && (forall i :: 0 <= i < |s| ==> 2 <= s[i] < |t|)
    && (forall i {:trigger t[s[i]]} :: 0 <= i < |s| - 1 ==> t[s[i]] == s[i + 1])
    && t[s[|s| - 1]] >= |t|
  }

  ghost predicate Distinct(s: seq<nat>) {
    forall i, j :: 0 <= i < j < |s| ==> s[i] != s[j]
  }

  ghost predicate Disjoint(s: seq<nat>, s': seq<nat>) {
    forall i, j :: 0 <= i < |s| && 0 <= j < |s'| ==> s[i] != s'[j]
  }

  /** Following links from two places of a chain that hold the same cluster leads to a contradiction. */
  lemma NoRepeat(t: seq<nat>, s: seq<nat>, i: nat, j: nat)
    requires IsChain(t, s) && i < j < |s|
    ensures s[i] != s[j]
    decreases |s| - j
  {
    if s[i] == s[j] {
      assert t[s[i]] == s[i + 1];
      if j < |s| - 1 {
        NoRepeat(t, s, i + 1, j + 1);
      }
    }
  }

  /** A chain that ends is acyclic. */
  lemma ChainDistinct(t: seq<nat>, s: seq<nat>)
    requires IsChain(t, s)
    ensures Distinct(s)
  {
    forall i, j | 0 <= i < j < |s| ensures s[i] != s[j] {
      NoRepeat(t, s, i, j);
    }
  }

  /** Changing links outside a chain leaves it a chain. */
  lemma ChainFrame(t: seq<nat>, t': seq<nat>, s: seq<nat>)
    requires IsChain(t, s) && |t'| == |t|
    requires forall i :: 0 <= i < |s| ==> t'[s[i]] == t[s[i]]
    ensures IsChain(t', s)
  {
  }

  /** A free cluster is in no chain. */
  lemma FreeNotInChain(t: seq<nat>, s: seq<nat>, c: nat)
    requires IsChain(t, s) && c < |t| && t[c] == 0
    ensures c !in s
  {
    forall i | 0 <= i < |s| ensures t[s[i]] != 0 {
      if i < |s| - 1 {
        assert t[s[i]] == s[i + 1];
      }
    }
  }

  /** Linking a new last cluster. */
  lemma ChainAppend(t: seq<nat>, s: seq<nat>, c: nat, eoc: nat)
    requires IsChain(t, s) && 2 <= c < |t| && t[c] == 0 && eoc >= |t|
    ensures IsChain(t[c := eoc][s[|s| - 1] := c], s + [c])
  {
    FreeNotInChain(t, s, c);
    ChainDistinct(t, s);
    var t', s' := t[c := eoc][s[|s| - 1] := c], s + [c];
    forall i | 0 <= i < |s'| - 1 ensures t'[s'[i]] == s'[i + 1] {
      assert s[i] != c;
    }
  }

  /** Cutting a chain before position k. */
  lemma ChainCut(t: seq<nat>, s: seq<nat>, k: nat, eoc: nat)
    requires IsChain(t, s) && 0 < k < |s| && eoc >= |t|
    ensures IsChain(t[s[k - 1] := eoc], s[..k])
    ensures IsChain(t[s[k - 1] := eoc], s[k..])
  {
    ChainDistinct(t, s);
    var t' := t[s[k - 1] := eoc];
    forall i | 0 <= i < k - 1 ensures t'[s[..k][i]] == s[..k][i + 1] {
      assert t[s[i]] == s[i + 1] && s[i] != s[k - 1];
    }
    forall i | 0 <= i < |s| - k ensures t'[s[k..][i]] == t[s[k + i]] {
    }
    forall i | 0 <= i < |s| - k - 1 ensures t'[s[k..][i]] == s[k..][i + 1] {
      assert t[s[k + i]] == s[k + i + 1];
    }
  }

  /** ch counts up by one from position a to position b. */
  ghost predicate RunUp(ch: seq<nat>, a: nat, b: nat)
    requires a <= b <= |ch|
  {
    forall i {:trigger ch[i]} :: a <= i < b ==> ch[i] == ch[a] + (i - a)
  }

  /** A cluster in a counting run is in the chain, at the place its number tells. */
  lemma InRun(ch: seq<nat>, a: nat, b: nat, c: nat)
    requires a < b <= |ch| && RunUp(ch, a, b) && ch[a] <= c < ch[a] + (b - a)
    ensures ch[a + (c - ch[a])] == c && c in ch
  {
  }

  /** t with every cluster of s freed. */
  ghost function Freed(t: seq<nat>, s: seq<nat>): (t': seq<nat>)
    requires forall i :: 0 <= i < |s| ==> s[i] < |t|
    ensures |t'| == |t|
    ensures forall c {:trigger t'[c]} :: 0 <= c < |t| ==> t'[c] == if c in s then 0 else t[c]
  {
    seq(|t|, c requires 0 <= c < |t| => if c in s then 0 else t[c])
  }

  /** Number of free clusters below c. */
  ghost function FreeBelow(t: seq<nat>, c: nat): (n: nat)
    requires c <= |t|
    ensures n <= if c < 2 then 0 else c - 2
  {
    if c <= 2 then 0 else FreeBelow(t, c - 1) + if t[c - 1] == 0 then 1 else 0
  }

  ghost function FreeCount(t: seq<nat>): nat { FreeBelow(t, |t|) }

  ghost predicate NoFree(t: seq<nat>) { forall c :: 2 <= c < |t| ==> t[c] != 0 }

  /** Changing one entry changes the count by that entry. */
  lemma {:induction false} FreeBelowUpdate(t: seq<nat>, x: nat, v: nat, c: nat)
    requires 2 <= x < |t| && c <= |t|
    ensures FreeBelow(t[x := v], c) + (if x < c && t[x] == 0 then 1 else 0)
         == FreeBelow(t, c) + (if x < c && v == 0 then 1 else 0)
    decreases c
  {
    if c > 2 {
      FreeBelowUpdate(t, x, v, c - 1);
    }
  }

  lemma {:induction false} NoFreeCount(t: seq<nat>, c: nat)
    requires c <= |t|
    ensures FreeBelow(t, c) == 0 <==> forall x :: 2 <= x < c ==> t[x] != 0
    decreases c
  {
    if c > 2 {
      NoFreeCount(t, c - 1);
    }
  }

  predicate InUse(t: seq<nat>, c: nat) { 2 <= c < |t| && t[c] != 0 }

  ghost predicate Owned(m: map<nat, seq<nat>>, c: nat) { exists h :: h in m && c in m[h] }

  /** Every entry of m is a chain of t that starts at its key. */
  ghost predicate AllChains(t: seq<nat>, m: map<nat, seq<nat>>) {
    forall h :: h in m ==> IsChain(t, m[h]) && m[h][0] == h
  }

  ghost predicate AllDisjoint(m: map<nat, seq<nat>>) {
    forall h, h' :: h in m && h' in m && h != h' ==> Disjoint(m[h], m[h'])
  }

  /** No cluster in use is lost. */
  ghost predicate Covered(t: seq<nat>, m: map<nat, seq<nat>>) {
    forall c {:trigger InUse(t, c)} :: InUse(t, c) ==> Owned(m, c)
  }

  /** The FAT is a set of disjoint acyclic chains: every file or directory's start cluster with its chain. */
  ghost predicate Partition(t: seq<nat>, m: map<nat, seq<nat>>) {
    AllChains(t, m) && AllDisjoint(m) && Covered(t, m)
  }

  /** A free cluster is in none of the chains. */
  lemma FreeNotOwned(t: seq<nat>, m: map<nat, seq<nat>>, c: nat)
    requires AllChains(t, m) && c < |t| && t[c] == 0
    ensures forall h :: h in m ==> c !in m[h]
    ensures c !in m
  {
    forall h | h in m ensures c !in m[h] && h in m[h] {
      FreeNotInChain(t, m[h], c);
      assert m[h][0] in m[h];
    }
  }

  /** Chains apart from the changed clusters stay chains. */
  lemma OthersStay(t: seq<nat>, t': seq<nat>, m: map<nat, seq<nat>>, h: nat)
    requires AllChains(t, m) && AllDisjoint(m) && |t'| == |t|
    requires forall c :: 0 <= c < |t| && t[c] != 0 && (h in m ==> c !in m[h]) ==> t'[c] == t[c]
    ensures forall x :: x in m && x != h ==> IsChain(t', m[x])
  {
    forall x | x in m && x != h ensures IsChain(t', m[x]) {
      var s := m[x];
      forall i | 0 <= i < |s| ensures t'[s[i]] == t[s[i]] {
        assert h in m ==> Disjoint(s, m[h]);
        assert s[i] in s;
        if t[s[i]] == 0 { FreeNotInChain(t, s, s[i]); }
      }
      ChainFrame(t, t', s);
    }
  }

  /** create_chain(0): a new chain of one cluster. */
  lemma NewKeepsPartition(t: seq<nat>, m: map<nat, seq<nat>>, c: nat, eoc: nat)
    requires Partition(t, m) && 2 <= c < |t| && t[c] == 0 && eoc >= |t|
    ensures c !in m && Partition(t[c := eoc], m[c := [c]])
  {
    var t', m' := t[c := eoc], m[c := [c]];
    FreeNotOwned(t, m, c);
    OthersStay(t, t', m, c);
    forall x | InUse(t', x) ensures Owned(m', x) {
      if x == c {
        assert c in m' && c in m'[c];
      } else {
        assert InUse(t, x);
        var h :| h in m && x in m[h];
        assert h in m' && x in m'[h];
      }
    }
  }

  /** create_chain(last cluster of h): that chain grows by one formerly free cluster, the others stay. */
  lemma AppendKeepsPartition(t: seq<nat>, m: map<nat, seq<nat>>, h: nat, c: nat, eoc: nat)
    requires Partition(t, m) && h in m && 2 <= c < |t| && t[c] == 0 && eoc >= |t|
    ensures |m[h]| > 0 && m[h][|m[h]| - 1] < |t|
    ensures Partition(t[c := eoc][m[h][|m[h]| - 1] := c], m[h := m[h] + [c]])
  {
    var s := m[h];
    var last := s[|s| - 1];
    var t', m' := t[c := eoc][last := c], m[h := s + [c]];
    ChainAppend(t, s, c, eoc);
    FreeNotOwned(t, m, c);
    assert last in s;
    OthersStay(t, t', m, h);
    assert AllChains(t', m');
    assert AllDisjoint(m') by {
      forall x | x in m && x != h ensures Disjoint(m[x], s + [c]) && Disjoint(s + [c], m[x]) {
        assert Disjoint(m[x], s);
      }
    }
    forall x | InUse(t', x) ensures Owned(m', x) {
      if x == c {
        assert m'[h][|s|] == c;
      } else if x == last {
        assert m'[h][|s| - 1] == last;
      } else {
        assert InUse(t, x);
        var k :| k in m && x in m[k];
        assert k in m' && x in m'[k];
      }
    }
  }

  /** remove_chain of a whole chain. */
  lemma RemoveAllKeepsPartition(t: seq<nat>, m: map<nat, seq<nat>>, h: nat)
    requires Partition(t, m) && h in m
    ensures Partition(Freed(t, m[h]), m - {h})
  {
    var t', m' := Freed(t, m[h]), m - {h};
    OthersStay(t, t', m, h);
    forall x | InUse(t', x) ensures Owned(m', x) {
      assert InUse(t, x);
      var k :| k in m && x in m[k];
      assert k in m' && x in m'[k];
    }
  }

  /** The table after chain s was cut before position k and the clusters behind were freed. */
  ghost function CutFreed(t: seq<nat>, s: seq<nat>, k: nat, eoc: nat): (t': seq<nat>)
    requires 0 < k < |s| && forall i :: 0 <= i < |s| ==> s[i] < |t|
    ensures |t'| == |t|
  {
    Freed(t[s[k - 1] := eoc], s[k..])
  }

  /** Cutting leaves all other chains, and the first part of this one. */
  lemma CutChains(t: seq<nat>, m: map<nat, seq<nat>>, h: nat, k: nat, eoc: nat)
    requires Partition(t, m) && h in m && 0 < k < |m[h]| && eoc >= |t|
    ensures AllChains(CutFreed(t, m[h], k, eoc), m[h := m[h][..k]])
  {
    var s := m[h];
    var t1, t' := t[s[k - 1] := eoc], CutFreed(t, s, k, eoc);
    ChainCut(t, s, k, eoc);
    ChainDistinct(t, s);
    ChainFrame(t1, t', s[..k]);
    assert s[k - 1] in s;
    assert forall x :: x in s[k..] ==> x in s;
    OthersStay(t, t', m, h);
  }

  lemma CutDisjoint(m: map<nat, seq<nat>>, h: nat, k: nat)
    requires AllDisjoint(m) && h in m && k <= |m[h]|
    ensures AllDisjoint(m[h := m[h][..k]])
  {
    var s, m' := m[h], m[h := m[h][..k]];
    forall x | x in m && x != h ensures Disjoint(m[x], s[..k]) && Disjoint(s[..k], m[x]) {
      assert Disjoint(m[x], s) && Disjoint(s, m[x]);
    }
  }

  /** The clusters still in use after cutting are in the chains that are left. */
  lemma CutCovered(t: seq<nat>, m: map<nat, seq<nat>>, h: nat, k: nat, eoc: nat)
    requires Covered(t, m) && h in m && 0 < k < |m[h]| && forall i :: 0 <= i < |m[h]| ==> m[h][i] < |t|
    ensures Covered(CutFreed(t, m[h], k, eoc), m[h := m[h][..k]])
  {
    var s := m[h];
    var t', m' := CutFreed(t, s, k, eoc), m[h := s[..k]];
    forall x | InUse(t', x) ensures Owned(m', x) {
      if x == s[k - 1] {
        assert m'[h][k - 1] == x;
      } else {
        assert InUse(t, x);
        var j :| j in m && x in m[j];
        InPrefix(s, k, x);
        assert j in m' && x in m'[j];
      }
    }
  }

  /** remove_chain of the part of chain h from position k on. */
  lemma RemoveTailKeepsPartition(t: seq<nat>, m: map<nat, seq<nat>>, h: nat, k: nat, eoc: nat)
    requires Partition(t, m) && h in m && 0 < k < |m[h]| && eoc >= |t|
    ensures m[h][k - 1] < |t| && forall i :: k <= i < |m[h]| ==> m[h][i] < |t|
    ensures Partition(Freed(t[m[h][k - 1] := eoc], m[h][k..]), m[h := m[h][..k]])
  {
    hide AllDisjoint, Covered, Freed;
    assert IsChain(t, m[h]);
    CutChains(t, m, h, k, eoc);
    CutDisjoint(m, h, k);
    CutCovered(t, m, h, k, eoc);
  }

  lemma InPrefix(s: seq<nat>, k: nat, x: nat)
    requires k <= |s| && x !in s[k..]
    ensures x in s ==> x in s[..k]
  {
    assert s == s[..k] + s[k..];
  }
}
