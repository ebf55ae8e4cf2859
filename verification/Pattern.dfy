/** pattern_matching: the backtracking wildcard matcher behind f_findfirst, against the declarative meaning of a
    pattern. Strings are sequences of non-zero characters; the terminator is read as 0 behind the last one. */
module Pattern {

  const QUESTION: nat := 63  // '?'
  const STAR: nat := 42      // '*'

  predicate Wild(c: nat) { c == QUESTION || c == STAR }

  ghost predicate Str(s: seq<nat>) { forall i :: 0 <= i < |s| ==> s[i] != 0 }

  /** Case folding gives 0 for the terminator only. */
  ghost predicate Folding(fold: nat -> nat) { forall c :: fold(c) == 0 <==> c == 0 }

  /** The name matches the pattern: '?' (63) stands for one character, '*' (42) for any number, anything else for itself
      up to case. */
  ghost predicate Matches(fold: nat -> nat, pat: seq<nat>, nam: seq<nat>)
    decreases |pat|
  {
    if pat == [] then nam == []
    else if pat[0] == 42 then exists k :: 0 <= k <= |nam| && Matches(fold, pat[1..], nam[k..])
    else nam != [] && (pat[0] == 63 || fold(pat[0]) == fold(nam[0])) && Matches(fold, pat[1..], nam[1..])
  }

  /** The name matches the pattern behind a block of wildcards with `skip` question marks, and a star if inf. */
  ghost predicate MatchesBehind(fold: nat -> nat, pat: seq<nat>, nam: seq<nat>, skip: nat, inf: bool) {
    if inf then exists k :: skip <= k <= |nam| && Matches(fold, pat, nam[k..])
    else skip <= |nam| && Matches(fold, pat, nam[skip..])
  }

  function Questions(b: seq<nat>): nat {
    if b == [] then 0 else Questions(b[..|b| - 1]) + if b[|b| - 1] == QUESTION then 1 else 0
  }

  function Stars(b: seq<nat>): nat {
    if b == [] then 0 else Stars(b[..|b| - 1]) + if b[|b| - 1] == STAR then 1 else 0
  }

  lemma AfterStar(fold: nat -> nat, pat: seq<nat>, nam: seq<nat>) returns (j: nat)
    requires pat != [] && pat[0] == STAR && Matches(fold, pat, nam)
    ensures j <= |nam| && Matches(fold, pat[1..], nam[j..])
  {
    j :| j <= |nam| && Matches(fold, pat[1..], nam[j..]);
  }

  lemma DropDrop(s: seq<nat>, k: nat, j: nat)
    requires k + j <= |s|
    ensures s[k..][j..] == s[k + j..]
  {
  }

  /** One step of a match that begins with a question mark. */
  lemma AfterQuestion(fold: nat -> nat, pat: seq<nat>, nam: seq<nat>, k: nat)
    requires pat != [] && pat[0] == QUESTION && k <= |nam|
    ensures Matches(fold, pat, nam[k..]) <==> k + 1 <= |nam| && Matches(fold, pat[1..], nam[k + 1..])
  {
    if k < |nam| { DropDrop(nam, k, 1); }
  }

  lemma OneQuestion(fold: nat -> nat, pat: seq<nat>, nam: seq<nat>, skip: nat, inf: bool)
    requires pat != [] && pat[0] == QUESTION
    ensures MatchesBehind(fold, pat, nam, skip, inf) <==> MatchesBehind(fold, pat[1..], nam, skip + 1, inf)
  {
    hide Matches;
    if MatchesBehind(fold, pat, nam, skip, inf) {
      var k: nat :| skip <= k <= |nam| && (!inf ==> k == skip) && Matches(fold, pat, nam[k..]);
      AfterQuestion(fold, pat, nam, k);
    }
    if MatchesBehind(fold, pat[1..], nam, skip + 1, inf) {
      var k: nat :| skip + 1 <= k <= |nam| && (!inf ==> k == skip + 1) && Matches(fold, pat[1..], nam[k..]);
      AfterQuestion(fold, pat, nam, k - 1);
    }
  }

  lemma OneStar(fold: nat -> nat, pat: seq<nat>, nam: seq<nat>, skip: nat, inf: bool)
    requires pat != [] && pat[0] == STAR
    ensures MatchesBehind(fold, pat, nam, skip, inf) <==> MatchesBehind(fold, pat[1..], nam, skip, true)
  {
    if MatchesBehind(fold, pat, nam, skip, inf) {
      var k: nat :| skip <= k <= |nam| && (!inf ==> k == skip) && Matches(fold, pat, nam[k..]);
      var j := AfterStar(fold, pat, nam[k..]);
      DropDrop(nam, k, j);
      assert Matches(fold, pat[1..], nam[k + j..]);
    }
    if MatchesBehind(fold, pat[1..], nam, skip, true) {
      var k: nat :| skip <= k <= |nam| && Matches(fold, pat[1..], nam[k..]);
      DropDrop(nam, skip, k - skip);
      assert Matches(fold, pat[1..], nam[skip..][k - skip..]);
      assert Matches(fold, pat, nam[skip..]);
    }
  }

  /** One more wildcard in front of the rest of the pattern is one more to skip, or makes the search unbounded. */
  lemma OneMore(fold: nat -> nat, pat: seq<nat>, nam: seq<nat>, skip: nat, inf: bool)
    requires pat != [] && Wild(pat[0])
    ensures MatchesBehind(fold, pat, nam, skip, inf) <==>
      MatchesBehind(fold, pat[1..], nam, if pat[0] == QUESTION then skip + 1 else skip, inf || pat[0] == STAR)
  {
    hide MatchesBehind, Matches;
    if pat[0] == QUESTION { OneQuestion(fold, pat, nam, skip, inf); } else { OneStar(fold, pat, nam, skip, inf); }
  }

  /** A block of wildcards in front of a pattern. */
  lemma {:induction false} Block(fold: nat -> nat, pat: seq<nat>, nam: seq<nat>, b: nat)
    requires b <= |pat| && forall i :: 0 <= i < b ==> Wild(pat[i])
    ensures Matches(fold, pat, nam) <==>
      MatchesBehind(fold, pat[b..], nam, Questions(pat[..b]), Stars(pat[..b]) > 0)
    decreases b
  {
    if b == 0 {
      assert pat[0..] == pat && nam[0..] == nam;
    } else {
      Block(fold, pat, nam, b - 1);
      assert pat[..b][..b - 1] == pat[..b - 1] && pat[b - 1..][1..] == pat[b..];
      OneMore(fold, pat[b - 1..], nam, Questions(pat[..b - 1]), Stars(pat[..b - 1]) > 0);
    }
  }

  /** The first i characters of pat are no wildcards and agree with the name from position k on. */
  ghost predicate Agrees(fold: nat -> nat, pat: seq<nat>, nam: seq<nat>, k: nat, i: nat) {
    i <= |pat| && k + i <= |nam| && forall x :: 0 <= x < i ==> !Wild(pat[x]) && fold(pat[x]) == fold(nam[k + x])
  }

  lemma {:induction false} Remainder(fold: nat -> nat, pat: seq<nat>, nam: seq<nat>, k: nat, i: nat)
    requires Agrees(fold, pat, nam, k, i)
    ensures Matches(fold, pat, nam[k..]) <==> Matches(fold, pat[i..], nam[k + i..])
    decreases i
  {
    if i > 0 {
      Remainder(fold, pat, nam, k, i - 1);
      assert pat[i - 1..][1..] == pat[i..] && nam[k + i - 1..][1..] == nam[k + i..];
    } else {
      assert pat[0..] == pat;
    }
  }

  /** A pattern that begins with i plain characters matches no name of fewer characters. */
  lemma {:induction false} TooShort(fold: nat -> nat, pat: seq<nat>, nam: seq<nat>, i: nat)
    requires i <= |pat| && |nam| < i && forall x :: 0 <= x < i ==> !Wild(pat[x])
    ensures !Matches(fold, pat, nam)
    decreases i
  {
    if nam != [] { TooShort(fold, pat[1..], nam[1..], i - 1); }
  }

  /** get_achar on the string s at position p */
  function Achar(fold: nat -> nat, s: seq<nat>, p: nat): nat { if p < |s| then fold(s[p]) else 0 }

  /** pattern_matching. */
  method PatternMatching(fold: nat -> nat, pat: seq<nat>, nam: seq<nat>, skip: nat, inf: bool) returns (r: bool)
    requires Str(pat) && Str(nam) && Folding(fold)
    ensures r <==> MatchesBehind(fold, pat, nam, skip, inf)
    decreases |pat|, 1
  {
    var k := 0;
    while k < skip
      invariant k <= skip && k <= |nam|
    {
      if Achar(fold, nam, k) == 0 { return false; }
      k := k + 1;
    }
    if pat == [] && inf {
      assert nam[|nam|..] == [];
      return true;
    }
    while true
      invariant skip <= k <= |nam| && (k > skip ==> inf)
      invariant forall x :: skip <= x < k ==> !Matches(fold, pat, nam[x..])
      decreases |nam| - k
    {
      var nc;
      r, nc := Branch(fold, pat, nam, k);
      if r { return; }
      k := k + 1;
      if !(inf && nc != 0) { break; }
    }
  }

  /** One branch of the search: whether the pattern matches the name from position k on. If not, nc is 0 when the branch
      has used up the name; stopping the unbounded search there loses no match, because a later branch would need as
      many characters of the name and find fewer. */
  method Branch(fold: nat -> nat, pat: seq<nat>, nam: seq<nat>, k: nat) returns (r: bool, nc: nat)
    requires Str(pat) && Str(nam) && Folding(fold) && k <= |nam|
    ensures r <==> Matches(fold, pat, nam[k..])
    ensures !r && nc != 0 ==> k < |nam|
    ensures !r && nc == 0 ==> forall x :: k < x <= |nam| ==> !Matches(fold, pat, nam[x..])
    decreases |pat|, 0
  {
    var i := 0;
    while true
      invariant Agrees(fold, pat, nam, k, i)
      decreases |pat| - i
    {
      Remainder(fold, pat, nam, k, i);
      if i < |pat| && Wild(pat[i]) {
        var pp, nm, nx := WildBlock(pat, i);
        Block(fold, pat[i..], nam[k + i..], pp - i);
        assert pat[i..][..pp - i] == pat[i..pp] && pat[i..][pp - i..] == pat[pp..];
        r := PatternMatching(fold, pat[pp..], nam[k + i..], nm, nx);
        nc := if k + i < |nam| then nam[k + i] else 0;
        if nc == 0 { NoLater(fold, pat, nam, k, i); }
        return;
      }
      var pc := Achar(fold, pat, i);
      nc := Achar(fold, nam, k + i);
      if pc != nc {
        if nc == 0 { NoLater(fold, pat, nam, k, i); }
        return false, nc;
      }
      if pc == 0 { return true, nc; }
      i := i + 1;
    }
  }

  /** When i plain characters have used up the name from position k on, no later start matches. */
  lemma NoLater(fold: nat -> nat, pat: seq<nat>, nam: seq<nat>, k: nat, i: nat)
    requires Agrees(fold, pat, nam, k, i) && k + i == |nam|
    ensures forall x :: k < x <= |nam| ==> !Matches(fold, pat, nam[x..])
  {
    forall x | k < x <= |nam| ensures !Matches(fold, pat, nam[x..]) {
      TooShort(fold, pat, nam[x..], i);
    }
  }

  /** Analyse the block of wildcards at position i: where it ends, how many question marks it has, and whether a star.
      */
  method WildBlock(pat: seq<nat>, i: nat) returns (pp: nat, nm: nat, nx: bool)
    requires i < |pat| && Wild(pat[i])
    ensures i < pp <= |pat| && (pp < |pat| ==> !Wild(pat[pp])) && forall x :: i <= x < pp ==> Wild(pat[x])
    ensures nm == Questions(pat[i..pp]) && (nx <==> Stars(pat[i..pp]) > 0)
  {
    pp, nm, nx := i, 0, false;
    while pp < |pat| && Wild(pat[pp])
      invariant i <= pp <= |pat| && (pp == i ==> Wild(pat[pp])) && forall x :: i <= x < pp ==> Wild(pat[x])
      invariant nm == Questions(pat[i..pp]) && (nx <==> Stars(pat[i..pp]) > 0)
    {
      assert pat[i..pp + 1][..pp - i] == pat[i..pp];
      if pat[pp] == QUESTION { nm := nm + 1; } else { nx := true; }
      pp := pp + 1;
    }
  }
}
