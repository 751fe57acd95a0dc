/** The LRU replacement policy. */
module Replacer {
  ghost predicate Distinct(s: seq<int>) {
    forall i, j :: 0 <= i < j < |s| ==> s[i] != s[j]
  }

  function Without(s: seq<int>, x: int): (r: seq<int>)
    ensures x !in s ==> r == s
  {
    if s == [] then []
    else if s[0] == x then s[1..]
    else [s[0]] + Without(s[1..], x)
  }

  lemma {:induction false} WithoutElements(s: seq<int>, x: int)
    requires Distinct(s)
    ensures Distinct(Without(s, x)) && forall y :: y in Without(s, x) <==> y in s && y != x
  {
    if s != [] {
      var rest := s[1..];
      assert s == [s[0]] + rest;
      WithoutElements(rest, x);
      assert s[0] !in rest;
    }
  }

  /** Each frame of the list was unpinned later than those behind it. */
  ghost predicate Recent(s: seq<int>, since: map<int, nat>) {
    && (forall i :: 0 <= i < |s| ==> s[i] in since)
    && forall i, j :: 0 <= i < j < |s| ==> since[s[j]] < since[s[i]]
  }

  /** Taking one frame out leaves the others in their order. */
  lemma {:induction false} WithoutCuts(s: seq<int>, x: int) returns (i: nat)
    requires x in s
    ensures i < |s| && s[i] == x && Without(s, x) == s[..i] + s[i + 1..]
  {
    if s[0] == x {
      i := 0;
    } else {
      i := WithoutCuts(s[1..], x);
      i := i + 1;
    }
  }

  lemma WithoutRecent(s: seq<int>, x: int, since: map<int, nat>)
    requires Recent(s, since)
    ensures Recent(Without(s, x), since)
  {
    if x in s {
      var i := WithoutCuts(s, x);
      var r := s[..i] + s[i + 1..];
      assert forall j :: 0 <= j < i ==> r[j] == s[j];
      assert forall j :: i <= j < |r| ==> r[j] == s[j + 1];
    }
  }

  /** `LRUReplacer`: the unpinned frames, the most recently unpinned first. */
  class LruReplacer {
    var list: seq<int>
    var hash: set<int>
    /** When each frame was last unpinned, and the time. */
    ghost var since: map<int, nat>
    ghost var time: nat

    ghost predicate Valid()
      reads this
    {
      && Distinct(list) && (forall f :: f in hash <==> f in list)
      && Recent(list, since) && forall f :: f in list ==> since[f] < time
    }

    constructor ()
      ensures Valid() && list == []
    {
      list, hash, since, time := [], {}, map[], 0;
    }

    /** The victim is the frame that was unpinned longest ago. */
    method Victim() returns (ok: bool, frame: int)
      requires Valid()
      modifies this
      ensures Valid()
      ensures ok <==> old(list) != []
      ensures ok ==> old(list) == list + [frame] && frame !in list
      ensures ok ==> frame in since && forall f :: f in list ==> f in since && since[frame] < since[f]
      ensures !ok ==> list == old(list)
      ensures since == old(since)
    {
      if list == [] {
        return false, -1;
      }
      ok, frame := true, list[|list| - 1];
      list := list[..|list| - 1];
      hash := hash - {frame};
    }

    method Pin(frame: int)
      requires Valid()
      modifies this
      ensures Valid() && list == Without(old(list), frame) && since == old(since)
    {
      WithoutElements(list, frame);
      WithoutRecent(list, frame, since);
      if frame !in hash {
        return;
      }
      list := Without(list, frame);
      hash := hash - {frame};
    }

    method Unpin(frame: int)
      requires Valid()
      modifies this
      ensures Valid()
      ensures list == if frame in old(list) then old(list) else [frame] + old(list)
      ensures if frame in old(list) then since == old(since) else since == old(since)[frame := old(time)]
    {
      if frame !in hash {
        list := [frame] + list;
        hash := hash + {frame};
        since, time := since[frame := time], time + 1;
      }
    }
  }
}
