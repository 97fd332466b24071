/** A node of the expander graph with its bounded, sorted list of parents, kept in a slice
    (expanders/expander.go). */
module ExpanderNode {

  predicate Sorted(s: seq<int>) {
    forall i, j :: 0 <= i < j < |s| ==> s[i] < s[j]
  }

  /** The sorted list with one more element. */
  function Insert(s: seq<int>, x: int): (r: seq<int>)
    ensures |r| == |s| + 1
    ensures forall y :: y in r <==> y == x || y in s
  {
    if s == [] then [x]
    else if s[|s| - 1] < x then s + [x]
    else
      var r := Insert(s[..|s| - 1], x) + [s[|s| - 1]];
      assert s == s[..|s| - 1] + [s[|s| - 1]];
      r
  }

  lemma {:induction false} InsertSorted(s: seq<int>, x: int)
    requires Sorted(s) && x !in s
    ensures Sorted(Insert(s, x))
  {
    if s != [] && s[|s| - 1] >= x {
      var front := s[..|s| - 1];
      InsertSorted(front, x);
      var r := Insert(front, x);
      assert s[|s| - 1] in s;
      forall i | 0 <= i < |r| ensures r[i] < s[|s| - 1] {
        assert r[i] in r;
      }
    }
  }

  /** Insertion by position. */
  lemma {:induction false} InsertAt(s: seq<int>, x: int, i: nat)
    requires i <= |s| && (forall j :: 0 <= j < i ==> s[j] < x) && (forall j :: i <= j < |s| ==> x < s[j])
    ensures Insert(s, x) == s[..i] + [x] + s[i..]
  {
    if s != [] && s[|s| - 1] >= x {
      var front := s[..|s| - 1];
      InsertAt(front, x, i);
      assert front[..i] == s[..i] && front[i..] + [s[|s| - 1]] == s[i..];
    }
  }

  /** Where the new element goes. */
  function Position(s: seq<int>, x: int): (i: nat)
    ensures i <= |s|
  {
    if s == [] then 0
    else if s[|s| - 1] < x then |s|
    else Position(s[..|s| - 1], x)
  }

  lemma {:induction false} InsertAtPosition(s: seq<int>, x: int)
    ensures Insert(s, x) == s[..Position(s, x)] + [x] + s[Position(s, x)..]
  {
    if s != [] && s[|s| - 1] >= x {
      var front, i := s[..|s| - 1], Position(s, x);
      InsertAtPosition(front, x);
      assert front[..i] == s[..i] && front[i..] + [s[|s| - 1]] == s[i..];
    }
  }

  /** The numbers inserted one after the other. */
  function InsertAll(xs: seq<int>): (r: seq<int>)
    ensures |r| == |xs|
  {
    if xs == [] then [] else Insert(InsertAll(xs[..|xs| - 1]), xs[|xs| - 1])
  }

  lemma InsertAllSnoc(xs: seq<int>, x: int)
    ensures InsertAll(xs + [x]) == Insert(InsertAll(xs), x)
  {
    assert (xs + [x])[..|xs + [x]| - 1] == xs;
  }

  lemma {:induction false} InsertKeepsFirst(s: seq<int>, x: int)
    requires s != [] && s[0] < x
    ensures Insert(s, x)[0] == s[0]
  {
    if s[|s| - 1] >= x {
      InsertKeepsFirst(s[..|s| - 1], x);
    }
  }

  /** A number smaller than all later ones stays in front. */
  lemma {:induction false} FirstStays(xs: seq<int>)
    requires xs != [] && forall i :: 0 < i < |xs| ==> xs[0] < xs[i]
    ensures InsertAll(xs)[0] == xs[0]
  {
    if |xs| > 1 {
      FirstStays(xs[..|xs| - 1]);
      InsertKeepsFirst(InsertAll(xs[..|xs| - 1]), xs[|xs| - 1]);
    } else {
      assert InsertAll(xs[..0]) == [];
    }
  }

  class Node {
    var Index: int
    // The slice Parents: its backing array (nil when the slice is), and its length; the capacity
    // is the length of the array.
    var buf: array?<int>
    var len: nat

    constructor (idx: int)
      ensures Index == idx && buf == null && len == 0
    {
      Index, buf, len := idx, null, 0;
    }

    ghost predicate Valid()
      reads this, buf
    {
      && (if buf == null then len == 0 else len <= buf.Length)
      && Sorted(Parents())
    }

    function Parents(): seq<int>
      reads this, buf
    {
      if buf == null || len > buf.Length then [] else buf[..len]
    }

    function Cap(): nat
      reads this`buf
    {
      if buf == null then 0 else buf.Length
    }

    predicate NoParents()
      reads this`len
    {
      len <= 0
    }

    /** ParentInList: a binary search that tells membership, and otherwise where to insert.  Go
        truncates (l + r) / 2, also for l + r = -1. */
    method ParentInList(parent: int) returns (i: int, found: bool)
      requires Valid()
      ensures found <==> parent in Parents()
      ensures found ==> i == 0
      ensures !found ==>
                && 0 <= i <= |Parents()|
                && (forall j :: 0 <= j < i ==> Parents()[j] < parent)
                && (forall j :: i <= j < |Parents()| ==> parent < Parents()[j])
    {
      if NoParents() {
        return 0, false;
      }
      var l, r := 0, len - 1;
      while l <= r
        invariant 0 <= l <= r + 1 <= len
        invariant forall j :: 0 <= j < l ==> Parents()[j] < parent
        invariant forall j :: r < j < len ==> parent < Parents()[j]
      {
        var mid := (l + r) / 2;
        if buf[mid] == parent {
          assert parent == Parents()[mid];
          return 0, true;
        }
        if buf[mid] > parent {
          assert parent < Parents()[mid];
          r := mid - 1;
        } else {
          assert Parents()[mid] < parent;
          l := mid + 1;
        }
      }
      i := if l + r < 0 then 0 else (l + r) / 2;
      if buf[i] < parent {
        i := i + 1;
      }
      assert i == l;
      return i, false;
    }

    /** AddParent: a sorted insert that refuses the node itself, a nil or full slice, and what is
        already there; nothing changes then. */
    method AddParent(parent: int) returns (ok: bool)
      requires Valid()
      modifies this`len, buf
      ensures Valid() && buf == old(buf)
      ensures ok <==> parent != Index && |old(Parents())| < Cap() && parent !in old(Parents())
      ensures Parents() == if ok then Insert(old(Parents()), parent) else old(Parents())
    {
      hide Insert;
      if Index == parent {
        return false;
      }
      if buf == null || len >= buf.Length {
        return false;
      }
      var i, found := ParentInList(parent);
      if found {
        return false;
      }
      ghost var before := Parents();
      InsertAt(before, parent, i);
      InsertSorted(before, parent);
      PutAt(i, parent);
      return true;
    }

    /** The part of AddParent that makes room at position i and writes there. */
    method PutAt(i: nat, parent: int)
      requires buf != null && i <= len < buf.Length
      modifies this`len, buf
      ensures buf == old(buf) && len == old(len) + 1
      ensures Parents() == old(Parents())[..i] + [parent] + old(Parents())[i..]
    {
      ghost var before := Parents();
      len := len + 1;
      buf[len - 1] := 0;
      if len == 1 || i == len - 1 {
        buf[i] := parent;
      } else {
        ShiftRight(buf, i, len - 1);
        buf[i] := parent;
      }
      PutIs(before, buf[..len], i, parent);
    }
  }

  lemma PutIs(before: seq<int>, after: seq<int>, i: nat, x: int)
    requires i <= |before| && |after| == |before| + 1 && after[i] == x
    requires forall j :: 0 <= j < i ==> after[j] == before[j]
    requires forall j :: i < j < |after| ==> after[j] == before[j - 1]
    ensures after == before[..i] + [x] + before[i..]
  {
  }

  /** copy(a[from+1:], a[from:to]), overlap included. */
  method ShiftRight(a: array<int>, from: nat, to: nat)
    requires from <= to < a.Length
    modifies a
    ensures forall j :: 0 <= j <= from || to < j < a.Length ==> a[j] == old(a[j])
    ensures forall j :: from < j <= to ==> a[j] == old(a[j - 1])
  {
    var k := to;
    while k > from
      invariant from <= k <= to
      invariant forall j :: 0 <= j <= k || to < j < a.Length ==> a[j] == old(a[j])
      invariant forall j :: k < j <= to ==> a[j] == old(a[j - 1])
    {
      a[k] := a[k - 1];
      k := k - 1;
    }
  }
}
