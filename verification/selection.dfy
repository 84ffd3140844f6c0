/** Row masks over a table and boolean indexing (`table[mask]`). */
module Selection {

  /** The mask every filter starts from: `n` rows, all selected. */
  function AllTrue(n: nat): (m: seq<bool>)
    ensures |m| == n
    ensures forall i :: 0 <= i < n ==> m[i]
  {
    seq(n, _ => true)
  }

  /** Element-wise conjunction `a & b` of two masks over the same rows. */
  function And(a: seq<bool>, b: seq<bool>): (m: seq<bool>)
    requires |a| == |b|
    ensures |m| == |a|
    ensures forall i :: 0 <= i < |m| ==> (m[i] <==> a[i] && b[i])
  {
    seq(|a|, i requires 0 <= i < |a| => a[i] && b[i])
  }

  /** The positions a mask selects, in increasing order, each exactly once. */
  function Indices(mask: seq<bool>): (idx: seq<nat>)
    ensures forall k :: 0 <= k < |idx| ==> idx[k] < |mask| && mask[idx[k]]
    ensures forall j, k :: 0 <= j < k < |idx| ==> idx[j] < idx[k]
    ensures forall i :: 0 <= i < |mask| && mask[i] ==> i in idx
  {
    if |mask| == 0 then []
    else
      var prefix := Indices(mask[..|mask| - 1]);
      if mask[|mask| - 1] then prefix + [|mask| - 1] else prefix
  }

  /** `r` holds exactly the rows of `s` whose mask entry is set, in table order. */
  ghost predicate IsSelection<T>(r: seq<T>, s: seq<T>, mask: seq<bool>)
    requires |s| == |mask|
  {
    var idx := Indices(mask);
    |r| == |idx| && forall k :: 0 <= k < |r| ==> r[k] == s[idx[k]]
  }

  /** Boolean indexing: keep the rows whose mask entry is set, in table order. */
  function Select<T>(s: seq<T>, mask: seq<bool>): (r: seq<T>)
    requires |s| == |mask|
    ensures IsSelection(r, s, mask)
  {
    var idx := Indices(mask);
    seq(|idx|, k requires 0 <= k < |idx| => s[idx[k]])
  }

  /** A row value is selected iff it sits at some selected position. */
  lemma SelectMembership<T>(s: seq<T>, mask: seq<bool>, x: T)
    requires |s| == |mask|
    ensures x in Select(s, mask) <==> exists i :: 0 <= i < |s| && mask[i] && s[i] == x
  {
    var r := Select(s, mask);
    var idx := Indices(mask);
    if x in r {
      var k :| 0 <= k < |r| && r[k] == x;
      assert mask[idx[k]] && s[idx[k]] == x;
    }
    if i :| 0 <= i < |s| && mask[i] && s[i] == x {
      var k :| 0 <= k < |idx| && idx[k] == i;
      assert r[k] == x;
    }
  }

  /** The selection is empty iff the mask selects nothing. */
  lemma SelectEmpty<T>(s: seq<T>, mask: seq<bool>)
    requires |s| == |mask|
    ensures Select(s, mask) == [] <==> forall i :: 0 <= i < |mask| ==> !mask[i]
  {
    var idx := Indices(mask);
    if |idx| > 0 {
      assert mask[idx[0]];
    }
  }

  /** A mask that selects every row selects every position, in order. */
  lemma {:induction false} IndicesAll(mask: seq<bool>)
    requires forall i :: 0 <= i < |mask| ==> mask[i]
    ensures Indices(mask) == seq(|mask|, k => k)
  {
    if |mask| > 0 {
      var n := |mask|;
      IndicesAll(mask[..n - 1]);
      assert Indices(mask) == Indices(mask[..n - 1]) + [n - 1];
    }
  }

  /** A mask that selects every row keeps the whole table. */
  lemma SelectAll<T>(s: seq<T>, mask: seq<bool>)
    requires |s| == |mask|
    requires forall i :: 0 <= i < |mask| ==> mask[i]
    ensures Select(s, mask) == s
  {
    IndicesAll(mask);
  }

  /** A mask that selects nothing has no selected positions. */
  lemma {:induction false} IndicesNone(mask: seq<bool>)
    requires forall i :: 0 <= i < |mask| ==> !mask[i]
    ensures Indices(mask) == []
  {
    if |mask| > 0 {
      IndicesNone(mask[..|mask| - 1]);
    }
  }

  /** A mask that selects exactly position `j` has `j` as its only selected position. */
  lemma {:induction false} IndicesSingle(mask: seq<bool>, j: nat)
    requires j < |mask|
    requires forall i :: 0 <= i < |mask| ==> (mask[i] <==> i == j)
    ensures Indices(mask) == [j]
  {
    var n := |mask|;
    if j == n - 1 {
      IndicesNone(mask[..n - 1]);
    } else {
      IndicesSingle(mask[..n - 1], j);
    }
  }

  /** A mask that selects exactly one position yields that one row. */
  lemma SelectSingle<T>(s: seq<T>, mask: seq<bool>, j: nat)
    requires |s| == |mask| && j < |mask|
    requires forall i :: 0 <= i < |mask| ==> (mask[i] <==> i == j)
    ensures Select(s, mask) == [s[j]]
  {
    IndicesSingle(mask, j);
  }

  /** Selecting rows that were transformed position-wise by `f` (on the selected
      positions) is the same as transforming the selected rows. */
  lemma SelectPointwise<T>(s: seq<T>, s': seq<T>, mask: seq<bool>, f: T -> T)
    requires |s| == |s'| == |mask|
    requires forall i :: 0 <= i < |mask| && mask[i] ==> s'[i] == f(s[i])
    ensures Select(s', mask) == seq(|Select(s, mask)|, k requires 0 <= k < |Select(s, mask)| => f(Select(s, mask)[k]))
  {
    var idx := Indices(mask);
    var r, r' := Select(s, mask), Select(s', mask);
    forall k | 0 <= k < |r'|
      ensures r'[k] == f(r[k])
    {
      assert mask[idx[k]];
    }
  }
}
