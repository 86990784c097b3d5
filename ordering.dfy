/**
 * `script_cmds.sort(key=lambda tup: tup[0])` (main.py): a stable sort of the
 * commands by id. `SortById` is the specification, an insertion sort;
 * `SortInPlace` is the in-place sort on the list, proved to produce it.
 * Python's list sort is a different stable algorithm, and `SortUnique`
 * shows that every stable sort by id gives this same list.
 */
module Ordering {
  import opened Extraction

  predicate SortedById(s: seq<Cmd>) {
    forall i, j :: 0 <= i < j < |s| ==> s[i].id <= s[j].id
  }

  /** The commands with id `k`, in their order in `s`. */
  function WithId(s: seq<Cmd>, k: int): seq<Cmd> {
    if s == [] then []
    else WithId(s[..|s| - 1], k) + (if s[|s| - 1].id == k then [s[|s| - 1]] else [])
  }

  /** Puts `x` after every command whose id is at most `x.id`, moving the larger ones up. */
  function InsertAfter(t: seq<Cmd>, x: Cmd): (r: seq<Cmd>)
    ensures |r| == |t| + 1
  {
    if t == [] || t[|t| - 1].id <= x.id then t + [x]
    else InsertAfter(t[..|t| - 1], x) + [t[|t| - 1]]
  }

  lemma {:induction false} InsertAfterPermutation(t: seq<Cmd>, x: Cmd)
    ensures multiset(InsertAfter(t, x)) == multiset(t) + multiset{x}
    decreases |t|
  {
    if !(t == [] || t[|t| - 1].id <= x.id) {
      InsertAfterPermutation(t[..|t| - 1], x);
      assert t == t[..|t| - 1] + [t[|t| - 1]];
    }
  }

  function SortById(s: seq<Cmd>): (r: seq<Cmd>)
    ensures |r| == |s|
  {
    if s == [] then [] else InsertAfter(SortById(s[..|s| - 1]), s[|s| - 1])
  }

  /** Sorting keeps every command, as many times as it occurs. */
  lemma {:induction false} SortByIdPermutation(s: seq<Cmd>)
    ensures multiset(SortById(s)) == multiset(s)
    decreases |s|
  {
    if s != [] {
      SortByIdPermutation(s[..|s| - 1]);
      InsertAfterPermutation(SortById(s[..|s| - 1]), s[|s| - 1]);
      assert s == s[..|s| - 1] + [s[|s| - 1]];
    }
  }

  lemma SortedSnoc(t: seq<Cmd>, x: Cmd)
    requires SortedById(t)
    requires forall i :: 0 <= i < |t| ==> t[i].id <= x.id
    ensures SortedById(t + [x])
  {
    forall i, j | 0 <= i < j < |t| + 1
      ensures (t + [x])[i].id <= (t + [x])[j].id
    {
      if j == |t| {
        assert (t + [x])[j] == x && (t + [x])[i] == t[i];
      } else {
        assert (t + [x])[j] == t[j] && (t + [x])[i] == t[i];
      }
    }
  }

  /** Every command of `InsertAfter(t, x)` has an id at most the larger of `x.id` and the ids of `t`. */
  lemma InsertAfterBounded(t: seq<Cmd>, x: Cmd, bound: int)
    requires x.id <= bound && forall i :: 0 <= i < |t| ==> t[i].id <= bound
    ensures forall i :: 0 <= i < |t| + 1 ==> InsertAfter(t, x)[i].id <= bound
  {
    var r := InsertAfter(t, x);
    InsertAfterPermutation(t, x);
    forall i | 0 <= i < |r|
      ensures r[i].id <= bound
    {
      assert r[i] in multiset(r);
      if r[i] != x {
        assert r[i] in multiset(t);
        var k :| 0 <= k < |t| && t[k] == r[i];
      }
    }
  }

  lemma {:induction false} InsertAfterSorted(t: seq<Cmd>, x: Cmd)
    requires SortedById(t)
    ensures SortedById(InsertAfter(t, x))
    decreases |t|
  {
    if t == [] || t[|t| - 1].id <= x.id {
      SortedSnoc(t, x);
    } else {
      var t' := t[..|t| - 1];
      var last := t[|t| - 1];
      assert SortedById(t');
      InsertAfterSorted(t', x);
      InsertAfterBounded(t', x, last.id);
      SortedSnoc(InsertAfter(t', x), last);
    }
  }

  /** After sorting, ids never decrease. */
  lemma {:induction false} SortByIdSorted(s: seq<Cmd>)
    ensures SortedById(SortById(s))
    decreases |s|
  {
    if s != [] {
      SortByIdSorted(s[..|s| - 1]);
      InsertAfterSorted(SortById(s[..|s| - 1]), s[|s| - 1]);
    }
  }

  lemma {:induction false} WithIdAppend(a: seq<Cmd>, b: seq<Cmd>, k: int)
    ensures WithId(a + b, k) == WithId(a, k) + WithId(b, k)
    decreases |b|
  {
    if b == [] {
      assert a + b == a;
    } else {
      WithIdAppend(a, b[..|b| - 1], k);
      assert (a + b)[..|a + b| - 1] == a + b[..|b| - 1];
    }
  }

  lemma WithIdSingle(x: Cmd, k: int)
    ensures WithId([x], k) == if x.id == k then [x] else []
  {
    assert [x][..0] == [];
  }

  lemma {:induction false} InsertAfterWithId(t: seq<Cmd>, x: Cmd, k: int)
    ensures WithId(InsertAfter(t, x), k) == WithId(t, k) + WithId([x], k)
    decreases |t|
  {
    if t == [] || t[|t| - 1].id <= x.id {
      WithIdAppend(t, [x], k);
    } else {
      var t' := t[..|t| - 1];
      var last := t[|t| - 1];
      var r' := InsertAfter(t', x);
      var before, wx, wl := WithId(t', k), WithId([x], k), WithId([last], k);
      InsertAfterWithId(t', x, k);
      assert WithId(InsertAfter(t, x), k) == WithId(r', k) + wl by {
        assert InsertAfter(t, x) == r' + [last];
        WithIdAppend(r', [last], k);
      }
      assert WithId(t, k) == before + wl by {
        assert t == t' + [last];
        WithIdAppend(t', [last], k);
      }
      assert wx == [] || wl == [] by {
        WithIdSingle(x, k);
        WithIdSingle(last, k);
      }
      assert before + wx + wl == before + wl + wx;
    }
  }

  /** Stability: for every id, the commands carrying it keep their relative order. */
  lemma {:induction false} SortByIdStable(s: seq<Cmd>, k: int)
    ensures WithId(SortById(s), k) == WithId(s, k)
    decreases |s|
  {
    if s != [] {
      var s' := s[..|s| - 1];
      SortByIdStable(s', k);
      InsertAfterWithId(SortById(s'), s[|s| - 1], k);
      WithIdAppend(s', [s[|s| - 1]], k);
      assert s == s' + [s[|s| - 1]];
    }
  }

  lemma {:induction false} WithIdFront(s: seq<Cmd>, k: int)
    requires |s| > 0
    ensures WithId(s, k) == (if s[0].id == k then [s[0]] else []) + WithId(s[1..], k)
  {
    WithIdAppend([s[0]], s[1..], k);
    assert s == [s[0]] + s[1..];
  }

  lemma {:induction false} WithIdNonEmpty(s: seq<Cmd>, i: nat)
    requires i < |s|
    ensures WithId(s, s[i].id) != []
    decreases |s|
  {
    WithIdFront(s, s[i].id);
    if i > 0 {
      WithIdNonEmpty(s[1..], i - 1);
    }
  }

  lemma {:induction false} WithIdMember(s: seq<Cmd>, k: int)
    requires WithId(s, k) != []
    ensures exists i :: 0 <= i < |s| && s[i].id == k
    decreases |s|
  {
    WithIdFront(s, k);
    if s[0].id != k {
      WithIdMember(s[1..], k);
      var i :| 0 <= i < |s[1..]| && s[1..][i].id == k;
      assert s[i + 1].id == k;
    }
  }

  /** Dropping the head of a list sorted by id keeps it sorted; the head has the least id. */
  lemma SortedTail(a: seq<Cmd>)
    requires |a| > 0 && SortedById(a)
    ensures SortedById(a[1..])
    ensures forall i :: 0 <= i < |a| ==> a[0].id <= a[i].id
  {
    forall i, j | 0 <= i < j < |a| - 1
      ensures a[1..][i].id <= a[1..][j].id
    {
      assert a[1..][i] == a[i + 1] && a[1..][j] == a[j + 1];
    }
  }

  /** Dropping the shared first command keeps the groups of the rest equal. */
  lemma GroupsOfTails(a: seq<Cmd>, b: seq<Cmd>, k: int)
    requires |a| > 0 && |b| > 0 && a[0] == b[0]
    requires WithId(a, k) == WithId(b, k)
    ensures WithId(a[1..], k) == WithId(b[1..], k)
  {
    WithIdFront(a, k);
    WithIdFront(b, k);
    var h := if a[0].id == k then [a[0]] else [];
    assert WithId(a[1..], k) == (h + WithId(a[1..], k))[|h|..];
    assert WithId(b[1..], k) == (h + WithId(b[1..], k))[|h|..];
  }

  /** Sorted lists with the same groups start with the same command. */
  lemma SameGroupsSameHead(a: seq<Cmd>, b: seq<Cmd>)
    requires |a| > 0 && |b| > 0
    requires SortedById(a) && SortedById(b)
    requires forall k :: WithId(a, k) == WithId(b, k)
    ensures a[0] == b[0]
  {
    WithIdNonEmpty(a, 0);
    assert WithId(b, a[0].id) != [];
    WithIdMember(b, a[0].id);
    WithIdNonEmpty(b, 0);
    assert WithId(a, b[0].id) != [];
    WithIdMember(a, b[0].id);
    SortedTail(a);
    SortedTail(b);
    var k := a[0].id;
    assert k == b[0].id;
    WithIdFront(a, k);
    WithIdFront(b, k);
    assert WithId(a, k)[0] == a[0];
    assert WithId(b, k)[0] == b[0];
  }

  /** Two lists sorted by id with the same commands of each id, in the same order, are equal. */
  lemma {:induction false} SortedWithSameGroupsEqual(a: seq<Cmd>, b: seq<Cmd>)
    requires SortedById(a) && SortedById(b)
    requires forall k :: WithId(a, k) == WithId(b, k)
    ensures a == b
    decreases |a|
  {
    if a == [] {
      if b != [] {
        WithIdNonEmpty(b, 0);
      }
    } else if b == [] {
      WithIdNonEmpty(a, 0);
    } else {
      SameGroupsSameHead(a, b);
      forall k
        ensures WithId(a[1..], k) == WithId(b[1..], k)
      {
        GroupsOfTails(a, b, k);
      }
      SortedTail(a);
      SortedTail(b);
      SortedWithSameGroupsEqual(a[1..], b[1..]);
      assert a == [a[0]] + a[1..] && b == [b[0]] + b[1..];
    }
  }

  /**
   * A list sorted by id whose commands of each id come in the same order as
   * in `s` is `SortById(s)`: every stable sort by id gives the same result.
   */
  lemma SortUnique(s: seq<Cmd>, r: seq<Cmd>)
    requires SortedById(r)
    requires forall k :: WithId(r, k) == WithId(s, k)
    ensures r == SortById(s)
  {
    SortByIdSorted(s);
    forall k
      ensures WithId(r, k) == WithId(SortById(s), k)
    {
      SortByIdStable(s, k);
    }
    SortedWithSameGroupsEqual(r, SortById(s));
  }

  /** Inserting `x` at position `j`, past the ids at most `x.id` and before the larger ones. */
  lemma {:induction false} InsertAfterAt(t: seq<Cmd>, x: Cmd, j: nat)
    requires j <= |t|
    requires j == 0 || t[j - 1].id <= x.id
    requires forall k :: j <= k < |t| ==> t[k].id > x.id
    ensures InsertAfter(t, x) == t[..j] + [x] + t[j..]
    decreases |t| - j
  {
    if j < |t| {
      var t' := t[..|t| - 1];
      InsertAfterAt(t', x, j);
      assert t'[..j] == t[..j];
      assert t'[j..] + [t[|t| - 1]] == t[j..];
    }
  }

  /** One insertion step: `a[i]` moves down past the larger ids of the sorted prefix `a[..i]`. */
  method InsertInPlace(a: array<Cmd>, i: nat)
    requires i < a.Length
    modifies a
    ensures a[..i + 1] == InsertAfter(old(a[..i]), old(a[i]))
    ensures a[i + 1..] == old(a[i + 1..])
  {
    ghost var t := a[..i];
    var x := a[i];
    var j := i;
    while j > 0 && a[j - 1].id > x.id
      invariant 0 <= j <= i
      invariant forall k :: 0 <= k < j ==> a[k] == t[k]
      invariant forall k :: j < k <= i ==> a[k] == t[k - 1]
      invariant forall k :: j <= k < i ==> t[k].id > x.id
      invariant a[i + 1..] == old(a[i + 1..])
    {
      a[j] := a[j - 1];
      j := j - 1;
    }
    a[j] := x;
    forall k | 0 <= k <= i
      ensures a[k] == (t[..j] + [x] + t[j..])[k]
    {
      if k > j {
        assert (t[..j] + [x] + t[j..])[k] == t[k - 1];
      }
    }
    assert a[..i + 1] == t[..j] + [x] + t[j..];
    InsertAfterAt(t, x, j);
  }

  /** The list sort, done in place by insertion. */
  method SortInPlace(a: array<Cmd>)
    modifies a
    ensures a[..] == SortById(old(a[..]))
  {
    ghost var input := a[..];
    var i := 0;
    while i < a.Length
      invariant 0 <= i <= a.Length
      invariant a[..i] == SortById(input[..i])
      invariant a[i..] == input[i..]
    {
      ghost var before := a[..];
      assert before[..i] == SortById(input[..i]) && before[i] == input[i] by {
        assert before[i..][0] == before[i];
      }
      InsertInPlace(a, i);
      assert a[..i + 1] == SortById(input[..i + 1]) by {
        assert input[..i + 1][..i] == input[..i];
      }
      assert a[i + 1..] == input[i + 1..] by {
        assert before[i + 1..] == before[i..][1..];
      }
      i := i + 1;
    }
    assert input[..a.Length] == input;
  }
}
