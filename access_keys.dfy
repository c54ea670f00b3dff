/**
 * The access keys an IAM user holds, as ListAccessKeys reports them, and the
 * stable ascending sort by creation date that the reconciler applies to the
 * listing before choosing which key to delete.
 */
module AccessKeys {

  /** One entry of ListAccessKeys: the key id and its creation date (nanoseconds). */
  datatype KeyMetadata = KeyMetadata(accessKeyId: string, createDate: int)

  /** The less function handed to sort.SliceStable: CreateDate.Before, a strict comparison. */
  predicate CreatedBefore(a: KeyMetadata, b: KeyMetadata) {
    a.createDate < b.createDate
  }

  ghost predicate SortedByCreate(s: seq<KeyMetadata>) {
    forall i, j :: 0 <= i < j < |s| ==> s[i].createDate <= s[j].createDate
  }

  /** The subsequence of s created at date d, in the order of s. */
  function CreatedAt(s: seq<KeyMetadata>, d: int): (r: seq<KeyMetadata>)
    ensures |r| <= |s|
  {
    if s == [] then []
    else CreatedAt(s[..|s| - 1], d) + (if s[|s| - 1].createDate == d then [s[|s| - 1]] else [])
  }

  /**
   * Inserts x into the sorted sequence by moving it left past every element
   * created strictly after it, as one pass of insertion sort does. x therefore
   * ends up after every element with the same creation date.
   */
  function InsertStable(sorted: seq<KeyMetadata>, x: KeyMetadata): (r: seq<KeyMetadata>)
    ensures |r| == |sorted| + 1
    decreases |sorted|
  {
    if sorted == [] || !CreatedBefore(x, sorted[|sorted| - 1]) then sorted + [x]
    else InsertStable(sorted[..|sorted| - 1], x) + [sorted[|sorted| - 1]]
  }

  /** The result of sort.SliceStable on a listing, ordered by CreateDate.Before. */
  function SortByCreate(s: seq<KeyMetadata>): (r: seq<KeyMetadata>)
    ensures |r| == |s|
  {
    if s == [] then [] else InsertStable(SortByCreate(s[..|s| - 1]), s[|s| - 1])
  }

  lemma {:induction false} InsertStablePermutes(sorted: seq<KeyMetadata>, x: KeyMetadata)
    ensures multiset(InsertStable(sorted, x)) == multiset(sorted) + multiset{x}
    decreases |sorted|
  {
    if sorted != [] && CreatedBefore(x, sorted[|sorted| - 1]) {
      var init, last := sorted[..|sorted| - 1], sorted[|sorted| - 1];
      InsertStablePermutes(init, x);
      assert sorted == init + [last];
      assert InsertStable(sorted, x) == InsertStable(init, x) + [last];
    }
  }

  lemma {:induction false} InsertStableSorted(sorted: seq<KeyMetadata>, x: KeyMetadata)
    requires SortedByCreate(sorted)
    ensures SortedByCreate(InsertStable(sorted, x))
    decreases |sorted|
  {
    if sorted != [] && CreatedBefore(x, sorted[|sorted| - 1]) {
      var init, last := sorted[..|sorted| - 1], sorted[|sorted| - 1];
      InsertStableSorted(init, x);
      InsertStablePermutes(init, x);
      var r := InsertStable(init, x);
      forall i | 0 <= i < |r|
        ensures r[i].createDate <= last.createDate
      {
        assert r[i] in multiset(r);
        assert r[i] in multiset(init) || r[i] == x;
      }
    }
  }

  /** Insertion does not reorder the keys of one creation date; x joins its date group last. */
  lemma {:induction false} InsertStableKeepsDateOrder(sorted: seq<KeyMetadata>, x: KeyMetadata, d: int)
    ensures CreatedAt(InsertStable(sorted, x), d) == CreatedAt(sorted, d) + (if x.createDate == d then [x] else [])
    decreases |sorted|
  {
    if sorted == [] || !CreatedBefore(x, sorted[|sorted| - 1]) {
      CreatedAtSnoc(sorted, x, d);
    } else {
      var init, last := sorted[..|sorted| - 1], sorted[|sorted| - 1];
      InsertStableKeepsDateOrder(init, x, d);
      assert sorted == init + [last];
      assert InsertStable(sorted, x) == InsertStable(init, x) + [last];
      CreatedAtSnoc(InsertStable(init, x), last, d);
      CreatedAtSnoc(init, last, d);
    }
  }

  /** The sorted listing is ordered by creation date. */
  lemma {:induction false} SortByCreateSorted(s: seq<KeyMetadata>)
    ensures SortedByCreate(SortByCreate(s))
  {
    if s != [] {
      SortByCreateSorted(s[..|s| - 1]);
      InsertStableSorted(SortByCreate(s[..|s| - 1]), s[|s| - 1]);
    }
  }

  /** The sorted listing holds exactly the listed keys. */
  lemma {:induction false} SortByCreatePermutes(s: seq<KeyMetadata>)
    ensures multiset(SortByCreate(s)) == multiset(s)
  {
    if s != [] {
      var init := s[..|s| - 1];
      SortByCreatePermutes(init);
      InsertStablePermutes(SortByCreate(init), s[|s| - 1]);
      assert s == init + [s[|s| - 1]];
    }
  }

  /** The sort is stable: keys with equal creation dates keep their listing order. */
  lemma {:induction false} SortByCreateStable(s: seq<KeyMetadata>, d: int)
    ensures CreatedAt(SortByCreate(s), d) == CreatedAt(s, d)
  {
    if s != [] {
      SortByCreateStable(s[..|s| - 1], d);
      InsertStableKeepsDateOrder(SortByCreate(s[..|s| - 1]), s[|s| - 1], d);
    }
  }

  lemma {:induction false} CreatedAtMembers(s: seq<KeyMetadata>, d: int, z: KeyMetadata)
    ensures z in CreatedAt(s, d) <==> z in s && z.createDate == d
  {
    if s != [] {
      var init := s[..|s| - 1];
      CreatedAtMembers(init, d, z);
      assert s == init + [s[|s| - 1]];
    }
  }

  lemma CreatedAtSnoc(s: seq<KeyMetadata>, x: KeyMetadata, d: int)
    ensures CreatedAt(s + [x], d) == CreatedAt(s, d) + (if x.createDate == d then [x] else [])
  {
    assert (s + [x])[..|s|] == s;
  }

  /** A key of a sorted order was created no later than its last key. */
  lemma LastIsNewest(t: seq<KeyMetadata>, z: KeyMetadata)
    requires SortedByCreate(t) && z in t
    ensures z.createDate <= t[|t| - 1].createDate
  {
    var i :| 0 <= i < |t| && t[i] == z;
    if i < |t| - 1 {
      assert t[i].createDate <= t[|t| - 1].createDate;
    }
  }

  /** A key that is in the same date group of both orders is in both. */
  lemma SharedGroupMember(t: seq<KeyMetadata>, u: seq<KeyMetadata>, z: KeyMetadata)
    requires z in t && CreatedAt(t, z.createDate) == CreatedAt(u, z.createDate)
    ensures z in u
  {
    CreatedAtMembers(t, z.createDate, z);
    CreatedAtMembers(u, z.createDate, z);
  }

  /** Two sorted orders with equal date groups end with keys of the same date. */
  lemma SameGroupsSameLastDate(t: seq<KeyMetadata>, u: seq<KeyMetadata>)
    requires t != [] && SortedByCreate(t) && SortedByCreate(u)
    requires forall d :: CreatedAt(t, d) == CreatedAt(u, d)
    ensures u != [] && t[|t| - 1].createDate == u[|u| - 1].createDate
  {
    var x := t[|t| - 1];
    assert CreatedAt(t, x.createDate) == CreatedAt(u, x.createDate);
    SharedGroupMember(t, u, x);
    var y := u[|u| - 1];
    assert CreatedAt(u, y.createDate) == CreatedAt(t, y.createDate);
    SharedGroupMember(u, t, y);
    LastIsNewest(u, x);
    LastIsNewest(t, y);
  }

  /** Two orders whose last keys share a date and whose groups of that date are equal end with the same key. */
  lemma SameGroupSameLast(t: seq<KeyMetadata>, u: seq<KeyMetadata>)
    requires t != [] && u != [] && t[|t| - 1].createDate == u[|u| - 1].createDate
    requires CreatedAt(t, t[|t| - 1].createDate) == CreatedAt(u, t[|t| - 1].createDate)
    ensures t[|t| - 1] == u[|u| - 1]
  {
  }

  /** Dropping the same last key from two orders keeps their date groups equal. */
  lemma SameGroupsWithoutLast(t': seq<KeyMetadata>, u': seq<KeyMetadata>, x: KeyMetadata)
    requires forall d :: CreatedAt(t' + [x], d) == CreatedAt(u' + [x], d)
    ensures forall d :: CreatedAt(t', d) == CreatedAt(u', d)
  {
    forall d
      ensures CreatedAt(t', d) == CreatedAt(u', d)
    {
      CreatedAtSnoc(t', x, d);
      CreatedAtSnoc(u', x, d);
      assert CreatedAt(t' + [x], d) == CreatedAt(u' + [x], d);
      var ct, cu := CreatedAt(t', d), CreatedAt(u', d);
      if x.createDate == d {
        assert ct == (ct + [x])[..|ct|];
        assert cu == (cu + [x])[..|cu|];
      } else {
        assert ct + [] == ct && cu + [] == cu;
      }
    }
  }

  /** A non-empty sequence is its front followed by its last element. */
  lemma SplitLast(t: seq<KeyMetadata>)
    requires t != []
    ensures t == t[..|t| - 1] + [t[|t| - 1]]
  {
  }

  /** Dropping the last key of a sorted order leaves it sorted. */
  lemma SortedInit(t: seq<KeyMetadata>)
    requires t != [] && SortedByCreate(t)
    ensures SortedByCreate(t[..|t| - 1])
  {
  }

  /** Two orders of the same keys that are both sorted and both keep every date group in one order are equal. */
  lemma {:induction false} SortedWithSameGroupsAreEqual(t: seq<KeyMetadata>, u: seq<KeyMetadata>)
    requires SortedByCreate(t) && SortedByCreate(u)
    requires forall d :: CreatedAt(t, d) == CreatedAt(u, d)
    ensures t == u
    decreases |t|
  {
    if t == [] {
      if u != [] {
        SameGroupsSameLastDate(u, t);
      }
    } else {
      SameGroupsSameLastDate(t, u);
      SameGroupSameLast(t, u);
      var x := t[|t| - 1];
      var t', u' := t[..|t| - 1], u[..|u| - 1];
      SplitLast(t);
      SplitLast(u);
      SameGroupsWithoutLast(t', u', x);
      SortedInit(t);
      SortedInit(u);
      SortedWithSameGroupsAreEqual(t', u');
    }
  }

  /**
   * SortByCreate is the only stable ascending order of a listing: any order of it that
   * is sorted by creation date and keeps every date group in listing order equals it.
   */
  lemma SortByCreateIsTheStableOrder(s: seq<KeyMetadata>, t: seq<KeyMetadata>)
    requires SortedByCreate(t)
    requires forall d :: CreatedAt(t, d) == CreatedAt(s, d)
    ensures t == SortByCreate(s)
  {
    SortByCreateSorted(s);
    forall d
      ensures CreatedAt(t, d) == CreatedAt(SortByCreate(s), d)
    {
      SortByCreateStable(s, d);
    }
    SortedWithSameGroupsAreEqual(t, SortByCreate(s));
  }

  /** The position of the oldest key in the listing; on a tie, the first of them in listing order. */
  function OldestIndex(s: seq<KeyMetadata>): (k: nat)
    requires |s| > 0
    ensures k < |s|
    ensures forall i :: 0 <= i < |s| ==> s[k].createDate <= s[i].createDate
    ensures forall i :: 0 <= i < k ==> s[k].createDate < s[i].createDate
  {
    if |s| == 1 then 0
    else
      var k := OldestIndex(s[..|s| - 1]);
      if CreatedBefore(s[|s| - 1], s[k]) then |s| - 1 else k
  }

  lemma {:induction false} InsertStableHead(sorted: seq<KeyMetadata>, x: KeyMetadata)
    requires sorted != [] && SortedByCreate(sorted)
    ensures InsertStable(sorted, x)[0] == if CreatedBefore(x, sorted[0]) then x else sorted[0]
    decreases |sorted|
  {
    if CreatedBefore(x, sorted[|sorted| - 1]) && |sorted| > 1 {
      InsertStableHead(sorted[..|sorted| - 1], x);
    }
  }

  /** The key at index 0 after the sort is the oldest listed key, the first one listed on a tie. */
  lemma {:induction false} SortedHeadIsOldest(s: seq<KeyMetadata>)
    requires |s| > 0
    ensures SortByCreate(s)[0] == s[OldestIndex(s)]
  {
    if |s| > 1 {
      var init := s[..|s| - 1];
      SortedHeadIsOldest(init);
      SortByCreateSorted(init);
      InsertStableHead(SortByCreate(init), s[|s| - 1]);
    }
  }

  /** For a listing of two keys: the older one comes first, and on a tie the listing order stays. */
  lemma SortTwo(a: KeyMetadata, b: KeyMetadata)
    ensures SortByCreate([a, b]) == if CreatedBefore(b, a) then [b, a] else [a, b]
  {
    assert [a, b][..1] == [a];
    assert [a][..0] == [];
    assert SortByCreate([a]) == [a];
    if CreatedBefore(b, a) {
      assert InsertStable([a], b) == InsertStable([], b) + [a];
    }
  }

  /**
   * Sorts the listing in place, as sort.SliceStable does with CreateDate.Before:
   * one insertion sort, each new element swapped left while it was created strictly
   * before its left neighbour.
   */
  method SortStable(a: array<KeyMetadata>)
    modifies a
    ensures a[..] == SortByCreate(old(a[..]))
  {
    ghost var input := a[..];
    SortEnds(input);
    var i := 0;
    while i < a.Length
      invariant 0 <= i <= a.Length
      invariant a[..] == SortByCreate(input[..i]) + input[i..]
    {
      ghost var before := a[..];
      InsertLast(a, i);
      SortStep(input, i, before, a[..]);
      i := i + 1;
    }
  }

  /** Before the first pass nothing is sorted yet; after the last one everything is. */
  lemma SortEnds(input: seq<KeyMetadata>)
    ensures input == SortByCreate(input[..0]) + input[0..]
    ensures SortByCreate(input[..|input|]) + input[|input|..] == SortByCreate(input)
  {
    assert input[..0] == [] && input[0..] == input;
    assert input[..|input|] == input && input[|input|..] == [];
  }

  /** One insertion pass on the array extends the sorted prefix by the next listed key. */
  lemma SortStep(input: seq<KeyMetadata>, i: nat, before: seq<KeyMetadata>, after: seq<KeyMetadata>)
    requires i < |input|
    requires before == SortByCreate(input[..i]) + input[i..]
    requires after == InsertStable(before[..i], before[i]) + before[i + 1..]
    ensures after == SortByCreate(input[..i + 1]) + input[i + 1..]
  {
    var sorted := SortByCreate(input[..i]);
    assert before[..i] == sorted;
    assert before[i] == input[i];
    assert before[i + 1..] == input[i + 1..];
    assert input[..i + 1][..i] == input[..i];
  }

  /** One pass of insertion sort: a[i] moves left into the sorted prefix a[..i]. */
  method InsertLast(a: array<KeyMetadata>, i: nat)
    requires i < a.Length
    modifies a
    ensures a[..] == InsertStable(old(a[..i]), old(a[i])) + old(a[i + 1..])
  {
    ghost var prefix := a[..i];
    ghost var x := a[i];
    var j := i;
    while j > 0 && CreatedBefore(a[j], a[j - 1])
      invariant 0 <= j <= i
      invariant a[j] == x
      invariant forall k :: 0 <= k < j ==> a[k] == prefix[k]
      invariant forall k :: j < k <= i ==> a[k] == prefix[k - 1]
      invariant forall k :: i < k < a.Length ==> a[k] == old(a[k])
      invariant forall k :: j <= k < i ==> CreatedBefore(x, prefix[k])
    {
      a[j - 1], a[j] := a[j], a[j - 1];
      j := j - 1;
    }
    InsertStableAt(prefix, x, j);
    InsertedAt(a[..], old(a[..]), prefix, x, j);
  }

  /**
   * The array after one insertion pass, read as a sequence: the prefix with x at
   * position j, followed by the untouched rest.
   */
  lemma InsertedAt(s: seq<KeyMetadata>, s0: seq<KeyMetadata>, prefix: seq<KeyMetadata>, x: KeyMetadata, j: nat)
    requires j <= |prefix| < |s| == |s0|
    requires s[j] == x
    requires forall k :: 0 <= k < j ==> s[k] == prefix[k]
    requires forall k :: j < k <= |prefix| ==> s[k] == prefix[k - 1]
    requires forall k :: |prefix| < k < |s| ==> s[k] == s0[k]
    ensures s == prefix[..j] + [x] + prefix[j..] + s0[|prefix| + 1..]
  {
    var done := prefix[..j] + [x] + prefix[j..] + s0[|prefix| + 1..];
    forall k | 0 <= k < |s|
      ensures s[k] == done[k]
    {
      if k < j {
        assert done[k] == prefix[k];
      } else if j < k <= |prefix| {
        assert done[k] == prefix[k - 1];
      } else if k > |prefix| {
        assert done[k] == s0[k];
      }
    }
  }

  /**
   * Where one insertion pass stops: x goes right after the last key it was not
   * created strictly before, when every key from there on was created strictly after it.
   */
  lemma {:induction false} InsertStableAt(prefix: seq<KeyMetadata>, x: KeyMetadata, j: nat)
    requires j <= |prefix|
    requires j == 0 || !CreatedBefore(x, prefix[j - 1])
    requires forall k :: j <= k < |prefix| ==> CreatedBefore(x, prefix[k])
    ensures InsertStable(prefix, x) == prefix[..j] + [x] + prefix[j..]
    decreases |prefix|
  {
    if j == |prefix| {
      assert prefix[..j] == prefix && prefix[j..] == [];
    } else {
      var init, last := prefix[..|prefix| - 1], prefix[|prefix| - 1];
      assert CreatedBefore(x, last);
      assert InsertStable(prefix, x) == InsertStable(init, x) + [last];
      forall k | j <= k < |init|
        ensures CreatedBefore(x, init[k])
      {
        assert init[k] == prefix[k];
      }
      assert j == 0 || init[j - 1] == prefix[j - 1];
      InsertStableAt(init, x, j);
      assert init[..j] == prefix[..j];
      assert init[j..] + [last] == prefix[j..];
      assert init[..j] + [x] + init[j..] + [last] == prefix[..j] + [x] + (init[j..] + [last]);
    }
  }

  /** The keys left after DeleteAccessKey removes the key with the given id. */
  function Without(keys: seq<KeyMetadata>, id: string): (r: seq<KeyMetadata>)
    ensures forall k :: k in r <==> k in keys && k.accessKeyId != id
    ensures |r| <= |keys|
  {
    if keys == [] then []
    else Without(keys[..|keys| - 1], id) + (if keys[|keys| - 1].accessKeyId == id then [] else [keys[|keys| - 1]])
  }

  /** IAM access key ids are unique. */
  ghost predicate UniqueIds(keys: seq<KeyMetadata>) {
    forall i, j :: 0 <= i < j < |keys| ==> keys[i].accessKeyId != keys[j].accessKeyId
  }
}
