/** `encodeAsFib`: the greedy decomposition of a small number into site sizes. */
module Encoding {
  import opened Sites

  // ---------------------------------------------------------------------------
  // The traversal order: the table's entries, sorted, then reversed.
  // ---------------------------------------------------------------------------

  /** The comparator as written. It reads `sequenceIndex` on an `[key, site]`
      entry pair, where that property is undefined, so the difference is NaN;
      the ECMAScript sort reads a NaN comparison as +0 ("equal"). */
  function AsWrittenCompare(x: Site, y: Site): (c: int)
    ensures c == 0
  {
    0
  }

  /** The comparator the sort call evidently means: by sequence index. */
  function SequenceIndexCompare(x: Site, y: Site): (c: int)
    ensures c < 0 <==> x.sequenceIndex < y.sequenceIndex
    ensures c == 0 <==> x.sequenceIndex == y.sequenceIndex
    ensures c > 0 <==> x.sequenceIndex > y.sequenceIndex
  {
    x.sequenceIndex - y.sequenceIndex
  }

  /** Inserts `x` into `s` before the first element it does not compare
      greater than; elements of `s` that compare equal to `x` stay after it. */
  function Insert(x: Site, s: seq<Site>, cmp: (Site, Site) -> int): (r: seq<Site>)
    ensures multiset(r) == multiset(s) + multiset{x}
  {
    if s == [] || cmp(x, s[0]) <= 0 then [x] + s
    else
      assert s == [s[0]] + s[1..];
      [s[0]] + Insert(x, s[1..], cmp)
  }

  /** A stable sort by `cmp` (insertion sort). The ECMAScript sort is required
      to be stable, and every stable sort by the same comparator returns the
      same list. */
  function StableSort(s: seq<Site>, cmp: (Site, Site) -> int): (r: seq<Site>)
    ensures multiset(r) == multiset(s)
  {
    if s == [] then []
    else
      assert s == [s[0]] + s[1..];
      Insert(s[0], StableSort(s[1..], cmp), cmp)
  }

  /** The list in the opposite order. */
  function Reverse(s: seq<Site>): (r: seq<Site>)
    ensures |r| == |s|
    ensures forall i :: 0 <= i < |s| ==> r[i] == s[|s| - 1 - i]
  {
    if s == [] then [] else Reverse(s[1..]) + [s[0]]
  }

  /** A list that `cmp` already finds in order is returned unchanged by the sort. */
  lemma {:induction false} SortOfOrdered(s: seq<Site>, cmp: (Site, Site) -> int)
    requires forall i, j :: 0 <= i < j < |s| ==> cmp(s[i], s[j]) <= 0
    ensures StableSort(s, cmp) == s
  {
    if s != [] {
      SortOfOrdered(s[1..], cmp);
      if |s| > 1 {
        assert cmp(s[0], s[1]) <= 0;
      }
    }
  }

  /** `cmp` orders sites as a total preorder: any two sites compare one way or
      the other, and "not after" is transitive. */
  ghost predicate TotalPreorder(cmp: (Site, Site) -> int)
  {
    (forall x, y :: cmp(x, y) <= 0 || cmp(y, x) <= 0) &&
    (forall x, y, z :: cmp(x, y) <= 0 && cmp(y, z) <= 0 ==> cmp(x, z) <= 0)
  }

  /** No site of the list comes after a later one, by `cmp`. */
  ghost predicate SortedBy(s: seq<Site>, cmp: (Site, Site) -> int)
  {
    forall i, j :: 0 <= i < j < |s| ==> cmp(s[i], s[j]) <= 0
  }

  /** A site that comes before every element of a sorted list may be put in
      front of it. */
  lemma PrependSorted(x: Site, s: seq<Site>, cmp: (Site, Site) -> int)
    requires SortedBy(s, cmp)
    requires forall k :: 0 <= k < |s| ==> cmp(x, s[k]) <= 0
    ensures SortedBy([x] + s, cmp)
  {
    var r := [x] + s;
    forall i, j | 0 <= i < j < |r| ensures cmp(r[i], r[j]) <= 0 {
      if i == 0 {
        assert r[j] == s[j - 1];
      } else {
        assert r[i] == s[i - 1] && r[j] == s[j - 1];
      }
    }
  }

  /** Inserting into a sorted list keeps it sorted. */
  lemma {:induction false} InsertSorted(x: Site, s: seq<Site>, cmp: (Site, Site) -> int)
    requires TotalPreorder(cmp)
    requires SortedBy(s, cmp)
    ensures SortedBy(Insert(x, s, cmp), cmp)
  {
    if s == [] || cmp(x, s[0]) <= 0 {
      forall k | 0 <= k < |s| ensures cmp(x, s[k]) <= 0 {
        assert cmp(s[0], s[k]) <= 0 || k == 0;
      }
      PrependSorted(x, s, cmp);
    } else {
      var t := s[1..];
      assert SortedBy(t, cmp) by {
        forall i, j | 0 <= i < j < |t| ensures cmp(t[i], t[j]) <= 0 {
          assert t[i] == s[i + 1] && t[j] == s[j + 1];
        }
      }
      InsertSorted(x, t, cmp);
      InsertAfterHead(x, s, cmp);
      PrependSorted(s[0], Insert(x, t, cmp), cmp);
    }
  }

  /** When `x` goes after the head of a sorted list, the head comes before
      every element of the rest with `x` inserted. */
  lemma InsertAfterHead(x: Site, s: seq<Site>, cmp: (Site, Site) -> int)
    requires TotalPreorder(cmp)
    requires SortedBy(s, cmp)
    requires s != [] && cmp(x, s[0]) > 0
    ensures forall k :: 0 <= k < |Insert(x, s[1..], cmp)| ==> cmp(s[0], Insert(x, s[1..], cmp)[k]) <= 0
  {
    var t := s[1..];
    var r := Insert(x, t, cmp);
    forall k | 0 <= k < |r| ensures cmp(s[0], r[k]) <= 0 {
      assert r[k] in multiset(r);
      if r[k] != x {
        assert r[k] in multiset(t);
        var m :| 0 <= m < |t| && t[m] == r[k];
        assert t[m] == s[m + 1];
      }
    }
  }

  /** The sort's result is in order by `cmp`, for any comparator that is a
      total preorder. */
  lemma {:induction false} StableSortSorted(s: seq<Site>, cmp: (Site, Site) -> int)
    requires TotalPreorder(cmp)
    ensures SortedBy(StableSort(s, cmp), cmp)
  {
    if s != [] {
      StableSortSorted(s[1..], cmp);
      InsertSorted(s[0], StableSort(s[1..], cmp), cmp);
    }
  }

  /** Both comparators of the model are total preorders, so the two lemmas
      above apply to them. */
  lemma ComparatorsArePreorders()
    ensures TotalPreorder(AsWrittenCompare)
    ensures TotalPreorder(SequenceIndexCompare)
  {
  }

  /** The elements of `s` that `cmp` ties with `e` (neither comes after the
      other), in their order in `s`. */
  function Ties(s: seq<Site>, e: Site, cmp: (Site, Site) -> int): seq<Site>
  {
    if s == [] then []
    else (if cmp(s[0], e) <= 0 && cmp(e, s[0]) <= 0 then [s[0]] else []) + Ties(s[1..], e, cmp)
  }

  /** Insertion puts `x` ahead of every element it ties with. */
  lemma {:induction false} InsertTies(x: Site, s: seq<Site>, e: Site, cmp: (Site, Site) -> int)
    requires TotalPreorder(cmp)
    ensures Ties(Insert(x, s, cmp), e, cmp)
      == (if cmp(x, e) <= 0 && cmp(e, x) <= 0 then [x] else []) + Ties(s, e, cmp)
  {
    if s != [] && cmp(x, s[0]) > 0 {
      InsertTies(x, s[1..], e, cmp);
      var r := Insert(x, s, cmp);
      assert r[0] == s[0] && r[1..] == Insert(x, s[1..], cmp);
    }
  }

  /** The sort is stable: the sites it ties with any `e` keep their order. */
  lemma {:induction false} StableSortStable(s: seq<Site>, e: Site, cmp: (Site, Site) -> int)
    requires TotalPreorder(cmp)
    ensures Ties(StableSort(s, cmp), e, cmp) == Ties(s, e, cmp)
  {
    if s != [] {
      StableSortStable(s[1..], e, cmp);
      InsertTies(s[0], StableSort(s[1..], cmp), e, cmp);
    }
  }

  /** Both comparators leave the table in declaration order: the comparator
      slip has no effect on the traversal. */
  lemma SortKeepsDeclarationOrder()
    ensures StableSort(Catalogue, AsWrittenCompare) == Catalogue
    ensures StableSort(Catalogue, SequenceIndexCompare) == Catalogue
  {
    SortOfOrdered(Catalogue, AsWrittenCompare);
    assert forall i, j :: 0 <= i < j < |Catalogue| ==> SequenceIndexCompare(Catalogue[i], Catalogue[j]) <= 0 by {
      CatalogueFacts();
    }
    SortOfOrdered(Catalogue, SequenceIndexCompare);
  }

  /** The order in which `encodeAsFib` visits the sites: e, d, c, b, a, that is
      sizes 5, 3, 2, 1, 1, with b (sequence index 2) before a (sequence index 1). */
  const Traversal: seq<Site> := [Catalogue[4], Catalogue[3], Catalogue[2], Catalogue[1], Catalogue[0]]

  /** Sorting the table's entries with the comparator as written and then
      reversing them gives exactly that order. */
  lemma SortedThenReversed()
    ensures Reverse(StableSort(Catalogue, AsWrittenCompare)) == Traversal
  {
    SortKeepsDeclarationOrder();
    ReversedTable();
  }

  /** The table reversed, entry by entry. */
  lemma ReversedTable()
    ensures Reverse(Catalogue) == Traversal
  {
  }

  /** What the rest of the model uses about the traversal: keys e, d, c, b, a,
      all from the table, sizes summing to 12, falling sequence indices, and no
      gaps (each size at most one more than the sizes after it). */
  lemma TraversalFacts()
    ensures Keys(Traversal) == [E, D, C, B, A]
    ensures FromCatalogue(Traversal)
    ensures TotalSize(Traversal) == 12
    ensures forall i, j :: 0 <= i < j < |Traversal| ==> Traversal[i].sequenceIndex > Traversal[j].sequenceIndex
    ensures Complete(Traversal)
  {
    var t := [Site(E, 3, 0, 5, 5), Site(D, 0, 2, 3, 4), Site(C, 0, 0, 2, 3), Site(B, 2, 0, 1, 2), Site(A, 2, 1, 1, 1)];
    assert Traversal == t;
    assert Keys(t) == [E, D, C, B, A];
    assert TotalSize(t) == 12;
    assert Complete(t) by {
      assert TotalSize(t[1..]) == 7 && TotalSize(t[2..]) == 4 && TotalSize(t[3..]) == 2;
      assert TotalSize(t[4..]) == 1 && TotalSize(t[5..]) == 0;
    }
  }

  // ---------------------------------------------------------------------------
  // The greedy pass, as a specification.
  // ---------------------------------------------------------------------------

  /** The keys one greedy pass of `value` over `sites` records: a site is taken
      when what is left of the value is at least its size. */
  function Greedy(value: nat, sites: seq<Site>): (picked: seq<SiteKey>)
    ensures |picked| <= |sites|
    ensures forall k :: k in picked ==> k in Keys(sites)
  {
    if sites == [] then []
    else if value >= sites[0].size then [sites[0].key] + Greedy(value - sites[0].size, sites[1..])
    else Greedy(value, sites[1..])
  }

  /** What is left of `value` after that pass. */
  function Residual(value: nat, sites: seq<Site>): (rest: nat)
    ensures rest <= value
  {
    if sites == [] then value
    else if value >= sites[0].size then Residual(value - sites[0].size, sites[1..])
    else Residual(value, sites[1..])
  }

  /** The `reduce` at the heart of `encodeAsFib`: one pass over `sites` that
      subtracts each size that still fits and records that site's key. `rest`
      is what is left of the value at the end. */
  method GreedyPass(value: nat, sites: seq<Site>) returns (encoded: seq<SiteKey>, rest: nat)
    ensures encoded == Greedy(value, sites)
    ensures rest == Residual(value, sites)
  {
    rest := value;
    encoded := [];
    for i := 0 to |sites|
      invariant encoded + Greedy(rest, sites[i..]) == Greedy(value, sites)
      invariant Residual(rest, sites[i..]) == Residual(value, sites)
    {
      assert sites[i..][1..] == sites[i + 1..];
      if rest >= sites[i].size {
        rest := rest - sites[i].size;
        encoded := encoded + [sites[i].key];
      }
    }
    assert sites[|sites|..] == [];
  }

  /** `encodeAsFib`: sort the table's entries, reverse them, and run the pass. */
  method EncodeAsFib(value: nat) returns (encoded: seq<SiteKey>)
    ensures encoded == Greedy(value, Traversal)
    ensures value <= 12 ==> SumSizes(encoded) == value
    ensures Distinct(encoded)
  {
    var sites := Reverse(StableSort(Catalogue, AsWrittenCompare));
    var rest;
    encoded, rest := GreedyPass(value, sites);
    SortedThenReversed();
    if value <= 12 {
      EncodeExact(value);
    }
    EncodeOrdered(value);
  }

  // ---------------------------------------------------------------------------
  // Properties of the pass.
  // ---------------------------------------------------------------------------

  /** The residual after one more site follows from the residual before it. */
  lemma {:induction false} ResidualExtend(value: nat, sites: seq<Site>, i: nat)
    requires i < |sites|
    ensures var before := Residual(value, sites[..i]);
      Residual(value, sites[..i + 1]) == if before >= sites[i].size then before - sites[i].size else before
  {
    if i > 0 {
      assert sites[..i + 1][1..] == sites[1..][..i];
      assert sites[..i][1..] == sites[1..][..i - 1];
      var v' := if value >= sites[0].size then value - sites[0].size else value;
      ResidualExtend(v', sites[1..], i - 1);
    }
  }

  /** Nothing is lost: the sizes of the picked sites and the residual add up to the value. */
  lemma {:induction false} GreedyConserves(value: nat, sites: seq<Site>)
    requires FromCatalogue(sites)
    ensures SumSizes(Greedy(value, sites)) + Residual(value, sites) == value
  {
    if sites != [] {
      LookupUnique(sites[0]);
      if value >= sites[0].size {
        GreedyConserves(value - sites[0].size, sites[1..]);
        assert Greedy(value, sites)[1..] == Greedy(value - sites[0].size, sites[1..]);
      } else {
        GreedyConserves(value, sites[1..]);
      }
    }
  }

  /** No gaps: each size is at most one more than the sizes after it. */
  ghost predicate Complete(sites: seq<Site>)
  {
    forall i :: 0 <= i < |sites| ==> sites[i].size <= 1 + TotalSize(sites[i + 1..])
  }

  /** Over a list without gaps, every value up to the total leaves no residual. */
  lemma {:induction false} ExactUpToTotal(value: nat, sites: seq<Site>)
    requires Complete(sites)
    requires value <= TotalSize(sites)
    ensures Residual(value, sites) == 0
  {
    if sites != [] {
      assert sites[0 + 1..] == sites[1..];
      assert Complete(sites[1..]) by {
        forall i | 0 <= i < |sites[1..]|
          ensures sites[1..][i].size <= 1 + TotalSize(sites[1..][i + 1..])
        {
          assert sites[1..][i + 1..] == sites[i + 2..];
        }
      }
      if value >= sites[0].size {
        ExactUpToTotal(value - sites[0].size, sites[1..]);
      } else {
        ExactUpToTotal(value, sites[1..]);
      }
    }
  }

  /** A value at least the total takes every site and keeps the excess, without error. */
  lemma {:induction false} SaturatesAboveTotal(value: nat, sites: seq<Site>)
    requires value >= TotalSize(sites)
    ensures Greedy(value, sites) == Keys(sites)
    ensures Residual(value, sites) == value - TotalSize(sites)
  {
    if sites != [] {
      SaturatesAboveTotal(value - sites[0].size, sites[1..]);
    }
  }

  /** For every value the clock feeds it (0 to 12), the picked sizes sum exactly
      to the value and nothing is left over. */
  lemma EncodeExact(value: nat)
    requires value <= 12
    ensures SumSizes(Greedy(value, Traversal)) == value
    ensures Residual(value, Traversal) == 0
  {
    TraversalFacts();
    ExactUpToTotal(value, Traversal);
    GreedyConserves(value, Traversal);
  }

  /** Values of 12 or more take all five sites and leave `value - 12` unreported. */
  lemma EncodeSaturates(value: nat)
    requires value >= 12
    ensures Greedy(value, Traversal) == [E, D, C, B, A]
    ensures Residual(value, Traversal) == value - 12
  {
    TraversalFacts();
    SaturatesAboveTotal(value, Traversal);
  }

  /** `sub` can be obtained from `keys` by deleting elements. */
  ghost predicate IsSubsequence(sub: seq<SiteKey>, keys: seq<SiteKey>)
  {
    sub == [] ||
    (keys != [] &&
      ((sub[0] == keys[0] && IsSubsequence(sub[1..], keys[1..])) || IsSubsequence(sub, keys[1..])))
  }

  /** The pass records keys in the order it visits the sites, skipping some:
      what it returns is a subsequence of the visited keys. */
  lemma {:induction false} GreedyIsSubsequence(value: nat, sites: seq<Site>)
    ensures IsSubsequence(Greedy(value, sites), Keys(sites))
  {
    if sites != [] {
      assert Keys(sites)[1..] == Keys(sites[1..]);
      if value >= sites[0].size {
        GreedyIsSubsequence(value - sites[0].size, sites[1..]);
        assert Greedy(value, sites)[1..] == Greedy(value - sites[0].size, sites[1..]);
      } else {
        GreedyIsSubsequence(value, sites[1..]);
      }
    }
  }

  /** A subsequence of a list without repeats has no repeats either. */
  lemma {:induction false} SubsequenceOfDistinct(sub: seq<SiteKey>, keys: seq<SiteKey>)
    requires IsSubsequence(sub, keys)
    requires Distinct(keys)
    ensures Distinct(sub)
    ensures forall k :: k in sub ==> k in keys
  {
    if sub != [] {
      assert Distinct(keys[1..]) by {
        forall i, j | 0 <= i < j < |keys[1..]| ensures keys[1..][i] != keys[1..][j] {
          assert keys[1..][i] == keys[i + 1] && keys[1..][j] == keys[j + 1];
        }
      }
      if sub[0] == keys[0] && IsSubsequence(sub[1..], keys[1..]) {
        SubsequenceOfDistinct(sub[1..], keys[1..]);
        forall j | 0 < j < |sub| ensures sub[0] != sub[j] {
          assert sub[j] == sub[1..][j - 1];
          assert sub[j] in keys[1..];
          var m :| 0 <= m < |keys[1..]| && keys[1..][m] == sub[j];
          assert keys[m + 1] == sub[j];
        }
        forall k | k in sub ensures k in keys {
          if k != sub[0] {
            assert k in sub[1..];
          }
        }
        forall i, j | 0 <= i < j < |sub| ensures sub[i] != sub[j] {
          if i > 0 {
            assert sub[i] == sub[1..][i - 1] && sub[j] == sub[1..][j - 1];
          }
        }
      } else {
        SubsequenceOfDistinct(sub, keys[1..]);
      }
    }
  }

  /** The encoding lists keys in traversal order e, d, c, b, a, each at most once. */
  lemma EncodeOrdered(value: nat)
    ensures IsSubsequence(Greedy(value, Traversal), [E, D, C, B, A])
    ensures Distinct(Greedy(value, Traversal))
  {
    TraversalFacts();
    GreedyIsSubsequence(value, Traversal);
    CatalogueFacts();
    assert Distinct([E, D, C, B, A]);
    SubsequenceOfDistinct(Greedy(value, Traversal), [E, D, C, B, A]);
  }

  /** A site is picked exactly when what is left of the value on reaching it is
      at least its size. */
  lemma {:induction false} PickedIffFits(value: nat, sites: seq<Site>, i: nat)
    requires Distinct(Keys(sites))
    requires i < |sites|
    ensures sites[i].key in Greedy(value, sites) <==> Residual(value, sites[..i]) >= sites[i].size
  {
    var v' := if value >= sites[0].size then value - sites[0].size else value;
    var head := if value >= sites[0].size then [sites[0].key] else [];
    assert Greedy(value, sites) == head + Greedy(v', sites[1..]);
    assert Keys(sites)[1..] == Keys(sites[1..]);
    if i == 0 {
      assert sites[0].key !in Keys(sites[1..]);
    } else {
      assert Keys(sites)[0] != Keys(sites)[i];
      assert sites[i].key in Greedy(value, sites) <==> sites[i].key in Greedy(v', sites[1..]);
      assert sites[..i][1..] == sites[1..][..i - 1];
      assert Residual(value, sites[..i]) == Residual(v', sites[1..][..i - 1]);
      assert sites[1..][i - 1] == sites[i];
      PickedIffFits(v', sites[1..], i - 1);
    }
  }

  /** Of two neighbouring sites of equal size, the later is picked only if the
      earlier one was. */
  lemma TieGoesToEarlier(value: nat, sites: seq<Site>, i: nat)
    requires Distinct(Keys(sites))
    requires i + 1 < |sites|
    requires sites[i].size == sites[i + 1].size
    ensures sites[i + 1].key in Greedy(value, sites) ==> sites[i].key in Greedy(value, sites)
  {
    PickedIffFits(value, sites, i);
    PickedIffFits(value, sites, i + 1);
    ResidualExtend(value, sites, i);
  }

  /** The tie between the two size-1 sites goes to b: a is picked only after b. */
  lemma BBeforeA(value: nat)
    ensures A in Greedy(value, Traversal) ==> B in Greedy(value, Traversal)
  {
    TraversalFacts();
    TieGoesToEarlier(value, Traversal, 3);
  }

  /** Sample encodings: 0, 1, 4, 6 and 12. */
  lemma EncodeExamples()
    ensures Greedy(0, Traversal) == []
    ensures Greedy(1, Traversal) == [B]
    ensures Greedy(4, Traversal) == [D, B]
    ensures Greedy(6, Traversal) == [E, B]
    ensures Greedy(12, Traversal) == [E, D, C, B, A]
  {
    var t := [Site(E, 3, 0, 5, 5), Site(D, 0, 2, 3, 4), Site(C, 0, 0, 2, 3), Site(B, 2, 0, 1, 2), Site(A, 2, 1, 1, 1)];
    assert Traversal == t;
    assert Greedy(0, t) == [];
    assert Greedy(1, t) == [B];
    assert Greedy(4, t) == [D, B];
    assert Greedy(6, t) == [E, B];
    assert Greedy(12, t) == [E, D, C, B, A];
  }
}
