/** The static table of the five tiles of the Fibonacci clock face. */
module Sites {

  /** The property names `a` .. `e` of the site table. */
  datatype SiteKey = A | B | C | D | E

  /** One tile: its key, its top-left corner and side length in layout units,
      and the sequence index the table attaches to it. */
  datatype Site = Site(key: SiteKey, x: nat, y: nat, size: nat, sequenceIndex: nat)

  /** Width and height of the whole rectangle, in layout units. */
  const WidthUnits: nat := 8
  const HeightUnits: nat := 5

  /** The site table, in declaration order. */
  const Catalogue: seq<Site> := [
    Site(A, 2, 1, 1, 1),
    Site(B, 2, 0, 1, 2),
    Site(C, 0, 0, 2, 3),
    Site(D, 0, 2, 3, 4),
    Site(E, 3, 0, 5, 5)
  ]

  /** The table entry for a key. */
  function Lookup(k: SiteKey): (s: Site)
    ensures s in Catalogue && s.key == k
  {
    match k
    case A => Catalogue[0]
    case B => Catalogue[1]
    case C => Catalogue[2]
    case D => Catalogue[3]
    case E => Catalogue[4]
  }

  /** The keys of a list of sites, in the same order. */
  function Keys(sites: seq<Site>): (ks: seq<SiteKey>)
    ensures |ks| == |sites|
    ensures forall i :: 0 <= i < |sites| ==> ks[i] == sites[i].key
  {
    if sites == [] then [] else [sites[0].key] + Keys(sites[1..])
  }

  /** Sum of the sizes of a list of sites. */
  function TotalSize(sites: seq<Site>): nat
  {
    if sites == [] then 0 else sites[0].size + TotalSize(sites[1..])
  }

  /** Sum of the sizes of the sites named by a list of keys. */
  function SumSizes(keys: seq<SiteKey>): nat
  {
    if keys == [] then 0 else Lookup(keys[0]).size + SumSizes(keys[1..])
  }

  /** Sum of the sizes of the sites of the list whose key is among `keys`. */
  function Weight(keys: seq<SiteKey>, sites: seq<Site>): nat
  {
    if sites == [] then 0
    else (if sites[0].key in keys then sites[0].size else 0) + Weight(keys, sites[1..])
  }

  /** Every element of the list is an entry of the table. */
  ghost predicate FromCatalogue(sites: seq<Site>)
  {
    forall i :: 0 <= i < |sites| ==> sites[i] in Catalogue
  }

  /** No key occurs twice. */
  ghost predicate Distinct(keys: seq<SiteKey>)
  {
    forall i, j :: 0 <= i < j < |keys| ==> keys[i] != keys[j]
  }

  /** A key determines its table entry: the keys of the table are distinct. */
  lemma LookupUnique(s: Site)
    requires s in Catalogue
    ensures Lookup(s.key) == s
  {
  }

  /** The table's own facts: five distinct keys, sizes 1, 1, 2, 3, 5 summing to 12,
      and sequence indices that follow declaration order. */
  lemma CatalogueFacts()
    ensures Keys(Catalogue) == [A, B, C, D, E]
    ensures Distinct(Keys(Catalogue))
    ensures TotalSize(Catalogue) == 12
    ensures forall i, j :: 0 <= i < j < |Catalogue| ==> Catalogue[i].sequenceIndex < Catalogue[j].sequenceIndex
  {
  }

  /** Tile `s` covers the unit cell whose top-left corner is (x, y). */
  predicate Covers(s: Site, x: int, y: int)
  {
    s.x <= x < s.x + s.size && s.y <= y < s.y + s.size
  }

  /** How many sites of the list cover the unit cell (x, y). */
  function CoverCount(sites: seq<Site>, x: int, y: int): nat
  {
    if sites == [] then 0
    else (if Covers(sites[0], x, y) then 1 else 0) + CoverCount(sites[1..], x, y)
  }

  /** The five tiles lie inside the 8 by 5 rectangle and cover each of its unit
      cells exactly once: together they tile the rectangle. */
  lemma CatalogueTilesRectangle()
    ensures forall s :: s in Catalogue ==> s.x + s.size <= WidthUnits && s.y + s.size <= HeightUnits
    ensures forall x, y :: 0 <= x < WidthUnits && 0 <= y < HeightUnits ==> CoverCount(Catalogue, x, y) == 1
  {
    forall x, y | 0 <= x < WidthUnits && 0 <= y < HeightUnits
      ensures CoverCount(Catalogue, x, y) == 1
    {
      CoverCountUnfolded(x, y);
    }
  }

  /** The cover count over the table, written out site by site. */
  lemma CoverCountUnfolded(x: int, y: int)
    ensures CoverCount(Catalogue, x, y) ==
      (if Covers(Catalogue[0], x, y) then 1 else 0) + (if Covers(Catalogue[1], x, y) then 1 else 0)
      + (if Covers(Catalogue[2], x, y) then 1 else 0) + (if Covers(Catalogue[3], x, y) then 1 else 0)
      + (if Covers(Catalogue[4], x, y) then 1 else 0)
  {
    forall i | 0 <= i < 5
      ensures CoverCount(Catalogue[i..], x, y)
        == (if Covers(Catalogue[i], x, y) then 1 else 0) + CoverCount(Catalogue[i + 1..], x, y)
    {
      assert Catalogue[i..][1..] == Catalogue[i + 1..];
    }
    assert Catalogue[5..] == [];
    assert Catalogue[0..] == Catalogue;
  }

  /** Weighing two disjoint lists of keys together adds their weights. */
  lemma {:induction false} WeightSplit(k: SiteKey, rest: seq<SiteKey>, sites: seq<Site>)
    requires k !in rest
    ensures Weight([k] + rest, sites) == Weight([k], sites) + Weight(rest, sites)
  {
    if sites != [] {
      WeightSplit(k, rest, sites[1..]);
    }
  }

  /** Over the table, a key weighs its own site's size. */
  lemma WeightOfOne(k: SiteKey)
    ensures Weight([k], Catalogue) == Lookup(k).size
  {
    var t := [Site(A, 2, 1, 1, 1), Site(B, 2, 0, 1, 2), Site(C, 0, 0, 2, 3), Site(D, 0, 2, 3, 4), Site(E, 3, 0, 5, 5)];
    assert Catalogue == t;
    match k
    case A => assert Weight([A], t) == 1;
    case B => assert Weight([B], t) == 1;
    case C => assert Weight([C], t) == 2;
    case D => assert Weight([D], t) == 3;
    case E => assert Weight([E], t) == 5;
  }

  /** The table's sizes picked out by a list of distinct keys add up to the
      sizes of those keys' sites. */
  lemma {:induction false} WeightIsSum(keys: seq<SiteKey>)
    requires Distinct(keys)
    ensures Weight(keys, Catalogue) == SumSizes(keys)
  {
    if keys == [] {
      assert Weight([], Catalogue) == 0 by {
        EmptyWeighsNothing(Catalogue);
      }
    } else {
      var rest := keys[1..];
      assert keys == [keys[0]] + rest;
      assert keys[0] !in rest by {
        forall j | 0 <= j < |rest| ensures rest[j] != keys[0] {
          assert rest[j] == keys[j + 1];
        }
      }
      assert Distinct(rest) by {
        forall i, j | 0 <= i < j < |rest| ensures rest[i] != rest[j] {
          assert rest[i] == keys[i + 1] && rest[j] == keys[j + 1];
        }
      }
      WeightSplit(keys[0], rest, Catalogue);
      WeightOfOne(keys[0]);
      WeightIsSum(rest);
    }
  }

  /** No keys, no weight. */
  lemma {:induction false} EmptyWeighsNothing(sites: seq<Site>)
    ensures Weight([], sites) == 0
  {
    if sites != [] {
      EmptyWeighsNothing(sites[1..]);
    }
  }
}
