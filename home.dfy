/**
 * The home page loader: the four most recent featured properties, as cards.
 */
module Home {
  import opened Wrappers
  import opened Records
  import opened Listing

  datatype HomePage = HomePage(featuredProperties: seq<Card>, error: Option<string>)

  const LoadFailed := "Could not load featured properties."

  /** `take: 4`. */
  const ShownCount := 4

  function Min(a: nat, b: nat): nat {
    if a < b then a else b
  }

  function FeaturedOnly(rows: seq<Property>): seq<Property> {
    Filter(rows, (p: Property) => p.isFeatured)
  }

  /** A prefix of a newest-first listing is newest first, takes rows from it, and no
      row after the prefix is more recent than a row in it. */
  lemma PrefixFacts(sorted: seq<Property>, r: seq<Property>)
    requires NewestFirstOrdered(sorted) && |r| <= |sorted| && r == sorted[..|r|]
    ensures NewestFirstOrdered(r)
    ensures multiset(r) <= multiset(sorted)
    ensures forall p :: p in sorted && p !in r ==> forall i :: 0 <= i < |r| ==> r[i].createdAt >= p.createdAt
  {
    assert sorted == r + sorted[|r|..];
    assert multiset(sorted) == multiset(r) + multiset(sorted[|r|..]);
    forall p | p in sorted && p !in r
      ensures forall i :: 0 <= i < |r| ==> r[i].createdAt >= p.createdAt
    {
      var j :| 0 <= j < |sorted| && sorted[j] == p;
    }
  }

  lemma FeaturedSubset(rows: seq<Property>)
    ensures multiset(FeaturedOnly(rows)) <= multiset(rows)
    ensures forall p :: p in FeaturedOnly(rows) <==> p in rows && p.isFeatured
  {
    var featured := FeaturedOnly(rows);
    forall p ensures multiset(featured)[p] <= multiset(rows)[p] {
    }
  }

  /** The featured rows to show: as many as there are, up to four; all featured, most
      recent first; and no featured row left out is more recent than one shown. */
  function TopFeatured(rows: seq<Property>): (r: seq<Property>)
    ensures |r| == Min(ShownCount, |FeaturedOnly(rows)|)
    ensures NewestFirstOrdered(r)
    ensures forall p :: p in r ==> p.isFeatured && p in rows
    ensures multiset(r) <= multiset(rows)
    ensures forall p :: p in rows && p.isFeatured && p !in r ==>
              forall i :: 0 <= i < |r| ==> r[i].createdAt >= p.createdAt
  {
    var featured := FeaturedOnly(rows);
    var sorted := NewestFirst(featured);
    var r := Take(sorted, ShownCount);
    FeaturedSubset(rows);
    FirstOfSorted(rows, featured, sorted, r);
    r
  }

  /** The first rows of the featured rows sorted newest first. */
  lemma FirstOfSorted(rows: seq<Property>, featured: seq<Property>, sorted: seq<Property>, r: seq<Property>)
    requires multiset(featured) <= multiset(rows)
    requires forall p :: p in featured <==> p in rows && p.isFeatured
    requires NewestFirstOrdered(sorted) && multiset(sorted) == multiset(featured)
    requires |r| <= |sorted| && r == sorted[..|r|]
    ensures NewestFirstOrdered(r)
    ensures forall p :: p in r ==> p.isFeatured && p in rows
    ensures multiset(r) <= multiset(rows)
    ensures forall p :: p in rows && p.isFeatured && p !in r ==>
              forall i :: 0 <= i < |r| ==> r[i].createdAt >= p.createdAt
  {
    PrefixFacts(sorted, r);
    assert forall p :: p in sorted <==> p in featured by {
      forall p ensures p in sorted <==> p in featured {
        assert p in sorted <==> p in multiset(sorted);
      }
    }
    assert forall p :: p in r ==> p in sorted by {
      forall p | p in r ensures p in sorted {
        assert p in multiset(r);
      }
    }
  }

  /** The loader, given the table's rows in any order, or `None` when the query fails. */
  function Load(rows: Option<seq<Property>>): (page: HomePage)
    ensures rows.None? ==> page == HomePage([], Some(LoadFailed))
    ensures rows.Some? ==> page.error.None? && |page.featuredProperties| <= ShownCount
    ensures rows.Some? ==> page.featuredProperties == Cards(TopFeatured(rows.value))
  {
    if rows.None? then HomePage([], Some(LoadFailed))
    else HomePage(Cards(TopFeatured(rows.value)), None)
  }

  /** With at least four featured properties the page shows four. */
  lemma ShowsFour(rows: seq<Property>)
    requires |FeaturedOnly(rows)| >= ShownCount
    ensures |TopFeatured(rows)| == ShownCount
  {
  }

  /** A property that is not featured never appears on the home page. */
  lemma UnfeaturedHidden(rows: seq<Property>, p: Property)
    requires !p.isFeatured
    ensures p !in TopFeatured(rows)
  {
  }
}
