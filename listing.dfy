/**
 * What the read-side pages share: the property card projection (the `select` of the
 * search and home pages followed by their `?? null` post-processing) and the ordering
 * `orderBy: { createdAt: 'desc' }`, realised as an insertion sort.
 */
module Listing {
  import opened Wrappers
  import opened Records

  /** The fields a property card shows. */
  datatype Card = Card(
    id: string,
    slug: string,
    title: string,
    address: string,
    price: int,
    beds: Option<int>,
    baths: Option<int>,
    area: Option<int>,
    imageUrl: Option<string>,
    propertyType: Option<string>)

  /** The projection of a row onto a card. Optional columns are already `None` when
      missing, so the `?? null` step keeps every value as it is. */
  function ToCard(p: Property): (c: Card)
    ensures c.id == p.id && c.slug == p.slug && c.title == p.title && c.address == p.address
    ensures c.price == p.price && c.beds == p.beds && c.baths == p.baths && c.area == p.area
    ensures c.imageUrl == p.imageUrl && c.propertyType == p.propertyType
  {
    Card(p.id, p.slug, p.title, p.address, p.price, p.beds, p.baths, p.area, p.imageUrl, p.propertyType)
  }

  function Cards(ps: seq<Property>): (cs: seq<Card>)
    ensures |cs| == |ps|
    ensures forall i :: 0 <= i < |ps| ==> cs[i] == ToCard(ps[i])
  {
    seq(|ps|, i requires 0 <= i < |ps| => ToCard(ps[i]))
  }

  /** `where`: the rows that satisfy `keep`, in their order, each as often as in `rows`. */
  function Filter(rows: seq<Property>, keep: Property -> bool): (r: seq<Property>)
    ensures forall p :: multiset(r)[p] == if keep(p) then multiset(rows)[p] else 0
    ensures forall p :: p in r <==> p in rows && keep(p)
  {
    if rows == [] then []
    else
      assert rows == [rows[0]] + rows[1..];
      (if keep(rows[0]) then [rows[0]] else []) + Filter(rows[1..], keep)
  }

  /** Every row is at least as recent as every row after it. */
  predicate NewestFirstOrdered(s: seq<Property>) {
    forall i, j :: 0 <= i < j < |s| ==> s[i].createdAt >= s[j].createdAt
  }

  function InsertNewest(p: Property, s: seq<Property>): (r: seq<Property>)
    requires NewestFirstOrdered(s)
    ensures NewestFirstOrdered(r)
    ensures multiset(r) == multiset(s) + multiset{p}
    ensures |r| == |s| + 1
  {
    if s == [] || p.createdAt >= s[0].createdAt then
      PrependOrdered(p, s);
      [p] + s
    else
      var rest := InsertNewest(p, s[1..]);
      assert s == [s[0]] + s[1..];
      NoneNewer(rest, s[1..], p, s[0].createdAt);
      PrependOrdered(s[0], rest);
      [s[0]] + rest
  }

  /** A row at least as recent as the head of an ordered list can go in front of it. */
  lemma PrependOrdered(x: Property, s: seq<Property>)
    requires NewestFirstOrdered(s)
    requires forall j :: 0 <= j < |s| ==> s[j].createdAt <= x.createdAt
    ensures NewestFirstOrdered([x] + s)
  {
    var r := [x] + s;
    forall i, j | 0 <= i < j < |r| ensures r[i].createdAt >= r[j].createdAt {
      if i > 0 {
        assert r[i] == s[i - 1] && r[j] == s[j - 1];
      }
    }
  }

  /** When `r` holds the rows of an ordered `t` plus `p`, and neither `p` nor the head
      of `t` is newer than `c`, no row of `r` is newer than `c`. */
  lemma NoneNewer(r: seq<Property>, t: seq<Property>, p: Property, c: int)
    requires NewestFirstOrdered(t)
    requires multiset(r) == multiset(t) + multiset{p}
    requires p.createdAt <= c && (t != [] ==> t[0].createdAt <= c)
    ensures forall j :: 0 <= j < |r| ==> r[j].createdAt <= c
  {
    forall j | 0 <= j < |r| ensures r[j].createdAt <= c {
      assert r[j] in multiset(r);
      if r[j] != p {
        assert r[j] in multiset(t);
        var k :| 0 <= k < |t| && t[k] == r[j];
      }
    }
  }

  /** `orderBy: { createdAt: 'desc' }`: the same rows, most recent first. */
  function NewestFirst(s: seq<Property>): (r: seq<Property>)
    ensures NewestFirstOrdered(r)
    ensures multiset(r) == multiset(s)
    ensures |r| == |s|
  {
    if s == [] then []
    else
      assert s == [s[0]] + s[1..];
      InsertNewest(s[0], NewestFirst(s[1..]))
  }

  /** `s` lists the rows of `t`, each as often as in `t`, most recent first (rows with
      equal timestamps in any order). */
  predicate IsNewestFirstOf(s: seq<Property>, t: seq<Property>) {
    NewestFirstOrdered(s) && multiset(s) == multiset(t)
  }

  /** `take: n`: the first `n` rows, or all of them when there are fewer. */
  function Take<T>(s: seq<T>, n: nat): (r: seq<T>)
    ensures |r| == if |s| < n then |s| else n
    ensures r == s[..|r|]
  {
    if |s| <= n then s else s[..n]
  }
}
