/**
 * The property search page loader: turns the query-string parameters into a filter,
 * runs it against the property table, and echoes the raw parameters back.
 */
module Search {
  import opened Wrappers
  import opened Text
  import opened Validation
  import opened Records
  import opened Listing

  /** The query-string parameters, `None` when absent. */
  datatype SearchQuery = SearchQuery(
    location: Option<string>,
    propertyType: Option<string>,
    minPrice: Option<string>,
    maxPrice: Option<string>)

  /** The price condition: lower and upper bounds, both inclusive. */
  datatype PriceFilter = PriceFilter(gte: Option<int>, lte: Option<int>)

  /** The filter handed to the database. `location` stands for the disjunction
      "address contains it or title contains it"; an absent field imposes nothing. */
  datatype Where = Where(location: Option<string>, propertyType: Option<string>, price: Option<PriceFilter>)

  /** The parameters as the search form shows them again. */
  datatype Criteria = Criteria(location: string, propertyType: string, minPrice: string, maxPrice: string)

  datatype SearchPage = SearchPage(properties: seq<Card>, searchCriteria: Criteria, error: Option<string>)

  const LoadFailed := "Failed to load properties \U{2013} please try again later."

  /** A text parameter: `get(name)?.trim() || ''`. */
  function Term(raw: Option<string>): (t: string)
    ensures IsTrimmed(t)
  {
    Trim(FieldText(raw))
  }

  /** A price parameter read with `parseInt(value || '0', 10)`, kept only when positive. */
  function Bound(raw: Option<string>): (b: Option<int>)
    ensures b.Some? ==> b.value > 0 && IntOrZero(raw) == b
    ensures b.None? <==> IntOrZero(raw).None? || IntOrZero(raw).value <= 0
  {
    var n := IntOrZero(raw);
    if n.Some? && n.value > 0 then n else None
  }

  /** The search as the page describes it, on the parameters as read: a non-blank
      location must occur, as typed and with case significant, in the address or the
      title; a non-blank type must equal the property type; bounds bound the price. */
  predicate Selects(location: string, propertyType: string, min: Option<int>, max: Option<int>, p: Property) {
    && (location != [] ==> Contains(p.address, location) || Contains(p.title, location))
    && (propertyType != [] ==> p.propertyType == Some(propertyType))
    && (min.Some? ==> p.price >= min.value)
    && (max.Some? ==> p.price <= max.value)
  }

  predicate Satisfies(q: SearchQuery, p: Property) {
    Selects(Term(q.location), Term(q.propertyType), Bound(q.minPrice), Bound(q.maxPrice), p)
  }

  /** How the database evaluates a filter on a row. */
  predicate Matches(w: Where, p: Property) {
    && (w.location.Some? ==> Contains(p.address, w.location.value) || Contains(p.title, w.location.value))
    && (w.propertyType.Some? ==> p.propertyType == w.propertyType)
    && (w.price.Some? ==>
          && (w.price.value.gte.Some? ==> p.price >= w.price.value.gte.value)
          && (w.price.value.lte.Some? ==> p.price <= w.price.value.lte.value))
  }

  /** Builds the filter field by field. The result selects exactly the properties that
      satisfy the query, and it carries a price condition only when a bound is set. */
  method BuildWhere(q: SearchQuery) returns (w: Where)
    ensures forall p :: Matches(w, p) <==> Satisfies(q, p)
    ensures w.location.Some? <==> Term(q.location) != []
    ensures w.propertyType.Some? <==> Term(q.propertyType) != []
    ensures w.price.Some? <==> Bound(q.minPrice).Some? || Bound(q.maxPrice).Some?
    ensures w.price.Some? ==> w.price.value == PriceFilter(Bound(q.minPrice), Bound(q.maxPrice))
  {
    var location := Term(q.location);
    var propertyType := Term(q.propertyType);
    var minPrice := IntOrZero(q.minPrice);
    var maxPrice := IntOrZero(q.maxPrice);

    w := Where(None, None, None);
    var priceFilter := PriceFilter(None, None);
    var priceConditionsMet := false;

    if location != [] {
      w := w.(location := Some(location));
    }
    if propertyType != [] {
      w := w.(propertyType := Some(propertyType));
    }
    if minPrice.Some? && minPrice.value > 0 {
      priceFilter := priceFilter.(gte := minPrice);
      priceConditionsMet := true;
    }
    if maxPrice.Some? && maxPrice.value > 0 {
      priceFilter := priceFilter.(lte := maxPrice);
      priceConditionsMet := true;
    }
    if priceConditionsMet {
      w := w.(price := Some(priceFilter));
    }
    assert Bound(q.minPrice) == priceFilter.gte && Bound(q.maxPrice) == priceFilter.lte;
    assert w.location == (if location != [] then Some(location) else None);
    assert w.propertyType == (if propertyType != [] then Some(propertyType) else None);
    assert w.price == (if priceConditionsMet then Some(priceFilter) else None);
    assert priceConditionsMet <==> priceFilter.gte.Some? || priceFilter.lte.Some?;
    forall p
      ensures Matches(w, p) <==> Satisfies(q, p)
    {
      MatchesSelects(w, location, propertyType, priceFilter, priceConditionsMet, p);
    }
  }

  /** A filter assembled from read parameters selects what those parameters describe. */
  lemma MatchesSelects(w: Where, location: string, propertyType: string, price: PriceFilter, priced: bool, p: Property)
    requires w.location == (if location != [] then Some(location) else None)
    requires w.propertyType == (if propertyType != [] then Some(propertyType) else None)
    requires w.price == (if priced then Some(price) else None)
    requires priced <==> price.gte.Some? || price.lte.Some?
    ensures Matches(w, p) == Selects(location, propertyType, price.gte, price.lte, p)
  {
  }

  /** The raw parameters, `get(name) || ''`, untrimmed. */
  function Echo(q: SearchQuery): Criteria {
    Criteria(FieldText(q.location), FieldText(q.propertyType), FieldText(q.minPrice), FieldText(q.maxPrice))
  }

  /** `s` holds the rows of `rows` that satisfy `q`, each as often as in `rows`, most
      recent first. */
  ghost predicate IsResultOf(s: seq<Property>, rows: seq<Property>, q: SearchQuery) {
    && NewestFirstOrdered(s)
    && forall p :: multiset(s)[p] == if Satisfies(q, p) then multiset(rows)[p] else 0
  }

  /** The loader, given the table's rows in any order, or `None` when the query fails. */
  method Load(q: SearchQuery, rows: Option<seq<Property>>) returns (page: SearchPage)
    ensures page.searchCriteria == Echo(q)
    ensures rows.None? ==> page.properties == [] && page.error == Some(LoadFailed)
    ensures rows.Some? ==>
      page.error.None? && exists s :: IsResultOf(s, rows.value, q) && page.properties == Cards(s)
  {
    var w := BuildWhere(q);
    if rows.None? {
      return SearchPage([], Echo(q), Some(LoadFailed));
    }
    var selected := Filter(rows.value, (p: Property) => Matches(w, p));
    var s := NewestFirst(selected);
    assert IsResultOf(s, rows.value, q);
    page := SearchPage(Cards(s), Echo(q), None);
  }

  /** Without parameters every property satisfies the search. */
  lemma EmptyQueryMatchesAll(p: Property)
    ensures Satisfies(SearchQuery(None, None, None, None), p)
  {
    EmptyIntOrZero(None);
    assert Trim([]) == [];
  }

  /** Blank parameters count as absent: a location of only white space filters nothing. */
  lemma BlankLocationIgnored(q: SearchQuery, blank: string, p: Property)
    requires forall i :: 0 <= i < |blank| ==> IsWhitespace(blank[i])
    ensures Satisfies(q.(location := Some(blank)), p) <==> Satisfies(q.(location := None), p)
  {
    var q1, q2 := q.(location := Some(blank)), q.(location := None);
    assert Term(q1.location) == [] by {
      TrimAllWhitespace(blank);
    }
    assert Term(q2.location) == [] by {
      assert Trim([]) == [];
    }
    assert q1.propertyType == q2.propertyType && q1.minPrice == q2.minPrice && q1.maxPrice == q2.maxPrice;
    assert Satisfies(q1, p) == Selects([], Term(q.propertyType), Bound(q.minPrice), Bound(q.maxPrice), p);
  }

  /** Bounds that cross select nothing. */
  lemma CrossedBoundsMatchNothing(q: SearchQuery, p: Property)
    requires Bound(q.minPrice).Some? && Bound(q.maxPrice).Some?
    requires Bound(q.minPrice).value > Bound(q.maxPrice).value
    ensures !Satisfies(q, p)
  {
  }

  /** A negative price parameter imposes no bound. */
  lemma NegativeBoundIgnored(t: string)
    requires t != [] && IsDigit(t[0])
    ensures Bound(Some("-" + t)).None?
  {
    ParseNegative(t);
  }
}
