/** The query side of the page: the filter predicates of `performSearch` and
    the generic `filterByMultipleCriteria`. */
module Search {
  import opened Common
  import opened Text
  import opened ArrayOps
  import opened Catalog

  /** The three inputs of a search: the text box and the two drop-downs. */
  datatype Query = Query(text: string, category: string, level: string)

  datatype SearchResult = SearchResult(courses: seq<Item>, internships: seq<Item>)

  /** The term actually searched for: the input lower-cased, then trimmed. It
      is empty exactly when the input is blank, and has no upper-case letter. */
  function Term(raw: string): (t: string)
    ensures IsTrimOf(t, Lower(raw))
    ensures forall k :: 0 <= k < |t| ==> !IsUpperAscii(t[k])
    ensures t == [] <==> AllSpace(raw)
  {
    var t := Trim(Lower(raw));
    TrimEmptyIffBlank(Lower(raw));
    LowerKeepsBlank(raw);
    TrimOfElements(t, Lower(raw));
    t
  }

  /** `field.toLowerCase().includes(term)`. */
  predicate FieldHas(field: string, term: string) {
    Contains(Lower(field), term)
  }

  /** `list && list.some(x => x.toLowerCase().includes(term))`: a missing list matches nothing. */
  predicate ListHas(list: Option<seq<string>>, term: string) {
    match list
    case None => false
    case Some(xs) => Any(xs, x => FieldHas(x, term))
  }

  /** The free-text clause of the course and internship filters. */
  predicate TextMatches(item: Item, term: string) {
    || term == []
    || FieldHas(item.title, term)
    || FieldHas(item.description, term)
    || if item.Course? then
         FieldHas(item.provider, term) || ListHas(item.skills, term)
       else
         FieldHas(item.company, term) || FieldHas(item.location, term) || ListHas(item.requirements, term)
  }

  predicate CategoryMatches(item: Item, category: string) {
    category == [] || item.category == category
  }

  predicate LevelMatches(item: Item, level: string) {
    level == [] || item.level == level
  }

  /** The predicate passed to `filter` for one item. */
  predicate Matches(item: Item, term: string, category: string, level: string) {
    TextMatches(item, term) && CategoryMatches(item, category) && LevelMatches(item, level)
  }

  /** The callback `performSearch` hands to `filter`. */
  function Selects(term: string, category: string, level: string): Item -> bool {
    x => Matches(x, term, category, level)
  }

  /** `performSearch`: filter both catalogs with the same query. Each result
      keeps, in catalog order, exactly the items satisfying the text, category
      and level clauses, and every copy of such an item. */
  function PerformSearch(catalog: Catalog, q: Query): (r: SearchResult)
    ensures IsSubsequence(r.courses, catalog.courses)
    ensures IsSubsequence(r.internships, catalog.internships)
    ensures forall x :: x in r.courses <==> x in catalog.courses && Matches(x, Term(q.text), q.category, q.level)
    ensures forall x :: x in r.internships <==> x in catalog.internships && Matches(x, Term(q.text), q.category, q.level)
    ensures forall x :: multiset(r.courses)[x] == if Matches(x, Term(q.text), q.category, q.level) then multiset(catalog.courses)[x] else 0
    ensures forall x :: multiset(r.internships)[x] == if Matches(x, Term(q.text), q.category, q.level) then multiset(catalog.internships)[x] else 0
  {
    var term := Term(q.text);
    SearchResult(
      Filter(catalog.courses, Selects(term, q.category, q.level)),
      Filter(catalog.internships, Selects(term, q.category, q.level)))
  }

  /** A blank text box with both drop-downs on "all" shows both catalogs unchanged. */
  lemma BlankQueryShowsEverything(catalog: Catalog, q: Query)
    requires AllSpace(q.text) && q.category == [] && q.level == []
    ensures PerformSearch(catalog, q) == SearchResult(catalog.courses, catalog.internships)
  {
    var term := Term(q.text);
    FilterKeepsAll(catalog.courses, Selects(term, q.category, q.level));
    FilterKeepsAll(catalog.internships, Selects(term, q.category, q.level));
  }

  /** The case of the typed text never changes the result. */
  lemma SearchIgnoresQueryCase(catalog: Catalog, q: Query)
    ensures PerformSearch(catalog, q) == PerformSearch(catalog, q.(text := Lower(q.text)))
  {
    LowerIdempotent(q.text);
  }

  /** The searchable text of an item: title, description, provider or company,
      location for internships, then each skill or requirement. */
  function SearchableText(item: Item): seq<string> {
    if item.Course? then
      [item.title, item.description, item.provider] + ListOrEmpty(item.skills)
    else
      [item.title, item.description, item.company, item.location] + ListOrEmpty(item.requirements)
  }

  function ListOrEmpty(list: Option<seq<string>>): seq<string> {
    match list
    case None => []
    case Some(xs) => xs
  }

  /** Some field of `fields` contains `term`. */
  predicate SomeFieldHas(fields: seq<string>, term: string) {
    exists k :: 0 <= k < |fields| && FieldHas(fields[k], term)
  }

  lemma SomeFieldHasConcat(a: seq<string>, b: seq<string>, term: string)
    ensures SomeFieldHas(a + b, term) <==> SomeFieldHas(a, term) || SomeFieldHas(b, term)
  {
    if SomeFieldHas(a + b, term) {
      var k :| 0 <= k < |a + b| && FieldHas((a + b)[k], term);
      if k >= |a| { assert FieldHas(b[k - |a|], term); } else { assert FieldHas(a[k], term); }
    }
    if SomeFieldHas(a, term) {
      var k :| 0 <= k < |a| && FieldHas(a[k], term);
      assert (a + b)[k] == a[k];
    }
    if SomeFieldHas(b, term) {
      var k :| 0 <= k < |b| && FieldHas(b[k], term);
      assert (a + b)[|a| + k] == b[k];
    }
  }

  lemma ListHasSomeField(list: Option<seq<string>>, term: string)
    ensures ListHas(list, term) <==> SomeFieldHas(ListOrEmpty(list), term)
  {
  }

  /** The text clause is a case-insensitive substring test over exactly the
      searchable fields: it holds iff the term is empty or occurs in one of them. */
  lemma TextMatchesIffSearchableField(item: Item, term: string)
    ensures TextMatches(item, term) <==> term == [] || SomeFieldHas(SearchableText(item), term)
  {
    if item.Course? {
      var head := [item.title, item.description, item.provider];
      SomeFieldHasConcat(head, ListOrEmpty(item.skills), term);
      ListHasSomeField(item.skills, term);
      assert SomeFieldHas(head, term) <==>
             FieldHas(item.title, term) || FieldHas(item.description, term) || FieldHas(item.provider, term) by {
        if SomeFieldHas(head, term) {
          var k :| 0 <= k < 3 && FieldHas(head[k], term);
        }
        assert head[0] == item.title && head[1] == item.description && head[2] == item.provider;
      }
    } else {
      var head := [item.title, item.description, item.company, item.location];
      SomeFieldHasConcat(head, ListOrEmpty(item.requirements), term);
      ListHasSomeField(item.requirements, term);
      assert SomeFieldHas(head, term) <==>
             || FieldHas(item.title, term) || FieldHas(item.description, term)
             || FieldHas(item.company, term) || FieldHas(item.location, term) by {
        if SomeFieldHas(head, term) {
          var k :| 0 <= k < 4 && FieldHas(head[k], term);
        }
        assert head[0] == item.title && head[1] == item.description;
        assert head[2] == item.company && head[3] == item.location;
      }
    }
  }

  /** Fields outside the searchable text (id, category, level, url, icon,
      duration, paid, salary) never affect the text clause. */
  lemma TextIgnoresOtherFields(a: Item, b: Item, term: string)
    requires SearchableText(a) == SearchableText(b)
    ensures TextMatches(a, term) == TextMatches(b, term)
  {
    TextMatchesIffSearchableField(a, term);
    TextMatchesIffSearchableField(b, term);
  }

  /** A missing skills or requirements list behaves like an empty one: it adds
      no match and the other fields decide. */
  lemma MissingListMatchesNothing(item: Item, term: string)
    requires item.Course? ==> item.skills == None
    requires item.Internship? ==> item.requirements == None
    ensures TextMatches(item, term) <==>
            || term == [] || FieldHas(item.title, term) || FieldHas(item.description, term)
            || (item.Course? && FieldHas(item.provider, term))
            || (item.Internship? && (FieldHas(item.company, term) || FieldHas(item.location, term)))
    ensures item.Course? ==> TextMatches(item, term) == TextMatches(item.(skills := Some([])), term)
    ensures item.Internship? ==> TextMatches(item, term) == TextMatches(item.(requirements := Some([])), term)
  {
  }

  /** A property value as `===` sees it: strings, integers, booleans, and
      `null` / `undefined` (which only a criterion can hold). */
  datatype Value = Str(s: string) | Num(n: int) | Flag(b: bool) | Nothing

  /** JavaScript falsiness of a criterion value. */
  predicate Falsy(v: Value) {
    v == Str("") || v == Num(0) || v == Flag(false) || v == Nothing
  }

  /** `item[key]`; `None` for `undefined` and for the list-valued properties,
      which no criterion value can be `===` to. */
  function FieldOf(item: Item, key: string): Option<Value> {
    if key == "id" then Some(Num(item.id))
    else if key == "title" then Some(Str(item.title))
    else if key == "description" then Some(Str(item.description))
    else if key == "category" then Some(Str(item.category))
    else if key == "level" then Some(Str(item.level))
    else if key == "url" then Some(Str(item.url))
    else if key == "icon" then Some(Str(item.icon))
    else if key == "duration" then Some(Str(item.duration))
    else if item.Course? then
      if key == "provider" then Some(Str(item.provider)) else None
    else if key == "company" then Some(Str(item.company))
    else if key == "location" then Some(Str(item.location))
    else if key == "paid" then Some(Flag(item.paid))
    else if key == "salary" then (match item.salary case Some(s) => Some(Str(s)) case None => None)
    else None
  }

  /** Every criterion is falsy or equal to the item's property of that name. */
  predicate MeetsCriteria(item: Item, criteria: map<string, Value>) {
    forall key | key in criteria :: Falsy(criteria[key]) || FieldOf(item, key) == Some(criteria[key])
  }

  /** The callback `filterByMultipleCriteria` hands to `filter`. */
  function MeetsAll(criteria: map<string, Value>): Item -> bool {
    x => MeetsCriteria(x, criteria)
  }

  /** `filterByMultipleCriteria`: keep, in order, the items meeting every criterion. */
  function FilterByMultipleCriteria(items: seq<Item>, criteria: map<string, Value>): (r: seq<Item>)
    ensures IsSubsequence(r, items)
    ensures forall x :: x in r <==> x in items && MeetsCriteria(x, criteria)
    ensures forall x :: multiset(r)[x] == if MeetsCriteria(x, criteria) then multiset(items)[x] else 0
  {
    Filter(items, MeetsAll(criteria))
  }

  /** With only falsy criteria (in particular none at all) nothing is filtered out. */
  lemma FalsyCriteriaKeepEverything(items: seq<Item>, criteria: map<string, Value>)
    requires forall key | key in criteria :: Falsy(criteria[key])
    ensures FilterByMultipleCriteria(items, criteria) == items
  {
    FilterKeepsAll(items, MeetsAll(criteria));
  }

  /** The category and level drop-downs of a blank-text search are the
      criteria filter on `category` and `level`. */
  lemma SearchIsCriteriaFilter(catalog: Catalog, q: Query)
    requires AllSpace(q.text)
    ensures PerformSearch(catalog, q).courses ==
            FilterByMultipleCriteria(catalog.courses, map["category" := Str(q.category), "level" := Str(q.level)])
    ensures PerformSearch(catalog, q).internships ==
            FilterByMultipleCriteria(catalog.internships, map["category" := Str(q.category), "level" := Str(q.level)])
  {
    var term := Term(q.text);
    var criteria := map["category" := Str(q.category), "level" := Str(q.level)];
    forall x: Item ensures Matches(x, term, q.category, q.level) == MeetsCriteria(x, criteria) {
      CategoryLevelCriteria(x, q.category, q.level);
    }
    FilterCongruent(catalog.courses, Selects(term, q.category, q.level), MeetsAll(criteria));
    FilterCongruent(catalog.internships, Selects(term, q.category, q.level), MeetsAll(criteria));
  }

  lemma CategoryLevelCriteria(x: Item, category: string, level: string)
    ensures MeetsCriteria(x, map["category" := Str(category), "level" := Str(level)]) <==>
            CategoryMatches(x, category) && LevelMatches(x, level)
  {
    var criteria := map["category" := Str(category), "level" := Str(level)];
    assert criteria.Keys == {"category", "level"};
    assert FieldOf(x, "category") == Some(Str(x.category));
    assert FieldOf(x, "level") == Some(Str(x.level));
  }
}
