/** The script's module-level state as one value: the catalogs, the
    in-memory bookmark list and what the key `skillbridge_bookmarked` holds
    in browser storage; plus the `getStats` summary. */
module Session {
  import opened Common
  import opened ArrayOps
  import opened Catalog
  import opened Bookmarks

  /** The stored value of the bookmark key, after `JSON.parse`: absent, the
      JSON `null` or another falsy JSON value (`0`, `false`, `""`), a saved
      list, or text that does not parse. */
  datatype Stored = Missing | FalsyValue | Saved(entries: seq<Entry>) | Malformed

  datatype LoadError = ParseError

  /** `JSON.parse(localStorage.getItem(key)) || []`. An absent key or a falsy
      value gives the empty list; unparsable text throws, since nothing catches it. */
  function LoadBookmarks(stored: Stored): (r: Result<seq<Entry>, LoadError>)
    ensures r.Failure? <==> stored.Malformed?
    ensures r.Success? && r.value != [] ==> stored == Saved(r.value)
  {
    match stored
    case Missing => Success([])
    case FalsyValue => Success([])
    case Saved(entries) => Success(entries)
    case Malformed => Failure(ParseError)
  }

  /** Malformed stored text makes line 4 throw, which stops the whole script. */
  lemma MalformedStorageAborts()
    ensures LoadBookmarks(Malformed).Failure?
  {
  }

  /** The evident intent of the `|| []` fallback: anything that is not a saved
      list, unparsable text included, starts the session with no bookmarks. */
  function LoadBookmarksRecovering(stored: Stored): (r: seq<Entry>)
    ensures stored.Saved? ==> r == stored.entries
    ensures !stored.Saved? ==> r == []
  {
    match stored
    case Saved(entries) => entries
    case _ => []
  }

  /** The recovering loader never fails and agrees with line 4 wherever
      line 4 does not throw. */
  lemma RecoveringAgreesWhenParsable(stored: Stored)
    ensures !stored.Malformed? ==> LoadBookmarks(stored) == Success(LoadBookmarksRecovering(stored))
    ensures stored.Malformed? ==> LoadBookmarks(stored).Failure? && LoadBookmarksRecovering(stored) == []
  {
  }

  datatype Session = Session(catalog: Catalog, marks: seq<Entry>, stored: Stored)

  /** The state once both catalogs are loaded: the bookmark list is read
      from storage with the recovering loader. */
  function Start(catalog: Catalog, stored: Stored): (r: Session)
    ensures r.catalog == catalog && r.stored == stored
    ensures LoadBookmarks(stored).Success? ==> LoadBookmarks(stored).value == r.marks
    ensures stored.Malformed? ==> r.marks == []
  {
    Session(catalog, LoadBookmarksRecovering(stored), stored)
  }

  /** Storage that reads back as the in-memory list. */
  predicate InSync(s: Session) {
    LoadBookmarks(s.stored) == Success(s.marks)
  }

  /** A fresh session is in sync with storage exactly when the stored text parses. */
  lemma StartInSync(catalog: Catalog, stored: Stored)
    ensures InSync(Start(catalog, stored)) <==> !stored.Malformed?
  {
  }

  datatype Step = Step(session: Session, outcome: Outcome)

  /** A click on a heart button: toggle, then write the whole list back to
      storage. The write happens on every path, including a toggle that
      found nothing; when it succeeds, storage reads back as the in-memory
      list. */
  function ToggleBookmark(s: Session, id: int, kind: string, now: string): (r: Step)
    ensures r.session.catalog == s.catalog
    ensures r.session.stored == Saved(r.session.marks)
    ensures InSync(r.session)
    ensures r.outcome == Toggle(s.marks, s.catalog, id, kind, now).outcome
    ensures r.outcome.NotFound? ==> r.session.marks == s.marks
    ensures r.session.marks == Toggle(s.marks, s.catalog, id, kind, now).marks
  {
    var t := Toggle(s.marks, s.catalog, id, kind, now);
    Step(Session(s.catalog, t.marks, Saved(t.marks)), t.outcome)
  }

  /** One click: the card's key and the clock reading at that moment. */
  datatype Click = Click(id: int, kind: string, now: string)

  /** A run of clicks, applied in order. */
  function ToggleAll(s: Session, clicks: seq<Click>): (r: Session)
    ensures r.catalog == s.catalog
    ensures |clicks| > 0 ==> InSync(r)
    decreases |clicks|
  {
    if |clicks| == 0 then s
    else
      var c := clicks[0];
      ToggleAll(ToggleBookmark(s, c.id, c.kind, c.now).session, clicks[1..])
  }

  /** However many clicks happen, a unique list stays unique. */
  lemma {:induction false} UniqueAfterAnyClicks(s: Session, clicks: seq<Click>)
    requires Unique(s.marks)
    ensures Unique(ToggleAll(s, clicks).marks)
    decreases |clicks|
  {
    if |clicks| > 0 {
      var c := clicks[0];
      ToggleKeepsUnique(s.marks, s.catalog, c.id, c.kind, c.now);
      UniqueAfterAnyClicks(ToggleBookmark(s, c.id, c.kind, c.now).session, clicks[1..]);
    }
  }

  datatype Stats = Stats(totalCourses: nat, totalInternships: nat, bookmarkedItems: nat, categoriesAvailable: nat)

  /** The categories of a list of records, in order. */
  function Categories(items: seq<Item>): (r: seq<string>)
    ensures |r| == |items| && forall k :: 0 <= k < |items| ==> r[k] == items[k].category
  {
    seq(|items|, k requires 0 <= k < |items| => items[k].category)
  }

  /** `getStats`: the sizes of both catalogs and of the bookmark list, and the
      number of distinct category strings across both catalogs. */
  function GetStats(s: Session): (r: Stats)
    ensures r.totalCourses == |s.catalog.courses| && r.totalInternships == |s.catalog.internships|
    ensures r.bookmarkedItems == |s.marks|
    ensures r.categoriesAvailable == |set x | x in s.catalog.courses + s.catalog.internships :: x.category|
  {
    var items := s.catalog.courses + s.catalog.internships;
    var cats := Categories(s.catalog.courses) + Categories(s.catalog.internships);
    var d := Distinct(cats);
    CountDistinctCategories(items, cats, d);
    Stats(|s.catalog.courses|, |s.catalog.internships|, |s.marks|, |d|)
  }

  /** A duplicate-free list with the same elements as the category column of
      `items` is as long as the set of categories. */
  lemma CountDistinctCategories(items: seq<Item>, cats: seq<string>, d: seq<string>)
    requires |cats| == |items| && forall k :: 0 <= k < |items| ==> cats[k] == items[k].category
    requires NoDuplicates(d) && forall x :: x in d <==> x in cats
    ensures |d| == |set x | x in items :: x.category|
  {
    DistinctCardinality(d);
    assert (set x | x in d) == (set x | x in items :: x.category) by {
      forall c | c in d ensures c in (set x | x in items :: x.category) {
        var k :| 0 <= k < |cats| && cats[k] == c;
        assert items[k] in items;
      }
      forall c | c in (set x | x in items :: x.category) ensures c in d {
        var x :| x in items && x.category == c;
        var k :| 0 <= k < |items| && items[k] == x;
        assert cats[k] == c;
      }
    }
  }
}
