/** The bookmark list behind the heart buttons: `toggleBookmark` and the
    per-card `some(...)` membership test. Entries are keyed by the pair
    (id, type); the type is the string the card passes. */
module Bookmarks {
  import opened Common
  import opened ArrayOps
  import opened Catalog

  /** A saved bookmark: a snapshot of the catalog record taken when it was
      saved (`{ ...itemData, type, savedDate }`). Later catalog changes do not
      reach it. */
  datatype Entry = Entry(item: Item, kind: string, savedDate: string)

  /** `item.id === id && item.type === type`. */
  predicate Keyed(e: Entry, id: int, kind: string) {
    e.item.id == id && e.kind == kind
  }

  /** The invariant the controller maintains: at most one entry per (id, type). */
  predicate Unique(marks: seq<Entry>) {
    forall i, j :: 0 <= i < j < |marks| ==>
      marks[i].item.id != marks[j].item.id || marks[i].kind != marks[j].kind
  }

  /** `i` is the index `findIndex` reports for the key (id, kind). */
  predicate FirstKeyed(marks: seq<Entry>, i: int, id: int, kind: string) {
    && 0 <= i < |marks| && Keyed(marks[i], id, kind)
    && forall j :: 0 <= j < i ==> !Keyed(marks[j], id, kind)
  }

  /** The bookmark test each card performs before it is drawn. */
  function IsBookmarked(marks: seq<Entry>, id: int, kind: string): (r: bool)
    ensures r <==> exists i :: 0 <= i < |marks| && Keyed(marks[i], id, kind)
  {
    Any(marks, (e: Entry) => Keyed(e, id, kind))
  }

  /** The catalog `toggleBookmark` searches: the courses for type "course",
      the internships for every other type string. */
  function CatalogFor(catalog: Catalog, kind: string): seq<Item> {
    if kind == "course" then catalog.courses else catalog.internships
  }

  /** `find(x => x.id === id)` in the catalog for `kind`: the first record
      with that id, or nothing when there is none. */
  function Lookup(catalog: Catalog, id: int, kind: string): (r: Option<Item>)
    ensures r.None? <==> forall x :: x in CatalogFor(catalog, kind) ==> x.id != id
    ensures r.Some? ==> exists i :: && 0 <= i < |CatalogFor(catalog, kind)|
                                    && CatalogFor(catalog, kind)[i] == r.value && r.value.id == id
                                    && forall j :: 0 <= j < i ==> CatalogFor(catalog, kind)[j].id != id
  {
    Find(CatalogFor(catalog, kind), (x: Item) => x.id == id)
  }

  /** What a toggle did; the notification shown depends only on this. */
  datatype Outcome = Removed | Added(entry: Entry) | NotFound

  datatype Toggled = Toggled(marks: seq<Entry>, outcome: Outcome)

  /** `toggleBookmark` without the button and the notification. A present key
      loses its first entry; an absent key found in its catalog gains a
      snapshot of the first record with that id at the end; an absent key not found leaves the list alone. */
  function Toggle(marks: seq<Entry>, catalog: Catalog, id: int, kind: string, now: string): (r: Toggled)
    ensures r.outcome.Removed? <==> IsBookmarked(marks, id, kind)
    ensures r.outcome.Removed? ==>
              exists i :: FirstKeyed(marks, i, id, kind) && r.marks == marks[..i] + marks[i + 1..]
    ensures r.outcome.Added? <==> !IsBookmarked(marks, id, kind) && Lookup(catalog, id, kind).Some?
    ensures r.outcome.Added? ==>
              && r.marks == marks + [r.outcome.entry]
              && Keyed(r.outcome.entry, id, kind) && r.outcome.entry.savedDate == now
              && Lookup(catalog, id, kind) == Some(r.outcome.entry.item)
    ensures r.outcome.NotFound? ==> r.marks == marks
  {
    var i := FindIndex(marks, (e: Entry) => Keyed(e, id, kind));
    if i > -1 then
      assert FirstKeyed(marks, i, id, kind);
      Toggled(RemoveAt(marks, i), Removed)
    else
      match Lookup(catalog, id, kind)
      case Some(item) =>
        var entry := Entry(item, kind, now);
        Toggled(marks + [entry], Added(entry))
      case None => Toggled(marks, NotFound)
  }

  /** A toggle never creates a second entry for a key. */
  lemma ToggleKeepsUnique(marks: seq<Entry>, catalog: Catalog, id: int, kind: string, now: string)
    requires Unique(marks)
    ensures Unique(Toggle(marks, catalog, id, kind, now).marks)
  {
    var r := Toggle(marks, catalog, id, kind, now);
    if r.outcome.Removed? {
      var i :| FirstKeyed(marks, i, id, kind) && r.marks == marks[..i] + marks[i + 1..];
      forall a, b | 0 <= a < b < |r.marks|
        ensures r.marks[a].item.id != r.marks[b].item.id || r.marks[a].kind != r.marks[b].kind
      {
        var a' := if a < i then a else a + 1;
        var b' := if b < i then b else b + 1;
        assert r.marks[a] == marks[a'] && r.marks[b] == marks[b'];
      }
    }
  }

  /** Toggling flips the membership of its own key, provided the list is
      unique and the key is either saved or found in its catalog. */
  lemma ToggleFlipsMembership(marks: seq<Entry>, catalog: Catalog, id: int, kind: string, now: string)
    requires Unique(marks)
    requires IsBookmarked(marks, id, kind) || Lookup(catalog, id, kind).Some?
    ensures IsBookmarked(Toggle(marks, catalog, id, kind, now).marks, id, kind) == !IsBookmarked(marks, id, kind)
  {
    var r := Toggle(marks, catalog, id, kind, now);
    if r.outcome.Removed? {
      var i :| FirstKeyed(marks, i, id, kind) && r.marks == marks[..i] + marks[i + 1..];
      forall k | 0 <= k < |r.marks| ensures !Keyed(r.marks[k], id, kind) {
        if k < i { assert r.marks[k] == marks[k]; } else { assert r.marks[k] == marks[k + 1]; }
      }
    } else {
      assert Keyed(r.marks[|marks|], id, kind);
    }
  }

  /** A toggle never changes the membership of any other key. */
  lemma ToggleLeavesOtherKeys(marks: seq<Entry>, catalog: Catalog, id: int, kind: string, now: string,
                              id': int, kind': string)
    requires id' != id || kind' != kind
    ensures IsBookmarked(Toggle(marks, catalog, id, kind, now).marks, id', kind') == IsBookmarked(marks, id', kind')
  {
    var r := Toggle(marks, catalog, id, kind, now);
    if r.outcome.Removed? {
      var i :| FirstKeyed(marks, i, id, kind) && r.marks == marks[..i] + marks[i + 1..];
      RemovalKeepsOtherKeys(marks, i, id', kind');
    } else if r.outcome.Added? {
      AppendKeepsOtherKeys(marks, r.outcome.entry, id', kind');
    }
  }

  lemma RemovalKeepsOtherKeys(marks: seq<Entry>, i: int, id: int, kind: string)
    requires 0 <= i < |marks| && !Keyed(marks[i], id, kind)
    ensures IsBookmarked(marks[..i] + marks[i + 1..], id, kind) == IsBookmarked(marks, id, kind)
  {
    var r := marks[..i] + marks[i + 1..];
    assert r == RemoveAt(marks, i);
    if IsBookmarked(marks, id, kind) {
      var k :| 0 <= k < |marks| && Keyed(marks[k], id, kind);
      if k < i { assert r[k] == marks[k]; } else { assert r[k - 1] == marks[k]; }
    }
    if IsBookmarked(r, id, kind) {
      var k :| 0 <= k < |r| && Keyed(r[k], id, kind);
      if k < i { assert r[k] == marks[k]; } else { assert r[k] == marks[k + 1]; }
    }
  }

  lemma AppendKeepsOtherKeys(marks: seq<Entry>, e: Entry, id: int, kind: string)
    requires !Keyed(e, id, kind)
    ensures IsBookmarked(marks + [e], id, kind) == IsBookmarked(marks, id, kind)
  {
    var r := marks + [e];
    if IsBookmarked(r, id, kind) {
      var k :| 0 <= k < |r| && Keyed(r[k], id, kind);
      assert k < |marks| && r[k] == marks[k];
    }
    if IsBookmarked(marks, id, kind) {
      var k :| 0 <= k < |marks| && Keyed(marks[k], id, kind);
      assert r[k] == marks[k];
    }
  }

  /** Toggling the same key twice restores which keys are saved (the
      re-added entry carries a new snapshot and date and moves to the end).
      When the key was not saved, the list comes back exactly as it was. */
  lemma ToggleTwiceRestoresMembership(marks: seq<Entry>, catalog: Catalog, id: int, kind: string,
                                      now1: string, now2: string)
    requires Unique(marks)
    requires IsBookmarked(marks, id, kind) ==> Lookup(catalog, id, kind).Some?
    ensures forall id', kind' ::
              IsBookmarked(Toggle(Toggle(marks, catalog, id, kind, now1).marks, catalog, id, kind, now2).marks, id', kind')
              == IsBookmarked(marks, id', kind')
    ensures !IsBookmarked(marks, id, kind) ==>
              Toggle(Toggle(marks, catalog, id, kind, now1).marks, catalog, id, kind, now2).marks == marks
  {
    var m1 := Toggle(marks, catalog, id, kind, now1).marks;
    var m2 := Toggle(m1, catalog, id, kind, now2).marks;
    forall id', kind' ensures IsBookmarked(m2, id', kind') == IsBookmarked(marks, id', kind') {
      if id' != id || kind' != kind {
        ToggleLeavesOtherKeys(marks, catalog, id, kind, now1, id', kind');
        ToggleLeavesOtherKeys(m1, catalog, id, kind, now2, id', kind');
      } else if Lookup(catalog, id, kind).Some? {
        ToggleKeepsUnique(marks, catalog, id, kind, now1);
        ToggleFlipsMembership(marks, catalog, id, kind, now1);
        ToggleFlipsMembership(m1, catalog, id, kind, now2);
      }
    }
    if !IsBookmarked(marks, id, kind) && Lookup(catalog, id, kind).Some? {
      var e := Toggle(marks, catalog, id, kind, now1).outcome.entry;
      assert m1 == marks + [e];
      assert FirstKeyed(m1, |marks|, id, kind);
      var r2 := Toggle(m1, catalog, id, kind, now2);
      var i :| FirstKeyed(m1, i, id, kind) && r2.marks == m1[..i] + m1[i + 1..];
      assert i == |marks|;
      assert m1[..i] == marks;
    }
  }

  /** Without the catalog condition the round trip fails: a saved key whose
      record is no longer in the catalog is removed and cannot come back. */
  lemma ToggleTwiceLosesUncatalogued(marks: seq<Entry>, catalog: Catalog, id: int, kind: string,
                                     now1: string, now2: string)
    requires Unique(marks)
    requires IsBookmarked(marks, id, kind) && Lookup(catalog, id, kind).None?
    ensures !IsBookmarked(Toggle(Toggle(marks, catalog, id, kind, now1).marks, catalog, id, kind, now2).marks, id, kind)
  {
    ToggleFlipsMembership(marks, catalog, id, kind, now1);
  }

  /** Without uniqueness a toggle may leave the key saved: removing the first
      of two entries for a key keeps the second. */
  lemma DuplicateSurvivesRemoval(marks: seq<Entry>, catalog: Catalog, id: int, kind: string, now: string)
    requires exists i, j :: 0 <= i < j < |marks| && Keyed(marks[i], id, kind) && Keyed(marks[j], id, kind)
    ensures Toggle(marks, catalog, id, kind, now).outcome.Removed?
    ensures IsBookmarked(Toggle(marks, catalog, id, kind, now).marks, id, kind)
  {
    var i, j :| 0 <= i < j < |marks| && Keyed(marks[i], id, kind) && Keyed(marks[j], id, kind);
    var r := Toggle(marks, catalog, id, kind, now);
    var f :| FirstKeyed(marks, f, id, kind) && r.marks == marks[..f] + marks[f + 1..];
    assert f <= i < j;
    assert r.marks[j - 1] == marks[j];
  }
}
