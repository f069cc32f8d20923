/** The local glossary database service: a filtered, paginated search over
    entries joined with their glossaries, and the edit and delete of one entry.
    The session is the store it holds; a commit that would break a constraint
    of the tables is rolled back and reported. */
module LocalGlossaryManager {
  import opened Wrappers
  import opened Text
  import opened Paging
  import opened GlossaryStore

  /** `_normalize_lang_code`: upper case, with an absent or empty code
      normalised to none. */
  function NormalizeLangCode(code: Option<string>): (r: Option<string>)
    ensures r.None? <==> code.None? || code.value == []
    ensures r.Some? ==> r.value == Upper(code.value) && Upper(r.value) == r.value
  {
    if code.None? || code.value == [] then None else Some(Upper(code.value))
  }

  /** The optional filters of a search; an absent or empty one constrains
      nothing. Dates are abstract instants. */
  datatype Filters = Filters(
    name: Option<string>,
    startDate: Option<int>,
    endDate: Option<int>,
    sourceLang: Option<string>,
    targetLang: Option<string>)

  const NoFilters := Filters(None, None, None, None, None)

  /** Python truthiness of an optional string. */
  predicate Given(s: Option<string>) {
    s.Some? && s.value != []
  }

  /** An entry with the glossary it joins. */
  datatype Row = Row(entry: GlossaryEntry, glossary: Glossary)

  /** The filter conditions of one joined row. */
  predicate Matches(r: Row, f: Filters) {
    (Given(f.name) ==> ContainsIgnoreCase(r.glossary.name, f.name.value))
    && (Given(f.sourceLang) ==> r.glossary.sourceLang == Upper(f.sourceLang.value))
    && (Given(f.targetLang) ==> r.glossary.targetLang == Upper(f.targetLang.value))
    && (f.startDate.Some? ==> r.glossary.createdAt >= f.startDate.value)
    && (f.endDate.Some? ==> r.glossary.createdAt <= f.endDate.value)
  }

  /** Without filters every row matches; with a date range the creation time
      lies inside it, both ends included. */
  lemma FilterMeaning(r: Row, f: Filters)
    ensures Matches(r, NoFilters)
    ensures Matches(r, f) && f.startDate.Some? && f.endDate.Some? ==>
      f.startDate.value <= r.glossary.createdAt <= f.endDate.value
    ensures Matches(r, f) && Given(f.sourceLang) ==> NormalizeLangCode(f.sourceLang) == Some(r.glossary.sourceLang)
    ensures Matches(r, f) && Given(f.targetLang) ==> NormalizeLangCode(f.targetLang) == Some(r.glossary.targetLang)
  {
  }

  /** The join of entries with their glossaries, filtered, in storage order. */
  function MatchingRows(db: Store, f: Filters): (rs: seq<Row>)
    ensures forall r :: r in rs <==>
      r.entry in db.entries && r.entry.glossaryId in db.glossaries
      && r.glossary == db.glossaries[r.entry.glossaryId] && Matches(r, f)
    decreases |db.entries|
  {
    if db.entries == [] then []
    else
      var n := |db.entries|;
      var rest := MatchingRows(Store(db.glossaries, db.entries[..n - 1]), f);
      var e := db.entries[n - 1];
      assert db.entries == db.entries[..n - 1] + [e];
      if e.glossaryId in db.glossaries && Matches(Row(e, db.glossaries[e.glossaryId]), f)
      then rest + [Row(e, db.glossaries[e.glossaryId])]
      else rest
  }

  /** What a search returns. */
  datatype SearchResult = SearchResult(total: nat, page: int, pageSize: int, totalPages: int, entries: seq<Row>)

  /** The page a search returns: the requested one clamped into
      1..total_pages, or 1 when there are no pages. */
  function ValidPage(page: int, totalPages: int): (p: int)
    ensures totalPages > 0 ==> 1 <= p <= totalPages
    ensures totalPages > 0 && 1 <= page <= totalPages ==> p == page
    ensures totalPages > 0 && page < 1 ==> p == 1
    ensures totalPages > 0 && page > totalPages ==> p == totalPages
    ensures totalPages <= 0 ==> p == 1
  {
    if totalPages > 0 then (if page < 1 then 1 else if page > totalPages then totalPages else page) else 1
  }

  /** search_glossaries_and_entries. A page size of zero divides by zero; a
      negative one is a negative LIMIT, which the database refuses; both raise. */
  function Search(db: Store, f: Filters, page: int, pageSize: int): (r: Result<SearchResult, string>)
    ensures r.Err? <==> pageSize <= 0
  {
    if pageSize <= 0 then Err("invalid page size")
    else
      var rows := MatchingRows(db, f);
      var total := |rows|;
      var totalPages := FloorDiv(total + pageSize - 1, pageSize);
      var valid := ValidPage(page, totalPages);
      var offset := PageStart(valid, pageSize);
      Ok(SearchResult(total, valid, pageSize, totalPages, PySlice(rows, offset, offset + pageSize)))
  }

  /** The count of pages covers the rows with no page to spare, and the
      clamped page starts inside the rows whenever there are any. */
  lemma PagesAndOffset(total: nat, page: int, pageSize: int)
    requires pageSize > 0
    ensures var totalPages := FloorDiv(total + pageSize - 1, pageSize);
      var offset := PageStart(ValidPage(page, totalPages), pageSize);
      totalPages >= 0 && totalPages * pageSize >= total
      && (totalPages > 0 ==> (totalPages - 1) * pageSize < total)
      && 0 <= offset && (total > 0 ==> offset < total)
  {
    var totalPages := FloorDiv(total + pageSize - 1, pageSize);
    var valid := ValidPage(page, totalPages);
    CeilPages(total, pageSize);
    if total > 0 {
      MulMonotone(valid - 1, totalPages - 1, pageSize);
    }
  }

  /** The page arithmetic: total_pages is the ceiling of total over the page
      size, the page is clamped, at most a page of rows comes back, they are
      the matching rows from the offset on, and whenever anything matches the
      page holds at least one row. */
  lemma SearchPaging(db: Store, f: Filters, page: int, pageSize: int)
    requires pageSize > 0
    ensures var r := Search(db, f, page, pageSize).value;
      var rows := MatchingRows(db, f);
      var offset := PageStart(r.page, pageSize);
      r.total == |rows|
      && r.totalPages >= 0 && r.totalPages * pageSize >= r.total
      && (r.totalPages > 0 ==> (r.totalPages - 1) * pageSize < r.total)
      && r.page == ValidPage(page, r.totalPages)
      && |r.entries| <= pageSize
      && 0 <= offset
      && (r.entries == [] || (offset < |rows| && r.entries == rows[offset..offset + |r.entries|]))
      && (r.total > 0 <==> r.entries != [])
  {
    var r := Search(db, f, page, pageSize).value;
    var rows := MatchingRows(db, f);
    var offset := PageStart(r.page, pageSize);
    assert r.total == |rows|;
    assert r.totalPages == FloorDiv(|rows| + pageSize - 1, pageSize);
    assert r.page == ValidPage(page, r.totalPages);
    assert r.entries == PySlice(rows, offset, offset + pageSize);
    PagesAndOffset(|rows|, page, pageSize);
    PySliceNonNegative(rows, offset, offset + pageSize);
  }

  /** A search returns only rows that match its filters. */
  lemma SearchMatches(db: Store, f: Filters, page: int, pageSize: int)
    requires pageSize > 0
    ensures forall row :: row in Search(db, f, page, pageSize).value.entries ==> Matches(row, f)
  {
    var r := Search(db, f, page, pageSize).value;
    var rows := MatchingRows(db, f);
    var offset := PageStart(r.page, pageSize);
    assert r.entries == PySlice(rows, offset, offset + pageSize);
    SliceIn(rows, offset, offset + pageSize);
  }

  /** Why an operation failed: a missing entry (`ValueError`), or a commit the
      database refused because a value does not fit its column (PostgreSQL's
      `DataError` for a string that is too long). */
  datatype Failure = ValueError(message: string) | DataError

  /** The entry fields an update returns, `updated_at` included. */
  datatype EntryView = EntryView(id: int, sourceTerm: string, targetTerm: string, createdAt: int, updatedAt: int)

  /** The position of the first entry with a given id. */
  function FindEntry(es: seq<GlossaryEntry>, id: int): (r: Option<nat>)
    ensures r.None? <==> forall i :: 0 <= i < |es| ==> es[i].id != id
    ensures r.Some? ==> (r.value < |es| && es[r.value].id == id
      && forall i :: 0 <= i < r.value ==> es[i].id != id)
    decreases |es|
  {
    if es == [] then None
    else if es[0].id == id then Some(0)
    else
      var r := FindEntry(es[1..], id);
      assert forall i :: 0 < i < |es| ==> es[i] == es[1..][i - 1];
      if r.None? then None else Some(r.value + 1)
  }

  /** The parent glossary of an entry, with its update time set. */
  function Touch(gs: map<int, Glossary>, gid: int, now: int): (r: map<int, Glossary>)
    ensures r.Keys == gs.Keys
    ensures forall id :: id in gs && id != gid ==> r[id] == gs[id]
    ensures gid in gs ==> r[gid] == gs[gid].(updatedAt := Some(now))
  {
    if gid in gs then gs[gid := gs[gid].(updatedAt := Some(now))] else gs
  }

  /** The error an unknown entry id raises. */
  function NotFound(id: int): Failure {
    ValueError("Entry with ID " + (if id < 0 then "-" + NatToString(-id) else NatToString(id)) + " not found")
  }

  /** Touching a glossary's update time keeps every constraint. */
  lemma TouchKeepsSchema(db: Store, gid: int, now: int)
    requires Schema(db)
    ensures Schema(Store(Touch(db.glossaries, gid, now), db.entries))
  {
    var gs := Touch(db.glossaries, gid, now);
    assert forall id :: id in gs ==> (gs[id].sourceLang == db.glossaries[id].sourceLang
      && gs[id].targetLang == db.glossaries[id].targetLang && gs[id].deeplGlossaryId == db.glossaries[id].deeplGlossaryId);
  }

  /** Removing one entry keeps every constraint. */
  lemma RemoveKeepsSchema(db: Store, i: nat)
    requires Schema(db) && i < |db.entries|
    ensures Schema(Store(db.glossaries, db.entries[..i] + db.entries[i + 1..]))
  {
    var es := db.entries[..i] + db.entries[i + 1..];
    assert forall k :: 0 <= k < |es| ==> es[k] == db.entries[if k < i then k else k + 1];
  }

  /** A new target term keeps every constraint exactly when it fits its column. */
  lemma RetargetSchema(db: Store, i: nat, term: string)
    requires Schema(db) && i < |db.entries|
    ensures Schema(Store(db.glossaries, db.entries[i := db.entries[i].(targetTerm := term)])) <==> |term| <= MaxTermLength
  {
    var es := db.entries[i := db.entries[i].(targetTerm := term)];
    if |term| > MaxTermLength {
      assert !EntryRowOk(es[i]);
    }
  }

  class LocalGlossaryManager {
    var db: Store

    constructor (db: Store)
      requires Schema(db)
      ensures this.db == db && Valid()
    {
      this.db := db;
    }

    predicate Valid()
      reads this
    {
      Schema(db)
    }

    /** search_glossaries_and_entries on the current session. */
    function SearchGlossariesAndEntries(f: Filters, page: int, pageSize: int): (r: Result<SearchResult, string>)
      reads this
      ensures r == Search(db, f, page, pageSize)
      ensures r.Ok? ==> |r.value.entries| <= pageSize && forall row :: row in r.value.entries ==> Matches(row, f)
    {
      var r := Search(db, f, page, pageSize);
      if pageSize > 0 then SearchPaging(db, f, page, pageSize); r else r
    }

    /** update_glossary_entry: a missing id raises `ValueError`; otherwise the
        entry's target term changes, its parent glossary's update time is set,
        and nothing else changes. A term too long for its column makes the
        commit fail, and the rollback restores the session. */
    method UpdateGlossaryEntry(entryId: int, targetTerm: string, now: int) returns (r: Result<EntryView, Failure>)
      requires Valid()
      modifies this
      ensures Valid()
      ensures FindEntry(old(db.entries), entryId).None? ==> r == Err(NotFound(entryId)) && db == old(db)
      ensures FindEntry(old(db.entries), entryId).Some? && |targetTerm| > MaxTermLength ==>
        r == Err(DataError) && db == old(db)
      ensures FindEntry(old(db.entries), entryId).Some? && |targetTerm| <= MaxTermLength ==>
        var i := FindEntry(old(db.entries), entryId).value;
        var e := old(db.entries)[i];
        db == Store(Touch(old(db.glossaries), e.glossaryId, now), old(db.entries)[i := e.(targetTerm := targetTerm)])
        && r == Ok(EntryView(entryId, e.sourceTerm, targetTerm, e.createdAt, now))
    {
      var found := FindEntry(db.entries, entryId);
      if found.None? {
        return Err(NotFound(entryId));
      }
      var i := found.value;
      var e := db.entries[i];
      var before := db;
      RetargetSchema(db, i, targetTerm);
      db := Store(db.glossaries, db.entries[i := e.(targetTerm := targetTerm)]);
      if !Schema(db) {
        db := before;
        return Err(DataError);
      }
      TouchKeepsSchema(db, e.glossaryId, now);
      db := db.(glossaries := Touch(db.glossaries, e.glossaryId, now));
      r := Ok(EntryView(entryId, e.sourceTerm, targetTerm, e.createdAt, now));
    }

    /** delete_glossary_entry: a missing id raises `ValueError`; otherwise
        exactly that entry leaves the table, its parent glossary's update time
        is set, and the answer is true. */
    method DeleteGlossaryEntry(entryId: int, now: int) returns (r: Result<bool, Failure>)
      requires Valid()
      modifies this
      ensures Valid()
      ensures FindEntry(old(db.entries), entryId).None? ==> r == Err(NotFound(entryId)) && db == old(db)
      ensures FindEntry(old(db.entries), entryId).Some? ==>
        var i := FindEntry(old(db.entries), entryId).value;
        var e := old(db.entries)[i];
        db == Store(Touch(old(db.glossaries), e.glossaryId, now), old(db.entries)[..i] + old(db.entries)[i + 1..])
        && r == Ok(true)
    {
      var found := FindEntry(db.entries, entryId);
      if found.None? {
        return Err(NotFound(entryId));
      }
      var i := found.value;
      var e := db.entries[i];
      TouchKeepsSchema(db, e.glossaryId, now);
      db := db.(glossaries := Touch(db.glossaries, e.glossaryId, now));
      RemoveKeepsSchema(db, i);
      db := db.(entries := db.entries[..i] + db.entries[i + 1..]);
      r := Ok(true);
    }
  }

  /** With unique entry ids, a delete removes just the entry with that id: every
      other entry is still there, and none with that id is. */
  lemma DeleteRemovesExactly(db: Store, id: int)
    requires Schema(db) && FindEntry(db.entries, id).Some?
    ensures var i := FindEntry(db.entries, id).value;
      var es := db.entries[..i] + db.entries[i + 1..];
      (forall e :: e in es ==> e.id != id)
      && (forall e :: e in db.entries && e.id != id ==> e in es)
      && |es| == |db.entries| - 1
  {
    var es, i := db.entries, FindEntry(db.entries, id).value;
    assert EntryKeysUnique(es);
    assert forall k :: 0 <= k < |es| && k != i ==> es[k].id != es[i].id by {
      forall k | 0 <= k < |es| && k != i
        ensures es[k].id != es[i].id
      {
        if k < i {
          assert es[k].id != es[i].id;
        } else {
          assert es[i].id != es[k].id;
        }
      }
    }
    RemoveAt(es, i);
  }

  /** Removing the one entry that holds an id leaves the others and only them. */
  lemma RemoveAt(es: seq<GlossaryEntry>, i: nat)
    requires i < |es| && forall k :: 0 <= k < |es| && k != i ==> es[k].id != es[i].id
    ensures var rest := es[..i] + es[i + 1..];
      (forall e :: e in rest ==> e.id != es[i].id)
      && (forall e :: e in es && e.id != es[i].id ==> e in rest)
      && |rest| == |es| - 1
  {
    var rest := es[..i] + es[i + 1..];
    forall e | e in rest
      ensures e.id != es[i].id
    {
      var k :| 0 <= k < |rest| && rest[k] == e;
      if k < i {
        assert e == es[k];
      } else {
        assert e == es[k + 1];
      }
    }
    forall e | e in es && e.id != es[i].id
      ensures e in rest
    {
      var k :| 0 <= k < |es| && es[k] == e;
      if k < i {
        assert rest[k] == e;
      } else {
        assert rest[k - 1] == e;
      }
    }
  }
}
