/** The two glossary tables and the constraints the database enforces on them:
    column lengths, the language-code pattern, the uniqueness constraints, the
    foreign key from entries to glossaries and its cascading delete. */
module GlossaryStore {
  import opened Wrappers
  import opened Text

  /** A row of `glossaries`; times are abstract instants. */
  datatype Glossary = Glossary(
    id: int,
    deeplGlossaryId: Option<string>,
    name: string,
    sourceLang: string,
    targetLang: string,
    createdAt: int,
    updatedAt: Option<int>)

  /** A row of `glossary_entries`. */
  datatype GlossaryEntry = GlossaryEntry(
    id: int,
    glossaryId: int,
    sourceTerm: string,
    targetTerm: string,
    createdAt: int)

  /** Both tables: glossaries by primary key, entries in storage order. */
  datatype Store = Store(glossaries: map<int, Glossary>, entries: seq<GlossaryEntry>)

  const MaxNameLength: nat := 255
  const MaxTermLength: nat := 1024

  predicate IsUpperLetter(c: char) {
    'A' <= c <= 'Z'
  }

  /** `^[A-Z]{2}(-[A-Z]{2})?$`. */
  predicate IsLangCode(s: string) {
    (|s| == 2 || (|s| == 5 && s[2] == '-' && IsUpperLetter(s[3]) && IsUpperLetter(s[4])))
    && IsUpperLetter(s[0]) && IsUpperLetter(s[1])
  }

  /** A code the pattern admits is already upper case, so upper-casing it
      before a comparison changes nothing. */
  lemma LangCodeIsUpper(s: string)
    requires IsLangCode(s)
    ensures Upper(s) == s
  {
  }

  /** The two- and five-character shapes are the only ones admitted. */
  lemma LangCodeShape(s: string)
    ensures IsLangCode(s) ==> |s| == 2 || |s| == 5
    ensures |s| == 2 ==> (IsLangCode(s) <==> IsUpperLetter(s[0]) && IsUpperLetter(s[1]))
    ensures !IsLangCode("")
  {
  }

  predicate GlossaryRowOk(id: int, g: Glossary) {
    g.id == id && |g.name| <= MaxNameLength && IsLangCode(g.sourceLang) && IsLangCode(g.targetLang)
  }

  predicate EntryRowOk(e: GlossaryEntry) {
    |e.sourceTerm| <= MaxTermLength && |e.targetTerm| <= MaxTermLength
  }

  /** `uix_lang_pair`, and the unique DeepL id (several rows may lack one). */
  predicate GlossaryKeysUnique(gs: map<int, Glossary>) {
    (forall a, b :: a in gs && b in gs && a != b ==>
       (gs[a].sourceLang, gs[a].targetLang) != (gs[b].sourceLang, gs[b].targetLang))
    && (forall a, b :: a in gs && b in gs && a != b && gs[a].deeplGlossaryId.Some? ==>
       gs[a].deeplGlossaryId != gs[b].deeplGlossaryId)
  }

  /** The primary key of entries and `uix_glossary_source_term`. */
  predicate EntryKeysUnique(es: seq<GlossaryEntry>) {
    forall i, j :: 0 <= i < j < |es| ==>
      es[i].id != es[j].id && (es[i].glossaryId, es[i].sourceTerm) != (es[j].glossaryId, es[j].sourceTerm)
  }

  /** Every constraint of both tables. The column `glossary_id` of an entry
      admits `NULL`; the model has no such entry, so it asks every entry's
      glossary to exist, which is what the foreign key demands of a value
      that is set. */
  predicate Schema(db: Store) {
    (forall id :: id in db.glossaries ==> GlossaryRowOk(id, db.glossaries[id]))
    && GlossaryKeysUnique(db.glossaries)
    && (forall i :: 0 <= i < |db.entries| ==> EntryRowOk(db.entries[i]) && db.entries[i].glossaryId in db.glossaries)
    && EntryKeysUnique(db.entries)
  }

  /** The glossary that holds a language pair, if any; there is at most one. */
  lemma OneGlossaryPerPair(db: Store, a: int, b: int)
    requires Schema(db) && a in db.glossaries && b in db.glossaries
    requires db.glossaries[a].sourceLang == db.glossaries[b].sourceLang
    requires db.glossaries[a].targetLang == db.glossaries[b].targetLang
    ensures a == b
  {
  }

  /** Within one glossary a source term names at most one entry. */
  lemma OneEntryPerSourceTerm(db: Store, i: nat, j: nat)
    requires Schema(db) && i < |db.entries| && j < |db.entries|
    requires db.entries[i].glossaryId == db.entries[j].glossaryId
    requires db.entries[i].sourceTerm == db.entries[j].sourceTerm
    ensures i == j
  {
  }

  /** The entries that do not belong to glossary `gid`, in order. */
  function EntriesOutside(es: seq<GlossaryEntry>, gid: int): (r: seq<GlossaryEntry>)
    ensures forall e :: e in r <==> e in es && e.glossaryId != gid
    decreases |es|
  {
    if es == [] then []
    else
      var rest := EntriesOutside(es[..|es| - 1], gid);
      assert es == es[..|es| - 1] + [es[|es| - 1]];
      if es[|es| - 1].glossaryId == gid then rest else rest + [es[|es| - 1]]
  }

  /** Deleting a glossary: its row goes, and with it, by the cascade, every one
      of its entries. */
  function DeleteGlossary(db: Store, gid: int): Store {
    Store(db.glossaries - {gid}, EntriesOutside(db.entries, gid))
  }

  /** Keeping a subsequence of the entries keeps both keys unique. */
  lemma {:induction false} EntriesOutsideUnique(es: seq<GlossaryEntry>, gid: int)
    requires EntryKeysUnique(es)
    ensures EntryKeysUnique(EntriesOutside(es, gid))
    decreases |es|
  {
    if es != [] {
      var init, last := es[..|es| - 1], es[|es| - 1];
      assert forall i, j :: 0 <= i < j < |init| ==> init[i] == es[i] && init[j] == es[j];
      EntriesOutsideUnique(init, gid);
      var rest := EntriesOutside(init, gid);
      if last.glossaryId != gid {
        forall e | e in rest
          ensures e.id != last.id && (e.glossaryId, e.sourceTerm) != (last.glossaryId, last.sourceTerm)
        {
          var i :| 0 <= i < |init| && init[i] == e;
          assert es[i] == e && i < |es| - 1;
        }
        var r := rest + [last];
        forall i, j | 0 <= i < j < |r|
          ensures r[i].id != r[j].id && (r[i].glossaryId, r[i].sourceTerm) != (r[j].glossaryId, r[j].sourceTerm)
        {
          if j == |rest| {
            assert r[i] in rest && r[j] == last;
          } else {
            assert r[i] == rest[i] && r[j] == rest[j];
          }
        }
      }
    }
  }

  /** The cascade leaves no entry behind that refers to the deleted glossary,
      keeps every other entry, and keeps every constraint. */
  lemma CascadeDelete(db: Store, gid: int)
    requires Schema(db)
    ensures var db' := DeleteGlossary(db, gid);
      Schema(db')
      && (forall e :: e in db'.entries ==> e.glossaryId != gid)
      && (forall e :: e in db.entries && e.glossaryId != gid ==> e in db'.entries)
  {
    var db' := DeleteGlossary(db, gid);
    EntriesOutsideUnique(db.entries, gid);
    forall i | 0 <= i < |db'.entries|
      ensures EntryRowOk(db'.entries[i]) && db'.entries[i].glossaryId in db'.glossaries
    {
      assert db'.entries[i] in db.entries;
    }
  }
}
