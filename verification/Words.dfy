/**
 * The "My Words" page: saving a word with its translations from the form
 * (a new word, or an upsert of an existing one), the word grid, and the
 * deletion of a word with its translations and deck links.
 */
module Words {
  import opened Text
  import opened Results
  import opened Store
  import opened Http
  import opened Decimal

  // ----- Collecting the form -----

  const TranslationFieldPrefix: Text := "translation_"
  const WordIdField: Text := "word_id"

  /** The form field that carries the translation into language `l`. */
  function TranslationField(l: Id): Text {
    TranslationFieldPrefix + Format(l)
  }

  /** One collected translation. */
  datatype Entry = Entry(langId: Id, text: Text)

  function LangsOf(entries: seq<Entry>): (ls: seq<Id>)
    ensures |ls| == |entries|
    ensures forall i :: 0 <= i < |entries| ==> ls[i] == entries[i].langId
  {
    if entries == [] then [] else [entries[0].langId] + LangsOf(entries[1..])
  }

  /** The trimmed value of a language's translation field. */
  function FieldText(form: Form, l: Id): Text {
    Trim(FormValue(form, TranslationField(l)))
  }

  /**
   * The loop over the user's languages that keeps each language whose
   * trimmed field is non-empty, in language order, with the trimmed text.
   */
  function Collect(form: Form, langIds: seq<Id>): (r: seq<Entry>)
    ensures forall i :: 0 <= i < |r| ==> r[i].langId in langIds
    ensures forall i :: 0 <= i < |r| ==> r[i].text == FieldText(form, r[i].langId) && r[i].text != []
  {
    if langIds == [] then []
    else
      var t := FieldText(form, langIds[0]);
      var rest := Collect(form, langIds[1..]);
      if t != [] then [Entry(langIds[0], t)] + rest else rest
  }

  /** Collect keeps exactly the languages with a non-empty field. */
  lemma {:induction false} CollectLangs(form: Form, langIds: seq<Id>)
    ensures forall l :: l in LangsOf(Collect(form, langIds)) <==> l in langIds && FieldText(form, l) != []
    decreases |langIds|
  {
    if langIds != [] {
      var t := FieldText(form, langIds[0]);
      var rest := Collect(form, langIds[1..]);
      CollectLangs(form, langIds[1..]);
      assert langIds == [langIds[0]] + langIds[1..];
      if t != [] {
        assert LangsOf([Entry(langIds[0], t)] + rest) == [langIds[0]] + LangsOf(rest);
      }
    }
  }

  /** Collect keeps the languages in their given order. */
  lemma {:induction false} CollectIncreasing(form: Form, langIds: seq<Id>)
    requires Increasing(langIds)
    ensures Increasing(LangsOf(Collect(form, langIds)))
    decreases |langIds|
  {
    if langIds != [] {
      var t := FieldText(form, langIds[0]);
      var rest := Collect(form, langIds[1..]);
      IncreasingTail(langIds);
      CollectIncreasing(form, langIds[1..]);
      if t != [] {
        var r := [Entry(langIds[0], t)] + rest;
        assert LangsOf(r) == [langIds[0]] + LangsOf(rest);
        forall j | 0 <= j < |rest| ensures langIds[0] < LangsOf(rest)[j] {
          assert rest[j].langId in langIds[1..];
        }
        IncreasingCons(langIds[0], LangsOf(rest));
      }
    }
  }

  /** The text collected for language `l`, if any. */
  function Lookup(entries: seq<Entry>, l: Id): (r: Option<Text>)
    ensures r.Some? <==> l in LangsOf(entries)
    ensures r.Some? ==> exists i :: 0 <= i < |entries| && entries[i] == Entry(l, r.value)
  {
    if entries == [] then None
    else if entries[0].langId == l then Some(entries[0].text)
    else
      var r := Lookup(entries[1..], l);
      assert LangsOf(entries) == [entries[0].langId] + LangsOf(entries[1..]);
      assert r.Some? ==> exists i :: 0 <= i < |entries| && entries[i] == Entry(l, r.value) by {
        if r.Some? {
          var i :| 0 <= i < |entries[1..]| && entries[1..][i] == Entry(l, r.value);
          assert entries[i + 1] == Entry(l, r.value);
        }
      }
      r
  }

  // ----- Writing translations -----

  /** Collected entries are distinct by language, in ascending language order. */
  lemma {:induction false} LookupAt(entries: seq<Entry>, i: nat)
    requires Increasing(LangsOf(entries))
    requires i < |entries|
    ensures Lookup(entries, entries[i].langId) == Some(entries[i].text)
    decreases i
  {
    if i > 0 {
      var rest := entries[1..];
      assert LangsOf(entries) == [entries[0].langId] + LangsOf(rest);
      assert LangsOf(entries)[0] < LangsOf(entries)[i];
      assert rest[i - 1] == entries[i];
      LookupAt(rest, i - 1);
    }
  }

  /** A statement the save issues against user_words. */
  datatype Write = Insert(langId: Id, text: Text) | Update(langId: Id, text: Text)

  /** The stored translation of word `w` in language `l`, or the empty text when there is no row. */
  function Stored(tr: map<TransKey, Text>, w: Id, l: Id): (t: Text)
    ensures TransKey(w, l) in tr ==> t == tr[TransKey(w, l)]
    ensures TransKey(w, l) !in tr ==> t == []
  {
    if TransKey(w, l) in tr then tr[TransKey(w, l)] else []
  }

  /** Every translation row names an existing word and language and holds a non-empty text. */
  predicate RowsValid(tr: map<TransKey, Text>, words: set<Id>, langs: set<Id>) {
    forall k :: k in tr ==> k.wordId in words && k.langId in langs && tr[k] != []
  }

  predicate EntriesValid(entries: seq<Entry>, langs: set<Id>) {
    forall i :: 0 <= i < |entries| ==> entries[i].langId in langs && entries[i].text != []
  }

  /**
   * The save loop over the collected translations of word `w` (None when
   * the word id is not a number, so that every read fails): read the
   * stored text, empty when there is none; insert when it is empty, update
   * when it differs, and leave an equal row alone.  An insert whose word
   * or language does not exist is rejected by the foreign keys.
   */
  function Upsert(tr: map<TransKey, Text>, words: set<Id>, langs: set<Id>,
                  w: Option<Id>, entries: seq<Entry>): (r: (map<TransKey, Text>, seq<Write>))
    requires RowsValid(tr, words, langs)
    requires EntriesValid(entries, langs)
    ensures RowsValid(r.0, words, langs)
    ensures w.None? || w.value !in words ==> r.0 == tr
    decreases |entries|
  {
    if entries == [] then (tr, [])
    else
      var e := entries[0];
      var existing := if w.Some? then Stored(tr, w.value, e.langId) else [];
      var tr1 :=
        if existing == [] then
          if w.Some? && w.value in words && e.langId in langs then tr[TransKey(w.value, e.langId) := e.text] else tr
        else if existing != e.text then tr[TransKey(w.value, e.langId) := e.text]
        else tr;
      var issued :=
        if existing == [] then [Insert(e.langId, e.text)]
        else if existing != e.text then [Update(e.langId, e.text)]
        else [];
      var rest := Upsert(tr1, words, langs, w, entries[1..]);
      (rest.0, issued + rest.1)
  }

  /** The rows of `a` and `b` agree outside word `w`'s rows in the languages of `entries`. */
  predicate SameOutside(a: map<TransKey, Text>, b: map<TransKey, Text>, w: Id, entries: seq<Entry>) {
    && (forall k :: k in a && (k.wordId != w || k.langId !in LangsOf(entries)) ==> k in b && b[k] == a[k])
    && (forall k :: k in b && (k.wordId != w || k.langId !in LangsOf(entries)) ==> k in a)
  }

  /** One step of the loop on an existing word: the first entry's row ends with its text. */
  lemma UpsertFirst(tr: map<TransKey, Text>, words: set<Id>, langs: set<Id>, w: Id, entries: seq<Entry>)
    requires RowsValid(tr, words, langs) && EntriesValid(entries, langs)
    requires w in words && entries != []
    ensures var e := entries[0];
      var tr1 := if Stored(tr, w, e.langId) == e.text then tr else tr[TransKey(w, e.langId) := e.text];
      var issued := if Stored(tr, w, e.langId) == e.text then []
                    else if TransKey(w, e.langId) in tr then [Update(e.langId, e.text)]
                    else [Insert(e.langId, e.text)];
      && RowsValid(tr1, words, langs) && EntriesValid(entries[1..], langs)
      && Upsert(tr, words, langs, Some(w), entries)
         == (Upsert(tr1, words, langs, Some(w), entries[1..]).0,
             issued + Upsert(tr1, words, langs, Some(w), entries[1..]).1)
  {
  }

  /**
   * On an existing word, the loop leaves each collected language with the
   * collected text and every other row as it was.
   */
  lemma {:induction false} UpsertEffect(tr: map<TransKey, Text>, words: set<Id>, langs: set<Id>,
                                        w: Id, entries: seq<Entry>)
    requires RowsValid(tr, words, langs) && EntriesValid(entries, langs)
    requires Increasing(LangsOf(entries))
    requires w in words
    ensures var tr' := Upsert(tr, words, langs, Some(w), entries).0;
      && SameOutside(tr, tr', w, entries)
      && (forall l :: l in LangsOf(entries) ==>
            TransKey(w, l) in tr' && Some(tr'[TransKey(w, l)]) == Lookup(entries, l))
    decreases |entries|
  {
    if entries != [] {
      var e := entries[0];
      var rest := entries[1..];
      assert LangsOf(entries) == [e.langId] + LangsOf(rest);
      assert Increasing(LangsOf(rest));
      assert e.langId !in LangsOf(rest);
      UpsertFirst(tr, words, langs, w, entries);
      var tr1 := if Stored(tr, w, e.langId) == e.text then tr else tr[TransKey(w, e.langId) := e.text];
      UpsertEffect(tr1, words, langs, w, rest);
      assert TransKey(w, e.langId) in tr1 && tr1[TransKey(w, e.langId)] == e.text;
    }
  }

  /**
   * On an existing word, a write is issued only for a collected language
   * whose row is missing (an insert) or holds another text (an update).
   */
  lemma {:induction false} UpsertWritesChange(tr: map<TransKey, Text>, words: set<Id>, langs: set<Id>,
                                              w: Id, entries: seq<Entry>)
    requires RowsValid(tr, words, langs) && EntriesValid(entries, langs)
    requires Increasing(LangsOf(entries))
    requires w in words
    ensures forall x :: x in Upsert(tr, words, langs, Some(w), entries).1 ==>
      && Lookup(entries, x.langId) == Some(x.text)
      && Stored(tr, w, x.langId) != x.text
      && (x.Insert? <==> TransKey(w, x.langId) !in tr)
    decreases |entries|
  {
    if entries != [] {
      var e := entries[0];
      var rest := entries[1..];
      assert LangsOf(entries) == [e.langId] + LangsOf(rest);
      assert Increasing(LangsOf(rest));
      assert e.langId !in LangsOf(rest);
      UpsertFirst(tr, words, langs, w, entries);
      var tr1 := if Stored(tr, w, e.langId) == e.text then tr else tr[TransKey(w, e.langId) := e.text];
      UpsertWritesChange(tr1, words, langs, w, rest);
      var later := Upsert(tr1, words, langs, Some(w), rest).1;
      forall x | x in later
        ensures Lookup(entries, x.langId) == Some(x.text)
        ensures Stored(tr, w, x.langId) != x.text
        ensures x.Insert? <==> TransKey(w, x.langId) !in tr
      {
        assert x.langId in LangsOf(rest);
      }
    }
  }

  /** On an existing word, no write is issued exactly when every collected row is already stored. */
  lemma UpsertWritesNone(tr: map<TransKey, Text>, words: set<Id>, langs: set<Id>,
                         w: Id, entries: seq<Entry>)
    requires RowsValid(tr, words, langs) && EntriesValid(entries, langs)
    requires w in words
    ensures Upsert(tr, words, langs, Some(w), entries).1 == [] <==>
      forall i :: 0 <= i < |entries| ==> Stored(tr, w, entries[i].langId) == entries[i].text
  {
    NoWritesStored(tr, words, langs, w, entries);
    if forall i :: 0 <= i < |entries| ==> Stored(tr, w, entries[i].langId) == entries[i].text {
      UpsertAlreadyStored(tr, words, langs, w, entries);
    }
  }

  /** An upsert that issues no write found every submitted text already stored. */
  lemma {:induction false} NoWritesStored(tr: map<TransKey, Text>, words: set<Id>, langs: set<Id>,
                                          w: Id, entries: seq<Entry>)
    requires RowsValid(tr, words, langs) && EntriesValid(entries, langs)
    requires w in words
    ensures Upsert(tr, words, langs, Some(w), entries).1 == [] ==>
      forall i :: 0 <= i < |entries| ==> Stored(tr, w, entries[i].langId) == entries[i].text
    decreases |entries|
  {
    if entries != [] {
      UpsertFirst(tr, words, langs, w, entries);
      var e := entries[0];
      if Stored(tr, w, e.langId) == e.text {
        NoWritesStored(tr, words, langs, w, entries[1..]);
        if Upsert(tr, words, langs, Some(w), entries).1 == [] {
          forall i | 0 <= i < |entries| ensures Stored(tr, w, entries[i].langId) == entries[i].text {
            if i > 0 { assert entries[i] == entries[1..][i - 1]; }
          }
        }
      }
    }
  }

  // ----- Saving -----

  datatype SaveOutcome = TranslationRequired | SavedRedirect

  /** The collected translations for `user`'s languages. */
  function CollectForUser(st: Store, user: Id, form: Form): (r: seq<Entry>)
    ensures Increasing(LangsOf(r))
    ensures EntriesValid(r, st.langs.Keys)
    ensures forall i :: 0 <= i < |r| ==> OwnsLang(st, user, r[i].langId) && r[i].text == FieldText(form, r[i].langId)
    ensures forall l :: l in LangsOf(r) <==> OwnsLang(st, user, l) && FieldText(form, l) != []
  {
    var r := Collect(form, UserLangIds(st, user));
    CollectLangs(form, UserLangIds(st, user));
    CollectIncreasing(form, UserLangIds(st, user));
    r
  }

  /** The language list, and so the collection, depends only on the languages table. */
  lemma CollectSameLangs(st1: Store, st2: Store, user: Id, form: Form)
    requires st1.langs == st2.langs
    ensures CollectForUser(st1, user, form) == CollectForUser(st2, user, form)
  {
    IncreasingUnique(UserLangIds(st1, user), UserLangIds(st2, user));
  }

  /** Replacing the words and the translations by valid ones keeps the store valid. */
  lemma WithRowsValid(st: Store, words: set<Id>, tr: map<TransKey, Text>)
    requires Valid(st)
    requires st.words <= words && 0 !in words
    requires RowsValid(tr, words, st.langs.Keys)
    ensures Valid(st.(words := words, translations := tr))
  {
  }

  /** Nothing is collected exactly when every one of the user's fields is blank. */
  lemma CollectedNothing(st: Store, user: Id, form: Form)
    ensures CollectForUser(st, user, form) == [] <==>
      forall l :: OwnsLang(st, user, l) ==> FieldText(form, l) == []
  {
    var entries := CollectForUser(st, user, form);
    if entries == [] {
      assert LangsOf(entries) == [];
    } else {
      assert entries[0].langId in LangsOf(entries);
    }
  }

  /**
   * The save of a non-empty collection: an empty word id allocates a new
   * word first; otherwise the id is read as a number.
   */
  function SaveEntries(st: Store, wordText: Text, entries: seq<Entry>): (r: (Store, seq<Write>))
    requires Valid(st)
    requires EntriesValid(entries, st.langs.Keys)
    ensures Valid(r.0)
    ensures r.0 == st.(words := r.0.words, translations := r.0.translations)
    ensures wordText != [] ==> r.0.words == st.words
    ensures wordText == [] ==> r.0.words == st.words + {FreshId(st.words)}
  {
    var newId := FreshId(st.words);
    var words := if wordText == [] then st.words + {newId} else st.words;
    var w := if wordText == [] then Some(newId) else SqlId(wordText);
    var upserted := Upsert(st.translations, words, st.langs.Keys, w, entries);
    WithRowsValid(st, words, upserted.0);
    (st.(words := words, translations := upserted.0), upserted.1)
  }

  /**
   * WordsHandler (POST): with no non-empty translation the form is shown
   * again with an error and nothing is written; otherwise the collection
   * is saved and the page redirects.
   */
  function SaveWord(st: Store, user: Id, form: Form): (r: (Store, seq<Write>, SaveOutcome))
    requires Valid(st)
    ensures Valid(r.0)
    ensures r.2 == TranslationRequired <==> forall l :: OwnsLang(st, user, l) ==> FieldText(form, l) == []
    ensures r.2 == TranslationRequired ==> r.0 == st && r.1 == []
    ensures r.0 == st.(words := r.0.words, translations := r.0.translations)
    ensures FormValue(form, WordIdField) != [] ==> r.0.words == st.words
  {
    var entries := CollectForUser(st, user, form);
    CollectedNothing(st, user, form);
    if entries == [] then (st, [], TranslationRequired)
    else
      var saved := SaveEntries(st, FormValue(form, WordIdField), entries);
      (saved.0, saved.1, SavedRedirect)
  }

  /** With something collected, SaveWord is the save of the collection. */
  lemma SaveWordSaves(st: Store, user: Id, form: Form)
    requires Valid(st)
    requires CollectForUser(st, user, form) != []
    ensures var saved := SaveEntries(st, FormValue(form, WordIdField), CollectForUser(st, user, form));
      SaveWord(st, user, form) == (saved.0, saved.1, SavedRedirect)
  {
  }

  /** The collected text of a collected language is its trimmed field. */
  lemma CollectLookup(st: Store, user: Id, form: Form, l: Id)
    requires l in LangsOf(CollectForUser(st, user, form))
    ensures Lookup(CollectForUser(st, user, form), l) == Some(FieldText(form, l))
  {
    var entries := CollectForUser(st, user, form);
    var i :| 0 <= i < |entries| && entries[i] == Entry(l, Lookup(entries, l).value);
  }

  /**
   * The loop on a word without rows: each collected language gets its
   * row, every write is an insert, and no other row changes.
   */
  lemma UpsertNewWord(tr: map<TransKey, Text>, words: set<Id>, langs: set<Id>, w: Id, entries: seq<Entry>)
    requires RowsValid(tr, words, langs) && EntriesValid(entries, langs)
    requires Increasing(LangsOf(entries))
    requires w in words
    requires forall k :: k in tr ==> k.wordId != w
    ensures var r := Upsert(tr, words, langs, Some(w), entries);
      && (forall l :: TransKey(w, l) in r.0 <==> l in LangsOf(entries))
      && (forall l :: l in LangsOf(entries) ==> Some(r.0[TransKey(w, l)]) == Lookup(entries, l))
      && (forall k :: k in tr ==> k in r.0 && r.0[k] == tr[k])
      && (forall k :: k in r.0 && k.wordId != w ==> k in tr)
      && (forall x :: x in r.1 ==> x.Insert?)
  {
    UpsertEffect(tr, words, langs, w, entries);
    UpsertWritesChange(tr, words, langs, w, entries);
  }

  /** On an existing word, after the loop every collected row holds its collected text. */
  lemma UpsertStores(tr: map<TransKey, Text>, words: set<Id>, langs: set<Id>, w: Id, entries: seq<Entry>)
    requires RowsValid(tr, words, langs) && EntriesValid(entries, langs)
    requires Increasing(LangsOf(entries))
    requires w in words
    ensures var tr1 := Upsert(tr, words, langs, Some(w), entries).0;
      forall i :: 0 <= i < |entries| ==> Stored(tr1, w, entries[i].langId) == entries[i].text
  {
    UpsertEffect(tr, words, langs, w, entries);
    var tr1 := Upsert(tr, words, langs, Some(w), entries).0;
    forall i | 0 <= i < |entries| ensures Stored(tr1, w, entries[i].langId) == entries[i].text {
      assert entries[i].langId in LangsOf(entries);
      LookupAt(entries, i);
    }
  }

  /** When every collected row already holds its text, the loop issues nothing and changes nothing. */
  lemma {:induction false} UpsertAlreadyStored(tr: map<TransKey, Text>, words: set<Id>, langs: set<Id>,
                                               w: Id, entries: seq<Entry>)
    requires RowsValid(tr, words, langs) && EntriesValid(entries, langs)
    requires w in words
    requires forall i :: 0 <= i < |entries| ==> Stored(tr, w, entries[i].langId) == entries[i].text
    ensures Upsert(tr, words, langs, Some(w), entries) == (tr, [])
    decreases |entries|
  {
    if entries != [] {
      assert forall i :: 0 <= i < |entries[1..]| ==> entries[1..][i] == entries[i + 1];
      UpsertFirst(tr, words, langs, w, entries);
      UpsertAlreadyStored(tr, words, langs, w, entries[1..]);
      assert Upsert(tr, words, langs, Some(w), entries).0 == tr;
      assert Upsert(tr, words, langs, Some(w), entries).1 == [];
    }
  }

  /** Running the loop again on its own result issues no write and changes nothing. */
  lemma UpsertSettled(tr: map<TransKey, Text>, words: set<Id>, langs: set<Id>, w: Id, entries: seq<Entry>)
    requires RowsValid(tr, words, langs) && EntriesValid(entries, langs)
    requires Increasing(LangsOf(entries))
    requires w in words
    ensures var tr1 := Upsert(tr, words, langs, Some(w), entries).0;
      Upsert(tr1, words, langs, Some(w), entries) == (tr1, [])
  {
    UpsertStores(tr, words, langs, w, entries);
    UpsertAlreadyStored(Upsert(tr, words, langs, Some(w), entries).0, words, langs, w, entries);
  }

  /**
   * A new word: one fresh word id, and for it exactly the collected
   * translations, each inserted; every other row is as before.
   */
  lemma SaveNewWord(st: Store, user: Id, form: Form)
    requires Valid(st)
    requires FormValue(form, WordIdField) == []
    requires exists l :: OwnsLang(st, user, l) && FieldText(form, l) != []
    ensures var r := SaveWord(st, user, form);
      var st', writes := r.0, r.1;
      var w := FreshId(st.words);
      && w !in st.words
      && st'.words == st.words + {w}
      && (forall l :: TransKey(w, l) in st'.translations <==> OwnsLang(st, user, l) && FieldText(form, l) != [])
      && (forall l :: TransKey(w, l) in st'.translations ==> st'.translations[TransKey(w, l)] == FieldText(form, l))
      && (forall k :: k in st.translations ==> k in st'.translations && st'.translations[k] == st.translations[k])
      && (forall k :: k in st'.translations && k.wordId != w ==> k in st.translations)
      && (forall x :: x in writes ==> x.Insert?)
  {
    var entries := CollectForUser(st, user, form);
    var l :| OwnsLang(st, user, l) && FieldText(form, l) != [];
    assert l in LangsOf(entries);
    SaveWordSaves(st, user, form);
    var w := FreshId(st.words);
    UpsertNewWord(st.translations, st.words + {w}, st.langs.Keys, w, entries);
    forall l | l in LangsOf(entries) { CollectLookup(st, user, form, l); }
  }

  /**
   * An edit of an existing word: each collected language ends with the
   * collected text; every other row, blank languages included, keeps its
   * text; nothing is deleted; and a write is issued only for a row that
   * is missing (an insert) or holds a different text (an update).
   */
  lemma SaveExistingWord(st: Store, user: Id, form: Form, w: Id)
    requires Valid(st)
    requires SqlId(FormValue(form, WordIdField)) == Some(w)
    requires w in st.words
    ensures var r := SaveWord(st, user, form);
      var st', writes := r.0, r.1;
      && st'.words == st.words
      && (forall l :: OwnsLang(st, user, l) && FieldText(form, l) != [] ==>
            TransKey(w, l) in st'.translations && st'.translations[TransKey(w, l)] == FieldText(form, l))
      && (forall k :: k in st.translations && (k.wordId != w || FieldText(form, k.langId) == [] || !OwnsLang(st, user, k.langId)) ==>
            k in st'.translations && st'.translations[k] == st.translations[k])
      && (forall k :: k in st.translations ==> k in st'.translations)
      && (forall x :: x in writes ==>
            && OwnsLang(st, user, x.langId) && x.text == FieldText(form, x.langId)
            && TranslationOrEmpty(st, w, x.langId) != x.text
            && (x.Insert? <==> TransKey(w, x.langId) !in st.translations))
  {
    var entries := CollectForUser(st, user, form);
    if entries != [] {
      assert entries[0].langId in LangsOf(entries);
      SaveWordSaves(st, user, form);
      UpsertEffect(st.translations, st.words, st.langs.Keys, w, entries);
      UpsertWritesChange(st.translations, st.words, st.langs.Keys, w, entries);
      forall l | l in LangsOf(entries) { CollectLookup(st, user, form, l); }
    }
  }

  /** Saving an edited word a second time issues no write and changes nothing. */
  lemma SaveExistingWordIdempotent(st: Store, user: Id, form: Form, w: Id)
    requires Valid(st)
    requires SqlId(FormValue(form, WordIdField)) == Some(w)
    requires w in st.words
    ensures var st1 := SaveWord(st, user, form).0;
      SaveWord(st1, user, form).0 == st1 && SaveWord(st1, user, form).1 == []
  {
    var st1 := SaveWord(st, user, form).0;
    var entries := CollectForUser(st, user, form);
    CollectSameLangs(st, st1, user, form);
    if entries != [] {
      SaveWordSaves(st, user, form);
      SaveWordSaves(st1, user, form);
      UpsertSettled(st.translations, st.words, st.langs.Keys, w, entries);
    }
  }

  // ----- The word grid -----

  /** A row of the grid: a word and its translation in each of the user's languages ("" when none). */
  datatype WordRow = WordRow(wordId: Id, cells: seq<Text>)

  function Cells(st: Store, w: Id, langIds: seq<Id>): (r: seq<Text>)
    ensures |r| == |langIds|
    ensures forall i :: 0 <= i < |langIds| ==> r[i] == TranslationOrEmpty(st, w, langIds[i])
  {
    if langIds == [] then [] else [TranslationOrEmpty(st, w, langIds[0])] + Cells(st, w, langIds[1..])
  }

  /** The words with a translation in one of `user`'s languages. */
  function UserWords(st: Store, user: Id): (ws: set<Id>)
    ensures forall w :: w in ws <==> HasUserTranslation(st, user, w)
  {
    var ws := set k | k in st.translations && OwnsLang(st, user, k.langId) :: k.wordId;
    assert forall w :: HasUserTranslation(st, user, w) ==> w in ws by {
      forall w | HasUserTranslation(st, user, w) ensures w in ws {
        var l :| l in st.langs && OwnsLang(st, user, l) && TransKey(w, l) in st.translations;
        assert TransKey(w, l).wordId == w;
      }
    }
    ws
  }

  function Rows(st: Store, ids: seq<Id>, langIds: seq<Id>): (r: seq<WordRow>)
    ensures |r| == |ids|
    ensures forall i :: 0 <= i < |ids| ==> r[i] == WordRow(ids[i], Cells(st, ids[i], langIds))
  {
    if ids == [] then [] else [WordRow(ids[0], Cells(st, ids[0], langIds))] + Rows(st, ids[1..], langIds)
  }

  /**
   * The listing: the distinct words translated into one of the user's
   * languages, in ascending id order, each with one cell per language.
   */
  function WordGrid(st: Store, user: Id): (r: seq<WordRow>)
    ensures forall i, j :: 0 <= i < j < |r| ==> r[i].wordId < r[j].wordId
    ensures forall i :: 0 <= i < |r| ==> HasUserTranslation(st, user, r[i].wordId)
    ensures forall w :: HasUserTranslation(st, user, w) ==> exists i :: 0 <= i < |r| && r[i].wordId == w
    ensures forall i :: 0 <= i < |r| ==> r[i].cells == Cells(st, r[i].wordId, UserLangIds(st, user))
  {
    var ids := SortedIds(UserWords(st, user));
    var r := Rows(st, ids, UserLangIds(st, user));
    GridCoversWords(ids, r, UserWords(st, user));
    r
  }

  lemma GridCoversWords(ids: seq<Id>, r: seq<WordRow>, ws: set<Id>)
    requires |r| == |ids|
    requires forall i :: 0 <= i < |ids| ==> r[i].wordId == ids[i]
    requires forall w :: w in ids <==> w in ws
    ensures forall w :: w in ws ==> exists i :: 0 <= i < |r| && r[i].wordId == w
  {
    forall w | w in ws ensures exists i :: 0 <= i < |r| && r[i].wordId == w {
      var i :| 0 <= i < |ids| && ids[i] == w;
      assert r[i].wordId == w;
    }
  }

  /** In a valid store a cell is empty exactly when the word has no row in that language. */
  lemma GridCellEmpty(st: Store, user: Id, i: nat, j: nat)
    requires Valid(st)
    requires i < |WordGrid(st, user)| && j < |UserLangIds(st, user)|
    ensures var row := WordGrid(st, user)[i];
      var l := UserLangIds(st, user)[j];
      && |row.cells| == |UserLangIds(st, user)|
      && (row.cells[j] == [] <==> TransKey(row.wordId, l) !in st.translations)
  {
  }

  // ----- Deleting -----

  datatype DeleteOutcome = Forbidden | Deleted

  /** The three deletes of a word: its deck links, its translations, then the word row. */
  function RemoveWord(st: Store, w: Id): (r: Store)
    requires Valid(st)
    ensures Valid(r)
    ensures r.words == st.words - {w}
    ensures forall k :: k in r.translations <==> k in st.translations && k.wordId != w
    ensures forall k :: k in r.translations ==> r.translations[k] == st.translations[k]
    ensures forall x :: x in r.deckWords <==> x in st.deckWords && x.wordId != w
    ensures forall x: DeckWord :: x.wordId != w ==> multiset(r.deckWords)[x] == multiset(st.deckWords)[x]
    ensures SubsequenceOf(r.deckWords, st.deckWords)
    ensures r == st.(words := r.words, translations := r.translations, deckWords := r.deckWords)
  {
    RemoveWordValid(st, w);
    st.(deckWords := DropWordLinks(st.deckWords, w),
        translations := map k | k in st.translations && k.wordId != w :: st.translations[k],
        words := st.words - {w})
  }

  lemma RemoveWordValid(st: Store, w: Id)
    requires Valid(st)
    ensures Valid(st.(deckWords := DropWordLinks(st.deckWords, w),
                      translations := map k | k in st.translations && k.wordId != w :: st.translations[k],
                      words := st.words - {w}))
  {
  }

  /**
   * DeleteWordHandler: the word must have a translation in one of the
   * user's languages (a non-numeric id counts nothing); then its deck
   * links, its translations and the word itself are removed.
   */
  function DeleteWord(st: Store, user: Id, idText: Text): (r: (Store, DeleteOutcome))
    requires Valid(st)
    ensures Valid(r.0)
    ensures r.1 == Deleted <==> SqlId(idText).Some? && HasUserTranslation(st, user, SqlId(idText).value)
    ensures r.1 == Forbidden ==> r.0 == st
    ensures r.1 == Deleted ==> r.0 == RemoveWord(st, SqlId(idText).value)
  {
    match SqlId(idText)
    case None => (st, Forbidden)
    case Some(w) =>
      if !HasUserTranslation(st, user, w) then (st, Forbidden)
      else (RemoveWord(st, w), Deleted)
  }

  /** After a deletion nothing refers to the word any more. */
  lemma DeleteWordLeavesNoTrace(st: Store, user: Id, idText: Text)
    requires Valid(st)
    requires DeleteWord(st, user, idText).1 == Deleted
    ensures var st' := DeleteWord(st, user, idText).0;
      var w := SqlId(idText).value;
      && w !in st'.words
      && (forall l :: TransKey(w, l) !in st'.translations)
      && (forall i :: 0 <= i < |st'.deckWords| ==> st'.deckWords[i].wordId != w)
      && !HasUserTranslation(st', user, w)
  {
    var st' := DeleteWord(st, user, idText).0;
    var w := SqlId(idText).value;
    assert forall i :: 0 <= i < |st'.deckWords| ==> st'.deckWords[i] in st'.deckWords;
    assert forall l :: TransKey(w, l) !in st'.translations;
  }
}
