/**
 * The "My Languages" page: adding a language, listing the user's
 * languages, renaming one, and deleting one together with its
 * translations and deck links.
 */
module Languages {
  import opened Text
  import opened Results
  import opened Store
  import opened Http
  import opened Decimal

  const LangTitleField: Text := "langtitle"

  // ----- Adding -----

  /**
   * `INSERT INTO user_langs (user_id, lang_title)`: one new row under the
   * next serial id, or a failure (None) when the user row does not exist.
   * The title is stored as given, without trimming.
   */
  function InsertLanguage(st: Store, user: Id, title: Text): (r: Option<Store>)
    requires Valid(st)
    ensures r.Some? <==> user in st.users
    ensures r.Some? ==>
      var id := FreshId(st.langs.Keys);
      && Valid(r.value)
      && id !in st.langs
      && r.value.langs.Keys == st.langs.Keys + {id}
      && r.value.langs[id] == UserLang(user, title)
      && (forall l :: l in st.langs ==> r.value.langs[l] == st.langs[l])
      && r.value == st.(langs := r.value.langs)
  {
    if user !in st.users then None
    else
      AddLangValid(st, FreshId(st.langs.Keys), UserLang(user, title));
      Some(st.(langs := st.langs[FreshId(st.langs.Keys) := UserLang(user, title)]))
  }

  /** A row of the listing: `SELECT id, user_id, lang_title`. */
  datatype LangRow = LangRow(id: Id, userId: Id, title: Text)

  /** The page data: the languages and the id of the row being edited. */
  datatype LangPage = LangPage(languages: seq<LangRow>, editId: int)

  datatype LangOutcome =
    | ToLogin
    | InvalidUserSession
    | InsertFailed
    | Added
    | Listing(page: LangPage)

  // ----- Listing -----

  function RowsOf(st: Store, ids: seq<Id>): (r: seq<LangRow>)
    requires forall i :: 0 <= i < |ids| ==> ids[i] in st.langs
    ensures |r| == |ids|
    ensures forall i :: 0 <= i < |ids| ==>
      r[i] == LangRow(ids[i], st.langs[ids[i]].userId, st.langs[ids[i]].title)
  {
    if ids == [] then [] else [LangRow(ids[0], st.langs[ids[0]].userId, st.langs[ids[0]].title)] + RowsOf(st, ids[1..])
  }

  /** `SELECT ... FROM user_langs WHERE user_id = ?`: the user's languages in id order. */
  function ListLanguages(st: Store, user: Id): (r: seq<LangRow>)
    ensures forall i, j :: 0 <= i < j < |r| ==> r[i].id < r[j].id
    ensures forall i :: 0 <= i < |r| ==>
      OwnsLang(st, user, r[i].id) && r[i] == LangRow(r[i].id, user, st.langs[r[i].id].title)
  {
    RowsOf(st, UserLangIds(st, user))
  }

  /** Every language of the user is listed. */
  lemma ListLanguagesComplete(st: Store, user: Id, l: Id)
    requires OwnsLang(st, user, l)
    ensures exists i :: 0 <= i < |ListLanguages(st, user)| && ListLanguages(st, user)[i].id == l
  {
    var ids := UserLangIds(st, user);
    var i :| 0 <= i < |ids| && ids[i] == l;
    assert ListLanguages(st, user)[i].id == l;
  }

  /** The rows of ids whose languages agree in two stores are the same. */
  lemma {:induction false} RowsOfAgree(st1: Store, st2: Store, ids: seq<Id>)
    requires forall i :: 0 <= i < |ids| ==> ids[i] in st1.langs && ids[i] in st2.langs
    requires forall i :: 0 <= i < |ids| ==> st1.langs[ids[i]] == st2.langs[ids[i]]
    ensures RowsOf(st1, ids) == RowsOf(st2, ids)
  {
  }

  lemma {:induction false} RowsOfSnoc(st: Store, ids: seq<Id>, id: Id)
    requires forall i :: 0 <= i < |ids| ==> ids[i] in st.langs
    requires id in st.langs
    ensures RowsOf(st, ids + [id]) == RowsOf(st, ids) + [LangRow(id, st.langs[id].userId, st.langs[id].title)]
  {
    var r := RowsOf(st, ids + [id]);
    var e := RowsOf(st, ids) + [LangRow(id, st.langs[id].userId, st.langs[id].title)];
    assert |r| == |e|;
    forall i | 0 <= i < |r| ensures r[i] == e[i] {
      if i < |ids| { assert (ids + [id])[i] == ids[i]; }
    }
  }

  /** Adding a language row above every existing id appends it to its owner's listing. */
  lemma OwnersAfterAdd(st: Store, st': Store, user: Id, id: Id, title: Text)
    requires id !in st.langs
    requires st'.langs == st.langs[id := UserLang(user, title)]
    ensures forall l: Id :: OwnsLang(st', user, l) <==> OwnsLang(st, user, l) || l == id
  {
  }

  lemma OldRowsKept(st: Store, st': Store, ids: seq<Id>, id: Id, v: UserLang)
    requires forall i :: 0 <= i < |ids| ==> ids[i] in st.langs
    requires id !in st.langs
    requires st'.langs == st.langs[id := v]
    ensures forall i :: 0 <= i < |ids| ==>
      ids[i] in st.langs && ids[i] in st'.langs && st.langs[ids[i]] == st'.langs[ids[i]]
  {
  }

  lemma ListAfterAdd(st: Store, st': Store, user: Id, id: Id, title: Text)
    requires id !in st.langs && forall l :: l in st.langs ==> l < id
    requires st'.langs == st.langs[id := UserLang(user, title)]
    ensures ListLanguages(st', user) == ListLanguages(st, user) + [LangRow(id, user, title)]
  {
    var old_ids := UserLangIds(st, user);
    OwnersAfterAdd(st, st', user, id, title);
    UserLangIdsSnoc(st, st', user, id);
    OldRowsKept(st, st', old_ids, id, UserLang(user, title));
    RowsOfAgree(st, st', old_ids);
    RowsOfSnoc(st', old_ids, id);
  }

  /** After an insert the listing gains exactly the new language, at its end. */
  lemma ListAfterInsert(st: Store, user: Id, title: Text)
    requires Valid(st)
    requires user in st.users
    ensures var st' := InsertLanguage(st, user, title).value;
      ListLanguages(st', user)
        == ListLanguages(st, user) + [LangRow(FreshId(st.langs.Keys), user, title)]
  {
    ListAfterAdd(st, InsertLanguage(st, user, title).value, user, FreshId(st.langs.Keys), title);
  }

  // ----- The page handler -----

  /**
   * LanguagesHandler: the session gate; a POST with a non-empty title
   * inserts the language (a failed insert is an error) and redirects; a
   * POST with an empty title, and every GET, shows the listing.  The
   * `edit` query parameter is read with Atoi and its error ignored.
   */
  function LanguagesHandler(st: Store, session: Session, post: bool, form: Form, editParam: Text)
    : (r: (Store, LangOutcome))
    requires Valid(st)
    ensures Valid(r.0)
    ensures r.1 == ToLogin <==> !session.authenticated
    ensures r.1 == InvalidUserSession <==> session.authenticated && session.userId.None?
    ensures r.1 == Added <==>
      && session.authenticated && session.userId.Some?
      && post && FormValue(form, LangTitleField) != [] && session.userId.value in st.users
    ensures r.1 != Added ==> r.0 == st
    ensures r.1 == Added ==>
      r.0 == InsertLanguage(st, session.userId.value, FormValue(form, LangTitleField)).value
    ensures r.1.Listing? ==>
      && r.1.page.languages == ListLanguages(st, session.userId.value)
      && r.1.page.editId == (if editParam == [] then 0 else Atoi(editParam).0)
  {
    match SessionGate(session)
    case NotAuthenticated => (st, ToLogin)
    case NoUserId => (st, InvalidUserSession)
    case Allowed(user) =>
      var editId := if editParam == [] then 0 else Atoi(editParam).0;
      var title := FormValue(form, LangTitleField);
      if post && title != [] then
        match InsertLanguage(st, user, title)
        case None => (st, InsertFailed)
        case Some(st') => (st', Added)
      else (st, Listing(LangPage(ListLanguages(st, user), editId)))
  }

  // ----- Renaming -----

  /** `UPDATE user_langs SET lang_title = ? WHERE id = ?`: a no-op when no row has that id. */
  function RetitleLanguage(st: Store, id: int, title: Text): (r: Store)
    requires Valid(st)
    ensures Valid(r)
    ensures r.langs.Keys == st.langs.Keys
    ensures forall l :: l in st.langs && l != id ==> r.langs[l] == st.langs[l]
    ensures 0 <= id && id in st.langs ==>
      r.langs[id] == UserLang(st.langs[id].userId, title)
    ensures r == st.(langs := r.langs)
  {
    if 0 <= id && id in st.langs then
      st.(langs := st.langs[id := st.langs[id].(title := title)])
    else st
  }

  /**
   * EditLanguageHandler: only a POST acts; the id is the path suffix read
   * with Atoi (its error ignored), the new title is taken as given, and
   * there is no session or ownership check.
   */
  function EditLanguage(st: Store, post: bool, idText: Text, newTitle: Text): (r: Store)
    requires Valid(st)
    ensures Valid(r)
    ensures !post ==> r == st
    ensures post ==> r == RetitleLanguage(st, Atoi(idText).0, newTitle)
  {
    if !post then st else RetitleLanguage(st, Atoi(idText).0, newTitle)
  }

  /** Renaming twice to the same title is renaming once. */
  lemma RetitleIdempotent(st: Store, id: int, title: Text)
    requires Valid(st)
    ensures RetitleLanguage(RetitleLanguage(st, id, title), id, title) == RetitleLanguage(st, id, title)
  {
  }

  /** A rename changes no language's owner, so no user's listing gains or loses a row. */
  lemma RetitleKeepsOwners(st: Store, id: int, title: Text, user: Id)
    requires Valid(st)
    ensures forall l :: OwnsLang(RetitleLanguage(st, id, title), user, l) <==> OwnsLang(st, user, l)
  {
  }

  // ----- Deleting -----

  /**
   * The three deletes of a language: its translations, its deck links,
   * then the language row.  An id with no row removes nothing.
   */
  function RemoveLanguage(st: Store, id: int): (r: Store)
    requires Valid(st)
    ensures Valid(r)
    ensures forall l :: l in r.langs <==> l in st.langs && l != id
    ensures forall l :: l in r.langs ==> r.langs[l] == st.langs[l]
    ensures forall k :: k in r.translations <==> k in st.translations && k.langId != id
    ensures forall k :: k in r.translations ==> r.translations[k] == st.translations[k]
    ensures forall x :: x in r.deckLangs <==> x in st.deckLangs && x.langId != id
    ensures forall x: DeckLang :: x.langId != id ==> multiset(r.deckLangs)[x] == multiset(st.deckLangs)[x]
    ensures SubsequenceOf(r.deckLangs, st.deckLangs)
    ensures r == st.(langs := r.langs, translations := r.translations, deckLangs := r.deckLangs)
  {
    RemoveLanguageValid(st, id);
    st.(translations := map k | k in st.translations && k.langId != id :: st.translations[k],
        deckLangs := DropLangLinks(st.deckLangs, id),
        langs := map l | l in st.langs && l != id :: st.langs[l])
  }

  lemma RemoveLanguageValid(st: Store, id: int)
    requires Valid(st)
    ensures Valid(st.(translations := map k | k in st.translations && k.langId != id :: st.translations[k],
                      deckLangs := DropLangLinks(st.deckLangs, id),
                      langs := map l | l in st.langs && l != id :: st.langs[l]))
  {
  }

  /**
   * DeleteLanguageHandler: only a POST acts; the id is the path suffix
   * read with Atoi (its error ignored); there is no session or ownership
   * check.
   */
  function DeleteLanguage(st: Store, post: bool, idText: Text): (r: Store)
    requires Valid(st)
    ensures Valid(r)
    ensures !post ==> r == st
    ensures post ==> r == RemoveLanguage(st, Atoi(idText).0)
  {
    if !post then st else RemoveLanguage(st, Atoi(idText).0)
  }

  /** Deleting an id that has no language row changes nothing. */
  lemma RemoveMissingLanguage(st: Store, id: int)
    requires Valid(st)
    requires !(0 <= id && id in st.langs)
    ensures RemoveLanguage(st, id) == st
  {
    var r := RemoveLanguage(st, id);
    DropLangLinksNone(st.deckLangs, id);
    assert r.langs == st.langs;
    assert r.translations == st.translations;
  }

  /** A non-numeric id reads as 0, which is never a row: the delete removes nothing. */
  lemma DeleteNonNumericId(st: Store, idText: Text)
    requires Valid(st)
    requires forall i :: 0 <= i < |idText| ==> !IsDigit(idText[i])
    ensures DeleteLanguage(st, true, idText) == st
  {
    AtoiNonNumeric(idText);
    RemoveMissingLanguage(st, 0);
  }

  /** After a delete nothing refers to the language any more. */
  lemma RemoveLeavesNoTrace(st: Store, id: Id)
    requires Valid(st)
    ensures var r := RemoveLanguage(st, id);
      && id !in r.langs
      && (forall w :: TransKey(w, id) !in r.translations)
      && (forall i :: 0 <= i < |r.deckLangs| ==> r.deckLangs[i].langId != id)
  {
    var r := RemoveLanguage(st, id);
    assert forall i :: 0 <= i < |r.deckLangs| ==> r.deckLangs[i] in r.deckLangs;
  }

  /** Deleting a language just added gives back the store it was added to. */
  lemma InsertThenRemove(st: Store, user: Id, title: Text)
    requires Valid(st)
    requires user in st.users
    ensures RemoveLanguage(InsertLanguage(st, user, title).value, FreshId(st.langs.Keys)) == st
  {
    RemoveAdded(st, InsertLanguage(st, user, title).value, FreshId(st.langs.Keys));
  }

  lemma RemoveAdded(st: Store, st': Store, id: Id)
    requires Valid(st) && Valid(st')
    requires id !in st.langs && id in st'.langs
    requires st' == st.(langs := st'.langs)
    requires forall l :: l in st.langs ==> l in st'.langs && st'.langs[l] == st.langs[l]
    requires forall l :: l in st'.langs ==> l in st.langs || l == id
    ensures RemoveLanguage(st', id) == st
  {
    var r := RemoveLanguage(st', id);
    DropLangLinksNone(st.deckLangs, id);
    assert r.langs == st.langs;
    assert r.translations == st.translations;
  }
}
