/**
 * The four handlers that edit a deck's link tables: adding and removing
 * a language (deck_langs) and adding and removing a word (deck_words).
 */
module DeckLinks {
  import opened Text
  import opened Results
  import opened Store
  import opened Http
  import opened Decimal
  import DeckView

  const LangIdField: Text := "lang_id"
  const DeckIdField: Text := "deck_id"
  const WordIdField: Text := "word_id"

  datatype Outcome =
    | ToLogin
    | InvalidUserSession
    | MethodNotAllowed
    | InvalidDeckId
    | InvalidLangId
    | InvalidWordId
    | InvalidParameters
    | LangForbidden
    | DeckForbidden
    | WordForbidden
    | AlreadyInDeck
    | Redirect

  // ----- Languages -----

  /**
   * AddLangToDeckHandler: the session gate, POST only, the deck id from
   * the path and `lang_id` from the form read with Atoi, and the language
   * must be the user's.  The deck is not checked: the insert, whose error
   * is ignored, adds the link when the deck exists (its foreign key), and
   * adds it again when the deck already has the language.
   */
  function AddLangToDeck(st: Store, session: Session, post: bool, deckIdText: Text, form: Form)
    : (r: (Store, Outcome))
    requires Valid(st)
    ensures Valid(r.0)
    ensures r.1 == ToLogin <==> !session.authenticated
    ensures r.1 == InvalidUserSession <==> session.authenticated && session.userId.None?
    ensures r.1 == MethodNotAllowed <==> session.authenticated && session.userId.Some? && !post
    ensures r.1 == InvalidDeckId <==>
      session.authenticated && session.userId.Some? && post && !Atoi(deckIdText).1
    ensures r.1 == InvalidLangId <==>
      && session.authenticated && session.userId.Some? && post && Atoi(deckIdText).1
      && !Atoi(FormValue(form, LangIdField)).1
    ensures r.1 == Redirect <==>
      && session.authenticated && session.userId.Some? && post && Atoi(deckIdText).1
      && var l := Atoi(FormValue(form, LangIdField));
         l.1 && l.0 >= 0 && OwnsLang(st, session.userId.value, l.0)
    ensures r.1 != Redirect ==> r.0 == st
    ensures r.1 == Redirect ==>
      var d := Atoi(deckIdText).0;
      var l := Atoi(FormValue(form, LangIdField)).0;
      && r.0 == st.(deckLangs := r.0.deckLangs)
      && (d >= 0 && d in st.decks ==> r.0.deckLangs == st.deckLangs + [DeckLang(d, l)])
      && (!(d >= 0 && d in st.decks) ==> r.0 == st)
  {
    match SessionGate(session)
    case NotAuthenticated => (st, ToLogin)
    case NoUserId => (st, InvalidUserSession)
    case Allowed(user) =>
      if !post then (st, MethodNotAllowed)
      else
        var d := Atoi(deckIdText);
        if !d.1 then (st, InvalidDeckId)
        else
          var l := Atoi(FormValue(form, LangIdField));
          if !l.1 then (st, InvalidLangId)
          else if !(l.0 >= 0 && OwnsLang(st, user, l.0)) then (st, LangForbidden)
          else if d.0 >= 0 && d.0 in st.decks then
            AddLangLinkValid(st, d.0, l.0);
            (st.(deckLangs := st.deckLangs + [DeckLang(d.0, l.0)]), Redirect)
          else (st, Redirect)
  }

  /** An added language is one of the deck's languages and is no longer offered. */
  lemma AddedLangShown(st: Store, session: Session, deckIdText: Text, form: Form)
    requires Valid(st)
    requires AddLangToDeck(st, session, true, deckIdText, form).1 == Redirect
    requires Atoi(deckIdText).0 >= 0 && Atoi(deckIdText).0 in st.decks
    ensures var st' := AddLangToDeck(st, session, true, deckIdText, form).0;
      var d := Atoi(deckIdText).0;
      var l := Atoi(FormValue(form, LangIdField)).0;
      && l in DeckView.DeckLangSet(st', d)
      && (forall x :: x in DeckView.AvailableLangs(st', session.userId.value, d) ==> x.id != l)
  {
  }

  /** Adding the same language twice stores the link twice. */
  lemma AddLangTwice(st: Store, session: Session, deckIdText: Text, form: Form)
    requires Valid(st)
    requires AddLangToDeck(st, session, true, deckIdText, form).1 == Redirect
    requires Atoi(deckIdText).0 >= 0 && Atoi(deckIdText).0 in st.decks
    ensures var st1 := AddLangToDeck(st, session, true, deckIdText, form).0;
      var st2 := AddLangToDeck(st1, session, true, deckIdText, form).0;
      var link := DeckLang(Atoi(deckIdText).0, Atoi(FormValue(form, LangIdField)).0);
      && st2.deckLangs == st.deckLangs + [link, link]
      && !DeckView.DistinctLinks(st2.deckLangs)
  {
    var st1 := AddLangToDeck(st, session, true, deckIdText, form).0;
    var st2 := AddLangToDeck(st1, session, true, deckIdText, form).0;
    var n := |st.deckLangs|;
    assert st2.deckLangs[n] == st2.deckLangs[n + 1];
  }

  /**
   * RemoveLangFromDeckHandler: POST only, both ids from the path read
   * with Atoi; there is no session or ownership check.  Every link of the
   * deck to the language is deleted.
   */
  function RemoveLangFromDeck(st: Store, post: bool, deckIdText: Text, langIdText: Text)
    : (r: (Store, Outcome))
    requires Valid(st)
    ensures Valid(r.0)
    ensures r.1 == MethodNotAllowed <==> !post
    ensures r.1 == InvalidParameters <==> post && !(Atoi(deckIdText).1 && Atoi(langIdText).1)
    ensures r.1 == Redirect <==> post && Atoi(deckIdText).1 && Atoi(langIdText).1
    ensures r.1 != Redirect ==> r.0 == st
    ensures r.1 == Redirect ==>
      var d := Atoi(deckIdText).0;
      var l := Atoi(langIdText).0;
      && r.0 == st.(deckLangs := r.0.deckLangs)
      && (forall x :: x in r.0.deckLangs <==> x in st.deckLangs && (d < 0 || l < 0 || x != DeckLang(d, l)))
      && (forall x: DeckLang :: (d < 0 || l < 0 || x != DeckLang(d, l)) ==>
            multiset(r.0.deckLangs)[x] == multiset(st.deckLangs)[x])
      && SubsequenceOf(r.0.deckLangs, st.deckLangs)
  {
    if !post then (st, MethodNotAllowed)
    else
      var d := Atoi(deckIdText);
      var l := Atoi(langIdText);
      if !d.1 || !l.1 then (st, InvalidParameters)
      else if d.0 < 0 || l.0 < 0 then
        SubsequenceOfSelf(st.deckLangs);
        (st, Redirect)
      else
        DropLangLinkValid(st, DeckLang(d.0, l.0));
        (st.(deckLangs := DropRow(st.deckLangs, DeckLang(d.0, l.0))), Redirect)
  }

  /** Removing a language just added to a deck that did not have it gives the store back. */
  lemma RemoveAddedLang(st: Store, session: Session, deckIdText: Text, form: Form)
    requires Valid(st)
    requires AddLangToDeck(st, session, true, deckIdText, form).1 == Redirect
    requires var d := Atoi(deckIdText).0;
      var l := Atoi(FormValue(form, LangIdField)).0;
      d >= 0 && l >= 0 ==> DeckLang(d, l) !in st.deckLangs
    ensures var st1 := AddLangToDeck(st, session, true, deckIdText, form).0;
      RemoveLangFromDeck(st1, true, deckIdText, FormValue(form, LangIdField)).0 == st
  {
    var d := Atoi(deckIdText).0;
    var l := Atoi(FormValue(form, LangIdField)).0;
    if d >= 0 && d in st.decks {
      DropRowSnoc(st.deckLangs, DeckLang(d, l));
    } else if d >= 0 {
      assert forall x :: x in st.deckLangs ==> x.deckId != d;
      DropRowNone(st.deckLangs, DeckLang(d, l));
    }
  }

  // ----- Words -----

  /** The deck and word ids of a word form, both read with Atoi. */
  function FormIds(form: Form): ((int, bool), (int, bool)) {
    (Atoi(FormValue(form, DeckIdField)), Atoi(FormValue(form, WordIdField)))
  }

  /**
   * AddWordToDeckHandler: the session gate, `deck_id` and `word_id` read
   * with Atoi, the deck must be the user's and the word must have a
   * translation in one of the user's languages; a word already in the
   * deck is not added again.
   */
  function AddWordToDeck(st: Store, session: Session, form: Form): (r: (Store, Outcome))
    requires Valid(st)
    ensures Valid(r.0)
    ensures r.1 == ToLogin <==> !session.authenticated
    ensures r.1 == InvalidUserSession <==> session.authenticated && session.userId.None?
    ensures r.1 == InvalidDeckId <==>
      session.authenticated && session.userId.Some? && !FormIds(form).0.1
    ensures r.1 == InvalidWordId <==>
      session.authenticated && session.userId.Some? && FormIds(form).0.1 && !FormIds(form).1.1
    ensures (r.1 == AlreadyInDeck || r.1 == Redirect) <==>
      && session.authenticated && session.userId.Some? && FormIds(form).0.1 && FormIds(form).1.1
      && var d := FormIds(form).0.0;
         var w := FormIds(form).1.0;
         d >= 0 && OwnsDeck(st, session.userId.value, d) && w >= 0
         && HasUserTranslation(st, session.userId.value, w)
    ensures r.1 == AlreadyInDeck ==> DeckWord(FormIds(form).0.0, FormIds(form).1.0) in st.deckWords
    ensures r.1 == Redirect ==>
      var link := DeckWord(FormIds(form).0.0, FormIds(form).1.0);
      link !in st.deckWords && r.0 == st.(deckWords := st.deckWords + [link])
    ensures r.1 != Redirect ==> r.0 == st
  {
    match SessionGate(session)
    case NotAuthenticated => (st, ToLogin)
    case NoUserId => (st, InvalidUserSession)
    case Allowed(user) =>
      var ids := FormIds(form);
      var d := ids.0;
      var w := ids.1;
      if !d.1 then (st, InvalidDeckId)
      else if !w.1 then (st, InvalidWordId)
      else if !(d.0 >= 0 && OwnsDeck(st, user, d.0)) then (st, DeckForbidden)
      else if !(w.0 >= 0 && HasUserTranslation(st, user, w.0)) then (st, WordForbidden)
      else if DeckWord(d.0, w.0) in st.deckWords then (st, AlreadyInDeck)
      else
        TranslatedWordExists(st, user, w.0);
        AddWordLinkValid(st, d.0, w.0);
        (st.(deckWords := st.deckWords + [DeckWord(d.0, w.0)]), Redirect)
  }

  lemma TranslatedWordExists(st: Store, user: Id, w: Id)
    requires Valid(st) && HasUserTranslation(st, user, w)
    ensures w in st.words
  {
    var l :| l in st.langs && OwnsLang(st, user, l) && TransKey(w, l) in st.translations;
  }

  /** No deck_words row is stored twice. */
  predicate DistinctWordLinks(links: seq<DeckWord>) {
    forall i, j :: 0 <= i < j < |links| ==> links[i] != links[j]
  }

  /** Adding a word keeps the deck's links free of repeats. */
  lemma AddWordKeepsDistinct(st: Store, session: Session, form: Form)
    requires Valid(st) && DistinctWordLinks(st.deckWords)
    ensures DistinctWordLinks(AddWordToDeck(st, session, form).0.deckWords)
  {
    var r := AddWordToDeck(st, session, form);
    if r.1 == Redirect {
      var n := |st.deckWords|;
      forall i, j | 0 <= i < j < |r.0.deckWords| ensures r.0.deckWords[i] != r.0.deckWords[j] {
        if j == n {
          assert r.0.deckWords[i] == st.deckWords[i];
        }
      }
    }
  }

  /** Adding a word twice is adding it once. */
  lemma AddWordIdempotent(st: Store, session: Session, form: Form)
    requires Valid(st)
    ensures var st1 := AddWordToDeck(st, session, form).0;
      AddWordToDeck(st1, session, form).0 == st1
  {
    var r := AddWordToDeck(st, session, form);
    if r.1 == Redirect {
      var link := DeckWord(FormIds(form).0.0, FormIds(form).1.0);
      assert link in r.0.deckWords;
    }
  }

  /**
   * RemoveWordFromDeckHandler: the session gate, `deck_id` and `word_id`
   * read with Atoi, and the deck must be the user's; then every link of
   * the deck to the word is deleted.
   */
  function RemoveWordFromDeck(st: Store, session: Session, form: Form): (r: (Store, Outcome))
    requires Valid(st)
    ensures Valid(r.0)
    ensures r.1 == ToLogin <==> !session.authenticated
    ensures r.1 == InvalidUserSession <==> session.authenticated && session.userId.None?
    ensures r.1 == InvalidDeckId <==>
      session.authenticated && session.userId.Some? && !FormIds(form).0.1
    ensures r.1 == InvalidWordId <==>
      session.authenticated && session.userId.Some? && FormIds(form).0.1 && !FormIds(form).1.1
    ensures r.1 == Redirect <==>
      && session.authenticated && session.userId.Some? && FormIds(form).0.1 && FormIds(form).1.1
      && FormIds(form).0.0 >= 0 && OwnsDeck(st, session.userId.value, FormIds(form).0.0)
    ensures r.1 != Redirect ==> r.0 == st
    ensures r.1 == Redirect ==>
      var d := FormIds(form).0.0;
      var w := FormIds(form).1.0;
      && r.0 == st.(deckWords := r.0.deckWords)
      && (forall x :: x in r.0.deckWords <==> x in st.deckWords && !(d >= 0 && w >= 0 && x == DeckWord(d, w)))
      && (forall x: DeckWord :: !(d >= 0 && w >= 0 && x == DeckWord(d, w)) ==>
            multiset(r.0.deckWords)[x] == multiset(st.deckWords)[x])
      && SubsequenceOf(r.0.deckWords, st.deckWords)
  {
    match SessionGate(session)
    case NotAuthenticated => (st, ToLogin)
    case NoUserId => (st, InvalidUserSession)
    case Allowed(user) =>
      var ids := FormIds(form);
      var d := ids.0;
      var w := ids.1;
      if !d.1 then (st, InvalidDeckId)
      else if !w.1 then (st, InvalidWordId)
      else if !(d.0 >= 0 && OwnsDeck(st, user, d.0)) then (st, DeckForbidden)
      else if w.0 < 0 then
        SubsequenceOfSelf(st.deckWords);
        (st, Redirect)
      else
        DropWordLinkValid(st, DeckWord(d.0, w.0));
        (st.(deckWords := DropRow(st.deckWords, DeckWord(d.0, w.0))), Redirect)
  }

  /** Removing a word just added to a deck gives the store back. */
  lemma RemoveAddedWord(st: Store, session: Session, form: Form)
    requires Valid(st)
    requires AddWordToDeck(st, session, form).1 == Redirect
    ensures RemoveWordFromDeck(AddWordToDeck(st, session, form).0, session, form).0 == st
  {
    var link := DeckWord(FormIds(form).0.0, FormIds(form).1.0);
    DropRowSnoc(st.deckWords, link);
  }
}
