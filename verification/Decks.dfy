/**
 * The "My Decks" page: creating a deck from a trimmed title, and the
 * listing of the user's decks, each with the titles of its languages.
 */
module Decks {
  import opened Text
  import opened Results
  import opened Store
  import opened Http
  import Languages

  const DeckTitleField: Text := "deck_title"

  // ----- Creating -----

  /**
   * `INSERT INTO decks (user_id, deck_title) ... RETURNING id`: one new
   * row under the next serial id, or a failure (None) when the user row
   * does not exist.
   */
  function InsertDeck(st: Store, user: Id, title: Text): (r: Option<Store>)
    requires Valid(st)
    ensures r.Some? <==> user in st.users
    ensures r.Some? ==>
      var id := FreshId(st.decks.Keys);
      && Valid(r.value)
      && id !in st.decks
      && r.value.decks.Keys == st.decks.Keys + {id}
      && r.value.decks[id] == Deck(user, title)
      && (forall d :: d in st.decks ==> r.value.decks[d] == st.decks[d])
      && r.value == st.(decks := r.value.decks)
  {
    if user !in st.users then None
    else
      AddDeckValid(st, FreshId(st.decks.Keys), Deck(user, title));
      Some(st.(decks := st.decks[FreshId(st.decks.Keys) := Deck(user, title)]))
  }

  // ----- Listing -----

  /** The ids of `user`'s decks. */
  function OwnedDeckSet(st: Store, user: Id): (s: set<Id>)
    ensures forall d :: d in s <==> OwnsDeck(st, user, d)
  {
    set d | d in st.decks && st.decks[d].userId == user
  }

  /** `SELECT id FROM decks WHERE user_id = ?`, in id order. */
  function UserDeckIds(st: Store, user: Id): (r: seq<Id>)
    ensures Increasing(r)
    ensures forall d :: d in r <==> OwnsDeck(st, user, d)
    ensures forall i :: 0 <= i < |r| ==> OwnsDeck(st, user, r[i])
  {
    var r := SortedIds(OwnedDeckSet(st, user));
    assert forall i :: 0 <= i < |r| ==> r[i] in r;
    r
  }

  /**
   * The titles of a deck's languages: deck_langs joined with user_langs,
   * one title per link row, in link order (a link without its language
   * row drops out of the join).
   */
  function LangTitles(langs: map<Id, UserLang>, langIds: seq<Id>): (r: seq<Text>)
    ensures |r| <= |langIds|
    ensures (forall i :: 0 <= i < |langIds| ==> langIds[i] in langs) ==>
      |r| == |langIds| && forall i :: 0 <= i < |r| ==> r[i] == langs[langIds[i]].title
  {
    if langIds == [] then []
    else
      var rest := LangTitles(langs, langIds[1..]);
      if langIds[0] in langs then [langs[langIds[0]].title] + rest else rest
  }

  /** A listed deck: its row and its language titles. */
  datatype DeckEntry = DeckEntry(id: Id, deck: Deck, languages: seq<Text>)

  function Entries(st: Store, ids: seq<Id>): (r: seq<DeckEntry>)
    requires forall i :: 0 <= i < |ids| ==> ids[i] in st.decks
    ensures |r| == |ids|
    ensures forall i :: 0 <= i < |ids| ==>
      r[i] == DeckEntry(ids[i], st.decks[ids[i]], LangTitles(st.langs, DeckLangIds(st, ids[i])))
  {
    if ids == [] then []
    else [DeckEntry(ids[0], st.decks[ids[0]], LangTitles(st.langs, DeckLangIds(st, ids[0])))] + Entries(st, ids[1..])
  }

  /** `SELECT * FROM decks WHERE user_id = ?`, in id order, each with its language titles. */
  function ListDecks(st: Store, user: Id): (r: seq<DeckEntry>)
    ensures forall i, j :: 0 <= i < j < |r| ==> r[i].id < r[j].id
    ensures forall i :: 0 <= i < |r| ==>
      && OwnsDeck(st, user, r[i].id)
      && r[i].deck == st.decks[r[i].id]
      && r[i].languages == LangTitles(st.langs, DeckLangIds(st, r[i].id))
  {
    Entries(st, UserDeckIds(st, user))
  }

  /** Every deck of the user is listed. */
  lemma ListDecksComplete(st: Store, user: Id, d: Id)
    requires OwnsDeck(st, user, d)
    ensures exists i :: 0 <= i < |ListDecks(st, user)| && ListDecks(st, user)[i].id == d
  {
    var ids := UserDeckIds(st, user);
    var i :| 0 <= i < |ids| && ids[i] == d;
    assert ListDecks(st, user)[i].id == d;
  }

  /** In a valid store each listed deck has one title per link row, that language's title. */
  lemma ListedTitles(st: Store, user: Id, i: nat)
    requires Valid(st)
    requires i < |ListDecks(st, user)|
    ensures var e := ListDecks(st, user)[i];
      var ids := DeckLangIds(st, e.id);
      && |e.languages| == |ids|
      && forall j :: 0 <= j < |ids| ==> ids[j] in st.langs && e.languages[j] == st.langs[ids[j]].title
  {
    var e := ListDecks(st, user)[i];
    var ids := DeckLangIds(st, e.id);
    forall j | 0 <= j < |ids| ensures ids[j] in st.langs {
      assert DeckLang(e.id, ids[j]) in st.deckLangs;
    }
  }

  /** Adding a deck for one user leaves every other user's listing as it was. */
  lemma InsertDeckOtherUser(st: Store, user: Id, other: Id, title: Text)
    requires Valid(st)
    requires user in st.users && other != user
    ensures ListDecks(InsertDeck(st, user, title).value, other) == ListDecks(st, other)
  {
    var st' := InsertDeck(st, user, title).value;
    assert OwnedDeckSet(st', other) == OwnedDeckSet(st, other);
    var ids := UserDeckIds(st, other);
    forall i | 0 <= i < |ids| ensures ids[i] in st.decks && st'.decks[ids[i]] == st.decks[ids[i]] {
      assert OwnsDeck(st, other, ids[i]);
    }
    EntriesAgree(st, st', ids);
  }

  lemma {:induction false} EntriesAgree(st1: Store, st2: Store, ids: seq<Id>)
    requires forall i :: 0 <= i < |ids| ==> ids[i] in st1.decks && ids[i] in st2.decks
    requires forall i :: 0 <= i < |ids| ==> st1.decks[ids[i]] == st2.decks[ids[i]]
    requires st1.langs == st2.langs && st1.deckLangs == st2.deckLangs
    ensures Entries(st1, ids) == Entries(st2, ids)
    decreases |ids|
  {
    if ids != [] {
      EntriesAgree(st1, st2, ids[1..]);
    }
  }

  // ----- The page handler -----

  datatype DecksOutcome =
    | ToLogin
    | AuthenticationError
    | TitleRequired
    | CreateFailed
    | Created
    | Listing(decks: seq<DeckEntry>, userLangs: seq<Languages.LangRow>)

  /**
   * DecksHandler: the session gate; the user's languages are loaded; a
   * POST creates a deck from the trimmed title (an empty one is refused)
   * and redirects; a GET lists the decks.
   */
  function DecksHandler(st: Store, session: Session, post: bool, form: Form): (r: (Store, DecksOutcome))
    requires Valid(st)
    ensures Valid(r.0)
    ensures r.1 == ToLogin <==> !session.authenticated
    ensures r.1 == AuthenticationError <==> session.authenticated && session.userId.None?
    ensures r.1 == TitleRequired <==>
      session.authenticated && session.userId.Some? && post && Trim(FormValue(form, DeckTitleField)) == []
    ensures r.1 == Created <==>
      && session.authenticated && session.userId.Some? && post
      && Trim(FormValue(form, DeckTitleField)) != [] && session.userId.value in st.users
    ensures r.1 != Created ==> r.0 == st
    ensures r.1 == Created ==>
      r.0 == InsertDeck(st, session.userId.value, Trim(FormValue(form, DeckTitleField))).value
    ensures r.1.Listing? ==>
      !post && r.1.decks == ListDecks(st, session.userId.value)
      && r.1.userLangs == Languages.ListLanguages(st, session.userId.value)
  {
    match SessionGate(session)
    case NotAuthenticated => (st, ToLogin)
    case NoUserId => (st, AuthenticationError)
    case Allowed(user) =>
      var userLangs := Languages.ListLanguages(st, user);
      if post then
        var title := Trim(FormValue(form, DeckTitleField));
        if title == [] then (st, TitleRequired)
        else
          match InsertDeck(st, user, title)
          case None => (st, CreateFailed)
          case Some(st') => (st', Created)
      else (st, Listing(ListDecks(st, user), userLangs))
  }

  /** A created deck is listed for its owner, under the trimmed title. */
  lemma CreatedDeckListed(st: Store, session: Session, form: Form)
    requires Valid(st)
    requires DecksHandler(st, session, true, form).1 == Created
    ensures var st' := DecksHandler(st, session, true, form).0;
      var d := FreshId(st.decks.Keys);
      && OwnsDeck(st', session.userId.value, d)
      && st'.decks[d].title == Trim(FormValue(form, DeckTitleField))
      && st'.decks[d].title != []
      && exists i :: 0 <= i < |ListDecks(st', session.userId.value)|
           && ListDecks(st', session.userId.value)[i].id == d
  {
    var st' := DecksHandler(st, session, true, form).0;
    ListDecksComplete(st', session.userId.value, FreshId(st.decks.Keys));
  }
}
