/**
 * The deck page: the deck row, its languages, its words grouped by
 * language title, the user's languages not yet in the deck, and the
 * user's words that are not in the deck but are translated into every
 * language of the deck.
 */
module DeckView {
  import opened Text
  import opened Results
  import opened Store
  import opened Http
  import opened Decimal
  import Languages
  import Words

  type LangRow = Languages.LangRow

  /** A number read from the request used as a row key: a negative number, like 0, matches no row. */
  function Key(n: int): Id {
    if n < 0 then 0 else n
  }

  // ----- The deck's languages -----

  function RowOf(langs: map<Id, UserLang>, l: Id): LangRow
    requires l in langs
  {
    Languages.LangRow(l, langs[l].userId, langs[l].title)
  }

  /** Link rows joined with user_langs: one row per link whose language exists, in link order. */
  function JoinLangs(langs: map<Id, UserLang>, ids: seq<Id>): (r: seq<LangRow>)
    ensures forall x :: x in r <==> x.id in ids && x.id in langs && x == RowOf(langs, x.id)
    ensures (forall l :: l in ids ==> l in langs) ==> |r| == |ids|
  {
    if ids == [] then []
    else
      var rest := JoinLangs(langs, ids[1..]);
      assert forall l :: l in ids <==> l == ids[0] || l in ids[1..];
      if ids[0] in langs then [RowOf(langs, ids[0])] + rest else rest
  }

  /**
   * `SELECT l.* FROM deck_langs dl JOIN user_langs l ON dl.lang_id = l.id
   * WHERE dl.deck_id = ?`, in link order: the query's `ORDER BY
   * l.lang_title` is not modelled.
   */
  function DeckLangRows(st: Store, deck: Id): (r: seq<LangRow>)
    ensures forall x :: x in r <==>
      DeckLang(deck, x.id) in st.deckLangs && x.id in st.langs && x == RowOf(st.langs, x.id)
  {
    JoinLangs(st.langs, DeckLangIds(st, deck))
  }

  /** The distinct languages of a deck. */
  function DeckLangSet(st: Store, deck: Id): (s: set<Id>)
    ensures forall l :: l in s <==> DeckLang(deck, l) in st.deckLangs && l in st.langs
  {
    set l | l in st.langs && DeckLang(deck, l) in st.deckLangs
  }

  /** In a valid store the join drops nothing: one row per link row of the deck. */
  lemma DeckLangRowsCount(st: Store, deck: Id)
    requires Valid(st)
    ensures |DeckLangRows(st, deck)| == |DeckLangIds(st, deck)|
  {
    var ids := DeckLangIds(st, deck);
    assert forall l :: l in ids ==> DeckLang(deck, l) in st.deckLangs;
  }

  // ----- The user's languages not in the deck -----

  function Unlinked(rows: seq<LangRow>, linked: set<Id>): (r: seq<LangRow>)
    ensures forall x :: x in r <==> x in rows && x.id !in linked
  {
    if rows == [] then []
    else
      var rest := Unlinked(rows[1..], linked);
      assert forall x :: x in rows <==> x == rows[0] || x in rows[1..];
      if rows[0].id !in linked then [rows[0]] + rest else rest
  }

  /**
   * `SELECT ... FROM user_langs WHERE user_id = ? AND id NOT IN (SELECT
   * lang_id FROM deck_langs WHERE deck_id = ?)`: the user's languages that
   * the deck does not have, in id order: the query's `ORDER BY
   * l.lang_title` is not modelled.
   */
  function AvailableLangs(st: Store, user: Id, deck: Id): (r: seq<LangRow>)
    ensures forall x :: x in r ==>
      && OwnsLang(st, user, x.id) && x == Languages.LangRow(x.id, user, st.langs[x.id].title)
      && DeckLang(deck, x.id) !in st.deckLangs
  {
    var linked := set l | l in DeckLangIds(st, deck);
    var rows := Languages.ListLanguages(st, user);
    assert forall x :: x in rows ==> OwnsLang(st, user, x.id) && x == Languages.LangRow(x.id, user, st.langs[x.id].title);
    Unlinked(rows, linked)
  }

  /** Every language of the user that the deck lacks is offered. */
  lemma AvailableLangsComplete(st: Store, user: Id, deck: Id, l: Id)
    requires OwnsLang(st, user, l) && DeckLang(deck, l) !in st.deckLangs
    ensures exists x :: x in AvailableLangs(st, user, deck) && x.id == l
  {
    Languages.ListLanguagesComplete(st, user, l);
    var rows := Languages.ListLanguages(st, user);
    var i :| 0 <= i < |rows| && rows[i].id == l;
    assert rows[i] in rows;
    assert rows[i] in AvailableLangs(st, user, deck);
  }

  // ----- Words grouped by language title -----

  /** Word `w` has a translation in language `l`, whose title is `t`. */
  predicate Titled(st: Store, w: Id, l: Id, t: Text) {
    l in st.langs && st.langs[l].title == t && TransKey(w, l) in st.translations
  }

  /** Of the languages titled `t`, the one whose translation the title ends up with: the highest id. */
  function Pick(st: Store, w: Id, langs: set<Id>, t: Text): (l: Id)
    requires exists l :: l in langs && Titled(st, w, l, t)
    ensures l in langs && Titled(st, w, l, t)
  {
    var ls := set l | l in langs && Titled(st, w, l, t);
    var l0 :| l0 in langs && Titled(st, w, l0, t);
    assert l0 in ls;
    Max(ls)
  }

  /**
   * The translations of `w` in the languages `langs`, keyed by language
   * title (`map[langTitle] = translation`).  When two of those languages
   * share a title only one of their translations is kept; the query has
   * no ORDER BY, so which one is not determined, and the model keeps the
   * one of the highest language id.
   */
  function TitleMap(st: Store, w: Id, langs: set<Id>): (m: map<Text, Text>)
    ensures forall t :: t in m <==> exists l :: l in langs && Titled(st, w, l, t)
    ensures forall t :: t in m ==>
      exists l :: l in langs && Titled(st, w, l, t) && m[t] == st.translations[TransKey(w, l)]
  {
    var titles := set l | l in langs && l in st.langs && TransKey(w, l) in st.translations :: st.langs[l].title;
    assert forall t :: (exists l :: l in langs && Titled(st, w, l, t)) ==> t in titles by {
      forall t | exists l :: l in langs && Titled(st, w, l, t) ensures t in titles {
        var l :| l in langs && Titled(st, w, l, t);
        assert st.langs[l].title in titles;
      }
    }
    map t | t in titles :: st.translations[TransKey(w, Pick(st, w, langs, t))]
  }

  /** When no other of the languages shares its title, a language's cell is its translation. */
  lemma TitleMapExact(st: Store, w: Id, langs: set<Id>, l: Id)
    requires l in langs && l in st.langs && TransKey(w, l) in st.translations
    requires forall l' :: l' in langs && l' in st.langs && l' != l ==> st.langs[l'].title != st.langs[l].title
    ensures var m := TitleMap(st, w, langs);
      st.langs[l].title in m && m[st.langs[l].title] == st.translations[TransKey(w, l)]
  {
    assert Titled(st, w, l, st.langs[l].title);
  }

  /**
   * The words of the deck, each with its translations in the deck's
   * languages by title; a deck word without any such translation is not
   * shown.
   */
  function DeckWordGroups(st: Store, deck: Id): (g: map<Id, map<Text, Text>>)
    ensures forall w :: w in g <==>
      && DeckWord(deck, w) in st.deckWords
      && exists l :: l in DeckLangSet(st, deck) && TransKey(w, l) in st.translations
    ensures forall w :: w in g ==> g[w] == TitleMap(st, w, DeckLangSet(st, deck))
  {
    var langs := DeckLangSet(st, deck);
    map w | w in DeckWordIds(st, deck) && (exists l :: l in langs && TransKey(w, l) in st.translations)
      :: TitleMap(st, w, langs)
  }

  // ----- Words the user can add -----

  /**
   * `SELECT DISTINCT word_id FROM user_words JOIN user_langs ... WHERE
   * user_id = ? AND word_id NOT IN (the deck's words)`.
   */
  function Candidates(st: Store, user: Id, deck: Id): (c: set<Id>)
    ensures forall w :: w in c <==> HasUserTranslation(st, user, w) && DeckWord(deck, w) !in st.deckWords
  {
    set w | w in Words.UserWords(st, user) && DeckWord(deck, w) !in st.deckWords
  }

  /** The deck languages, among `langs`, in which the user has translated `w`: one counted row each. */
  function Matched(st: Store, user: Id, w: Id, langs: set<Id>): (m: set<Id>)
    ensures m <= langs
    ensures forall l :: l in m <==> l in langs && OwnsLang(st, user, l) && TransKey(w, l) in st.translations
  {
    set l | l in langs && OwnsLang(st, user, l) && TransKey(w, l) in st.translations
  }

  /**
   * The available words as the handler computes them: the candidate
   * words whose count of matching translation rows equals the number of
   * rows of the deck's language join, duplicated links included.
   */
  function AvailableWordsAsWritten(st: Store, user: Id, deck: Id): (a: map<Id, map<Text, Text>>)
    ensures forall w :: w in a <==>
      && w in Candidates(st, user, deck) && |DeckLangRows(st, deck)| > 0
      && |Matched(st, user, w, DeckLangSet(st, deck))| == |DeckLangRows(st, deck)|
  {
    var rows := DeckLangRows(st, deck);
    var langs := DeckLangSet(st, deck);
    var cands := Candidates(st, user, deck);
    if cands == {} || |rows| == 0 then map[]
    else
      map w | w in cands && |Matched(st, user, w, langs)| == |rows| :: TitleMap(st, w, Matched(st, user, w, langs))
  }

  /** A subset as large as its superset is the superset. */
  lemma SubsetSameSize(a: set<Id>, b: set<Id>)
    requires a <= b && |a| == |b|
    ensures a == b
  {
    assert b == a + (b - a);
    assert a * (b - a) == {};
  }

  /**
   * The available words as intended: the candidate words translated by
   * the user into every (distinct) language of the deck, when it has one.
   */
  function AvailableWords(st: Store, user: Id, deck: Id): (a: map<Id, map<Text, Text>>)
    ensures forall w :: w in a <==>
      && w in Candidates(st, user, deck) && DeckLangSet(st, deck) != {}
      && forall l :: l in DeckLangSet(st, deck) ==> OwnsLang(st, user, l) && TransKey(w, l) in st.translations
    ensures forall w :: w in a <==>
      w in Candidates(st, user, deck) && DeckLangSet(st, deck) != {}
      && Matched(st, user, w, DeckLangSet(st, deck)) == DeckLangSet(st, deck)
    ensures forall w :: w in a ==> a[w] == TitleMap(st, w, DeckLangSet(st, deck))
  {
    var langs := DeckLangSet(st, deck);
    var cands := Candidates(st, user, deck);
    assert forall w :: |Matched(st, user, w, langs)| == |langs| <==> Matched(st, user, w, langs) == langs by {
      forall w ensures |Matched(st, user, w, langs)| == |langs| ==> Matched(st, user, w, langs) == langs {
        if |Matched(st, user, w, langs)| == |langs| {
          SubsetSameSize(Matched(st, user, w, langs), langs);
        }
      }
    }
    if cands == {} || langs == {} then map[]
    else
      map w | w in cands && |Matched(st, user, w, langs)| == |langs| :: TitleMap(st, w, langs)
  }

  // ----- Duplicate language links -----

  predicate DistinctIds(s: seq<Id>) {
    forall i, j :: 0 <= i < j < |s| ==> s[i] != s[j]
  }

  /** No deck_langs row is stored twice. */
  predicate DistinctLinks(links: seq<DeckLang>) {
    forall i, j :: 0 <= i < j < |links| ==> links[i] != links[j]
  }

  lemma {:induction false} LangsLinkedDistinct(links: seq<DeckLang>, deck: Id)
    requires DistinctLinks(links)
    ensures DistinctIds(LangsLinked(links, deck))
    decreases |links|
  {
    if links != [] {
      assert DistinctLinks(links[1..]) by {
        forall i, j | 0 <= i < j < |links[1..]| ensures links[1..][i] != links[1..][j] {
          assert links[1..][i] == links[i + 1] && links[1..][j] == links[j + 1];
        }
      }
      LangsLinkedDistinct(links[1..], deck);
      var rest := LangsLinked(links[1..], deck);
      if links[0].deckId == deck {
        assert links[0] !in links[1..] by {
          forall k | 0 <= k < |links[1..]| ensures links[1..][k] != links[0] {
            assert links[1..][k] == links[k + 1];
          }
        }
        assert links[0].langId !in rest;
        var r := [links[0].langId] + rest;
        forall i, j | 0 <= i < j < |r| ensures r[i] != r[j] {
          assert r[j] == rest[j - 1];
          if i > 0 { assert r[i] == rest[i - 1]; }
        }
      }
    }
  }

  /** The elements of a sequence. */
  function Elems(s: seq<Id>): (r: set<Id>)
    ensures forall x :: x in r <==> x in s
  {
    if s == [] then {}
    else
      assert forall x :: x in s <==> x == s[0] || x in s[1..];
      {s[0]} + Elems(s[1..])
  }

  /** A sequence without repeats has as many elements as its set. */
  lemma {:induction false} DistinctCard(s: seq<Id>)
    requires DistinctIds(s)
    ensures |Elems(s)| == |s|
    decreases |s|
  {
    if s != [] {
      assert DistinctIds(s[1..]) by {
        forall i, j | 0 <= i < j < |s[1..]| ensures s[1..][i] != s[1..][j] {
          assert s[1..][i] == s[i + 1] && s[1..][j] == s[j + 1];
        }
      }
      DistinctCard(s[1..]);
      assert s[0] !in s[1..] by {
        forall k | 0 <= k < |s[1..]| ensures s[1..][k] != s[0] {
          assert s[1..][k] == s[k + 1];
        }
      }
      assert s[0] !in Elems(s[1..]);
    }
  }

  /** Without duplicated links the join has one row per distinct language of the deck. */
  lemma DistinctLinksCount(st: Store, deck: Id)
    requires Valid(st) && DistinctLinks(st.deckLangs)
    ensures |DeckLangRows(st, deck)| == |DeckLangSet(st, deck)|
  {
    var ids := DeckLangIds(st, deck);
    DeckLangRowsCount(st, deck);
    LangsLinkedDistinct(st.deckLangs, deck);
    DistinctCard(ids);
    assert Elems(ids) == DeckLangSet(st, deck);
  }

  /** When the join has one row per distinct language, the handler's count test is the intended one. */
  lemma AvailableWordsAgree(st: Store, user: Id, deck: Id)
    requires |DeckLangRows(st, deck)| == |DeckLangSet(st, deck)|
    ensures AvailableWordsAsWritten(st, user, deck) == AvailableWords(st, user, deck)
  {
    var langs := DeckLangSet(st, deck);
    var a := AvailableWordsAsWritten(st, user, deck);
    var b := AvailableWords(st, user, deck);
    forall w ensures w in a <==> w in b {
      if |Matched(st, user, w, langs)| == |langs| {
        SubsetSameSize(Matched(st, user, w, langs), langs);
      }
    }
    forall w | w in a ensures a[w] == b[w] {
      SubsetSameSize(Matched(st, user, w, langs), langs);
    }
  }

  /** A valid store without duplicated links shows exactly the intended available words. */
  lemma AvailableWordsDistinctLinks(st: Store, user: Id, deck: Id)
    requires Valid(st) && DistinctLinks(st.deckLangs)
    ensures AvailableWordsAsWritten(st, user, deck) == AvailableWords(st, user, deck)
  {
    DistinctLinksCount(st, deck);
    AvailableWordsAgree(st, user, deck);
  }

  /** A store in which one deck has the same language linked twice. */
  function DuplicateExample(): Store {
    Store(map[1 := User("ann", "hash")], map[1 := UserLang(1, "en")], {1},
          map[TransKey(1, 1) := "cat"], map[1 := Deck(1, "animals")],
          [], [DeckLang(1, 1), DeckLang(1, 1)])
  }

  lemma DuplicateExampleShape()
    ensures var st := DuplicateExample();
      && Valid(st)
      && |DeckLangRows(st, 1)| == 2
      && DeckLangSet(st, 1) == {1}
      && Candidates(st, 1, 1) == {1}
      && Matched(st, 1, 1, {1}) == {1}
  {
    var st := DuplicateExample();
    assert LangsLinked(st.deckLangs[1..], 1) == [1];
    assert DeckLangIds(st, 1) == [1, 1];
    assert JoinLangs(st.langs, [1]) == [RowOf(st.langs, 1)];
    assert OwnsLang(st, 1, 1);
    assert HasUserTranslation(st, 1, 1);
  }

  /**
   * A language linked twice to a deck, and one word translated into it:
   * the handler offers no word, where the word, translated into every
   * language of the deck, should be offered.
   */
  lemma DuplicateLinkHidesWords()
    ensures var st := DuplicateExample();
      && Valid(st)
      && AvailableWordsAsWritten(st, 1, 1) == map[]
      && 1 in AvailableWords(st, 1, 1)
  {
    DuplicateExampleShape();
    DuplicateHidden();
    var st := DuplicateExample();
    assert Matched(st, 1, 1, DeckLangSet(st, 1)) == DeckLangSet(st, 1);
  }

  lemma DuplicateHidden()
    ensures AvailableWordsAsWritten(DuplicateExample(), 1, 1) == map[]
  {
    DuplicateExampleShape();
    var st := DuplicateExample();
    var a := AvailableWordsAsWritten(st, 1, 1);
    assert |Matched(st, 1, 1, DeckLangSet(st, 1))| == 1;
    assert 1 !in a;
    assert forall w :: w !in a;
  }

  // ----- The page handler -----

  datatype DeckPage = DeckPage(
    deck: Deck,
    deckLanguages: seq<LangRow>,
    deckWords: map<Id, map<Text, Text>>,
    availableLanguages: seq<LangRow>,
    availableWords: map<Id, map<Text, Text>>)

  datatype ViewOutcome = ToLogin | InvalidUserSession | InvalidDeckId | DeckNotFound | Page(page: DeckPage)

  /**
   * `SELECT * FROM decks WHERE id = ? AND user_id = ?` scanned into a
   * zero-initialised row: without a matching row the scan reports no
   * error and leaves the zero deck.
   */
  function ScanDeck(st: Store, user: Id, d: int): (r: Deck)
    ensures d >= 0 && OwnsDeck(st, user, d) ==> r == st.decks[d]
    ensures !(d >= 0 && OwnsDeck(st, user, d)) ==> r == Deck(0, [])
  {
    if d >= 0 && OwnsDeck(st, user, d) then st.decks[d] else Deck(0, [])
  }

  /**
   * ViewDeckHandler as written: the session gate, the deck id read with
   * Atoi, and then a page for any numeric id, since the "deck not found"
   * branch is only taken on a query error.
   */
  function ViewDeckAsWritten(st: Store, session: Session, idText: Text): (r: ViewOutcome)
    ensures r == ToLogin <==> !session.authenticated
    ensures r == InvalidUserSession <==> session.authenticated && session.userId.None?
    ensures r == InvalidDeckId <==> session.authenticated && session.userId.Some? && !Atoi(idText).1
    ensures r != DeckNotFound
    ensures r.Page? ==>
      var d := Key(Atoi(idText).0);
      var user := session.userId.value;
      && r.page.deck == ScanDeck(st, user, Atoi(idText).0)
      && r.page.deckLanguages == DeckLangRows(st, d)
      && r.page.deckWords == DeckWordGroups(st, d)
      && r.page.availableLanguages == AvailableLangs(st, user, d)
      && r.page.availableWords == AvailableWordsAsWritten(st, user, d)
  {
    match SessionGate(session)
    case NotAuthenticated => ToLogin
    case NoUserId => InvalidUserSession
    case Allowed(user) =>
      var n := Atoi(idText);
      if !n.1 then InvalidDeckId
      else
        var d := Key(n.0);
        Page(DeckPage(ScanDeck(st, user, n.0), DeckLangRows(st, d), DeckWordGroups(st, d),
                      AvailableLangs(st, user, d), AvailableWordsAsWritten(st, user, d)))
  }

  /**
   * The deck page as intended: a deck the user does not own is not found,
   * and the available words are those translated into every language of
   * the deck.
   */
  function ViewDeck(st: Store, session: Session, idText: Text): (r: ViewOutcome)
    ensures r == ToLogin <==> !session.authenticated
    ensures r == InvalidUserSession <==> session.authenticated && session.userId.None?
    ensures r == InvalidDeckId <==> session.authenticated && session.userId.Some? && !Atoi(idText).1
    ensures r == DeckNotFound <==>
      && session.authenticated && session.userId.Some? && Atoi(idText).1
      && !(Atoi(idText).0 >= 0 && OwnsDeck(st, session.userId.value, Atoi(idText).0))
    ensures r.Page? ==>
      var d := Atoi(idText).0;
      var user := session.userId.value;
      && d >= 0 && OwnsDeck(st, user, d)
      && r.page.deck == st.decks[d]
      && r.page.deckLanguages == DeckLangRows(st, d)
      && r.page.deckWords == DeckWordGroups(st, d)
      && r.page.availableLanguages == AvailableLangs(st, user, d)
      && r.page.availableWords == AvailableWords(st, user, d)
  {
    match SessionGate(session)
    case NotAuthenticated => ToLogin
    case NoUserId => InvalidUserSession
    case Allowed(user) =>
      var n := Atoi(idText);
      if !n.1 then InvalidDeckId
      else if !(n.0 >= 0 && OwnsDeck(st, user, n.0)) then DeckNotFound
      else
        var d := n.0;
        Page(DeckPage(st.decks[d], DeckLangRows(st, d), DeckWordGroups(st, d),
                      AvailableLangs(st, user, d), AvailableWords(st, user, d)))
  }

  /**
   * Another user's deck, opened by its id: the handler shows its
   * languages and its words under a zero deck row, where it should
   * answer "deck not found".
   */
  lemma ForeignDeckShown(st: Store, session: Session, d: Id)
    requires d in st.decks && d <= MaxInt64
    requires session.authenticated && session.userId.Some?
    requires st.decks[d].userId != session.userId.value
    ensures var r := ViewDeckAsWritten(st, session, Format(d));
      && r.Page? && r.page.deck == Deck(0, [])
      && r.page.deckLanguages == DeckLangRows(st, d)
      && r.page.deckWords == DeckWordGroups(st, d)
    ensures ViewDeck(st, session, Format(d)) == DeckNotFound
  {
    AtoiFormat(d);
  }

  /** On the user's own deck, the two handlers agree when no language is linked twice. */
  lemma ViewDeckAgrees(st: Store, session: Session, idText: Text)
    requires Valid(st) && DistinctLinks(st.deckLangs)
    requires ViewDeck(st, session, idText) != DeckNotFound
    ensures ViewDeck(st, session, idText) == ViewDeckAsWritten(st, session, idText)
  {
    if session.authenticated && session.userId.Some? && Atoi(idText).1 {
      AvailableWordsDistinctLinks(st, session.userId.value, Atoi(idText).0);
    }
  }
}
