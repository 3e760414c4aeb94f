/**
 * Flashcard quiz assembly (the "select_lang" step): for a deck and a main
 * language, one WordTest per deck word that has a main-language
 * translation, holding one multiple-choice LangTest per other language of
 * the deck.
 *
 * The two random choices of the handler are inputs (`Draws`): the rows
 * that `ORDER BY RANDOM() LIMIT 4` returns for each test, and the order
 * that rand.Shuffle leaves each option list in.  Only what the query and
 * the shuffle guarantee is assumed of them.
 */
module Quiz {
  import opened Text
  import opened Results
  import opened Store
  import opened Http
  import opened Decimal

  const StepField: Text := "step"
  const DeckIdField: Text := "deck_id"
  const MainLangField: Text := "main_lang_id"

  // ----- The IN list of the main-translation query -----

  /** The decimal texts of ids, as strconv.FormatUint writes them. */
  function Numerals(ids: seq<Id>): (r: seq<Text>)
    ensures |r| == |ids|
    ensures forall i :: 0 <= i < |ids| ==> r[i] == Format(ids[i])
    ensures NoSeparator(r, ',')
  {
    if ids == [] then [] else [Format(ids[0])] + Numerals(ids[1..])
  }

  /** The `(id,id,...)` text spliced into the main-translation query. */
  function InClause(ids: seq<Id>): Text {
    "(" + Join(Numerals(ids), ',') + ")"
  }

  /** Reading a list of numerals back with strconv.ParseUint. */
  function ParseIds(parts: seq<Text>): (r: Option<seq<Id>>)
    ensures r.Some? ==> |r.value| == |parts|
  {
    if parts == [] then Some([])
    else
      var head := ParseId(parts[0]);
      var tail := ParseIds(parts[1..]);
      if head.Some? && tail.Some? then Some([head.value] + tail.value) else None
  }

  lemma {:induction false} ParseNumerals(ids: seq<Id>)
    requires forall i :: 0 <= i < |ids| ==> ids[i] <= MaxUint64
    ensures ParseIds(Numerals(ids)) == Some(ids)
    decreases |ids|
  {
    if ids != [] {
      ParseFormat(ids[0]);
      ParseNumerals(ids[1..]);
      assert Numerals(ids)[1..] == Numerals(ids[1..]);
      assert [ids[0]] + ids[1..] == ids;
    }
  }

  /**
   * The clause is bracketed, has one comma fewer than it has ids, and the
   * text between the brackets splits on commas into the numerals of the
   * ids, which read back as the ids.
   */
  lemma InClauseRoundTrip(ids: seq<Id>)
    requires |ids| >= 1
    requires forall i :: 0 <= i < |ids| ==> ids[i] <= MaxUint64
    ensures var c := InClause(ids);
      && |c| >= 2 && c[0] == '(' && c[|c| - 1] == ')'
      && Count(c, ',') == |ids| - 1
      && ParseIds(Split(c[1..|c| - 1], ',')) == Some(ids)
  {
    var parts := Numerals(ids);
    var c := InClause(ids);
    assert c[1..|c| - 1] == Join(parts, ',');
    JoinCount(parts, ',');
    assert multiset(c) == multiset("(") + multiset(Join(parts, ',')) + multiset(")");
    SplitJoin(parts, ',');
    ParseNumerals(ids);
  }

  lemma NumeralsSnoc(ids: seq<Id>, x: Id)
    ensures Numerals(ids + [x]) == Numerals(ids) + [Format(x)]
  {
    var a := Numerals(ids + [x]);
    var b := Numerals(ids) + [Format(x)];
    assert |a| == |b|;
    forall i | 0 <= i < |a| ensures a[i] == b[i] {
      if i < |ids| { assert (ids + [x])[i] == ids[i]; }
    }
  }

  /** One more id extends the clause by a comma (except before the first) and its numeral. */
  lemma ClauseStep(ids: seq<Id>, i: nat, clause: Text)
    requires i < |ids|
    requires clause == "(" + Join(Numerals(ids[..i]), ',')
    ensures (if i == 0 then clause else clause + ",") + Format(ids[i])
      == "(" + Join(Numerals(ids[..i + 1]), ',')
  {
    assert ids[..i + 1] == ids[..i] + [ids[i]];
    NumeralsSnoc(ids[..i], ids[i]);
    if i > 0 {
      JoinSnoc(Numerals(ids[..i]), Format(ids[i]), ',');
    } else {
      assert Numerals(ids[..1]) == [Format(ids[0])];
    }
  }

  /** The handler's loop: "(", then each id with a comma before all but the first, then ")". */
  method BuildInClause(ids: seq<Id>) returns (clause: Text)
    ensures clause == InClause(ids)
  {
    clause := "(";
    var i := 0;
    while i < |ids|
      invariant 0 <= i <= |ids|
      invariant clause == "(" + Join(Numerals(ids[..i]), ',')
    {
      ClauseStep(ids, i, clause);
      if i > 0 {
        clause := clause + ",";
      }
      clause := clause + Format(ids[i]);
      i := i + 1;
    }
    assert ids[..i] == ids;
    clause := clause + ")";
  }

  // ----- Random draws -----

  function Min(a: nat, b: nat): nat {
    if a <= b then a else b
  }

  /** The translation rows of language `l` whose text is not `correct`: the distractor query's rows. */
  function WrongRows(st: Store, l: Id, correct: Text): (s: set<TransKey>)
    ensures forall k :: k in s <==> k in st.translations && k.langId == l && st.translations[k] != correct
  {
    set k | k in st.translations && k.langId == l && st.translations[k] != correct
  }

  /** What `ORDER BY RANDOM() LIMIT 4` can return: four distinct rows, or all of them when there are fewer. */
  predicate Sample(st: Store, l: Id, correct: Text, rows: seq<TransKey>) {
    && |rows| == Min(4, |WrongRows(st, l, correct)|)
    && (forall i :: 0 <= i < |rows| ==> rows[i] in WrongRows(st, l, correct))
    && (forall i, j :: 0 <= i < j < |rows| ==> rows[i] != rows[j])
  }

  /**
   * The random inputs of one quiz: the distractor rows drawn for word
   * `w`'s test in language `l`, and the order the shuffle leaves that
   * test's options in.
   */
  datatype Draws = Draws(sample: (Id, Id) -> seq<TransKey>, shuffle: (Id, Id, seq<Text>) -> seq<Text>)

  /** The draws are ones the query and the shuffle can produce. */
  ghost predicate DrawsValid(st: Store, dr: Draws) {
    && (forall w, l :: Sample(st, l, TranslationOrEmpty(st, w, l), dr.sample(w, l)))
    && (forall w, l, s :: multiset(dr.shuffle(w, l, s)) == multiset(s))
  }

  function Texts(st: Store, rows: seq<TransKey>): (r: seq<Text>)
    requires forall i :: 0 <= i < |rows| ==> rows[i] in st.translations
    ensures |r| == |rows|
    ensures forall i :: 0 <= i < |rows| ==> r[i] == st.translations[rows[i]]
  {
    if rows == [] then [] else [st.translations[rows[0]]] + Texts(st, rows[1..])
  }

  // ----- Tests -----

  /** One multiple-choice question: a language of the deck, its options, and the correct one. */
  datatype LangTest = LangTest(langId: Id, title: Text, options: seq<Text>, correct: Text)

  /** The questions on one word, with its main-language translation. */
  datatype WordTest = WordTest(wordId: Id, mainWord: Text, tests: seq<LangTest>)

  /**
   * A LangTest for word `w` in language `l` whose correct answer is
   * `correct`: the drawn distractors after the correct answer, shuffled,
   * under the language's title.
   */
  function MakeTest(st: Store, dr: Draws, w: Id, l: Id, correct: Text): (t: LangTest)
    requires DrawsValid(st, dr)
    requires correct == TranslationOrEmpty(st, w, l)
    ensures t.langId == l && t.correct == correct && t.title == LangTitle(st, l)
    ensures |t.options| == 1 + Min(4, |WrongRows(st, l, correct)|)
    ensures 1 <= |t.options| <= 5
    ensures multiset(t.options)[correct] == 1
    ensures forall o :: o in t.options && o != correct ==> InLanguage(st, l, o)
  {
    DrawnOptions(st, dr, w, l, correct);
    LangTest(l, LangTitle(st, l), Options(st, dr, w, l), correct)
  }

  /** The shuffled options of word `w`'s test in language `l`. */
  function Options(st: Store, dr: Draws, w: Id, l: Id): seq<Text>
    requires DrawsValid(st, dr)
  {
    var rows := dr.sample(w, l);
    assert Sample(st, l, TranslationOrEmpty(st, w, l), rows);
    dr.shuffle(w, l, [TranslationOrEmpty(st, w, l)] + Texts(st, rows))
  }

  lemma DrawnOptions(st: Store, dr: Draws, w: Id, l: Id, correct: Text)
    requires DrawsValid(st, dr)
    requires correct == TranslationOrEmpty(st, w, l)
    ensures var options := Options(st, dr, w, l);
      && |options| == 1 + Min(4, |WrongRows(st, l, correct)|)
      && multiset(options)[correct] == 1
      && forall o :: o in options && o != correct ==> InLanguage(st, l, o)
  {
    var rows := dr.sample(w, l);
    assert Sample(st, l, correct, rows);
    var drawn := [correct] + Texts(st, rows);
    ShuffleKeeps(st, dr, w, l, drawn);
    SampledOptions(st, l, correct, rows, dr.shuffle(w, l, drawn));
  }

  /** A valid oracle's shuffle is a permutation of what it is given. */
  lemma ShuffleKeeps(st: Store, dr: Draws, w: Id, l: Id, s: seq<Text>)
    requires DrawsValid(st, dr)
    ensures multiset(dr.shuffle(w, l, s)) == multiset(s)
  {
  }

  /** The options of one test, from a valid sample and a permutation of it. */
  lemma SampledOptions(st: Store, l: Id, correct: Text, rows: seq<TransKey>, options: seq<Text>)
    requires Sample(st, l, correct, rows)
    requires multiset(options) == multiset([correct] + Texts(st, rows))
    ensures |options| == 1 + Min(4, |WrongRows(st, l, correct)|)
    ensures multiset(options)[correct] == 1
    ensures forall o :: o in options && o != correct ==> InLanguage(st, l, o)
  {
    var wrong := Texts(st, rows);
    SampleTexts(st, l, correct, rows);
    ShuffledOptions(correct, wrong, options);
    forall o | o in options && o != correct ensures InLanguage(st, l, o) {
      assert o in wrong;
    }
  }

  predicate InLanguage(st: Store, l: Id, o: Text) {
    exists k :: k in st.translations && k.langId == l && st.translations[k] == o
  }

  /** The drawn rows' texts: none is the correct answer, and each is a translation in the language. */
  lemma SampleTexts(st: Store, l: Id, correct: Text, rows: seq<TransKey>)
    requires Sample(st, l, correct, rows)
    ensures var wrong := Texts(st, rows);
      && correct !in wrong
      && |wrong| == Min(4, |WrongRows(st, l, correct)|)
      && forall o :: o in wrong ==> InLanguage(st, l, o)
  {
    var wrong := Texts(st, rows);
    forall o | o in wrong ensures InLanguage(st, l, o) {
      var i :| 0 <= i < |wrong| && wrong[i] == o;
      assert rows[i] in WrongRows(st, l, correct);
    }
  }

  /** A permutation of the correct answer followed by distractors that differ from it. */
  lemma ShuffledOptions(correct: Text, wrong: seq<Text>, options: seq<Text>)
    requires correct !in wrong
    requires multiset(options) == multiset([correct] + wrong)
    ensures |options| == 1 + |wrong|
    ensures multiset(options)[correct] == 1
    ensures forall o :: o in options && o != correct ==> o in wrong
  {
    assert |options| == |multiset(options)|;
    assert multiset(wrong)[correct] == 0;
    forall o | o in options && o != correct ensures o in wrong {
      assert o in multiset(options);
    }
  }

  /** The languages of a list of tests. */
  function TestLangs(ts: seq<LangTest>): (r: seq<Id>)
    ensures |r| == |ts|
    ensures forall i :: 0 <= i < |ts| ==> r[i] == ts[i].langId
  {
    if ts == [] then [] else [ts[0].langId] + TestLangs(ts[1..])
  }

  /**
   * The tests of word `w` as the handler builds them: one for every deck
   * language other than the main one, in link order.  The correct answer
   * is read by a scan that leaves the empty text when the word has no
   * translation in that language, and the test is built all the same.
   */
  function TestsAsWritten(st: Store, dr: Draws, w: Id, main: Id, langIds: seq<Id>): (r: seq<LangTest>)
    requires DrawsValid(st, dr)
    ensures TestLangs(r) == DropRow(langIds, main)
    ensures forall t :: t in r ==> t == MakeTest(st, dr, w, t.langId, TranslationOrEmpty(st, w, t.langId))
  {
    if langIds == [] then []
    else
      var rest := TestsAsWritten(st, dr, w, main, langIds[1..]);
      var l := langIds[0];
      if l == main then rest
      else
        var r := [MakeTest(st, dr, w, l, TranslationOrEmpty(st, w, l))] + rest;
        assert TestLangs(r) == [l] + TestLangs(rest);
        r
  }

  /** The deck languages, other than `main`, in which `w` has a translation, in link order. */
  function Translated(st: Store, w: Id, langIds: seq<Id>): (r: seq<Id>)
    ensures forall l :: l in r <==> l in langIds && TransKey(w, l) in st.translations
  {
    if langIds == [] then []
    else
      var rest := Translated(st, w, langIds[1..]);
      assert forall l :: l in langIds <==> l == langIds[0] || l in langIds[1..];
      if TransKey(w, langIds[0]) in st.translations then [langIds[0]] + rest else rest
  }

  /**
   * The tests of word `w` as intended: a language in which the word has
   * no translation is skipped, and every test's correct answer is the
   * stored translation.
   */
  function Tests(st: Store, dr: Draws, w: Id, main: Id, langIds: seq<Id>): (r: seq<LangTest>)
    requires DrawsValid(st, dr)
    ensures TestLangs(r) == Translated(st, w, DropRow(langIds, main))
    ensures forall t :: t in r ==>
      && TransKey(w, t.langId) in st.translations
      && t == MakeTest(st, dr, w, t.langId, st.translations[TransKey(w, t.langId)])
  {
    if langIds == [] then []
    else
      var rest := Tests(st, dr, w, main, langIds[1..]);
      var l := langIds[0];
      if l == main || TransKey(w, l) !in st.translations then rest
      else
        var r := [MakeTest(st, dr, w, l, st.translations[TransKey(w, l)])] + rest;
        assert TestLangs(r) == [l] + TestLangs(rest);
        r
  }

  /**
   * A deck language other than the main one in which the word has no
   * translation still gets a test, whose correct answer is the empty
   * text; in a valid store no stored translation is empty, so none of the
   * options a user can pick from the drawn rows is ever right.
   */
  lemma MissingTranslationTested(st: Store, dr: Draws, w: Id, main: Id, langIds: seq<Id>, l: Id)
    requires Valid(st) && DrawsValid(st, dr)
    requires l in langIds && l != main && TransKey(w, l) !in st.translations
    ensures exists i :: (0 <= i < |TestsAsWritten(st, dr, w, main, langIds)|
      && TestsAsWritten(st, dr, w, main, langIds)[i].langId == l
      && TestsAsWritten(st, dr, w, main, langIds)[i].correct == [])
    ensures l !in TestLangs(Tests(st, dr, w, main, langIds))
  {
    var r := TestsAsWritten(st, dr, w, main, langIds);
    assert l in DropRow(langIds, main);
    assert l in TestLangs(r);
    var i :| 0 <= i < |r| && TestLangs(r)[i] == l;
    assert r[i].langId == l;
  }

  /** Where every deck language has the word's translation, both builders agree. */
  lemma {:induction false} TestsAgree(st: Store, dr: Draws, w: Id, main: Id, langIds: seq<Id>)
    requires DrawsValid(st, dr)
    requires forall l :: l in langIds && l != main ==> TransKey(w, l) in st.translations
    ensures TestsAsWritten(st, dr, w, main, langIds) == Tests(st, dr, w, main, langIds)
    decreases |langIds|
  {
    if langIds != [] {
      assert forall l :: l in langIds[1..] ==> l in langIds;
      TestsAgree(st, dr, w, main, langIds[1..]);
      var l := langIds[0];
      if l != main {
        assert MakeTest(st, dr, w, l, TranslationOrEmpty(st, w, l))
          == MakeTest(st, dr, w, l, st.translations[TransKey(w, l)]);
      }
    }
  }

  // ----- Word tests -----

  /** The tests of one word, as written or as corrected. */
  function TestsFor(st: Store, dr: Draws, w: Id, main: Id, langIds: seq<Id>, corrected: bool): seq<LangTest>
    requires DrawsValid(st, dr)
  {
    if corrected then Tests(st, dr, w, main, langIds) else TestsAsWritten(st, dr, w, main, langIds)
  }

  function WordIdsOf(ts: seq<WordTest>): (r: seq<Id>)
    ensures |r| == |ts|
    ensures forall i :: 0 <= i < |ts| ==> r[i] == ts[i].wordId
  {
    if ts == [] then [] else [ts[0].wordId] + WordIdsOf(ts[1..])
  }

  /** A word is quizzed when it has a main-language translation and at least one test. */
  predicate Quizzed(st: Store, dr: Draws, w: Id, main: Id, langIds: seq<Id>, corrected: bool)
    requires DrawsValid(st, dr)
  {
    TransKey(w, main) in st.translations && TestsFor(st, dr, w, main, langIds, corrected) != []
  }

  /** `t` is the WordTest the loop builds for a quizzed word: its main translation and its tests. */
  predicate BuiltFor(st: Store, dr: Draws, main: Id, langIds: seq<Id>, corrected: bool, t: WordTest)
    requires DrawsValid(st, dr)
  {
    && Quizzed(st, dr, t.wordId, main, langIds, corrected)
    && t.mainWord == st.translations[TransKey(t.wordId, main)]
    && t.tests == TestsFor(st, dr, t.wordId, main, langIds, corrected)
  }

  /**
   * The word loop: in deck-word order, a word without a main-language
   * translation is skipped, and so is one whose test list came out empty.
   */
  function WordTests(st: Store, dr: Draws, main: Id, wordIds: seq<Id>, langIds: seq<Id>, corrected: bool): (r: seq<WordTest>)
    requires DrawsValid(st, dr)
    ensures SubsequenceOf(WordIdsOf(r), wordIds)
  {
    if wordIds == [] then []
    else
      var w := wordIds[0];
      var rest := WordTests(st, dr, main, wordIds[1..], langIds, corrected);
      if Quizzed(st, dr, w, main, langIds, corrected) then
        var r := [WordTest(w, st.translations[TransKey(w, main)], TestsFor(st, dr, w, main, langIds, corrected))] + rest;
        assert WordIdsOf(r)[1..] == WordIdsOf(rest);
        r
      else rest
  }

  /** Each WordTest is for one of the deck's words, quizzed, with its main translation and its tests. */
  lemma {:induction false} WordTestAt(st: Store, dr: Draws, main: Id, wordIds: seq<Id>, langIds: seq<Id>, corrected: bool, i: nat)
    requires DrawsValid(st, dr)
    requires i < |WordTests(st, dr, main, wordIds, langIds, corrected)|
    ensures var t := WordTests(st, dr, main, wordIds, langIds, corrected)[i];
      t.wordId in wordIds && BuiltFor(st, dr, main, langIds, corrected, t)
    decreases |wordIds|
  {
    var w := wordIds[0];
    if Quizzed(st, dr, w, main, langIds, corrected) {
      if i > 0 {
        WordTestAt(st, dr, main, wordIds[1..], langIds, corrected, i - 1);
      }
    } else {
      WordTestAt(st, dr, main, wordIds[1..], langIds, corrected, i);
    }
  }

  /** Every quizzed word of the deck gets a WordTest. */
  lemma {:induction false} WordTestsComplete(st: Store, dr: Draws, main: Id, wordIds: seq<Id>, langIds: seq<Id>, corrected: bool, w: Id)
    requires DrawsValid(st, dr)
    requires w in wordIds && Quizzed(st, dr, w, main, langIds, corrected)
    ensures w in WordIdsOf(WordTests(st, dr, main, wordIds, langIds, corrected))
    decreases |wordIds|
  {
    var r := WordTests(st, dr, main, wordIds, langIds, corrected);
    if wordIds[0] == w {
      assert WordIdsOf(r)[0] == w;
    } else {
      WordTestsComplete(st, dr, main, wordIds[1..], langIds, corrected, w);
      var rest := WordTests(st, dr, main, wordIds[1..], langIds, corrected);
      if Quizzed(st, dr, wordIds[0], main, langIds, corrected) {
        assert WordIdsOf(r)[1..] == WordIdsOf(rest);
      }
    }
  }

  // ----- The select_lang step -----

  /**
   * The answers of the select_lang step.  DeckNotFound and
   * MainTranslationsFailed are the failed deck and main-translation
   * queries: the SQL driver refuses a uint64 parameter above MaxInt64, the
   * largest value a bigint holds.
   */
  datatype QuizOutcome =
    | InvalidDeckId
    | InvalidMainLangId
    | DeckNotFound
    | NoWordsInDeck
    | MainTranslationsFailed
    | QuizPage(deckId: Id, deck: Deck, deckLangs: seq<Id>, mainLang: Id, wordTests: seq<WordTest>)

  /** `SELECT * FROM decks WHERE id = ?` scanned into a Deck: the zero Deck when there is no row. */
  function DeckOrZero(st: Store, d: Id): (r: Deck)
    ensures d in st.decks ==> r == st.decks[d]
    ensures d !in st.decks ==> r == Deck(0, [])
  {
    if d in st.decks then st.decks[d] else Deck(0, [])
  }

  /**
   * handleSelectLang: both ids must parse as unsigned decimals; the deck
   * query fails for a deck id beyond the bigint range; a deck without
   * words is refused; the main-translation query fails for a main
   * language id beyond the bigint range; otherwise the page carries the
   * deck (with no check of whose it is), its language links, the main
   * language and the word tests, built as written or as corrected.
   */
  function SelectLangWith(st: Store, dr: Draws, form: Form, corrected: bool): (r: QuizOutcome)
    requires DrawsValid(st, dr)
    ensures r == InvalidDeckId <==> ParseId(FormValue(form, DeckIdField)).None?
    ensures r == InvalidMainLangId <==>
      ParseId(FormValue(form, DeckIdField)).Some? && ParseId(FormValue(form, MainLangField)).None?
    ensures r == DeckNotFound <==>
      && ParseId(FormValue(form, DeckIdField)).Some? && ParseId(FormValue(form, MainLangField)).Some?
      && ParseId(FormValue(form, DeckIdField)).value > MaxInt64
    ensures r == NoWordsInDeck <==>
      && ParseId(FormValue(form, DeckIdField)).Some? && ParseId(FormValue(form, MainLangField)).Some?
      && ParseId(FormValue(form, DeckIdField)).value <= MaxInt64
      && forall w :: DeckWord(ParseId(FormValue(form, DeckIdField)).value, w) !in st.deckWords
    ensures r == MainTranslationsFailed <==>
      && ParseId(FormValue(form, DeckIdField)).Some? && ParseId(FormValue(form, MainLangField)).Some?
      && ParseId(FormValue(form, DeckIdField)).value <= MaxInt64
      && (exists w :: DeckWord(ParseId(FormValue(form, DeckIdField)).value, w) in st.deckWords)
      && ParseId(FormValue(form, MainLangField)).value > MaxInt64
    ensures r.QuizPage? ==>
      var d := ParseId(FormValue(form, DeckIdField)).value;
      && d <= MaxInt64 && r.mainLang <= MaxInt64
      && r.deckId == d
      && r.deck == DeckOrZero(st, d)
      && r.deckLangs == DeckLangIds(st, d)
      && r.mainLang == ParseId(FormValue(form, MainLangField)).value
      && r.wordTests == WordTests(st, dr, r.mainLang, DeckWordIds(st, d), DeckLangIds(st, d), corrected)
  {
    match ParseId(FormValue(form, DeckIdField))
    case None => InvalidDeckId
    case Some(d) =>
      match ParseId(FormValue(form, MainLangField))
      case None => InvalidMainLangId
      case Some(main) =>
        var wordIds := DeckWordIds(st, d);
        if d > MaxInt64 then DeckNotFound
        else if wordIds == [] then NoWordsInDeck
        else
          assert wordIds[0] in wordIds;
          if main > MaxInt64 then MainTranslationsFailed
          else QuizPage(d, DeckOrZero(st, d), DeckLangIds(st, d), main,
            WordTests(st, dr, main, wordIds, DeckLangIds(st, d), corrected))
  }

  /** A word's tests are in languages of the list other than the main one. */
  lemma TestsInLangs(st: Store, dr: Draws, w: Id, main: Id, langIds: seq<Id>, corrected: bool)
    requires DrawsValid(st, dr)
    ensures var ts := TestsFor(st, dr, w, main, langIds, corrected);
      forall j :: 0 <= j < |ts| ==>
        && ts[j].langId in langIds && ts[j].langId != main
        && ts[j].correct == TranslationOrEmpty(st, w, ts[j].langId)
        && (corrected ==> TransKey(w, ts[j].langId) in st.translations)
  {
    var ts := TestsFor(st, dr, w, main, langIds, corrected);
    var ids := DropRow(langIds, main);
    if corrected {
      TestLangsIn(ts, Translated(st, w, ids));
    } else {
      TestLangsIn(ts, ids);
    }
  }

  /** Each quizzed word is a word of the deck, tested only in the deck's other languages. */
  lemma PageInDeck(st: Store, dr: Draws, d: Id, main: Id, corrected: bool, i: nat)
    requires DrawsValid(st, dr)
    requires i < |WordTests(st, dr, main, DeckWordIds(st, d), DeckLangIds(st, d), corrected)|
    ensures var t := WordTests(st, dr, main, DeckWordIds(st, d), DeckLangIds(st, d), corrected)[i];
      && DeckWord(d, t.wordId) in st.deckWords
      && t.tests != []
      && forall j :: 0 <= j < |t.tests| ==>
           && t.tests[j].langId in DeckLangIds(st, d) && t.tests[j].langId != main
           && t.tests[j].correct == TranslationOrEmpty(st, t.wordId, t.tests[j].langId)
           && (corrected ==> TransKey(t.wordId, t.tests[j].langId) in st.translations)
  {
    var langIds := DeckLangIds(st, d);
    var t := WordTests(st, dr, main, DeckWordIds(st, d), langIds, corrected)[i];
    WordTestAt(st, dr, main, DeckWordIds(st, d), langIds, corrected, i);
    TestsInLangs(st, dr, t.wordId, main, langIds, corrected);
  }

  /** The select_lang step as the handler builds it. */
  function SelectLangAsWritten(st: Store, dr: Draws, form: Form): (r: QuizOutcome)
    requires DrawsValid(st, dr)
    ensures r.QuizPage? ==> forall i :: 0 <= i < |r.wordTests| ==>
      var t := r.wordTests[i];
      && DeckWord(r.deckId, t.wordId) in st.deckWords
      && t.tests != []
      && forall j :: 0 <= j < |t.tests| ==>
           && t.tests[j].langId in r.deckLangs && t.tests[j].langId != r.mainLang
           && t.tests[j].correct == TranslationOrEmpty(st, t.wordId, t.tests[j].langId)
  {
    var r := SelectLangWith(st, dr, form, false);
    if r.QuizPage? then
      forall i | 0 <= i < |r.wordTests| {
        PageInDeck(st, dr, r.deckId, r.mainLang, false, i);
      }
      r
    else r
  }

  /**
   * The select_lang step with the missing-translation fix: every test's
   * correct answer is a stored translation of the word in that language.
   */
  function SelectLang(st: Store, dr: Draws, form: Form): (r: QuizOutcome)
    requires DrawsValid(st, dr)
    ensures r.QuizPage? ==> forall i :: 0 <= i < |r.wordTests| ==>
      var t := r.wordTests[i];
      && DeckWord(r.deckId, t.wordId) in st.deckWords
      && t.tests != []
      && forall j :: 0 <= j < |t.tests| ==>
           && t.tests[j].langId in r.deckLangs && t.tests[j].langId != r.mainLang
           && TransKey(t.wordId, t.tests[j].langId) in st.translations
           && t.tests[j].correct == st.translations[TransKey(t.wordId, t.tests[j].langId)]
  {
    var r := SelectLangWith(st, dr, form, true);
    if r.QuizPage? then
      forall i | 0 <= i < |r.wordTests| {
        PageInDeck(st, dr, r.deckId, r.mainLang, true, i);
      }
      r
    else r
  }

  lemma TestLangsIn(ts: seq<LangTest>, ids: seq<Id>)
    requires TestLangs(ts) == ids
    ensures forall j :: 0 <= j < |ts| ==> ts[j].langId in ids
  {
    forall j | 0 <= j < |ts| ensures ts[j].langId in ids {
      assert TestLangs(ts)[j] == ts[j].langId;
    }
  }

  // ----- The flashcards page -----

  const SelectDeckStep: Text := "select_deck"
  const SelectLangStep: Text := "select_lang"

  datatype FlashcardsOutcome =
    | ToLogin
    | InvalidUserSession
    | DeckChooser
    | DeckChosen
    | InvalidStep
    | LangChosen(quiz: QuizOutcome)

  /**
   * FlashcardsHandler: the session gate; a GET shows the deck chooser;
   * a POST dispatches on the `step` field, and any other step is refused.
   * With `corrected` false the select_lang step is handleSelectLang as
   * written; with `corrected` true it carries the missing-translation fix.
   */
  function Flashcards(st: Store, dr: Draws, session: Session, post: bool, form: Form, corrected: bool): (r: FlashcardsOutcome)
    requires DrawsValid(st, dr)
    ensures r == ToLogin <==> !session.authenticated
    ensures r == InvalidUserSession <==> session.authenticated && session.userId.None?
    ensures r == DeckChooser <==> session.authenticated && session.userId.Some? && !post
    ensures r == DeckChosen <==>
      session.authenticated && session.userId.Some? && post && FormValue(form, StepField) == SelectDeckStep
    ensures r == InvalidStep <==>
      && session.authenticated && session.userId.Some? && post
      && FormValue(form, StepField) != SelectDeckStep && FormValue(form, StepField) != SelectLangStep
    ensures r.LangChosen? <==>
      session.authenticated && session.userId.Some? && post && FormValue(form, StepField) == SelectLangStep
    ensures r.LangChosen? && !corrected ==> r.quiz == SelectLangAsWritten(st, dr, form)
    ensures r.LangChosen? && corrected ==> r.quiz == SelectLang(st, dr, form)
  {
    match SessionGate(session)
    case NotAuthenticated => ToLogin
    case NoUserId => InvalidUserSession
    case Allowed(_) =>
      if !post then DeckChooser
      else
        var step := FormValue(form, StepField);
        if step == SelectDeckStep then DeckChosen
        else if step == SelectLangStep then
          LangChosen(if corrected then SelectLang(st, dr, form) else SelectLangAsWritten(st, dr, form))
        else InvalidStep
  }
}
