/**
 * Flashcard answer checking: the quiz form comes back with one
 * `word_<id>_main` field per word and, per other deck language, the chosen
 * answer `word_<id>_lang_<lang>` and the correct one
 * `word_<id>_lang_<lang>_correct`; each answer is graded by comparing the
 * two texts.
 *
 * The handler walks the form's keys in Go's map iteration order, which is
 * unspecified; here that order is an input, and the result is shown not to
 * depend on it beyond the order of the rows.
 */
module Scoring {
  import opened Text
  import opened Results
  import opened Store
  import opened Http
  import opened Decimal
  import Quiz

  const WordPrefix: Text := "word_"
  const MainSuffix: Text := "_main"
  const LangInfix: Text := "_lang_"
  const CorrectSuffix: Text := "_correct"

  // ----- Form keys -----

  /** A key naming a word's main-language field. */
  predicate IsMainKey(key: Text) {
    HasPrefix(key, WordPrefix) && HasSuffix(key, MainSuffix)
  }

  /** The text between `word_` and `_main`, taken off in that order. */
  function WordIdText(key: Text): Text {
    TrimPrefix(TrimSuffix(key, MainSuffix), WordPrefix)
  }

  /** The key the quiz page gives a word's main-language field. */
  function MainKey(wordId: Text): Text {
    WordPrefix + wordId + MainSuffix
  }

  /** `fmt.Sprintf("word_%s_lang_%d", wordId, lang)`. */
  function AnswerKey(wordId: Text, lang: Id): Text {
    WordPrefix + wordId + LangInfix + Format(lang)
  }

  /** `fmt.Sprintf("word_%s_lang_%d_correct", wordId, lang)`. */
  function CorrectKey(wordId: Text, lang: Id): Text {
    AnswerKey(wordId, lang) + CorrectSuffix
  }

  /** A main key is recognised, and the word id read back from it is the one written into it. */
  lemma MainKeyRoundTrip(wordId: Text)
    ensures IsMainKey(MainKey(wordId))
    ensures WordIdText(MainKey(wordId)) == wordId
  {
    var k := MainKey(wordId);
    assert k[..|WordPrefix|] == WordPrefix;
    assert k[|k| - |MainSuffix|..] == MainSuffix;
    assert TrimSuffix(k, MainSuffix) == WordPrefix + wordId;
    assert (WordPrefix + wordId)[..|WordPrefix|] == WordPrefix;
  }

  /** Every recognised key is the main key of the word id read from it. */
  lemma MainKeyOnly(key: Text)
    requires IsMainKey(key) && |key| >= |WordPrefix| + |MainSuffix|
    ensures MainKey(WordIdText(key)) == key
  {
    var t := TrimSuffix(key, MainSuffix);
    assert t == key[..|key| - |MainSuffix|];
    assert t[..|WordPrefix|] == key[..|WordPrefix|];
    assert WordPrefix + t[|WordPrefix|..] == t;
  }

  /**
   * `word_main` is recognised too, the prefix and the suffix sharing its
   * underscore; the word id read from it is `word`.
   */
  lemma OverlappingMainKey()
    ensures IsMainKey("word_main")
    ensures WordIdText("word_main") == "word"
  {
    assert TrimSuffix("word_main", MainSuffix) == "word";
  }

  // ----- Grading -----

  datatype Status = Correct | Incorrect

  /** One answer: the language's title, the chosen text, the correct text, and the grade. */
  datatype LangResult = LangResult(name: Text, chosen: Text, correct: Text, status: Status)

  /** One word's row: its main-language text and one LangResult per other language. */
  datatype FlashcardResult = FlashcardResult(mainWord: Text, langResults: seq<LangResult>)

  /** A deck language other than the main one: the columns of the results table. */
  datatype OtherLang = OtherLang(id: Id, title: Text)

  function Grade(chosen: Text, correct: Text): (s: Status)
    ensures s == Correct <==> chosen == correct
  {
    if chosen == correct then Correct else Incorrect
  }

  /** The answers of the word whose id text is `wordId`, one per other language, in order. */
  function LangResults(form: Form, wordId: Text, langs: seq<OtherLang>): (r: seq<LangResult>)
    ensures |r| == |langs|
    ensures forall i :: 0 <= i < |langs| ==>
      && r[i].name == langs[i].title
      && r[i].chosen == FormValue(form, AnswerKey(wordId, langs[i].id))
      && r[i].correct == FormValue(form, CorrectKey(wordId, langs[i].id))
      && (r[i].status == Correct <==> r[i].chosen == r[i].correct)
  {
    if langs == [] then []
    else
      var chosen := FormValue(form, AnswerKey(wordId, langs[0].id));
      var correct := FormValue(form, CorrectKey(wordId, langs[0].id));
      [LangResult(langs[0].title, chosen, correct, Grade(chosen, correct))]
        + LangResults(form, wordId, langs[1..])
  }

  /**
   * A word whose answer fields are both missing from the form is graded
   * correct in every language: the two empty texts compare equal.
   */
  lemma MissingAnswersCorrect(form: Form, wordId: Text, langs: seq<OtherLang>)
    requires forall i :: 0 <= i < |langs| ==>
      AnswerKey(wordId, langs[i].id) !in form && CorrectKey(wordId, langs[i].id) !in form
    ensures forall res :: res in LangResults(form, wordId, langs) ==> res.status == Correct
  {
  }

  /** The parsed form holds at least one value under every key, as url.ParseQuery builds it. */
  predicate Parsed(form: Form) {
    forall k :: k in form ==> form[k] != []
  }

  /** The row of one main key. */
  function Score(form: Form, key: Text, langs: seq<OtherLang>): (r: FlashcardResult)
    requires key in form && form[key] != []
    ensures r.mainWord == form[key][0]
    ensures |r.langResults| == |langs|
  {
    FlashcardResult(form[key][0], LangResults(form, WordIdText(key), langs))
  }

  /** `res` is the row of some main key among `keys`. */
  predicate FromMainKey(form: Form, keys: seq<Text>, langs: seq<OtherLang>, res: FlashcardResult)
    requires Parsed(form)
    requires forall k :: k in keys ==> k in form
  {
    exists k :: k in keys && IsMainKey(k) && res == Score(form, k, langs)
  }

  /** The loop over the form's keys, taken in the order `keys`: one row per main key. */
  function ScoreAll(form: Form, keys: seq<Text>, langs: seq<OtherLang>): (r: seq<FlashcardResult>)
    requires Parsed(form)
    requires forall k :: k in keys ==> k in form
    ensures |r| <= |keys|
    ensures forall i :: 0 <= i < |r| ==> FromMainKey(form, keys, langs, r[i])
    ensures forall k :: k in keys && IsMainKey(k) ==> Score(form, k, langs) in r
  {
    if keys == [] then []
    else
      var rest := ScoreAll(form, keys[1..], langs);
      assert forall k :: k in keys <==> k == keys[0] || k in keys[1..];
      assert forall i :: 0 <= i < |rest| ==> FromMainKey(form, keys, langs, rest[i]);
      if IsMainKey(keys[0]) then [Score(form, keys[0], langs)] + rest else rest
  }

  /**
   * The main keys among `keys`, in the order they are visited: each keeps
   * its number of copies, and every other key is left out.
   */
  function MainKeyOrder(keys: seq<Text>): (m: seq<Text>)
    ensures forall k :: k in m ==> k in keys && IsMainKey(k)
    ensures forall k :: IsMainKey(k) ==> multiset(m)[k] == multiset(keys)[k]
    ensures SubsequenceOf(m, keys)
  {
    if keys == [] then []
    else
      var rest := MainKeyOrder(keys[1..]);
      assert keys == [keys[0]] + keys[1..];
      if IsMainKey(keys[0]) then
        assert ([keys[0]] + rest)[1..] == rest;
        [keys[0]] + rest
      else rest
  }

  /** One row per key of `m`, in the order of `m`. */
  function ScoreEach(form: Form, m: seq<Text>, langs: seq<OtherLang>): (r: seq<FlashcardResult>)
    requires Parsed(form)
    requires forall k :: k in m ==> k in form
    ensures |r| == |m|
  {
    if m == [] then [] else [Score(form, m[0], langs)] + ScoreEach(form, m[1..], langs)
  }

  /** Row `i` of ScoreEach is the score of the `i`-th key. */
  lemma {:induction false} ScoreEachAt(form: Form, m: seq<Text>, langs: seq<OtherLang>, i: int)
    requires Parsed(form)
    requires forall k :: k in m ==> k in form
    requires 0 <= i < |m|
    ensures ScoreEach(form, m, langs)[i] == Score(form, m[i], langs)
    decreases i
  {
    if i > 0 {
      assert forall k :: k in m[1..] ==> k in m;
      ScoreEachAt(form, m[1..], langs, i - 1);
    }
  }

  /** The rows are exactly the rows of the main keys, in visiting order. */
  lemma {:induction false} ScoreAllRows(form: Form, keys: seq<Text>, langs: seq<OtherLang>)
    requires Parsed(form)
    requires forall k :: k in keys ==> k in form
    ensures ScoreAll(form, keys, langs) == ScoreEach(form, MainKeyOrder(keys), langs)
    decreases |keys|
  {
    if keys != [] {
      assert forall k :: k in keys[1..] ==> k in keys;
      ScoreAllRows(form, keys[1..], langs);
      if IsMainKey(keys[0]) {
        var m := MainKeyOrder(keys);
        assert m == [keys[0]] + MainKeyOrder(keys[1..]);
        assert m[1..] == MainKeyOrder(keys[1..]);
      }
    }
  }

  /** Row `i` is the score of the `i`-th main key visited. */
  lemma ScoreAllInOrder(form: Form, keys: seq<Text>, langs: seq<OtherLang>)
    requires Parsed(form)
    requires forall k :: k in keys ==> k in form
    ensures var r := ScoreAll(form, keys, langs);
      var m := MainKeyOrder(keys);
      && |r| == |m|
      && forall i :: 0 <= i < |m| ==> r[i] == Score(form, m[i], langs)
  {
    var m := MainKeyOrder(keys);
    ScoreAllRows(form, keys, langs);
    forall i | 0 <= i < |m| ensures ScoreAll(form, keys, langs)[i] == Score(form, m[i], langs) {
      ScoreEachAt(form, m, langs, i);
    }
  }

  /** Visiting every key of the form once visits every main key exactly once. */
  lemma MainKeysOnce(form: Form, keys: seq<Text>)
    requires KeysOf(form, keys)
    ensures forall k :: multiset(MainKeyOrder(keys))[k] == if k in form && IsMainKey(k) then 1 else 0
  {
    DistinctMultiset(keys);
  }

  lemma {:induction false} ScoreAllAppend(form: Form, a: seq<Text>, b: seq<Text>, langs: seq<OtherLang>)
    requires Parsed(form)
    requires forall k :: k in a + b ==> k in form
    ensures ScoreAll(form, a + b, langs) == ScoreAll(form, a, langs) + ScoreAll(form, b, langs)
    decreases |a|
  {
    if a != [] {
      assert (a + b)[1..] == a[1..] + b;
      ScoreAllAppend(form, a[1..], b, langs);
    } else {
      assert a + b == b;
    }
  }

  /** Taking one key out of the visiting order takes its row, if any, out of the rows. */
  lemma ScoreAllRemove(form: Form, keys: seq<Text>, j: nat, langs: seq<OtherLang>)
    requires Parsed(form)
    requires forall k :: k in keys ==> k in form
    requires j < |keys|
    ensures multiset(ScoreAll(form, keys, langs))
      == multiset(ScoreAll(form, [keys[j]], langs)) + multiset(ScoreAll(form, keys[..j] + keys[j + 1..], langs))
  {
    var before, after := keys[..j], keys[j + 1..];
    assert keys == before + [keys[j]] + after;
    ScoreAllAppend(form, before + [keys[j]], after, langs);
    ScoreAllAppend(form, before, [keys[j]], langs);
    ScoreAllAppend(form, before, after, langs);
  }

  /**
   * The rows do not depend on the order the keys are visited in, up to
   * their own order: two orders of the same keys give the same rows.
   */
  lemma {:induction false} ScoreAllPermutation(form: Form, keys1: seq<Text>, keys2: seq<Text>, langs: seq<OtherLang>)
    requires Parsed(form)
    requires forall k :: k in keys1 ==> k in form
    requires forall k :: k in keys2 ==> k in form
    requires multiset(keys1) == multiset(keys2)
    ensures multiset(ScoreAll(form, keys1, langs)) == multiset(ScoreAll(form, keys2, langs))
    decreases |keys1|
  {
    if keys1 == [] {
      assert |keys2| == |multiset(keys2)| == 0;
    } else {
      var x := keys1[0];
      assert x in multiset(keys2);
      var j :| 0 <= j < |keys2| && keys2[j] == x;
      var rest2 := keys2[..j] + keys2[j + 1..];
      RemoveSame(keys1, keys2, j);
      ScoreAllRemove(form, keys2, j, langs);
      ScoreAllRemove(form, keys1, 0, langs);
      assert keys1[..0] + keys1[1..] == keys1[1..];
      assert forall k :: k in rest2 ==> k in keys2;
      ScoreAllPermutation(form, keys1[1..], rest2, langs);
    }
  }

  lemma RemoveSame(a: seq<Text>, b: seq<Text>, j: nat)
    requires a != [] && j < |b| && b[j] == a[0]
    requires multiset(a) == multiset(b)
    ensures multiset(a[1..]) == multiset(b[..j] + b[j + 1..])
  {
    assert a == [a[0]] + a[1..];
    assert multiset(a) == multiset([a[0]]) + multiset(a[1..]);
    assert b == b[..j] + [b[j]] + b[j + 1..];
    assert multiset(b) == multiset(b[..j]) + multiset([b[j]]) + multiset(b[j + 1..]);
    assert multiset(b[..j] + b[j + 1..]) == multiset(b[..j]) + multiset(b[j + 1..]);
    forall k ensures multiset(a[1..])[k] == multiset(b[..j] + b[j + 1..])[k] {
      assert multiset(a)[k] == multiset(b)[k];
    }
  }

  /** The keys of the map, each once, in some order. */
  ghost predicate KeysOf(form: Form, keys: seq<Text>) {
    && (forall k :: k in keys <==> k in form)
    && (forall i, j :: 0 <= i < j < |keys| ==> keys[i] != keys[j])
  }

  function MainKeys(form: Form): (s: set<Text>)
    ensures forall k :: k in s <==> k in form && IsMainKey(k)
  {
    set k | k in form && IsMainKey(k)
  }

  /** The main keys among `keys`. */
  function MainKeysIn(keys: seq<Text>): (s: set<Text>)
    ensures forall k :: k in s <==> k in keys && IsMainKey(k)
  {
    set k | k in keys && IsMainKey(k)
  }

  lemma {:induction false} ScoreAllCount(form: Form, keys: seq<Text>, langs: seq<OtherLang>)
    requires Parsed(form)
    requires forall k :: k in keys ==> k in form
    requires forall i, j :: 0 <= i < j < |keys| ==> keys[i] != keys[j]
    ensures |ScoreAll(form, keys, langs)| == |MainKeysIn(keys)|
    decreases |keys|
  {
    if keys != [] {
      ScoreAllCount(form, keys[1..], langs);
      var rest := MainKeysIn(keys[1..]);
      assert keys[0] !in keys[1..];
      assert forall k :: k in keys <==> k == keys[0] || k in keys[1..];
      if IsMainKey(keys[0]) {
        assert MainKeysIn(keys) == {keys[0]} + rest;
      } else {
        assert MainKeysIn(keys) == rest;
      }
    } else {
      assert MainKeysIn(keys) == {};
    }
  }

  /** One row per main key of the form, whatever the visiting order. */
  lemma RowsPerMainKey(form: Form, keys: seq<Text>, langs: seq<OtherLang>)
    requires Parsed(form) && KeysOf(form, keys)
    ensures |ScoreAll(form, keys, langs)| == |MainKeys(form)|
  {
    ScoreAllCount(form, keys, langs);
    assert MainKeysIn(keys) == MainKeys(form);
  }

  // ----- The languages of the results table -----

  function LangIdsOf(langs: seq<OtherLang>): (r: seq<Id>)
    ensures |r| == |langs|
    ensures forall i :: 0 <= i < |langs| ==> r[i] == langs[i].id
  {
    if langs == [] then [] else [langs[0].id] + LangIdsOf(langs[1..])
  }

  function Titles(langs: seq<OtherLang>): (r: seq<Text>)
    ensures |r| == |langs|
    ensures forall i :: 0 <= i < |langs| ==> r[i] == langs[i].title
  {
    if langs == [] then [] else [langs[0].title] + Titles(langs[1..])
  }

  /** deck_langs joined with user_langs, without the main language: the link rows whose language exists. */
  function JoinOthers(st: Store, ids: seq<Id>, main: Id): (r: seq<OtherLang>)
    ensures forall i :: 0 <= i < |r| ==>
      r[i].id in ids && r[i].id in st.langs && r[i].id != main && r[i].title == st.langs[r[i].id].title
    ensures forall l :: l in LangIdsOf(r) <==> l in ids && l in st.langs && l != main
  {
    if ids == [] then []
    else
      var rest := JoinOthers(st, ids[1..], main);
      var l := ids[0];
      assert forall x :: x in ids <==> x == l || x in ids[1..];
      if l in st.langs && l != main then
        var r := [OtherLang(l, st.langs[l].title)] + rest;
        assert LangIdsOf(r) == [l] + LangIdsOf(rest);
        r
      else rest
  }

  /** The other languages of a deck, in link order. */
  function OtherLangs(st: Store, deck: Id, main: Id): seq<OtherLang> {
    JoinOthers(st, DeckLangIds(st, deck), main)
  }

  lemma {:induction false} JoinOthersAll(st: Store, ids: seq<Id>, main: Id)
    requires forall i :: 0 <= i < |ids| ==> ids[i] in st.langs
    ensures LangIdsOf(JoinOthers(st, ids, main)) == DropRow(ids, main)
    decreases |ids|
  {
    if ids != [] {
      JoinOthersAll(st, ids[1..], main);
      var rest := JoinOthers(st, ids[1..], main);
      if ids[0] != main {
        assert LangIdsOf([OtherLang(ids[0], st.langs[ids[0]].title)] + rest) == [ids[0]] + LangIdsOf(rest);
      }
    }
  }

  /**
   * In a valid store the results table has a column for exactly the
   * languages, in the same order, that the quiz as written builds a test
   * in for each word; with the missing-translation fix every tested
   * language still has its column.
   */
  lemma ColumnsMatchQuiz(st: Store, dr: Quiz.Draws, deck: Id, main: Id, w: Id)
    requires Valid(st) && Quiz.DrawsValid(st, dr)
    ensures LangIdsOf(OtherLangs(st, deck, main))
      == Quiz.TestLangs(Quiz.TestsAsWritten(st, dr, w, main, DeckLangIds(st, deck)))
    ensures forall l :: l in Quiz.TestLangs(Quiz.Tests(st, dr, w, main, DeckLangIds(st, deck))) ==>
      l in LangIdsOf(OtherLangs(st, deck, main))
  {
    var ids := DeckLangIds(st, deck);
    forall i | 0 <= i < |ids| ensures ids[i] in st.langs {
      assert DeckLang(deck, ids[i]) in st.deckLangs;
    }
    JoinOthersAll(st, ids, main);
  }

  // ----- The check handler -----

  const DeckIdField: Text := "deck_id"
  const MainLangField: Text := "main_lang_id"

  datatype CheckOutcome =
    | MethodNotAllowed
    | ToLogin
    | MainLangFailed
    | OtherLangsFailed
    | ResultsPage(mainLangTitle: Text, langTitles: seq<Text>, results: seq<FlashcardResult>)

  /**
   * FlashcardsCheckHandler: POST only; an authenticated session (the user
   * id is not read); the main language's title, where an id the database
   * cannot read as an integer fails the query and a missing row leaves
   * the empty title; the deck's other languages, where the deck id must
   * read as an integer too; then one row per main key of the form, visited
   * in the order `keys`.
   */
  function Check(st: Store, session: Session, post: bool, form: Form, keys: seq<Text>): (r: CheckOutcome)
    requires Parsed(form) && KeysOf(form, keys)
    ensures r == MethodNotAllowed <==> !post
    ensures r == ToLogin <==> post && !session.authenticated
    ensures r == MainLangFailed <==> post && session.authenticated && SqlId(FormValue(form, MainLangField)).None?
    ensures r == OtherLangsFailed <==>
      && post && session.authenticated && SqlId(FormValue(form, MainLangField)).Some?
      && SqlId(FormValue(form, DeckIdField)).None?
    ensures r.ResultsPage? ==>
      var main := SqlId(FormValue(form, MainLangField)).value;
      var langs := OtherLangs(st, SqlId(FormValue(form, DeckIdField)).value, main);
      && r.mainLangTitle == LangTitle(st, main)
      && r.langTitles == Titles(langs)
      && |r.results| == |MainKeys(form)|
      && (forall i :: 0 <= i < |r.results| ==> FromMainKey(form, keys, langs, r.results[i]))
      && (forall k :: k in form && IsMainKey(k) ==> Score(form, k, langs) in r.results)
    ensures r.ResultsPage? ==>
      var langs := OtherLangs(st, SqlId(FormValue(form, DeckIdField)).value, SqlId(FormValue(form, MainLangField)).value);
      var m := MainKeyOrder(keys);
      && (forall k :: multiset(m)[k] == if k in form && IsMainKey(k) then 1 else 0)
      && |r.results| == |m|
      && (forall i :: 0 <= i < |m| ==> r.results[i] == Score(form, m[i], langs))
  {
    if !post then MethodNotAllowed
    else if !session.authenticated then ToLogin
    else
      match SqlId(FormValue(form, MainLangField))
      case None => MainLangFailed
      case Some(main) =>
        match SqlId(FormValue(form, DeckIdField))
        case None => OtherLangsFailed
        case Some(deck) =>
          var langs := OtherLangs(st, deck, main);
          RowsPerMainKey(form, keys, langs);
          ScoreAllInOrder(form, keys, langs);
          MainKeysOnce(form, keys);
          ResultsPage(LangTitle(st, main), Titles(langs), ScoreAll(form, keys, langs))
  }

  /** Two visiting orders of the form's keys give the same rows. */
  lemma CheckOrderIndependent(st: Store, session: Session, post: bool, form: Form, keys1: seq<Text>, keys2: seq<Text>)
    requires Parsed(form) && KeysOf(form, keys1) && KeysOf(form, keys2)
    ensures var r1 := Check(st, session, post, form, keys1);
      var r2 := Check(st, session, post, form, keys2);
      && (r1.ResultsPage? <==> r2.ResultsPage?)
      && (r1.ResultsPage? ==>
            && r1.mainLangTitle == r2.mainLangTitle && r1.langTitles == r2.langTitles
            && multiset(r1.results) == multiset(r2.results))
  {
    var r1 := Check(st, session, post, form, keys1);
    if r1.ResultsPage? {
      var main := SqlId(FormValue(form, MainLangField)).value;
      var langs := OtherLangs(st, SqlId(FormValue(form, DeckIdField)).value, main);
      DistinctSameMultiset(keys1, keys2);
      ScoreAllPermutation(form, keys1, keys2, langs);
    }
  }

  /** Two duplicate-free sequences with the same elements hold each of them once. */
  lemma DistinctSameMultiset(a: seq<Text>, b: seq<Text>)
    requires forall i, j :: 0 <= i < j < |a| ==> a[i] != a[j]
    requires forall i, j :: 0 <= i < j < |b| ==> b[i] != b[j]
    requires forall k :: k in a <==> k in b
    ensures multiset(a) == multiset(b)
  {
    DistinctMultiset(a);
    DistinctMultiset(b);
  }

  lemma {:induction false} DistinctMultiset(a: seq<Text>)
    requires forall i, j :: 0 <= i < j < |a| ==> a[i] != a[j]
    ensures forall k :: multiset(a)[k] == if k in a then 1 else 0
    decreases |a|
  {
    if a != [] {
      DistinctMultiset(a[1..]);
      assert a == [a[0]] + a[1..];
      assert a[0] !in a[1..];
    }
  }
}
