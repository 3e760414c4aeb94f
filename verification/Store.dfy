/**
 * The database as an abstract state.
 *
 * Entity tables are maps from primary key to record (users, user_langs,
 * decks), the words table is a set of ids, user_words is a map keyed by
 * (word, language), and the two link tables deck_words and deck_langs are
 * sequences of rows in primary-key order, so that an insert appends.
 * A query without ORDER BY returns its rows in primary-key order.
 */
module Store {
  import opened Text

  type Id = nat

  /** A users row; `password` holds the stored hash. */
  datatype User = User(username: Text, password: Text)

  /** A user_langs row: a language owned by one user. */
  datatype UserLang = UserLang(userId: Id, title: Text)

  /** A decks row. */
  datatype Deck = Deck(userId: Id, title: Text)

  /** The key of a user_words row. */
  datatype TransKey = TransKey(wordId: Id, langId: Id)

  /** A deck_words row. */
  datatype DeckWord = DeckWord(deckId: Id, wordId: Id)

  /** A deck_langs row. */
  datatype DeckLang = DeckLang(deckId: Id, langId: Id)

  datatype Store = Store(
    users: map<Id, User>,
    langs: map<Id, UserLang>,
    words: set<Id>,
    translations: map<TransKey, Text>,
    decks: map<Id, Deck>,
    deckWords: seq<DeckWord>,
    deckLangs: seq<DeckLang>)

  /**
   * The foreign keys declared on the records, plus the facts the handlers
   * maintain: stored translations are never empty (they are trimmed and
   * checked before insertion) and usernames are unique.  Serial ids start
   * at 1, so id 0 is never a row: it is what a scan finds when there is
   * no row.
   */
  predicate Valid(st: Store) {
    && (forall l :: l in st.langs ==> st.langs[l].userId in st.users)
    && (forall k :: k in st.translations ==>
          k.wordId in st.words && k.langId in st.langs && st.translations[k] != [])
    && (forall d :: d in st.decks ==> st.decks[d].userId in st.users)
    && (forall x :: x in st.deckWords ==> x.deckId in st.decks && x.wordId in st.words)
    && (forall x :: x in st.deckLangs ==> x.deckId in st.decks && x.langId in st.langs)
    && UniqueUsernames(st.users)
    && 0 !in st.users && 0 !in st.langs && 0 !in st.decks && 0 !in st.words
  }

  predicate UniqueUsernames(users: map<Id, User>) {
    forall a, b :: a in users && b in users && a != b ==> users[a].username != users[b].username
  }

  /** An id larger than every id in use: what a serial column hands out next. */
  function FreshId(ids: set<Id>): (r: Id)
    ensures r > 0
    ensures forall i :: i in ids ==> i < r
    decreases ids
  {
    if ids == {} then 1
    else
      var m := Max(ids);
      m + 1
  }

  function Max(ids: set<Id>): (m: Id)
    requires ids != {}
    ensures m in ids
    ensures forall i :: i in ids ==> i <= m
  {
    MaxExists(ids);
    var m :| m in ids && forall i :: i in ids ==> i <= m;
    m
  }

  lemma MaxExists(ids: set<Id>)
    requires ids != {}
    ensures exists m :: m in ids && forall i :: i in ids ==> i <= m
    decreases ids
  {
    var x :| x in ids;
    if ids != {x} {
      MaxExists(ids - {x});
      var y :| y in ids - {x} && forall i :: i in ids - {x} ==> i <= y;
      var m := if x > y then x else y;
      forall i | i in ids ensures i <= m {
        if i != x {
          assert i in ids - {x};
        }
      }
    }
  }

  predicate Increasing(s: seq<Id>) {
    forall i, j :: 0 <= i < j < |s| ==> s[i] < s[j]
  }

  lemma IncreasingCons(x: Id, s: seq<Id>)
    requires Increasing(s)
    requires forall j :: 0 <= j < |s| ==> x < s[j]
    ensures Increasing([x] + s)
  {
    var r := [x] + s;
    forall i, j | 0 <= i < j < |r| ensures r[i] < r[j] {
      assert r[j] == s[j - 1];
      if i > 0 { assert r[i] == s[i - 1]; }
    }
  }

  /** The head of an increasing list is its least element, and the tail holds the rest. */
  lemma IncreasingTail(s: seq<Id>)
    requires Increasing(s) && s != []
    ensures Increasing(s[1..])
    ensures forall x :: x in s[1..] <==> x in s && s[0] < x
    ensures forall x :: x in s ==> s[0] <= x
  {
    forall x | x in s[1..] ensures x in s && s[0] < x {
      var k :| 0 <= k < |s[1..]| && s[1..][k] == x;
      assert s[k + 1] == x;
    }
    forall x | x in s ensures s[0] <= x && (s[0] < x ==> x in s[1..]) {
      var k :| 0 <= k < |s| && s[k] == x;
      if k > 0 { assert s[1..][k - 1] == x; }
    }
  }

  /** Appending an id above all of an increasing sequence keeps it increasing, with one more member. */
  lemma IncreasingSnoc(s: seq<Id>, x: Id)
    requires Increasing(s)
    requires forall j :: 0 <= j < |s| ==> s[j] < x
    ensures Increasing(s + [x])
    ensures forall l :: l in s + [x] <==> l in s || l == x
  {
    var r := s + [x];
    forall i, j | 0 <= i < j < |r| ensures r[i] < r[j] {
      assert r[i] == s[i];
    }
  }

  /** The ids of a set in ascending order. */
  function SortedIds(ids: set<Id>): (r: seq<Id>)
    ensures Increasing(r)
    ensures forall x :: x in r <==> x in ids
    ensures |r| == |ids|
    decreases ids
  {
    if ids == {} then []
    else
      var m := Max(ids);
      SortedIds(ids - {m}) + [m]
  }

  // ----- Deleting link rows -----

  /** `a` is `b` with some elements left out, the rest in their order. */
  predicate SubsequenceOf<T(==)>(a: seq<T>, b: seq<T>)
    decreases |b|
  {
    if a == [] then true
    else if b == [] then false
    else (a[0] == b[0] && SubsequenceOf(a[1..], b[1..])) || SubsequenceOf(a, b[1..])
  }

  /** A table from which nothing is deleted keeps its rows in their order. */
  lemma {:induction false} SubsequenceOfSelf<T>(s: seq<T>)
    ensures SubsequenceOf(s, s)
    decreases |s|
  {
    if s != [] {
      SubsequenceOfSelf(s[1..]);
    }
  }

  /**
   * deck_langs without the rows of language `l`: `DELETE FROM deck_langs
   * WHERE lang_id = ?`.  Every other row keeps its copies and its place.
   */
  function DropLangLinks(links: seq<DeckLang>, l: int): (r: seq<DeckLang>)
    ensures |r| <= |links|
    ensures forall x :: x in r <==> x in links && x.langId != l
    ensures forall x: DeckLang :: x.langId != l ==> multiset(r)[x] == multiset(links)[x]
    ensures SubsequenceOf(r, links)
  {
    if links == [] then []
    else
      var rest := DropLangLinks(links[1..], l);
      assert forall x :: x in links <==> x == links[0] || x in links[1..];
      assert links == [links[0]] + links[1..];
      if links[0].langId != l then
        assert ([links[0]] + rest)[1..] == rest;
        [links[0]] + rest
      else rest
  }

  /** Dropping a language no row links to leaves the rows as they are. */
  lemma {:induction false} DropLangLinksNone(links: seq<DeckLang>, l: int)
    requires forall x :: x in links ==> x.langId != l
    ensures DropLangLinks(links, l) == links
  {
    if links != [] {
      DropLangLinksNone(links[1..], l);
    }
  }

  /**
   * deck_words without the rows of word `w`: `DELETE FROM deck_words
   * WHERE word_id = ?`.  Every other row keeps its copies and its place.
   */
  function DropWordLinks(links: seq<DeckWord>, w: int): (r: seq<DeckWord>)
    ensures |r| <= |links|
    ensures forall x :: x in r <==> x in links && x.wordId != w
    ensures forall x: DeckWord :: x.wordId != w ==> multiset(r)[x] == multiset(links)[x]
    ensures SubsequenceOf(r, links)
  {
    if links == [] then []
    else
      var rest := DropWordLinks(links[1..], w);
      assert forall x :: x in links <==> x == links[0] || x in links[1..];
      assert links == [links[0]] + links[1..];
      if links[0].wordId != w then
        assert ([links[0]] + rest)[1..] == rest;
        [links[0]] + rest
      else rest
  }

  /**
   * A link table without every copy of one row: `DELETE ... WHERE
   * deck_id = ? AND ..._id = ?`.  Every other row keeps its copies and
   * its place.
   */
  function DropRow<T(==,!new)>(links: seq<T>, row: T): (r: seq<T>)
    ensures |r| <= |links|
    ensures forall x :: x in r <==> x in links && x != row
    ensures forall x :: x != row ==> multiset(r)[x] == multiset(links)[x]
    ensures SubsequenceOf(r, links)
  {
    if links == [] then []
    else
      var rest := DropRow(links[1..], row);
      assert forall x :: x in links <==> x == links[0] || x in links[1..];
      assert links == [links[0]] + links[1..];
      if links[0] != row then
        assert ([links[0]] + rest)[1..] == rest;
        [links[0]] + rest
      else rest
  }

  /** Removing a row the table does not hold leaves it as it is. */
  lemma {:induction false} DropRowNone<T(!new)>(links: seq<T>, row: T)
    requires row !in links
    ensures DropRow(links, row) == links
    decreases |links|
  {
    if links != [] {
      DropRowNone(links[1..], row);
    }
  }

  /** Removing a row that was just appended to a table without it gives the table back. */
  lemma {:induction false} DropRowSnoc<T(!new)>(links: seq<T>, row: T)
    requires row !in links
    ensures DropRow(links + [row], row) == links
    decreases |links|
  {
    if links == [] {
      assert DropRow([row], row) == DropRow([], row);
    } else {
      assert (links + [row])[1..] == links[1..] + [row];
      DropRowSnoc(links[1..], row);
      assert links == [links[0]] + links[1..];
    }
  }

  // ----- New rows keep the store valid -----

  lemma AddLangValid(st: Store, id: Id, v: UserLang)
    requires Valid(st) && id !in st.langs && id != 0 && v.userId in st.users
    ensures Valid(st.(langs := st.langs[id := v]))
  {
  }

  lemma AddDeckValid(st: Store, id: Id, v: Deck)
    requires Valid(st) && id !in st.decks && id != 0 && v.userId in st.users
    ensures Valid(st.(decks := st.decks[id := v]))
  {
  }

  lemma AddWordLinkValid(st: Store, d: Id, w: Id)
    requires Valid(st) && d in st.decks && w in st.words
    ensures Valid(st.(deckWords := st.deckWords + [DeckWord(d, w)]))
  {
  }

  lemma AddLangLinkValid(st: Store, d: Id, l: Id)
    requires Valid(st) && d in st.decks && l in st.langs
    ensures Valid(st.(deckLangs := st.deckLangs + [DeckLang(d, l)]))
  {
  }

  lemma DropWordLinkValid(st: Store, row: DeckWord)
    requires Valid(st)
    ensures Valid(st.(deckWords := DropRow(st.deckWords, row)))
  {
  }

  lemma DropLangLinkValid(st: Store, row: DeckLang)
    requires Valid(st)
    ensures Valid(st.(deckLangs := DropRow(st.deckLangs, row)))
  {
  }

  /** An increasing sequence is determined by its elements. */
  lemma {:induction false} IncreasingUnique(a: seq<Id>, b: seq<Id>)
    requires Increasing(a) && Increasing(b)
    requires forall x :: x in a <==> x in b
    ensures a == b
    decreases |a|
  {
    if a != [] { assert a[0] in b; }
    if b != [] { assert b[0] in a; }
    if a != [] && b != [] {
      IncreasingTail(a);
      IncreasingTail(b);
      assert a[0] == b[0];
      IncreasingUnique(a[1..], b[1..]);
      assert a == [a[0]] + a[1..] && b == [b[0]] + b[1..];
    }
  }

  // ----- Reads shared by several handlers -----

  predicate OwnsLang(st: Store, user: Id, l: Id) {
    l in st.langs && st.langs[l].userId == user
  }

  predicate OwnsDeck(st: Store, user: Id, d: Id) {
    d in st.decks && st.decks[d].userId == user
  }

  /** `SELECT id FROM user_langs WHERE user_id = ?`, in id order. */
  function UserLangIds(st: Store, user: Id): (r: seq<Id>)
    ensures Increasing(r)
    ensures forall l :: l in r <==> OwnsLang(st, user, l)
    ensures forall i :: 0 <= i < |r| ==> OwnsLang(st, user, r[i])
  {
    var r := SortedIds(OwnedLangSet(st, user));
    assert forall i :: 0 <= i < |r| ==> r[i] in r;
    r
  }

  function OwnedLangSet(st: Store, user: Id): (s: set<Id>)
    ensures forall l :: l in s <==> OwnsLang(st, user, l)
  {
    set l | l in st.langs && st.langs[l].userId == user
  }

  /** Adding an id above all of a set appends it to the sorted ids. */
  lemma SortedIdsSnoc(ids: set<Id>, id: Id)
    requires forall i :: i in ids ==> i < id
    ensures SortedIds(ids + {id}) == SortedIds(ids) + [id]
  {
    assert Max(ids + {id}) == id;
    assert (ids + {id}) - {id} == ids;
  }

  /** A language owned after a change is one owned before, or `id`, which is above them all. */
  lemma UserLangIdsSnoc(st1: Store, st2: Store, user: Id, id: Id)
    requires forall l: Id :: OwnsLang(st2, user, l) <==> OwnsLang(st1, user, l) || l == id
    requires forall l: Id :: OwnsLang(st1, user, l) ==> l < id
    ensures UserLangIds(st2, user) == UserLangIds(st1, user) + [id]
  {
    var s1 := OwnedLangSet(st1, user);
    assert OwnedLangSet(st2, user) == s1 + {id};
    SortedIdsSnoc(s1, id);
  }

  /** A translation of `w` exists in one of `user`'s languages. */
  predicate HasUserTranslation(st: Store, user: Id, w: Id) {
    exists l | l in st.langs :: OwnsLang(st, user, l) && TransKey(w, l) in st.translations
  }

  /**
   * `SELECT translation ... WHERE word_id = ? AND lang_id = ?` scanned into
   * a string: the stored text, or the empty string when there is no row.
   */
  function TranslationOrEmpty(st: Store, w: Id, l: Id): (t: Text)
    ensures TransKey(w, l) in st.translations ==> t == st.translations[TransKey(w, l)]
    ensures TransKey(w, l) !in st.translations ==> t == []
  {
    if TransKey(w, l) in st.translations then st.translations[TransKey(w, l)] else []
  }

  /** The title of a language, or the empty title when there is no such row. */
  function LangTitle(st: Store, l: Id): Text {
    if l in st.langs then st.langs[l].title else []
  }

  /** `SELECT word_id FROM deck_words WHERE deck_id = ?`, in row order. */
  function DeckWordIds(st: Store, deck: Id): (r: seq<Id>)
    ensures forall w :: w in r <==> DeckWord(deck, w) in st.deckWords
  {
    WordsLinked(st.deckWords, deck)
  }

  function WordsLinked(links: seq<DeckWord>, deck: Id): (r: seq<Id>)
    ensures |r| <= |links|
    ensures forall w :: w in r <==> DeckWord(deck, w) in links
  {
    if links == [] then []
    else
      var rest := WordsLinked(links[1..], deck);
      assert forall x :: x in links <==> x == links[0] || x in links[1..];
      if links[0].deckId == deck then [links[0].wordId] + rest else rest
  }

  /** `SELECT lang_id FROM deck_langs WHERE deck_id = ?`, in row order (a link added twice appears twice). */
  function DeckLangIds(st: Store, deck: Id): (r: seq<Id>)
    ensures forall l :: l in r <==> DeckLang(deck, l) in st.deckLangs
  {
    LangsLinked(st.deckLangs, deck)
  }

  function LangsLinked(links: seq<DeckLang>, deck: Id): (r: seq<Id>)
    ensures |r| <= |links|
    ensures forall l :: l in r <==> DeckLang(deck, l) in links
  {
    if links == [] then []
    else
      var rest := LangsLinked(links[1..], deck);
      assert forall x :: x in links <==> x == links[0] || x in links[1..];
      if links[0].deckId == deck then [links[0].langId] + rest else rest
  }
}
