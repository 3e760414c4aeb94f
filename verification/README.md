# Langhelper core in Dafny

A model of the core of Langhelper, a Go web application backed by
PostgreSQL for learning vocabulary. A user keeps their own languages, their
words, the translations of each word into those languages, and decks that
group words and languages. A flashcard quiz is assembled from a deck and
then scored. The model covers these parts:

- **Password** (`models/user.go`). The password policy: at least 8 bytes,
  with one upper-case letter, one lower-case letter, one digit and one
  special character. It also covers the `BeforeSave` hook that validates a
  password and then hashes it.
- **Accounts** (`routes/sessionHandlers.go`). Registration with its
  duplicate-name check, login, and the username change form.
- **Words** (`routes/mywordsHandler.go`). The "my words" grid, saving a word
  together with its translations, and deleting a word.
- **Languages** (`routes/langHandler.go`). Adding, listing, renaming and
  deleting a user's languages.
- **Decks** (`routes/mydecksHandler.go`). Creating decks and listing them
  with the titles of their languages.
- **DeckView** and **DeckLinks** (`routes/viewDeckHandler.go`). The deck
  page, and adding or removing the deck's languages and words.
- **Quiz** and **Scoring** (`routes/flashcardsHandler.go`). Quiz assembly:
  the `IN (...)` clause, the correct answer and up to four wrong options per
  language, and the shuffle. Scoring: reading the answers back from the
  submitted form.

Supporting modules:

- **Store**: the database as one immutable value. It holds maps from id to
  row for users, languages and decks. Words are a set of ids. Translations
  are a map keyed by (word, language). The two link tables are sequences of
  rows in insertion order.
- **Text**: `strings.TrimSpace`, `TrimPrefix`, `TrimSuffix`, `Join` and
  `Split` over byte strings.
- **Decimal**: decimal formatting, `strconv.ParseUint`, `strconv.Atoi`, and
  the way PostgreSQL reads a bound id parameter.
- **Http**: `FormValue` and the session gate.
- **Results**: `Option`.

### How the system's behaviour is modelled

- **Row order.** A query without `ORDER BY` returns rows in primary-key
  order, or in link-insertion order for the link tables.
- **New ids.** A new row gets the id one above the largest id in use.
- **Scanning zero rows.** GORM's `Raw(...).Scan` of zero rows leaves its
  target at the zero value and reports no error. The model keeps this, and
  two of the findings below come from it.
- **Randomness.** `ORDER BY RANDOM() LIMIT 4` and `rand.Shuffle` become an
  oracle, `Quiz.Draws`. `Quiz.DrawsValid` states what the database and the
  shuffle guarantee: distinct rows drawn from the allowed set, and a shuffle
  that is a permutation.
- **Go map order.** The order of Go's map iteration over the submitted form
  is a parameter, `keys`. `Scoring.CheckOrderIndependent` shows that this
  order changes only the order of the result rows.
- **bcrypt.** Password hashing and comparison are function parameters.
- **Bound uint64 parameters.** Go's `database/sql` refuses a `uint64`
  argument above 2^63-1, so a query bound to such an id fails. This decides
  the "Deck not found" and "Failed to load main translations" answers of
  the quiz's select_lang step.

## Model

| member | source | states |
|---|---|---|
| Text.Trim | routes/sessionHandlers.go:23-24 | trimming never lengthens the input; the result is empty exactly when the input is all white space; otherwise it neither starts nor ends with white space |
| Text.TrimInfix | routes/sessionHandlers.go:23-24 | the trimmed text is a slice of the input with only white space before and after it; together with Trim's contract this fixes the result |
| Text.TrimIdempotent | routes/sessionHandlers.go:23-24 | trimming an already trimmed value changes nothing |
| Text.TrimPrefix | routes/flashcardsHandler.go:406 | when the prefix is present it is removed once, and putting it back gives the input; otherwise the input is unchanged |
| Text.TrimSuffix | routes/flashcardsHandler.go:406 | the same for a suffix |
| Text.SplitJoin | routes/flashcardsHandler.go:217-224 | splitting a join of separator-free parts on the separator gives the parts back |
| Decimal.Format | routes/flashcardsHandler.go:222 | a number is written as a non-empty string of digits whose value is the number, with no comma and no leading zero: only the single digit 0 starts with 0 |
| Decimal.FormatInjective | routes/flashcardsHandler.go:222 | different numbers are written differently |
| Decimal.ScanUint | routes/flashcardsHandler.go:162-174 | the digit loop succeeds exactly on a digit string whose value is at most 2^64-1, and then yields that value |
| Decimal.ParseId | routes/flashcardsHandler.go:162-174 | an id is accepted exactly when it is a non-empty string of digits with value at most 2^64-1, and then it is that value |
| Decimal.ParseFormat | routes/flashcardsHandler.go:162-174 | parsing the decimal form of any id up to 2^64-1 gives the id back |
| Decimal.Atoi | routes/viewDeckHandler.go:31 | `strconv.Atoi` succeeds exactly when ParseInt does, and returns ParseInt's value, which is 0 on a syntax error and clamped to the int64 bounds on a range error |
| Decimal.AtoiAccepts | routes/viewDeckHandler.go:31 | Atoi accepts exactly an optional sign followed by digits whose value fits in int64 |
| Decimal.AtoiFormat | routes/viewDeckHandler.go:31 | Atoi reads the decimal form of any id up to 2^63-1 back |
| Decimal.AtoiNonNumeric | routes/langHandler.go:109 | a text without digits is refused with value 0 |
| Decimal.SqlId | routes/mywordsHandler.go:150-155 | PostgreSQL reads an id parameter exactly when it is a digit string whose value fits in a bigint, and then it is that value |
| Http.FormValue | routes/mywordsHandler.go:40 | the first value submitted under a key, or empty when the key is absent or has no values |
| Http.SessionGate | routes/mywordsHandler.go:17-27 | a request passes exactly when the session is authenticated and carries a user id; an unauthenticated session is sent to login |
| Password.MatchClass | models/user.go:50-53 | scanning the bytes for one class finds a match exactly when some byte of the password is in that class |
| Password.ValidatePassword | models/user.go:45-60 | a password is too short exactly when it has fewer than 8 bytes; it misses a class exactly when it is long enough but lacks one of the four classes; it is accepted exactly when it is long enough and has all four |
| Password.AllFourClasses | models/user.go:55 | the four tests joined by "and" together cover every class |
| Password.AcceptedExtends | models/user.go:45-60 | adding bytes to an accepted password keeps it accepted |
| Password.MissingOneClass | models/user.go:50-57 | a password of 8 or more bytes without any byte of one class is refused for the missing class |
| Password.BeforeSave | models/user.go:19-31 | an invalid password leaves the user unchanged and reports the validation error; a hash failure leaves the user unchanged; the save goes ahead exactly when the password is valid and the hash succeeds, and then the stored password is the hash |
| Accounts.UserIdByName | routes/sessionHandlers.go:32 | the lookup finds the id of the user with that name, or reports that no user has it |
| Accounts.ScanFindsTakenName | routes/sessionHandlers.go:32-35 | scanning for the name gives a non-zero id exactly when the name is taken, and then it gives that user's row |
| Accounts.CountUsersNamed | routes/sessionHandlers.go:352-365 | the count of users with the name is positive exactly when the name is taken |
| Accounts.Register | routes/sessionHandlers.go:20-65 | registration keeps the store valid, with usernames unique; any error leaves the store unchanged |
| Accounts.RegisterTakenName | routes/sessionHandlers.go:31-35 | once the form passes validation, a taken name is refused with the "username exists" error and nothing is stored |
| Accounts.RegisterSucceedsWhen | routes/sessionHandlers.go:27-60 | registration succeeds exactly when the trimmed fields pass validation, the name is free, the password satisfies the policy, and hashing succeeds |
| Accounts.RegisterAddsUser | routes/sessionHandlers.go:48-60 | a successful registration adds exactly one user under a fresh id, with the trimmed name and the hash of the trimmed password |
| Accounts.Login | routes/sessionHandlers.go:94-156 | missing fields are reported field by field; login succeeds exactly when both fields are present and the password matches the stored hash; the session then records the name and the user's id |
| Accounts.LoginMissingFieldsReadsNothing | routes/sessionHandlers.go:101-112 | when a field is blank the answer depends on neither the store nor the hash comparison |
| Accounts.LoginUnknownUser | routes/sessionHandlers.go:116-132 | an unknown name gives "invalid credentials" whenever the empty hash does not match |
| Accounts.ChangeUsername | routes/sessionHandlers.go:286-393 | the checks run in order: name present, name of 3 to 20 bytes, password present, user found, password matches, name free; the first failure decides the message and leaves the store unchanged; on success only that user's name changes, the session follows, and usernames stay unique |
| Words.Collect | routes/mywordsHandler.go:47-55 | each collected entry belongs to a listed language, and its text is that language's trimmed, non-empty field |
| Words.CollectLangs | routes/mywordsHandler.go:47-55 | a language is collected exactly when it is listed and its trimmed field is non-empty |
| Words.CollectIncreasing | routes/mywordsHandler.go:31-32 | languages listed in id order are collected in id order |
| Words.CollectForUser | routes/mywordsHandler.go:31-55 | exactly the user's own languages with a non-empty field are collected, in id order, each with its trimmed field |
| Words.CollectedNothing | routes/mywordsHandler.go:57-58 | nothing is collected exactly when every one of the user's language fields is blank |
| Words.Upsert | routes/mywordsHandler.go:72-82 | the upsert keeps every translation row on an existing word and language, and does nothing for an unknown word |
| Words.UpsertFirst | routes/mywordsHandler.go:72-82 | one step of the loop: an unchanged text issues nothing, a changed one issues an update, and a missing one issues an insert |
| Words.UpsertEffect | routes/mywordsHandler.go:72-82 | after the upsert each submitted language holds the submitted text, and every other row is unchanged |
| Words.UpsertWritesChange | routes/mywordsHandler.go:73-81 | each write the upsert issues carries a submitted text that differs from the stored one, and is an insert exactly when no row existed |
| Words.UpsertWritesNone | routes/mywordsHandler.go:78-81 | the upsert issues no write exactly when every submitted text is already stored |
| Words.UpsertStores | routes/mywordsHandler.go:72-82 | after the upsert every submitted text is stored |
| Words.UpsertAlreadyStored | routes/mywordsHandler.go:72-82 | when everything submitted is already stored, the upsert leaves the rows unchanged and issues nothing |
| Words.UpsertSettled | routes/mywordsHandler.go:72-82 | repeating an upsert changes nothing and issues nothing |
| Words.UpsertNewWord | routes/mywordsHandler.go:68-70 | for a fresh word the upsert inserts exactly the submitted languages and keeps every older row |
| Words.SaveEntries | routes/mywordsHandler.go:60-83 | saving keeps the store valid and touches only words and translations; an empty word id adds exactly one fresh word, and a given word id adds none |
| Words.SaveWord | routes/mywordsHandler.go:39-88 | a form with every field blank is refused with "at least one translation" and changes nothing; otherwise only words and translations change |
| Words.SaveWordSaves | routes/mywordsHandler.go:57-88 | a form with some non-empty field is saved and redirects |
| Words.SaveNewWord | routes/mywordsHandler.go:60-70 | a new word gets a fresh id and exactly the filled-in translations in the user's languages; older rows are kept, and only inserts are issued |
| Words.SaveExistingWord | routes/mywordsHandler.go:71-83 | editing a word sets every filled-in field, keeps every other row, deletes nothing, and writes only texts that changed |
| Words.SaveExistingWordIdempotent | routes/mywordsHandler.go:71-83 | submitting the same edit form twice changes nothing the second time and issues no write |
| Words.Cells | routes/mywordsHandler.go:104-109 | one cell per language, holding the word's translation in that language or empty |
| Words.UserWords | routes/mywordsHandler.go:97-101 | the user's words are exactly those with a translation in one of the user's languages |
| Words.WordGrid | routes/mywordsHandler.go:97-114 | the grid lists each of the user's words once, in id order, with one cell per language of the user |
| Words.GridCellEmpty | routes/mywordsHandler.go:104-108 | a grid cell is empty exactly when the word has no translation in that column's language |
| Words.RemoveWord | routes/mywordsHandler.go:162-169 | removing a word drops it, its translations and its deck links, and nothing else; every other deck_words row keeps its copies and its order |
| Words.DeleteWord | routes/mywordsHandler.go:131-172 | a delete goes ahead exactly when the id is a valid bigint naming a word with a translation in one of the user's languages; otherwise it is forbidden and changes nothing |
| Words.DeleteWordLeavesNoTrace | routes/mywordsHandler.go:162-169 | after a delete, no translation, deck link or grid row of the word remains |
| Languages.InsertLanguage | routes/langHandler.go:44 | adding a language for an existing user stores exactly one new language under a fresh id, and changes nothing else |
| Languages.ListLanguages | routes/langHandler.go:54-70 | the listing holds only the user's own languages, in id order, with their titles |
| Languages.ListLanguagesComplete | routes/langHandler.go:54-70 | every language of the user is listed |
| Languages.ListAfterInsert | routes/langHandler.go:40-70 | after an add, the listing is the old listing with the new language at the end |
| Languages.LanguagesHandler | routes/langHandler.go:18-78 | the session gate; a language is added exactly when a logged-in user posts a non-empty title; otherwise nothing changes and the listing is shown with the edit id read by Atoi |
| Languages.RetitleLanguage | routes/langHandler.go:92 | a rename changes only that language's title and keeps its owner |
| Languages.EditLanguage | routes/langHandler.go:80-98 | only a POST renames, and it renames the language whose id Atoi reads |
| Languages.RetitleIdempotent | routes/langHandler.go:92 | renaming twice to the same title is the same as renaming once |
| Languages.RetitleKeepsOwners | routes/langHandler.go:92 | a rename never moves a language to another user |
| Languages.RemoveLanguage | routes/langHandler.go:111-114 | deleting a language drops it, every translation into it, and every deck link to it, and nothing else; every other deck_langs row keeps its copies and its order |
| Languages.DeleteLanguage | routes/langHandler.go:100-120 | only a POST deletes, and it deletes the language whose id Atoi reads |
| Languages.RemoveMissingLanguage | routes/langHandler.go:108-114 | deleting an id that names no language changes nothing |
| Languages.DeleteNonNumericId | routes/langHandler.go:108-114 | a non-numeric id is read as 0 and deletes nothing |
| Languages.RemoveLeavesNoTrace | routes/langHandler.go:111-114 | after a delete, no translation into the language and no deck link to it remains |
| Languages.InsertThenRemove | routes/langHandler.go:100-120 | deleting a language that was just added gives the original store back |
| Decks.InsertDeck | routes/mydecksHandler.go:57-65 | creating a deck for an existing user stores exactly one new deck under a fresh id, and changes nothing else |
| Decks.UserDeckIds | routes/mydecksHandler.go:72-76 | the ids of exactly the user's decks, in id order |
| Decks.LangTitles | routes/mydecksHandler.go:84-90 | the titles of the deck's languages, one per link, when every linked language exists |
| Decks.ListDecks | routes/mydecksHandler.go:71-96 | the listing holds only the user's decks, in id order, each with its row and its language titles |
| Decks.ListDecksComplete | routes/mydecksHandler.go:72-96 | every deck of the user is listed |
| Decks.ListedTitles | routes/mydecksHandler.go:84-95 | in a valid store each listed deck has one title for each of its language links |
| Decks.InsertDeckOtherUser | routes/mydecksHandler.go:56-96 | creating a deck does not change another user's listing |
| Decks.DecksHandler | routes/mydecksHandler.go:13-116 | the session gate; a blank trimmed title is refused; a deck is created exactly when a logged-in user posts a non-blank title; a GET lists the user's decks and languages |
| Decks.CreatedDeckListed | routes/mydecksHandler.go:49-96 | a created deck belongs to the user, has the trimmed non-empty title, and appears in the user's listing |
| DeckView.JoinLangs | routes/viewDeckHandler.go:45-52 | the join yields exactly the rows of the linked languages that exist, one per link |
| DeckView.DeckLangRows | routes/viewDeckHandler.go:45-52 | the deck's language rows are exactly the rows of the languages linked to the deck |
| DeckView.DeckLangRowsCount | routes/viewDeckHandler.go:45-52 | in a valid store there is one row per language link, duplicates included |
| DeckView.AvailableLangs | routes/viewDeckHandler.go:59-67 | the languages offered for the deck are the user's own languages that are not linked to it |
| DeckView.AvailableLangsComplete | routes/viewDeckHandler.go:59-67 | every unlinked language of the user is offered |
| DeckView.Pick | routes/viewDeckHandler.go:115-118 | the language chosen for a title has that title and translates the word |
| DeckView.TitleMap | routes/viewDeckHandler.go:107-119 | a word's title-to-translation map has an entry exactly for the titles of the deck languages the word is translated into, each holding such a translation |
| DeckView.TitleMapExact | routes/viewDeckHandler.go:115-118 | when a title is unique among the deck's languages, its entry is the word's translation in that language |
| DeckView.DeckWordGroups | routes/viewDeckHandler.go:87-127 | the deck's words shown are exactly the linked words with a translation in a deck language, each with its title map |
| DeckView.Candidates | routes/viewDeckHandler.go:130-139 | the candidate words are exactly the user's words not yet in the deck |
| DeckView.Matched | routes/viewDeckHandler.go:154-162 | the matched languages of a candidate are exactly the deck languages of the user that translate it |
| DeckView.AvailableWordsAsWritten | routes/viewDeckHandler.go:146-194 | as written, a candidate is offered exactly when its matched count equals the number of deck language link rows |
| DeckView.AvailableWords | routes/viewDeckHandler.go:146-194 | corrected: a candidate is offered exactly when the deck has languages and the word is translated into every one of them, in the user's languages |
| DeckView.AvailableWordsDistinctLinks | routes/viewDeckHandler.go:183-187 | without duplicate language links, the code as written and the corrected definition agree |
| DeckView.DuplicateLinkHidesWords | routes/viewDeckHandler.go:183-187 | a store with a language linked twice to a deck: as written no word is offered, though the corrected definition offers one |
| DeckView.ScanDeck | routes/viewDeckHandler.go:38-42 | the scan gives the deck when the user owns it, and otherwise the zero deck |
| DeckView.ViewDeckAsWritten | routes/viewDeckHandler.go:15-210 | as written, the page is shown for any numeric id; the "deck not found" answer never occurs |
| DeckView.ViewDeck | routes/viewDeckHandler.go:15-210 | corrected: "deck not found" exactly when the user does not own the deck; otherwise the page shows the deck's languages, words, and offered languages and words |
| DeckView.ForeignDeckShown | routes/viewDeckHandler.go:38-42 | as written, another user's deck id shows that deck's languages and words under an empty deck; the corrected handler says "not found" |
| DeckView.ViewDeckAgrees | routes/viewDeckHandler.go:15-210 | for an owned deck and distinct links, the code as written and the corrected handler give the same page |
| DeckLinks.AddLangToDeck | routes/viewDeckHandler.go:228-277 | the session gate, the method check and the two Atoi checks in order; a link is appended exactly when the language belongs to the user and the deck exists; nothing else changes |
| DeckLinks.AddedLangShown | routes/viewDeckHandler.go:275 | after an add the language is linked to the deck and is no longer offered |
| DeckLinks.AddLangTwice | routes/viewDeckHandler.go:275 | posting the same add twice stores the link twice |
| DeckLinks.RemoveLangFromDeck | routes/viewDeckHandler.go:279-300 | with both ids numeric, every copy of that link is removed and nothing else changes; every other link row keeps its copies and its order |
| DeckLinks.RemoveAddedLang | routes/viewDeckHandler.go:297 | removing a language that was just added gives the original store back |
| DeckLinks.AddWordToDeck | routes/viewDeckHandler.go:302-373 | a word is linked exactly when the user owns the deck and translated the word, and it is not linked yet; when it is already linked nothing changes and the answer is the redirect to the deck view page, not an error |
| DeckLinks.AddWordKeepsDistinct | routes/viewDeckHandler.go:352-365 | adding a word never creates a duplicate word link |
| DeckLinks.AddWordIdempotent | routes/viewDeckHandler.go:352-365 | a second identical add changes nothing |
| DeckLinks.RemoveWordFromDeck | routes/viewDeckHandler.go:375-427 | with both ids numeric and the deck owned, the word's link is removed and nothing else changes; every other link row keeps its copies and its order |
| DeckLinks.RemoveAddedWord | routes/viewDeckHandler.go:419 | removing a word that was just added gives the original store back |
| Quiz.InClauseRoundTrip | routes/flashcardsHandler.go:217-224 | the clause is bracketed, holds one comma fewer than there are ids, and its inside splits on commas and parses back to exactly the ids in order |
| Quiz.BuildInClause | routes/flashcardsHandler.go:217-224 | the loop builds exactly the bracketed, comma-joined decimal list of the ids |
| Quiz.MakeTest | routes/flashcardsHandler.go:260-298 | a test carries its language and title, and the correct answer exactly once among 1 + min(4, number of translation rows in the language whose text differs from it) options; every other option is a text of that language |
| Quiz.DrawnOptions | routes/flashcardsHandler.go:267-284 | the shuffled options hold the correct answer once, and up to four wrong texts from the language |
| Quiz.SampledOptions | routes/flashcardsHandler.go:267-284 | any permutation of the correct answer followed by a valid sample has 1 + min(4, number of wrong texts) entries, the correct answer exactly once, and otherwise only texts of the language |
| Quiz.TestsAsWritten | routes/flashcardsHandler.go:254-299 | as written, one test per deck language link other than the main language, in link order, with a missing translation read as an empty correct answer |
| Quiz.Tests | routes/flashcardsHandler.go:254-299 | corrected: one test per non-main linked language that translates the word, in link order, with the stored translation as the correct answer |
| Quiz.MissingTranslationTested | routes/flashcardsHandler.go:260-264 | as written, a deck language the word is not translated into still gets a test whose correct answer is empty; the corrected builder skips it |
| Quiz.TestsAgree | routes/flashcardsHandler.go:254-299 | when the word is translated into every deck language, both builders give the same tests |
| Quiz.WordTests | routes/flashcardsHandler.go:242-304 | the word tests follow the deck's word order: their word ids are the deck's word ids with some left out, the rest in order |
| Quiz.WordTestAt | routes/flashcardsHandler.go:242-304 | each word test is for a deck word that has a main translation and at least one test, and carries that main word and those tests |
| Quiz.WordTestsComplete | routes/flashcardsHandler.go:242-304 | every deck word with a main translation and at least one test is quizzed |
| Quiz.SelectLangWith | routes/flashcardsHandler.go:161-234 | in this order: a deck id that is not a uint64, a main language id that is not a uint64, a deck id above 2^63-1 (the deck query fails), a deck without words, and a main language id above 2^63-1 (the main-translation query fails) are refused; otherwise the page carries the deck, its languages, the main language and the word tests |
| Quiz.SelectLangAsWritten | routes/flashcardsHandler.go:161-331 | as written, every quizzed word is in the deck, and each of its tests is for a deck language other than the main one, with the stored translation or empty as the answer |
| Quiz.SelectLang | routes/flashcardsHandler.go:161-331 | corrected: the same, and every correct answer is a stored translation |
| Quiz.Flashcards | routes/flashcardsHandler.go:28-97 | the session gate; a GET shows the deck chooser; a POST dispatches on the step field, refuses an unknown step, and for select_lang builds the quiz as handleSelectLang writes it, or with the missing-translation fix when `corrected` is set |
| Scoring.MainKeyRoundTrip | routes/flashcardsHandler.go:404-406 | a field named word_<id>_main is recognised as a main key, and the id text is recovered from it |
| Scoring.MainKeyOnly | routes/flashcardsHandler.go:404-406 | a main key at least as long as its prefix and suffix is word_<id>_main for the recovered id text |
| Scoring.OverlappingMainKey | routes/flashcardsHandler.go:404-406 | the field "word_main" passes the prefix and suffix test, with id text "word" |
| Scoring.Grade | routes/flashcardsHandler.go:420-423 | an answer is correct exactly when the chosen text equals the correct one |
| Scoring.LangResults | routes/flashcardsHandler.go:412-431 | one result per other language, named by its title, with the chosen and correct values read from the form and marked correct exactly when they are equal |
| Scoring.MissingAnswersCorrect | routes/flashcardsHandler.go:413-423 | a word whose answer and correct fields are both absent is marked correct in every language |
| Scoring.ScoreAll | routes/flashcardsHandler.go:403-435 | at most one row per form key, each scored from a main key, and every main key scored |
| Scoring.MainKeyOrder | routes/flashcardsHandler.go:403-406 | the main keys in the order the loop visits them: each main key as many times as it is visited, and no other key |
| Scoring.ScoreAllRows | routes/flashcardsHandler.go:403-435 | the rows are the scores of the main keys, one per visit, in visiting order |
| Scoring.ScoreAllInOrder | routes/flashcardsHandler.go:403-435 | row i is the score of the i-th main key visited, and there is no other row |
| Scoring.MainKeysOnce | routes/flashcardsHandler.go:403-406 | visiting each form key once visits each main key of the form exactly once |
| Scoring.ScoreAllPermutation | routes/flashcardsHandler.go:403 | visiting the same keys in another order gives the same rows in another order |
| Scoring.RowsPerMainKey | routes/flashcardsHandler.go:403-435 | there is exactly one row per main key of the form |
| Scoring.JoinOthers | routes/flashcardsHandler.go:378-391 | the other languages are exactly the existing deck languages other than the main one, each with its title |
| Scoring.ColumnsMatchQuiz | routes/flashcardsHandler.go:378-391 | the results columns are exactly the quiz's test languages as written, in the same order, and cover every language the corrected quiz tests |
| Scoring.Check | routes/flashcardsHandler.go:346-463 | the method check, the login check, a bad main language id, then a bad deck id; otherwise the results page has the main language title, the column titles, and row i is the score of the i-th main key visited, each main key of the form visited exactly once |
| Scoring.CheckOrderIndependent | routes/flashcardsHandler.go:403 | the results page is the same for any iteration order of the form, up to the order of its rows |

## Left out

- The Dafny `Store` cannot fail, so every database error branch is absent. That covers `log.Fatalf`, the 500 answers on a failed query, and the `continue` on a failed option or title query.
- Templates, redirect targets, HTTP status codes, cookies and `ParseForm` errors are left out. Outcomes are datatypes that name the answer.
- Password hashing and comparison (bcrypt) are function parameters. So is the `ValidateUser` form validator, which is not part of this model.
- Text.Trim: only ASCII white space is trimmed. `strings.TrimSpace` also trims Unicode white space, and the model works on bytes.
- Decimal.SqlId: a PostgreSQL bigint parameter also accepts a sign and surrounding spaces. The model reads digits only.
- DeckView.DeckWordGroups and DeckView.AvailableWords: routes/viewDeckHandler.go:92 and :151 convert each deck language id to Go's `int` with `int(...)`. A language id above 2^63-1 would wrap to a negative number and match no translation row. The model keeps the id as it is.
- Quiz.Draws: the wrong options and the shuffle are indexed by (word, language), not by each call. Two quizzes built from the same draws see the same randomness.
- DeckView.DeckLangRows and DeckView.AvailableLangs: the source sorts both lists by language title (`ORDER BY l.lang_title`, routes/viewDeckHandler.go:51 and :66). The model gives the deck's languages in link order and the available languages in id order. So DeckView.ViewDeckAsWritten and DeckView.ViewDeck state the same contents in another order.
- The deck list on the flashcards page (`ORDER BY deck_title`, routes/flashcardsHandler.go:47) is left out.
- Column sizes (`size:50`) are left out.
- New ids are one above the largest id in use, not a PostgreSQL sequence.
- The schema does not forbid two translations of one word into one language. The model keys translations by (word, language).
- DeckView.Pick: when two deck languages share a title, the source keeps whichever row the query returns last. The model keeps the highest id.
- DeckView.DeckWordGroups and DeckView.AvailableWords: the page ranges over Go maps, so these are maps, and their display order is not modelled.
- Scoring.ScoreAll: the order of the result rows comes from Go map iteration, which is the `keys` parameter. For a given `keys` the rows are fixed one by one (Scoring.ScoreAllInOrder); across visiting orders they agree only up to permutation.
- Scoring.Check and Scoring.JoinOthers: the check handler names `user_langs` and `deck_langs` without the `langhelpercopy.` schema (routes/flashcardsHandler.go:371 and :382-387). Every other query names that schema. database/db.go:27 sets `search_path TO langhelper`, and only on the one pooled connection that runs it. Which tables those names reach therefore depends on the database's schemas and the connection. The model assumes they are the same `langhelpercopy` tables the rest of the model reads.
- Scoring.Check requires a parsed form, where every key has at least one value, as `url.ParseQuery` guarantees. The Go code would panic on an empty value list.
- The `select_deck` step of the flashcards page (`handleSelectDeck`) is only the `DeckChosen` outcome. That outcome also stands for the step's refusals: a `deck_id` that is not a uint64 ("Invalid deck ID", routes/flashcardsHandler.go:100-105), and a deck id above 2^63-1, whose bound query fails ("Deck not found", routes/flashcardsHandler.go:109-114). Its page lists the deck's languages for the main-language choice, which is display only.
- The home page, logout, the settings GET, the middleware, configuration, routing and the static JavaScript are outside the core.
- The legacy models in `models/userLangs.go` and `models/userWords.go` are outside the core.
- No ownership check exists on editing or deleting a language, or on removing a language from a deck. The model keeps this as written.
- The quiz builds a page for any deck id, without an ownership check. The model keeps this as written.

## Findings

| source | as written | input that shows it | evidently intended | confidence | as-written member | corrected member |
|---|---|---|---|---|---|---|
| routes/flashcardsHandler.go:260-264 | the `LIMIT 1` scan of the correct translation reports no error on zero rows, so a deck language the word is not translated into still gets a test whose correct answer is empty | a deck with languages 1 (main) and 2; word 5 has a translation in language 1 only; the quiz for main language 1 gives word 5 a language-2 test whose correct answer is "" | skip the language, as the `continue` on an error does | not executed; high | Quiz.MissingTranslationTested | Quiz.Tests |
| routes/viewDeckHandler.go:38-42 | the scan of the deck filtered by user reports no error on zero rows, so the "deck not found" branch never fires | user 2 opens `/deck/1` for user 1's deck 1: the page shows an empty deck header, but deck 1's languages and words | answer "deck not found" for a deck the user does not own | not executed; high | DeckView.ForeignDeckShown | DeckView.ViewDeck |
| routes/viewDeckHandler.go:183-187 | a word is offered when its matched-language count equals the number of deck language link rows; a language linked twice counts twice | DeckView.DuplicateExample: deck 1 links language 1 twice; word 1 is translated into it, but no word is offered | compare with the number of distinct deck languages | not executed; medium (the duplicate link needs the add form posted twice, see DeckLinks.AddLangTwice) | DeckView.DuplicateLinkHidesWords | DeckView.AvailableWords |

For each finding, the rest of the model follows the corrected definition.
`Quiz.Flashcards` with `corrected` set builds its quiz with `Quiz.SelectLang`;
without it, it is the handler as written. The corrected deck
page is `DeckView.ViewDeck`, and it offers words through
`DeckView.AvailableWords`.
