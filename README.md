# TOEIC reading assistant — a Dafny model of its core logic

The application is a Flask server (`app.py`) and a browser script
(`static/js/main.js`). The server fetches the latest news headline for a
category. It asks a language model to write a TOEIC practice article of a
requested length, translates the article into Japanese, and grades its words,
listing the "advanced" ones. The browser shows the article, its translation and
a vocabulary list. Clicking a vocabulary word highlights that word in the
article. The button that saves a word picks the first sentence of the
article that mentions it, but the request that would store it is never sent
(see "## Left out"). Two side panels can be hidden, and the main column's margins
follow them.

This project models the pieces of that logic that are not DOM or network
wiring. Each piece gets a Dafny definition and proofs of what it guarantees.

- `wrappers.dfy`, module `Wrappers`: the `Option` type. It stands for
  JavaScript's `undefined` and `null`, and for Python's `None` and raised
  exceptions.
- `text.dfy`, module `Text`: ASCII lower-casing and substring search. These
  model `toLowerCase`, `lower()` and `includes`.
- `vocabulary.dfy`, module `Vocabulary`: the de-duplication
  `[...new Set(data.vocabulary)]`.
- `sentences.dfy`, module `Sentences`: `findExampleSentence`. The text is split
  into the matches of `/[^.!?]+[.!?]+/g`, and the first match that mentions the
  word is chosen.
- `highlight.dfy`, module `Highlight`: `clearHighlights` and `highlightText`
  as string rewrites, plus a class `ArticleView` for the article element whose
  HTML they update in place.
- `sidebar.dfy`, module `Sidebar`: the class `SidebarState` (`sidebarState`)
  with its two toggle handlers, and the margins `updateMainContentMargin`
  derives from it.
- `session.dfy`, module `Session`: the class `ReadingSession`. Its method
  models how the generate handler replaces `currentArticle` and the displayed
  word list.
- `grading.dfy`, module `Grading`: `get_cefr_level` and the loop that builds
  `advanced_words`.
- `server.dfy`, module `Server`: `generate_article`. It covers the defaults,
  the conversion of `word_count` by Python's `int`, the "No news found" reply,
  the prompts, and the reply assembled from the generated text. The news
  service, the language model and the tokenizer are function parameters.

Integers are unbounded, as in Python, but Python's decimal conversions are
not: `int` on a string and `str` on an int refuse more than 4300 digits
(`sys.int_info.default_max_str_digits`, in CPython 3.11 and later and in the
3.7.14, 3.8.14, 3.9.14 and 3.10.7 security releases). `Server.MaxStrDigits`
models that limit on both conversions. The JavaScript code performs no
arithmetic that could overflow.

## Model

| member | source | states |
|---|---|---|
| Vocabulary.UniqueWords | static/js/main.js:104 | The de-duplicated list has exactly the elements of the input, holds each once, and is no longer than the input |
| Vocabulary.UniqueWordsFirstOccurrenceOrder | static/js/main.js:104 | Each distinct word appears exactly once, and the words are ordered by the position of their first occurrence in the input |
| Vocabulary.DisplayedWords | static/js/main.js:101-104 | The word list is empty when the response has no `vocabulary` field; otherwise it has the same elements as the vocabulary, each once, in the order of their first occurrence |
| Vocabulary.CatCatSat | static/js/main.js:104 | `["cat","cat","sat"]` is displayed as `["cat","sat"]` |
| Sentences.Sentences | static/js/main.js:216 | The matches of `text.match(/[^.!?]+[.!?]+/g)`, none when nothing matches, found by a left-to-right scan; what it returns is stated by `Sentences.SentencesAreMatches` and `Sentences.SentencesCoverText` |
| Sentences.SentencesAreMatches | static/js/main.js:216 | Every sentence found is one regex match: a run of non-terminators followed by a maximal run of `.`, `!` or `?` |
| Sentences.SentencesCoverText | static/js/main.js:216 | Leading terminators aside, the text is the sentences laid end to end, followed by a trailing run without terminators that is never part of a sentence |
| Sentences.FindIndex | static/js/main.js:217-219 | `find` as an index: no sentence before it mentions the word, the sentence at it does, and it is the length of the list when none does |
| Sentences.FindExampleSentence | static/js/main.js:215-220 | The result is `''` exactly when no sentence mentions the word (lower-cased on both sides). Otherwise it is the first sentence that does, and it ends with a terminator, so trailing unterminated text is never returned |
| Highlight.Clear | static/js/main.js:222-224 | Removing the markers never lengthens the HTML |
| Highlight.ClearUnmarked | static/js/main.js:222-224 | HTML that contains neither marker is left unchanged |
| Highlight.ClearSkipsOpen | static/js/main.js:223 | An opening marker at the front is removed whatever follows it |
| Highlight.ClearSkipsClose | static/js/main.js:223 | A closing `</span>` at the front is removed whatever follows it |
| Highlight.ClearNotIdempotentInGeneral | static/js/main.js:223 | A single regex pass is not idempotent on arbitrary HTML: `</</span>span>` clears to `</span>`, which clears to `''` |
| Highlight.Tokenize | static/js/main.js:228-229 | The matches of the global, case-insensitive regular expression built from the word, met left to right, and the characters between them; stated by `Highlight.TokenizeKeepsText` and `Highlight.TokenizeWrapsMatches` |
| Highlight.Render | static/js/main.js:229 | The replacement string applied to each match, characters between matches copied; `Highlight.ClearRendered` states that clearing gives back the text |
| Highlight.HighlightText | static/js/main.js:226-230 | The new HTML of `highlightText`; `Highlight.HighlightThenClear` states that clearing it gives back the marker-free text it was made from |
| Highlight.TokenizeKeepsText | static/js/main.js:228-229 | The pieces the global replace produces spell out the original text, so every wrapped occurrence keeps its original letter case |
| Highlight.TokenizeWrapsMatches | static/js/main.js:228-229 | Scanning left to right, a wrapped piece is a case-insensitive occurrence of the word found where the scan stands, and a copied character is one where no occurrence starts, so for a non-empty word the non-overlapping occurrences are wrapped and nothing else is. The empty word gives twice as many pieces as the text has characters, plus one: an empty wrapper before every character (a Unicode scalar value) and one at the end |
| Highlight.ClearRendered | static/js/main.js:222-230 | Clearing the HTML of any run of copied characters and wrapped pieces, whose underlying text holds no marker, gives back exactly that text |
| Highlight.HighlightThenClear | static/js/main.js:222-230 | For a literal word and marker-free text, clearing the highlighted text gives back the text, and clearing it a second time changes nothing |
| Highlight.ArticleView.constructor | static/js/main.js:82 | The element starts out holding the article as written, with no word highlighted |
| Highlight.ArticleView.ClearHighlights | static/js/main.js:222-224 | The HTML becomes the cleared HTML, which is the original article whatever word was highlighted |
| Highlight.ArticleView.HighlightWord | static/js/main.js:226-230 | The HTML becomes the highlighted HTML, and the view records that word |
| Highlight.ArticleView.SelectWord | static/js/main.js:125-129 | After a click, the HTML is the original article with exactly the clicked word highlighted, whatever was highlighted before |
| Sidebar.Margin | static/js/main.js:43-44 | The margin of one side; `Sidebar.MarginShowsVisibility` states which value means which |
| Sidebar.SidebarState.MarginLeft | static/js/main.js:43 | `mainContent.style.marginLeft`, read from the left flag |
| Sidebar.SidebarState.MarginRight | static/js/main.js:44 | `mainContent.style.marginRight`, read from the right flag |
| Sidebar.MarginShowsVisibility | static/js/main.js:42-45 | A margin is "320px" exactly when its panel is shown and "20px" exactly when it is hidden, so two margins are equal exactly when the two flags are |
| Sidebar.SidebarState.constructor | static/js/main.js:12-15 | Both panels start shown, and both margins are "320px" |
| Sidebar.SidebarState.ToggleLeft | static/js/main.js:30-34 | The left flag is flipped and the right flag is unchanged; only the left margin moves |
| Sidebar.SidebarState.ToggleRight | static/js/main.js:36-40 | The right flag is flipped and the left flag is unchanged; only the right margin moves |
| Sidebar.ToggleLeftTwice | static/js/main.js:30-34 | Two clicks on the left toggle restore both flags and both margins |
| Sidebar.ToggleRightTwice | static/js/main.js:36-40 | Two clicks on the right toggle restore both flags and both margins |
| Session.ReadingSession.constructor | static/js/main.js:11 | No current article and an empty word list at start |
| Session.ReadingSession.OnGenerate | static/js/main.js:64-75 | A failed request or a truthy `error` leaves the article and the word list untouched. Otherwise the article is replaced: its title defaults to "Generated Article", it holds the content and translation of the reply, its category is the one requested, and the word list is the de-duplicated vocabulary |
| Grading.GetCefrLevel | app.py:41-46 | "B2+" is returned exactly when the word is longer than 8 characters and its lower-cased form is in the dictionary; `None` is returned otherwise |
| Grading.ShortWordsUngraded | app.py:44 | A word of at most 8 characters is graded `None` whatever the dictionary holds |
| Grading.AdvancedWordsAppend | app.py:79-86 | The list for a concatenation of token streams is the list of the first stream followed by that of the second, so entries keep token order and duplicates |
| Grading.AdvancedWordsContents | app.py:78-86 | Every entry comes from an alphabetic token longer than 8 characters whose lower-cased form is in the dictionary, and its meaning is "..."; every alphabetic token longer than 3 characters that is graded "B2+" has its entry |
| Grading.BuildAdvancedWords | app.py:78-86 | The loop computes exactly the list specified by `AdvancedWords`, and every entry's word is longer than 8 characters with meaning "..." |
| Server.RequestCategory | app.py:55 | A missing category is "technology"; a present one is used as given |
| Server.RequestWordCount | app.py:56 | A missing word count is 300; a present one is whatever `int` makes of it, or a failure |
| Server.ParseInt | app.py:56 | `int` on a string: whitespace, an optional sign and at most 4300 digits, or `ValueError`; whatever it reads has at most 4300 digits, so `str` can print it |
| Server.PyInt | app.py:56 | `int` is the identity on an int and raises on `None`; a count read from a string can always be printed back |
| Server.PyStrInt | app.py:66-71 | `str` of an int prints its decimal form exactly when it has at most 4300 digits, and raises `ValueError` otherwise |
| Server.ParseDecimalString | app.py:56 | `int` reads back every integer that `str` can print from its decimal form, and refuses the decimal form of a longer one |
| Server.ParseIntTooLong | app.py:56 | `int` refuses any string of more than 4300 digits, even one of zeros alone |
| Server.ParseIntPadded | app.py:56 | `int` accepts surrounding whitespace and an explicit sign: " 300\n" is 300 and "+07" is 7 |
| Server.ParseIntUnderscores | app.py:56 | `int` accepts single underscores between digits: "-1_000" is -1000 |
| Server.ParseIntRejects | app.py:56 | `int` rejects the empty string, blanks, words, and doubled or leading underscores |
| Server.NewsPrompt | app.py:66-71 | The article prompt quotes the headline's title and description and states the printed word count |
| Server.TranslationPrompt | app.py:89 | The translation prompt ends with the whole article text |
| Server.GenerateArticle | app.py:52-96 | A word count that `int` rejects fails with status 500, before any headline is fetched. An empty headline list gives exactly the 404 reply "No news found" with no article. A word count that `str` cannot print fails with status 500 once headlines exist, which never happens for a missing or string count. Otherwise the reply holds the text generated from the first headline's prompt at that word count, its Japanese translation, and exactly the advanced words of its tokens |

## Left out

- HTTP and asynchronous wiring: every `fetch`, the `/translate` calls, and the awaited handlers. `Session.ReadingSession.OnGenerate` is one completed request; concurrent requests and their interleaving are not modelled.
- DOM and display: `innerHTML` templates, toasts, Bootstrap, the context menu and date formatting.
- `Highlight.ArticleView`: `innerHTML` is a plain string here. A browser parses every assignment and serializes on every read: `&` becomes `&amp;`, `<` and `>` in text become `&lt;` and `&gt;`, U+00A0 becomes `&nbsp;`, and CR becomes LF. For an article that holds any of these characters, the constructor's `html == content` and the round trip of `ClearHighlights` and `SelectWord` are not promised. For example, selecting "amp" in "R&D" and then another word leaves "R&amp;amp;D" in the element.
- The save functions after static/js/main.js:236. `saveCurrentArticle` (static/js/main.js:239-262) and `saveVocabulary` (static/js/main.js:311-333) read `currentArticle`, which is declared inside the `DOMContentLoaded` closure (static/js/main.js:11). Both throw a ReferenceError before any request is sent, so nothing is ever saved. The click handler that `loadSavedVocabulary` gives each saved word (static/js/main.js:356-362) calls `clearHighlights` and `highlightText`, which are declared in the same closure, so it throws the same way whenever an article is shown.
- The load functions `loadSavedArticles` (static/js/main.js:264-308) and `loadSavedVocabulary` (static/js/main.js:336-368) work, but they are fetch-and-DOM code, left out with the rest of the HTTP wiring. `loadSavedGrammarNotes` (static/js/main.js:235) is called but defined nowhere, so it throws a ReferenceError that ends the setup handler after the two loads have started.
- `Highlight.HighlightText`: only words without regular-expression metacharacters are modelled, as the precondition `IsLiteral`. Other words build a different regular expression, or a syntax error.
- `Highlight.Clear`: "the result holds no marker" and "clearing twice equals clearing once" are proved only for the HTML that highlighting marker-free text produces (`Highlight.HighlightThenClear`), not for all strings. A single global replace can create a marker by splicing, as `Highlight.ClearNotIdempotentInGeneral` shows.
- `Highlight.ArticleView.constructor`: it requires an article that contains neither marker. An article whose own HTML already holds `<span class="highlight-text">` or `</span>` is not modelled.
- Unicode: lower-casing is ASCII only, on both sides. Case-insensitive regex matching is modelled as ASCII lower-case comparison. `int` accepts only ASCII digits and ASCII whitespace; Python also accepts other Unicode digits and spaces.
- `Highlight.Tokenize`, `Highlight.HighlightText`, `Highlight.TokenizeWrapsMatches`: a model string is a sequence of Unicode scalar values, but a JavaScript string is a sequence of UTF-16 code units. The regular expression of static/js/main.js:228 has no `u` flag, so after an empty match `replace` moves on by one code unit. For the empty word, the browser therefore puts one more empty wrapper inside every character outside the Basic Multilingual Plane, between its two surrogates. The model does not, and the empty-word piece count is per scalar value. For non-empty literal words the two agree, and clearing the highlights gives back the text either way.
- External services: NewsAPI, Gemini, spaCy and the NLTK word list are parameters of `Server.GenerateArticle` (`topHeadlines`, `generateContent`, `tokenize`, `englishWords`). Their failures, the model's nondeterminism, and the `language` and `page_size` arguments are not modelled. The environment loading and the Flask routing are not modelled either.
- `Server.RequestWordCount`: JSON booleans and floats (which `int` accepts) are not modelled; only numbers, strings and `null` are. A request body that is not a JSON object, and a `category` given as `null`, are also left out. A JSON number of more than 4300 digits is refused by the JSON decoder when the handler reads `request.json` (app.py:54), and Flask answers with status 400; `IntArg` takes every number as already decoded. Python versions without the digit limit accept every length.
- The client and the server are modelled independently. The client reads `data.vocabulary` and `data.title`, but the server sends `advanced_words` and no title, so on the real system the word list is always empty and the title always defaults.
- The initial margins come from a stylesheet that is not part of this model. `Sidebar.SidebarState.constructor` gives the margins `updateMainContentMargin` would compute from the initial flags.
- `Highlight.ArticleView`, `Sidebar.SidebarState` and `Session.ReadingSession` are single objects; aliasing between DOM elements is not modelled.
