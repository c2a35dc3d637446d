/**
 * The vocabulary grading of the server (app.py:41-46, 76-86): a word is
 * graded "B2+" when it is longer than eight characters and its lower-cased
 * form is an English dictionary word, and `advanced_words` collects the
 * alphabetic tokens longer than three characters that are graded "B2+".
 */
module Grading {
  import opened Wrappers
  import opened Text

  const B2Plus: string := "B2+"
  const PlaceholderMeaning: string := "..."

  /** One token of the tokenised article: its text and whether it is purely alphabetic. */
  datatype Token = Token(text: string, isAlpha: bool)

  /** One element of `advanced_words`: `{'word': ..., 'meaning': ...}`. */
  datatype Entry = Entry(word: string, meaning: string)

  /** `get_cefr_level(word)` against the dictionary `english_words`. */
  function GetCefrLevel(word: string, englishWords: set<string>): (level: Option<string>)
    ensures level == Some(B2Plus) <==> |word| > 8 && Lower(word) in englishWords
    ensures level != Some(B2Plus) ==> level == None
  {
    if |word| > 8 && Lower(word) in englishWords then Some(B2Plus) else None
  }

  /** A word of at most eight characters is never graded, whatever the dictionary holds. */
  lemma ShortWordsUngraded(word: string, englishWords: set<string>)
    requires |word| <= 8
    ensures GetCefrLevel(word, englishWords) == None
  {
  }

  /** The test in the loop body of app.py:80-82. */
  predicate IsAdvanced(t: Token, englishWords: set<string>) {
    t.isAlpha && |t.text| > 3 && GetCefrLevel(t.text, englishWords) == Some(B2Plus)
  }

  /** `advanced_words` after the loop has seen `tokens`. */
  function AdvancedWords(tokens: seq<Token>, englishWords: set<string>): seq<Entry>
  {
    if tokens == [] then []
    else
      var last := tokens[|tokens| - 1];
      AdvancedWords(tokens[..|tokens| - 1], englishWords)
        + (if IsAdvanced(last, englishWords) then [Entry(last.text, PlaceholderMeaning)] else [])
  }

  /**
   * Tokens contribute independently and in order: the list for a token stream
   * is the list for its first part followed by the list for the rest, so
   * entries keep token order and repeated words are kept.
   */
  lemma {:induction false} AdvancedWordsAppend(a: seq<Token>, b: seq<Token>, englishWords: set<string>)
    ensures AdvancedWords(a + b, englishWords) == AdvancedWords(a, englishWords) + AdvancedWords(b, englishWords)
    decreases |b|
  {
    if b == [] {
      assert a + b == a;
    } else {
      var b' := b[..|b| - 1];
      assert (a + b)[..|a + b| - 1] == a + b';
      assert (a + b)[|a + b| - 1] == b[|b| - 1];
      AdvancedWordsAppend(a, b', englishWords);
    }
  }

  /**
   * Exactly the qualifying tokens produce entries: every entry comes from an
   * alphabetic, dictionary-listed token longer than eight characters (the
   * `> 3` test is subsumed) and carries the placeholder meaning "...", and every
   * qualifying token produces an entry.
   */
  lemma {:induction false} AdvancedWordsContents(tokens: seq<Token>, englishWords: set<string>)
    ensures forall e :: e in AdvancedWords(tokens, englishWords) ==>
      && |e.word| > 8
      && Lower(e.word) in englishWords
      && e.meaning == PlaceholderMeaning
      && exists i :: 0 <= i < |tokens| && tokens[i].isAlpha && tokens[i].text == e.word
    ensures forall i :: 0 <= i < |tokens| && IsAdvanced(tokens[i], englishWords) ==>
      Entry(tokens[i].text, PlaceholderMeaning) in AdvancedWords(tokens, englishWords)
  {
    if tokens != [] {
      var init := tokens[..|tokens| - 1];
      var last := tokens[|tokens| - 1];
      AdvancedWordsContents(init, englishWords);
      var r := AdvancedWords(tokens, englishWords);
      var extra := if IsAdvanced(last, englishWords) then [Entry(last.text, PlaceholderMeaning)] else [];
      assert r == AdvancedWords(init, englishWords) + extra;
      forall e | e in r
        ensures exists i :: 0 <= i < |tokens| && tokens[i].isAlpha && tokens[i].text == e.word
      {
        if e in AdvancedWords(init, englishWords) {
          var i :| 0 <= i < |init| && init[i].isAlpha && init[i].text == e.word;
          assert tokens[i] == init[i];
        } else {
          assert tokens[|tokens| - 1] == last;
        }
      }
      forall i | 0 <= i < |tokens| && IsAdvanced(tokens[i], englishWords)
        ensures Entry(tokens[i].text, PlaceholderMeaning) in r
      {
        if i < |init| {
          assert tokens[i] == init[i];
        }
      }
    }
  }

  /**
   * The loop of app.py:78-86: walk the tokens, and append an entry for each
   * alphabetic token longer than three characters that is graded "B2+".
   */
  method BuildAdvancedWords(tokens: seq<Token>, englishWords: set<string>) returns (advancedWords: seq<Entry>)
    ensures advancedWords == AdvancedWords(tokens, englishWords)
    ensures forall e :: e in advancedWords ==> |e.word| > 8 && e.meaning == PlaceholderMeaning
  {
    advancedWords := [];
    for i := 0 to |tokens|
      invariant advancedWords == AdvancedWords(tokens[..i], englishWords)
    {
      var token := tokens[i];
      assert tokens[..i + 1][..i] == tokens[..i] && tokens[..i + 1][i] == token;
      if token.isAlpha && |token.text| > 3 {
        var level := GetCefrLevel(token.text, englishWords);
        if level == Some(B2Plus) {
          advancedWords := advancedWords + [Entry(token.text, PlaceholderMeaning)];
        }
      }
    }
    assert tokens[..|tokens|] == tokens;
    AdvancedWordsContents(tokens, englishWords);
  }
}
