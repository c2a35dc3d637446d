/**
 * The request handling of `generate_article` (app.py:52-96): the defaults
 * for a missing category and word count, the conversion of the word count
 * with Python's `int`, the "No news found" error for an empty headline list,
 * and the reply built from the generated article. NewsAPI, Gemini and spaCy
 * are parameters: `topHeadlines`, `generateContent` and `tokenize`.
 */
module Server {
  import opened Wrappers
  import opened Grading
  import opened Text

  // ---------------------------------------------------------------------------
  // Python's int() on a JSON value, and str() on an int

  /** The JSON value of `word_count`: a number, a string, or `null`. */
  datatype WordCountArg = IntArg(n: int) | StrArg(s: string) | NullArg

  predicate IsDigit(c: char) {
    '0' <= c <= '9'
  }

  /** Space, tab, line feed, vertical tab, form feed, carriage return. */
  predicate IsSpace(c: char) {
    c == ' ' || c == '\t' || c == '\n' || c == '\r' || c as int == 11 || c as int == 12
  }

  function TrimStart(s: string): string {
    if s != [] && IsSpace(s[0]) then TrimStart(s[1..]) else s
  }

  function TrimEnd(s: string): string {
    if s != [] && IsSpace(s[|s| - 1]) then TrimEnd(s[..|s| - 1]) else s
  }

  /** Digits, with single underscores allowed between two digits. */
  predicate IsDigitString(s: string) {
    && |s| > 0
    && IsDigit(s[0])
    && forall i :: 0 <= i < |s| ==> IsDigit(s[i]) || (s[i] == '_' && i + 1 < |s| && IsDigit(s[i + 1]))
  }

  function DigitsValue(s: string): nat {
    if s == [] then 0
    else if IsDigit(s[|s| - 1]) then DigitsValue(s[..|s| - 1]) * 10 + (s[|s| - 1] as int - '0' as int)
    else DigitsValue(s[..|s| - 1])
  }

  /**
   * CPython's `sys.int_info.default_max_str_digits`: `int` refuses a decimal
   * string of more digits, and `str` refuses an integer of more digits.
   */
  const MaxStrDigits: nat := 4300

  /** The number of digits in `s`, underscores not counted. */
  function DigitCount(s: string): nat {
    if s == [] then 0
    else DigitCount(s[..|s| - 1]) + (if IsDigit(s[|s| - 1]) then 1 else 0)
  }

  function Magnitude(n: int): nat {
    if n < 0 then -n else n
  }

  /** Accepts a digit string within the limit; `None` is either `ValueError`. */
  function DigitsWithinLimit(s: string): Option<nat> {
    if IsDigitString(s) && DigitCount(s) <= MaxStrDigits then Some(DigitsValue(s)) else None
  }

  /**
   * `int(s)` for a string: surrounding whitespace, an optional sign, then
   * decimal digits, at most `MaxStrDigits` of them; `None` is the `ValueError`.
   * Whatever it reads, `str` can print back.
   */
  function ParseInt(s: string): (r: Option<int>)
    ensures r.Some? ==> |Digits(Magnitude(r.value))| <= MaxStrDigits
  {
    var t := TrimEnd(TrimStart(s));
    var signed := t != [] && (t[0] == '+' || t[0] == '-');
    var body := if signed then t[1..] else t;
    match DigitsWithinLimit(body)
    case None => None
    case Some(magnitude) =>
      DigitsValueFits(body);
      var v: int := magnitude;
      Some(if signed && t[0] == '-' then -v else v)
  }

  /**
   * `int(value)`; `None` is the exception Python raises. An `int` is itself,
   * `None` raises `TypeError`, and a count read from a string can always be
   * printed again by `str`.
   */
  function PyInt(arg: WordCountArg): (r: Option<int>)
    ensures arg.IntArg? ==> r == Some(arg.n)
    ensures arg.NullArg? ==> r == None
    ensures arg.StrArg? && r.Some? ==> PyStrInt(r.value).Some?
  {
    match arg
    case IntArg(n) => Some(n)
    case StrArg(s) => ParseInt(s)
    case NullArg => None
  }

  function DigitChar(d: nat): char
    requires d < 10
  {
    ('0' as int + d) as char
  }

  function Digits(n: nat): (s: string)
    ensures |s| > 0 && forall i :: 0 <= i < |s| ==> IsDigit(s[i])
  {
    if n < 10 then [DigitChar(n)] else Digits(n / 10) + [DigitChar(n % 10)]
  }

  /** The decimal form of `n`, with a minus sign when negative. */
  function DecimalString(n: int): string {
    if n < 0 then "-" + Digits(-n) else Digits(n)
  }

  /** `str(n)`, as an f-string prints an int; `None` is the `ValueError` past `MaxStrDigits` digits. */
  function PyStrInt(n: int): (r: Option<string>)
    ensures r.Some? <==> |Digits(Magnitude(n))| <= MaxStrDigits
    ensures r.Some? ==> r.value == DecimalString(n)
  {
    if |Digits(Magnitude(n))| <= MaxStrDigits then Some(DecimalString(n)) else None
  }

  function Pow10(k: nat): nat {
    if k == 0 then 1 else 10 * Pow10(k - 1)
  }

  /** The value of a digit string is below ten to the number of its digits. */
  lemma {:induction false} DigitsValueBound(s: string)
    ensures DigitsValue(s) < Pow10(DigitCount(s))
    decreases |s|
  {
    if s != [] {
      var p := s[..|s| - 1];
      DigitsValueBound(p);
      if IsDigit(s[|s| - 1]) {
        assert DigitsValue(p) * 10 <= (Pow10(DigitCount(p)) - 1) * 10;
      }
    }
  }

  /** A number below `10^k` has at most `k` digits. */
  lemma {:induction false} DigitsLength(n: nat, k: nat)
    requires k > 0 && n < Pow10(k)
    ensures |Digits(n)| <= k
    decreases k
  {
    if n >= 10 {
      assert k > 1;
      DigitsLength(n / 10, k - 1);
    }
  }

  /** A digit string does not start with `_`, so it holds at least one digit. */
  lemma DigitsValueFits(s: string)
    requires IsDigitString(s) && DigitCount(s) <= MaxStrDigits
    ensures |Digits(DigitsValue(s))| <= MaxStrDigits
  {
    DigitCountPositive(s);
    DigitsValueBound(s);
    DigitsLength(DigitsValue(s), DigitCount(s));
  }

  lemma {:induction false} DigitCountPositive(s: string)
    requires s != [] && IsDigit(s[0])
    ensures DigitCount(s) > 0
    decreases |s|
  {
    if |s| > 1 {
      DigitCountPositive(s[..|s| - 1]);
    }
  }

  /** In a string of digits alone, every character counts. */
  lemma {:induction false} DigitCountAllDigits(s: string)
    requires forall i :: 0 <= i < |s| ==> IsDigit(s[i])
    ensures DigitCount(s) == |s|
    decreases |s|
  {
    if s != [] {
      DigitCountAllDigits(s[..|s| - 1]);
    }
  }

  lemma {:induction false} DigitsValueOfDigits(n: nat)
    ensures DigitsValue(Digits(n)) == n
  {
    if n >= 10 {
      var s := Digits(n);
      assert s[..|s| - 1] == Digits(n / 10);
      DigitsValueOfDigits(n / 10);
    }
  }

  lemma TrimDigits(s: string)
    requires |s| > 0 && !IsSpace(s[0]) && !IsSpace(s[|s| - 1])
    ensures TrimEnd(TrimStart(s)) == s
  {
  }

  /**
   * `int(str(n)) == n`: the decimal form of every integer that `str` can print
   * reads back as that integer, and a longer one is refused.
   */
  lemma ParseDecimalString(n: int)
    ensures |Digits(Magnitude(n))| <= MaxStrDigits ==> ParseInt(DecimalString(n)) == Some(n)
    ensures |Digits(Magnitude(n))| > MaxStrDigits ==> ParseInt(DecimalString(n)) == None
  {
    var m := Magnitude(n);
    var d := Digits(m);
    DigitsValueOfDigits(m);
    DigitCountAllDigits(d);
    if n < 0 {
      ParseSigned('-', d);
      assert DecimalString(n) == ['-'] + d;
    } else {
      ParseUnsigned(d);
    }
  }

  /** A string of digits alone is read by `DigitsWithinLimit`. */
  lemma ParseUnsigned(d: string)
    requires |d| > 0 && forall i :: 0 <= i < |d| ==> IsDigit(d[i])
    ensures ParseInt(d) == if DigitsWithinLimit(d).Some? then Some(DigitsWithinLimit(d).value as int) else None
  {
    TrimDigits(d);
  }

  /** A sign followed by digits alone: the digits are read by `DigitsWithinLimit` and the sign applied. */
  lemma ParseSigned(sign: char, d: string)
    requires sign == '+' || sign == '-'
    requires |d| > 0 && forall i :: 0 <= i < |d| ==> IsDigit(d[i])
    ensures var v: int := if DigitsWithinLimit(d).Some? then DigitsWithinLimit(d).value else 0;
      ParseInt([sign] + d) == if DigitsWithinLimit(d).None? then None else Some(if sign == '-' then -v else v)
  {
    var s := [sign] + d;
    assert s[|s| - 1] == d[|d| - 1];
    TrimDigits(s);
    assert s[1..] == d;
  }

  /** `int` reads surrounding whitespace and a sign. */
  lemma ParseIntPadded()
    ensures ParseInt(" 300\n") == Some(300)
    ensures ParseInt("+07") == Some(7)
  {
    assert TrimEnd(TrimStart(" 300\n")) == "300" by {
      assert TrimStart(" 300\n") == "300\n";
      assert "300\n"[..3] == "300";
    }
    assert DigitsValue("300") == 300 by {
      assert "300"[..2] == "30";
      assert "30"[..1] == "3";
      assert "3"[..0] == "";
    }
    assert DigitsWithinLimit("300") == Some(300) by {
      DigitCountAllDigits("300");
    }
    assert "+07"[1..] == "07";
    assert DigitsValue("07") == 7 by {
      assert "07"[..1] == "0";
      assert "0"[..0] == "";
    }
    assert DigitsWithinLimit("07") == Some(7) by {
      DigitCountAllDigits("07");
    }
  }

  /** `int` reads single underscores between digits. */
  lemma ParseIntUnderscores()
    ensures ParseInt("-1_000") == Some(-1000)
  {
    assert "-1_000"[1..] == "1_000";
    assert DigitsValue("1_000") == 1000 by {
      assert "1_000"[..4] == "1_00";
      assert "1_00"[..3] == "1_0";
      assert "1_0"[..2] == "1_";
      assert "1_"[..1] == "1";
      assert "1"[..0] == "";
    }
    assert DigitCount("1_000") == 4;
  }

  /** `int` rejects blanks, words and misplaced underscores. */
  lemma ParseIntRejects()
    ensures ParseInt("") == None && ParseInt("  ") == None
    ensures ParseInt("three") == None
    ensures ParseInt("1__0") == None && ParseInt("_1") == None
  {
    assert TrimStart("  ") == [] by {
      assert "  "[1..] == " ";
      assert " "[1..] == "";
    }
    assert !IsDigitString("1__0") by {
      assert "1__0"[1] == '_' && "1__0"[2] == '_';
    }
  }

  /**
   * `int` refuses more than `MaxStrDigits` digits even when they are all
   * zeros, so the refusal is about the length of the text, not the value.
   */
  lemma ParseIntTooLong(k: nat)
    requires k > MaxStrDigits
    ensures ParseInt(seq(k, i => '0')) == None
  {
    var s: string := seq(k, i => '0');
    DigitCountAllDigits(s);
    TrimDigits(s);
  }

  // ---------------------------------------------------------------------------
  // The handler

  /** The fields of `request.json` that the handler reads; `None` is an absent key. */
  datatype Request = Request(category: Option<string>, wordCount: Option<WordCountArg>)

  /** One article of the NewsAPI top headlines; `None` is a JSON `null`. */
  datatype NewsItem = NewsItem(title: Option<string>, description: Option<string>)

  /** The handler's outcome: the JSON reply, the 404 error, or an uncaught exception. */
  datatype Reply =
    | Generated(article: string, translation: string, advancedWords: seq<Entry>)
    | NotFound(error: string)
    | ServerError

  function Status(reply: Reply): int {
    match reply
    case Generated(_, _, _) => 200
    case NotFound(_) => 404
    case ServerError => 500
  }

  /** `data.get('category', 'technology')` */
  function RequestCategory(req: Request): (category: string)
    ensures req.category.None? ==> category == "technology"
    ensures req.category.Some? ==> category == req.category.value
  {
    req.category.GetOr("technology")
  }

  /** `int(data.get('word_count', 300))`; `None` when `int` raises. */
  function RequestWordCount(req: Request): (wordCount: Option<int>)
    ensures req.wordCount.None? ==> wordCount == Some(300)
    ensures req.wordCount.Some? ==> wordCount == PyInt(req.wordCount.value)
  {
    match req.wordCount
    case None => Some(300)
    case Some(arg) => PyInt(arg)
  }

  /** Python's `str` on an optional string. */
  function PyStr(v: Option<string>): string {
    v.GetOr("None")
  }

  /** The f-string prompt of app.py:66-71, given the printed word count. It quotes the headline and states the count. */
  function NewsPrompt(latest: NewsItem, count: string): (prompt: string)
    ensures Contains(prompt, PyStr(latest.title))
    ensures Contains(prompt, PyStr(latest.description))
    ensures Contains(prompt, count)
  {
    var title, description := PyStr(latest.title), PyStr(latest.description);
    var head := "\n    Based on this news: \"";
    var middle := "\"\n" + "    Write a TOEIC preparation article in ";
    var tail := " words.\n"
      + "    Include advanced vocabulary suitable for TOEIC.\n"
      + "    Focus on business and professional context.\n    ";
    QuotesThree(head, title, " - ", description, middle, count, tail);
    head + title + " - " + description + middle + count + tail
  }

  /** Each of `x`, `y` and `z` occurs in a string built of them and of fixed text around them. */
  lemma QuotesThree(a: string, x: string, b: string, y: string, c: string, z: string, d: string)
    ensures Contains(a + x + b + y + c + z + d, x)
    ensures Contains(a + x + b + y + c + z + d, y)
    ensures Contains(a + x + b + y + c + z + d, z)
  {
    var p := a + x + b + y + c + z + d;
    assert p == a + x + (b + y + c + z + d);
    assert p == a + x + b + y + (c + z + d);
    ContainsMiddle(a, x, b + y + c + z + d);
    ContainsMiddle(a + x + b, y, c + z + d);
    ContainsMiddle(a + x + b + y + c, z, d);
  }

  /** The translation prompt of app.py:89: a fixed request followed by the whole article. */
  function TranslationPrompt(articleText: string): (prompt: string)
    ensures |prompt| >= |articleText| && prompt[|prompt| - |articleText|..] == articleText
  {
    "Translate this English text to natural Japanese: " + articleText
  }

  /**
   * `generate_article`: a word count that `int` rejects is an uncaught
   * exception (status 500) before any headline is fetched; an empty headline
   * list is the 404 reply "No news found" with no article; a word count that
   * `str` cannot print fails (status 500) when the prompt is built; otherwise
   * the article generated from the first headline, its translation, and the
   * advanced words of its tokens.
   */
  method GenerateArticle(
    req: Request,
    topHeadlines: string -> seq<NewsItem>,
    generateContent: string -> string,
    tokenize: string -> seq<Token>,
    englishWords: set<string>)
    returns (reply: Reply)
    ensures reply == ServerError <==>
      || RequestWordCount(req).None?
      || (topHeadlines(RequestCategory(req)) != [] && PyStrInt(RequestWordCount(req).value).None?)
    ensures req.wordCount.None? || req.wordCount.value.StrArg? ==>
      (reply == ServerError <==> RequestWordCount(req).None?)
    ensures reply.NotFound? <==>
      RequestWordCount(req).Some? && topHeadlines(RequestCategory(req)) == []
    ensures reply.NotFound? ==> reply.error == "No news found" && Status(reply) == 404
    ensures reply.Generated? ==>
      && RequestWordCount(req).Some?
      && topHeadlines(RequestCategory(req)) != []
      && reply.article == generateContent(NewsPrompt(topHeadlines(RequestCategory(req))[0], DecimalString(RequestWordCount(req).value)))
      && reply.translation == generateContent(TranslationPrompt(reply.article))
      && reply.advancedWords == AdvancedWords(tokenize(reply.article), englishWords)
  {
    var category := RequestCategory(req);
    var wordCount := RequestWordCount(req);
    if wordCount.None? {
      return ServerError;
    }
    var news := topHeadlines(category);
    if news == [] {
      return NotFound("No news found");
    }
    var latestNews := news[0];
    var countText := PyStrInt(wordCount.value);
    if countText.None? {
      return ServerError;
    }
    var articleText := generateContent(NewsPrompt(latestNews, countText.value));
    var advancedWords := BuildAdvancedWords(tokenize(articleText), englishWords);
    var translation := generateContent(TranslationPrompt(articleText));
    reply := Generated(articleText, translation, advancedWords);
  }
}
