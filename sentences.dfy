/**
 * `findExampleSentence` (static/js/main.js:215-220): the text is cut into the
 * matches of the global regular expression `/[^.!?]+[.!?]+/g`, and the first
 * match whose lower-cased form contains the lower-cased word is returned, or
 * the empty string when there is none.
 */
module Sentences {
  import opened Text

  predicate IsTerminator(c: char) {
    c == '.' || c == '!' || c == '?'
  }

  predicate NoTerminator(s: string) {
    forall i :: 0 <= i < |s| ==> !IsTerminator(s[i])
  }

  /** Length of the longest prefix of `s` made of terminators (when `terminators` holds) or of non-terminators (when it does not). */
  function RunLength(s: string, terminators: bool): (n: nat)
    ensures n <= |s|
    ensures forall i :: 0 <= i < n ==> IsTerminator(s[i]) == terminators
    ensures n < |s| ==> IsTerminator(s[n]) != terminators
  {
    if s == [] || IsTerminator(s[0]) != terminators then 0
    else 1 + RunLength(s[1..], terminators)
  }

  /** One regular-expression match: a non-empty run of non-terminators, then a non-empty maximal run of terminators. */
  predicate IsSentence(x: string) {
    var n := RunLength(x, false);
    0 < n < |x| && RunLength(x[n..], true) == |x| - n
  }

  /**
   * The matches of `/[^.!?]+[.!?]+/g`, left to right. At a terminator no match
   * can start and the scan moves on by one character; a run of non-terminators
   * that reaches the end of the text has no terminator after it, so no later
   * position can start a match either.
   */
  function Sentences(text: string): seq<string>
    decreases |text|
  {
    if text == [] then []
    else if IsTerminator(text[0]) then Sentences(text[1..])
    else
      if RunLength(text, false) == |text| then []
      else [text[..MatchEnd(text)]] + Sentences(text[MatchEnd(text)..])
  }

  /** End of the match that starts at the front of `text`: its non-terminators, then its terminators. */
  function MatchEnd(text: string): (m: nat)
    requires RunLength(text, false) < |text|
    ensures RunLength(text, false) < m <= |text|
  {
    var n := RunLength(text, false);
    n + RunLength(text[n..], true)
  }

  function Concat(ss: seq<string>): string {
    if ss == [] then [] else ss[0] + Concat(ss[1..])
  }

  /** Every element of `Sentences(text)` has the shape of one match. */
  lemma {:induction false} SentencesAreMatches(text: string)
    ensures forall k :: 0 <= k < |Sentences(text)| ==> IsSentence(Sentences(text)[k])
    decreases |text|
  {
    if text != [] && IsTerminator(text[0]) {
      SentencesAreMatches(text[1..]);
    } else if text != [] && RunLength(text, false) < |text| {
      var m := MatchEnd(text);
      var rest := text[m..];
      SentencesAreMatches(rest);
      MatchIsSentence(text);
      var ss := Sentences(text);
      assert ss == [text[..m]] + Sentences(rest);
      forall k | 0 <= k < |ss| ensures IsSentence(ss[k]) {
        if k > 0 {
          assert ss[k] == Sentences(rest)[k - 1];
        }
      }
    }
  }

  /** The text up to `MatchEnd` is one match. */
  lemma MatchIsSentence(text: string)
    requires text != [] && !IsTerminator(text[0]) && RunLength(text, false) < |text|
    ensures IsSentence(text[..MatchEnd(text)])
  {
    var n := RunLength(text, false);
    var m := MatchEnd(text);
    assert 0 < n < m;
    RunLengthPrefix(text, m, false);
    MatchTail(text, n, m);
  }

  /** The terminators that end a match are all of the match after its first `n` characters. */
  lemma MatchTail(text: string, n: nat, m: nat)
    requires n <= m <= |text| && RunLength(text[n..], true) == m - n
    ensures RunLength(text[..m][n..], true) == m - n
  {
    assert text[..m][n..] == text[n..][..m - n];
    RunLengthPrefix(text[n..], m - n, true);
  }

  /** `text` is `lead` characters, then `body`, then a tail without a terminator. */
  predicate Covers(text: string, lead: nat, body: string) {
    && lead + |body| <= |text|
    && text[lead..lead + |body|] == body
    && NoTerminator(text[lead + |body|..])
  }

  /**
   * The text is a run of leading terminators, then the sentences one after the
   * other, then a tail without any terminator. Together with
   * `SentencesAreMatches` this says that the sentences are exactly the maximal
   * non-terminator-then-terminator runs, and that unterminated trailing text is
   * never taken as a sentence.
   */
  lemma {:induction false} SentencesCoverText(text: string)
    ensures Covers(text, RunLength(text, true), Concat(Sentences(text)))
    decreases |text|
  {
    if text == [] {
    } else if IsTerminator(text[0]) {
      SentencesCoverText(text[1..]);
      assert Sentences(text) == Sentences(text[1..]);
      CoversShift(text, RunLength(text[1..], true), Concat(Sentences(text[1..])));
    } else {
      var n := RunLength(text, false);
      if n == |text| {
        assert Sentences(text) == [];
        assert text[0..0] == [];
      } else {
        var m := MatchEnd(text);
        SentencesCoverText(text[m..]);
        assert RunLength(text[m..], true) == 0;
        var body := Concat(Sentences(text[m..]));
        assert Concat([text[..m]] + Sentences(text[m..])) == text[..m] + body by {
          assert ([text[..m]] + Sentences(text[m..]))[1..] == Sentences(text[m..]);
        }
        CoversPrepend(text, m, body);
      }
    }
  }

  lemma CoversShift(text: string, lead: nat, body: string)
    requires text != [] && Covers(text[1..], lead, body)
    ensures Covers(text, lead + 1, body)
  {
    assert text[1..][lead..lead + |body|] == text[lead + 1..lead + 1 + |body|];
    assert text[1..][lead + |body|..] == text[lead + 1 + |body|..];
  }

  lemma CoversPrepend(text: string, m: nat, body: string)
    requires m <= |text| && Covers(text[m..], 0, body)
    ensures Covers(text, 0, text[..m] + body)
  {
    assert text[m..][0..|body|] == text[m..m + |body|];
    assert text[0..m + |body|] == text[..m] + text[m..m + |body|];
    assert text[m..][|body|..] == text[m + |body|..];
  }

  /** A maximal run that ends no later than position `m` is also the maximal run of `s[..m]`. */
  lemma {:induction false} RunLengthPrefix(s: string, m: nat, terminators: bool)
    requires RunLength(s, terminators) <= m <= |s|
    ensures RunLength(s[..m], terminators) == RunLength(s, terminators)
  {
    if m > 0 && IsTerminator(s[0]) == terminators {
      assert s[..m][1..] == s[1..][..m - 1];
      RunLengthPrefix(s[1..], m - 1, terminators);
    }
  }

  /** `sentence.toLowerCase().includes(word.toLowerCase())` */
  predicate Mentions(sentence: string, word: string) {
    Contains(Lower(sentence), Lower(word))
  }

  /** `Array.prototype.find` as an index: the first sentence that mentions the word, or `|ss|`. */
  function FindIndex(ss: seq<string>, word: string): (k: nat)
    ensures k <= |ss|
    ensures forall j :: 0 <= j < k ==> !Mentions(ss[j], word)
    ensures k < |ss| ==> Mentions(ss[k], word)
  {
    if ss == [] then 0
    else if Mentions(ss[0], word) then 0
    else 1 + FindIndex(ss[1..], word)
  }

  /**
   * `findExampleSentence(word, text)`: the first sentence of `text` that
   * mentions `word`, case-insensitively, or `''` when no sentence does. A result
   * is always a whole sentence ending in a terminator.
   */
  function FindExampleSentence(word: string, text: string): (r: string)
    ensures r == [] ==> forall k :: 0 <= k < |Sentences(text)| ==> !Mentions(Sentences(text)[k], word)
    ensures (forall k :: 0 <= k < |Sentences(text)| ==> !Mentions(Sentences(text)[k], word)) ==> r == []
    ensures r != [] ==>
      exists k :: 0 <= k < |Sentences(text)| && Sentences(text)[k] == r
        && (forall j :: 0 <= j < k ==> !Mentions(Sentences(text)[j], word))
    ensures r != [] ==> Mentions(r, word) && IsSentence(r) && IsTerminator(r[|r| - 1])
  {
    SentencesAreMatches(text);
    var ss := Sentences(text);
    var k := FindIndex(ss, word);
    if k < |ss| then
      assert IsSentence(ss[k]) && |ss[k]| > 0;
      ss[k]
    else []
  }
}
