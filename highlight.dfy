/**
 * The highlight marker pair of static/js/main.js:222-230, as rewriting of the
 * article element's HTML text. `highlightText` wraps every case-insensitive
 * occurrence of a word in `<span class="highlight-text">` … `</span>`;
 * `clearHighlights` deletes those markers again.
 */
module Highlight {
  import opened Wrappers
  import opened Text

  const Open: string := "<span class=\"highlight-text\">"
  const Close: string := "</span>"

  /** Neither marker occurs anywhere in `s`. */
  predicate Unmarked(s: string) {
    !Contains(s, Open) && !Contains(s, Close)
  }

  /**
   * `clearHighlights`: one left-to-right pass of
   * `replace(/<span class="highlight-text">|<\/span>/g, '')`. At each position the
   * opening marker is tried first, then the closing one; a match is deleted and
   * the scan resumes after it, otherwise one character is kept.
   */
  function Clear(s: string): (r: string)
    ensures |r| <= |s|
    decreases |s|
  {
    if s == [] then []
    else if StartsWith(s, Open) then Clear(s[|Open|..])
    else if StartsWith(s, Close) then Clear(s[|Close|..])
    else [s[0]] + Clear(s[1..])
  }

  /** Both markers start with `<` and hold no other `<`. */
  lemma MarkersHaveOneAngle()
    ensures Open[0] == '<' && forall k :: 0 < k < |Open| ==> Open[k] != '<'
    ensures Close[0] == '<' && forall k :: 0 < k < |Close| ==> Close[k] != '<'
  {
  }

  /**
   * Clearing text without markers, followed by text that starts a new tag (or
   * by nothing), keeps the first part as it is: no marker can begin in the
   * unmarked part and end in the second, because a marker holds no `<` after
   * its first character.
   */
  lemma {:induction false} ClearKeepsUnmarkedPrefix(t: string, y: string)
    requires Unmarked(t)
    requires y == [] || y[0] == '<'
    ensures Clear(t + y) == t + Clear(y)
    decreases |t|
  {
    if t == [] {
      assert t + y == y;
    } else {
      UnmarkedSlice(t, 1, |t|);
      assert t[1..|t|] == t[1..];
      ClearKeepsUnmarkedPrefix(t[1..], y);
      ClearKeepsFirst(t, y);
      ConcatAssoc([t[0]], t[1..], Clear(y));
      assert [t[0]] + t[1..] == t;
    }
  }

  /** The first character of an unmarked `t` is kept when clearing `t + y`. */
  lemma ClearKeepsFirst(t: string, y: string)
    requires t != [] && Unmarked(t)
    requires y == [] || y[0] == '<'
    ensures Clear(t + y) == [t[0]] + Clear(t[1..] + y)
  {
    MarkersHaveOneAngle();
    NoMarkerAcross(t, y, Open);
    NoMarkerAcross(t, y, Close);
    ConcatTail(t, y);
  }

  /**
   * A marker cannot start at the front of `t + y` when `t` holds none and
   * `y` starts with `<`: it would lie inside `t`, or have a `<` after its
   * first character.
   */
  lemma NoMarkerAcross(t: string, y: string, p: string)
    requires t != [] && !Contains(t, p)
    requires y == [] || y[0] == '<'
    requires |p| > 0 && forall k :: 0 < k < |p| ==> p[k] != '<'
    ensures !StartsWith(t + y, p)
  {
    var ty := t + y;
    assert !StartsWith(t, p);
    if |t| >= |p| {
      assert ty[..|p|] == t[..|p|];
    } else if y != [] && |p| <= |ty| {
      assert ty[..|p|][|t|] == y[0];
    }
  }

  /** Text without markers is left unchanged by `clearHighlights`. */
  lemma ClearUnmarked(s: string)
    requires Unmarked(s)
    ensures Clear(s) == s
  {
    ClearKeepsUnmarkedPrefix(s, []);
    assert s + [] == s;
  }

  /**
   * `clearHighlights` is a single pass, so deleting a marker can join two
   * pieces into a new marker that stays: on `</</span>span>` one pass leaves
   * `</span>` and a second pass leaves the empty string.
   */
  lemma ClearNotIdempotentInGeneral()
    ensures var s := "</</span>span>";
      Clear(s) == Close && Clear(Clear(s)) == [] && Clear(Clear(s)) != Clear(s)
  {
    ClearSplicesClose();
    ClearSkipsClose([]);
    assert Close + [] == Close;
  }

  /** One pass over `</</span>span>` deletes the inner `</span>` and leaves the outer one. */
  lemma ClearSplicesClose()
    ensures Clear("</</span>span>") == Close
  {
    var s := "</</span>span>";
    var s1 := s[1..];
    assert |s| < |Open| && |s1| < |Open|;
    assert !StartsWith(s, Close) by { assert s[..|Close|][2] == '<' != Close[2]; }
    assert !StartsWith(s1, Close) by { assert s1[..|Close|][0] == '/' != Close[0]; }
    assert s1[1..] == Close + "span>";
    ClearCloseThenText();
  }

  lemma ClearCloseThenText()
    ensures Clear(Close + "span>") == "span>"
  {
    ClearSkipsClose("span>");
    ClearNoAngle("span>");
  }

  /** Text without `<` holds no marker to remove. */
  lemma {:induction false} ClearNoAngle(s: string)
    requires forall i :: 0 <= i < |s| ==> s[i] != '<'
    ensures Clear(s) == s
  {
    if s != [] {
      assert !StartsWith(s, Open) by { if |Open| <= |s| { assert s[..|Open|][0] == s[0]; } }
      assert !StartsWith(s, Close) by { if |Close| <= |s| { assert s[..|Close|][0] == s[0]; } }
      ClearNoAngle(s[1..]);
      assert [s[0]] + s[1..] == s;
    }
  }

  lemma UnmarkedSlice(s: string, i: nat, j: nat)
    requires i <= j <= |s| && Unmarked(s)
    ensures Unmarked(s[i..j])
  {
    if Contains(s[i..j], Open) { ContainsSlice(s, i, j, Open); }
    if Contains(s[i..j], Close) { ContainsSlice(s, i, j, Close); }
  }

  lemma ClearSkipsOpen(x: string)
    ensures Clear(Open + x) == Clear(x)
  {
    assert StartsWith(Open + x, Open) && (Open + x)[|Open|..] == x;
  }

  lemma ClearSkipsClose(x: string)
    ensures Clear(Close + x) == Clear(x)
  {
    var cx := Close + x;
    assert cx[1] == '/' != Open[1];
    assert StartsWith(cx, Close) && cx[|Close|..] == x;
  }

  // ---------------------------------------------------------------------------
  // highlightText

  /** No character of `w` is a regular-expression metacharacter, so `new RegExp(`(${w})`, 'gi')` matches `w` literally. */
  predicate IsLiteral(w: string) {
    forall i :: 0 <= i < |w| ==> w[i] !in "\\^$.|?*+()[]{}"
  }

  /** The `i` flag: `s` starts with `w` up to letter case. */
  predicate MatchesAt(s: string, w: string) {
    |w| <= |s| && Lower(s[..|w|]) == Lower(w)
  }

  /** What the global replace makes of the text: characters it copies, and matches it wraps. */
  datatype Piece = Plain(c: char) | Marked(text: string)

  /**
   * The matches of the global, case-insensitive regular expression, left to
   * right: a match is consumed whole and the scan resumes after it. The empty
   * word matches the empty string at every position, after which the scan
   * copies one character. Characters are Unicode scalar values here, not
   * UTF-16 code units.
   */
  function Tokenize(s: string, w: string): seq<Piece>
    decreases |s|
  {
    if w == [] then [Marked([])] + (if s == [] then [] else [Plain(s[0])] + Tokenize(s[1..], w))
    else if s == [] then []
    else if MatchesAt(s, w) then [Marked(s[..|w|])] + Tokenize(s[|w|..], w)
    else [Plain(s[0])] + Tokenize(s[1..], w)
  }

  /** The replacement `'<span class="highlight-text">$1</span>'` applied to one match. */
  function PieceHtml(x: Piece): string {
    match x
    case Plain(c) => [c]
    case Marked(t) => Open + t + Close
  }

  function PieceText(x: Piece): string {
    match x
    case Plain(c) => [c]
    case Marked(t) => t
  }

  /** The HTML the global replace produces from the pieces. */
  function Render(p: seq<Piece>): string {
    if p == [] then [] else PieceHtml(p[0]) + Render(p[1..])
  }

  /** The text the pieces were taken from. */
  function Original(p: seq<Piece>): string {
    if p == [] then [] else PieceText(p[0]) + Original(p[1..])
  }

  lemma RenderCons(x: Piece, q: seq<Piece>)
    ensures Render([x] + q) == PieceHtml(x) + Render(q)
  {
    assert ([x] + q)[1..] == q;
  }

  lemma OriginalCons(x: Piece, q: seq<Piece>)
    ensures Original([x] + q) == PieceText(x) + Original(q)
  {
    assert ([x] + q)[1..] == q;
  }

  /** `highlightText(element, w)` on the element's HTML `s`. */
  function HighlightText(s: string, w: string): string
    requires IsLiteral(w)
  {
    Render(Tokenize(s, w))
  }

  /** The pieces hold the original text, in order and in its original casing. */
  lemma {:induction false} TokenizeKeepsText(s: string, w: string)
    ensures Original(Tokenize(s, w)) == s
    decreases |s|
  {
    if w == [] && s == [] {
      OriginalCons(Marked([]), []);
    } else if w == [] {
      var q := Tokenize(s[1..], w);
      TokenizeKeepsText(s[1..], w);
      OriginalCons(Plain(s[0]), q);
      OriginalCons(Marked([]), [Plain(s[0])] + q);
      assert [s[0]] + s[1..] == s;
    } else if s != [] {
      var n := if MatchesAt(s, w) then |w| else 1;
      var x := if MatchesAt(s, w) then Marked(s[..n]) else Plain(s[0]);
      TokenizeKeepsText(s[n..], w);
      OriginalCons(x, Tokenize(s[n..], w));
      assert PieceText(x) == s[..n];
      assert s[..n] + s[n..] == s;
    }
  }

  /**
   * Piece `x` faithfully reflects the scan at a point where the text still to
   * be scanned is `rest`: a wrapped piece is an occurrence of `w` up to case,
   * found where `rest` matches; a copied character (for a non-empty word) is
   * one where no match starts.
   */
  predicate ScannedAt(x: Piece, rest: string, w: string) {
    && (x.Marked? ==> |x.text| == |w| && Lower(x.text) == Lower(w) && MatchesAt(rest, w))
    && (x.Plain? && w != [] ==> !MatchesAt(rest, w))
  }

  /**
   * Every piece is `ScannedAt` the text that remains from it on, so every
   * non-overlapping occurrence met left to right is wrapped and nothing else is.
   */
  lemma {:induction false} TokenizeWrapsMatches(s: string, w: string)
    ensures forall i :: 0 <= i < |Tokenize(s, w)| ==>
      ScannedAt(Tokenize(s, w)[i], Original(Tokenize(s, w)[i..]), w)
    ensures w == [] ==> |Tokenize(s, w)| == 2 * |s| + 1
    ensures w == [] ==> forall i :: 0 <= i < |Tokenize(s, w)| ==> (Tokenize(s, w)[i].Marked? <==> i % 2 == 0)
    decreases |s|
  {
    if w == [] {
      TokenizeEmptyWord(s);
    }
    var p := Tokenize(s, w);
    if s != [] {
      var n := if w == [] || !MatchesAt(s, w) then 1 else |w|;
      var q := Tokenize(s[n..], w);
      TokenizeWrapsMatches(s[n..], w);
      var head := if w == [] then [Marked([]), Plain(s[0])]
                  else if MatchesAt(s, w) then [Marked(s[..|w|])] else [Plain(s[0])];
      assert p == head + q;
      ScannedSuffix(head, q, w);
      TokenizeFirstScanned(s, w);
      assert p[0..] == p;
    } else if w == [] {
      TokenizeKeepsText(s, w);
      assert p == [Marked([])];
    }
  }

  /** The empty word wraps the empty string before every character and at the end. */
  lemma {:induction false} TokenizeEmptyWord(s: string)
    ensures |Tokenize(s, [])| == 2 * |s| + 1
    ensures forall i :: 0 <= i < |Tokenize(s, [])| ==> (Tokenize(s, [])[i].Marked? <==> i % 2 == 0)
    decreases |s|
  {
    if s != [] {
      var q := Tokenize(s[1..], []);
      TokenizeEmptyWord(s[1..]);
      var p := Tokenize(s, []);
      assert p == [Marked([]), Plain(s[0])] + q;
      forall i | 2 <= i < |p| ensures (p[i].Marked? <==> i % 2 == 0) {
        assert p[i] == q[i - 2];
        assert (i - 2) % 2 == i % 2;
      }
    }
  }

  /** The first piece reflects the scan at the start of the text. */
  lemma TokenizeFirstScanned(s: string, w: string)
    requires s != []
    ensures ScannedAt(Tokenize(s, w)[0], Original(Tokenize(s, w)), w)
  {
    TokenizeKeepsText(s, w);
  }

  /** Pieces that reflect the scan keep doing so behind any pieces put in front of them. */
  lemma ScannedSuffix(head: seq<Piece>, q: seq<Piece>, w: string)
    requires forall j :: 0 <= j < |q| ==> ScannedAt(q[j], Original(q[j..]), w)
    requires forall i :: 0 < i < |head| ==> head[i].Plain? && w == []
    ensures forall i :: 0 < i < |head + q| ==> ScannedAt((head + q)[i], Original((head + q)[i..]), w)
  {
    forall i | 0 < i < |head + q| ensures ScannedAt((head + q)[i], Original((head + q)[i..]), w) {
      if i >= |head| {
        assert (head + q)[i..] == q[i - |head|..];
      }
    }
  }

  lemma UnmarkedParts(a: string, b: string)
    requires Unmarked(a + b)
    ensures Unmarked(a) && Unmarked(b)
  {
    if Contains(a, Open) { ContainsInPrefix(a, b, Open); }
    if Contains(a, Close) { ContainsInPrefix(a, b, Close); }
    if Contains(b, Open) { ContainsInSuffix(a, b, Open); }
    if Contains(b, Close) { ContainsInSuffix(a, b, Close); }
  }

  /** Clearing removes one wrapped match and keeps the text around it. */
  lemma ClearWrapped(pfx: string, m: string, r: string)
    requires Unmarked(pfx) && Unmarked(m)
    ensures Clear(pfx + (Open + m + Close + r)) == pfx + m + Clear(r)
  {
    MarkersHaveOneAngle();
    assert Open + m + Close + r == Open + (m + (Close + r));
    ClearKeepsUnmarkedPrefix(pfx, Open + (m + (Close + r)));
    ClearSkipsOpen(m + (Close + r));
    ClearKeepsUnmarkedPrefix(m, Close + r);
    ClearSkipsClose(r);
  }

  /**
   * Clearing the HTML of any list of pieces, with an unmarked prefix carried
   * along, gives back the text the pieces were taken from, provided that text
   * holds no marker: each wrapped piece loses its two markers and nothing else.
   */
  lemma {:induction false} ClearRendered(pfx: string, p: seq<Piece>)
    requires Unmarked(pfx + Original(p))
    ensures Clear(pfx + Render(p)) == pfx + Original(p)
    decreases |p|, 1
  {
    if p == [] {
      assert pfx + Render(p) == pfx && pfx + Original(p) == pfx;
      ClearUnmarked(pfx);
    } else {
      var x, q := p[0], p[1..];
      assert p == [x] + q;
      RenderCons(x, q);
      OriginalCons(x, q);
      match x
      case Plain(c) => ClearRenderedPlain(pfx, c, q);
      case Marked(t) =>
        assert Unmarked(pfx) && Unmarked(t) && Unmarked(Original(q)) by {
          UnmarkedParts(pfx, t + Original(q));
          UnmarkedParts(t, Original(q));
        }
        assert Clear(Render(q)) == Original(q) by {
          assert [] + Original(q) == Original(q) && [] + Render(q) == Render(q);
          ClearRendered([], q);
        }
        ClearRenderedMarked(pfx, t, Render(q), Original(q));
        ConcatAssoc(pfx, t, Original(q));
    }
  }

  lemma {:induction false} ClearRenderedPlain(pfx: string, c: char, q: seq<Piece>)
    requires Unmarked(pfx + ([c] + Original(q)))
    ensures Clear(pfx + ([c] + Render(q))) == pfx + ([c] + Original(q))
    decreases |q| + 1, 0
  {
    ConcatAssoc(pfx, [c], Render(q));
    ConcatAssoc(pfx, [c], Original(q));
    ClearRendered(pfx + [c], q);
  }

  /** One wrapped piece: its markers go, its text and the cleared rest stay. */
  lemma ClearRenderedMarked(pfx: string, t: string, rest: string, restText: string)
    requires Unmarked(pfx) && Unmarked(t) && Clear(rest) == restText
    ensures Clear(pfx + (Open + t + Close + rest)) == pfx + t + restText
  {
    ClearWrapped(pfx, t, rest);
  }

  /**
   * `clearHighlights` undoes `highlightText` on text without markers of its
   * own, for every literal word: the original text and its casing come back,
   * and the cleared text is a fixed point of clearing.
   */
  lemma HighlightThenClear(s: string, w: string)
    requires IsLiteral(w) && Unmarked(s)
    ensures Clear(HighlightText(s, w)) == s
    ensures Clear(Clear(HighlightText(s, w))) == Clear(HighlightText(s, w))
  {
    var p := Tokenize(s, w);
    TokenizeKeepsText(s, w);
    assert [] + Original(p) == s && [] + Render(p) == HighlightText(s, w);
    ClearRendered([], p);
    ClearUnmarked(s);
  }

  /**
   * The `.article-text` element whose HTML the two helpers rewrite in place.
   * `original` is the article as first displayed and `word` the highlighted
   * word, if any; the HTML is always the original, or the original with one
   * word highlighted.
   */
  class ArticleView {
    var html: string
    ghost var original: string
    ghost var word: Option<string>

    ghost predicate Valid()
      reads this
    {
      && Unmarked(original)
      && match word
         case None => html == original
         case Some(w) => IsLiteral(w) && html == HighlightText(original, w)
    }

    constructor (content: string)
      requires Unmarked(content)
      ensures Valid() && html == content && original == content && word == None
    {
      html := content;
      original := content;
      word := None;
    }

    /** `clearHighlights(articleText)` */
    method ClearHighlights()
      requires Valid()
      modifies this
      ensures Valid() && original == old(original)
      ensures html == Clear(old(html)) && html == original && word == None
    {
      if word.Some? {
        HighlightThenClear(original, word.value);
      } else {
        ClearUnmarked(original);
      }
      html := Clear(html);
      word := None;
    }

    /** `highlightText(articleText, w)` on an element without highlights. */
    method HighlightWord(w: string)
      requires Valid() && word == None && IsLiteral(w)
      modifies this
      ensures Valid() && original == old(original)
      ensures html == HighlightText(old(html), w) && word == Some(w)
    {
      html := HighlightText(html, w);
      word := Some(w);
    }

    /**
     * The click handler of a vocabulary entry (static/js/main.js:125-129):
     * clear, then highlight the clicked word. Whatever was highlighted
     * before, the result is the original article with only that word
     * highlighted.
     */
    method SelectWord(w: string)
      requires Valid() && IsLiteral(w)
      modifies this
      ensures Valid() && original == old(original)
      ensures html == HighlightText(original, w) && word == Some(w)
    {
      ClearHighlights();
      HighlightWord(w);
    }
  }
}
