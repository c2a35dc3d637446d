/**
 * The vocabulary list shown after a successful generate request
 * (static/js/main.js:103-104): `[...new Set(data.vocabulary)]`, built only
 * when the response carries a `vocabulary` field.
 */
module Vocabulary {
  import opened Wrappers

  predicate Distinct(xs: seq<string>) {
    forall i, j :: 0 <= i < j < |xs| ==> xs[i] != xs[j]
  }

  /** Index of the first occurrence of `x` in `xs`. */
  function FirstIndex(xs: seq<string>, x: string): (k: nat)
    requires x in xs
    ensures k < |xs| && xs[k] == x && x !in xs[..k]
  {
    if xs[0] == x then 0 else 1 + FirstIndex(xs[1..], x)
  }

  /**
   * Inserting the elements of `xs` one by one into a JavaScript `Set` that
   * already holds `seen`, and listing what was newly inserted in insertion order.
   */
  function InsertNew(xs: seq<string>, seen: set<string>): (r: seq<string>)
    ensures forall x :: x in r <==> x in xs && x !in seen
    ensures Distinct(r)
    ensures |r| <= |xs|
  {
    if xs == [] then []
    else if xs[0] in seen then InsertNew(xs[1..], seen)
    else [xs[0]] + InsertNew(xs[1..], seen + {xs[0]})
  }

  /** `[...new Set(xs)]` */
  function UniqueWords(xs: seq<string>): (r: seq<string>)
    ensures forall x :: x in r <==> x in xs
    ensures Distinct(r)
    ensures |r| <= |xs|
  {
    InsertNew(xs, {})
  }

  /** The words `InsertNew` lists appear in the order of their first occurrence in `xs`. */
  ghost predicate InFirstOccurrenceOrder(xs: seq<string>, r: seq<string>)
    requires forall x :: x in r ==> x in xs
  {
    forall i, j :: 0 <= i < j < |r| ==> FirstIndex(xs, r[i]) < FirstIndex(xs, r[j])
  }

  lemma {:induction false} InsertNewOrder(xs: seq<string>, seen: set<string>)
    ensures InFirstOccurrenceOrder(xs, InsertNew(xs, seen))
  {
    if xs != [] {
      var r := InsertNew(xs, seen);
      var seen' := if xs[0] in seen then seen else seen + {xs[0]};
      var rest := InsertNew(xs[1..], seen');
      InsertNewOrder(xs[1..], seen');
      assert r == if xs[0] in seen then rest else [xs[0]] + rest;
      var d := |r| - |rest|;
      forall i, j | 0 <= i < j < |r| ensures FirstIndex(xs, r[i]) < FirstIndex(xs, r[j]) {
        // every word that the rest inserts is new, so it differs from xs[0]
        assert r[j] == rest[j - d];
        if i < d {
          assert FirstIndex(xs, r[i]) == 0;
        } else {
          assert r[i] == rest[i - d];
          assert FirstIndex(xs[1..], rest[i - d]) < FirstIndex(xs[1..], rest[j - d]);
        }
      }
    }
  }

  /**
   * Each distinct word appears exactly once, and the words appear in the order
   * in which they first occur in the input.
   */
  lemma UniqueWordsFirstOccurrenceOrder(xs: seq<string>)
    ensures var r := UniqueWords(xs);
      && (forall x :: x in r <==> x in xs)
      && Distinct(r)
      && InFirstOccurrenceOrder(xs, r)
  {
    assert UniqueWords(xs) == InsertNew(xs, {});
    InsertNewOrder(xs, {});
  }

  /**
   * The list displayed by the generate handler: empty unless a `vocabulary`
   * field is present, and otherwise each of its words once, in the order of
   * first occurrence.
   */
  function DisplayedWords(vocabulary: Option<seq<string>>): (r: seq<string>)
    ensures vocabulary.None? ==> r == []
    ensures vocabulary.Some? ==> (forall x :: x in r <==> x in vocabulary.value) && Distinct(r)
    ensures vocabulary.Some? ==> InFirstOccurrenceOrder(vocabulary.value, r)
  {
    match vocabulary
    case None => []
    case Some(words) =>
      UniqueWordsFirstOccurrenceOrder(words);
      UniqueWords(words)
  }

  /** The example of a generate response with a repeated word. */
  lemma CatCatSat()
    ensures DisplayedWords(Some(["cat", "cat", "sat"])) == ["cat", "sat"]
  {
    var xs := ["cat", "cat", "sat"];
    assert InsertNew(xs, {}) == ["cat", "sat"] by {
      assert xs[1..] == ["cat", "sat"] && xs[1..][1..] == ["sat"];
      assert InsertNew(["sat"], {"cat"}) == ["sat"];
    }
    assert DisplayedWords(Some(xs)) == InsertNew(xs, {});
  }
}
