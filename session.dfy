/**
 * The generate handler's update of the page state (static/js/main.js:48-183):
 * `currentArticle` and the displayed vocabulary list are replaced only by a
 * response that arrives and carries no `error` field.
 */
module Session {
  import opened Wrappers
  import Vocabulary

  const DefaultTitle: string := "Generated Article"

  /** The fields of the `/generate_article` JSON body that the handler reads; `None` is `undefined`. */
  datatype GenerateData = GenerateData(
    error: Option<string>,
    title: Option<string>,
    article: Option<string>,
    translation: Option<string>,
    vocabulary: Option<seq<string>>)

  /** `currentArticle` */
  datatype Article = Article(
    title: string,
    content: Option<string>,
    translation: Option<string>,
    category: string)

  /** JavaScript truthiness of an optional string: present and not empty. */
  predicate Truthy(s: Option<string>) {
    s.Some? && s.value != ""
  }

  class ReadingSession {
    var currentArticle: Option<Article>
    var wordList: seq<string>

    constructor ()
      ensures currentArticle == None && wordList == []
    {
      currentArticle := None;
      wordList := [];
    }

    /**
     * Completion of one generate request for `category`. `reply` is `None` when
     * the request or the JSON decoding failed. An error field, or a failure,
     * leaves the article and the word list as they were; otherwise the article
     * is replaced (title defaulting to "Generated Article", category the one
     * requested) and the word list becomes the de-duplicated vocabulary.
     */
    method OnGenerate(category: string, reply: Option<GenerateData>)
      modifies this
      ensures reply.None? || Truthy(reply.value.error) ==>
        currentArticle == old(currentArticle) && wordList == old(wordList)
      ensures reply.Some? && !Truthy(reply.value.error) ==>
        && currentArticle.Some?
        && currentArticle.value.title == (if Truthy(reply.value.title) then reply.value.title.value else DefaultTitle)
        && currentArticle.value.content == reply.value.article
        && currentArticle.value.translation == reply.value.translation
        && currentArticle.value.category == category
        && wordList == Vocabulary.DisplayedWords(reply.value.vocabulary)
    {
      if reply.None? {
        return;
      }
      var data := reply.value;
      if Truthy(data.error) {
        return;
      }
      currentArticle := Some(Article(
        if Truthy(data.title) then data.title.value else DefaultTitle,
        data.article,
        data.translation,
        category));
      wordList := Vocabulary.DisplayedWords(data.vocabulary);
    }
  }
}
