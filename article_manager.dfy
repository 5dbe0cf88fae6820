/** frontend/src/components/admin/ArticleManager.jsx: the administrator's
    article edit form. The form holds the tags as one text; everything else is
    passed through as it is. */
module ArticleManager {
  import opened Wrappers
  import TagInput

  /** An article as the page receives it. */
  datatype ArticleRecord = ArticleRecord(
    id: int, title: string, content: string, author: string,
    categoryId: Option<int>, imageUrl: string, tags: seq<string>)

  /** The form state. */
  datatype ArticleForm = ArticleForm(
    id: int, title: string, content: string, author: string,
    categoryId: Option<int>, imageUrl: string, tags: string)

  /** `handleShowModal(article)`: the form filled from an existing article. */
  function EditForm(article: ArticleRecord): ArticleForm
  {
    ArticleForm(article.id, article.title, article.content, article.author,
                article.categoryId, article.imageUrl, TagInput.FormatTags(article.tags))
  }

  /** The form before anything is typed (`handleShowModal()` without an article). */
  const EmptyForm := ArticleForm(0, "", "", "", None, "", "")

  /** `handleSubmit`: `{ ...formData, tags: <parsed> }`. */
  function SubmitData(form: ArticleForm): ArticleRecord
  {
    ArticleRecord(form.id, form.title, form.content, form.author,
                  form.categoryId, form.imageUrl, TagInput.ParseTags(form.tags))
  }

  /** Submitted data is the form data with only the tags replaced, by clean tags. */
  lemma SubmitReplacesOnlyTags(form: ArticleForm)
    ensures var a := SubmitData(form);
      a.id == form.id && a.title == form.title && a.content == form.content
      && a.author == form.author && a.categoryId == form.categoryId && a.imageUrl == form.imageUrl
      && TagInput.CleanTags(a.tags)
  {
  }

  /** Forms whose tag texts read as the same list submit the same article. */
  lemma SubmitDependsOnParsedTags(f: ArticleForm, g: ArticleForm)
    ensures SubmitData(f) == SubmitData(g) <==>
      f.(tags := "") == g.(tags := "") && TagInput.ParseTags(f.tags) == TagInput.ParseTags(g.tags)
  {
  }

  /** A new article submitted from an untouched form has no tags. */
  lemma EmptyFormHasNoTags()
    ensures SubmitData(EmptyForm).tags == []
  {
    TagInput.ParseBlankIff("");
  }

  /** Opening an article for editing and saving it unchanged gives back the
      same article exactly when its tags are clean. */
  lemma EditRoundTrip(article: ArticleRecord)
    ensures SubmitData(EditForm(article)) == article <==> TagInput.CleanTags(article.tags)
  {
    TagInput.ParseFormatIff(article.tags);
  }
}
