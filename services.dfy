/** backend/Services/Services.cs: the Article, Video and Question/Answer
    services. Each operation is a read-modify-write of the store's tables; a
    `SaveChangesAsync` is the assignment of the new table to the context, and
    `DateTime.Now` is the parameter `now`. */
module Services {
  import opened Wrappers
  import opened Models
  import opened Data
  import Listing

  // ---------------------------------------------------------------------------
  // Sort keys and filters of the queries

  function ArticleDate(a: Article): DateTime { a.PublishedDate }
  function VideoDate(v: Video): DateTime { v.PublishedDate }
  function QuestionDate(q: Question): DateTime { q.AskedDate }

  /** `x.Category.Name == category`: a row whose category reference is absent or
      does not resolve never matches; names are compared exactly. */
  predicate InCategory(categories: map<int, Category>, category: string, id: Option<int>)
  {
    CategoryName(categories, id) == Some(category)
  }

  function ArticleInCategory(categories: map<int, Category>, category: string): Article -> bool
  {
    (a: Article) => InCategory(categories, category, a.CategoryId)
  }

  function VideoInCategory(categories: map<int, Category>, category: string): Video -> bool
  {
    (v: Video) => InCategory(categories, category, v.CategoryId)
  }

  function QuestionInCategory(categories: map<int, Category>, category: string): Question -> bool
  {
    (q: Question) => InCategory(categories, category, q.CategoryId)
  }

  /** The category filter keeps exactly the rows naming an existing category of that name. */
  lemma InCategoryIff(categories: map<int, Category>, category: string, id: Option<int>)
    ensures InCategory(categories, category, id)
        <==> id.Some? && id.value in categories && categories[id.value].Name == category
  {
  }

  // ---------------------------------------------------------------------------
  // Row updates

  /** `row.Views++`: only the view counter changes. */
  function ViewedArticle(a: Article): (v: Article)
    ensures v.Views == Increment(a.Views)
    ensures v.(Views := a.Views) == a
  {
    a.(Views := Increment(a.Views))
  }

  function ViewedVideo(a: Video): (v: Video)
    ensures v.Views == Increment(a.Views)
    ensures v.(Views := a.Views) == a
  {
    a.(Views := Increment(a.Views))
  }

  function ViewedQuestion(a: Question): (v: Question)
    ensures v.Views == Increment(a.Views)
    ensures v.(Views := a.Views) == a
  {
    a.(Views := Increment(a.Views))
  }

  /** `UpdateArticleAsync` copies Title, Content, Author, CategoryId, ImageUrl
      and Tags from the posted article; Id, PublishedDate and Views stay. */
  function UpdatedArticle(existing: Article, posted: Article): (r: Article)
    ensures r.Id == existing.Id && r.PublishedDate == existing.PublishedDate && r.Views == existing.Views
    ensures r.(Id := posted.Id, PublishedDate := posted.PublishedDate, Views := posted.Views) == posted
  {
    existing.(Title := posted.Title, Content := posted.Content, Author := posted.Author,
              CategoryId := posted.CategoryId, ImageUrl := posted.ImageUrl, Tags := posted.Tags)
  }

  /** `UpdateVideoAsync` copies Title, Description, VideoUrl, ThumbnailUrl,
      CategoryId, Author, Duration and Tags; Id, PublishedDate and Views stay. */
  function UpdatedVideo(existing: Video, posted: Video): (r: Video)
    ensures r.Id == existing.Id && r.PublishedDate == existing.PublishedDate && r.Views == existing.Views
    ensures r.(Id := posted.Id, PublishedDate := posted.PublishedDate, Views := posted.Views) == posted
  {
    existing.(Title := posted.Title, Description := posted.Description, VideoUrl := posted.VideoUrl,
              ThumbnailUrl := posted.ThumbnailUrl, CategoryId := posted.CategoryId,
              Author := posted.Author, Duration := posted.Duration, Tags := posted.Tags)
  }

  // ---------------------------------------------------------------------------
  // The answer table under the QnA operations

  /** `answerId` is one of the answers of question `questionId`. */
  predicate Belongs(answers: map<int, Answer>, questionId: int, answerId: int)
  {
    answerId in answers && answers[answerId].QuestionId == questionId
  }

  /** The answers table after accepting `a` among the answers of `q`: every
      answer of `q` is unmarked and then `a` is marked. */
  function Accept(answers: map<int, Answer>, q: int, a: int): (r: map<int, Answer>)
    ensures r.Keys == answers.Keys
    ensures forall k :: k in r ==> r[k].(IsAccepted := answers[k].IsAccepted) == answers[k]
  {
    map k | k in answers :: if answers[k].QuestionId == q then answers[k].(IsAccepted := k == a) else answers[k]
  }

  /** The tracked rows, once every answer of `q` is unmarked and `a` is
      marked, are the table `Accept` describes. */
  lemma UnmarkThenMark(answers: map<int, Answer>, tracked: map<int, Answer>, q: int, a: int)
    requires tracked.Keys == answers.Keys
    requires forall k :: k in tracked ==>
      tracked[k] == if answers[k].QuestionId == q then answers[k].(IsAccepted := false) else answers[k]
    requires Belongs(answers, q, a)
    ensures tracked[a := tracked[a].(IsAccepted := true)] == Accept(answers, q, a)
  {
    var marked := tracked[a := tracked[a].(IsAccepted := true)];
    var accepted := Accept(answers, q, a);
    assert forall k :: k in accepted ==> k in marked && marked[k] == accepted[k];
  }

  /** After accepting `a`, it is the one accepted answer of `q`. */
  lemma AcceptLeavesOnlyTarget(answers: map<int, Answer>, q: int, a: int)
    requires Belongs(answers, q, a)
    ensures Accept(answers, q, a)[a].IsAccepted
    ensures forall k :: k in answers && answers[k].QuestionId == q ==>
      (Accept(answers, q, a)[k].IsAccepted <==> k == a)
  {
  }

  /** Accepting leaves the answers of every other question alone. */
  lemma AcceptKeepsOtherQuestions(answers: map<int, Answer>, q: int, a: int)
    ensures forall k :: k in answers && answers[k].QuestionId != q ==> Accept(answers, q, a)[k] == answers[k]
  {
  }

  /** Accepting keeps "at most one accepted answer per question". */
  lemma AcceptKeepsAtMostOne(answers: map<int, Answer>, q: int, a: int)
    requires AtMostOneAccepted(answers)
    ensures AtMostOneAccepted(Accept(answers, q, a))
  {
    var r := Accept(answers, q, a);
    forall x, y | x in r && y in r && r[x].IsAccepted && r[y].IsAccepted && r[x].QuestionId == r[y].QuestionId
      ensures x == y
    {
      if answers[x].QuestionId != q {
        assert r[x] == answers[x] && r[y] == answers[y];
      }
    }
  }

  /** The `foreach` of `AcceptAnswerAsync` over the tracked answers of `q`:
      every answer of `q` is unmarked, every other row is left as it was. The
      keys are visited in increasing order up to the key generator `next`. */
  method UnmarkAnswersOf(answers: map<int, Answer>, q: int, next: int) returns (tracked: map<int, Answer>)
    requires 1 <= next
    requires forall k :: k in answers ==> 0 < k < next
    ensures tracked.Keys == answers.Keys
    ensures forall k :: k in tracked ==>
      tracked[k] == if answers[k].QuestionId == q then answers[k].(IsAccepted := false) else answers[k]
  {
    tracked := answers;
    for key := 1 to next
      invariant tracked.Keys == answers.Keys
      invariant forall k :: k in tracked ==>
        tracked[k] == if k < key && answers[k].QuestionId == q then answers[k].(IsAccepted := false) else answers[k]
    {
      if key in tracked && tracked[key].QuestionId == q {
        tracked := tracked[key := tracked[key].(IsAccepted := false)];
      }
    }
  }

  /** Accepting an answer leaves a store that keeps its invariant. */
  lemma AcceptedStoreValid(s: Store, q: int, a: int)
    requires s.Valid()
    ensures s.(Answers := Accept(s.Answers, q, a)).Valid()
  {
    AcceptKeepsAtMostOne(s.Answers, q, a);
  }

  /** The latest successful accept wins: a second one overrides the first. */
  lemma AcceptLatestWins(answers: map<int, Answer>, q: int, a: int, b: int)
    ensures Accept(Accept(answers, q, a), q, b) == Accept(answers, q, b)
  {
    var once := Accept(answers, q, a);
    assert forall k :: k in once ==> once[k].QuestionId == answers[k].QuestionId;
  }

  /** The answers table after the cascade of deleting question `q`. */
  function WithoutAnswersOf(answers: map<int, Answer>, q: int): (r: map<int, Answer>)
    ensures forall k :: k in r <==> k in answers && answers[k].QuestionId != q
    ensures forall k :: k in r ==> r[k] == answers[k]
  {
    map k | k in answers && answers[k].QuestionId != q :: answers[k]
  }

  /** The cascade removes exactly the answers of `q`: none of them is left. */
  lemma CascadeRemovesAnswersOf(answers: map<int, Answer>, q: int)
    ensures AnswersOf(WithoutAnswersOf(answers, q), q) == map[]
    ensures WithoutAnswersOf(answers, q).Keys + AnswersOf(answers, q).Keys == answers.Keys
  {
  }

  lemma CascadeKeepsAtMostOne(answers: map<int, Answer>, q: int)
    requires AtMostOneAccepted(answers)
    ensures AtMostOneAccepted(WithoutAnswersOf(answers, q))
  {
  }

  /** A new answer as `AddAnswerAsync` stores it: under question `q`, dated
      `now`, without votes and not accepted; content and author as posted. */
  function NewAnswer(posted: Answer, id: int, q: int, now: DateTime): (r: Answer)
    ensures r.Id == id && r.QuestionId == q && r.AnsweredDate == now
    ensures r.Votes == 0 && !r.IsAccepted
    ensures r.Content == posted.Content && r.Author == posted.Author
  {
    posted.(Id := id, QuestionId := q, AnsweredDate := now, Votes := 0, IsAccepted := false)
  }

  /** Adding a not-accepted answer under a fresh key keeps the invariant. */
  lemma AddNotAcceptedKeepsAtMostOne(answers: map<int, Answer>, k: int, row: Answer)
    requires AtMostOneAccepted(answers)
    requires !row.IsAccepted
    ensures AtMostOneAccepted(answers[k := row])
  {
  }

  // ---------------------------------------------------------------------------
  // The answers posted together with a new question

  /** The answer rows that `CreateQuestionAsync` inserts when the posted
      question carries an `Answers` list, AS WRITTEN: the graph is added as it
      came, so each answer gets the next generated key and the new question's
      key by relationship fix-up, and keeps the posted `IsAccepted`, `Votes`
      and `AnsweredDate`. */
  function PostedAnswers(posted: seq<Answer>, q: int, first: int): (rows: map<int, Answer>)
    ensures forall k :: k in rows <==> first <= k < first + |posted|
    ensures forall k :: k in rows ==> rows[k] == posted[k - first].(Id := k, QuestionId := q)
  {
    if posted == [] then map[]
    else
      var last := first + |posted| - 1;
      PostedAnswers(posted[..|posted| - 1], q, first)[last := posted[|posted| - 1].(Id := last, QuestionId := q)]
  }

  /** Two posted accepted answers break "at most one accepted answer per question". */
  lemma PostedAnswersBreakAtMostOne()
    ensures !AtMostOneAccepted(PostedAnswers(
      [Answer(0, 0, "a", "x", 0, 0, true), Answer(0, 0, "b", "y", 0, 0, true)], 1, 1))
  {
    var rows := PostedAnswers(
      [Answer(0, 0, "a", "x", 0, 0, true), Answer(0, 0, "b", "y", 0, 0, true)], 1, 1);
    assert 1 in rows && 2 in rows;
    assert rows[1].IsAccepted && rows[2].IsAccepted && rows[1].QuestionId == rows[2].QuestionId;
  }

  /** The corrected insertion: the posted graph is stored as it came, except
      that no posted answer is stored as accepted, since a question starts with
      no accepted answer (as `AddAnswerAsync` ensures for every later one). */
  function FreshAnswers(posted: seq<Answer>, q: int, first: int): (rows: map<int, Answer>)
    ensures forall k :: k in rows <==> first <= k < first + |posted|
    ensures forall k :: k in rows ==> rows[k] == posted[k - first].(Id := k, QuestionId := q, IsAccepted := false)
  {
    if posted == [] then map[]
    else
      var last := first + |posted| - 1;
      FreshAnswers(posted[..|posted| - 1], q, first)[last := posted[|posted| - 1].(Id := last, QuestionId := q, IsAccepted := false)]
  }

  /** The corrected rows differ from the rows as written in the accepted flag
      only: same keys, and every other field as posted. */
  lemma FreshAnswersOnlyUnmark(posted: seq<Answer>, q: int, first: int)
    ensures FreshAnswers(posted, q, first).Keys == PostedAnswers(posted, q, first).Keys
    ensures forall k :: k in FreshAnswers(posted, q, first) ==>
      FreshAnswers(posted, q, first)[k] == PostedAnswers(posted, q, first)[k].(IsAccepted := false)
  {
  }

  /** Inserting the corrected answers keeps the invariant, whatever was posted. */
  lemma FreshAnswersKeepAtMostOne(answers: map<int, Answer>, posted: seq<Answer>, q: int, first: int)
    requires AtMostOneAccepted(answers)
    ensures AtMostOneAccepted(answers + FreshAnswers(posted, q, first))
  {
    var rows := answers + FreshAnswers(posted, q, first);
    forall x, y | x in rows && y in rows && rows[x].IsAccepted && rows[y].IsAccepted && rows[x].QuestionId == rows[y].QuestionId
      ensures x == y
    {
      assert x !in FreshAnswers(posted, q, first) && y !in FreshAnswers(posted, q, first);
    }
  }

  /** The corrected answer rows of a new question `q`, added to a table whose
      rows are keyed by id below `next` and belong to known questions, keep
      that shape with `q` known and the key generator moved past them. */
  lemma FreshAnswersWellKeyed(answers: map<int, Answer>, questions: set<int>, posted: seq<Answer>, q: int, next: int)
    requires forall k :: k in answers ==> answers[k].Id == k && 0 < k < next && answers[k].QuestionId in questions
    requires 1 <= next
    ensures forall k :: k in answers + FreshAnswers(posted, q, next) ==>
      (answers + FreshAnswers(posted, q, next))[k].Id == k && 0 < k < next + |posted| &&
      (answers + FreshAnswers(posted, q, next))[k].QuestionId in questions + {q}
  {
  }

  /** A new question under the next question key, with the corrected answer
      rows, leaves a store that keeps its invariant. */
  lemma QuestionCreatedValid(s: Store, row: Question, posted: seq<Answer>)
    requires s.Valid() && row.Id == s.NextQuestionId && StorableTags(row.Tags)
    ensures s.(Questions := s.Questions[row.Id := row],
               Answers := s.Answers + FreshAnswers(posted, row.Id, s.NextAnswerId),
               NextQuestionId := s.NextQuestionId + 1,
               NextAnswerId := s.NextAnswerId + |posted|).Valid()
  {
    FreshAnswersKeepAtMostOne(s.Answers, posted, row.Id, s.NextAnswerId);
    FreshAnswersWellKeyed(s.Answers, s.Questions.Keys, posted, row.Id, s.NextAnswerId);
    assert s.Questions.Keys + {row.Id} == s.Questions[row.Id := row].Keys;
  }

  // ---------------------------------------------------------------------------
  // The services

  /** `ArticleService`. */
  class ArticleService {
    const context: MediaPortalContext

    constructor (context: MediaPortalContext)
      ensures this.context == context
    {
      this.context := context;
    }

    /** `GetAllArticlesAsync`: every article once, newest first. */
    method GetAllArticles() returns (rows: seq<Article>, ghost keys: seq<int>)
      requires context.Valid()
      ensures Listing.IsListingOf(context.Articles, Listing.Everything, rows, keys)
      ensures Listing.NewestFirst(rows, ArticleDate)
    {
      rows, keys := Listing.OrderByDescending(context.Articles, context.NextArticleId, Listing.Everything, ArticleDate);
    }

    /** `GetArticleByIdAsync`: counts a view of an existing article. */
    method GetArticleById(id: int) returns (r: Option<Article>)
      requires context.Valid()
      modifies context
      ensures context.Valid()
      ensures r.Some? <==> id in old(context.Articles)
      ensures r.Some? ==> r.value == ViewedArticle(old(context.Articles[id]))
      ensures r.Some? ==> context.State() == old(context.State()).(Articles := old(context.Articles)[id := r.value])
      ensures r.None? ==> context.State() == old(context.State())
    {
      if id in context.Articles {
        var article := ViewedArticle(context.Articles[id]);
        context.Articles := context.Articles[id := article];
        r := Some(article);
      } else {
        r := None;
      }
    }

    /** `GetArticlesByCategoryAsync`: the articles in the named category, newest first. */
    method GetArticlesByCategory(category: string) returns (rows: seq<Article>, ghost keys: seq<int>)
      requires context.Valid()
      ensures Listing.IsListingOf(context.Articles, ArticleInCategory(context.Categories, category), rows, keys)
      ensures Listing.NewestFirst(rows, ArticleDate)
    {
      rows, keys := Listing.OrderByDescending(context.Articles, context.NextArticleId,
                                              ArticleInCategory(context.Categories, category), ArticleDate);
    }

    /** `CreateArticleAsync`: stores the posted article under a new key, dated
        `now` and without views; the returned object keeps the posted tags,
        the row holds them as the converter reads them back. */
    method CreateArticle(article: Article, now: DateTime) returns (r: Article)
      requires context.Valid()
      modifies context
      ensures context.Valid()
      ensures r == article.(Id := old(context.NextArticleId), PublishedDate := now, Views := 0)
      ensures r.Id !in old(context.Articles)
      ensures context.State() == old(context.State()).(
        Articles := old(context.Articles)[r.Id := r.(Tags := Persisted(r.Tags))],
        NextArticleId := old(context.NextArticleId) + 1)
    {
      r := article.(Id := context.NextArticleId, PublishedDate := now, Views := 0);
      context.Articles := context.Articles[r.Id := r.(Tags := Persisted(r.Tags))];
      context.NextArticleId := context.NextArticleId + 1;
    }

    /** `UpdateArticleAsync`. */
    method UpdateArticle(id: int, article: Article) returns (r: Option<Article>)
      requires context.Valid()
      modifies context
      ensures context.Valid()
      ensures r.Some? <==> id in old(context.Articles)
      ensures r.Some? ==> r.value == UpdatedArticle(old(context.Articles[id]), article)
      ensures r.Some? ==> context.State() == old(context.State()).(
        Articles := old(context.Articles)[id := r.value.(Tags := Persisted(r.value.Tags))])
      ensures r.None? ==> context.State() == old(context.State())
    {
      if id !in context.Articles {
        return None;
      }
      var updated := UpdatedArticle(context.Articles[id], article);
      context.Articles := context.Articles[id := updated.(Tags := Persisted(updated.Tags))];
      r := Some(updated);
    }

    /** `DeleteArticleAsync`. */
    method DeleteArticle(id: int) returns (deleted: bool)
      requires context.Valid()
      modifies context
      ensures context.Valid()
      ensures deleted <==> id in old(context.Articles)
      ensures context.State() == old(context.State()).(Articles := old(context.Articles) - {id})
      ensures !deleted ==> context.State() == old(context.State())
    {
      if id !in context.Articles {
        return false;
      }
      context.Articles := context.Articles - {id};
      deleted := true;
    }
  }

  /** `VideoService`. */
  class VideoService {
    const context: MediaPortalContext

    constructor (context: MediaPortalContext)
      ensures this.context == context
    {
      this.context := context;
    }

    /** `GetAllVideosAsync`. */
    method GetAllVideos() returns (rows: seq<Video>, ghost keys: seq<int>)
      requires context.Valid()
      ensures Listing.IsListingOf(context.Videos, Listing.Everything, rows, keys)
      ensures Listing.NewestFirst(rows, VideoDate)
    {
      rows, keys := Listing.OrderByDescending(context.Videos, context.NextVideoId, Listing.Everything, VideoDate);
    }

    /** `GetVideoByIdAsync`. */
    method GetVideoById(id: int) returns (r: Option<Video>)
      requires context.Valid()
      modifies context
      ensures context.Valid()
      ensures r.Some? <==> id in old(context.Videos)
      ensures r.Some? ==> r.value == ViewedVideo(old(context.Videos[id]))
      ensures r.Some? ==> context.State() == old(context.State()).(Videos := old(context.Videos)[id := r.value])
      ensures r.None? ==> context.State() == old(context.State())
    {
      if id in context.Videos {
        var video := ViewedVideo(context.Videos[id]);
        context.Videos := context.Videos[id := video];
        r := Some(video);
      } else {
        r := None;
      }
    }

    /** `GetVideosByCategoryAsync`. */
    method GetVideosByCategory(category: string) returns (rows: seq<Video>, ghost keys: seq<int>)
      requires context.Valid()
      ensures Listing.IsListingOf(context.Videos, VideoInCategory(context.Categories, category), rows, keys)
      ensures Listing.NewestFirst(rows, VideoDate)
    {
      rows, keys := Listing.OrderByDescending(context.Videos, context.NextVideoId,
                                              VideoInCategory(context.Categories, category), VideoDate);
    }

    /** `CreateVideoAsync`. */
    method CreateVideo(video: Video, now: DateTime) returns (r: Video)
      requires context.Valid()
      modifies context
      ensures context.Valid()
      ensures r == video.(Id := old(context.NextVideoId), PublishedDate := now, Views := 0)
      ensures r.Id !in old(context.Videos)
      ensures context.State() == old(context.State()).(
        Videos := old(context.Videos)[r.Id := r.(Tags := Persisted(r.Tags))],
        NextVideoId := old(context.NextVideoId) + 1)
    {
      r := video.(Id := context.NextVideoId, PublishedDate := now, Views := 0);
      context.Videos := context.Videos[r.Id := r.(Tags := Persisted(r.Tags))];
      context.NextVideoId := context.NextVideoId + 1;
    }

    /** `UpdateVideoAsync`. */
    method UpdateVideo(id: int, video: Video) returns (r: Option<Video>)
      requires context.Valid()
      modifies context
      ensures context.Valid()
      ensures r.Some? <==> id in old(context.Videos)
      ensures r.Some? ==> r.value == UpdatedVideo(old(context.Videos[id]), video)
      ensures r.Some? ==> context.State() == old(context.State()).(
        Videos := old(context.Videos)[id := r.value.(Tags := Persisted(r.value.Tags))])
      ensures r.None? ==> context.State() == old(context.State())
    {
      if id !in context.Videos {
        return None;
      }
      var updated := UpdatedVideo(context.Videos[id], video);
      context.Videos := context.Videos[id := updated.(Tags := Persisted(updated.Tags))];
      r := Some(updated);
    }

    /** `DeleteVideoAsync`. */
    method DeleteVideo(id: int) returns (deleted: bool)
      requires context.Valid()
      modifies context
      ensures context.Valid()
      ensures deleted <==> id in old(context.Videos)
      ensures context.State() == old(context.State()).(Videos := old(context.Videos) - {id})
      ensures !deleted ==> context.State() == old(context.State())
    {
      if id !in context.Videos {
        return false;
      }
      context.Videos := context.Videos - {id};
      deleted := true;
    }
  }

  /** The failure `AddAnswerAsync` throws (`InvalidOperationException`). */
  datatype ServiceError = QuestionNotFound

  /** `QnAService`. */
  class QnAService {
    const context: MediaPortalContext

    constructor (context: MediaPortalContext)
      ensures this.context == context
    {
      this.context := context;
    }

    /** `GetAllQuestionsAsync`. */
    method GetAllQuestions() returns (rows: seq<Question>, ghost keys: seq<int>)
      requires context.Valid()
      ensures Listing.IsListingOf(context.Questions, Listing.Everything, rows, keys)
      ensures Listing.NewestFirst(rows, QuestionDate)
    {
      rows, keys := Listing.OrderByDescending(context.Questions, context.NextQuestionId, Listing.Everything, QuestionDate);
    }

    /** `GetQuestionByIdAsync`: counts a view and returns the question together
        with its answers (`Include(q => q.Answers)`). */
    method GetQuestionById(id: int) returns (r: Option<Question>, answers: map<int, Answer>)
      requires context.Valid()
      modifies context
      ensures context.Valid()
      ensures r.Some? <==> id in old(context.Questions)
      ensures r.Some? ==> r.value == ViewedQuestion(old(context.Questions[id]))
      ensures r.Some? ==> answers == AnswersOf(old(context.Answers), id)
      ensures r.Some? ==> context.State() == old(context.State()).(Questions := old(context.Questions)[id := r.value])
      ensures r.None? ==> answers == map[] && context.State() == old(context.State())
    {
      if id in context.Questions {
        var question := ViewedQuestion(context.Questions[id]);
        context.Questions := context.Questions[id := question];
        r, answers := Some(question), AnswersOf(context.Answers, id);
      } else {
        r, answers := None, map[];
      }
    }

    /** `GetQuestionsByCategoryAsync`. */
    method GetQuestionsByCategory(category: string) returns (rows: seq<Question>, ghost keys: seq<int>)
      requires context.Valid()
      ensures Listing.IsListingOf(context.Questions, QuestionInCategory(context.Categories, category), rows, keys)
      ensures Listing.NewestFirst(rows, QuestionDate)
    {
      rows, keys := Listing.OrderByDescending(context.Questions, context.NextQuestionId,
                                              QuestionInCategory(context.Categories, category), QuestionDate);
    }

    /** `CreateQuestionAsync`, with the answers posted inside the question
        stored as `FreshAnswers` (corrected; see `PostedAnswers`). */
    method CreateQuestion(question: Question, posted: seq<Answer>, now: DateTime) returns (r: Question)
      requires context.Valid()
      modifies context
      ensures context.Valid()
      ensures r == question.(Id := old(context.NextQuestionId), AskedDate := now, Views := 0)
      ensures r.Id !in old(context.Questions)
      ensures context.State() == old(context.State()).(
        Questions := old(context.Questions)[r.Id := r.(Tags := Persisted(r.Tags))],
        Answers := old(context.Answers) + FreshAnswers(posted, r.Id, old(context.NextAnswerId)),
        NextQuestionId := old(context.NextQuestionId) + 1,
        NextAnswerId := old(context.NextAnswerId) + |posted|)
    {
      r := question.(Id := context.NextQuestionId, AskedDate := now, Views := 0);
      ghost var before := context.State();
      var row := r.(Tags := Persisted(r.Tags));
      var answers := context.Answers + FreshAnswers(posted, r.Id, context.NextAnswerId);
      QuestionCreatedValid(before, row, posted);
      context.Questions, context.Answers, context.NextQuestionId, context.NextAnswerId :=
        context.Questions[r.Id := row], answers, context.NextQuestionId + 1, context.NextAnswerId + |posted|;
      assert context.State() == before.(Questions := before.Questions[r.Id := row], Answers := answers,
        NextQuestionId := before.NextQuestionId + 1, NextAnswerId := before.NextAnswerId + |posted|);
    }

    /** `AddAnswerAsync`: fails on a missing question, otherwise stores the
        answer under a new key as `NewAnswer` describes. */
    method AddAnswer(questionId: int, answer: Answer, now: DateTime) returns (r: Result<Answer, ServiceError>)
      requires context.Valid()
      modifies context
      ensures context.Valid()
      ensures r.Failure? <==> questionId !in old(context.Questions)
      ensures r.Failure? ==> context.State() == old(context.State())
      ensures r.Success? ==> r.value == NewAnswer(answer, old(context.NextAnswerId), questionId, now)
      ensures r.Success? ==> r.value.Id !in old(context.Answers)
      ensures r.Success? ==> context.State() == old(context.State()).(
        Answers := old(context.Answers)[r.value.Id := r.value],
        NextAnswerId := old(context.NextAnswerId) + 1)
    {
      if questionId !in context.Questions {
        return Failure(QuestionNotFound);
      }
      var row := NewAnswer(answer, context.NextAnswerId, questionId, now);
      AddNotAcceptedKeepsAtMostOne(context.Answers, row.Id, row);
      context.Answers := context.Answers[row.Id := row];
      context.NextAnswerId := context.NextAnswerId + 1;
      r := Success(row);
    }

    /** `AcceptAnswerAsync`: unmarks every answer of the question on the
        tracked rows, marks the requested one, and saves only when the
        requested answer is one of the question's answers. */
    method AcceptAnswer(questionId: int, answerId: int) returns (r: Option<Answer>)
      requires context.Valid()
      modifies context
      ensures context.Valid()
      ensures r.Some? <==> questionId in old(context.Questions) && Belongs(old(context.Answers), questionId, answerId)
      ensures r.Some? ==> r.value == old(context.Answers[answerId]).(IsAccepted := true)
      ensures r.Some? ==> context.State() == old(context.State()).(Answers := Accept(old(context.Answers), questionId, answerId))
      ensures r.None? ==> context.State() == old(context.State())
    {
      if questionId !in context.Questions {
        return None;
      }
      var tracked := UnmarkAnswersOf(context.Answers, questionId, context.NextAnswerId);
      if answerId in tracked && tracked[answerId].QuestionId == questionId {
        var answer := tracked[answerId].(IsAccepted := true);
        ghost var before := context.State();
        UnmarkThenMark(context.Answers, tracked, questionId, answerId);
        AcceptedStoreValid(before, questionId, answerId);
        context.Answers := tracked[answerId := answer];
        assert context.State() == before.(Answers := Accept(before.Answers, questionId, answerId));
        r := Some(answer);
      } else {
        r := None;
      }
    }

    /** `DeleteQuestionAsync`: removes the question and, by cascade, its answers. */
    method DeleteQuestion(id: int) returns (deleted: bool)
      requires context.Valid()
      modifies context
      ensures context.Valid()
      ensures deleted <==> id in old(context.Questions)
      ensures deleted ==> context.State() == old(context.State()).(
        Questions := old(context.Questions) - {id},
        Answers := WithoutAnswersOf(old(context.Answers), id))
      ensures !deleted ==> context.State() == old(context.State())
    {
      if id !in context.Questions {
        return false;
      }
      CascadeKeepsAtMostOne(context.Answers, id);
      context.Questions := context.Questions - {id};
      context.Answers := WithoutAnswersOf(context.Answers, id);
      deleted := true;
    }
  }
}
