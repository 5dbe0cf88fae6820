/** backend/Controllers/Controllers.cs: the Articles, Videos and Questions
    controllers. Each action calls one service operation and turns its result
    into an HTTP response; the controllers keep no state of their own. */
module Controllers {
  import opened Wrappers
  import opened Models
  import opened Data
  import opened Services
  import Listing

  /** The responses the actions produce (`Ok`, `CreatedAtAction`, `NoContent`,
      `NotFound`, `BadRequest`, `Unauthorized`), with their bodies. */
  datatype ActionResult<+T> =
    | Ok(body: T)
    | Created(id: int, body: T)
    | NoContent
    | NotFound
    | BadRequest(message: string)
    | Unauthorized(message: string)

  /** The HTTP status code of a response. */
  function StatusCode<T>(r: ActionResult<T>): (code: int)
    ensures 200 <= code < 300 <==> r.Ok? || r.Created? || r.NoContent?
    ensures code == 404 <==> r.NotFound?
  {
    match r
    case Ok(_) => 200
    case Created(_, _) => 201
    case NoContent => 204
    case BadRequest(_) => 400
    case Unauthorized(_) => 401
    case NotFound => 404
  }

  /** Get-by-id, update and accept: a `null` from the service is NotFound,
      anything else is Ok with that record. */
  function FromLookup<T>(r: Option<T>): (res: ActionResult<T>)
    ensures res.NotFound? <==> r.None?
    ensures r.Some? ==> res == Ok(r.value)
    ensures res.Ok? || res.NotFound?
  {
    if r.None? then NotFound else Ok(r.value)
  }

  /** Delete: `true` is NoContent, `false` is NotFound. */
  function FromDelete(deleted: bool): (res: ActionResult<()>)
    ensures res.NoContent? <==> deleted
    ensures res.NotFound? <==> !deleted
  {
    if !deleted then NotFound else NoContent
  }

  /** AddAnswer: the service's `InvalidOperationException` is caught and becomes
      NotFound; the created answer is returned with Ok. */
  function FromAddAnswer(r: Result<Answer, ServiceError>): (res: ActionResult<Answer>)
    ensures res.NotFound? <==> r.Failure?
    ensures res.Ok? <==> r.Success?
    ensures r.Success? ==> res == Ok(r.value)
  {
    match r
    case Success(answer) => Ok(answer)
    case Failure(_) => NotFound
  }

  /** Create: CreatedAtAction naming the get-by-id route of the new record. */
  function FromCreate<T>(id: int, created: T): (res: ActionResult<T>)
    ensures res.Created? && res.id == id && res.body == created
    ensures StatusCode(res) == 201
  {
    Created(id, created)
  }

  /** `ArticlesController`. */
  class ArticlesController {
    const service: ArticleService

    constructor (service: ArticleService)
      ensures this.service == service
    {
      this.service := service;
    }

    method GetAllArticles() returns (res: ActionResult<seq<Article>>, ghost keys: seq<int>)
      requires service.context.Valid()
      ensures res.Ok?
      ensures Listing.IsListingOf(service.context.Articles, Listing.Everything, res.body, keys)
      ensures Listing.NewestFirst(res.body, ArticleDate)
    {
      var rows;
      rows, keys := service.GetAllArticles();
      res := Ok(rows);
    }

    method GetArticle(id: int) returns (res: ActionResult<Article>)
      requires service.context.Valid()
      modifies service.context
      ensures service.context.Valid()
      ensures res.NotFound? <==> id !in old(service.context.Articles)
      ensures res.Ok? ==> res.body == ViewedArticle(old(service.context.Articles[id]))
      ensures res.Ok? || res.NotFound?
      ensures res.Ok? ==> service.context.State() == old(service.context.State()).(Articles := old(service.context.Articles)[id := res.body])
      ensures res.NotFound? ==> service.context.State() == old(service.context.State())
    {
      var article := service.GetArticleById(id);
      res := FromLookup(article);
    }

    method GetArticlesByCategory(category: string) returns (res: ActionResult<seq<Article>>, ghost keys: seq<int>)
      requires service.context.Valid()
      ensures res.Ok?
      ensures Listing.IsListingOf(service.context.Articles, ArticleInCategory(service.context.Categories, category), res.body, keys)
      ensures Listing.NewestFirst(res.body, ArticleDate)
    {
      var rows;
      rows, keys := service.GetArticlesByCategory(category);
      res := Ok(rows);
    }

    method CreateArticle(article: Article, now: DateTime) returns (res: ActionResult<Article>)
      requires service.context.Valid()
      modifies service.context
      ensures service.context.Valid()
      ensures res.Created? && res.id == res.body.Id == old(service.context.NextArticleId)
      ensures res.body.Id in service.context.Articles
      ensures res.body == article.(Id := old(service.context.NextArticleId), PublishedDate := now, Views := 0)
      ensures service.context.State() == old(service.context.State()).(Articles := old(service.context.Articles)[res.body.Id := res.body.(Tags := Persisted(res.body.Tags))],
        NextArticleId := old(service.context.NextArticleId) + 1)
    {
      var created := service.CreateArticle(article, now);
      res := FromCreate(created.Id, created);
    }

    method UpdateArticle(id: int, article: Article) returns (res: ActionResult<Article>)
      requires service.context.Valid()
      modifies service.context
      ensures service.context.Valid()
      ensures res.NotFound? <==> id !in old(service.context.Articles)
      ensures res.Ok? ==> res.body == UpdatedArticle(old(service.context.Articles[id]), article)
      ensures res.Ok? || res.NotFound?
      ensures res.Ok? ==> service.context.State() == old(service.context.State()).(Articles := old(service.context.Articles)[id := res.body.(Tags := Persisted(res.body.Tags))])
      ensures res.NotFound? ==> service.context.State() == old(service.context.State())
    {
      var updated := service.UpdateArticle(id, article);
      res := FromLookup(updated);
    }

    method DeleteArticle(id: int) returns (res: ActionResult<()>)
      requires service.context.Valid()
      modifies service.context
      ensures service.context.Valid()
      ensures res.NoContent? <==> id in old(service.context.Articles)
      ensures res.NotFound? <==> id !in old(service.context.Articles)
      ensures id !in service.context.Articles
      ensures service.context.State() == old(service.context.State()).(Articles := old(service.context.Articles) - {id})
    {
      var deleted := service.DeleteArticle(id);
      res := FromDelete(deleted);
    }
  }

  /** `VideosController`. */
  class VideosController {
    const service: VideoService

    constructor (service: VideoService)
      ensures this.service == service
    {
      this.service := service;
    }

    method GetAllVideos() returns (res: ActionResult<seq<Video>>, ghost keys: seq<int>)
      requires service.context.Valid()
      ensures res.Ok?
      ensures Listing.IsListingOf(service.context.Videos, Listing.Everything, res.body, keys)
      ensures Listing.NewestFirst(res.body, VideoDate)
    {
      var rows;
      rows, keys := service.GetAllVideos();
      res := Ok(rows);
    }

    method GetVideo(id: int) returns (res: ActionResult<Video>)
      requires service.context.Valid()
      modifies service.context
      ensures service.context.Valid()
      ensures res.NotFound? <==> id !in old(service.context.Videos)
      ensures res.Ok? ==> res.body == ViewedVideo(old(service.context.Videos[id]))
      ensures res.Ok? || res.NotFound?
      ensures res.Ok? ==> service.context.State() == old(service.context.State()).(Videos := old(service.context.Videos)[id := res.body])
      ensures res.NotFound? ==> service.context.State() == old(service.context.State())
    {
      var video := service.GetVideoById(id);
      res := FromLookup(video);
    }

    method GetVideosByCategory(category: string) returns (res: ActionResult<seq<Video>>, ghost keys: seq<int>)
      requires service.context.Valid()
      ensures res.Ok?
      ensures Listing.IsListingOf(service.context.Videos, VideoInCategory(service.context.Categories, category), res.body, keys)
      ensures Listing.NewestFirst(res.body, VideoDate)
    {
      var rows;
      rows, keys := service.GetVideosByCategory(category);
      res := Ok(rows);
    }

    method CreateVideo(video: Video, now: DateTime) returns (res: ActionResult<Video>)
      requires service.context.Valid()
      modifies service.context
      ensures service.context.Valid()
      ensures res.Created? && res.id == res.body.Id == old(service.context.NextVideoId)
      ensures res.body.Id in service.context.Videos
      ensures res.body == video.(Id := old(service.context.NextVideoId), PublishedDate := now, Views := 0)
      ensures service.context.State() == old(service.context.State()).(Videos := old(service.context.Videos)[res.body.Id := res.body.(Tags := Persisted(res.body.Tags))],
        NextVideoId := old(service.context.NextVideoId) + 1)
    {
      var created := service.CreateVideo(video, now);
      res := FromCreate(created.Id, created);
    }

    method UpdateVideo(id: int, video: Video) returns (res: ActionResult<Video>)
      requires service.context.Valid()
      modifies service.context
      ensures service.context.Valid()
      ensures res.NotFound? <==> id !in old(service.context.Videos)
      ensures res.Ok? ==> res.body == UpdatedVideo(old(service.context.Videos[id]), video)
      ensures res.Ok? || res.NotFound?
      ensures res.Ok? ==> service.context.State() == old(service.context.State()).(Videos := old(service.context.Videos)[id := res.body.(Tags := Persisted(res.body.Tags))])
      ensures res.NotFound? ==> service.context.State() == old(service.context.State())
    {
      var updated := service.UpdateVideo(id, video);
      res := FromLookup(updated);
    }

    method DeleteVideo(id: int) returns (res: ActionResult<()>)
      requires service.context.Valid()
      modifies service.context
      ensures service.context.Valid()
      ensures res.NoContent? <==> id in old(service.context.Videos)
      ensures res.NotFound? <==> id !in old(service.context.Videos)
      ensures id !in service.context.Videos
      ensures service.context.State() == old(service.context.State()).(Videos := old(service.context.Videos) - {id})
    {
      var deleted := service.DeleteVideo(id);
      res := FromDelete(deleted);
    }
  }

  /** `QuestionsController`. */
  class QuestionsController {
    const service: QnAService

    constructor (service: QnAService)
      ensures this.service == service
    {
      this.service := service;
    }

    method GetAllQuestions() returns (res: ActionResult<seq<Question>>, ghost keys: seq<int>)
      requires service.context.Valid()
      ensures res.Ok?
      ensures Listing.IsListingOf(service.context.Questions, Listing.Everything, res.body, keys)
      ensures Listing.NewestFirst(res.body, QuestionDate)
    {
      var rows;
      rows, keys := service.GetAllQuestions();
      res := Ok(rows);
    }

    /** The body is the question with its answers. */
    method GetQuestion(id: int) returns (res: ActionResult<(Question, map<int, Answer>)>)
      requires service.context.Valid()
      modifies service.context
      ensures service.context.Valid()
      ensures res.NotFound? <==> id !in old(service.context.Questions)
      ensures res.Ok? ==> res.body == (ViewedQuestion(old(service.context.Questions[id])), AnswersOf(old(service.context.Answers), id))
      ensures res.Ok? || res.NotFound?
      ensures res.Ok? ==> service.context.State() == old(service.context.State()).(Questions := old(service.context.Questions)[id := res.body.0])
      ensures res.NotFound? ==> service.context.State() == old(service.context.State())
    {
      var question, answers := service.GetQuestionById(id);
      res := if question.None? then NotFound else Ok((question.value, answers));
    }

    method GetQuestionsByCategory(category: string) returns (res: ActionResult<seq<Question>>, ghost keys: seq<int>)
      requires service.context.Valid()
      ensures res.Ok?
      ensures Listing.IsListingOf(service.context.Questions, QuestionInCategory(service.context.Categories, category), res.body, keys)
      ensures Listing.NewestFirst(res.body, QuestionDate)
    {
      var rows;
      rows, keys := service.GetQuestionsByCategory(category);
      res := Ok(rows);
    }

    method CreateQuestion(question: Question, posted: seq<Answer>, now: DateTime) returns (res: ActionResult<Question>)
      requires service.context.Valid()
      modifies service.context
      ensures service.context.Valid()
      ensures res.Created? && res.id == res.body.Id == old(service.context.NextQuestionId)
      ensures res.body.Id in service.context.Questions
      ensures res.body == question.(Id := old(service.context.NextQuestionId), AskedDate := now, Views := 0)
      ensures service.context.State() == old(service.context.State()).(Questions := old(service.context.Questions)[res.body.Id := res.body.(Tags := Persisted(res.body.Tags))],
        Answers := old(service.context.Answers) + FreshAnswers(posted, res.body.Id, old(service.context.NextAnswerId)),
        NextQuestionId := old(service.context.NextQuestionId) + 1,
        NextAnswerId := old(service.context.NextAnswerId) + |posted|)
    {
      var created := service.CreateQuestion(question, posted, now);
      res := FromCreate(created.Id, created);
    }

    method AddAnswer(id: int, answer: Answer, now: DateTime) returns (res: ActionResult<Answer>)
      requires service.context.Valid()
      modifies service.context
      ensures service.context.Valid()
      ensures res.NotFound? <==> id !in old(service.context.Questions)
      ensures res.NotFound? ==> service.context.State() == old(service.context.State())
      ensures res.Ok? ==> res.body == NewAnswer(answer, old(service.context.NextAnswerId), id, now)
      ensures res.Ok? || res.NotFound?
      ensures res.Ok? ==> service.context.State() == old(service.context.State()).(Answers := old(service.context.Answers)[res.body.Id := res.body],
        NextAnswerId := old(service.context.NextAnswerId) + 1)
    {
      var created := service.AddAnswer(id, answer, now);
      res := FromAddAnswer(created);
    }

    method AcceptAnswer(questionId: int, answerId: int) returns (res: ActionResult<Answer>)
      requires service.context.Valid()
      modifies service.context
      ensures service.context.Valid()
      ensures res.NotFound? <==> !(questionId in old(service.context.Questions) && Belongs(old(service.context.Answers), questionId, answerId))
      ensures res.NotFound? ==> service.context.State() == old(service.context.State())
      ensures res.Ok? ==> res.body == old(service.context.Answers[answerId]).(IsAccepted := true)
      ensures res.Ok? || res.NotFound?
      ensures res.Ok? ==> service.context.State() == old(service.context.State()).(Answers := Accept(old(service.context.Answers), questionId, answerId))
    {
      var accepted := service.AcceptAnswer(questionId, answerId);
      res := FromLookup(accepted);
    }

    method DeleteQuestion(id: int) returns (res: ActionResult<()>)
      requires service.context.Valid()
      modifies service.context
      ensures service.context.Valid()
      ensures res.NoContent? <==> id in old(service.context.Questions)
      ensures res.NotFound? <==> id !in old(service.context.Questions)
      ensures id !in service.context.Questions && AnswersOf(service.context.Answers, id) == map[]
      ensures res.NoContent? ==> service.context.State() == old(service.context.State()).(Questions := old(service.context.Questions) - {id},
        Answers := WithoutAnswersOf(old(service.context.Answers), id))
      ensures res.NotFound? ==> service.context.State() == old(service.context.State())
    {
      var deleted := service.DeleteQuestion(id);
      if deleted {
        CascadeRemovesAnswersOf(old(service.context.Answers), id);
      } else {
        assert service.context.State().Valid();
        assert forall k :: k in service.context.Answers ==> service.context.Answers[k].QuestionId != id;
      }
      res := FromDelete(deleted);
    }
  }
}
