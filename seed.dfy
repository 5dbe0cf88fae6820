/** backend/Data/SeedData.cs: `Initialize` fills each of the Articles, Videos
    and Questions tables with sample rows, but only a table that is empty. The
    sample texts (titles, bodies, authors, URLs) are not part of this model;
    view counts, dates, durations, tags and the answers' flags are. The sample
    rows name their category by a free-text field, so they carry no category
    reference here. */
module Seed {
  import opened Wrappers
  import opened Models
  import opened Data

  function DaysAgo(now: DateTime, days: int): DateTime
  {
    now - days * SecondsPerDay
  }

  function SampleArticle(id: int, published: DateTime, views: Int32, tags: seq<string>): Article
  {
    Article(id, "", "", "", None, "", published, views, tags)
  }

  function SampleVideo(id: int, published: DateTime, views: Int32, minutes: nat, tags: seq<string>): Video
  {
    Video(id, "", "", "", "", None, "", published, views, minutes * 60, tags)
  }

  function SampleQuestion(id: int, asked: DateTime, views: Int32, tags: seq<string>): Question
  {
    Question(id, "", "", "", None, asked, views, tags)
  }

  function SampleAnswer(id: int, question: int, answered: DateTime, votes: Int32, accepted: bool): Answer
  {
    Answer(id, question, "", "", answered, votes, accepted)
  }

  // The sample tag lists.
  const PillarsTags: seq<string> := ["pillars", "basics", "islam", "faith"]
  const TawheedTags: seq<string> := ["tawheed", "aqeedah", "belief", "monotheism"]
  const NamesTags: seq<string> := ["names", "attributes", "allah", "99-names"]
  const ProphetTags: seq<string> := ["prophet", "muhammad", "seerah", "biography"]
  const BasicsVideoTags: seq<string> := ["islam", "basics", "education", "beginners"]
  const SalahTags: seq<string> := ["salah", "prayer", "worship", "tutorial"]
  const WuduTags: seq<string> := ["wudu", "purification", "fiqh", "worship"]
  const QuranTags: seq<string> := ["quran", "spirituality", "connection", "recitation"]
  const MawlidTags: seq<string> := ["mawlid", "celebration", "fiqh", "bidah"]

  lemma ArticleTagsStorable()
    ensures StorableTags(PillarsTags) && StorableTags(TawheedTags)
    ensures StorableTags(NamesTags) && StorableTags(ProphetTags)
  {
  }

  lemma VideoTagsStorable()
    ensures StorableTags(BasicsVideoTags) && StorableTags(ProphetTags) && StorableTags(SalahTags)
  {
  }

  lemma QuestionTagsStorable()
    ensures StorableTags(WuduTags) && StorableTags(QuranTags) && StorableTags(MawlidTags)
  {
  }

  /** The four sample articles, under keys `first` .. `first + 3`. */
  function SeedArticles(first: int, now: DateTime): map<int, Article>
  {
    map[first := SampleArticle(first, DaysAgo(now, 5), 2834, PillarsTags),
        first + 1 := SampleArticle(first + 1, DaysAgo(now, 3), 1967, TawheedTags),
        first + 2 := SampleArticle(first + 2, DaysAgo(now, 7), 3421, NamesTags),
        first + 3 := SampleArticle(first + 3, DaysAgo(now, 2), 2156, ProphetTags)]
  }

  /** The three sample videos (45, 52 and 38 minutes long). */
  function SeedVideos(first: int, now: DateTime): map<int, Video>
  {
    map[first := SampleVideo(first, DaysAgo(now, 10), 8432, 45, BasicsVideoTags),
        first + 1 := SampleVideo(first + 1, DaysAgo(now, 6), 12510, 52, ProphetTags),
        first + 2 := SampleVideo(first + 2, DaysAgo(now, 4), 15867, 38, SalahTags)]
  }

  /** The three sample questions. */
  function SeedQuestions(first: int, now: DateTime): map<int, Question>
  {
    map[first := SampleQuestion(first, DaysAgo(now, 8), 856, WuduTags),
        first + 1 := SampleQuestion(first + 1, DaysAgo(now, 5), 1234, QuranTags),
        first + 2 := SampleQuestion(first + 2, DaysAgo(now, 3), 2167, MawlidTags)]
  }

  /** Their answers, inserted with the questions: two for the first question
      (the first accepted), one accepted answer for each of the others. */
  function SeedAnswers(question: int, first: int, now: DateTime): map<int, Answer>
  {
    map[first := SampleAnswer(first, question, DaysAgo(now, 7), 24, true),
        first + 1 := SampleAnswer(first + 1, question, DaysAgo(now, 7), 12, false),
        first + 2 := SampleAnswer(first + 2, question + 1, DaysAgo(now, 4), 31, true),
        first + 3 := SampleAnswer(first + 3, question + 2, DaysAgo(now, 2), 18, true)]
  }

  /** Each step of `Initialize`: a table that is empty receives its samples. */
  function WithArticles(s: Store, now: DateTime): Store
  {
    if s.Articles == map[] then
      s.(Articles := SeedArticles(s.NextArticleId, now), NextArticleId := s.NextArticleId + 4)
    else s
  }

  function WithVideos(s: Store, now: DateTime): Store
  {
    if s.Videos == map[] then
      s.(Videos := SeedVideos(s.NextVideoId, now), NextVideoId := s.NextVideoId + 3)
    else s
  }

  /** The questions are inserted with their answers. */
  function WithQuestions(s: Store, now: DateTime): Store
  {
    if s.Questions == map[] then
      s.(Questions := SeedQuestions(s.NextQuestionId, now),
         Answers := s.Answers + SeedAnswers(s.NextQuestionId, s.NextAnswerId, now),
         NextQuestionId := s.NextQuestionId + 3,
         NextAnswerId := s.NextAnswerId + 4)
    else s
  }

  /** The store after `Initialize`. */
  function Seeded(s: Store, now: DateTime): Store
  {
    WithQuestions(WithVideos(WithArticles(s, now), now), now)
  }

  /** `SeedData.Initialize(context)`, with `DateTime.Now` as `now`. */
  method Initialize(context: MediaPortalContext, now: DateTime)
    requires context.Valid()
    modifies context
    ensures context.Valid()
    ensures context.State() == Seeded(old(context.State()), now)
  {
    SeededValid(context.State(), now);
    SeedArticlesTable(context, now);
    SeedVideosTable(context, now);
    SeedQuestionsTable(context, now);
  }

  /** The first block of `Initialize`: articles, if there are none. */
  method SeedArticlesTable(context: MediaPortalContext, now: DateTime)
    modifies context
    ensures context.State() == WithArticles(old(context.State()), now)
  {
    if context.Articles == map[] {
      context.Articles := SeedArticles(context.NextArticleId, now);
      context.NextArticleId := context.NextArticleId + 4;
    }
  }

  /** The second block: videos, if there are none. */
  method SeedVideosTable(context: MediaPortalContext, now: DateTime)
    modifies context
    ensures context.State() == WithVideos(old(context.State()), now)
  {
    if context.Videos == map[] {
      context.Videos := SeedVideos(context.NextVideoId, now);
      context.NextVideoId := context.NextVideoId + 3;
    }
  }

  /** The third block: questions with their answers, if there are no questions. */
  method SeedQuestionsTable(context: MediaPortalContext, now: DateTime)
    modifies context
    ensures context.State() == WithQuestions(old(context.State()), now)
  {
    if context.Questions == map[] {
      context.Questions := SeedQuestions(context.NextQuestionId, now);
      context.Answers := context.Answers + SeedAnswers(context.NextQuestionId, context.NextAnswerId, now);
      context.NextQuestionId := context.NextQuestionId + 3;
      context.NextAnswerId := context.NextAnswerId + 4;
    }
  }

  /** The sample articles are stored under their own ids, `first` .. `first + 3`,
      with storable tags. */
  lemma SeedArticlesRows(first: int, now: DateTime)
    ensures forall k :: k in SeedArticles(first, now) <==> first <= k < first + 4
    ensures forall k :: k in SeedArticles(first, now) ==>
      SeedArticles(first, now)[k].Id == k && StorableTags(SeedArticles(first, now)[k].Tags)
  {
    ArticleTagsStorable();
  }

  lemma SeedVideosRows(first: int, now: DateTime)
    ensures forall k :: k in SeedVideos(first, now) <==> first <= k < first + 3
    ensures forall k :: k in SeedVideos(first, now) ==>
      SeedVideos(first, now)[k].Id == k && StorableTags(SeedVideos(first, now)[k].Tags)
  {
    VideoTagsStorable();
  }

  lemma SeedQuestionsRows(first: int, now: DateTime)
    ensures forall k :: k in SeedQuestions(first, now) <==> first <= k < first + 3
    ensures forall k :: k in SeedQuestions(first, now) ==>
      SeedQuestions(first, now)[k].Id == k && StorableTags(SeedQuestions(first, now)[k].Tags)
  {
    QuestionTagsStorable();
  }

  /** The sample answers are stored under their own ids, `first` .. `first + 3`,
      refer to the three sample questions and accept at most one answer each. */
  lemma SeedAnswersRows(question: int, first: int, now: DateTime)
    ensures forall k :: k in SeedAnswers(question, first, now) <==> first <= k < first + 4
    ensures forall k :: k in SeedAnswers(question, first, now) ==>
      SeedAnswers(question, first, now)[k].Id == k
      && question <= SeedAnswers(question, first, now)[k].QuestionId < question + 3
    ensures AtMostOneAccepted(SeedAnswers(question, first, now))
  {
  }

  /** With no questions a valid store has no answers. */
  lemma NoQuestionsNoAnswers(s: Store)
    requires s.Valid() && s.Questions == map[]
    ensures s.Answers == map[]
  {
    assert forall k :: k !in s.Answers;
    assert s.Answers.Keys == {};
  }

  lemma ArticlesStep(s: Store, now: DateTime)
    requires s.Valid()
    ensures WithArticles(s, now).Valid()
  {
    SeedArticlesRows(s.NextArticleId, now);
  }

  lemma VideosStep(s: Store, now: DateTime)
    requires s.Valid()
    ensures WithVideos(s, now).Valid()
  {
    SeedVideosRows(s.NextVideoId, now);
  }

  lemma QuestionsStep(s: Store, now: DateTime)
    requires s.Valid()
    ensures WithQuestions(s, now).Valid()
  {
    if s.Questions == map[] {
      NoQuestionsNoAnswers(s);
      SeedQuestionsRows(s.NextQuestionId, now);
      SeedAnswersRows(s.NextQuestionId, s.NextAnswerId, now);
      assert s.Answers + SeedAnswers(s.NextQuestionId, s.NextAnswerId, now)
          == SeedAnswers(s.NextQuestionId, s.NextAnswerId, now);
    }
  }

  /** Seeding keeps the store valid. */
  lemma SeededValid(s: Store, now: DateTime)
    requires s.Valid()
    ensures Seeded(s, now).Valid()
  {
    ArticlesStep(s, now);
    VideosStep(WithArticles(s, now), now);
    QuestionsStep(WithVideos(WithArticles(s, now), now), now);
  }

  /** A table that already has rows is left alone. */
  lemma SeededGuards(s: Store, now: DateTime)
    ensures s.Articles != map[] ==> Seeded(s, now).Articles == s.Articles && Seeded(s, now).NextArticleId == s.NextArticleId
    ensures s.Videos != map[] ==> Seeded(s, now).Videos == s.Videos && Seeded(s, now).NextVideoId == s.NextVideoId
    ensures s.Questions != map[] ==> Seeded(s, now).Questions == s.Questions && Seeded(s, now).Answers == s.Answers
    ensures Seeded(s, now).Users == s.Users && Seeded(s, now).Categories == s.Categories
  {
  }

  /** After seeding, none of the three tables is empty. */
  lemma SeededFilled(s: Store, now: DateTime)
    ensures Seeded(s, now).Articles != map[]
    ensures Seeded(s, now).Videos != map[]
    ensures Seeded(s, now).Questions != map[]
  {
    var a := WithArticles(s, now);
    var v := WithVideos(a, now);
    assert a.Articles != map[] by {
      if s.Articles == map[] {
        assert s.NextArticleId in a.Articles;
      }
    }
    assert v.Videos != map[] by {
      if a.Videos == map[] {
        assert a.NextVideoId in v.Videos;
      }
    }
    assert WithQuestions(v, now).Questions != map[] by {
      if v.Questions == map[] {
        assert v.NextQuestionId in WithQuestions(v, now).Questions;
      }
    }
  }

  /** A store whose three tables have rows is left alone. */
  lemma SeededFull(t: Store, later: DateTime)
    requires t.Articles != map[] && t.Videos != map[] && t.Questions != map[]
    ensures Seeded(t, later) == t
  {
  }

  /** `Initialize` is idempotent: a second call, at any time, adds nothing. */
  lemma SeededIdempotent(s: Store, now: DateTime, later: DateTime)
    ensures Seeded(Seeded(s, now), later) == Seeded(s, now)
  {
    SeededFilled(s, now);
    SeededFull(Seeded(s, now), later);
  }

  /** On an empty store: 4 articles, 3 videos and 3 questions, carrying 2, 1
      and 1 answers, each question with exactly one accepted answer. */
  lemma SeededEmptyStore(now: DateTime)
    ensures |Seeded(EmptyStore, now).Articles| == 4
    ensures |Seeded(EmptyStore, now).Videos| == 3
    ensures |Seeded(EmptyStore, now).Questions| == 3
    ensures |AnswersOf(Seeded(EmptyStore, now).Answers, 1)| == 2
    ensures |AnswersOf(Seeded(EmptyStore, now).Answers, 2)| == 1
    ensures |AnswersOf(Seeded(EmptyStore, now).Answers, 3)| == 1
  {
    var t := Seeded(EmptyStore, now);
    assert t.Articles == SeedArticles(1, now);
    assert t.Videos == SeedVideos(1, now);
    assert t.Questions == SeedQuestions(1, now);
    assert t.Answers == SeedAnswers(1, 1, now);
    SeedSizes(1, 1, now);
  }

  lemma SeedSizes(question: int, first: int, now: DateTime)
    ensures |SeedArticles(first, now)| == 4
    ensures |SeedVideos(first, now)| == 3
    ensures |SeedQuestions(first, now)| == 3
    ensures |AnswersOf(SeedAnswers(question, first, now), question)| == 2
    ensures |AnswersOf(SeedAnswers(question, first, now), question + 1)| == 1
    ensures |AnswersOf(SeedAnswers(question, first, now), question + 2)| == 1
  {
    SeedTableSizes(first, now);
    SeedAnswerSizes(question, first, now);
  }

  lemma SeedTableSizes(first: int, now: DateTime)
    ensures |SeedArticles(first, now)| == 4
    ensures |SeedVideos(first, now)| == 3
    ensures |SeedQuestions(first, now)| == 3
  {
    assert SeedArticles(first, now).Keys == {first, first + 1, first + 2, first + 3};
    assert SeedVideos(first, now).Keys == {first, first + 1, first + 2};
    assert SeedQuestions(first, now).Keys == {first, first + 1, first + 2};
  }

  lemma SeedAnswerSizes(question: int, first: int, now: DateTime)
    ensures |AnswersOf(SeedAnswers(question, first, now), question)| == 2
    ensures |AnswersOf(SeedAnswers(question, first, now), question + 1)| == 1
    ensures |AnswersOf(SeedAnswers(question, first, now), question + 2)| == 1
  {
    var answers := SeedAnswers(question, first, now);
    assert AnswersOf(answers, question).Keys == {first, first + 1};
    assert AnswersOf(answers, question + 1).Keys == {first + 2};
    assert AnswersOf(answers, question + 2).Keys == {first + 3};
  }

  /** Every seeded question has exactly one accepted answer. */
  lemma SeededOneAcceptedEach(question: int, first: int, now: DateTime)
    ensures forall q :: q in SeedQuestions(question, now) ==>
      exists a :: a in SeedAnswers(question, first, now) && SeedAnswers(question, first, now)[a].QuestionId == q
                  && SeedAnswers(question, first, now)[a].IsAccepted
    ensures AtMostOneAccepted(SeedAnswers(question, first, now))
  {
    var answers := SeedAnswers(question, first, now);
    forall q | q in SeedQuestions(question, now)
      ensures exists a :: a in answers && answers[a].QuestionId == q && answers[a].IsAccepted
    {
      var a := if q == question then first else if q == question + 1 then first + 2 else first + 3;
      assert a in answers && answers[a].QuestionId == q && answers[a].IsAccepted;
    }
  }

  /** Seeded view counts are non-negative, seeded durations positive, seeded
      dates in the past. */
  lemma SeededCounters(first: int, now: DateTime)
    ensures forall k :: k in SeedArticles(first, now) ==> SeedArticles(first, now)[k].Views >= 0 && SeedArticles(first, now)[k].PublishedDate < now
    ensures forall k :: k in SeedVideos(first, now) ==> SeedVideos(first, now)[k].Views >= 0 && SeedVideos(first, now)[k].Duration > 0
    ensures forall k :: k in SeedQuestions(first, now) ==> SeedQuestions(first, now)[k].Views >= 0
  {
  }
}
