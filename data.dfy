/** backend/Data/MediaPortalContext.cs: the tables of the store, the value
    conversion of the `Tags` column and the Question -> Answer relation. */
module Data {
  import opened Wrappers
  import opened Models
  import Strings

  // ---------------------------------------------------------------------------
  // The `Tags` value converter, the same for Article, Video and Question

  /** Writing a tag list into its column: `string.Join(',', v)`. */
  function EncodeTags(tags: seq<string>): string
  {
    Strings.Join(tags, ",")
  }

  /** Reading a column back: `v.Split(',', StringSplitOptions.RemoveEmptyEntries)`. */
  function DecodeTags(column: string): (tags: seq<string>)
    ensures forall i :: 0 <= i < |tags| ==> StorableTag(tags[i])
    ensures |tags| <= Strings.Count(column, ',') + 1
  {
    var pieces := Strings.Split(column, ',');
    var tags := Strings.RemoveEmpty(pieces);
    assert forall i :: 0 <= i < |tags| ==> tags[i] in pieces;
    tags
  }

  /** A tag that survives the round trip through its column unchanged. */
  predicate StorableTag(t: string)
  {
    t != "" && ',' !in t
  }

  predicate StorableTags(tags: seq<string>)
  {
    forall i :: 0 <= i < |tags| ==> StorableTag(tags[i])
  }

  /** The tag list that a later read of a saved row sees. */
  function Persisted(tags: seq<string>): (stored: seq<string>)
    ensures StorableTags(stored)
  {
    DecodeTags(EncodeTags(tags))
  }

  lemma EmptyTagList()
    ensures EncodeTags([]) == ""
    ensures DecodeTags("") == []
  {
  }

  /** Round trip: non-empty, comma-free tags are read back exactly. */
  lemma DecodeEncode(tags: seq<string>)
    requires StorableTags(tags)
    ensures DecodeTags(EncodeTags(tags)) == tags
  {
    if tags != [] {
      Strings.SplitJoin(tags, ',');
      Strings.RemoveEmptyKeepsNonEmpty(tags);
    }
  }

  /** A tag list is read back unchanged exactly when all of its tags are storable. */
  lemma PersistedUnchangedIff(tags: seq<string>)
    ensures Persisted(tags) == tags <==> StorableTags(tags)
  {
    if StorableTags(tags) {
      DecodeEncode(tags);
    }
  }

  /** Saving a row a second time (after `Views++`, say) leaves its tags alone. */
  lemma PersistedIdempotent(tags: seq<string>)
    ensures Persisted(Persisted(tags)) == Persisted(tags)
  {
    DecodeEncode(Persisted(tags));
  }

  /** The column of n >= 1 tags holds their characters and n - 1 commas. */
  lemma EncodedLength(tags: seq<string>)
    requires |tags| >= 1
    ensures |EncodeTags(tags)| == Strings.SumLengths(tags) + |tags| - 1
  {
    Strings.JoinLength(tags, ",");
  }

  // ---------------------------------------------------------------------------
  // The Question -> Answer relation (`HasMany(q => q.Answers)`, foreign key `QuestionId`)

  /** The answers of question `q`, keyed by answer id. */
  function AnswersOf(answers: map<int, Answer>, q: int): (mine: map<int, Answer>)
    ensures forall k :: k in mine <==> k in answers && answers[k].QuestionId == q
  {
    map k | k in answers && answers[k].QuestionId == q :: answers[k]
  }

  /** No question has two accepted answers. */
  ghost predicate AtMostOneAccepted(answers: map<int, Answer>)
  {
    forall a, b ::
      (a in answers && b in answers && answers[a].IsAccepted && answers[b].IsAccepted
       && answers[a].QuestionId == answers[b].QuestionId) ==> a == b
  }

  /** The name of the category a row refers to, if the reference resolves. */
  function CategoryName(categories: map<int, Category>, id: Option<int>): (name: Option<string>)
    ensures name.Some? <==> id.Some? && id.value in categories
    ensures name.Some? ==> name.value == categories[id.value].Name
  {
    if id.Some? && id.value in categories then Some(categories[id.value].Name) else None
  }

  /** The contents of the store: one map per table (keyed by the primary key),
      the Users table in insertion order, and the next key that each table's
      value generator hands out. */
  datatype Store = Store(
    Articles: map<int, Article>,
    Videos: map<int, Video>,
    Questions: map<int, Question>,
    Answers: map<int, Answer>,
    Users: seq<User>,
    Categories: map<int, Category>,
    NextArticleId: int,
    NextVideoId: int,
    NextQuestionId: int,
    NextAnswerId: int,
    NextUserId: int,
    NextCategoryId: int)
  {
    /** Keys are the rows' ids and lie between 1 and the next generated key;
        stored tags went through the converter; every answer belongs to an
        existing question and no question has two accepted answers; user
        names are unique. */
    ghost predicate Valid()
    {
      && 1 <= NextArticleId && 1 <= NextVideoId && 1 <= NextQuestionId
      && 1 <= NextAnswerId && 1 <= NextUserId && 1 <= NextCategoryId
      && (forall k :: k in Articles ==> Articles[k].Id == k && 0 < k < NextArticleId && StorableTags(Articles[k].Tags))
      && (forall k :: k in Videos ==> Videos[k].Id == k && 0 < k < NextVideoId && StorableTags(Videos[k].Tags))
      && (forall k :: k in Questions ==> Questions[k].Id == k && 0 < k < NextQuestionId && StorableTags(Questions[k].Tags))
      && (forall k :: k in Answers ==> Answers[k].Id == k && 0 < k < NextAnswerId && Answers[k].QuestionId in Questions)
      && AtMostOneAccepted(Answers)
      && (forall k :: k in Categories ==> Categories[k].Id == k && 0 < k < NextCategoryId)
      && (forall i :: 0 <= i < |Users| ==> 0 < Users[i].Id < NextUserId)
      && (forall i, j :: 0 <= i < j < |Users| ==> Users[i].Username != Users[j].Username)
    }
  }

  /** The empty store; every value generator starts at 1. */
  const EmptyStore: Store := Store(map[], map[], map[], map[], [], map[], 1, 1, 1, 1, 1, 1)

  /** The `DbContext`: its `DbSet` tables are fields that the services update
      in place. */
  class MediaPortalContext {
    var Articles: map<int, Article>
    var Videos: map<int, Video>
    var Questions: map<int, Question>
    var Answers: map<int, Answer>
    var Users: seq<User>
    var Categories: map<int, Category>
    var NextArticleId: int
    var NextVideoId: int
    var NextQuestionId: int
    var NextAnswerId: int
    var NextUserId: int
    var NextCategoryId: int

    /** The current contents of all tables. */
    function State(): Store
      reads this
    {
      Store(Articles, Videos, Questions, Answers, Users, Categories,
            NextArticleId, NextVideoId, NextQuestionId, NextAnswerId, NextUserId, NextCategoryId)
    }

    ghost predicate Valid()
      reads this
    {
      State().Valid()
    }

    /** A fresh, empty store. */
    constructor ()
      ensures State() == EmptyStore
      ensures Valid()
    {
      Articles, Videos, Questions, Answers := map[], map[], map[], map[];
      Users, Categories := [], map[];
      NextArticleId, NextVideoId, NextQuestionId := 1, 1, 1;
      NextAnswerId, NextUserId, NextCategoryId := 1, 1, 1;
    }
  }
}
