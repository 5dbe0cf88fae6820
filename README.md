# Islamic Dawah Portal: a Dafny model of its content store and admin helpers

The portal serves three kinds of content (articles, videos, questions with
answers) from an ASP.NET back end over an Entity Framework store, and gives
administrators React pages to edit them. This project models the parts of
the system that carry rules:

- **The store** (`data.dfy`, module `Data`). `MediaPortalContext` is a class
  whose fields are the tables: a map from primary key to row for each table,
  the Users table as a sequence in insertion order, and a next-key counter per
  table. `Store.Valid()` is the invariant every operation keeps:
  - every row is stored under its own id;
  - stored tags went through the column converter;
  - every answer belongs to an existing question;
  - no question has two accepted answers;
  - user names are unique.
  The `Tags` column converter (`EncodeTags`/`DecodeTags`) has its round trip
  proved.
- **The services** (`services.dfy`): `ArticleService`, `VideoService` and
  `QnAService`, as methods that update the context in place.
  - The date-ordered listing queries are the generic method
    `Listing.OrderByDescending` (`listing.dfy`).
  - The answer-table transformations (`Accept`, `WithoutAnswersOf`,
    `NewAnswer`) carry lemmas showing that the accepted-answer invariant is
    kept.
- **The controllers** (`controllers.dfy`, `categories.dfy`): how service
  results become HTTP responses, and the Categories table administration.
- **Authentication** (`auth.dfy`):
  - the hex formatting of the password digest;
  - the login decision, including the built-in administrator fallback;
  - registration.
  The digest function and the token signer are parameters.
- **Seeding** (`seed.dfy`): `SeedData.Initialize` with its empty-table guards.
- **Front-end helpers**:
  - `video_manager.dfy`: the duration display, the minutes/seconds
    conversion, and the `parseInt(value) || 0` duration field of
    `VideoManager.jsx`;
  - `tag_input.dfy` and `article_manager.dfy`: the comma-separated tag field
    shared by both admin forms;
  - `question_detail.dfy`: the answer ordering and the "Answered" badge of
    `QuestionDetail.jsx`.

Strings are `seq<char>`. C# `int` counters (`Views`, `Votes`) are the 32-bit
`Models.Int32`, and `Views++` wraps (`Models.Increment`). Dates are integers
(seconds), and the clock (`DateTime.Now`) is a parameter `now`.

A row refers to its category through an optional `CategoryId` that is looked
up in the Categories table. A row without a category, or with an id that does
not resolve, never matches a category filter. `Models.cs` declares a string
`Category` on the records, while the services navigate `Category.Name` and
`CategoryId`. The model follows the services. Category names are compared
exactly (`==`), as the LINQ `Where` clauses do; they are not compared
case-insensitively.

## Model

| member | source | states |
|---|---|---|
| Models.Increment | backend/Services/Services.cs:32 | a view counter below the 32-bit maximum grows by exactly one; at the maximum it wraps to the minimum |
| Data.EncodeTags | backend/Data/MediaPortalContext.cs:28 | the column text of a tag list: the tags joined by ','; DecodeEncode and EncodedLength state what it keeps |
| Data.Persisted | backend/Data/MediaPortalContext.cs:25-41 | the tag list a later read of a saved row sees is always storable: no tag empty or holding a comma |
| Data.DecodeTags | backend/Data/MediaPortalContext.cs:29 | no decoded tag is empty or contains ','; at most one tag per comma-separated piece |
| Data.EmptyTagList | backend/Data/MediaPortalContext.cs:28-29 | the empty list is written as "" and "" reads back as the empty list |
| Data.DecodeEncode | backend/Data/MediaPortalContext.cs:25-41 | decode(encode(tags)) == tags when each tag is non-empty and ','-free |
| Data.PersistedUnchangedIff | backend/Data/MediaPortalContext.cs:25-41 | a tag list survives a save unchanged exactly when all its tags are non-empty and ','-free |
| Data.PersistedIdempotent | backend/Data/MediaPortalContext.cs:25-41 | saving a row a second time does not change its tags again |
| Data.EncodedLength | backend/Data/MediaPortalContext.cs:28 | for n >= 1 tags the column holds their characters plus n - 1 commas |
| Data.Store.Valid | backend/Data/MediaPortalContext.cs:6-47 | the store invariant: every row is stored under its own id below its key generator, stored tags went through the converter, every answer belongs to an existing question, no question has two accepted answers, usernames are unique |
| Data.AnswersOf | backend/Data/MediaPortalContext.cs:43-46 | a question's answers are exactly the rows whose foreign key QuestionId names it |
| Data.CategoryName | backend/Services/Services.cs:42 | a row has a category name exactly when its reference resolves, and then it is that category's name |
| Data.MediaPortalContext.constructor | backend/Data/MediaPortalContext.cs:6-19 | a fresh context has empty tables and satisfies the store invariant |
| Listing.OrderByDescending | backend/Services/Services.cs:18-21 | lists every row that passes the filter exactly once, and no other row, with dates non-increasing |
| Listing.ListingLength | backend/Services/Services.cs:18-21 | an unfiltered listing has as many rows as the table |
| Services.InCategory | backend/Services/Services.cs:42 | `x.Category.Name == category`: the category reference resolves and its name is equal; InCategoryIff states it |
| Services.InCategoryIff | backend/Services/Services.cs:42 | the category filter keeps a row exactly when its CategoryId names an existing category of that name |
| Services.ViewedArticle | backend/Services/Services.cs:32 | only Views changes, and it changes by the 32-bit increment |
| Services.ViewedVideo | backend/Services/Services.cs:109 | only Views changes, and it changes by the 32-bit increment |
| Services.ViewedQuestion | backend/Services/Services.cs:191 | only Views changes, and it changes by the 32-bit increment |
| Services.UpdatedArticle | backend/Services/Services.cs:62-67 | Id, PublishedDate and Views are kept; every other field is the posted one |
| Services.UpdatedVideo | backend/Services/Services.cs:139-146 | Id, PublishedDate and Views are kept; every other field, Duration included, is the posted one |
| Services.Belongs | backend/Services/Services.cs:247 | the requested answer is one of the question's answers |
| Services.Accept | backend/Services/Services.cs:242-250 | the same keys; only IsAccepted flags change |
| Services.AcceptLeavesOnlyTarget | backend/Services/Services.cs:242-250 | after accepting answer a of question q, a is accepted and no other answer of q is |
| Services.AcceptKeepsOtherQuestions | backend/Services/Services.cs:242-245 | answers of other questions are untouched |
| Services.AcceptKeepsAtMostOne | backend/Services/Services.cs:232-255 | accepting keeps "at most one accepted answer per question" |
| Services.AcceptedStoreValid | backend/Services/Services.cs:232-255 | the whole store keeps its invariant when its answers table is replaced by Accept |
| Services.UnmarkAnswersOf | backend/Services/Services.cs:241-245 | every answer of the question is unmarked; every other row, and the set of keys, is unchanged |
| Services.UnmarkThenMark | backend/Services/Services.cs:241-252 | unmarking every answer of the question and then marking the requested one gives exactly Accept |
| Services.AcceptLatestWins | backend/Services/Services.cs:242-250 | accepting b after a equals accepting b alone |
| Services.WithoutAnswersOf | backend/Data/MediaPortalContext.cs:43-46 | the cascade keeps exactly the answers of other questions, unchanged |
| Services.CascadeRemovesAnswersOf | backend/Services/Services.cs:257-269 | after the cascade the question has no answers, and nothing else is removed |
| Services.CascadeKeepsAtMostOne | backend/Services/Services.cs:257-269 | the cascade keeps the at-most-one-accepted invariant |
| Services.NewAnswer | backend/Services/Services.cs:222-225 | a new answer has the given question, the current time, 0 votes and is not accepted; content and author are as posted |
| Services.AddNotAcceptedKeepsAtMostOne | backend/Services/Services.cs:216-230 | adding an answer that is not accepted keeps the invariant |
| Services.PostedAnswers | backend/Services/Services.cs:207-214 | the answers inserted with a new question, as written: one row per posted answer, with the posted IsAccepted flag |
| Services.PostedAnswersBreakAtMostOne | backend/Services/Services.cs:207-214 | as written, posting two accepted answers with a question breaks the invariant |
| Services.FreshAnswers | backend/Services/Services.cs:207-214 | corrected: each posted answer is stored as posted under the next key and the new question, but not accepted |
| Services.FreshAnswersOnlyUnmark | backend/Services/Services.cs:207-214 | the corrected rows have the same keys as the rows as written, and differ from them in the accepted flag only |
| Services.FreshAnswersKeepAtMostOne | backend/Services/Services.cs:207-214 | corrected insertion keeps the invariant whatever was posted |
| Services.FreshAnswersWellKeyed | backend/Services/Services.cs:207-214 | the corrected answer rows take keys from the generator and belong to the new question, so every answer stays keyed by its id, below the moved generator, under a known question |
| Services.QuestionCreatedValid | backend/Services/Services.cs:207-214 | the store with the new question and its corrected answer rows keeps its invariant |
| Services.ArticleService.GetAllArticles | backend/Services/Services.cs:16-22 | every article once, newest first |
| Services.ArticleService.GetArticleById | backend/Services/Services.cs:24-36 | an existing id returns the row with one more view and changes only that row; a missing id returns nothing and changes nothing |
| Services.ArticleService.GetArticlesByCategory | backend/Services/Services.cs:38-45 | exactly the articles in the named category, newest first, with no state change |
| Services.ArticleService.CreateArticle | backend/Services/Services.cs:47-54 | adds exactly one row under a fresh key, dated now, with 0 views; other rows unchanged |
| Services.ArticleService.UpdateArticle | backend/Services/Services.cs:56-71 | a missing id returns nothing and changes nothing; otherwise only that row changes, to UpdatedArticle |
| Services.ArticleService.DeleteArticle | backend/Services/Services.cs:73-82 | returns true exactly when the id existed, and removes exactly that row |
| Services.VideoService.GetAllVideos | backend/Services/Services.cs:94-100 | every video once, newest first |
| Services.VideoService.GetVideoById | backend/Services/Services.cs:102-113 | an existing id returns the row with one more view and changes only that row; a missing id changes nothing |
| Services.VideoService.GetVideosByCategory | backend/Services/Services.cs:115-122 | exactly the videos in the named category, newest first |
| Services.VideoService.CreateVideo | backend/Services/Services.cs:124-131 | adds exactly one row under a fresh key, dated now, with 0 views |
| Services.VideoService.UpdateVideo | backend/Services/Services.cs:133-150 | a missing id changes nothing; otherwise only that row changes, to UpdatedVideo |
| Services.VideoService.DeleteVideo | backend/Services/Services.cs:152-161 | returns true exactly when the id existed, and removes exactly that row |
| Services.QnAService.GetAllQuestions | backend/Services/Services.cs:173-180 | every question once, newest first |
| Services.QnAService.GetQuestionById | backend/Services/Services.cs:182-195 | an existing id returns the question with one more view, together with its answers; a missing id changes nothing |
| Services.QnAService.GetQuestionsByCategory | backend/Services/Services.cs:197-205 | exactly the questions in the named category, newest first |
| Services.QnAService.CreateQuestion | backend/Services/Services.cs:207-214 | adds one question under a fresh key, dated now, with 0 views; posted answers are stored as FreshAnswers (as posted, but none accepted); the invariant holds after |
| Services.QnAService.AddAnswer | backend/Services/Services.cs:216-230 | fails and changes nothing exactly when the question is missing; otherwise adds exactly the NewAnswer row |
| Services.QnAService.AcceptAnswer | backend/Services/Services.cs:232-255 | succeeds exactly when the question exists and the answer is one of its answers, and then saves Accept; otherwise nothing is saved |
| Services.QnAService.DeleteQuestion | backend/Services/Services.cs:257-269 | returns true exactly when the question existed, and removes it and exactly its answers |
| Controllers.StatusCode | backend/Controllers/Controllers.cs:18-207 | the 2xx codes are exactly Ok, Created and NoContent; 404 is exactly NotFound |
| Controllers.FromLookup | backend/Controllers/Controllers.cs:25-33 | NotFound exactly when the service returned null; otherwise Ok with that record |
| Controllers.FromDelete | backend/Controllers/Controllers.cs:59-67 | NoContent exactly when the service returned true; NotFound exactly when it returned false |
| Controllers.FromAddAnswer | backend/Controllers/Controllers.cs:175-187 | the service's InvalidOperationException becomes NotFound; success is Ok with the answer |
| Controllers.FromCreate | backend/Controllers/Controllers.cs:42-47 | Created (201) whose location id is the new record's id |
| Controllers.ArticlesController.GetAllArticles | backend/Controllers/Controllers.cs:18-23 | always Ok, with the newest-first listing of every article |
| Controllers.ArticlesController.GetArticle | backend/Controllers/Controllers.cs:25-33 | NotFound, with the store unchanged, exactly when the id is missing; otherwise Ok with the viewed row, which is stored in its place |
| Controllers.ArticlesController.GetArticlesByCategory | backend/Controllers/Controllers.cs:35-40 | always Ok, with the category listing |
| Controllers.ArticlesController.CreateArticle | backend/Controllers/Controllers.cs:42-47 | Created whose id is the new row's key; the body is the posted article with that key, the clock's date and no views; that row (tags as the column converter reads them back: empty tags dropped, tags split at commas) is stored under the key and the next key advances, nothing else changes |
| Controllers.ArticlesController.UpdateArticle | backend/Controllers/Controllers.cs:49-57 | NotFound, with the store unchanged, exactly when the id is missing; otherwise Ok with the updated row, which replaces the old one (tags as the column converter reads them back: empty tags dropped, tags split at commas) and nothing else changes |
| Controllers.ArticlesController.DeleteArticle | backend/Controllers/Controllers.cs:59-67 | NoContent exactly when the id existed, NotFound otherwise; afterwards the row is gone and nothing else changed |
| Controllers.VideosController.GetAllVideos | backend/Controllers/Controllers.cs:81-86 | always Ok, with the newest-first listing of every video |
| Controllers.VideosController.GetVideo | backend/Controllers/Controllers.cs:88-96 | NotFound, with the store unchanged, exactly when the id is missing; otherwise Ok with the viewed row, which is stored in its place |
| Controllers.VideosController.GetVideosByCategory | backend/Controllers/Controllers.cs:98-103 | always Ok, with the category listing |
| Controllers.VideosController.CreateVideo | backend/Controllers/Controllers.cs:105-110 | Created whose id is the new row's key; the body is the posted video with that key, the clock's date and no views; that row (tags as the column converter reads them back: empty tags dropped, tags split at commas) is stored under the key and the next key advances, nothing else changes |
| Controllers.VideosController.UpdateVideo | backend/Controllers/Controllers.cs:112-120 | NotFound, with the store unchanged, exactly when the id is missing; otherwise Ok with the updated row, which replaces the old one (tags as the column converter reads them back: empty tags dropped, tags split at commas) and nothing else changes |
| Controllers.VideosController.DeleteVideo | backend/Controllers/Controllers.cs:122-130 | NoContent exactly when the id existed, NotFound otherwise; afterwards the row is gone and nothing else changed |
| Controllers.QuestionsController.GetAllQuestions | backend/Controllers/Controllers.cs:144-149 | always Ok, with the newest-first listing of every question |
| Controllers.QuestionsController.GetQuestion | backend/Controllers/Controllers.cs:151-159 | NotFound, with the store unchanged, exactly when the id is missing; otherwise Ok with the viewed question, which is stored in its place, and its answers |
| Controllers.QuestionsController.GetQuestionsByCategory | backend/Controllers/Controllers.cs:161-166 | always Ok, with the category listing |
| Controllers.QuestionsController.CreateQuestion | backend/Controllers/Controllers.cs:168-173 | Created whose id is the new question's key; the body is the posted question with that key, the clock's date and no views; it is stored (tags as the column converter reads them back: empty tags dropped, tags split at commas), its posted answers are stored under fresh keys, and both key counters advance |
| Controllers.QuestionsController.AddAnswer | backend/Controllers/Controllers.cs:175-187 | NotFound, with the store unchanged, exactly when the question is missing; otherwise Ok with the new answer, which is stored under the next answer key, and nothing else changes |
| Controllers.QuestionsController.AcceptAnswer | backend/Controllers/Controllers.cs:189-197 | NotFound, with the store unchanged, exactly when the question or its answer is missing; otherwise Ok with the accepted answer, and the store's answers are the old ones with that one marked and the question's others unmarked |
| Controllers.QuestionsController.DeleteQuestion | backend/Controllers/Controllers.cs:199-207 | NoContent exactly when the question existed, NotFound with the store unchanged otherwise; afterwards neither it nor any of its answers remains and nothing else changed |
| Categories.IsNullOrEmpty | backend/Controllers/CategoriesController.cs:26 | `string.IsNullOrEmpty` on the optional type: absent or empty |
| Categories.GetCategories | backend/Controllers/CategoriesController.cs:22-32 | a null or empty type gives the whole table; otherwise exactly the categories whose Type equals it |
| Categories.GetCategoriesIdempotent | backend/Controllers/CategoriesController.cs:22-32 | filtering the result by the same type again changes nothing |
| Categories.GetCategory | backend/Controllers/CategoriesController.cs:36-46 | NotFound exactly when the id is missing; otherwise that row |
| Categories.CategoriesController.CreateCategory | backend/Controllers/CategoriesController.cs:49-57 | admin only; adds exactly one row under the next key and answers Created with it |
| Categories.CategoriesController.UpdateCategory | backend/Controllers/CategoriesController.cs:60-88 | admin only; BadRequest exactly on an id mismatch, NotFound exactly on a missing row, both without change; otherwise the whole row is replaced (NoContent) |
| Categories.CategoriesController.DeleteCategory | backend/Controllers/CategoriesController.cs:91-105 | admin only; NoContent and exactly that row removed when present, NotFound otherwise |
| Auth.UpperPairs | backend/Controllers/AuthController.cs:98 | BitConverter.ToString writes two upper-case hex digits per byte |
| Auth.RemoveChar | backend/Controllers/AuthController.cs:98 | Replace("-", "") leaves no '-' |
| Auth.LowerHex | backend/Controllers/AuthController.cs:98 | two hex digits per byte |
| Auth.BitConverterToString | backend/Controllers/AuthController.cs:98 | `BitConverter.ToString`: the upper-case byte pairs joined by '-' (its digits are stated by UpperPairs) |
| Auth.HashPassword | backend/Controllers/AuthController.cs:93-100 | the stored text for a password: the digest as BitConverter text, with '-' removed, lower-cased; HashPasswordIsLowerHex and HashPasswordInjective state what it is |
| Auth.HashPasswordIsLowerHex | backend/Controllers/AuthController.cs:93-100 | the stored hash is the digest in lower-case hex: no '-', two characters per byte |
| Auth.HashPasswordLength | backend/Controllers/AuthController.cs:93-100 | a 32-byte digest gives a 64-character hash |
| Auth.FromLowerHexOfLowerHex | backend/Controllers/AuthController.cs:98 | the hex text reads back as the digest bytes |
| Auth.HashPasswordInjective | backend/Controllers/AuthController.cs:93-100 | two passwords have the same stored hash exactly when their digests agree |
| Auth.SecretKey | backend/Controllers/AuthController.cs:23 | the configured Jwt:Key when present, otherwise the built-in demo key |
| Auth.Descriptor | backend/Controllers/AuthController.cs:102-118 | a token carries exactly the Name and Role claims, is signed with HMAC-SHA256 under the key, and expires 7 days after issue |
| Auth.Matches | backend/Controllers/AuthController.cs:53-54 | a row matches when both its username and its stored hash are equal to the given ones |
| Auth.FirstMatch | backend/Controllers/AuthController.cs:53-54 | no user is found exactly when no row has that username and hash; a found user is such a row |
| Auth.Login | backend/Controllers/AuthController.cs:49-91 | the only answers are Ok with a token, or Unauthorized with "Invalid username or password"; which one is stated by LoginStoredUser, LoginAdminFallback and LoginUnauthorizedIff |
| Auth.LoginStoredUser | backend/Controllers/AuthController.cs:51-54 | a stored row with the same username and hash logs in with that row's username, role and name |
| Auth.LoginAdminFallback | backend/Controllers/AuthController.cs:56-77 | without a matching row, admin/admin123 logs in with role Admin and name Admin User |
| Auth.LoginUnauthorizedIff | backend/Controllers/AuthController.cs:49-91 | Unauthorized exactly when no row matches and the credentials are not admin/admin123; Ok in every other case |
| Auth.UsernameTaken | backend/Controllers/AuthController.cs:29 | true exactly when some user has that username (exact match) |
| Auth.NewUser | backend/Controllers/AuthController.cs:34-40 | the new row has the given username and name, the hashed password and role User |
| Auth.AddUserKeepsUnique | backend/Controllers/AuthController.cs:29-43 | adding a user whose name is not taken keeps usernames unique |
| Auth.RegisterThenLogin | backend/Controllers/AuthController.cs:26-91 | a freshly registered user logs in with the password given at registration, with role User |
| Auth.AuthController.constructor | backend/Controllers/AuthController.cs:20-24 | the secret key is the configured one or the default |
| Auth.AuthController.Register | backend/Controllers/AuthController.cs:26-46 | BadRequest with "Username already exists", and no change, exactly when the name is taken; otherwise exactly one NewUser row is appended and the answer is Ok |
| Seed.Seeded | backend/Data/SeedData.cs:10-187 | the store after Initialize: articles, then videos, then questions with their answers, each table only when it is empty; SeededGuards, SeededIdempotent and SeededEmptyStore state it |
| Seed.Initialize | backend/Data/SeedData.cs:8-188 | the new state is Seeded(old state) and the store stays valid |
| Seed.SeededGuards | backend/Data/SeedData.cs:10-107 | at each guard (lines 10, 61, 107) a table that already has rows is left alone; users and categories are never touched |
| Seed.SeededIdempotent | backend/Data/SeedData.cs:10-187 | a second Initialize, at any time, changes nothing |
| Seed.SeededFilled | backend/Data/SeedData.cs:10-187 | after Initialize none of the three tables is empty |
| Seed.SeededFull | backend/Data/SeedData.cs:10-107 | when all three tables have rows, Initialize changes nothing (each guard skips its table) |
| Seed.SeededEmptyStore | backend/Data/SeedData.cs:12-184 | an empty store gets 4 articles, 3 videos and 3 questions, whose answers number 2, 1 and 1 |
| Seed.SeededOneAcceptedEach | backend/Data/SeedData.cs:120-180 | every seeded question has exactly one accepted answer, so the seed keeps the invariant |
| Seed.SeededCounters | backend/Data/SeedData.cs:21-101 | seeded view counts are non-negative and seeded durations positive |
| Seed.SeededValid | backend/Data/SeedData.cs:10-187 | seeding a valid store gives a valid store |
| VideoManager.FormatDuration | frontend/src/components/admin/VideoManager.jsx:140-149 | the shown duration: hours and leftover minutes of the whole minutes, the hours only when there is at least one; ReadFormatDuration, FormatDurationBounds and FormatDurationIff state it |
| VideoManager.ReadFormatDuration | frontend/src/components/admin/VideoManager.jsx:140-149 | the displayed text reads back as the hours (m div 60) and minutes (m mod 60) of m = duration div 60 |
| VideoManager.FormatDurationBounds | frontend/src/components/admin/VideoManager.jsx:141-148 | the minutes shown are below 60; under 60 seconds shows "0m"; under an hour shows "{m}m" |
| VideoManager.FormatDurationIff | frontend/src/components/admin/VideoManager.jsx:140-149 | two durations display the same exactly when they have the same whole minutes |
| VideoManager.ToMinutesIff | frontend/src/components/admin/VideoManager.jsx:51 | a duration shows m minutes exactly when it lies in [60m, 60m + 60) seconds |
| VideoManager.MinutesRoundTrip | frontend/src/components/admin/VideoManager.jsx:109 | minutes to seconds (line 109) and back (line 51) is the identity |
| VideoManager.SecondsRoundTrip | frontend/src/components/admin/VideoManager.jsx:51 | seconds to minutes (line 51) and back (line 109) is at most the original and less than 60 below it, and exact iff divisible by 60 |
| VideoManager.ParseInt | frontend/src/components/admin/VideoManager.jsx:100 | `parseInt(value)`: leading whitespace skipped, one sign, `0x` selects base 16, the longest digit run is the value, no digit gives NaN (None) |
| VideoManager.DurationInput | frontend/src/components/admin/VideoManager.jsx:100 | `parseInt(value)`, with NaN replaced by 0 through a logical or; DurationInputOfNumeral and DurationInputWithoutDigits state it |
| VideoManager.DurationInputOfNumeral | frontend/src/components/admin/VideoManager.jsx:100 | a typed numeral, optionally signed or after a blank, reads as its value |
| VideoManager.DurationInputWithoutDigits | frontend/src/components/admin/VideoManager.jsx:100 | input with no decimal digit is NaN for parseInt and becomes 0 |
| VideoManager.DurationInputDigitsThenText | frontend/src/components/admin/VideoManager.jsx:100 | "  12min" reads as 12: leading blanks are skipped and the digit run stops at the first non-digit |
| VideoManager.ParseHex | frontend/src/components/admin/VideoManager.jsx:100 | text starting with 0x or 0X reads as the value of the hexadecimal digit run after the prefix, and as NaN (None) when no hexadecimal digit follows |
| VideoManager.DurationInputHex | frontend/src/components/admin/VideoManager.jsx:100 | "0x1A" reads as 26: a 0x prefix selects hexadecimal |
| VideoManager.ParseUnsignedDecimal | frontend/src/components/admin/VideoManager.jsx:100 | text that starts with a digit other than 0 reads as the value of the decimal digit run it starts with |
| VideoManager.SubmitData | frontend/src/components/admin/VideoManager.jsx:104-111 | the submitted video: the form data with the minutes back in seconds and the tags parsed; MinutesRoundTrip and EditRoundTrip state it |
| VideoManager.EditRoundTrip | frontend/src/components/admin/VideoManager.jsx:46-111 | opening a video and saving it unchanged gives it back exactly when its tags are clean and its duration is whole minutes |
| TagInput.CleanTag | frontend/src/components/admin/VideoManager.jsx:110 | a tag the parse can produce: non-empty, trimmed, without a comma |
| TagInput.FormatTags | frontend/src/components/admin/VideoManager.jsx:61 | the text the edit form shows: `tags.join(', ')`; ParseFormat and ParseFormatIff state it |
| TagInput.ParseTags | frontend/src/components/admin/VideoManager.jsx:110 | parsed tags are non-empty, trimmed and ','-free; at most one per comma-separated piece |
| TagInput.ParseFormat | frontend/src/components/admin/VideoManager.jsx:110 | parsing the text tags.join(', ') of line 61 gives back clean tags |
| TagInput.ParseFormatIff | frontend/src/components/admin/ArticleManager.jsx:110 | parse(join(tags, ", ")) == tags, with the join of line 66, exactly when every tag is non-empty, trimmed and ','-free |
| TagInput.ParseBlankIff | frontend/src/components/admin/ArticleManager.jsx:110 | the input yields no tags exactly when it holds only commas and whitespace |
| TagInput.ParsedTagsPersist | frontend/src/components/admin/ArticleManager.jsx:110 | submitted tags pass the back end's tag column unchanged |
| ArticleManager.SubmitData | frontend/src/components/admin/ArticleManager.jsx:105-111 | `{ ...formData, tags }` with the tags parsed; SubmitReplacesOnlyTags and SubmitDependsOnParsedTags state it |
| ArticleManager.SubmitReplacesOnlyTags | frontend/src/components/admin/ArticleManager.jsx:108-111 | the submitted data is the form data with only the tags replaced, by clean tags |
| ArticleManager.SubmitDependsOnParsedTags | frontend/src/components/admin/ArticleManager.jsx:108-111 | two forms submit the same article exactly when they agree on every field but the tag text, and their tag texts parse alike |
| ArticleManager.EmptyFormHasNoTags | frontend/src/components/admin/ArticleManager.jsx:71-79 | an untouched new-article form submits no tags |
| ArticleManager.EditRoundTrip | frontend/src/components/admin/ArticleManager.jsx:55-111 | opening an article and saving it unchanged gives it back exactly when its tags are clean |
| QuestionDetail.Compare | frontend/src/pages/QuestionDetail.jsx:142-146 | the comparator: an accepted first argument comes first, an accepted second one comes second, otherwise more votes come first; CompareInconsistentIff states it |
| QuestionDetail.CompareInconsistentIff | frontend/src/pages/QuestionDetail.jsx:142-146 | the comparator puts each answer first (-1 both ways) exactly when both are accepted; otherwise swapping its arguments flips its sign |
| QuestionDetail.Insert | frontend/src/pages/QuestionDetail.jsx:142-146 | inserting keeps every answer and adds exactly one |
| QuestionDetail.SortedAnswers | frontend/src/pages/QuestionDetail.jsx:141-146 | the sorted list is a permutation of the answers |
| QuestionDetail.OrderedTail | frontend/src/pages/QuestionDetail.jsx:142-146 | behind the first answer of an ordered list the rest is ordered, holds no accepted answer and, when the first is not accepted, has no more votes than it |
| QuestionDetail.InsertOrdered | frontend/src/pages/QuestionDetail.jsx:142-146 | inserting an answer into an ordered list keeps it ordered, unless an accepted answer meets another accepted one |
| QuestionDetail.SortedAnswersOrdered | frontend/src/pages/QuestionDetail.jsx:141-146 | with at most one accepted answer, it comes first and the others follow by non-increasing votes |
| QuestionDetail.SortAnswers | frontend/src/pages/QuestionDetail.jsx:141-146 | the array is rearranged in place into the insertion-sorted order, a permutation, ordered when at most one answer is accepted |
| QuestionDetail.AnyAccepted | frontend/src/pages/QuestionDetail.jsx:69 | true exactly when some answer is accepted |
| QuestionDetail.Answered | frontend/src/pages/QuestionDetail.jsx:69 | the badge shows exactly when the answer list is present and some answer is accepted |
| QuestionDetail.AnsweredIffFirstAccepted | frontend/src/pages/QuestionDetail.jsx:69 | sorting (lines 141-146) does not change the badge; with at most one accepted answer, the badge shows exactly when the first sorted answer is accepted |
| QuestionDetail.ServedAnswersAtMostOne | backend/Data/MediaPortalContext.cs:43-46 | the answers the back end serves for a question, each once, have at most one accepted answer when the store keeps its invariant, so the page's order is consistent |

## Left out

- Entity Framework mechanics are not modelled: query translation, `Include`, change tracking and async tasks. A save is an atomic replacement of tables.
- `FirstOrDefaultAsync(x => x.Id == id)` and `FindAsync(id)` are both a key lookup, since every row is stored under its own id.
- Keys are handed out by per-table counters starting at 1, and the model ignores an id the client puts into a new row. The source's in-memory Entity Framework provider instead keeps a non-zero key supplied by the client, and `SaveChanges` fails when that key is already taken. Neither behaviour is modelled.
- Listings are modelled as the set of rows they contain, ordered by non-increasing date. The order among rows with equal dates is left open, as `OrderByDescending` over the database leaves it.
- The order of a question's `Answers` navigation list is not modelled: the answers are a map keyed by id.
- `GetCategories` returns a map; the order of the result list is not modelled.
- Models.Increment: views are only guaranteed to stay non-negative below `Int32.MaxValue`, because C# `int` wraps there.
- Concurrency is not modelled: lost updates of `Views++` and concurrent accepts. Requests run one at a time.
- `[Authorize(Roles = "Admin")]` is a precondition on the category mutations. The middleware's refusal of other callers is not modelled. `backend/Program.cs:8-51` registers no authentication scheme (no `AddAuthentication` or `AddJwtBearer`, no `UseAuthentication`, only `UseAuthorization` at line 50), so the deployed pipeline never authenticates a caller and never validates an issued token; the admin precondition stands for an intent that this configuration does not carry out.
- Categories.CategoriesController.UpdateCategory: the `throw` branch is not modelled. It fires on a concurrency conflict for a row that still exists, which cannot happen in a model without concurrency.
- SHA-256, UTF-8 encoding, HMAC-SHA256 signing and JWT serialisation are foreign library calls, and appear as function parameters (`digest`, `sign`).
- `ToLower` is modelled on ASCII letters only, which is all a hex string holds. Culture-sensitive case mapping is not modelled.
- `backend/Program.cs` is not part of this model: dependency injection, CORS, Swagger and store selection. ASP.NET routing and model binding are not modelled either.
- The seeded titles, bodies and URLs are placeholders; only counts, flags, dates, views and durations are kept.
- The `Comment` entity is not modelled; no operation uses it.
- The JSON wire format of `TimeSpan` is not modelled: `Duration` is a whole number of seconds in both the back end and the front end.
- VideoManager.DurationInputOfNumeral: `parseInt` is modelled on decimal and `0x` hexadecimal numerals. Its float rounding above 2^53 is not modelled. A typed negative number is read as negative, while the back end stores `Duration` as a natural number.
- Services.QnAService.CreateQuestion: stores the corrected rows `FreshAnswers`, not the posted graph as written (`PostedAnswers`). The two differ only in `IsAccepted`, which the correction clears on every posted answer (see Findings); posted `Votes` and `AnsweredDate` are kept as the source keeps them.
- ArticleManager: the category `<select>` yields a string in the browser; the model gives `categoryId` as an optional integer.
- The JavaScript engine's sort algorithm is not fixed by the language. `QuestionDetail.SortedAnswers` is an insertion sort, and no stability property of it is stated. With two accepted answers (an inconsistent comparator) the real order is implementation-defined; the model proves order only under at-most-one.
- React state, rendering, axios calls (`frontend/src/services/api.js`) and `AuthContext` local storage are not modelled.
- The identical helper copies in `frontend/src/pages/Videos.jsx:46-55` and `frontend/src/pages/VideoDetail.jsx:26-35` (`formatDuration`) are covered by `VideoManager.FormatDuration`. The copy in `frontend/src/components/admin/QuestionManager.jsx:84` (the tag parse) is covered by `TagInput.ParseTags`.

## Findings

| source | as written | input that shows it | evidently intended | confidence | as-written member | corrected member |
|---|---|---|---|---|---|---|
| backend/Services/Services.cs:207-214 | `CreateQuestionAsync` adds the posted question graph as it came, so answers posted inside the question keep their own `IsAccepted` flags | a new question posted with two answers, both `isAccepted: true` | a question starts with no accepted answer, as `AddAnswerAsync` (lines 222-225) ensures for every later answer; "at most one accepted answer per question" holds | not executed | Services.PostedAnswersBreakAtMostOne | Services.FreshAnswersKeepAtMostOne |
