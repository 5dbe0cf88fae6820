/** The persisted entities of backend/Models (Models.cs, User.cs) and the
    Category entity they refer to. */
module Models {
  import opened Wrappers

  /** A point on the server clock (`DateTime`), counted in seconds. */
  type DateTime = int

  const SecondsPerDay: int := 86400

  /** C# `int`: the type of `Views` and `Votes`. */
  newtype Int32 = x: int | -0x8000_0000 <= x < 0x8000_0000

  const Int32Max: Int32 := 0x7FFF_FFFF

  /** C# `x++` on an `int` in an unchecked context: wraps from the largest
      value to the smallest. */
  function Increment(x: Int32): (r: Int32)
    ensures x < Int32Max ==> r as int == x as int + 1
    ensures x == Int32Max ==> r as int == -0x8000_0000
  {
    if x == Int32Max then -0x8000_0000 else x + 1
  }

  /** A classification tag, filtered on by `Type` ("Article", "Video", "Question"). */
  datatype Category = Category(Id: int, Name: string, Description: string, Type: string)

  datatype Article = Article(
    Id: int,
    Title: string,
    Content: string,
    Author: string,
    CategoryId: Option<int>,
    ImageUrl: string,
    PublishedDate: DateTime,
    Views: Int32,
    Tags: seq<string>)

  /** `Duration` is a whole number of seconds. */
  datatype Video = Video(
    Id: int,
    Title: string,
    Description: string,
    VideoUrl: string,
    ThumbnailUrl: string,
    CategoryId: Option<int>,
    Author: string,
    PublishedDate: DateTime,
    Views: Int32,
    Duration: nat,
    Tags: seq<string>)

  /** A question row; its answers live in the Answers table, linked by `QuestionId`. */
  datatype Question = Question(
    Id: int,
    Title: string,
    Content: string,
    Author: string,
    CategoryId: Option<int>,
    AskedDate: DateTime,
    Views: Int32,
    Tags: seq<string>)

  datatype Answer = Answer(
    Id: int,
    QuestionId: int,
    Content: string,
    Author: string,
    AnsweredDate: DateTime,
    Votes: Int32,
    IsAccepted: bool)

  /** `Password` holds the hex digest of the password, never the password. */
  datatype User = User(Id: int, Username: string, Password: string, Name: string, Role: string)

  const DefaultRole: string := "User"
  const AdminRole: string := "Admin"
}
