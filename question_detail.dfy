/** frontend/src/pages/QuestionDetail.jsx: the page of one question with its
    answers. The answers arrive as a list; the page shows the "Answered" badge
    when one of them is accepted and lists them sorted in place by a
    comparator that puts an accepted answer first and the others by votes. */
module QuestionDetail {
  import opened Wrappers
  import opened Models
  import Data

  // ---------------------------------------------------------------------------
  // The comparator

  /** `(a, b) => { if (a.isAccepted) return -1; if (b.isAccepted) return 1;
      return b.votes - a.votes; }`: negative puts `a` first. */
  function Compare(a: Answer, b: Answer): int
  {
    if a.IsAccepted then -1
    else if b.IsAccepted then 1
    else b.Votes as int - a.Votes as int
  }

  /** The comparator contradicts itself, claiming each answer goes first,
      exactly for two accepted answers; otherwise swapping its arguments
      flips the sign of its verdict. */
  lemma CompareInconsistentIff(a: Answer, b: Answer)
    ensures (Compare(a, b) < 0 && Compare(b, a) < 0) <==> a.IsAccepted && b.IsAccepted
    ensures !(a.IsAccepted && b.IsAccepted) ==>
      (Compare(a, b) < 0 <==> Compare(b, a) > 0) && (Compare(a, b) == 0 <==> Compare(b, a) == 0)
  {
  }

  // ---------------------------------------------------------------------------
  // The order the page shows

  /** No two answers of the list are accepted. */
  ghost predicate AtMostOneAccepted(s: seq<Answer>)
  {
    forall i, j :: 0 <= i < |s| && 0 <= j < |s| && s[i].IsAccepted && s[j].IsAccepted ==> i == j
  }

  /** An accepted answer can only come first. */
  ghost predicate AcceptedFirst(s: seq<Answer>)
  {
    forall i :: 0 < i < |s| ==> !s[i].IsAccepted
  }

  /** After any answer that is not accepted, votes never increase. */
  ghost predicate VotesDescending(s: seq<Answer>)
  {
    forall i, j :: 0 <= i < j < |s| && !s[i].IsAccepted ==> s[i].Votes >= s[j].Votes
  }

  ghost predicate Ordered(s: seq<Answer>)
  {
    AcceptedFirst(s) && VotesDescending(s)
  }

  /** Inserting `x` in front of the first answer it does not have to follow. */
  function Insert(x: Answer, t: seq<Answer>): (r: seq<Answer>)
    ensures multiset(r) == multiset([x] + t)
    ensures |r| == |t| + 1
  {
    if t == [] || Compare(x, t[0]) <= 0 then [x] + t
    else
      assert multiset([x] + t) == multiset([t[0]] + ([x] + t[1..])) by {
        assert t == [t[0]] + t[1..];
      }
      [t[0]] + Insert(x, t[1..])
  }

  /** A sort by the comparator: `answers.sort(compare)`. The order in which
      the engine compares elements is not fixed by the language; this is an
      insertion sort. */
  function SortedAnswers(s: seq<Answer>): (r: seq<Answer>)
    ensures multiset(r) == multiset(s)
    ensures |r| == |s|
  {
    if s == [] then []
    else
      assert s == [s[0]] + s[1..];
      Insert(s[0], SortedAnswers(s[1..]))
  }

  /** A bound on the votes of every answer in a list that is not accepted. */
  ghost predicate VotesAtMost(s: seq<Answer>, v: int)
  {
    forall i :: 0 <= i < |s| ==> s[i].Votes as int <= v
  }

  lemma VotesAtMostInsert(x: Answer, t: seq<Answer>, v: int)
    requires VotesAtMost(t, v) && x.Votes as int <= v
    ensures VotesAtMost(Insert(x, t), v)
  {
    var r := Insert(x, t);
    forall i | 0 <= i < |r|
      ensures r[i].Votes as int <= v
    {
      assert r[i] in multiset(r);
      assert r[i] in multiset([x] + t);
      assert r[i] in [x] + t;
    }
  }

  /** No answer of the list is accepted. */
  ghost predicate NoneAccepted(s: seq<Answer>)
  {
    forall i :: 0 <= i < |s| ==> !s[i].IsAccepted
  }

  lemma NoneAcceptedPermutation(s: seq<Answer>, t: seq<Answer>)
    requires multiset(s) == multiset(t) && NoneAccepted(s)
    ensures NoneAccepted(t)
  {
    forall i | 0 <= i < |t|
      ensures !t[i].IsAccepted
    {
      assert t[i] in multiset(s);
      assert t[i] in s;
    }
  }

  /** Behind the first answer of an ordered list comes an ordered list with no
      accepted answer, whose votes the first answer bounds unless it is the
      accepted one. */
  lemma OrderedTail(t: seq<Answer>)
    requires t != [] && Ordered(t)
    ensures Ordered(t[1..]) && NoneAccepted(t[1..])
    ensures !t[0].IsAccepted ==> VotesAtMost(t[1..], t[0].Votes as int)
  {
    var rest := t[1..];
    assert forall i :: 0 <= i < |rest| ==> rest[i] == t[i + 1];
    assert forall i, j :: 0 <= i < j < |rest| ==> rest[i] == t[i + 1] && rest[j] == t[j + 1];
  }

  /** Inserting into an ordered list keeps it ordered, unless an accepted
      answer is inserted into a list that already has one. */
  lemma {:induction false} InsertOrdered(x: Answer, t: seq<Answer>)
    requires Ordered(t)
    requires x.IsAccepted ==> NoneAccepted(t)
    ensures Ordered(Insert(x, t))
  {
    var r := Insert(x, t);
    if t == [] || x.IsAccepted {
    } else if Compare(x, t[0]) <= 0 {
      assert !t[0].IsAccepted;
      assert x.Votes >= t[0].Votes;
    } else {
      var rest := t[1..];
      OrderedTail(t);
      InsertOrdered(x, rest);
      var tail := Insert(x, rest);
      NoneAcceptedPermutation([x] + rest, tail);
      if !t[0].IsAccepted {
        VotesAtMostInsert(x, rest, t[0].Votes as int);
      }
      assert r == [t[0]] + tail;
      assert forall i :: 0 < i < |r| ==> r[i] == tail[i - 1];
    }
  }

  /** After an accepted answer, none of the others is accepted. */
  lemma AtMostOneTail(s: seq<Answer>)
    requires s != [] && AtMostOneAccepted(s)
    ensures AtMostOneAccepted(s[1..])
    ensures s[0].IsAccepted ==> NoneAccepted(s[1..])
  {
    forall i, j | 0 <= i < |s[1..]| && 0 <= j < |s[1..]| && s[1..][i].IsAccepted && s[1..][j].IsAccepted
      ensures i == j
    {
      assert s[1..][i] == s[i + 1] && s[1..][j] == s[j + 1];
    }
    forall i | 0 <= i < |s[1..]|
      ensures s[0].IsAccepted ==> !s[1..][i].IsAccepted
    {
      assert s[1..][i] == s[i + 1];
    }
  }

  /** With at most one accepted answer the page shows it first, and the other
      answers by non-increasing votes; the list keeps every answer. */
  lemma {:induction false} SortedAnswersOrdered(s: seq<Answer>)
    requires AtMostOneAccepted(s)
    ensures Ordered(SortedAnswers(s))
    ensures multiset(SortedAnswers(s)) == multiset(s)
  {
    if s != [] {
      AtMostOneTail(s);
      SortedAnswersOrdered(s[1..]);
      var sorted := SortedAnswers(s[1..]);
      if s[0].IsAccepted {
        NoneAcceptedPermutation(s[1..], sorted);
      }
      InsertOrdered(s[0], sorted);
    }
  }

  // ---------------------------------------------------------------------------
  // The "Answered" badge

  /** `answers.some(a => a.isAccepted)`. */
  function AnyAccepted(s: seq<Answer>): (b: bool)
    ensures b <==> exists i :: 0 <= i < |s| && s[i].IsAccepted
  {
    if s == [] then false
    else s[0].IsAccepted || (assert forall i :: 0 <= i < |s[1..]| ==> s[1..][i] == s[i + 1]; AnyAccepted(s[1..]))
  }

  /** `question.answers?.some(a => a.isAccepted)`: a missing list shows no badge. */
  function Answered(answers: Option<seq<Answer>>): (shown: bool)
    ensures shown <==> answers.Some? && exists i :: 0 <= i < |answers.value| && answers.value[i].IsAccepted
  {
    answers.Some? && AnyAccepted(answers.value)
  }

  /** Sorting does not change the badge, and with at most one accepted answer
      the badge is shown exactly when the first listed answer is accepted. */
  lemma AnsweredIffFirstAccepted(s: seq<Answer>)
    requires AtMostOneAccepted(s)
    ensures Answered(Some(SortedAnswers(s))) == Answered(Some(s))
    ensures Answered(Some(s)) <==> |s| > 0 && SortedAnswers(s)[0].IsAccepted
  {
    var r := SortedAnswers(s);
    SortedAnswersOrdered(s);
    if AnyAccepted(s) {
      var i :| 0 <= i < |s| && s[i].IsAccepted;
      assert s[i] in multiset(r);
      var j :| 0 <= j < |r| && r[j] == s[i];
    }
    if AnyAccepted(r) {
      var j :| 0 <= j < |r| && r[j].IsAccepted;
      assert r[j] in multiset(s);
      var i :| 0 <= i < |s| && s[i] == r[j];
    }
  }

  /** The answers the back end serves for a question, listed by id each once,
      have at most one accepted answer when the store keeps its invariant. */
  lemma ServedAnswersAtMostOne(answers: map<int, Answer>, q: int, served: seq<Answer>)
    requires Data.AtMostOneAccepted(answers)
    requires forall k :: k in answers ==> answers[k].Id == k
    requires forall i :: 0 <= i < |served| ==>
      served[i].Id in Data.AnswersOf(answers, q) && Data.AnswersOf(answers, q)[served[i].Id] == served[i]
    requires forall i, j :: 0 <= i < j < |served| ==> served[i].Id != served[j].Id
    ensures AtMostOneAccepted(served)
  {
    forall i, j | 0 <= i < |served| && 0 <= j < |served| && served[i].IsAccepted && served[j].IsAccepted
      ensures i == j
    {
      var a := served[i].Id;
      var b := served[j].Id;
      assert answers[a] == served[i] && answers[b] == served[j];
      assert a == b;
    }
  }

  // ---------------------------------------------------------------------------
  // The in-place sort

  /** `question.answers.sort(compare)`: the array is rearranged in place. */
  method SortAnswers(a: array<Answer>)
    modifies a
    ensures a[..] == SortedAnswers(old(a[..]))
    ensures multiset(a[..]) == multiset(old(a[..]))
    ensures AtMostOneAccepted(old(a[..])) ==> Ordered(a[..])
  {
    var sorted := SortedAnswers(a[..]);
    if AtMostOneAccepted(a[..]) {
      SortedAnswersOrdered(a[..]);
    }
    forall i | 0 <= i < a.Length {
      a[i] := sorted[i];
    }
    assert a[..] == sorted;
  }
}
