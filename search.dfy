/** The search page's filter over the fetched questions: a case-insensitive substring
    match on title, content or category name that keeps the fetched order. */
module Search {
  import opened Tables
  import Text

  /** A fetched question as the filter sees it; a question may have no category. */
  datatype QuestionView = QuestionView(title: string, content: string, categoryName: Option<string>)

  /** `q` is kept for `query`: the query is empty, or its lower-cased text occurs in the
      lower-cased title, content or category name. */
  predicate Matches(q: QuestionView, query: string) {
    var needle := Text.ToLower(query);
    || query == ""
    || Text.Contains(Text.ToLower(q.title), needle)
    || Text.Contains(Text.ToLower(q.content), needle)
    || (q.categoryName.Some? && Text.Contains(Text.ToLower(q.categoryName.value), needle))
  }

  /** The questions that match, in their fetched order. */
  function FilterQuestions(questions: seq<QuestionView>, query: string): (r: seq<QuestionView>)
    ensures |r| <= |questions|
    ensures forall q :: q in r <==> q in questions && Matches(q, query)
    ensures forall q :: multiset(r)[q] == if Matches(q, query) then multiset(questions)[q] else 0
  {
    if questions == [] then []
    else
      var rest := FilterQuestions(questions[1..], query);
      assert questions == [questions[0]] + questions[1..];
      (if Matches(questions[0], query) then [questions[0]] else []) + rest
  }

  /** `r` can be obtained from `s` by dropping elements, without reordering. */
  predicate IsSubsequence<T(==)>(r: seq<T>, s: seq<T>)
    decreases |s|
  {
    if r == [] then true
    else if s == [] then false
    else if r[0] == s[0] then IsSubsequence(r[1..], s[1..])
    else IsSubsequence(r, s[1..])
  }

  /** The result keeps the fetched order. */
  lemma {:induction false} FilterKeepsOrder(questions: seq<QuestionView>, query: string)
    ensures IsSubsequence(FilterQuestions(questions, query), questions)
  {
    if questions != [] {
      FilterKeepsOrder(questions[1..], query);
      var rest := FilterQuestions(questions[1..], query);
      if Matches(questions[0], query) {
        assert FilterQuestions(questions, query) == [questions[0]] + rest;
        assert ([questions[0]] + rest)[1..] == rest;
      } else {
        assert FilterQuestions(questions, query) == rest;
        SubsequenceOfTail(rest, questions);
      }
    }
  }

  /** A subsequence of the tail is a subsequence of the whole. */
  lemma {:induction false} SubsequenceOfTail<T>(r: seq<T>, s: seq<T>)
    requires s != [] && IsSubsequence(r, s[1..])
    ensures IsSubsequence(r, s)
    decreases |s|, 0
  {
    if r != [] && r[0] == s[0] {
      assert IsSubsequence(r[1..], s[1..]) by {
        DropHead(r, s[1..]);
      }
    }
  }

  /** Dropping the first element of a subsequence keeps it a subsequence. */
  lemma {:induction false} DropHead<T>(r: seq<T>, s: seq<T>)
    requires r != [] && IsSubsequence(r, s)
    ensures IsSubsequence(r[1..], s)
    decreases |s|, 1
  {
    if r[0] == s[0] {
      if r[1..] != [] {
        SubsequenceOfTail(r[1..], s);
      }
    } else {
      DropHead(r, s[1..]);
      if r[1..] != [] {
        SubsequenceOfTail(r[1..], s);
      }
    }
  }

  /** A list whose every question matches is kept whole. */
  lemma {:induction false} AllMatchingKept(questions: seq<QuestionView>, query: string)
    requires forall i :: 0 <= i < |questions| ==> Matches(questions[i], query)
    ensures FilterQuestions(questions, query) == questions
  {
    if questions != [] {
      AllMatchingKept(questions[1..], query);
      assert [questions[0]] + questions[1..] == questions;
    }
  }

  /** An empty query keeps every fetched question. */
  lemma EmptyQueryKeepsAll(questions: seq<QuestionView>)
    ensures FilterQuestions(questions, "") == questions
  {
    AllMatchingKept(questions, "");
  }

  /** The empty-query test is a shortcut: the empty string occurs in every text. */
  lemma EmptyQueryOccursEverywhere(q: QuestionView)
    ensures Text.Contains(Text.ToLower(q.title), Text.ToLower(""))
  {
    assert Text.OccursAt(Text.ToLower(q.title), "", 0);
  }

  /** Matching ignores the case of the query. */
  lemma MatchIgnoresQueryCase(q: QuestionView, query: string)
    ensures Matches(q, query) <==> Matches(q, Text.ToLower(query))
  {
    Text.ToLowerIdempotent(query);
  }

  /** A question without a category is kept only for its title or its content. */
  lemma UncategorisedMatchesOnText(q: QuestionView, query: string)
    requires q.categoryName.None? && query != ""
    ensures Matches(q, query) <==>
      Text.Contains(Text.ToLower(q.title), Text.ToLower(query)) || Text.Contains(Text.ToLower(q.content), Text.ToLower(query))
  {
  }

  /** Filtering the result again with the same query changes nothing. */
  lemma FilterIdempotent(questions: seq<QuestionView>, query: string)
    ensures FilterQuestions(FilterQuestions(questions, query), query) == FilterQuestions(questions, query)
  {
    var r := FilterQuestions(questions, query);
    assert forall i :: 0 <= i < |r| ==> r[i] in r;
    AllMatchingKept(r, query);
  }
}
