/**
 * The ranker of `findIdtags`: a score map built from the validated citation
 * lists of the query tokens, its keys, and their best-first order.
 */
module Ranking {
  import opened Citations

  /** A map entry, or 0 for a tag with no entry (`answers[citation] || 0`). */
  function ScoreOf(answers: map<Tag, nat>, t: Tag): nat {
    if t in answers then answers[t] else 0
  }

  /** The score of a tag: how often it occurs in the lists, all together. */
  function Score(t: Tag, lists: seq<seq<Tag>>): nat
    decreases |lists|
  {
    if lists == [] then 0
    else Score(t, lists[..|lists| - 1]) + multiset(lists[|lists| - 1])[t]
  }

  /** How many of the lists contain the tag. */
  function Hits(t: Tag, lists: seq<seq<Tag>>): nat
    decreases |lists|
  {
    if lists == [] then 0
    else Hits(t, lists[..|lists| - 1]) + (if t in lists[|lists| - 1] then 1 else 0)
  }

  /** Appending a list adds its occurrences of the tag to the score. */
  lemma ScoreSnoc(t: Tag, lists: seq<seq<Tag>>, l: seq<Tag>)
    ensures Score(t, lists + [l]) == Score(t, lists) + multiset(l)[t]
  {
    assert (lists + [l])[..|lists|] == lists;
  }

  /**
   * With duplicate-free lists (as the store keeps them), the score of a tag is
   * the number of query tokens whose validated list contains it.
   */
  lemma {:induction false} ScoreIsHits(t: Tag, lists: seq<seq<Tag>>)
    requires forall i :: 0 <= i < |lists| ==> NoDup(lists[i])
    ensures Score(t, lists) == Hits(t, lists)
  {
    if lists != [] {
      var last := lists[|lists| - 1];
      assert NoDup(last);
      ScoreIsHits(t, lists[..|lists| - 1]);
    }
  }

  /** A tag has a positive score exactly when some list contains it. */
  lemma {:induction false} ScorePositive(t: Tag, lists: seq<seq<Tag>>)
    ensures Score(t, lists) > 0 <==> exists i :: 0 <= i < |lists| && t in lists[i]
  {
    if lists != [] {
      var init := lists[..|lists| - 1];
      ScorePositive(t, init);
      if exists i :: 0 <= i < |init| && t in init[i] {
        var i :| 0 <= i < |init| && t in init[i];
        assert lists[i] == init[i];
      }
      if exists i :: 0 <= i < |lists| && t in lists[i] {
        var i :| 0 <= i < |lists| && t in lists[i];
        if i < |init| {
          assert init[i] == lists[i];
        }
      }
    }
  }

  /** `answers` holds, for every tag with a positive score, that score, and nothing else. */
  ghost predicate IsScoreMap(answers: map<Tag, nat>, lists: seq<seq<Tag>>) {
    forall t :: (t in answers <==> Score(t, lists) > 0) && ScoreOf(answers, t) == Score(t, lists)
  }

  /**
   * `citations.forEach(c => answers[c] = (answers[c] || 0) + 1)`: add one to the
   * entry of every tag, once per occurrence.
   */
  method Tally(answers: map<Tag, nat>, citations: seq<Tag>) returns (r: map<Tag, nat>)
    ensures forall t :: t in r <==> t in answers || t in citations
    ensures forall t :: ScoreOf(r, t) == ScoreOf(answers, t) + multiset(citations)[t]
  {
    r := answers;
    for i := 0 to |citations|
      invariant forall t :: t in r <==> t in answers || t in citations[..i]
      invariant forall t :: ScoreOf(r, t) == ScoreOf(answers, t) + multiset(citations[..i])[t]
    {
      var c := citations[i];
      assert citations[..i + 1] == citations[..i] + [c];
      r := r[c := ScoreOf(r, c) + 1];
    }
    assert citations[..|citations|] == citations;
  }

  /** Tallying the next list turns the score map of some lists into that of one more. */
  lemma TallyExtends(answers: map<Tag, nat>, lists: seq<seq<Tag>>, l: seq<Tag>, r: map<Tag, nat>)
    requires IsScoreMap(answers, lists)
    requires forall t :: t in r <==> t in answers || t in l
    requires forall t :: ScoreOf(r, t) == ScoreOf(answers, t) + multiset(l)[t]
    ensures IsScoreMap(r, lists + [l])
  {
    forall t ensures (t in r <==> Score(t, lists + [l]) > 0) && ScoreOf(r, t) == Score(t, lists + [l]) {
      ScoreSnoc(t, lists, l);
    }
  }

  /** `Object.keys(answers)`: every key once, in an order the model leaves open. */
  method KeysOf(answers: map<Tag, nat>) returns (ids: seq<Tag>)
    ensures NoDup(ids)
    ensures forall t :: t in ids <==> t in answers
  {
    ids := [];
    var rest := answers.Keys;
    while rest != {}
      invariant rest <= answers.Keys
      invariant forall t :: t in ids <==> t in answers && t !in rest
      invariant NoDup(ids)
      decreases rest
    {
      var t :| t in rest;
      assert t !in ids;
      ids := ids + [t];
      rest := rest - {t};
    }
  }

  /** Best first: no tag is preceded by one with a lower score. */
  ghost predicate NonIncreasing(ids: seq<Tag>, answers: map<Tag, nat>) {
    forall i, j :: 0 <= i < j < |ids| ==> ScoreOf(answers, ids[i]) >= ScoreOf(answers, ids[j])
  }

  /** Insert a tag into a best-first list, keeping it best first. */
  function InsertByScore(t: Tag, sorted: seq<Tag>, answers: map<Tag, nat>): (r: seq<Tag>)
    requires NonIncreasing(sorted, answers)
    ensures multiset(r) == multiset(sorted) + multiset{t}
    ensures NonIncreasing(r, answers)
  {
    if sorted == [] || ScoreOf(answers, t) >= ScoreOf(answers, sorted[0]) then
      ConsNonIncreasing(t, sorted, answers);
      [t] + sorted
    else
      var head := sorted[0];
      var tail := sorted[1..];
      assert sorted == [head] + tail;
      assert NonIncreasing(tail, answers);
      var rest := InsertByScore(t, tail, answers);
      forall y | y in rest ensures ScoreOf(answers, y) <= ScoreOf(answers, head) {
        assert y in multiset(rest);
        if y != t {
          assert y in multiset(tail);
        }
      }
      ConsNonIncreasing(head, rest, answers);
      [head] + rest
  }

  /** A tag scoring at least as much as every tag of a best-first list can go in front. */
  lemma ConsNonIncreasing(x: Tag, l: seq<Tag>, answers: map<Tag, nat>)
    requires NonIncreasing(l, answers)
    requires forall y :: y in l ==> ScoreOf(answers, y) <= ScoreOf(answers, x)
    ensures NonIncreasing([x] + l, answers)
  {
    var r := [x] + l;
    forall i, j | 0 <= i < j < |r| ensures ScoreOf(answers, r[i]) >= ScoreOf(answers, r[j]) {
      assert r[j] == l[j - 1];
      if i > 0 {
        assert r[i] == l[i - 1];
      }
    }
  }

  /**
   * `ids.sort((a, b) => answers[b] - answers[a])`: a best-first permutation of
   * the keys. How ties are broken is left open.
   */
  function SortByScore(ids: seq<Tag>, answers: map<Tag, nat>): (r: seq<Tag>)
    ensures multiset(r) == multiset(ids)
    ensures NonIncreasing(r, answers)
  {
    if ids == [] then []
    else
      assert ids == [ids[0]] + ids[1..];
      InsertByScore(ids[0], SortByScore(ids[1..], answers), answers)
  }

  /** A permutation of a duplicate-free list is duplicate free and has the same elements. */
  lemma PermutationNoDup(a: seq<Tag>, b: seq<Tag>)
    requires multiset(a) == multiset(b) && NoDup(a)
    ensures NoDup(b) && forall x :: x in a <==> x in b
  {
    forall x ensures x in a <==> x in b {
      assert x in a <==> x in multiset(a);
      assert x in b <==> x in multiset(b);
    }
  }

  /**
   * What `findIdtags` answers for the validated lists of its tokens: every tag
   * with a positive score exactly once, nothing else, best first.
   */
  ghost predicate IsRanking(ids: seq<Tag>, lists: seq<seq<Tag>>) {
    && NoDup(ids)
    && (forall t :: t in ids <==> Score(t, lists) > 0)
    && (forall i, j :: 0 <= i < j < |ids| ==> Score(ids[i], lists) >= Score(ids[j], lists))
  }

  /** A query none of whose tokens has citations answers the empty list. */
  lemma RankingOfNothing(ids: seq<Tag>, lists: seq<seq<Tag>>)
    requires forall i :: 0 <= i < |lists| ==> lists[i] == []
    requires IsRanking(ids, lists)
    ensures ids == []
  {
    if ids != [] {
      ScorePositive(ids[0], lists);
      assert false;
    }
  }
}
