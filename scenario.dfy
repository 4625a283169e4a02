/**
 * The reference run of the index: citations of two tags against a few texts,
 * then queries with and without a liveness oracle, checked against the answers
 * the library's test suite expects.
 */
module Scenario {
  import opened Wrappers
  import opened Tokenizer
  import opened Citations
  import opened Ranking
  import opened SimpleSearch

  /** A ranking of exactly two tags with different scores is the better one, then the other. */
  lemma RankTwo(ids: seq<Tag>, lists: seq<seq<Tag>>, a: Tag, b: Tag)
    requires IsRanking(ids, lists)
    requires Score(a, lists) > Score(b, lists) > 0
    requires forall t :: Score(t, lists) > 0 ==> t == a || t == b
    ensures ids == [a, b]
  {
    assert multiset(ids) == multiset{a, b} by {
      forall x ensures multiset(ids)[x] == multiset{a, b}[x] {
        if x in ids {
          assert multiset(ids)[x] <= 1;
        }
      }
    }
    assert |ids| == 2 by {
      assert |multiset(ids)| == |ids|;
    }
    assert ids[0] != ids[1] by {
      assert ids == [ids[0], ids[1]];
    }
    assert ids[0] in ids && ids[1] in ids;
  }

  /** A ranking of exactly one tag is that tag alone. */
  lemma RankOne(ids: seq<Tag>, lists: seq<seq<Tag>>, a: Tag)
    requires IsRanking(ids, lists)
    requires Score(a, lists) > 0
    requires forall t :: Score(t, lists) > 0 ==> t == a
    ensures ids == [a]
  {
    assert multiset(ids) == multiset{a} by {
      forall x ensures multiset(ids)[x] == multiset{a}[x] {
        if x in ids {
          assert multiset(ids)[x] <= 1;
        }
      }
    }
    assert |ids| == 1 by {
      assert |multiset(ids)| == |ids|;
    }
    assert ids[0] in ids;
  }

  // The keys the texts of the run reach.

  lemma KeysFooBarBaz()
    ensures CitedKeys(["foo", "bar", "baz"]) == {"FOO", "BAR", "BAZ"}
    ensures CitedKeys(["foo", "bar", "baz", "bar"]) == {"FOO", "BAR", "BAZ"}
  {
    assert Upper("foo") == "FOO" && Upper("bar") == "BAR" && Upper("baz") == "BAZ";
    var a := ["foo", "bar", "baz"];
    var b := ["foo", "bar", "baz", "bar"];
    assert forall w :: w in a <==> w == "foo" || w == "bar" || w == "baz";
    assert forall w :: w in b <==> w == "foo" || w == "bar" || w == "baz";
  }

  lemma KeysBarRedWhite()
    ensures CitedKeys(["bar", "red", "white"]) == {"BAR", "RED", "WHITE"}
  {
    assert Upper("bar") == "BAR" && Upper("red") == "RED" && Upper("white") == "WHITE";
    var c := ["bar", "red", "white"];
    assert forall w :: w in c <==> w == "bar" || w == "red" || w == "white";
  }

  /** The store after the citations of tag1: its three words list tag1. */
  function StoreOfTag1(): Store {
    var s1 := CiteAll(map[], "tag1", ["foo", "bar", "baz"]);
    var s2 := CiteAll(s1, "tag1", ["foo", "bar", "baz"]);
    CiteAll(s2, "tag1", ["foo", "bar", "baz", "bar"])
  }

  /** Citing tag1 against words reaching FOO, BAR and BAZ, where at most tag1 is listed. */
  lemma CiteTag1Step(before: Store, words: seq<string>, k: string)
    requires CitedKeys(words) == {"FOO", "BAR", "BAZ"}
    requires Fetch(before, k) == [] || (Fetch(before, k) == ["tag1"] && k in {"FOO", "BAR", "BAZ"})
    ensures Fetch(CiteAll(before, "tag1", words), k) == if k in {"FOO", "BAR", "BAZ"} then ["tag1"] else []
  {
    CiteAllClosedForm(before, "tag1", words, k);
    assert [] + ["tag1"] == ["tag1"];
  }

  lemma StoreOfTag1At(k: string)
    ensures Fetch(StoreOfTag1(), k) == if k in {"FOO", "BAR", "BAZ"} then ["tag1"] else []
  {
    KeysFooBarBaz();
    var s0: Store := map[];
    var s1 := CiteAll(s0, "tag1", ["foo", "bar", "baz"]);
    var s2 := CiteAll(s1, "tag1", ["foo", "bar", "baz"]);
    CiteTag1Step(s0, ["foo", "bar", "baz"], k);
    CiteTag1Step(s1, ["foo", "bar", "baz"], k);
    CiteTag1Step(s2, ["foo", "bar", "baz", "bar"], k);
  }

  /** The store after all four citation calls of the run. */
  function RunStore(): Store {
    CiteAll(StoreOfTag1(), "tag2", ["bar", "red", "white"])
  }

  // Citing tag2 against "bar red white" in a store where tag1 alone lists BAR.

  lemma CiteTag2AtBar(before: Store)
    requires Fetch(before, "BAR") == ["tag1"]
    ensures Fetch(CiteAll(before, "tag2", ["bar", "red", "white"]), "BAR") == ["tag1", "tag2"]
  {
    KeysBarRedWhite();
    CiteAllClosedForm(before, "tag2", ["bar", "red", "white"], "BAR");
    assert ["tag1"] + ["tag2"] == ["tag1", "tag2"];
  }

  lemma CiteTag2AtRed(before: Store)
    requires Fetch(before, "RED") == []
    ensures Fetch(CiteAll(before, "tag2", ["bar", "red", "white"]), "RED") == ["tag2"]
  {
    KeysBarRedWhite();
    CiteAllClosedForm(before, "tag2", ["bar", "red", "white"], "RED");
    assert [] + ["tag2"] == ["tag2"];
  }

  lemma CiteTag2Elsewhere(before: Store, k: string)
    requires k != "BAR" && k != "RED" && k != "WHITE"
    ensures Fetch(CiteAll(before, "tag2", ["bar", "red", "white"]), k) == Fetch(before, k)
  {
    KeysBarRedWhite();
    CiteAllClosedForm(before, "tag2", ["bar", "red", "white"], k);
  }

  /** What the run's store lists for the words the queries ask about. */
  lemma RunStoreAt(k: string)
    requires k in {"BAR", "RED", "BLUE", "NOT", "PRESENT"}
    ensures Fetch(RunStore(), k) == if k == "BAR" then ["tag1", "tag2"] else if k == "RED" then ["tag2"] else []
  {
    StoreOfTag1At(k);
    if k == "BAR" {
      CiteTag2AtBar(StoreOfTag1());
    } else if k == "RED" {
      CiteTag2AtRed(StoreOfTag1());
    } else {
      assert k != "WHITE";
      CiteTag2Elsewhere(StoreOfTag1(), k);
    }
  }

  // The texts of the test suite split into the words they are built from.

  lemma TokensFooBarBaz() ensures Split(Join(["foo", "bar", "baz"], "  ")) == ["foo", "bar", "baz"] {
    JoinSplit(["foo", "bar", "baz"], "  ");
  }

  lemma TokensFooBarBazBar() ensures Split(Join(["foo", "bar", "baz", "bar"], "   ")) == ["foo", "bar", "baz", "bar"] {
    JoinSplit(["foo", "bar", "baz", "bar"], "   ");
  }

  lemma TokensBarRedWhite() ensures Split(Join(["bar", "red", "white"], "  ")) == ["bar", "red", "white"] {
    JoinSplit(["bar", "red", "white"], "  ");
  }

  lemma TokensRedBar() ensures Split(Join(["red", "bar"], " ")) == ["red", "bar"] {
    JoinSplit(["red", "bar"], " ");
  }

  lemma TokensBarRed() ensures Split(Join(["BAR", "RED"], " ")) == ["BAR", "RED"] {
    JoinSplit(["BAR", "RED"], " ");
  }

  lemma TokensNotPresent() ensures Split(Join(["not", "present"], " ")) == ["not", "present"] {
    JoinSplit(["not", "present"], " ");
  }

  lemma TokensRedBlue() ensures Split(Join(["red", "blue"], " ")) == ["red", "blue"] {
    JoinSplit(["red", "blue"], " ");
  }

  lemma TokensBar() ensures Split(Join(["bar"], "")) == ["bar"] {
    JoinSplit(["bar"], "");
  }

  /** The texts above are the ones the test suite writes out. */
  lemma TestSuiteTexts()
    ensures Join(["foo", "bar", "baz"], "  ") == "foo bar baz"
    ensures Join(["foo", "bar", "baz", "bar"], "   ") == "foo bar baz bar"
    ensures Join(["bar", "red", "white"], "  ") == "bar red white"
    ensures Join(["red", "bar"], " ") == "red bar"
    ensures Join(["BAR", "RED"], " ") == "BAR RED"
    ensures Join(["not", "present"], " ") == "not present"
    ensures Join(["red", "blue"], " ") == "red blue"
    ensures Join(["bar"], "") == "bar"
  {
  }

  /** The oracle of the test suite's last query: every tag but tag2 is live. */
  function Tag2Dead(t: Tag): bool {
    t != "tag2"
  }

  // The storage keys of the query words.

  lemma UpperRed() ensures Upper("red") == "RED" {
    UpperCons('r', "ed");
  }

  lemma UpperBar() ensures Upper("bar") == "BAR" {
    UpperCons('b', "ar");
  }

  lemma UpperBlue() ensures Upper("blue") == "BLUE" {
    UpperCons('b', "lue");
  }

  lemma UpperNot() ensures Upper("not") == "NOT" {
    UpperCons('n', "ot");
  }

  lemma UpperPresent() ensures Upper("present") == "PRESENT" {
    UpperCons('n', "t");
    assert Upper("nt") == "NT";
    UpperCons('e', "nt");
    assert Upper("ent") == "ENT";
    UpperCons('s', "ent");
    assert Upper("sent") == "SENT";
    UpperCons('e', "sent");
    assert Upper("esent") == "ESENT";
    UpperCons('r', "esent");
    assert Upper("resent") == "RESENT";
    UpperCons('p', "resent");
  }

  /** What the queries need of a store: the entries the run leaves for their words. */
  predicate RunEntries(s: Store) {
    && Fetch(s, "BAR") == ["tag1", "tag2"] && Fetch(s, "RED") == ["tag2"]
    && Fetch(s, "BLUE") == [] && Fetch(s, "NOT") == [] && Fetch(s, "PRESENT") == []
  }

  lemma RunStoreEntries()
    ensures RunEntries(RunStore())
  {
    RunStoreAt("BAR");
    RunStoreAt("RED");
    RunStoreAt("BLUE");
    RunStoreAt("NOT");
    RunStoreAt("PRESENT");
  }

  /** The scores of two lists, list by list. */
  lemma ScoreTwo(t: Tag, l0: seq<Tag>, l1: seq<Tag>)
    ensures Score(t, [l0, l1]) == multiset(l0)[t] + multiset(l1)[t]
  {
    ScoreSnoc(t, [], l0);
    ScoreSnoc(t, [l0], l1);
    assert [] + [l0] == [l0] && [l0] + [l1] == [l0, l1];
  }

  lemma QueryRedBar(s: Store, ids: seq<Tag>)
    requires RunEntries(s)
    requires IsRanking(ids, Validated(s, None, ["red", "bar"]))
    ensures ids == ["tag2", "tag1"]
  {
    var lists := Validated(s, None, ["red", "bar"]);
    UpperRed();
    UpperBar();
    assert lists == [["tag2"], ["tag1", "tag2"]];
    ScoreTwo("tag1", ["tag2"], ["tag1", "tag2"]);
    ScoreTwo("tag2", ["tag2"], ["tag1", "tag2"]);
    forall t | Score(t, lists) > 0 ensures t == "tag1" || t == "tag2" {
      ScorePositive(t, lists);
    }
    RankTwo(ids, lists, "tag2", "tag1");
  }

  lemma QueryBarRedUpper(s: Store, ids: seq<Tag>)
    requires RunEntries(s)
    requires IsRanking(ids, Validated(s, None, ["BAR", "RED"]))
    ensures ids == ["tag2", "tag1"]
  {
    var lists := Validated(s, None, ["BAR", "RED"]);
    UpperRed();
    UpperBar();
    UpperIdempotent("red");
    UpperIdempotent("bar");
    assert lists == [["tag1", "tag2"], ["tag2"]];
    ScoreTwo("tag1", ["tag1", "tag2"], ["tag2"]);
    ScoreTwo("tag2", ["tag1", "tag2"], ["tag2"]);
    forall t | Score(t, lists) > 0 ensures t == "tag1" || t == "tag2" {
      ScorePositive(t, lists);
    }
    RankTwo(ids, lists, "tag2", "tag1");
  }

  lemma QueryNotPresent(s: Store, ids: seq<Tag>)
    requires RunEntries(s)
    requires IsRanking(ids, Validated(s, None, ["not", "present"]))
    ensures ids == []
  {
    var lists := Validated(s, None, ["not", "present"]);
    UpperNot();
    UpperPresent();
    RankingOfNothing(ids, lists);
  }

  lemma QueryRedBlue(s: Store, ids: seq<Tag>)
    requires RunEntries(s)
    requires IsRanking(ids, Validated(s, None, ["red", "blue"]))
    ensures ids == ["tag2"]
  {
    var lists := Validated(s, None, ["red", "blue"]);
    UpperRed();
    UpperBlue();
    assert lists == [["tag2"], []];
    ScoreTwo("tag2", ["tag2"], []);
    forall t | Score(t, lists) > 0 ensures t == "tag2" {
      ScorePositive(t, lists);
    }
    RankOne(ids, lists, "tag2");
  }

  lemma QueryBarPruned(s: Store, ids: seq<Tag>)
    requires RunEntries(s)
    requires IsRanking(ids, Validated(s, Some(Tag2Dead), ["bar"]))
    ensures ids == ["tag1"]
    ensures Fetch(ValidateAll(s, Some(Tag2Dead), ["bar"]), "BAR") == ["tag1"]
  {
    var lists := Validated(s, Some(Tag2Dead), ["bar"]);
    UpperBar();
    assert Filter(["tag1", "tag2"], Tag2Dead) == ["tag1"] by {
      assert ["tag1", "tag2"][1..] == ["tag2"];
    }
    assert lists == [["tag1"]];
    forall t | Score(t, lists) > 0 ensures t == "tag1" {
      ScorePositive(t, lists);
    }
    RankOne(ids, lists, "tag1");
    ValidateAllClosedForm(s, Some(Tag2Dead), ["bar"], "BAR");
    assert "bar" in ["bar"];
  }

  /**
   * The run of the test suite: four citation calls, four queries, then the
   * same storage with an oracle that reports tag2 dead, and a last query.
   */
  method ReferenceRun()
  {
    TestSuiteTexts();
    TokensFooBarBaz();
    TokensFooBarBazBar();
    TokensBarRedWhite();
    TokensRedBar();
    TokensBarRed();
    TokensNotPresent();
    TokensRedBlue();
    TokensBar();
    var index := new Index(map[], None);
    index.AddCitations("tag1", Join(["foo", "bar", "baz"], "  "));
    index.AddCitations("tag1", Join(["foo", "bar", "baz"], "  "));
    index.AddCitations("tag1", Join(["foo", "bar", "baz", "bar"], "   "));
    index.AddCitations("tag2", Join(["bar", "red", "white"], "  "));
    assert index.store == RunStore();
    RunStoreEntries();
    ghost var s := index.store;

    var ids := index.FindIdtags(Join(["red", "bar"], " "));
    QueryRedBar(s, ids);
    assert ids == ["tag2", "tag1"];
    ValidateAllWithoutOracle(s, ["red", "bar"]);

    ids := index.FindIdtags(Join(["BAR", "RED"], " "));
    QueryBarRedUpper(s, ids);
    assert ids == ["tag2", "tag1"];
    ValidateAllWithoutOracle(s, ["BAR", "RED"]);

    ids := index.FindIdtags(Join(["not", "present"], " "));
    QueryNotPresent(s, ids);
    assert ids == [];
    ValidateAllWithoutOracle(s, ["not", "present"]);

    ids := index.FindIdtags(Join(["red", "blue"], " "));
    QueryRedBlue(s, ids);
    assert ids == ["tag2"];
    ValidateAllWithoutOracle(s, ["red", "blue"]);

    index.Configure(index.store, Some(Tag2Dead));
    ids := index.FindIdtags(Join(["bar"], ""));
    QueryBarPruned(s, ids);
    assert ids == ["tag1"];
    assert Fetch(index.store, "BAR") == ["tag1"];
  }
}
