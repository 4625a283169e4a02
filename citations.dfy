/**
 * Citation lists and the two decision functions the index hands to the storage
 * collaborator: the one of `addCitation` (record a tag against a word) and the
 * one of `citationsOf` (drop tags the liveness oracle no longer reports live).
 *
 * The storage collaborator's contents are a finite map from upper-cased word to
 * citation list. Each per-word operation is one fetch-decide-commit cycle, which
 * the collaborator makes atomic per key; a whole call is therefore the
 * sequential composition of the per-word cycles, modelled here as a fold.
 */
module Citations {
  import opened Wrappers
  import opened Tokenizer

  /** An opaque identifier owned by some external registry. */
  type Tag = string

  /** The storage collaborator's contents: word (upper-cased) to citation list. */
  type Store = map<string, seq<Tag>>

  /** The list the storage collaborator hands to a decision function: empty if the word is unknown. */
  function Fetch(s: Store, key: string): seq<Tag> {
    if key in s then s[key] else []
  }

  /** No tag occurs twice in a list. */
  predicate NoDup(l: seq<Tag>) {
    forall x :: x in l ==> multiset(l)[x] <= 1
  }

  /** Every stored citation list is free of duplicates. */
  ghost predicate WellFormed(s: Store) {
    forall k :: k in s ==> NoDup(s[k])
  }

  /**
   * What a decision function passes to `writerFunction(error, newOrUndefined, result)`:
   * an optional replacement list for the key, and the result handed on to the caller.
   */
  datatype Decision = Decision(update: Option<seq<Tag>>, result: seq<Tag>)

  /** The list the key holds after a decision has been committed. */
  function After(data: seq<Tag>, update: Option<seq<Tag>>): seq<Tag> {
    match update
    case None => data
    case Some(l) => l
  }

  /** The collaborator's commit: persist the replacement, if there is one. */
  function Commit(s: Store, key: string, update: Option<seq<Tag>>): Store {
    match update
    case None => s
    case Some(l) => s[key := l]
  }

  /**
   * The write check of the in-memory test storage: a write must not create an
   * empty list where the fetched list was empty.
   */
  predicate AcceptableWrite(before: seq<Tag>, update: Option<seq<Tag>>) {
    !(update.Some? && update.value == [] && before == [])
  }

  // ---------------------------------------------------------------------------
  // Writing citations
  // ---------------------------------------------------------------------------

  /**
   * The decision function of `addCitation`: if the tag is already listed, ask
   * for no write; otherwise append it and ask for the longer list to be written.
   * Either way, the tag then occurs exactly once and nothing else changed.
   */
  function CiteDecision(tag: Tag, data: seq<Tag>): (d: Decision)
    ensures d.update.None? <==> tag in data
    ensures d.update.Some? ==> d.update.value == data + [tag]
    ensures AcceptableWrite(data, d.update)
    ensures NoDup(data) ==> multiset(After(data, d.update))[tag] == 1
    ensures forall x :: x != tag ==> multiset(After(data, d.update))[x] == multiset(data)[x]
    ensures NoDup(data) ==> NoDup(After(data, d.update))
  {
    if tag in data then Decision(None, [])
    else Decision(Some(data + [tag]), [])
  }

  /** The store after `addCitation(tag, word)`; an empty word makes no storage call. */
  function Cite(s: Store, tag: Tag, word: string): Store {
    if word == "" then s
    else
      var key := Upper(word);
      Commit(s, key, CiteDecision(tag, Fetch(s, key)).update)
  }

  /** The store after `addCitation` on each word in turn. */
  function CiteAll(s: Store, tag: Tag, words: seq<string>): Store
    decreases |words|
  {
    if words == [] then s
    else Cite(CiteAll(s, tag, words[..|words| - 1]), tag, words[|words| - 1])
  }

  /** Citing against one more word is one more `addCitation`. */
  lemma CiteAllPrefix(s: Store, tag: Tag, words: seq<string>, i: int)
    requires 0 <= i < |words|
    ensures CiteAll(s, tag, words[..i + 1]) == Cite(CiteAll(s, tag, words[..i]), tag, words[i])
  {
    assert words[..i + 1][..i] == words[..i];
  }

  /** Citing a tag already listed for the word, or an empty word, changes nothing. */
  lemma CiteListed(s: Store, tag: Tag, word: string)
    requires word == "" || tag in Fetch(s, Upper(word))
    ensures Cite(s, tag, word) == s
  {
  }

  /** The keys a sequence of words reaches: the upper-cased non-empty words. */
  function CitedKeys(words: seq<string>): set<string> {
    set w | w in words && w != "" :: Upper(w)
  }

  lemma CitedKeysSnoc(words: seq<string>, w: string)
    ensures CitedKeys(words + [w]) == CitedKeys(words) + (if w == "" then {} else {Upper(w)})
  {
    var l := words + [w];
    assert forall x :: x in l <==> x in words || x == w;
  }

  /**
   * What citing a tag against a sequence of words does, key by key: a reached
   * key whose list lacks the tag gets the tag appended, and every other key keeps
   * its list. The keys of the store grow by exactly the reached keys.
   */
  lemma {:induction false} CiteAllClosedForm(s: Store, tag: Tag, words: seq<string>, k: string)
    ensures k in CiteAll(s, tag, words) <==> k in s || k in CitedKeys(words)
    ensures Fetch(CiteAll(s, tag, words), k) ==
            if k in CitedKeys(words) && tag !in Fetch(s, k) then Fetch(s, k) + [tag] else Fetch(s, k)
  {
    if words != [] {
      var init := words[..|words| - 1];
      var w := words[|words| - 1];
      assert words == init + [w];
      CiteAllClosedForm(s, tag, init, k);
      CitedKeysSnoc(init, w);
    }
  }

  /**
   * Coverage: after citing a tag against a text's tokens, every non-empty token's
   * key lists the tag.
   */
  lemma CiteAllCovers(s: Store, tag: Tag, words: seq<string>, i: int)
    requires 0 <= i < |words| && words[i] != ""
    ensures tag in Fetch(CiteAll(s, tag, words), Upper(words[i]))
  {
    CiteAllClosedForm(s, tag, words, Upper(words[i]));
  }

  /** Citation never removes anything: every tag a key listed is still listed. */
  lemma CiteAllKeeps(s: Store, tag: Tag, words: seq<string>, k: string, x: Tag)
    requires x in Fetch(s, k)
    ensures x in Fetch(CiteAll(s, tag, words), k)
  {
    CiteAllClosedForm(s, tag, words, k);
  }

  /** Citing the same tag against the same words a second time changes nothing. */
  lemma CiteAllIdempotent(s: Store, tag: Tag, words: seq<string>)
    ensures CiteAll(CiteAll(s, tag, words), tag, words) == CiteAll(s, tag, words)
  {
    var once := CiteAll(s, tag, words);
    var twice := CiteAll(once, tag, words);
    forall k | true
      ensures (k in twice <==> k in once) && Fetch(twice, k) == Fetch(once, k)
    {
      CiteAllClosedForm(s, tag, words, k);
      CiteAllClosedForm(once, tag, words, k);
    }
    MapsEqualByFetch(twice, once);
  }

  /** Two stores with the same keys and the same lists are equal. */
  lemma MapsEqualByFetch(a: Store, b: Store)
    requires forall k :: (k in a <==> k in b) && Fetch(a, k) == Fetch(b, k)
    ensures a == b
  {
    assert a.Keys == b.Keys;
    forall k | k in a ensures a[k] == b[k] {
      assert Fetch(a, k) == Fetch(b, k);
    }
  }

  /** Citation keeps every list free of duplicates. */
  lemma CiteAllWellFormed(s: Store, tag: Tag, words: seq<string>)
    requires WellFormed(s)
    ensures WellFormed(CiteAll(s, tag, words))
  {
    var r := CiteAll(s, tag, words);
    forall k | k in r ensures NoDup(r[k]) {
      CiteAllClosedForm(s, tag, words, k);
      var before := Fetch(s, k);
      assert NoDup(before);
      if k in CitedKeys(words) && tag !in before {
        assert r[k] == before + [tag];
        assert multiset(r[k]) == multiset(before) + multiset{tag};
      }
    }
  }

  /**
   * Citation creates no empty list: every key that holds an empty list afterwards
   * held that same empty list before.
   */
  lemma CiteAllNoEmptyEntries(s: Store, tag: Tag, words: seq<string>, k: string)
    requires k in CiteAll(s, tag, words) && CiteAll(s, tag, words)[k] == []
    ensures k in s && s[k] == []
  {
    CiteAllClosedForm(s, tag, words, k);
  }

  /** Citing the tokens of two texts equal up to case has the same effect. */
  lemma CiteAllCaseInsensitive(s: Store, tag: Tag, a: string, b: string)
    requires Upper(a) == Upper(b)
    ensures CiteAll(s, tag, Split(a)) == CiteAll(s, tag, Split(b))
  {
    SameKeysUpToCase(a, b);
    CitedKeysByUpper(Split(a), Split(b));
    var ra := CiteAll(s, tag, Split(a));
    var rb := CiteAll(s, tag, Split(b));
    forall k | true ensures (k in ra <==> k in rb) && Fetch(ra, k) == Fetch(rb, k) {
      CiteAllClosedForm(s, tag, Split(a), k);
      CiteAllClosedForm(s, tag, Split(b), k);
    }
    MapsEqualByFetch(ra, rb);
  }

  /** The keys reached depend only on the upper-cased words. */
  lemma CitedKeysByUpper(a: seq<string>, b: seq<string>)
    requires UpperAll(a) == UpperAll(b)
    ensures CitedKeys(a) == CitedKeys(b)
  {
    forall k | k in CitedKeys(a) ensures k in CitedKeys(b) {
      var i :| 0 <= i < |a| && a[i] != "" && Upper(a[i]) == k;
      assert UpperAll(a)[i] == UpperAll(b)[i];
      assert b[i] in b && b[i] != "";
    }
    forall k | k in CitedKeys(b) ensures k in CitedKeys(a) {
      var i :| 0 <= i < |b| && b[i] != "" && Upper(b[i]) == k;
      assert UpperAll(a)[i] == UpperAll(b)[i];
      assert a[i] in a && a[i] != "";
    }
  }

  // ---------------------------------------------------------------------------
  // Reading and validating citations
  // ---------------------------------------------------------------------------

  /** Is `r` obtained from `d` by deleting elements, keeping the order of the rest? */
  predicate IsSubsequence(r: seq<Tag>, d: seq<Tag>)
    decreases |d|
  {
    if r == [] then true
    else if d == [] then false
    else if r[0] == d[0] then IsSubsequence(r[1..], d[1..])
    else IsSubsequence(r, d[1..])
  }

  /** `async.filter(citations, idtagExists, ...)`: the live tags, in their order. */
  function Filter(d: seq<Tag>, live: Tag -> bool): (r: seq<Tag>)
    ensures |r| <= |d|
    ensures forall x :: x in r <==> x in d && live(x)
    ensures multiset(r) <= multiset(d)
    ensures forall x :: multiset(r)[x] == if live(x) then multiset(d)[x] else 0
    ensures IsSubsequence(r, d)
  {
    if d == [] then []
    else
      var rest := Filter(d[1..], live);
      assert d == [d[0]] + d[1..];
      assert multiset(d) == multiset([d[0]]) + multiset(d[1..]);
      if live(d[0]) then
        var r := [d[0]] + rest;
        assert r[1..] == rest;
        assert multiset(r) == multiset([d[0]]) + multiset(rest);
        r
      else
        rest
  }

  /** Filtering that removes nothing returns the list itself: equal length means equal content. */
  lemma {:induction false} FilterKeepsAll(d: seq<Tag>, live: Tag -> bool)
    requires |Filter(d, live)| == |d|
    ensures Filter(d, live) == d
  {
    if d != [] {
      assert live(d[0]);
      FilterKeepsAll(d[1..], live);
    }
  }

  /** Filtering a filtered list again removes nothing more. */
  lemma {:induction false} FilterIdempotent(d: seq<Tag>, live: Tag -> bool)
    ensures Filter(Filter(d, live), live) == Filter(d, live)
  {
    if d != [] {
      FilterIdempotent(d[1..], live);
      if live(d[0]) {
        var r := Filter(d, live);
        assert r[0] == d[0] && r[1..] == Filter(d[1..], live);
      }
    }
  }

  /** The validated list of a fetched list: filtered if an oracle is configured. */
  function ValidList(live: Option<Tag -> bool>, d: seq<Tag>): seq<Tag> {
    match live
    case None => d
    case Some(p) => Filter(d, p)
  }

  /**
   * The decision function of `citationsOf`. Its result is always the validated
   * list. It asks for a write exactly when an oracle is configured and filtering
   * removed at least one tag, and then writes that filtered list.
   */
  function ValidateDecision(live: Option<Tag -> bool>, citations: seq<Tag>): (d: Decision)
    ensures d.result == ValidList(live, citations)
    ensures d.update.Some? <==> live.Some? && |ValidList(live, citations)| < |citations|
    ensures d.update.Some? ==> d.update.value == ValidList(live, citations)
    ensures AcceptableWrite(citations, d.update)
    ensures NoDup(citations) ==> NoDup(After(citations, d.update))
  {
    if live.None? || |citations| == 0 then Decision(None, citations)
    else
      var filtered := Filter(citations, live.value);
      if |filtered| == |citations| then
        FilterKeepsAll(citations, live.value);
        Decision(None, citations)
      else
        Decision(Some(filtered), filtered)
  }

  /** The store after `citationsOf(word)`. */
  function Validate(s: Store, live: Option<Tag -> bool>, word: string): Store {
    var key := Upper(word);
    Commit(s, key, ValidateDecision(live, Fetch(s, key)).update)
  }

  /** The store after `citationsOf` on each word in turn. */
  function ValidateAll(s: Store, live: Option<Tag -> bool>, words: seq<string>): Store
    decreases |words|
  {
    if words == [] then s
    else Validate(ValidateAll(s, live, words[..|words| - 1]), live, words[|words| - 1])
  }

  /** The validated list of each word, all read from the same store. */
  function Validated(s: Store, live: Option<Tag -> bool>, words: seq<string>): (lists: seq<seq<Tag>>)
    ensures |lists| == |words|
  {
    seq(|words|, i requires 0 <= i < |words| => ValidList(live, Fetch(s, Upper(words[i]))))
  }

  /** Validating one more word is one more `citationsOf`, and adds its validated list. */
  lemma ValidatePrefix(s: Store, live: Option<Tag -> bool>, words: seq<string>, i: int)
    requires 0 <= i < |words|
    ensures ValidateAll(s, live, words[..i + 1]) == Validate(ValidateAll(s, live, words[..i]), live, words[i])
    ensures Validated(s, live, words[..i + 1]) ==
            Validated(s, live, words[..i]) + [ValidList(live, Fetch(s, Upper(words[i])))]
  {
    var pre := words[..i];
    var ext := words[..i + 1];
    assert ext[..i] == pre;
    var l := Validated(s, live, ext);
    var m := Validated(s, live, pre) + [ValidList(live, Fetch(s, Upper(words[i])))];
    assert |l| == |m|;
    forall j | 0 <= j < |l| ensures l[j] == m[j] {
      assert ext[j] == words[j];
      if j < i {
        assert pre[j] == words[j];
      }
    }
  }

  /** The keys a sequence of query words reaches, empty words included. */
  function QueriedKeys(words: seq<string>): set<string> {
    set w | w in words :: Upper(w)
  }

  /** The validated list is a fixed point of validation. */
  lemma ValidListIdempotent(live: Option<Tag -> bool>, d: seq<Tag>)
    ensures ValidList(live, ValidList(live, d)) == ValidList(live, d)
  {
    if live.Some? {
      FilterIdempotent(d, live.value);
    }
  }

  /**
   * What validating a sequence of words does, key by key: every queried key now
   * holds its validated list, every other key keeps its list, and no key is
   * created. This is why pruning persists: a tag the oracle rejected is gone
   * from the store for every queried word.
   */
  lemma {:induction false} ValidateAllClosedForm(s: Store, live: Option<Tag -> bool>, words: seq<string>, k: string)
    ensures k in ValidateAll(s, live, words) <==> k in s
    ensures Fetch(ValidateAll(s, live, words), k) ==
            if k in QueriedKeys(words) then ValidList(live, Fetch(s, k)) else Fetch(s, k)
  {
    if words != [] {
      var init := words[..|words| - 1];
      var w := words[|words| - 1];
      assert words == init + [w];
      assert QueriedKeys(words) == QueriedKeys(init) + {Upper(w)} by {
        assert forall x :: x in words <==> x in init || x == w;
      }
      ValidateAllClosedForm(s, live, init, k);
      ValidateAt(ValidateAll(s, live, init), live, w, k);
      ValidListIdempotent(live, Fetch(s, k));
    }
  }

  /** One `citationsOf`: its key now holds the validated list, no other key changes, no key is created. */
  lemma ValidateAt(s: Store, live: Option<Tag -> bool>, w: string, k: string)
    ensures k in Validate(s, live, w) <==> k in s
    ensures Fetch(Validate(s, live, w), k) ==
            if Upper(w) == k then ValidList(live, Fetch(s, k)) else Fetch(s, k)
  {
    if Upper(w) == k {
      var d := Fetch(s, k);
      if ValidateDecision(live, d).update.None? && live.Some? {
        if |d| == 0 {
          assert Filter(d, live.value) == [];
        } else {
          FilterKeepsAll(d, live.value);
        }
      }
    }
  }

  /**
   * Validating leaves every validated list as it was: a later `citationsOf` of
   * any word in the same query sees the same list as it would have seen first.
   */
  lemma ValidateAllKeepsValidLists(s: Store, live: Option<Tag -> bool>, words: seq<string>, k: string)
    ensures ValidList(live, Fetch(ValidateAll(s, live, words), k)) == ValidList(live, Fetch(s, k))
  {
    ValidateAllClosedForm(s, live, words, k);
    ValidListIdempotent(live, Fetch(s, k));
  }

  /** Without an oracle, reading citations never writes. */
  lemma ValidateAllWithoutOracle(s: Store, words: seq<string>)
    ensures ValidateAll(s, None, words) == s
  {
    var r := ValidateAll(s, None, words);
    forall k | true ensures (k in r <==> k in s) && Fetch(r, k) == Fetch(s, k) {
      ValidateAllClosedForm(s, None, words, k);
    }
    MapsEqualByFetch(r, s);
  }

  /** Validation keeps every list free of duplicates. */
  lemma ValidateAllWellFormed(s: Store, live: Option<Tag -> bool>, words: seq<string>)
    requires WellFormed(s)
    ensures WellFormed(ValidateAll(s, live, words))
  {
    var r := ValidateAll(s, live, words);
    forall k | k in r ensures NoDup(r[k]) {
      ValidateAllClosedForm(s, live, words, k);
      assert NoDup(Fetch(s, k));
      if live.Some? {
        assert multiset(Filter(Fetch(s, k), live.value)) <= multiset(Fetch(s, k));
      }
    }
  }

  /** Over a duplicate-free store, every validated list of a query is duplicate-free. */
  lemma ValidatedNoDup(s: Store, live: Option<Tag -> bool>, words: seq<string>)
    requires WellFormed(s)
    ensures forall i :: 0 <= i < |words| ==> NoDup(Validated(s, live, words)[i])
  {
    forall i | 0 <= i < |words| ensures NoDup(Validated(s, live, words)[i]) {
      var d := Fetch(s, Upper(words[i]));
      assert NoDup(d);
      if live.Some? {
        assert multiset(Filter(d, live.value)) <= multiset(d);
      }
    }
  }

  /** The validated lists of two queries equal up to case are the same. */
  lemma ValidatedCaseInsensitive(s: Store, live: Option<Tag -> bool>, a: string, b: string)
    requires Upper(a) == Upper(b)
    ensures Validated(s, live, Split(a)) == Validated(s, live, Split(b))
    ensures ValidateAll(s, live, Split(a)) == ValidateAll(s, live, Split(b))
  {
    SameKeysUpToCase(a, b);
    var ka := UpperAll(Split(a));
    var kb := UpperAll(Split(b));
    assert QueriedKeys(Split(a)) == QueriedKeys(Split(b)) by {
      forall k ensures k in QueriedKeys(Split(a)) <==> k in QueriedKeys(Split(b)) {
        if k in QueriedKeys(Split(a)) {
          var i :| 0 <= i < |Split(a)| && Upper(Split(a)[i]) == k;
          assert ka[i] == kb[i];
          assert Split(b)[i] in Split(b);
        }
        if k in QueriedKeys(Split(b)) {
          var i :| 0 <= i < |Split(b)| && Upper(Split(b)[i]) == k;
          assert ka[i] == kb[i];
          assert Split(a)[i] in Split(a);
        }
      }
    }
    forall i | 0 <= i < |Split(a)|
      ensures Validated(s, live, Split(a))[i] == Validated(s, live, Split(b))[i]
    {
      assert ka[i] == kb[i];
    }
    var ra := ValidateAll(s, live, Split(a));
    var rb := ValidateAll(s, live, Split(b));
    forall k | true ensures (k in ra <==> k in rb) && Fetch(ra, k) == Fetch(rb, k) {
      ValidateAllClosedForm(s, live, Split(a), k);
      ValidateAllClosedForm(s, live, Split(b), k);
    }
    MapsEqualByFetch(ra, rb);
  }
}
