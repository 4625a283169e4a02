/**
 * The index itself: a configuration (the storage collaborator's contents and an
 * optional liveness oracle) and the operations `addCitations`, `citationsOf` and
 * `findIdtags` over it.
 *
 * The process-wide `config` of index.js becomes the state of an `Index`
 * object. The storage collaborator is its `store` field, and every per-word
 * operation is one call of `Storage`, the collaborator's fetch-decide-commit
 * cycle. The collaborator makes each cycle atomic per key, so the per-word
 * operations of one call are run here one after another.
 */
module SimpleSearch {
  import opened Wrappers
  import opened Tokenizer
  import opened Citations
  import opened Ranking

  class Index {
    /** What the storage collaborator currently holds. */
    var store: Store
    /** The optional `idtagExists` oracle. */
    var tagExists: Option<Tag -> bool>

    /** No citation list holds a tag twice. Every operation keeps this. */
    ghost predicate Valid()
      reads this
    {
      WellFormed(store)
    }

    /** An index over the given storage contents and oracle. */
    constructor (storage: Store, tagExists: Option<Tag -> bool>)
      ensures this.store == storage && this.tagExists == tagExists
    {
      this.store := storage;
      this.tagExists := tagExists;
    }

    /** `configure({storage, idtagExists})`: replace the whole configuration. */
    method Configure(storage: Store, tagExists: Option<Tag -> bool>)
      modifies this
      ensures this.store == storage && this.tagExists == tagExists
    {
      this.store := storage;
      this.tagExists := tagExists;
    }

    /**
     * `storage(key, updater, cb)`: fetch the key's list (empty if unknown), hand it
     * to the decision function, persist the replacement it asks for, if any, and
     * hand on its result. Nothing but that key changes.
     */
    method Storage(key: string, decide: seq<Tag> -> Decision) returns (result: seq<Tag>)
      modifies this
      ensures store == Commit(old(store), key, decide(Fetch(old(store), key)).update)
      ensures result == decide(Fetch(old(store), key)).result
      ensures tagExists == old(tagExists)
    {
      var data := Fetch(store, key);
      var d := decide(data);
      if d.update.Some? {
        store := store[key := d.update.value];
      }
      result := d.result;
    }

    /** `addCitation(idtag, word)`: make sure the tag is listed for the word. */
    method AddCitation(tag: Tag, word: string)
      modifies this
      ensures store == Cite(old(store), tag, word)
      ensures word == "" ==> store == old(store)
      ensures word != "" ==> tag in Fetch(store, Upper(word))
      ensures word != "" && tag in Fetch(old(store), Upper(word)) ==> store == old(store)
      ensures word != "" && tag !in Fetch(old(store), Upper(word)) ==>
                store == old(store)[Upper(word) := Fetch(old(store), Upper(word)) + [tag]]
      ensures tagExists == old(tagExists)
      ensures old(Valid()) ==> Valid()
    {
      if word == "" {
        return;
      }
      var ignored := Storage(Upper(word), data => CiteDecision(tag, data));
      assert store == CiteAll(old(store), tag, [word]);
      if old(Valid()) {
        CiteAllWellFormed(old(store), tag, [word]);
      }
    }

    /**
     * `addCitations(idtag, text)`: cite the tag against every token of the text.
     * A raw token already seen in this call is skipped, which never loses a
     * citation, so the effect is that of citing every token in turn.
     */
    method AddCitations(tag: Tag, text: string)
      modifies this
      ensures store == CiteAll(old(store), tag, Split(text))
      ensures text == "" ==> store == old(store)
      ensures forall i :: 0 <= i < |Split(text)| && Split(text)[i] != "" ==>
                tag in Fetch(store, Upper(Split(text)[i]))
      ensures tagExists == old(tagExists)
      ensures old(Valid()) ==> Valid()
    {
      var words := Split(text);
      if text == "" {
        assert words == [""];
        assert CiteAll(store, tag, words) == store by {
          assert words[..0] == [];
        }
        return;
      }
      var seen: set<string> := {};
      for i := 0 to |words|
        invariant store == CiteAll(old(store), tag, words[..i])
        invariant forall w :: w in seen ==> w == "" || tag in Fetch(store, Upper(w))
        invariant tagExists == old(tagExists)
      {
        var word := words[i];
        CiteAllPrefix(old(store), tag, words, i);
        ghost var before := store;
        if word !in seen {
          seen := seen + {word};
          AddCitation(tag, word);
        } else {
          CiteListed(store, tag, word);
        }
        assert store == Cite(before, tag, word);
        forall w | w in seen && w != "" ensures tag in Fetch(store, Upper(w)) {
          if w != word {
            assert store == CiteAll(before, tag, [word]);
            CiteAllKeeps(before, tag, [word], Upper(w), tag);
          }
        }
      }
      assert words[..|words|] == words;
      forall i | 0 <= i < |words| && words[i] != "" ensures tag in Fetch(store, Upper(words[i])) {
        CiteAllCovers(old(store), tag, words, i);
      }
      if old(Valid()) {
        CiteAllWellFormed(old(store), tag, words);
      }
    }

    /**
     * `citationsOf(word)`: the word's validated list. The store is written only
     * when an oracle is configured and it removed at least one tag.
     */
    method CitationsOf(word: string) returns (citations: seq<Tag>)
      modifies this
      ensures citations == ValidList(tagExists, Fetch(old(store), Upper(word)))
      ensures store == Validate(old(store), tagExists, word)
      ensures tagExists.None? || Fetch(old(store), Upper(word)) == [] ==> store == old(store)
      ensures store != old(store) ==> |citations| < |Fetch(old(store), Upper(word))|
      ensures tagExists == old(tagExists)
      ensures old(Valid()) ==> Valid()
    {
      var live := tagExists;
      citations := Storage(Upper(word), data => ValidateDecision(live, data));
      assert store == ValidateAll(old(store), tagExists, [word]);
      if old(Valid()) {
        ValidateAllWellFormed(old(store), tagExists, [word]);
      }
    }

    /**
     * `findIdtags(text)`: every tag cited by some query token, best first. The
     * score of a tag counts its occurrences in the validated lists of the query
     * tokens, which are not deduplicated. The validation write-backs of the query
     * leave its store pruned.
     */
    method FindIdtags(text: string) returns (ids: seq<Tag>)
      modifies this
      ensures IsRanking(ids, Validated(old(store), old(tagExists), Split(text)))
      ensures old(Valid()) ==> forall t :: Score(t, Validated(old(store), old(tagExists), Split(text)))
                                         == Hits(t, Validated(old(store), old(tagExists), Split(text)))
      ensures store == ValidateAll(old(store), old(tagExists), Split(text))
      ensures tagExists == old(tagExists)
      ensures old(Valid()) ==> Valid()
    {
      var words := Split(text);
      var answers: map<Tag, nat> := map[];
      ghost var lists: seq<seq<Tag>> := [];
      for i := 0 to |words|
        invariant store == ValidateAll(old(store), tagExists, words[..i])
        invariant lists == Validated(old(store), tagExists, words[..i])
        invariant IsScoreMap(answers, lists)
        invariant tagExists == old(tagExists)
      {
        var word := words[i];
        ValidatePrefix(old(store), tagExists, words, i);
        ValidateAllKeepsValidLists(old(store), tagExists, words[..i], Upper(word));
        var citations := CitationsOf(word);
        var next := Tally(answers, citations);
        TallyExtends(answers, lists, citations, next);
        answers := next;
        lists := lists + [citations];
      }
      assert words[..|words|] == words;
      var keys := KeysOf(answers);
      ids := SortByScore(keys, answers);
      PermutationNoDup(keys, ids);
      if old(Valid()) {
        ValidateAllWellFormed(old(store), tagExists, words);
        ValidatedNoDup(old(store), tagExists, words);
        forall t ensures Score(t, Validated(old(store), tagExists, words)) == Hits(t, Validated(old(store), tagExists, words)) {
          ScoreIsHits(t, Validated(old(store), tagExists, words));
        }
      }
    }
  }
}
