/**
 * The duplicate-word check of `addCitations` as the source writes it.
 *
 * `seen` is an object literal `{}`, and `!seen[word]` also looks at the
 * properties every object inherits from `Object.prototype`. For a token spelled
 * like one of those, the lookup is truthy before anything was recorded, so the
 * token is taken as already seen and never cited. The model of the index
 * (`Index.AddCitations`) uses a true set instead, and its coverage is proved
 * there.
 */
module SeenLookup {
  import opened Tokenizer
  import opened Citations

  /** The inherited properties of `{}` whose names consist of word characters. */
  const InheritedNames: set<string> := {
    "constructor", "hasOwnProperty", "isPrototypeOf", "propertyIsEnumerable",
    "toLocaleString", "toString", "valueOf", "__proto__",
    "__defineGetter__", "__defineSetter__", "__lookupGetter__", "__lookupSetter__"
  }

  /** `seen[word]` as written: truthy for a word recorded in this call and for every inherited name. */
  predicate SeenAsWritten(seen: set<string>, word: string) {
    word in seen || word in InheritedNames
  }

  /** The loop of `addCitations` as written, over the tokens in order. */
  function CiteTokensAsWritten(s: Store, tag: Tag, words: seq<string>, seen: set<string>): Store
    decreases |words|
  {
    if words == [] then s
    else if SeenAsWritten(seen, words[0]) then CiteTokensAsWritten(s, tag, words[1..], seen)
    else CiteTokensAsWritten(Cite(s, tag, words[0]), tag, words[1..], seen + {words[0]})
  }

  /**
   * A text that is one inherited name, as written, leaves the store untouched,
   * while citing its one token, as the corrected loop does, lists the tag under
   * its key.
   */
  lemma AsWrittenMissesInherited(s: Store, tag: Tag, w: string)
    requires w in InheritedNames && IsWord(w) && w != ""
    ensures Split(w) == [w]
    ensures CiteTokensAsWritten(s, tag, Split(w), {}) == s
    ensures tag in Fetch(CiteAll(s, tag, Split(w)), Upper(w))
  {
    SplitWord(w);
    assert [w][1..] == [];
    CiteAllCovers(s, tag, [w], 0);
  }

  /** "constructor" is such a name: as written, it is never cited. */
  lemma AsWrittenMissesConstructor()
    ensures CiteTokensAsWritten(map[], "tag1", Split("constructor"), {}) == map[]
    ensures "tag1" in Fetch(CiteAll(map[], "tag1", Split("constructor")), Upper("constructor"))
  {
    var w := "constructor";
    assert w == "con" + "struc" + "tor";
    WordAppend("con", "struc");
    WordAppend("con" + "struc", "tor");
    AsWrittenMissesInherited(map[], "tag1", w);
  }

  lemma WordAppend(a: string, b: string)
    requires IsWord(a) && IsWord(b)
    ensures IsWord(a + b)
  {
    assert forall i :: 0 <= i < |a + b| ==> (a + b)[i] == if i < |a| then a[i] else b[i - |a|];
  }

  /** As written, an inherited name is skipped whatever the store and whatever was seen. */
  lemma {:induction false} AsWrittenSkipsInherited(s: Store, tag: Tag, w: string, words: seq<string>, seen: set<string>)
    requires w in InheritedNames
    ensures CiteTokensAsWritten(s, tag, [w] + words, seen) == CiteTokensAsWritten(s, tag, words, seen)
  {
    assert ([w] + words)[0] == w && ([w] + words)[1..] == words;
  }
}
