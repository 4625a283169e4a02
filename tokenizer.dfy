/**
 * The tokenizer of the index: `text.split(/\W/)` followed by `toUpperCase()`
 * when a token is used as a storage key.
 *
 * Without the `u` flag, the JavaScript class `\w` is exactly the ASCII letters,
 * the ASCII digits and `_`, so every token consists of ASCII characters only and
 * upper-casing it needs nothing beyond ASCII.
 */
module Tokenizer {

  /** A character of the class `\w`. */
  predicate IsWordChar(c: char) {
    ('A' <= c <= 'Z') || ('a' <= c <= 'z') || ('0' <= c <= '9') || c == '_'
  }

  /** A string made of word characters only (possibly empty). */
  predicate IsWord(w: string) {
    forall i :: 0 <= i < |w| ==> IsWordChar(w[i])
  }

  /**
   * `s.split(/\W/)`: cut at every single non-word character. A run of k
   * separators yields k - 1 empty tokens between its neighbours, and a separator
   * at either end yields an empty first or last token.
   */
  function Split(s: string): (tokens: seq<string>)
    ensures |tokens| >= 1
    ensures forall i :: 0 <= i < |tokens| ==> IsWord(tokens[i])
  {
    if s == [] then [""]
    else
      var rest := Split(s[1..]);
      if IsWordChar(s[0]) then [[s[0]] + rest[0]] + rest[1..]
      else [""] + rest
  }

  /** The separators `Split` cuts at, in order. */
  function Separators(s: string): (seps: string)
    ensures forall i :: 0 <= i < |seps| ==> !IsWordChar(seps[i])
  {
    if s == [] then []
    else (if IsWordChar(s[0]) then [] else [s[0]]) + Separators(s[1..])
  }

  /** Glue tokens back together, one separator between each neighbouring pair. */
  function Join(tokens: seq<string>, seps: string): string
    requires |tokens| == |seps| + 1
  {
    if seps == [] then tokens[0]
    else tokens[0] + [seps[0]] + Join(tokens[1..], seps[1..])
  }

  /** There is exactly one more token than there are separators. */
  lemma {:induction false} SplitCount(s: string)
    ensures |Split(s)| == |Separators(s)| + 1
  {
    if s != [] {
      SplitCount(s[1..]);
    }
  }

  /** Joining the tokens with the separators gives back the text: nothing is lost. */
  lemma {:induction false} SplitJoin(s: string)
    ensures |Split(s)| == |Separators(s)| + 1
    ensures Join(Split(s), Separators(s)) == s
  {
    SplitCount(s);
    if s != [] {
      SplitJoin(s[1..]);
      var rest := Split(s[1..]);
      var seps := Separators(s[1..]);
      if IsWordChar(s[0]) {
        assert Separators(s) == seps;
        JoinConsHead(s[0], rest, seps);
      } else {
        assert Separators(s) == [s[0]] + seps;
        assert Split(s) == [""] + rest;
      }
    }
  }

  /** Putting a character in front of the first token puts it in front of the join. */
  lemma {:induction false} JoinConsHead(c: char, tokens: seq<string>, seps: string)
    requires |tokens| == |seps| + 1
    ensures Join([[c] + tokens[0]] + tokens[1..], seps) == [c] + Join(tokens, seps)
  {
    var t := [[c] + tokens[0]] + tokens[1..];
    assert t[0] == [c] + tokens[0];
    assert t[1..] == tokens[1..];
  }

  /** Splitting a word followed by more text extends the first token of the rest. */
  lemma {:induction false} SplitWordPrefix(w: string, r: string)
    requires IsWord(w)
    ensures Split(w + r) == [w + Split(r)[0]] + Split(r)[1..]
  {
    if w != [] {
      assert (w + r)[0] == w[0];
      assert (w + r)[1..] == w[1..] + r;
      SplitWordPrefix(w[1..], r);
      assert [w[0]] + (w[1..] + Split(r)[0]) == w + Split(r)[0];
    } else {
      assert w + r == r;
      assert w + Split(r)[0] == Split(r)[0];
      assert [Split(r)[0]] + Split(r)[1..] == Split(r);
    }
  }

  /** A word, a separator and more text: the word, then the tokens of the rest. */
  lemma SplitCons(w: string, c: char, r: string)
    requires IsWord(w) && !IsWordChar(c)
    ensures Split(w + [c] + r) == [w] + Split(r)
  {
    var tail := [c] + r;
    SplitWordPrefix(w, tail);
    assert w + [c] + r == w + tail;
    assert tail[0] == c && tail[1..] == r;
    assert w + "" == w;
  }

  /** A single word is a single token. */
  lemma SplitWord(w: string)
    requires IsWord(w)
    ensures Split(w) == [w]
  {
    SplitWordPrefix(w, "");
    assert w + "" == w;
  }

  /**
   * The converse round trip: tokens made of word characters, glued with
   * non-word separators, split back into exactly those tokens and separators.
   * With SplitJoin this makes Split and Join inverse to each other.
   */
  lemma {:induction false} JoinSplit(tokens: seq<string>, seps: string)
    requires |tokens| == |seps| + 1
    requires forall i :: 0 <= i < |tokens| ==> IsWord(tokens[i])
    requires forall i :: 0 <= i < |seps| ==> !IsWordChar(seps[i])
    ensures Split(Join(tokens, seps)) == tokens
    ensures Separators(Join(tokens, seps)) == seps
  {
    if seps == [] {
      SplitWord(tokens[0]);
      SeparatorsOfWord(tokens[0]);
    } else {
      var tail := Join(tokens[1..], seps[1..]);
      JoinSplit(tokens[1..], seps[1..]);
      var r := [seps[0]] + tail;
      assert r[0] == seps[0] && r[1..] == tail;
      assert Split(r) == [""] + tokens[1..];
      assert Join(tokens, seps) == tokens[0] + r;
      SplitWordPrefix(tokens[0], r);
      assert tokens[0] + "" == tokens[0];
      assert [tokens[0]] + tokens[1..] == tokens;
      SeparatorsAppend(tokens[0], r);
      SeparatorsOfWord(tokens[0]);
      assert Separators(r) == [seps[0]] + Separators(tail);
    }
  }

  /** A word holds no separator. */
  lemma {:induction false} SeparatorsOfWord(w: string)
    requires IsWord(w)
    ensures Separators(w) == []
  {
    if w != [] {
      SeparatorsOfWord(w[1..]);
    }
  }

  /** The separators of a concatenation are those of each part. */
  lemma {:induction false} SeparatorsAppend(a: string, b: string)
    ensures Separators(a + b) == Separators(a) + Separators(b)
  {
    if a == [] {
      assert a + b == b;
    } else {
      assert (a + b)[0] == a[0];
      assert (a + b)[1..] == a[1..] + b;
      SeparatorsAppend(a[1..], b);
    }
  }

  /** `toUpperCase` on one ASCII character. */
  function UpperChar(c: char): char {
    if 'a' <= c <= 'z' then (c as int - 32) as char else c
  }

  /** `toUpperCase` on a string of ASCII characters. */
  function Upper(w: string): (u: string)
    ensures |u| == |w|
  {
    if w == [] then [] else [UpperChar(w[0])] + Upper(w[1..])
  }

  /** Every token upper-cased: the storage keys of a token sequence. */
  function UpperAll(words: seq<string>): (keys: seq<string>)
    ensures |keys| == |words|
  {
    seq(|words|, i requires 0 <= i < |words| => Upper(words[i]))
  }

  /** Upper-casing works character by character. */
  lemma {:induction false} UpperAt(w: string, i: int)
    requires 0 <= i < |w|
    ensures Upper(w)[i] == UpperChar(w[i])
  {
    if i > 0 {
      UpperAt(w[1..], i - 1);
    }
  }

  /** Upper-casing a key again changes nothing. */
  lemma UpperIdempotent(w: string)
    ensures Upper(Upper(w)) == Upper(w)
  {
    forall i | 0 <= i < |w|
      ensures Upper(Upper(w))[i] == Upper(w)[i]
    {
      UpperAt(w, i);
      UpperAt(Upper(w), i);
    }
  }

  /** Upper-casing keeps word characters word characters and separators separators. */
  lemma UpperCharKeepsClass(c: char)
    ensures IsWordChar(UpperChar(c)) == IsWordChar(c)
  {
  }

  /**
   * Splitting commutes with upper-casing: differently cased texts that agree
   * once upper-cased give the same storage keys, token by token.
   */
  lemma {:induction false} SplitUpper(s: string)
    ensures Split(Upper(s)) == UpperAll(Split(s))
  {
    if s != [] {
      var u := Upper(s);
      assert u[0] == UpperChar(s[0]) && u[1..] == Upper(s[1..]);
      SplitUpper(s[1..]);
      var rest := Split(s[1..]);
      var keys := UpperAll(rest);
      UpperCharKeepsClass(s[0]);
      UpperAllCons(rest[0], rest[1..]);
      assert [rest[0]] + rest[1..] == rest;
      if IsWordChar(s[0]) {
        UpperCons(s[0], rest[0]);
        UpperAllCons([s[0]] + rest[0], rest[1..]);
        assert Split(u) == [[UpperChar(s[0])] + keys[0]] + keys[1..];
      } else {
        UpperAllCons("", rest);
        assert Split(u) == [""] + keys;
      }
    }
  }

  lemma UpperCons(c: char, w: string)
    ensures Upper([c] + w) == [UpperChar(c)] + Upper(w)
  {
    assert ([c] + w)[1..] == w;
  }

  lemma UpperAllCons(w: string, words: seq<string>)
    ensures UpperAll([w] + words) == [Upper(w)] + UpperAll(words)
  {
    var l := UpperAll([w] + words);
    forall i | 0 <= i < |l|
      ensures l[i] == ([Upper(w)] + UpperAll(words))[i]
    {
      if i > 0 {
        assert ([w] + words)[i] == words[i - 1];
      }
    }
  }

  /** Texts equal up to case give the same keys token by token. */
  lemma SameKeysUpToCase(a: string, b: string)
    requires Upper(a) == Upper(b)
    ensures UpperAll(Split(a)) == UpperAll(Split(b))
  {
    SplitUpper(a);
    SplitUpper(b);
  }
}
