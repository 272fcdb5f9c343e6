/** The unit tests of the trie, each a method whose postcondition states
    what every one of the test's assertions observes. */
module TrieTests {
  import opened WordSets
  import opened Tries

  /** The test of the live trie: insert "hello", query, insert "hell",
      query again. */
  method TrieOperations() returns (observed: seq<bool>)
    ensures observed == [true, false, false, true, false, true, true]
  {
    var trie := new Trie();
    trie.Insert("hello");
    var hello := trie.Search("hello");
    var hell := trie.Search("hell");
    var helloa := trie.Search("helloa");
    assert "hel" <= "hello";
    var hel := trie.StartsWith("hel");
    assert "abc"[0] != "hello"[0];
    var abc := trie.StartsWith("abc");
    trie.Insert("hell");
    var hell' := trie.Search("hell");
    var hello' := trie.Search("hello");
    observed := [hello, hell, helloa, hel, abc, hell', hello'];
  }

  /** A new trie after inserting "hello", "world" and "hell". */
  method ThreeWords() returns (trie: Trie)
    ensures fresh(trie.Repr) && trie.Valid()
    ensures trie.Words == {"hello", "world", "hell"}
  {
    trie := new Trie();
    trie.Insert("hello");
    trie.Insert("world");
    trie.Insert("hell");
  }

  /** The test of the trie with prefix enumeration: insert "hello", "world"
      and "hell", query, and list the words that begin with "hel", which
      come out in this order whatever order the children are visited in. */
  method TrieWithPrefixOperations() returns (observed: seq<bool>, words: seq<Word>)
    ensures observed == [true, true, false, true, false]
    ensures words == ["hell", "hello"]
  {
    var trie := ThreeWords();
    var hello := trie.Search("hello");
    var hell := trie.Search("hell");
    var hel := trie.Search("hel");
    assert "hel" <= "hello";
    var hel' := trie.StartsWith("hel");
    assert "hit"[1] != "hello"[1] && "hit"[0] != "world"[0] && "hit"[1] != "hell"[1];
    var hit := trie.StartsWith("hit");
    observed := [hello, hell, hel, hel', hit];
    assert "hel" <= "hell";
    words := trie.FindWordsWithPrefix("hel");
    assert Elements(words) == {"hell", "hello"};
    NoDuplicatesSize(words);
    assert "hell" in words && "hello" in words;
    assert "hell" < "hello";
  }

  /** The empty word: on a new trie it is not found, though every trie
      has the empty prefix; once inserted, the root ends it, and it is the
      one word listed under the empty prefix. */
  method EmptyWord() returns (observed: seq<bool>, words: seq<Word>)
    ensures observed == [false, true, true]
    ensures words == [[]]
  {
    var trie := new Trie();
    var before := trie.Search([]);
    var prefixed := trie.StartsWith([]);
    trie.Insert([]);
    var after := trie.Search([]);
    observed := [before, prefixed, after];
    words := trie.FindWordsWithPrefix([]);
    assert Elements(words) == {[]};
    NoDuplicatesSize(words);
  }

  /** A word that is found is also a prefix: both walks follow the same
      path, and searching only adds the test of the end node's mark. */
  method SearchThenStartsWith(trie: Trie, word: Word) returns (found: bool, prefixed: bool)
    requires trie.Valid()
    ensures found ==> prefixed
  {
    found := trie.Search(word);
    prefixed := trie.StartsWith(word);
  }

  /** A listing that reports shorter words first but leaves "ac" between
      "ab" and "abd", the words below the node "ab", is not depth-first:
      `Grouped` rules it out. */
  lemma InterleavedNotGrouped()
    ensures PrefixesFirst(["ab", "ac", "abd"])
    ensures !Grouped(["ab", "ac", "abd"])
  {
    var s: seq<Word> := ["ab", "ac", "abd"];
    CommonPrefixLongest("ab", s[0], s[2]);
    assert "ab"[1] != s[1][1];
  }
}
