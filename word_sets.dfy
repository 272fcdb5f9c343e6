/** Words, the prefix order on them, and the duplicate-free sequences in which
    words are reported: the vocabulary in which the trie is specified. A word
    is a sequence of characters; for sequences, `p <= w` means that `p` is a
    prefix of `w`. */
module WordSets {

  type Word = seq<char>

  /** The words of `ws` that begin with `p`. */
  function WithPrefix(ws: set<Word>, p: Word): set<Word> {
    set w | w in ws && p <= w
  }

  /** The values that occur in `s`. */
  function Elements<T>(s: seq<T>): set<T> {
    set x | x in s
  }

  /** No value occurs twice in `s`. */
  predicate NoDuplicates<T(==)>(s: seq<T>) {
    forall i, j :: 0 <= i < j < |s| ==> s[i] != s[j]
  }

  /** Every word of `s` comes after each of the shorter words of `s` that
      begin it: a walk reports a node before the nodes below it. */
  predicate PrefixesFirst(s: seq<Word>) {
    forall i, j :: 0 <= i < |s| && 0 <= j < |s| && s[i] < s[j] ==> i < j
  }

  /** The longest word that begins both `a` and `b`. */
  function CommonPrefix(a: Word, b: Word): (r: Word)
    ensures r <= a && r <= b
    decreases |a|
  {
    if a == [] || b == [] || a[0] != b[0] then []
    else [a[0]] + CommonPrefix(a[1..], b[1..])
  }

  /** Whatever begins two listed words begins every word listed between
      them: the words below any one node are listed together, as a
      depth-first walk lists them. `GroupedBetween` states it for every
      common prefix. */
  predicate Grouped(s: seq<Word>) {
    forall i, j, k :: 0 <= i < j < k < |s| ==> CommonPrefix(s[i], s[k]) <= s[j]
  }

  /** `CommonPrefix` is the longest common prefix: every word that begins
      both `a` and `b` begins it. */
  lemma {:induction false} CommonPrefixLongest(q: Word, a: Word, b: Word)
    requires q <= a && q <= b
    ensures q <= CommonPrefix(a, b)
    decreases |q|
  {
    if q != [] {
      assert a[0] == q[0] == b[0];
      assert q[1..] <= a[1..] && q[1..] <= b[1..];
      CommonPrefixLongest(q[1..], a[1..], b[1..]);
      assert CommonPrefix(a, b) == [a[0]] + CommonPrefix(a[1..], b[1..]);
    }
  }

  /** A prefix of a prefix of `w` is a prefix of `w`. */
  lemma PrefixTransitive(q: Word, p: Word, w: Word)
    requires q <= p && p <= w
    ensures q <= w
  {
  }

  /** In a grouped sequence, a word that begins the words at `i` and `k`
      begins every word listed between them. */
  lemma GroupedBetween(s: seq<Word>, q: Word, i: int, j: int, k: int)
    requires Grouped(s) && 0 <= i < j < k < |s|
    requires q <= s[i] && q <= s[k]
    ensures q <= s[j]
  {
    CommonPrefixLongest(q, s[i], s[k]);
    PrefixTransitive(q, CommonPrefix(s[i], s[k]), s[j]);
  }

  /** A duplicate-free sequence has as many values as elements. */
  lemma {:induction false} NoDuplicatesSize<T>(s: seq<T>)
    requires NoDuplicates(s)
    ensures |Elements(s)| == |s|
  {
    if s != [] {
      var t := s[1..];
      assert NoDuplicates(t);
      NoDuplicatesSize(t);
      assert Elements(s) == {s[0]} + Elements(t);
      assert s[0] !in Elements(t);
    }
  }

  /** `p + [c]` begins `w` exactly when `p` does and `c` comes next in `w`. */
  lemma ExtendedPrefix(p: Word, c: char, w: Word)
    ensures p + [c] <= w <==> p <= w && |p| < |w| && w[|p|] == c
  {
  }

  /** A word ends with only one character after only one prefix. */
  lemma ExtendedInjective(p: Word, c: char, q: Word, d: char)
    requires p + [c] == q + [d]
    ensures p == q && c == d
  {
    assert p == (p + [c])[..|p|];
    assert q == (q + [d])[..|q|];
  }

  /** Joining two duplicate-free sequences with no value in common gives a
      duplicate-free sequence. */
  lemma NoDuplicatesConcat<T>(a: seq<T>, b: seq<T>)
    requires NoDuplicates(a) && NoDuplicates(b)
    requires Elements(a) !! Elements(b)
    ensures NoDuplicates(a + b)
  {
    forall i, j | 0 <= i < j < |a + b|
      ensures (a + b)[i] != (a + b)[j]
    {
      if i < |a| <= j {
        assert (a + b)[i] in Elements(a);
        assert (a + b)[j] in Elements(b);
      }
    }
  }

  /** The words of `ws` that begin with `p` and either are `p` itself or
      continue it with a character of `cs`. */
  function WithPrefixVia(ws: set<Word>, p: Word, cs: set<char>): set<Word> {
    set w | w in ws && p <= w && (|w| == |p| || w[|p|] in cs)
  }

  /** Through no character, only `p` itself is reached. */
  lemma WithPrefixViaNone(ws: set<Word>, p: Word)
    ensures WithPrefixVia(ws, p, {}) == if p in ws then {p} else {}
  {
    forall w | w in WithPrefixVia(ws, p, {})
      ensures w == p
    {
      assert |w| == |p|;
    }
  }

  /** Adding the words through one more character `c` to those through
      `cs` adds the words that begin with `p + [c]`, none of them reached
      before when `c` is not in `cs`. */
  lemma WithPrefixViaAdd(ws: set<Word>, p: Word, cs: set<char>, c: char)
    requires c !in cs
    ensures WithPrefixVia(ws, p, cs) !! WithPrefix(ws, p + [c])
    ensures WithPrefixVia(ws, p, cs) + WithPrefix(ws, p + [c]) == WithPrefixVia(ws, p, cs + {c})
  {
  }

  /** A word reached from `p` through a character of `cs`, or `p` itself,
      and a word beginning with `p + [c]` for a `c` outside `cs` part after
      `p`: they have no longer common prefix. */
  lemma CommonPrefixVia(x: Word, y: Word, p: Word, cs: set<char>, c: char)
    requires p <= x && (|x| == |p| || x[|p|] in cs)
    requires p + [c] <= y && c !in cs
    ensures CommonPrefix(x, y) <= p
  {
  }

  /** Listing the words through `cs` and then those beginning with
      `p + [c]` keeps each group together, when each part does. */
  lemma GroupedReport(before: seq<Word>, found: seq<Word>, ws: set<Word>, p: Word, cs: set<char>, c: char)
    requires c !in cs
    requires Elements(before) == WithPrefixVia(ws, p, cs)
    requires Elements(found) == WithPrefix(ws, p + [c])
    requires Grouped(before) && Grouped(found)
    ensures Grouped(before + found)
  {
    var s := before + found;
    forall i, j, k | 0 <= i < j < k < |s|
      ensures CommonPrefix(s[i], s[k]) <= s[j]
    {
      if k < |before| {
        assert s[i] == before[i] && s[j] == before[j] && s[k] == before[k];
      } else if |before| <= i {
        assert s[i] == found[i - |before|] && s[j] == found[j - |before|];
        assert s[k] == found[k - |before|];
      } else {
        var x, y, z := s[i], s[k], s[j];
        assert x in Elements(before) && y in Elements(found);
        CommonPrefixVia(x, y, p, cs, c);
        assert p <= z by {
          if j < |before| {
            assert z in Elements(before);
          } else {
            assert z in Elements(found);
            ExtendedPrefix(p, c, z);
          }
        }
        PrefixTransitive(CommonPrefix(x, y), p, z);
      }
    }
  }

  /** A duplicate-free report of the words through `cs`, followed by a
      duplicate-free report of the words beginning with `p + [c]`, is a
      duplicate-free report of the words through `cs + {c}`; and if each part
      reports shorter words first and keeps each group together, so does
      the whole. */
  lemma WithPrefixViaReport(before: seq<Word>, found: seq<Word>, ws: set<Word>, p: Word, cs: set<char>, c: char)
    requires c !in cs
    requires NoDuplicates(before) && Elements(before) == WithPrefixVia(ws, p, cs)
    requires NoDuplicates(found) && Elements(found) == WithPrefix(ws, p + [c])
    requires PrefixesFirst(before) && PrefixesFirst(found)
    requires Grouped(before) && Grouped(found)
    ensures NoDuplicates(before + found) && PrefixesFirst(before + found)
    ensures Grouped(before + found)
    ensures Elements(before + found) == WithPrefixVia(ws, p, cs + {c})
  {
    WithPrefixViaAdd(ws, p, cs, c);
    GroupedReport(before, found, ws, p, cs, c);
    NoDuplicatesConcat(before, found);
    assert Elements(before + found) == Elements(before) + Elements(found);
    // no word reported before is longer than one reported after it
    forall k, l | 0 <= k < |found| && 0 <= l < |before|
      ensures !(found[k] < before[l])
    {
      var x, y := found[k], before[l];
      assert x in Elements(found) && y in Elements(before);
      if x < y {
        ExtendedPrefix(p, c, x);
      }
    }
    var s := before + found;
    forall i, j | 0 <= i < |s| && 0 <= j < |s| && s[i] < s[j]
      ensures i < j
    {
      if |before| <= i && |before| <= j {
        assert found[i - |before|] < found[j - |before|];
      }
    }
  }
}
