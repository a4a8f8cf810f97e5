/** The most-frequent-word exercise. */
module WordFrequency {
  import opened Text

  /** How many times `w` occurs in `words`. */
  function Count(words: seq<string>, w: string): nat {
    multiset(words)[w]
  }

  /** How many times the word at position `p` has occurred once it is read. */
  function RunningCount(words: seq<string>, p: nat): nat
    requires p < |words|
  {
    Count(words[..p + 1], words[p])
  }

  /**
   * What `most_frequent_word` answers for `words`. If no word occurs twice
   * the answer is `("", 0)`. Otherwise the count is the largest number of
   * occurrences of any word, and the word is the first one to reach that
   * count as the text is read: a later word that only ties never replaces
   * it.
   */
  ghost predicate IsMostFrequent(words: seq<string>, word: string, count: nat) {
    if count == 0 then
      word == "" && forall w :: Count(words, w) <= 1
    else
      && 2 <= count
      && Count(words, word) == count
      && (forall w :: Count(words, w) <= count)
      && exists p :: 0 <= p < |words| && words[p] == word && RunningCount(words, p) == count
                     && forall q :: 0 <= q < p ==> RunningCount(words, q) < count
  }

  /** The words recorded in a frequency table, in order. */
  function Keys(table: seq<(string, nat)>): seq<string> {
    seq(|table|, k requires 0 <= k < |table| => table[k].0)
  }

  /** `table` records each word of `seen` once, with its number of occurrences. */
  ghost predicate Tallies(table: seq<(string, nat)>, seen: seq<string>) {
    && (forall k :: 0 <= k < |table| ==> 1 <= table[k].1 == Count(seen, table[k].0))
    && (forall a, b :: 0 <= a < b < |table| ==> table[a].0 != table[b].0)
    && (forall j :: 0 <= j < |seen| ==> seen[j] in Keys(table))
  }

  /** Incrementing the entry of a word already in the table records one more occurrence of it. */
  lemma TalliesIncrement(table: seq<(string, nat)>, seen: seq<string>, k: nat)
    requires Tallies(table, seen) && k < |table|
    ensures Tallies(table[k := (table[k].0, table[k].1 + 1)], seen + [table[k].0])
  {
    var w := table[k].0;
    var table' := table[k := (w, table[k].1 + 1)];
    assert Keys(table') == Keys(table);
    assert Keys(table)[k] == w;
    assert forall j :: 0 <= j < |seen| ==> (seen + [w])[j] == seen[j];
  }

  /** Appending an entry of count 1 for a new word records its first occurrence. */
  lemma TalliesAppend(table: seq<(string, nat)>, seen: seq<string>, w: string)
    requires Tallies(table, seen) && w !in Keys(table)
    ensures Count(seen, w) == 0
    ensures Tallies(table + [(w, 1)], seen + [w])
  {
    assert w !in seen;
    var table' := table + [(w, 1)];
    assert Keys(table') == Keys(table) + [w];
    assert forall j :: 0 <= j < |seen| ==> (seen + [w])[j] == seen[j];
    forall k | 0 <= k < |table'|
      ensures table'[k].1 == Count(seen + [w], table'[k].0)
    {
      if k < |table| {
        assert table'[k] == table[k];
        assert Keys(table)[k] != w;
      }
    }
  }

  /** The position of the first entry for `w` in the table, searched from the front; `|table|` when there is none. */
  method FindEntry(table: seq<(string, nat)>, w: string) returns (k: nat)
    ensures k <= |table|
    ensures k < |table| ==> table[k].0 == w
    ensures forall j :: 0 <= j < k ==> table[j].0 != w
    ensures k == |table| <==> w !in Keys(table)
  {
    k := 0;
    while k < |table| && table[k].0 != w
      invariant k <= |table|
      invariant forall j :: 0 <= j < k ==> table[j].0 != w
    {
      k := k + 1;
    }
    assert k == |table| ==> forall j :: 0 <= j < |table| ==> Keys(table)[j] != w;
    assert k < |table| ==> Keys(table)[k] == w;
  }

  /** The largest count any word may have reached so far, given the best count found. */
  function Ceiling(count: nat): nat {
    if count == 0 then 1 else count
  }

  /**
   * After reading `words[..i]`, the best answer so far is `(word, count)`,
   * first reached at position `at`: no count read so far exceeds it, and
   * none read before `at` reached it.
   */
  ghost predicate ScannedUpTo(words: seq<string>, i: nat, word: string, count: nat, at: nat) {
    && i <= |words|
    && (forall w :: Count(words[..i], w) <= Ceiling(count))
    && (forall q :: 0 <= q < i ==> RunningCount(words, q) <= Ceiling(count))
    && (count == 0 ==> word == "")
    && (count > 0 ==> 2 <= count && at < i && words[at] == word && RunningCount(words, at) == count)
    && (count > 0 ==> forall q :: 0 <= q < at ==> RunningCount(words, q) < count)
  }

  /** How counts change when one more word is read. */
  lemma CountAppend(seen: seq<string>, w: string)
    ensures forall x :: Count(seen + [w], x) == Count(seen, x) + (if x == w then 1 else 0)
  {
  }

  /** Reading one more word whose new count beats the best so far makes it the answer. */
  lemma ScanStepBetter(words: seq<string>, i: nat, word: string, count: nat, at: nat, f: nat)
    requires ScannedUpTo(words, i, word, count, at) && i < |words|
    requires f == Count(words[..i], words[i]) + 1 && f > 1 && f > count
    ensures ScannedUpTo(words, i + 1, words[i], f, i)
  {
    var w := words[i];
    assert words[..i + 1] == words[..i] + [w];
    CountAppend(words[..i], w);
    assert RunningCount(words, i) == f;
    assert Ceiling(count) < f;
  }

  /** Reading one more word whose new count does not beat the best leaves the answer alone. */
  lemma ScanStepKeep(words: seq<string>, i: nat, word: string, count: nat, at: nat, f: nat)
    requires ScannedUpTo(words, i, word, count, at) && i < |words|
    requires f == Count(words[..i], words[i]) + 1 && (f <= 1 || f <= count)
    ensures ScannedUpTo(words, i + 1, word, count, at)
  {
    var w := words[i];
    assert words[..i + 1] == words[..i] + [w];
    CountAppend(words[..i], w);
    assert RunningCount(words, i) == f;
    assert f <= Ceiling(count);
  }

  /** Once every word is read, the best answer so far is the answer. */
  lemma ScanDone(words: seq<string>, word: string, count: nat, at: nat)
    requires ScannedUpTo(words, |words|, word, count, at)
    ensures IsMostFrequent(words, word, count)
  {
    assert words[..|words|] == words;
    if count > 0 {
      assert words == words[..at + 1] + words[at + 1..];
      assert Count(words, word) >= count;
    }
  }

  /**
   * `most_frequent_word`: splits the text at whitespace, keeps a table of
   * word frequencies in order of first appearance, and replaces the answer
   * whenever a word already in the table reaches a count strictly greater
   * than the best so far. A word seen once is added to the table without
   * being compared, so it never becomes the answer.
   */
  method MostFrequentWord(text: string) returns (word: string, count: nat)
    ensures IsMostFrequent(SplitWhitespace(text), word, count)
  {
    var words := SplitWhitespace(text);
    var table: seq<(string, nat)> := [];
    word := "";
    count := 0;
    ghost var at := 0;
    for i := 0 to |words|
      invariant Tallies(table, words[..i])
      invariant ScannedUpTo(words, i, word, count, at)
    {
      table, word, count, at := ReadWord(words, i, table, word, count, at);
    }
    ScanDone(words, word, count, at);
  }

  /**
   * One pass of the outer loop of `most_frequent_word`: the word at `i`
   * is counted in its table entry, or added with count 1, and becomes the
   * answer when its count rises above the best so far.
   */
  method ReadWord(words: seq<string>, i: nat, table: seq<(string, nat)>, word: string, count: nat, ghost at: nat)
    returns (table': seq<(string, nat)>, word': string, count': nat, ghost at': nat)
    requires i < |words|
    requires Tallies(table, words[..i]) && ScannedUpTo(words, i, word, count, at)
    ensures Tallies(table', words[..i + 1]) && ScannedUpTo(words, i + 1, word', count', at')
  {
    var w := words[i];
    ghost var seen := words[..i];
    assert words[..i + 1] == seen + [w];
    var k := FindEntry(table, w);
    if k < |table| {
      var frequency := table[k].1 + 1;
      assert frequency == Count(seen, w) + 1;
      TalliesIncrement(table, seen, k);
      table' := table[k := (w, frequency)];
      if frequency > count {
        ScanStepBetter(words, i, word, count, at, frequency);
        word', count', at' := w, frequency, i;
      } else {
        ScanStepKeep(words, i, word, count, at, frequency);
        word', count', at' := word, count, at;
      }
    } else {
      TalliesAppend(table, seen, w);
      ScanStepKeep(words, i, word, count, at, 1);
      table' := table + [(w, 1)];
      word', count', at' := word, count, at;
    }
  }

  /** At most one answer satisfies `IsMostFrequent`, so the method's result is fully determined. */
  lemma MostFrequentUnique(words: seq<string>, w1: string, c1: nat, w2: string, c2: nat)
    requires IsMostFrequent(words, w1, c1) && IsMostFrequent(words, w2, c2)
    ensures w1 == w2 && c1 == c2
  {
    assert c1 > 0 ==> Count(words, w1) <= Ceiling(c2);
    assert c2 > 0 ==> Count(words, w2) <= Ceiling(c1);
    if c1 > 0 && c2 > 0 {
      var p1 :| 0 <= p1 < |words| && words[p1] == w1 && RunningCount(words, p1) == c1
                && forall q :: 0 <= q < p1 ==> RunningCount(words, q) < c1;
      var p2 :| 0 <= p2 < |words| && words[p2] == w2 && RunningCount(words, p2) == c2
                && forall q :: 0 <= q < p2 ==> RunningCount(words, q) < c2;
      assert p1 == p2;
    }
  }

  /** Text where no word repeats, the empty text among it, gets the answer `("", 0)`. */
  lemma NoRepeatedWord(words: seq<string>, word: string, count: nat)
    requires IsMostFrequent(words, word, count)
    requires forall w :: Count(words, w) <= 1
    ensures word == "" && count == 0
  {
  }

  /**
   * The sentence of the exercise, and its words in three runs: no word
   * repeats within a run, and each run starts with "the".
   */
  const SampleText: string :=
    "the quick brown fox jumps over" + " " + "the lazy dog" + " " + "the quick brown fox"
  const SampleFront: seq<string> := ["the", "quick", "brown", "fox", "jumps", "over"]
  const SampleMiddle: seq<string> := ["the", "lazy", "dog"]
  const SampleBack: seq<string> := ["the", "quick", "brown", "fox"]
  const SampleWords: seq<string> := SampleFront + SampleMiddle + SampleBack

  /** Words that are pairwise distinct each occur at most once. */
  lemma {:induction false} DistinctCountAtMostOne(s: seq<string>)
    requires forall i, j :: 0 <= i < j < |s| ==> s[i] != s[j]
    ensures forall w :: Count(s, w) <= 1
    decreases |s|
  {
    if s != [] {
      var init := s[..|s| - 1];
      DistinctCountAtMostOne(init);
      assert s == init + [s[|s| - 1]];
      CountAppend(init, s[|s| - 1]);
      assert s[|s| - 1] !in multiset(init) by {
        assert forall i :: 0 <= i < |init| ==> init[i] == s[i];
      }
    }
  }

  lemma SampleFrontJoin()
    ensures Join(SampleFront, ' ') == "the quick brown fox jumps over"
  {
    JoinThree("the", "quick", "brown", ' ');
    JoinThree("fox", "jumps", "over", ' ');
    assert SampleFront == ["the", "quick", "brown"] + ["fox", "jumps", "over"];
    JoinConcat(["the", "quick", "brown"], ["fox", "jumps", "over"], ' ');
    SampleFrontText();
  }

  lemma SampleFrontText()
    ensures "the" + " " + "quick" + " " + "brown" == "the quick brown"
    ensures "fox" + " " + "jumps" + " " + "over" == "fox jumps over"
    ensures "the quick brown" + [' '] + "fox jumps over" == "the quick brown fox jumps over"
  {
  }

  lemma SampleBackText()
    ensures "the" + " " + "quick" + " " + "brown" == "the quick brown"
    ensures "the quick brown" + [' '] + "fox" == "the quick brown fox"
  {
  }

  lemma SampleMiddleJoin()
    ensures Join(SampleMiddle, ' ') == "the lazy dog"
  {
    JoinThree("the", "lazy", "dog", ' ');
  }

  lemma SampleBackJoin()
    ensures Join(SampleBack, ' ') == "the quick brown fox"
  {
    JoinThree("the", "quick", "brown", ' ');
    var fox: seq<string> := ["fox"];
    assert SampleBack == ["the", "quick", "brown"] + fox;
    JoinConcat(["the", "quick", "brown"], fox, ' ');
    SampleBackText();
  }

  /** The sentence is its words joined by single spaces. */
  lemma SampleTextIsJoin()
    ensures Join(SampleWords, ' ') == SampleText
  {
    SampleFrontJoin();
    SampleMiddleJoin();
    SampleBackJoin();
    JoinConcat(SampleFront, SampleMiddle, ' ');
    JoinConcat(SampleFront + SampleMiddle, SampleBack, ' ');
  }

  lemma SampleWordsAreWords()
    ensures forall i :: 0 <= i < |SampleWords| ==> IsWord(SampleWords[i])
  {
    assert forall i :: 0 <= i < |SampleFront| ==> IsWord(SampleFront[i]);
    assert forall i :: 0 <= i < |SampleMiddle| ==> IsWord(SampleMiddle[i]);
    assert forall i :: 0 <= i < |SampleBack| ==> IsWord(SampleBack[i]);
  }

  /** Splitting the sentence on whitespace yields its thirteen words. */
  lemma SampleTextWords()
    ensures SplitWhitespace(SampleText) == SampleWords
  {
    SampleTextIsJoin();
    SampleWordsAreWords();
    SplitWhitespaceJoin(SampleWords);
  }

  /** Counting over a concatenation adds the counts of its parts. */
  lemma CountConcat(a: seq<string>, b: seq<string>, w: string)
    ensures Count(a + b, w) == Count(a, w) + Count(b, w)
  {
    assert multiset(a + b) == multiset(a) + multiset(b);
  }

  /** A word that occurs somewhere has a positive count. */
  lemma CountPositive(s: seq<string>, i: nat)
    requires i < |s|
    ensures Count(s, s[i]) >= 1
  {
    assert s[i] in multiset(s);
  }

  /** No word repeats within a run. */
  lemma SampleRunsDistinct()
    ensures forall w :: Count(SampleFront, w) <= 1
    ensures forall w :: Count(SampleMiddle, w) <= 1
    ensures forall w :: Count(SampleBack, w) <= 1
  {
    DistinctCountAtMostOne(SampleFront);
    DistinctCountAtMostOne(SampleMiddle);
    DistinctCountAtMostOne(SampleBack);
  }

  /** Every word occurs at most three times: once per run. */
  lemma SampleCountBound()
    ensures forall w :: Count(SampleWords, w) <= 3
  {
    SampleRunsDistinct();
    forall w
      ensures Count(SampleWords, w) <= 3
    {
      CountConcat(SampleFront + SampleMiddle, SampleBack, w);
      CountConcat(SampleFront, SampleMiddle, w);
    }
  }

  /** Each run holds "the" exactly once. */
  lemma SampleRunsHoldOneThe()
    ensures Count(SampleFront, "the") == 1
    ensures Count(SampleMiddle, "the") == 1
    ensures Count(SampleBack, "the") == 1
  {
    SampleRunsDistinct();
    CountPositive(SampleFront, 0);
    CountPositive(SampleMiddle, 0);
    CountPositive(SampleBack, 0);
  }

  /** "the" opens each run, so it occurs three times, the third time at position 9. */
  lemma SampleCountOfThe()
    ensures Count(SampleWords, "the") == 3
    ensures RunningCount(SampleWords, 9) == 3
  {
    SampleRunsHoldOneThe();
    var front := SampleFront + SampleMiddle;
    CountConcat(SampleFront, SampleMiddle, "the");
    CountConcat(front, SampleBack, "the");
    var last: seq<string> := ["the"];
    assert SampleWords[..10] == front + last;
    CountConcat(front, last, "the");
  }

  /** A prefix holds no more copies of a word than the whole. */
  lemma CountPrefix(s: seq<string>, k: nat, w: string)
    requires k <= |s|
    ensures Count(s[..k], w) <= Count(s, w)
  {
    assert s == s[..k] + s[k..];
    CountConcat(s[..k], s[k..], w);
  }

  /** If no word fills a prefix `c` times, no word reaches `c` while it is read. */
  lemma RunningCountsBelow(s: seq<string>, k: nat, c: nat)
    requires k <= |s|
    requires forall w :: Count(s[..k], w) < c
    ensures forall q :: 0 <= q < k ==> RunningCount(s, q) < c
  {
    forall q | 0 <= q < k
      ensures RunningCount(s, q) < c
    {
      assert s[..q + 1] == s[..k][..q + 1];
      CountPrefix(s[..k], q + 1, s[q]);
    }
  }

  /** Before the tenth word no word has been read three times. */
  lemma SampleEarlyCounts()
    ensures forall q :: 0 <= q < 9 ==> RunningCount(SampleWords, q) < 3
  {
    SampleRunsDistinct();
    var front := SampleFront + SampleMiddle;
    forall w
      ensures Count(front, w) < 3
    {
      CountConcat(SampleFront, SampleMiddle, w);
    }
    assert SampleWords[..9] == front;
    RunningCountsBelow(SampleWords, 9, 3);
  }

  /** On the sentence's words, "the" is the answer with 3 occurrences. */
  lemma SampleWordsMostFrequent()
    ensures IsMostFrequent(SampleWords, "the", 3)
  {
    SampleCountBound();
    SampleCountOfThe();
    SampleEarlyCounts();
    assert SampleWords[9] == "the";
    assert 0 <= 9 < |SampleWords| && SampleWords[9] == "the" && RunningCount(SampleWords, 9) == 3
           && forall q :: 0 <= q < 9 ==> RunningCount(SampleWords, q) < 3;
  }

  /**
   * "the" is the answer for the sentence, with 3 occurrences: "quick",
   * "brown" and "fox" reach 2 only after "the" has, and nothing reaches 3.
   */
  lemma SampleMostFrequent()
    ensures IsMostFrequent(SplitWhitespace(SampleText), "the", 3)
  {
    SampleTextWords();
    SampleWordsMostFrequent();
  }
}
