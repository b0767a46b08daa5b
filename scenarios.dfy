/**
 * The service's own test cases, stated on the model: the tokens of each posted text, the
 * rank sequence they build, and what the test's query answers for it.
 */
module Scenarios {
  import opened JavaLang
  import opened Occurrences
  import opened Tokenizer
  import opened RankQuery
  import opened Ranking

  /** compareTo orders aab (33) before aaa (5) and, with equal counts, baa before nnt. */
  lemma CompareExamples()
    ensures Compare(Entry(5, "aaa"), Entry(33, "aab")) > 0
    ensures Compare(Entry(1, "nnt"), Entry(1, "baa")) > 0
  {
    assert CompareStrings("nnt", "baa") == 'n' as int - 'b' as int;
  }

  /** "some data data" is the tokens some, data, data. */
  lemma TokensSomeDataData(line: string)
    requires line == "some data data"
    ensures LineTokens(line) == ["some", "data", "data"]
  {
    var ws := ["some", "data", "data"];
    assert Join(ws, ' ') == line;
    LineTokensOfWords(ws, ' ');
    LowerAllOfLower(ws);
  }

  /** Counting them from an empty index ranks data (2) before some (1). */
  lemma CountSomeDataData()
    ensures IncrementAll([], ["some", "data", "data"]) == [Entry(2, "data"), Entry(1, "some")]
  {
    var ts := ["some", "data", "data"];
    assert ts[..2][..1] == ["some"] && ts[..2] == ["some", "data"] && ts[..2][..1][..0] == [];
    var s1 := Increment([], "some");
    assert s1 == [Entry(1, "some")];
    var s2 := Increment(s1, "data");
    assert s2 == [Entry(1, "data"), Entry(1, "some")];
    var s3 := Increment(s2, "data");
    assert s3 == [Entry(2, "data"), Entry(1, "some")];
    assert IncrementAll([], ts) == Increment(IncrementAll([], ts[..2]), "data");
    assert IncrementAll([], ts[..2]) == Increment(IncrementAll([], ts[..2][..1]), "data");
    assert IncrementAll([], ts[..2][..1]) == Increment(IncrementAll([], []), "some");
  }

  /** On the words data, some, the query 1,2 answers both words in rank order. */
  lemma RankOneTwo(words: seq<string>, query: string)
    requires words == ["data", "some"] && query == "1,2"
    ensures WordRanking(words, query) == Ok(["data", "some"])
  {
    var one, two := Decimal(1), Decimal(2);
    assert one == "1" && two == "2";
    assert Join([one, two], ',') == query;
    DecimalHasNoHyphen(1);
    DecimalHasNoHyphen(2);
    QueryIsTerms(words, [one, two]);
    SingleTermIsRank(words, 1);
    SingleTermIsRank(words, 2);
    assert RankTerm(words, one) == Ok(["data"]);
    assert RankTerm(words, two) == Ok(["some"]);
    assert [one, two][..1] == [one] && [one][..0] == [];
    assert RankTerms(words, [one]) == Then(Ok([]), RankTerm(words, one));
    assert [] + ["data"] == ["data"] && ["data"] + ["some"] == ["data", "some"];
    assert RankTerms(words, [one, two]) == Then(RankTerms(words, [one]), RankTerm(words, two));
  }

  /** On the words data, some, the query 1-2 answers both words in rank order. */
  lemma RankOneToTwo(words: seq<string>, query: string)
    requires words == ["data", "some"] && query == "1-2"
    ensures WordRanking(words, query) == Ok(["data", "some"])
  {
    RangeQuery(words, query, 1, 2);
    assert RangeWords(words, 1, 2) == Ok(words[0..2]);
    assert [] + words[0..2] == words[0..2] == ["data", "some"];
  }

  /** On the words data, some, the query 3-99 asks past the end and answers nothing. */
  lemma RankRangePastTheEnd(words: seq<string>, query: string)
    requires words == ["data", "some"] && query == "3-99"
    ensures WordRanking(words, query) == Ok([])
  {
    assert Decimal(3) == "3" && Decimal(99) == "99";
    RangeQuery(words, query, 3, 99);
    assert RangeWords(words, 3, 99) == Ok([]);
    var none: seq<string> := [];
    assert none + none == none;
  }

  /** On the words data, some, the query 888 asks past the end and answers nothing. */
  lemma RankPastTheEnd(words: seq<string>, query: string)
    requires words == ["data", "some"] && query == "888"
    ensures WordRanking(words, query) == Ok([])
  {
    var u := Decimal(888);
    assert u == query;
    DecimalHasNoHyphen(888);
    QueryIsTerms(words, [u]);
    SingleTermIsRank(words, 888);
    assert [u][..0] == [];
    assert RankTerms(words, [u]) == Then(Ok([]), RankTerm(words, u));
    assert RankAt(words, 888) == Ok([]);
    var none: seq<string> := [];
    assert none + none == none;
  }

  /** A query that is one range from-to, both written in decimal, answers that range of the
      words. */
  lemma RangeQuery(words: seq<string>, query: string, from: nat, to: nat)
    requires from <= INT_MAX && to <= LONG_MAX && query == Decimal(from) + "-" + Decimal(to)
    ensures WordRanking(words, query) == Then(Ok([]), RangeWords(words, from, to))
  {
    DecimalHasNoHyphen(from);
    DecimalHasNoHyphen(to);
    assert ',' !in query;
    assert Join([query], ',') == query;
    QueryIsTerms(words, [query]);
    RangeTermIsRange(words, from, to);
    assert [query][..0] == [];
    assert RankTerms(words, [query]) == Then(Ok([]), RankTerm(words, query));
  }

  /** "Hi1 You YOU" is the tokens hi1, you, you: the case of a word does not matter. */
  lemma TokensHiYouYou(line: string)
    requires line == "Hi1 You YOU"
    ensures LineTokens(line) == ["hi1", "you", "you"]
  {
    var ws := ["Hi1", "You", "YOU"];
    assert Join(ws, ' ') == line;
    LineTokensOfWords(ws, ' ');
    assert ToLower("Hi1") == "hi1" && ToLower("You") == "you" && ToLower("YOU") == "you";
    assert LowerAll(ws) == ["hi1"] + LowerAll(ws[1..]);
    assert LowerAll(ws[1..]) == ["you"] + LowerAll(ws[2..]);
  }

  /** "mid-word-clean-up-up" is the tokens mid, word, clean, up, up: hyphens separate words. */
  lemma TokensMidWordClean(line: string)
    requires line == "mid-word-clean-up-up"
    ensures LineTokens(line) == ["mid", "word", "clean", "up", "up"]
  {
    var ws := ["mid", "word", "clean", "up", "up"];
    assert Join(ws[3..], '-') == "up-up";
    assert Join(ws[1..], '-') == "word-clean-up-up";
    assert Join(ws, '-') == line;
    LineTokensOfWords(ws, '-');
    LowerAllOfLower(ws);
  }

  /** Counting mid, word, clean, up, up from an empty index ranks up (2) first, then the
      words seen once in alphabetical order: clean, mid, word. */
  lemma CountMidWordClean(ts: seq<string>, target: seq<Entry>)
    requires ts == ["mid", "word", "clean", "up", "up"]
    requires target == [Entry(2, "up"), Entry(1, "clean"), Entry(1, "mid"), Entry(1, "word")]
    ensures IncrementAll([], ts) == target
  {
    var s := IncrementAll([], ts);
    IncrementAllRankSequence([], ts);
    MidWordCleanRanked(target);
    IncrementAllWords([], ts);
    MidWordCleanWords(ts, target);
    assert WordsOf(s) == WordsOf(target);
    forall w | w in WordsOf(s) ensures CountOf(s, w) == CountOf(target, w) {
      IncrementAllCountOf([], ts, w);
      MidWordCleanCount(ts, target, w);
    }
    RankSequenceOfCounts(s, target);
  }

  /** The words of the expected ranking are the tokens mid, word, clean, up, up. */
  lemma MidWordCleanWords(ts: seq<string>, target: seq<Entry>)
    requires ts == ["mid", "word", "clean", "up", "up"]
    requires target == [Entry(2, "up"), Entry(1, "clean"), Entry(1, "mid"), Entry(1, "word")]
    ensures WordsOf(target) == set t | t in ts
  {
    assert (set t | t in ts) == {"mid", "word", "clean", "up"};
    assert WordsOf(target) == {"up", "clean", "mid", "word"};
  }

  /** Each word's count in the expected ranking is how often it occurs among the tokens. */
  lemma MidWordCleanCount(ts: seq<string>, target: seq<Entry>, w: string)
    requires ts == ["mid", "word", "clean", "up", "up"]
    requires target == [Entry(2, "up"), Entry(1, "clean"), Entry(1, "mid"), Entry(1, "word")]
    requires w in WordsOf(target)
    ensures CountOf(target, w) == multiset(ts)[w]
  {
    MidWordCleanRanked(target);
    var k :| 0 <= k < |target| && target[k].word == w;
    CountOfEntry(target, k);
    assert multiset(ts) == multiset{"mid", "word", "clean", "up", "up"};
  }

  /** up (2), clean, mid, word (1 each) is a rank sequence. */
  lemma MidWordCleanRanked(target: seq<Entry>)
    requires target == [Entry(2, "up"), Entry(1, "clean"), Entry(1, "mid"), Entry(1, "word")]
    ensures IsRankSequence(target)
  {
    assert CompareStrings("clean", "mid") < 0 && CompareStrings("mid", "word") < 0;
    assert AdjacentRanked(target);
    RankedIffAdjacentRanked(target);
  }

  /** On the words up, clean, mid, word, the query 1-2 answers up, clean. */
  lemma RankMidWordClean(words: seq<string>, query: string)
    requires words == ["up", "clean", "mid", "word"] && query == "1-2"
    ensures WordRanking(words, query) == Ok(["up", "clean"])
  {
    RangeQuery(words, query, 1, 2);
    assert RangeWords(words, 1, 2) == Ok(words[0..2]);
    assert [] + words[0..2] == words[0..2] == ["up", "clean"];
  }

  /** Counting hi1, you, you from an empty index ranks you (2) before hi1 (1). */
  lemma CountHiYouYou()
    ensures IncrementAll([], ["hi1", "you", "you"]) == [Entry(2, "you"), Entry(1, "hi1")]
  {
    var ts := ["hi1", "you", "you"];
    assert ts[..2][..1] == ["hi1"] && ts[..2] == ["hi1", "you"] && ts[..2][..1][..0] == [];
    var s1 := Increment([], "hi1");
    assert s1 == [Entry(1, "hi1")];
    var s2 := Increment(s1, "you");
    assert s2 == [Entry(1, "hi1"), Entry(1, "you")];
    var s3 := Increment(s2, "you");
    assert s3 == [Entry(2, "you"), Entry(1, "hi1")];
    assert IncrementAll([], ts) == Increment(IncrementAll([], ts[..2]), "you");
    assert IncrementAll([], ts[..2]) == Increment(IncrementAll([], ts[..2][..1]), "you");
    assert IncrementAll([], ts[..2][..1]) == Increment(IncrementAll([], []), "hi1");
  }

  /** Posting some, some, some after some data data puts some (4) ahead of data (2): counts
      accumulate across posts, also when the state was reloaded in between. */
  lemma CountCumulative()
    ensures IncrementAll([Entry(2, "data"), Entry(1, "some")], ["some", "some", "some"])
         == [Entry(4, "some"), Entry(2, "data")]
  {
    var s0 := [Entry(2, "data"), Entry(1, "some")];
    var ts := ["some", "some", "some"];
    assert ts[..2][..1] == ["some"] && ts[..2] == ["some", "some"] && ts[..2][..1][..0] == [];
    var s1 := Increment(s0, "some");
    assert s1 == [Entry(2, "data"), Entry(2, "some")];
    var s2 := Increment(s1, "some");
    assert s2 == [Entry(3, "some"), Entry(2, "data")];
    var s3 := Increment(s2, "some");
    assert s3 == [Entry(4, "some"), Entry(2, "data")];
    assert IncrementAll(s0, ts) == Increment(IncrementAll(s0, ts[..2]), "some");
    assert IncrementAll(s0, ts[..2]) == Increment(IncrementAll(s0, ts[..2][..1]), "some");
    assert IncrementAll(s0, ts[..2][..1]) == Increment(IncrementAll(s0, []), "some");
  }
}
