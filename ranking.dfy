/**
 * The index as a value: a sequence of entries in rank order, and what counting one more
 * occurrence of a word does to it, defined by plain sorted insertion. The service's binary
 * searches are proved to compute the same sequence; the facts here say what that sequence
 * is (a rank sequence whose counts are the tallies of the tokens) independently of how the
 * service finds positions.
 */
module Ranking {
  import opened Occurrences

  // ---------------------------------------------------------------------------------------
  // Counting tokens
  // ---------------------------------------------------------------------------------------

  function Get(m: map<string, int>, w: string): int {
    if w in m then m[w] else 0
  }

  /** One more occurrence of w: a word not seen before starts at 1. */
  function Bump(m: map<string, int>, w: string): map<string, int> {
    m[w := Get(m, w) + 1]
  }

  /** The counts after the tokens have been counted in order, starting from m. */
  function Tally(m: map<string, int>, tokens: seq<string>): map<string, int>
    decreases |tokens|
  {
    if tokens == [] then m
    else Bump(Tally(m, tokens[..|tokens| - 1]), tokens[|tokens| - 1])
  }

  /** Each word's count grows by the number of times it occurs among the tokens. */
  lemma {:induction false} TallyCounts(m: map<string, int>, tokens: seq<string>, w: string)
    ensures Get(Tally(m, tokens), w) == Get(m, w) + multiset(tokens)[w]
    decreases |tokens|
  {
    if tokens != [] {
      var init, last := tokens[..|tokens| - 1], tokens[|tokens| - 1];
      TallyCounts(m, init, w);
      assert tokens == init + [last];
      assert multiset(tokens) == multiset(init) + multiset{last};
    }
  }

  /** The words counted are the words seen before and the tokens. */
  lemma {:induction false} TallyKeys(m: map<string, int>, tokens: seq<string>)
    ensures Tally(m, tokens).Keys == m.Keys + set t | t in tokens
    decreases |tokens|
  {
    if tokens != [] {
      var init, last := tokens[..|tokens| - 1], tokens[|tokens| - 1];
      TallyKeys(m, init);
      assert tokens == init + [last];
      assert (set t | t in tokens) == (set t | t in init) + {last};
    }
  }

  /** Counting one stream after another is counting their concatenation. */
  lemma {:induction false} TallyConcat(m: map<string, int>, a: seq<string>, b: seq<string>)
    ensures Tally(m, a + b) == Tally(Tally(m, a), b)
    decreases |b|
  {
    if b == [] {
      assert a + b == a;
    } else {
      TallyConcat(m, a, b[..|b| - 1]);
      assert (a + b)[..|a + b| - 1] == a + b[..|b| - 1];
      assert (a + b)[|a + b| - 1] == b[|b| - 1];
    }
  }

  /** The counts do not depend on the order in which the tokens arrive. */
  lemma TallyOrderIrrelevant(m: map<string, int>, a: seq<string>, b: seq<string>)
    requires multiset(a) == multiset(b)
    ensures Tally(m, a) == Tally(m, b)
  {
    TallyKeys(m, a);
    TallyKeys(m, b);
    assert (set t | t in a) == (set t | t in b) by {
      forall t ensures t in a <==> t in b {
        assert t in a <==> t in multiset(a);
        assert t in b <==> t in multiset(b);
      }
    }
    forall w | w in Tally(m, a) ensures Tally(m, a)[w] == Tally(m, b)[w] {
      TallyCounts(m, a, w);
      TallyCounts(m, b, w);
    }
  }

  // ---------------------------------------------------------------------------------------
  // The index as a sequence of entries
  // ---------------------------------------------------------------------------------------

  function WordsOf(s: seq<Entry>): set<string> {
    set e | e in s :: e.word
  }

  /** The count recorded for w: that of the first entry for w, 0 when there is none. */
  function CountOf(s: seq<Entry>, w: string): int
    decreases |s|
  {
    if s == [] then 0 else if s[0].word == w then s[0].count else CountOf(s[1..], w)
  }

  /** The counts a sequence of entries records, as a map from word to count. */
  function CountsOf(s: seq<Entry>): map<string, int> {
    map w | w in WordsOf(s) :: CountOf(s, w)
  }

  /** s without its entries for w. */
  function Remove(s: seq<Entry>, w: string): seq<Entry>
    decreases |s|
  {
    if s == [] then []
    else if s[0].word == w then Remove(s[1..], w)
    else [s[0]] + Remove(s[1..], w)
  }

  /** e inserted into s in front of the first entry it orders before. */
  function Insert(s: seq<Entry>, e: Entry): seq<Entry>
    decreases |s|
  {
    if s == [] || Before(e, s[0]) then [e] + s else [s[0]] + Insert(s[1..], e)
  }

  /** One more occurrence of w: its entry, if any, is taken out and one with the count
      raised by one (1 for a new word) goes in where it now belongs. */
  function Increment(s: seq<Entry>, w: string): seq<Entry> {
    Insert(Remove(s, w), Entry(CountOf(s, w) + 1, w))
  }

  /** The tokens counted one after the other. */
  function IncrementAll(s: seq<Entry>, tokens: seq<string>): seq<Entry>
    decreases |tokens|
  {
    if tokens == [] then s
    else Increment(IncrementAll(s, tokens[..|tokens| - 1]), tokens[|tokens| - 1])
  }

  /** Counting one more token is one more Increment. */
  lemma IncrementAllSnoc(s: seq<Entry>, done: seq<string>, line: seq<string>, t: string)
    ensures IncrementAll(s, done + (line + [t])) == Increment(IncrementAll(s, done + line), t)
  {
    var tokens := done + line;
    assert done + (line + [t]) == tokens + [t];
    assert (tokens + [t])[..|tokens|] == tokens;
  }

  // ---------------------------------------------------------------------------------------
  // Facts about the sequence operations
  // ---------------------------------------------------------------------------------------

  lemma RankedCons(x: Entry, t: seq<Entry>)
    ensures Ranked([x] + t) <==> (forall y :: y in t ==> Before(x, y)) && Ranked(t)
  {
    var s := [x] + t;
    if (forall y :: y in t ==> Before(x, y)) && Ranked(t) {
      forall i, j | 0 <= i < j < |s| ensures Before(s[i], s[j]) {
        if i == 0 {
          assert s[j] == t[j - 1];
        } else {
          assert s[i] == t[i - 1] && s[j] == t[j - 1];
        }
      }
    }
    if Ranked(s) {
      forall y | y in t ensures Before(x, y) {
        var j :| 0 <= j < |t| && t[j] == y;
        assert s[0] == x && s[j + 1] == y;
      }
      forall i, j | 0 <= i < j < |t| ensures Before(t[i], t[j]) {
        assert s[i + 1] == t[i] && s[j + 1] == t[j];
      }
    }
  }

  lemma DistinctCons(x: Entry, t: seq<Entry>)
    ensures DistinctWords([x] + t) <==> x.word !in WordsOf(t) && DistinctWords(t)
  {
    var s := [x] + t;
    if x.word !in WordsOf(t) && DistinctWords(t) {
      forall i, j | 0 <= i < j < |s| ensures s[i].word != s[j].word {
        if i == 0 {
          assert s[j] == t[j - 1];
          assert t[j - 1] in t;
        } else {
          assert s[i] == t[i - 1] && s[j] == t[j - 1];
        }
      }
    }
    if DistinctWords(s) {
      forall y | y in t ensures y.word != x.word {
        var j :| 0 <= j < |t| && t[j] == y;
        assert s[0] == x && s[j + 1] == y;
      }
      forall i, j | 0 <= i < j < |t| ensures t[i].word != t[j].word {
        assert s[i + 1] == t[i] && s[j + 1] == t[j];
      }
    }
  }

  lemma {:induction false} InsertMembers(s: seq<Entry>, e: Entry)
    ensures |Insert(s, e)| == |s| + 1
    ensures forall x :: x in Insert(s, e) <==> x == e || x in s
    decreases |s|
  {
    if s != [] && !Before(e, s[0]) {
      InsertMembers(s[1..], e);
      assert s == [s[0]] + s[1..];
    }
  }

  lemma {:induction false} RemoveMembers(s: seq<Entry>, w: string)
    ensures forall x :: x in Remove(s, w) <==> x in s && x.word != w
    ensures |Remove(s, w)| <= |s|
    decreases |s|
  {
    if s != [] {
      RemoveMembers(s[1..], w);
      assert s == [s[0]] + s[1..];
    }
  }

  lemma WordsOfInsert(s: seq<Entry>, e: Entry)
    ensures WordsOf(Insert(s, e)) == WordsOf(s) + {e.word}
  {
    InsertMembers(s, e);
  }

  lemma WordsOfRemove(s: seq<Entry>, w: string)
    ensures WordsOf(Remove(s, w)) == WordsOf(s) - {w}
  {
    RemoveMembers(s, w);
  }

  /** Sorted insertion of a new entry keeps a sequence in rank order. */
  lemma {:induction false} InsertRanked(s: seq<Entry>, e: Entry)
    requires Ranked(s) && e !in s
    ensures Ranked(Insert(s, e))
    decreases |s|
  {
    if s == [] {
      RankedCons(e, s);
    } else {
      assert s == [s[0]] + s[1..];
      RankedCons(s[0], s[1..]);
      if Before(e, s[0]) {
        forall y | y in s ensures Before(e, y) {
          if y != s[0] {
            BeforeTransitive(e, s[0], y);
          }
        }
        RankedCons(e, s);
      } else {
        BeforeTotal(e, s[0]);
        InsertRanked(s[1..], e);
        InsertMembers(s[1..], e);
        RankedCons(s[0], Insert(s[1..], e));
      }
    }
  }

  lemma {:induction false} InsertDistinct(s: seq<Entry>, e: Entry)
    requires DistinctWords(s) && e.word !in WordsOf(s)
    ensures DistinctWords(Insert(s, e))
    decreases |s|
  {
    assert s == [] || s == [s[0]] + s[1..];
    if s == [] || Before(e, s[0]) {
      DistinctCons(e, s);
    } else {
      DistinctCons(s[0], s[1..]);
      InsertDistinct(s[1..], e);
      WordsOfInsert(s[1..], e);
      DistinctCons(s[0], Insert(s[1..], e));
    }
  }

  lemma {:induction false} RemoveRanked(s: seq<Entry>, w: string)
    requires IsRankSequence(s)
    ensures IsRankSequence(Remove(s, w))
    decreases |s|
  {
    if s != [] {
      assert s == [s[0]] + s[1..];
      RankedCons(s[0], s[1..]);
      DistinctCons(s[0], s[1..]);
      RemoveRanked(s[1..], w);
      RemoveMembers(s[1..], w);
      if s[0].word != w {
        RankedCons(s[0], Remove(s[1..], w));
        WordsOfRemove(s[1..], w);
        DistinctCons(s[0], Remove(s[1..], w));
      }
    }
  }

  /** In a sequence with distinct words, the count of a word is that of its entry. */
  lemma {:induction false} CountOfEntry(s: seq<Entry>, k: int)
    requires DistinctWords(s) && 0 <= k < |s|
    ensures CountOf(s, s[k].word) == s[k].count
    decreases |s|
  {
    if k > 0 {
      assert s[0].word != s[k].word;
      assert forall i, j :: 0 <= i < j < |s[1..]| ==> s[1..][i] == s[i + 1] && s[1..][j] == s[j + 1];
      CountOfEntry(s[1..], k - 1);
    }
  }

  lemma {:induction false} CountOfAbsent(s: seq<Entry>, w: string)
    requires w !in WordsOf(s)
    ensures CountOf(s, w) == 0
    decreases |s|
  {
    if s != [] {
      assert s[0] in s;
      assert forall x :: x in s[1..] ==> x in s;
      CountOfAbsent(s[1..], w);
    }
  }

  lemma {:induction false} CountOfInsert(s: seq<Entry>, e: Entry, v: string)
    requires e.word !in WordsOf(s)
    ensures CountOf(Insert(s, e), v) == if v == e.word then e.count else CountOf(s, v)
    decreases |s|
  {
    if s != [] && !Before(e, s[0]) {
      assert s[0] in s;
      assert forall x :: x in s[1..] ==> x in s;
      CountOfInsert(s[1..], e, v);
    }
  }

  lemma {:induction false} CountOfRemove(s: seq<Entry>, w: string, v: string)
    ensures CountOf(Remove(s, w), v) == if v == w then 0 else CountOf(s, v)
    decreases |s|
  {
    if s != [] {
      CountOfRemove(s[1..], w, v);
    }
  }

  /** Counting one more w bumps w's count and no other. */
  lemma CountsOfIncrement(s: seq<Entry>, w: string)
    ensures CountsOf(Increment(s, w)) == Bump(CountsOf(s), w)
  {
    var m := CountsOf(s);
    WordsOfIncrement(s, w);
    if w !in WordsOf(s) {
      CountOfAbsent(s, w);
    }
    assert Get(m, w) == CountOf(s, w);
    forall v | v in WordsOf(s) + {w} ensures CountsOf(Increment(s, w))[v] == Bump(m, w)[v] {
      CountOfIncrement(s, w, v);
    }
  }

  /** Counting one more w raises the count of w by one and leaves every other count. */
  lemma CountOfIncrement(s: seq<Entry>, w: string, v: string)
    ensures CountOf(Increment(s, w), v) == if v == w then CountOf(s, w) + 1 else CountOf(s, v)
  {
    WordsOfRemove(s, w);
    CountOfInsert(Remove(s, w), Entry(CountOf(s, w) + 1, w), v);
    CountOfRemove(s, w, v);
  }

  /** Counting w adds w to the words and no other. */
  lemma WordsOfIncrement(s: seq<Entry>, w: string)
    ensures WordsOf(Increment(s, w)) == WordsOf(s) + {w}
  {
    WordsOfRemove(s, w);
    WordsOfInsert(Remove(s, w), Entry(CountOf(s, w) + 1, w));
  }

  /** The count recorded for a word in a rank sequence is never negative. */
  lemma CountOfNonNegative(s: seq<Entry>, w: string)
    requires IsRankSequence(s)
    ensures CountOf(s, w) >= 0
  {
    if w in WordsOf(s) {
      var x :| x in s && x.word == w;
      var k :| 0 <= k < |s| && s[k] == x;
      CountOfEntry(s, k);
    } else {
      CountOfAbsent(s, w);
    }
  }

  /** Counting one more occurrence keeps a rank sequence a rank sequence. */
  lemma IncrementRankSequence(s: seq<Entry>, w: string)
    requires IsRankSequence(s)
    ensures IsRankSequence(Increment(s, w))
  {
    var r := Remove(s, w);
    var e := Entry(CountOf(s, w) + 1, w);
    CountOfNonNegative(s, w);
    RemoveRanked(s, w);
    RemoveMembers(s, w);
    WordsOfRemove(s, w);
    InsertRanked(r, e);
    InsertDistinct(r, e);
    InsertMembers(r, e);
    var t := Insert(r, e);
    forall i | 0 <= i < |t| ensures t[i].count >= 1 {
      assert t[i] in t;
    }
  }

  /** The list grows by one entry for a new word and keeps its length for a known one. */
  lemma IncrementLength(s: seq<Entry>, w: string)
    requires IsRankSequence(s)
    ensures |Increment(s, w)| == |s| + (if w in WordsOf(s) then 0 else 1)
  {
    InsertMembers(Remove(s, w), Entry(CountOf(s, w) + 1, w));
    if w in WordsOf(s) {
      var x :| x in s && x.word == w;
      var k :| 0 <= k < |s| && s[k] == x;
      RemoveAtIsRemove(s, k);
    } else {
      RemoveAbsent(s, w);
    }
  }

  lemma {:induction false} IncrementAllRankSequence(s: seq<Entry>, tokens: seq<string>)
    requires IsRankSequence(s)
    ensures IsRankSequence(IncrementAll(s, tokens))
    decreases |tokens|
  {
    if tokens != [] {
      IncrementAllRankSequence(s, tokens[..|tokens| - 1]);
      IncrementRankSequence(IncrementAll(s, tokens[..|tokens| - 1]), tokens[|tokens| - 1]);
    }
  }

  /** The counts after a stream of tokens are the tallies of the tokens. */
  lemma {:induction false} IncrementAllCounts(s: seq<Entry>, tokens: seq<string>)
    ensures CountsOf(IncrementAll(s, tokens)) == Tally(CountsOf(s), tokens)
    decreases |tokens|
  {
    if tokens != [] {
      IncrementAllCounts(s, tokens[..|tokens| - 1]);
      CountsOfIncrement(IncrementAll(s, tokens[..|tokens| - 1]), tokens[|tokens| - 1]);
    }
  }

  /** A rank sequence is fixed by its counts: there is one way to list given counts in rank
      order. */
  lemma RankSequenceOfCounts(s: seq<Entry>, t: seq<Entry>)
    requires IsRankSequence(s) && IsRankSequence(t)
    requires CountsOf(s) == CountsOf(t)
    ensures s == t
  {
    forall e | e in s ensures e in t {
      EntryOfCounts(s, t, e);
    }
    forall e | e in t ensures e in s {
      EntryOfCounts(t, s, e);
    }
    RankedUnique(s, t);
  }

  lemma EntryOfCounts(s: seq<Entry>, t: seq<Entry>, e: Entry)
    requires DistinctWords(s) && DistinctWords(t) && CountsOf(s) == CountsOf(t) && e in s
    ensures e in t
  {
    var i :| 0 <= i < |s| && s[i] == e;
    CountOfEntry(s, i);
    assert e.word in WordsOf(s);
    assert e.word in CountsOf(s);
    assert e.word in WordsOf(t);
    var x :| x in t && x.word == e.word;
    var j :| 0 <= j < |t| && t[j] == x;
    CountOfEntry(t, j);
    assert CountsOf(t)[e.word] == x.count;
    assert x == e;
  }

  // ---------------------------------------------------------------------------------------
  // What the service's binary searches compute
  // ---------------------------------------------------------------------------------------

  /** Inserting at the insertion point is sorted insertion. */
  lemma {:induction false} InsertAtIsInsert(s: seq<Entry>, p: int, e: Entry)
    requires Ranked(s) && InsertionPoint(s, e, p)
    ensures InsertAt(s, p, e) == Insert(s, e)
    decreases |s|
  {
    if p == 0 {
      assert InsertAt(s, p, e) == [e] + s;
    } else {
      BeforeTotal(e, s[0]);
      assert InsertionPoint(s[1..], e, p - 1);
      InsertAtIsInsert(s[1..], p - 1, e);
      assert InsertAt(s, p, e) == [s[0]] + InsertAt(s[1..], p - 1, e);
    }
  }

  /** Removing the entry at a word's position is removing the word. */
  lemma {:induction false} RemoveAtIsRemove(s: seq<Entry>, k: int)
    requires DistinctWords(s) && 0 <= k < |s|
    ensures RemoveAt(s, k) == Remove(s, s[k].word)
    decreases |s|
  {
    var w := s[k].word;
    var t := s[1..];
    assert s == [s[0]] + t;
    DistinctCons(s[0], t);
    if k == 0 {
      assert RemoveAt(s, 0) == t;
      RemoveAbsent(t, w);
      assert Remove(s, w) == Remove(t, w);
    } else {
      assert t[k - 1] == s[k];
      assert s[0].word != w by {
        assert s[k] in t;
      }
      RemoveAtIsRemove(t, k - 1);
      assert RemoveAt(s, k) == [s[0]] + RemoveAt(t, k - 1);
      assert Remove(s, w) == [s[0]] + Remove(t, w);
    }
  }

  /** addNewWord computes Increment: for a word without an entry, the new entry with count 1
      goes in at its insertion point. */
  lemma IncrementNew(s: seq<Entry>, w: string, p: int)
    requires Ranked(s) && (forall i :: 0 <= i < |s| ==> s[i].word != w)
    requires InsertionPoint(s, Entry(1, w), p)
    ensures Increment(s, w) == InsertAt(s, p, Entry(1, w))
  {
    assert w !in WordsOf(s);
    RemoveAbsent(s, w);
    CountOfAbsent(s, w);
    InsertAtIsInsert(s, p, Entry(1, w));
  }

  /** incrementExistingWord computes Increment: the word's entry at k is removed and the
      entry with the count raised by one goes in at its insertion point in what remains. */
  lemma IncrementExisting(s: seq<Entry>, k: int, p: int)
    requires IsRankSequence(s) && 0 <= k < |s|
    requires InsertionPoint(RemoveAt(s, k), Entry(s[k].count + 1, s[k].word), p)
    ensures Increment(s, s[k].word) == InsertAt(RemoveAt(s, k), p, Entry(s[k].count + 1, s[k].word))
  {
    RemoveAtIsRemove(s, k);
    CountOfEntry(s, k);
    RemovePreservesRankSequence(s, k);
    InsertAtIsInsert(RemoveAt(s, k), p, Entry(s[k].count + 1, s[k].word));
  }

  /** Removing a word that has no entry changes nothing. */
  lemma {:induction false} RemoveAbsent(s: seq<Entry>, w: string)
    requires w !in WordsOf(s)
    ensures Remove(s, w) == s
    decreases |s|
  {
    if s != [] {
      assert s[0] in s;
      assert forall x :: x in s[1..] ==> x in s;
      RemoveAbsent(s[1..], w);
      assert s == [s[0]] + s[1..];
    }
  }

  // ---------------------------------------------------------------------------------------
  // What counting a stream of tokens yields
  // ---------------------------------------------------------------------------------------

  /** Counting a then b is counting a, then counting b on the result: calls to the service
      accumulate. */
  lemma {:induction false} IncrementAllConcat(s: seq<Entry>, a: seq<string>, b: seq<string>)
    ensures IncrementAll(s, a + b) == IncrementAll(IncrementAll(s, a), b)
    decreases |b|
  {
    if b == [] {
      assert a + b == a;
    } else {
      var b' := b[..|b| - 1];
      IncrementAllConcat(s, a, b');
      assert (a + b)[..|a + b| - 1] == a + b';
      assert (a + b)[|a + b| - 1] == b[|b| - 1];
    }
  }

  /** The count of a word after a stream of tokens is its count before plus the number of
      times it occurs among the tokens. */
  lemma {:induction false} IncrementAllCountOf(s: seq<Entry>, tokens: seq<string>, w: string)
    ensures CountOf(IncrementAll(s, tokens), w) == CountOf(s, w) + multiset(tokens)[w]
    decreases |tokens|
  {
    if tokens != [] {
      var init, t := tokens[..|tokens| - 1], tokens[|tokens| - 1];
      IncrementAllCountOf(s, init, w);
      CountOfIncrement(IncrementAll(s, init), t, w);
      assert tokens == init + [t];
      assert multiset(tokens) == multiset(init) + multiset{t};
    }
  }

  /** The words with an entry after a stream of tokens are those before and the tokens. */
  lemma {:induction false} IncrementAllWords(s: seq<Entry>, tokens: seq<string>)
    ensures WordsOf(IncrementAll(s, tokens)) == WordsOf(s) + set t | t in tokens
    decreases |tokens|
  {
    if tokens != [] {
      var init, t := tokens[..|tokens| - 1], tokens[|tokens| - 1];
      IncrementAllWords(s, init);
      WordsOfIncrement(IncrementAll(s, init), t);
      assert tokens == init + [t];
      assert (set x | x in tokens) == (set x | x in init) + {t};
    }
  }

  /** The order in which tokens arrive does not matter: any rearrangement of the same tokens
      leaves the same rank sequence. */
  lemma IncrementAllOrderIrrelevant(s: seq<Entry>, a: seq<string>, b: seq<string>)
    requires IsRankSequence(s) && multiset(a) == multiset(b)
    ensures IncrementAll(s, a) == IncrementAll(s, b)
  {
    IncrementAllRankSequence(s, a);
    IncrementAllRankSequence(s, b);
    IncrementAllCounts(s, a);
    IncrementAllCounts(s, b);
    TallyOrderIrrelevant(CountsOf(s), a, b);
    RankSequenceOfCounts(IncrementAll(s, a), IncrementAll(s, b));
  }
}
