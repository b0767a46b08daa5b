/**
 * A word together with how often it was seen (WordOccurrences), the total order the index is
 * sorted by (WordOccurrences.compareTo: count descending, then word ascending), and the facts
 * about sequences sorted by that order that the index's binary searches and insertions use.
 */
module Occurrences {
  import opened JavaLang

  /** The value of one WordOccurrences object; also the form in which it is serialized. */
  datatype Entry = Entry(count: int, word: string)

  // ---------------------------------------------------------------------------------------
  // The order (WordOccurrences.compareTo)
  // ---------------------------------------------------------------------------------------

  /** WordOccurrences.compareTo: 1 when a has the smaller count, -1 when it has the larger
      one, and String.compareTo of the words when the counts are equal. */
  function Compare(a: Entry, b: Entry): (r: int)
    ensures r == 0 <==> a == b
    ensures a.count != b.count ==> (r < 0 <==> a.count > b.count)
  {
    if a.count < b.count then 1
    else if a.count > b.count then -1
    else CompareStrings(a.word, b.word)
  }

  /** a comes strictly before b in rank order. */
  predicate Before(a: Entry, b: Entry) {
    Compare(a, b) < 0
  }

  /** The entry with more occurrences orders first, with -1 and 1 as the exact results. */
  lemma CompareByCount(a: Entry, b: Entry)
    ensures a.count > b.count ==> Compare(a, b) == -1 && Before(a, b)
    ensures a.count < b.count ==> Compare(a, b) == 1 && Before(b, a)
  {
  }

  /** With equal counts, the entries are ordered lexicographically by word. */
  lemma CompareTieBreak(a: Entry, b: Entry)
    requires a.count == b.count
    ensures Before(a, b) <==> LexLess(a.word, b.word)
  {
    CompareStringsIsLexicographic(a.word, b.word);
  }

  /** Rank order, stated without Compare: more occurrences first, ties broken
      lexicographically. */
  lemma BeforeIsRankOrder(a: Entry, b: Entry)
    ensures Before(a, b) <==> a.count > b.count || (a.count == b.count && LexLess(a.word, b.word))
  {
    CompareStringsIsLexicographic(a.word, b.word);
  }

  /** compareTo is 0 exactly for equal count and equal word. */
  lemma CompareZeroIff(a: Entry, b: Entry)
    ensures Compare(a, b) == 0 <==> a == b
  {
  }

  /** compareTo is antisymmetric in sign: swapping the operands negates it. */
  lemma CompareAntisymmetric(a: Entry, b: Entry)
    ensures Compare(b, a) == -Compare(a, b)
  {
    CompareStringsAntisymmetric(a.word, b.word);
  }

  /** Rank order is transitive. */
  lemma BeforeTransitive(a: Entry, b: Entry, c: Entry)
    requires Before(a, b) && Before(b, c)
    ensures Before(a, c)
  {
    if a.count == b.count && b.count == c.count {
      CompareStringsTransitive(a.word, b.word, c.word);
    }
  }

  /** Rank order is total and strict: of two entries exactly one comes first, unless they
      are equal. */
  lemma BeforeTotal(a: Entry, b: Entry)
    ensures a == b || Before(a, b) || Before(b, a)
    ensures !(Before(a, b) && Before(b, a))
    ensures !Before(a, a)
  {
    CompareAntisymmetric(a, b);
  }

  // ---------------------------------------------------------------------------------------
  // Sequences in rank order
  // ---------------------------------------------------------------------------------------

  /** Strictly increasing in rank order. */
  ghost predicate Ranked(s: seq<Entry>) {
    forall i, j :: 0 <= i < j < |s| ==> Before(s[i], s[j])
  }

  /** No two neighbours out of order. */
  ghost predicate AdjacentRanked(s: seq<Entry>) {
    forall i :: 0 <= i < |s| - 1 ==> Before(s[i], s[i + 1])
  }

  ghost predicate DistinctWords(s: seq<Entry>) {
    forall i, j :: 0 <= i < j < |s| ==> s[i].word != s[j].word
  }

  /** What the index's list must be: in rank order, each word once, every count at least 1. */
  ghost predicate IsRankSequence(s: seq<Entry>) {
    && Ranked(s)
    && DistinctWords(s)
    && forall i :: 0 <= i < |s| ==> s[i].count >= 1
  }

  /** p is where e belongs in s: everything before p orders before e, everything from p on
      orders after it. */
  ghost predicate InsertionPoint(s: seq<Entry>, e: Entry, p: int) {
    && 0 <= p <= |s|
    && (forall i :: 0 <= i < p ==> Before(s[i], e))
    && (forall i :: p <= i < |s| ==> Before(e, s[i]))
  }

  /** Sorted everywhere is the same as sorted between neighbours. */
  lemma {:induction false} RankedIffAdjacentRanked(s: seq<Entry>)
    ensures Ranked(s) <==> AdjacentRanked(s)
    decreases |s|
  {
    if |s| >= 2 && AdjacentRanked(s) {
      RankedIffAdjacentRanked(s[1..]);
      assert AdjacentRanked(s[1..]) by {
        forall i | 0 <= i < |s[1..]| - 1 ensures Before(s[1..][i], s[1..][i + 1]) {
          assert s[1..][i] == s[i + 1] && s[1..][i + 1] == s[i + 2];
        }
      }
      forall i, j | 0 <= i < j < |s| ensures Before(s[i], s[j]) {
        if i > 0 {
          assert s[1..][i - 1] == s[i] && s[1..][j - 1] == s[j];
        } else if j > 1 {
          assert s[1..][0] == s[1] && s[1..][j - 1] == s[j];
          BeforeTransitive(s[0], s[1], s[j]);
        }
      }
    }
  }

  /** An entry with an insertion point is not in the sequence. */
  lemma InsertionPointExcludes(s: seq<Entry>, e: Entry, p: int)
    requires InsertionPoint(s, e, p)
    ensures e !in s
  {
    if e in s {
      var i :| 0 <= i < |s| && s[i] == e;
      BeforeTotal(e, e);
    }
  }

  /** In a ranked sequence there is only one insertion point for an entry it lacks. */
  lemma InsertionPointUnique(s: seq<Entry>, e: Entry, p: int, q: int)
    requires InsertionPoint(s, e, p) && InsertionPoint(s, e, q)
    ensures p == q
  {
    if p < q {
      BeforeTotal(e, s[p]);
    } else if q < p {
      BeforeTotal(e, s[q]);
    }
  }

  function RemoveAt(s: seq<Entry>, k: int): seq<Entry>
    requires 0 <= k < |s|
  {
    s[..k] + s[k + 1..]
  }

  function InsertAt(s: seq<Entry>, p: int, e: Entry): seq<Entry>
    requires 0 <= p <= |s|
  {
    s[..p] + [e] + s[p..]
  }

  /** Removing an entry keeps a rank sequence a rank sequence. */
  lemma RemovePreservesRankSequence(s: seq<Entry>, k: int)
    requires IsRankSequence(s) && 0 <= k < |s|
    ensures IsRankSequence(RemoveAt(s, k))
  {
    var r := RemoveAt(s, k);
    assert forall i :: 0 <= i < |r| ==> r[i] == if i < k then s[i] else s[i + 1];
  }

  /** Inserting a new word at its insertion point keeps a rank sequence a rank sequence. */
  lemma InsertPreservesRankSequence(s: seq<Entry>, p: int, e: Entry)
    requires IsRankSequence(s) && InsertionPoint(s, e, p)
    requires e.count >= 1
    requires forall i :: 0 <= i < |s| ==> s[i].word != e.word
    ensures IsRankSequence(InsertAt(s, p, e))
  {
    var r := InsertAt(s, p, e);
    assert forall i :: 0 <= i < |r| ==> r[i] == if i < p then s[i] else if i == p then e else s[i - 1];
    forall i, j | 0 <= i < j < |r| ensures Before(r[i], r[j]) {
      if i < p && j > p {
        BeforeTransitive(s[i], e, s[j - 1]);
      }
    }
  }

  lemma FirstIsMember(t: seq<Entry>)
    ensures t == [] || t[0] in t
  {
  }

  /** Two ranked sequences holding the same entries are the same sequence: the rank order
      fixes the position of every entry. */
  lemma {:induction false} RankedUnique(s: seq<Entry>, t: seq<Entry>)
    requires Ranked(s) && Ranked(t)
    requires forall e :: e in s <==> e in t
    ensures s == t
    decreases |s|
  {
    if s != [] {
      assert s[0] in s;
      assert t != [];
      assert t[0] in t;
      if s[0] != t[0] {
        var j :| 0 <= j < |t| && t[j] == s[0];
        var i :| 0 <= i < |s| && s[i] == t[0];
        assert Before(t[0], s[0]);
        assert Before(s[0], t[0]);
        BeforeTotal(s[0], t[0]);
      }
      forall e ensures e in s[1..] <==> e in t[1..] {
        if e in s[1..] {
          var i :| 0 <= i < |s[1..]| && s[1..][i] == e;
          assert s[i + 1] == e && Before(s[0], s[i + 1]);
          BeforeTotal(e, e);
          assert e in t && e != t[0];
          var j :| 0 <= j < |t| && t[j] == e;
          assert t[1..][j - 1] == e;
        }
        if e in t[1..] {
          var i :| 0 <= i < |t[1..]| && t[1..][i] == e;
          assert t[i + 1] == e && Before(t[0], t[i + 1]);
          BeforeTotal(e, e);
          assert e in s && e != s[0];
          var j :| 0 <= j < |s| && s[j] == e;
          assert s[1..][j - 1] == e;
        }
      }
      RankedUnique(s[1..], t[1..]);
      assert s == [s[0]] + s[1..] && t == [t[0]] + t[1..];
    } else {
      FirstIsMember(t);
    }
  }

  // ---------------------------------------------------------------------------------------
  // The mutable entry (WordOccurrences)
  // ---------------------------------------------------------------------------------------

  /** One word and its count. The index's map and its sorted list hold the same objects, so a
      count changed through one is seen through the other; the word never changes. */
  class WordOccurrences {
    var count: int
    const word: string

    /** new WordOccurrences(count, word) */
    constructor (count: int, word: string)
      ensures this.count == count && this.word == word
    {
      this.count := count;
      this.word := word;
    }

    /** setCount: replaces the count and nothing else. */
    method SetCount(count: int)
      modifies this`count
      ensures this.count == count
    {
      this.count := count;
    }

    function Value(): Entry
      reads this
    {
      Entry(count, word)
    }
  }

  /** The values of a list of entry objects, in list order. */
  function ValuesOf(os: seq<WordOccurrences>): (es: seq<Entry>)
    reads os
    ensures |es| == |os|
  {
    seq(|os|, i reads os requires 0 <= i < |os| => os[i].Value())
  }

  /** List.add(p, o) on the objects is InsertAt on their values. */
  lemma ValuesOfInsert(os: seq<WordOccurrences>, p: int, o: WordOccurrences)
    requires 0 <= p <= |os|
    ensures ValuesOf(os[..p] + [o] + os[p..]) == InsertAt(ValuesOf(os), p, o.Value())
  {
    var t := os[..p] + [o] + os[p..];
    var vs := ValuesOf(os);
    var a, b := ValuesOf(t), InsertAt(vs, p, o.Value());
    forall i | 0 <= i < |t| ensures a[i] == b[i] {
      if i < p {
        assert t[i] == os[i] && b[i] == vs[i];
      } else if i > p {
        assert t[i] == os[i - 1] && b[i] == vs[i - 1];
      }
    }
  }

  /** List.remove(k) on the objects is RemoveAt on their values. */
  lemma ValuesOfRemove(os: seq<WordOccurrences>, k: int)
    requires 0 <= k < |os|
    ensures ValuesOf(os[..k] + os[k + 1..]) == RemoveAt(ValuesOf(os), k)
  {
    var t := os[..k] + os[k + 1..];
    var vs := ValuesOf(os);
    var a, b := ValuesOf(t), RemoveAt(vs, k);
    forall i | 0 <= i < |t| ensures a[i] == b[i] {
      if i < k {
        assert t[i] == os[i] && b[i] == vs[i];
      } else {
        assert t[i] == os[i + 1] && b[i] == vs[i + 1];
      }
    }
  }

  /** Collections.binarySearch (the indexed variant, as for an ArrayList) of key in a list
      sorted by compareTo: the index of an element equal to key when there is one, otherwise
      -(p + 1) for the position p where key belongs. */
  method BinarySearch(list: seq<WordOccurrences>, key: WordOccurrences) returns (r: int)
    requires Ranked(ValuesOf(list))
    ensures 0 <= r ==> r < |list| && list[r].Value() == key.Value()
    ensures r < 0 ==> InsertionPoint(ValuesOf(list), key.Value(), -(r + 1))
    ensures 0 <= r <==> key.Value() in ValuesOf(list)
  {
    ghost var vs := ValuesOf(list);
    var k := key.Value();
    var low, high := 0, |list| - 1;
    while low <= high
      invariant 0 <= low <= high + 1 <= |list|
      invariant forall i :: 0 <= i < low ==> Before(vs[i], k)
      invariant forall i :: high < i < |list| ==> Before(k, vs[i])
      decreases high - low
    {
      var mid := (low + high) / 2;
      var cmp := Compare(list[mid].Value(), k);
      if cmp < 0 {
        forall i | low <= i < mid ensures Before(vs[i], k) {
          BeforeTransitive(vs[i], vs[mid], k);
        }
        low := mid + 1;
      } else if cmp > 0 {
        CompareAntisymmetric(vs[mid], k);
        forall i | mid < i <= high ensures Before(k, vs[i]) {
          BeforeTransitive(k, vs[mid], vs[i]);
        }
        high := mid - 1;
      } else {
        CompareZeroIff(vs[mid], k);
        return mid;
      }
    }
    InsertionPointExcludes(vs, k, low);
    return -(low + 1);
  }
}
