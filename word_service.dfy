/**
 * WordService: the rank-ordered word-frequency index. The service keeps a list of
 * WordOccurrences objects sorted by compareTo (most occurrences first, ties broken
 * lexicographically) and a map from each word to its object; the two hold the same
 * objects. Posting text counts its tokens one by one, asking for ranks reads the list, and
 * the list can be saved to and restored from a state file.
 */
module Service {
  import opened JavaLang
  import opened Occurrences
  import opened Tokenizer
  import opened RankQuery
  import opened Ranking

  /** persistOnUpdate: every successful postWords saves the list. */
  const PersistOnUpdate: bool := true

  /** The state file state.txt: absent, present but empty, or holding a serialized list. */
  datatype StateFile = Missing | EmptyFile | Snapshot(entries: seq<Entry>)

  /** A state file holds what saveMapToDisk writes: a list in rank order. */
  ghost predicate ValidStateFile(f: StateFile) {
    f.Snapshot? ==> IsRankSequence(f.entries)
  }

  /** How postWords ends: normally, or with the IllegalStateException of an unknown type. */
  datatype PostOutcome = Posted | IllegalState

  /** extractIndexFromBinarySearchIndexResult: the position p encoded by a binary search
      miss -(p + 1). */
  function ExtractIndex(binarySearchIndexResult: int): (p: int)
    ensures binarySearchIndexResult < 0 ==> 0 <= p && -(p + 1) == binarySearchIndexResult
  {
    -binarySearchIndexResult - 1
  }

  /** The map that putting every object of os under its word, in order, builds. */
  ghost function IndexOf(os: seq<WordOccurrences>): map<string, WordOccurrences>
    decreases |os|
  {
    if os == [] then map[]
    else IndexOf(os[..|os| - 1])[os[|os| - 1].word := os[|os| - 1]]
  }

  /** For objects with distinct words, the rebuilt map sends each word to its object and
      holds nothing else. */
  lemma {:induction false} IndexOfAgrees(os: seq<WordOccurrences>)
    requires forall i, j :: 0 <= i < j < |os| ==> os[i].word != os[j].word
    ensures forall i :: 0 <= i < |os| ==> os[i].word in IndexOf(os) && IndexOf(os)[os[i].word] == os[i]
    ensures forall w :: w in IndexOf(os) ==> IndexOf(os)[w].word == w && IndexOf(os)[w] in os
    decreases |os|
  {
    if os != [] {
      var init := os[..|os| - 1];
      IndexOfAgrees(init);
      forall i | 0 <= i < |os| - 1 ensures os[i].word in IndexOf(os) && IndexOf(os)[os[i].word] == os[i] {
        assert init[i] == os[i];
      }
    }
  }

  /** ObjectInputStream.readObject of a serialized list: a new list of new objects, one per
      serialized entry, in the same order. */
  method ReadSnapshot(entries: seq<Entry>) returns (os: seq<WordOccurrences>)
    ensures ValuesOf(os) == entries
    ensures forall o :: o in os ==> fresh(o)
  {
    os := [];
    for k := 0 to |entries|
      invariant |os| == k
      invariant forall i :: 0 <= i < k ==> os[i].Value() == entries[i]
      invariant forall o :: o in os ==> fresh(o)
    {
      var wo := new WordOccurrences(entries[k].count, entries[k].word);
      os := os + [wo];
    }
  }

  // ---------------------------------------------------------------------------------------
  // The invariant linking the list and the map
  // ---------------------------------------------------------------------------------------

  /** The list is in rank order with each word once and every count at least 1; the map
      sends each listed word to its own object in the list and holds no other word. */
  ghost predicate Agree(index: map<string, WordOccurrences>, list: seq<WordOccurrences>)
    reads list
  {
    && IsRankSequence(ValuesOf(list))
    && (forall i :: 0 <= i < |list| ==> list[i].word in index && index[list[i].word] == list[i])
    && (forall v :: v in index ==> index[v].word == v && index[v] in list)
  }

  /** Agree, except that the object of word w has been taken out of the list. */
  ghost predicate AgreeWithout(index: map<string, WordOccurrences>, list: seq<WordOccurrences>, w: string)
    reads list
  {
    && IsRankSequence(ValuesOf(list))
    && (forall i :: 0 <= i < |list| ==>
          list[i].word != w && list[i].word in index && index[list[i].word] == list[i])
    && (forall v :: v in index ==> index[v].word == v && (v == w || index[v] in list))
  }

  /** Putting a new word's object into the map: only that word is missing from the list. */
  lemma AgreeAddKey(index: map<string, WordOccurrences>, list: seq<WordOccurrences>, o: WordOccurrences)
    requires Agree(index, list) && o.word !in index
    ensures AgreeWithout(index[o.word := o], list, o.word)
  {
  }

  /** The objects left after taking out the one at k are the others. */
  lemma RestMembers(list: seq<WordOccurrences>, k: int)
    requires 0 <= k < |list|
    ensures forall x :: x in list ==> x == list[k] || x in list[..k] + list[k + 1..]
    ensures forall x :: x in list[..k] + list[k + 1..] ==> x in list
  {
    var rest := list[..k] + list[k + 1..];
    forall x | x in list ensures x == list[k] || x in rest {
      var j :| 0 <= j < |list| && list[j] == x;
      if j < k {
        assert rest[j] == x;
      } else if j > k {
        assert rest[j - 1] == x;
      }
    }
  }

  /** Removing a word's object from the list leaves only that word missing. */
  lemma AgreeRemove(index: map<string, WordOccurrences>, list: seq<WordOccurrences>, k: int)
    requires Agree(index, list) && 0 <= k < |list|
    ensures AgreeWithout(index, list[..k] + list[k + 1..], list[k].word)
  {
    var vs := ValuesOf(list);
    var rest := list[..k] + list[k + 1..];
    ValuesOfRemove(list, k);
    RemovePreservesRankSequence(vs, k);
    RestMembers(list, k);
    forall i | 0 <= i < |rest| ensures rest[i].word != list[k].word {
      var j := if i < k then i else i + 1;
      assert rest[i] == list[j];
      assert vs[j].word != vs[k].word;
    }
  }

  /** A binary search for a listed word's own object finds it; taking it out leaves the
      rest agreeing with the map except for that word. */
  lemma AgreeTakeOut(index: map<string, WordOccurrences>, list: seq<WordOccurrences>, w: string, r: int)
    requires Agree(index, list) && w in index
    requires 0 <= r ==> r < |list| && list[r].Value() == index[w].Value()
    requires 0 <= r <==> index[w].Value() in ValuesOf(list)
    ensures 0 <= r < |list| && list[r] == index[w]
    ensures AgreeWithout(index, list[..r] + list[r + 1..], w)
    ensures ValuesOf(list[..r] + list[r + 1..]) == RemoveAt(ValuesOf(list), r)
    ensures index[w] !in list[..r] + list[r + 1..]
    ensures forall x :: x in list ==> x == index[w] || x in list[..r] + list[r + 1..]
    ensures forall x :: x in list[..r] + list[r + 1..] ==> x in list
  {
    var vs := ValuesOf(list);
    var j :| 0 <= j < |list| && list[j] == index[w];
    assert vs[j] == index[w].Value();
    assert list[r].word == w;
    var rest := list[..r] + list[r + 1..];
    AgreeRemove(index, list, r);
    ValuesOfRemove(list, r);
    RestMembers(list, r);
    forall i | 0 <= i < |rest| ensures rest[i] != index[w] {
      assert rest[i].word != w;
    }
  }

  /** Putting the missing word's object back at its insertion point restores the invariant. */
  lemma AgreeInsert(index: map<string, WordOccurrences>, list: seq<WordOccurrences>, w: string, p: int)
    requires AgreeWithout(index, list, w) && w in index
    requires index[w].count >= 1 && InsertionPoint(ValuesOf(list), index[w].Value(), p)
    ensures Agree(index, list[..p] + [index[w]] + list[p..])
    ensures ValuesOf(list[..p] + [index[w]] + list[p..]) == InsertAt(ValuesOf(list), p, index[w].Value())
    ensures forall x :: x in list[..p] + [index[w]] + list[p..] <==> x == index[w] || x in list
  {
    var o := index[w];
    var vs := ValuesOf(list);
    var t := list[..p] + [o] + list[p..];
    ValuesOfInsert(list, p, o);
    InsertPreservesRankSequence(vs, p, o.Value());
    assert forall x :: x in t <==> x == o || x in list;
    forall i | 0 <= i < |t| ensures t[i].word in index && index[t[i].word] == t[i] {
      if i < p {
        assert t[i] == list[i];
      } else if i > p {
        assert t[i] == list[i - 1];
      }
    }
  }

  /** Adding a new word's object at its insertion point: the map and list agree again, and
      the list's entries become Increment of the old ones. */
  lemma AgreeAddNew(index: map<string, WordOccurrences>, list: seq<WordOccurrences>, o: WordOccurrences, p: int)
    requires Agree(index, list) && o.word !in index && o.count == 1
    requires InsertionPoint(ValuesOf(list), o.Value(), p)
    ensures Agree(index[o.word := o], list[..p] + [o] + list[p..])
    ensures ValuesOf(list[..p] + [o] + list[p..]) == Increment(ValuesOf(list), o.word)
    ensures forall x :: x in list[..p] + [o] + list[p..] ==> x in list || x == o
  {
    var vs := ValuesOf(list);
    forall i | 0 <= i < |vs| ensures vs[i].word != o.word {
      assert list[i].word in index;
    }
    AgreeAddKey(index, list, o);
    IncrementNew(vs, o.word, p);
    AgreeInsert(index[o.word := o], list, o.word, p);
  }

  /** Putting a known word's object, its count raised by one, back at its insertion point:
      the map and list agree again, and the list's entries become Increment of the entries
      before the object was taken out. */
  lemma AgreeReinsert(index: map<string, WordOccurrences>, rest: seq<WordOccurrences>, o: WordOccurrences,
                      p: int, vs: seq<Entry>, k: int)
    requires IsRankSequence(vs) && 0 <= k < |vs| && ValuesOf(rest) == RemoveAt(vs, k)
    requires AgreeWithout(index, rest, o.word) && o.word in index && index[o.word] == o
    requires o.Value() == Entry(vs[k].count + 1, vs[k].word)
    requires InsertionPoint(ValuesOf(rest), o.Value(), p)
    ensures Agree(index, rest[..p] + [o] + rest[p..])
    ensures ValuesOf(rest[..p] + [o] + rest[p..]) == Increment(vs, o.word)
    ensures forall x :: x in rest[..p] + [o] + rest[p..] <==> x == o || x in rest
  {
    RemovePreservesRankSequence(vs, k);
    assert o.count >= 1 by {
      assert vs[k].count >= 1;
    }
    AgreeInsert(index, rest, o.word, p);
    IncrementExisting(vs, k, p);
  }

  // ---------------------------------------------------------------------------------------
  // The service
  // ---------------------------------------------------------------------------------------

  class WordService {
    /** wordToOccurrencesMap */
    var index: map<string, WordOccurrences>
    /** occurrencesArray */
    var occurrences: seq<WordOccurrences>
    /** The state file the service saves to and loads from. */
    var stateFile: StateFile

    ghost predicate Valid()
      reads this, occurrences
    {
      Agree(index, occurrences) && ValidStateFile(stateFile)
    }

    /** The list's entries, in rank order. */
    function Entries(): seq<Entry>
      reads this, occurrences
    {
      ValuesOf(occurrences)
    }

    /** The list's words, in rank order: what getWordRanking reads. */
    function Words(): (ws: seq<string>)
      reads this
    {
      var os := occurrences;
      seq(|os|, i requires 0 <= i < |os| => os[i].word)
    }

    /** The map and the list agree: the map's words are the list's words, each listed
        once, and the map's objects carry the counts the list records. */
    lemma IndexHoldsCounts()
      requires Valid()
      ensures index.Keys == WordsOf(Entries())
      ensures DistinctWords(Entries())
      ensures forall w :: w in index ==> index[w].count == CountsOf(Entries())[w]
    {
      var es := Entries();
      forall w | w in index ensures w in WordsOf(es) && index[w].count == CountOf(es, w) {
        var i :| 0 <= i < |occurrences| && occurrences[i] == index[w];
        assert es[i] == index[w].Value();
        CountOfEntry(es, i);
      }
      forall e | e in es ensures e.word in index {
        var i :| 0 <= i < |es| && es[i] == e;
        assert occurrences[i].word == e.word;
      }
    }

    /** The state file before the service starts must be one it wrote; the Spring container
        then calls init. */
    constructor (disk: StateFile)
      requires ValidStateFile(disk)
      ensures Valid()
      ensures stateFile == disk
      ensures Entries() == if disk.Snapshot? then disk.entries else []
      ensures forall o :: o in occurrences ==> fresh(o)
    {
      index := map[];
      occurrences := [];
      stateFile := disk;
      new;
      Init();
    }

    /** init: a new empty map and list, then whatever the state file holds. */
    method Init()
      requires ValidStateFile(stateFile)
      modifies this
      ensures Valid()
      ensures stateFile == old(stateFile)
      ensures Entries() == if stateFile.Snapshot? then stateFile.entries else []
      ensures forall o :: o in occurrences ==> fresh(o)
    {
      index := map[];
      occurrences := [];
      LoadMapFromDisk();
      if stateFile.Snapshot? {
        assert DistinctWords(Entries());
        forall i, j | 0 <= i < j < |occurrences| ensures occurrences[i].word != occurrences[j].word {
          assert Entries()[i].word == occurrences[i].word && Entries()[j].word == occurrences[j].word;
        }
        IndexOfAgrees(occurrences);
        assert index == IndexOf(occurrences);
      }
    }

    /** loadMapFromDisk: with a serialized list in the state file, the list becomes a fresh
        copy of it and every entry is put into the map under its word; an absent or empty
        file changes nothing. */
    method LoadMapFromDisk()
      modifies this
      ensures stateFile == old(stateFile)
      ensures stateFile.Snapshot? ==>
        && Entries() == stateFile.entries
        && (forall o :: o in occurrences ==> fresh(o))
        && index == old(index) + IndexOf(occurrences)
      ensures !stateFile.Snapshot? ==> occurrences == old(occurrences) && index == old(index)
    {
      if stateFile.Snapshot? {
        var list := ReadSnapshot(stateFile.entries);
        occurrences := list;
        for k := 0 to |list|
          invariant occurrences == list && stateFile == old(stateFile)
          invariant ValuesOf(list) == stateFile.entries
          invariant index == old(index) + IndexOf(list[..k])
        {
          var wo := list[k];
          assert list[..k + 1][..k] == list[..k];
          index := index[wo.word := wo];
        }
        assert list[..|list|] == list;
      }
    }

    /** saveMapToDisk: the list replaces the state file's contents, unless it is empty. */
    method SaveMapToDisk()
      requires Valid()
      modifies this`stateFile
      ensures Valid()
      ensures |occurrences| > 0 ==> stateFile == Snapshot(Entries())
      ensures |occurrences| == 0 ==> stateFile == old(stateFile)
    {
      if |occurrences| > 0 {
        stateFile := Snapshot(Entries());
      }
    }

    /** saveMapToDisk followed by init, as on a restart: a non-empty list comes back with the
        same entries in the same order; an empty list leaves the previous state file, and
        what that holds comes back. */
    method SaveAndRestart()
      requires Valid()
      modifies this
      ensures Valid()
      ensures |old(occurrences)| > 0 ==> Entries() == old(Entries())
      ensures |old(occurrences)| == 0 ==>
        Entries() == if old(stateFile).Snapshot? then old(stateFile).entries else []
    {
      SaveMapToDisk();
      Init();
    }

    /** clear: the state file is deleted and the service starts afresh with nothing. */
    method Clear()
      modifies this
      ensures Valid()
      ensures stateFile == Missing
      ensures occurrences == [] && index == map[]
    {
      stateFile := Missing;
      Init();
    }

    /** incrementWordOccurrences: a word not yet in the map is added, a known word has its
        count raised by one. Either way the list becomes Increment of the old list, the map
        and the list still agree, and the objects already there stay the same objects. */
    method IncrementWordOccurrences(word: string)
      requires Valid()
      modifies this, occurrences
      ensures Valid()
      ensures Entries() == Increment(old(Entries()), word)
      ensures stateFile == old(stateFile)
      ensures forall w :: w in old(index) ==> w in index && index[w] == old(index[w])
      ensures forall o :: o in occurrences ==> o in old(occurrences) || fresh(o)
    {
      if word !in index {
        AddNewWord(word);
      } else {
        IncrementExistingWord(word);
      }
    }

    /** addNewWord: a new object with count 1 goes into the list where a binary search says
        it belongs, and into the map. */
    method AddNewWord(word: string)
      requires Valid() && word !in index
      modifies this
      ensures Valid()
      ensures Entries() == Increment(old(Entries()), word)
      ensures word in index && fresh(index[word]) && index == old(index)[word := index[word]]
      ensures stateFile == old(stateFile)
      ensures forall o :: o in occurrences ==> o in old(occurrences) || o == index[word]
    {
      var list := occurrences;
      ghost var before := ValuesOf(list);
      var newWo := new WordOccurrences(1, word);
      var p;
      if |list| == 0 {
        p := 0;
      } else {
        var r := BinarySearch(list, newWo);
        assert newWo.Value() !in ValuesOf(list) by {
          forall i | 0 <= i < |list| ensures ValuesOf(list)[i] != newWo.Value() {
            assert list[i].word in index;
          }
        }
        p := ExtractIndex(r);
      }
      index := index[word := newWo];
      occurrences := list[..p] + [newWo] + list[p..];
      assert ValuesOf(list) == before;
      AgreeAddNew(old(index), list, newWo, p);
    }

    method IncrementExistingWord(word: string)
      requires Valid() && word in index
      modifies this, index[word]
      ensures Valid()
      ensures Entries() == Increment(old(Entries()), word)
      ensures index == old(index)
      ensures stateFile == old(stateFile)
      ensures forall o :: o in occurrences <==> o in old(occurrences)
    {
      var wo := index[word];
      var list := occurrences;
      ghost var vs := ValuesOf(list);
      var currentIndex := BinarySearch(list, wo);
      AgreeTakeOut(index, list, word, currentIndex);
      var rest := list[..currentIndex] + list[currentIndex + 1..];
      ghost var restValues := ValuesOf(rest);
      wo.SetCount(wo.count + 1);
      assert ValuesOf(rest) == restValues;
      assert AgreeWithout(index, rest, word);
      var r := BinarySearch(rest, wo);
      var p := ExtractIndex(r);
      occurrences := rest[..p] + [wo] + rest[p..];
      AgreeReinsert(index, rest, wo, p, vs, currentIndex);
    }

    /** handleWordsStream over the lines of the input: every line is stripped into pieces,
        the empty pieces are skipped and every other piece is counted in lower case. */
    method HandleWordsStream(lines: seq<string>)
      requires Valid()
      modifies this, occurrences
      ensures Valid()
      ensures Entries() == IncrementAll(old(Entries()), StreamTokens(lines))
      ensures stateFile == old(stateFile)
      ensures forall o :: o in occurrences ==> o in old(occurrences) || fresh(o)
    {
      ghost var start := Entries();
      for n := 0 to |lines|
        invariant Valid()
        invariant Entries() == IncrementAll(start, StreamTokens(lines[..n]))
        invariant stateFile == old(stateFile)
        invariant forall o :: o in occurrences ==> o in old(occurrences) || fresh(o)
      {
        var wordsInLine := StripLine(lines[n]);
        ghost var before := StreamTokens(lines[..n]);
        assert before + Normalize(wordsInLine[..0]) == before;
        for j := 0 to |wordsInLine|
          invariant Valid()
          invariant Entries() == IncrementAll(start, before + Normalize(wordsInLine[..j]))
          invariant stateFile == old(stateFile)
          invariant forall o :: o in occurrences ==> o in old(occurrences) || fresh(o)
        {
          var word := wordsInLine[j];
          ghost var ts := Normalize(wordsInLine[..j]);
          NormalizeSnoc(wordsInLine, j);
          if word != [] {
            var token := ToLower(word);
            IncrementWordOccurrences(token);
            IncrementAllSnoc(start, before, ts, token);
          } else {
            assert ts + [] == ts;
          }
        }
        assert wordsInLine[..|wordsInLine|] == wordsInLine;
        StreamTokensSnoc(lines, n);
      }
      assert lines[..|lines|] == lines;
    }

    /** postWords: for the types "string", "url" and "file" the lines read from the data are
        counted and, with persistOnUpdate, the list is saved; any other type throws
        IllegalStateException before anything is counted or saved. */
    method PostWords(kind: string, lines: seq<string>) returns (outcome: PostOutcome)
      requires Valid()
      modifies this, occurrences
      ensures Valid()
      ensures kind != "string" && kind != "url" && kind != "file" ==>
        && outcome == IllegalState
        && occurrences == old(occurrences) && index == old(index) && stateFile == old(stateFile)
        && Entries() == old(Entries())
      ensures kind == "string" || kind == "url" || kind == "file" ==>
        && outcome == Posted
        && Entries() == IncrementAll(old(Entries()), StreamTokens(lines))
        && (PersistOnUpdate && |occurrences| > 0 ==> stateFile == Snapshot(Entries()))
        && (!PersistOnUpdate || |occurrences| == 0 ==> stateFile == old(stateFile))
      ensures forall o :: o in occurrences ==> o in old(occurrences) || fresh(o)
    {
      if kind != "string" && kind != "url" && kind != "file" {
        return IllegalState;
      }
      HandleWordsStream(lines);
      if PersistOnUpdate {
        SaveMapToDisk();
      }
      return Posted;
    }

    /** injectWordsToResult: the word at rank position is appended when the list has at
        least position entries; for a position at or below 0 the lookup throws. */
    method InjectWordsToResult(result: seq<string>, position: int) returns (r: Result<seq<string>>)
      ensures r == Then(Ok(result), RankAt(Words(), position))
    {
      if |occurrences| >= position {
        if position - 1 < 0 {
          return Err(IndexOutOfBounds);
        }
        assert Words()[position - 1] == occurrences[position - 1].word;
        return Ok(result + [occurrences[position - 1].word]);
      }
      assert result + [] == result;
      return Ok(result);
    }

    /** getWordRanking: the answer is what WordRanking says for the list's words. */
    method GetWordRanking(input: string) returns (r: Result<seq<string>>)
      ensures r == WordRanking(Words(), input)
    {
      var result: seq<string> := [];
      var rangesInput := JavaSplit(input, ',');
      for k := 0 to |rangesInput|
        invariant RankTerms(Words(), rangesInput[..k]) == Ok(result)
      {
        assert rangesInput[..k + 1][..k] == rangesInput[..k];
        var injected := InjectTerm(result, rangesInput[k]);
        if injected.Err? {
          RankTermsFailsAt(Words(), rangesInput, k, injected.error);
          return injected;
        }
        result := injected.value;
      }
      assert rangesInput[..|rangesInput|] == rangesInput;
      return Ok(result);
    }

    /** The body of getWordRanking's loop for one comma-separated term: a number is injected
        as one rank; a term with a hyphen is split at hyphens, its first two parts are read
        as the bounds of a range, and the range is injected. */
    method InjectTerm(result: seq<string>, rangeInput: string) returns (r: Result<seq<string>>)
      ensures r == Then(Ok(result), RankTerm(Words(), rangeInput))
    {
      if '-' !in rangeInput {
        var n := ParseDecimal(rangeInput, INT_MIN, INT_MAX);
        if n.None? {
          return Err(NumberFormat);
        }
        r := InjectWordsToResult(result, n.value);
      } else {
        var fromToInput := JavaSplit(rangeInput, '-');
        if |fromToInput| < 2 {
          return Err(ArrayIndexOutOfBounds);
        }
        var from := ParseDecimal(fromToInput[0], INT_MIN, INT_MAX);
        if from.None? {
          return Err(NumberFormat);
        }
        var to := ParseDecimal(fromToInput[1], LONG_MIN, LONG_MAX);
        if to.None? {
          return Err(NumberFormat);
        }
        r := InjectRange(result, from.value, to.value);
      }
    }

    /** The inner loop of getWordRanking over a range: every rank from `fromRank` (an Integer)
        to `toRank` (a Long) is injected in turn. */
    method InjectRange(result: seq<string>, fromRank: int, toRank: int) returns (r: Result<seq<string>>)
      requires INT_MIN <= fromRank <= INT_MAX && LONG_MIN <= toRank <= LONG_MAX
      ensures r == Then(Ok(result), RangeWords(Words(), fromRank, toRank))
    {
      ghost var words := Words();
      var acc := result;
      var i := fromRank;
      while i <= toRank
        invariant fromRank <= i <= INT_MAX
        invariant fromRank <= toRank ==> i <= toRank + 1
        invariant fromRank > toRank ==> i == fromRank
        invariant i == fromRank ==> acc == result
        invariant i > fromRank ==> 1 <= fromRank && acc == result + Span(words, fromRank, i - 1)
        decreases toRank - i
      {
        var injected := InjectWordsToResult(acc, i);
        if injected.Err? {
          return injected;
        }
        SpanExtend(words, fromRank, i);
        acc := injected.value;
        if i == INT_MAX {
          // i++ wraps the Integer to MIN_VALUE, which is still at most the bound; its
          // lookup index MIN_VALUE - 1 wraps to MAX_VALUE, past the end of any list.
          return Err(IndexOutOfBounds);
        }
        i := i + 1;
      }
      if fromRank > toRank {
        assert acc == result + [];
      } else {
        assert i == toRank + 1 && 1 <= fromRank && toRank < INT_MAX;
      }
      return Ok(acc);
    }
  }

  /** One more rank at the end of a range adds that rank's words at the end. */
  lemma SpanExtend(words: seq<string>, from: int, to: int)
    requires 1 <= from <= to
    ensures Span(words, from, to) == Span(words, from, to - 1) + RankAt(words, to).value
  {
    if to <= |words| {
      assert words[from - 1..to] == words[from - 1..to - 1] + [words[to - 1]];
    }
  }
}
