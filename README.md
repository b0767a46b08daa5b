# words_server core in Dafny

A model of `WordService` and `WordOccurrences`, the core of the words_server Java service,
with proofs about it. The service counts the words posted to it. It keeps the counts in a
list of `WordOccurrences` objects sorted by `compareTo`: most occurrences first, ties broken
by `String.compareTo` of the words. Beside the list, a map goes from each word to its object.
Both hold the very same objects. The service answers rank queries such as `1-3,4,5` from the
sorted list. It saves the list to a state file and reloads it on start.

The project is laid out as follows:

- `java_lang.dfy` (module `JavaLang`) holds the Java library behaviour the core relies on:
  - `String.compareTo`
  - `toLowerCase` on ASCII letters
  - `StringUtils.replace` of one character
  - `String.split` with a one-character separator, trailing empty pieces dropped
  - `Integer.valueOf`/`Long.valueOf` with range checks
- `occurrences.dfy` (module `Occurrences`) holds:
  - the entry value `Entry(count, word)` and `compareTo` as `Compare`
  - the mutable class `WordOccurrences`
  - `Collections.binarySearch` over the list of objects
- `ranking.dfy` (module `Ranking`) is the index as a value. `Increment` takes a word's entry
  out and puts it back, with the count raised, at the place sorted insertion gives it.
  `IncrementAll` counts a sequence of tokens. The lemmas here say what these produce: a
  sequence in rank order with distinct words whose counts are the tallies of the tokens.
- `tokenizer.dfy` (module `Tokenizer`) covers `stripLineForWordsAndSpaces` and the token loop
  of `handleWordsStream`.
- `rank_query.dfy` (module `RankQuery`) states what `getWordRanking` answers, including every
  exception it lets escape.
- `word_service.dfy` (module `Service`) is the `WordService` class. Its fields are
  `index: map<string, WordOccurrences>` and `occurrences: seq<WordOccurrences>`, which alias
  the same objects, plus the state file, modelled as a value.
  - `IncrementExistingWord` follows the Java steps one by one: binary search for the object,
    remove it, `setCount`, binary search again, insert. It is proved to leave the list equal
    to `Increment` of the old list.
  - `HandleWordsStream` keeps the Java loops. It is proved to leave `IncrementAll` of the
    stream's tokens.
  - `GetWordRanking` is proved to return `WordRanking` of the list's words.
- `scenarios.dfy` (module `Scenarios`) restates the service's own unit tests on the model.

The input stream is modelled as a sequence of lines, and the state file as a field of the
service. Behaviour of the code worth noting:

- A line is split at the single space character only, not at every kind of whitespace.
- A rank term of 0 or less makes `occurrencesArray.get` throw `IndexOutOfBoundsException`.
- A range whose start is above its end contributes nothing.
- A range whose end is `Integer.MAX_VALUE` or more throws once the `Integer` loop variable
  wraps around.

## Model

| member | source | states |
|---|---|---|
| Occurrences.WordOccurrences.constructor | src/main/java/com/lemon/words/model/WordOccurrences.java:16-20 | the new object holds the given count and word |
| Occurrences.WordOccurrences.SetCount | src/main/java/com/lemon/words/model/WordOccurrences.java:30-32 | the count becomes the given value; only the count field may change |
| Occurrences.Compare | src/main/java/com/lemon/words/model/WordOccurrences.java:35-44 | compareTo is 0 exactly for equal entries; with different counts it is negative exactly when a has more occurrences |
| Occurrences.CompareByCount | src/main/java/com/lemon/words/model/WordOccurrences.java:36-40 | a smaller count compares as exactly 1 and orders after; a larger count compares as exactly -1 and orders first |
| Occurrences.CompareTieBreak | src/main/java/com/lemon/words/model/WordOccurrences.java:41-43 | with equal counts, a orders before b if and only if a's word is lexicographically smaller |
| Occurrences.BeforeIsRankOrder | src/main/java/com/lemon/words/model/WordOccurrences.java:35-44 | compareTo < 0 if and only if more occurrences, or equal occurrences and a lexicographically smaller word |
| Occurrences.CompareZeroIff | src/main/java/com/lemon/words/model/WordOccurrences.java:35-44 | compareTo is 0 exactly when count and word are both equal |
| Occurrences.CompareAntisymmetric | src/main/java/com/lemon/words/model/WordOccurrences.java:35-44 | swapping the operands negates the result |
| Occurrences.BeforeTransitive | src/main/java/com/lemon/words/model/WordOccurrences.java:35-44 | the order is transitive, as Collections.binarySearch requires |
| Occurrences.BeforeTotal | src/main/java/com/lemon/words/model/WordOccurrences.java:35-44 | the order is strict and total on entries |
| JavaLang.CompareStrings | src/main/java/com/lemon/words/model/WordOccurrences.java:42 | String.compareTo is 0 exactly for equal strings |
| JavaLang.CompareStringsIsLexicographic | src/main/java/com/lemon/words/model/WordOccurrences.java:42 | String.compareTo is negative exactly when a is lexicographically smaller (as an independently defined order) |
| JavaLang.CompareStringsAntisymmetric | src/main/java/com/lemon/words/model/WordOccurrences.java:42 | swapping the strings negates String.compareTo |
| JavaLang.CompareStringsTransitive | src/main/java/com/lemon/words/model/WordOccurrences.java:42 | String.compareTo orders transitively |
| Occurrences.RankedUnique | src/main/java/com/lemon/words/service/WordService.java:58-59 | two lists sorted by compareTo with the same elements are equal: the sorted list is determined by its contents |
| Occurrences.BinarySearch | src/main/java/com/lemon/words/service/WordService.java:226 | on a sorted list, returns the index of an equal element when there is one, otherwise -(p+1) for the unique insertion point p; it is non-negative exactly when the key is present |
| Service.ExtractIndex | src/main/java/com/lemon/words/service/WordService.java:257-259 | for a negative binary search result -(p+1) it returns p, which is non-negative |
| Service.WordService.IndexHoldsCounts | src/main/java/com/lemon/words/service/WordService.java:55-59 | the map's keys are the list's words, each listed once, and each map object carries that word's count |
| Service.WordService.IncrementWordOccurrences | src/main/java/com/lemon/words/service/WordService.java:208-215 | an unknown word is added, a known one raised by one; either way the entries become Increment of the old entries, map and list still agree, existing map entries keep their objects |
| Service.WordService.AddNewWord | src/main/java/com/lemon/words/service/WordService.java:238-248 | a fresh object with count 1 goes into the map and into the list at the binary search position; the entries become Increment of the old entries; the only new object is the added one |
| Service.WordService.IncrementExistingWord | src/main/java/com/lemon/words/service/WordService.java:224-231 | find, remove, setCount(count+1), binary search again and insert; the entries become Increment of the old entries, the map is unchanged and the list holds exactly the same objects |
| Ranking.IncrementNew | src/main/java/com/lemon/words/service/WordService.java:238-248 | for an absent word, inserting Entry(1, w) at the insertion point is Increment |
| Ranking.IncrementExisting | src/main/java/com/lemon/words/service/WordService.java:224-231 | removing entry k and reinserting it with count+1 at the new insertion point is Increment of its word |
| Ranking.InsertAtIsInsert | src/main/java/com/lemon/words/service/WordService.java:230 | List.add at the insertion point of a sorted list is sorted insertion |
| Ranking.RemoveAtIsRemove | src/main/java/com/lemon/words/service/WordService.java:227 | List.remove at the index of a word's entry removes that word's entry |
| Ranking.IncrementRankSequence | src/main/java/com/lemon/words/service/WordService.java:208-248 | counting one occurrence keeps the list sorted with distinct words and positive counts |
| Ranking.IncrementLength | src/main/java/com/lemon/words/service/WordService.java:208-248 | the list grows by one for a new word and keeps its length for a known one |
| Ranking.CountOfIncrement | src/main/java/com/lemon/words/service/WordService.java:208-248 | the counted word's count rises by exactly one, every other count is unchanged |
| Ranking.WordsOfIncrement | src/main/java/com/lemon/words/service/WordService.java:208-248 | the words present become the old words plus the counted word |
| Ranking.CountsOfIncrement | src/main/java/com/lemon/words/service/WordService.java:208-248 | the word-to-count map after counting is the old map with that word bumped |
| Ranking.IncrementAllRankSequence | src/main/java/com/lemon/words/service/WordService.java:171-184 | any stream of tokens keeps the list sorted with distinct words |
| Ranking.IncrementAllCounts | src/main/java/com/lemon/words/service/WordService.java:171-184 | the counts after a stream are the old counts plus the tally of the tokens |
| Ranking.IncrementAllCountOf | src/main/java/com/lemon/words/service/WordService.java:171-184 | a word's count after a stream is its old count plus its number of occurrences among the tokens |
| Ranking.IncrementAllWords | src/main/java/com/lemon/words/service/WordService.java:171-184 | the words present after a stream are the old words and the stream's tokens |
| Ranking.IncrementAllConcat | src/main/java/com/lemon/words/service/WordService.java:104-122 | posting a then b counts the same as posting a + b: counts accumulate across calls |
| Ranking.IncrementAllOrderIrrelevant | src/main/java/com/lemon/words/service/WordService.java:171-184 | any rearrangement of the same tokens yields the identical sorted list |
| Ranking.RankSequenceOfCounts | src/main/java/com/lemon/words/service/WordService.java:58-59 | two sorted lists with distinct words and the same counts are equal |
| Ranking.TallyCounts | src/main/java/com/lemon/words/service/WordService.java:171-184 | the tally of a word is its prior count plus its multiplicity among the tokens |
| Ranking.TallyOrderIrrelevant | src/main/java/com/lemon/words/service/WordService.java:171-184 | tallies depend only on the multiset of tokens |
| JavaLang.ToLower | src/main/java/com/lemon/words/service/WordService.java:180 | same length, no ASCII capital left, each ASCII capital becomes its own small letter, every other character unchanged |
| JavaLang.ToLowerEqualIff | src/main/java/com/lemon/words/service/WordService.java:180 | two strings lowercase to the same string exactly when they are equal up to the case of ASCII letters |
| JavaLang.ToLowerIdempotent | src/main/java/com/lemon/words/service/WordService.java:180 | lowering twice is lowering once |
| JavaLang.ReplaceChar | src/main/java/com/lemon/words/service/WordService.java:198 | same length, every occurrence of the old character becomes the new one, every other character unchanged |
| JavaLang.SplitAll | src/main/java/com/lemon/words/service/WordService.java:199 | at least one piece, no piece holds the separator |
| JavaLang.JoinSplitAll | src/main/java/com/lemon/words/service/WordService.java:199 | joining the pieces with the separator gives the string back |
| JavaLang.SplitAllJoin | src/main/java/com/lemon/words/service/WordService.java:274 | splitting the join of separator-free pieces gives the pieces back |
| JavaLang.DropTrailingEmpty | src/main/java/com/lemon/words/service/WordService.java:199 | a prefix of the pieces that ends in a non-empty piece, only empty pieces dropped |
| JavaLang.JavaSplit | src/main/java/com/lemon/words/service/WordService.java:199 | no piece of String.split holds the separator |
| JavaLang.DigitsValue | src/main/java/com/lemon/words/service/WordService.java:279 | defined exactly for non-empty strings of decimal digits |
| JavaLang.ParseDecimal | src/main/java/com/lemon/words/service/WordService.java:279 | Integer.valueOf/Long.valueOf yield only values within the type's range and reject the empty string |
| JavaLang.ParseDecimalDecimal | src/main/java/com/lemon/words/service/WordService.java:285 | every in-range natural number, written with or without a plus sign, is read back |
| Tokenizer.StripLine | src/main/java/com/lemon/words/service/WordService.java:197-200 | no piece of the stripped line holds a space or a hyphen |
| Tokenizer.Normalize | src/main/java/com/lemon/words/service/WordService.java:176-181 | the loop over a line's pieces counts at most one token per piece, each non-empty and without ASCII capitals, and only separator-free tokens when the pieces are separator-free |
| Tokenizer.LineTokens | src/main/java/com/lemon/words/service/WordService.java:175-180 | every token counted for a line is non-empty and holds no space, no hyphen and no ASCII capital |
| Tokenizer.StreamTokens | src/main/java/com/lemon/words/service/WordService.java:171-184 | every token counted for a stream has those properties |
| Tokenizer.LineTokensSplitAll | src/main/java/com/lemon/words/service/WordService.java:197-200 | the trailing empty pieces String.split drops do not change the tokens |
| Tokenizer.LineTokensSeparate | src/main/java/com/lemon/words/service/WordService.java:197-200 | a space or a hyphen separates the tokens on its two sides |
| Tokenizer.LineTokensWord | src/main/java/com/lemon/words/service/WordService.java:176-180 | a word without separators is one token, lowercased |
| Tokenizer.LineTokensOfWords | src/main/java/com/lemon/words/service/WordService.java:175-180 | separator-free words joined by spaces or by hyphens are the line's tokens, each lowercased, in order |
| Tokenizer.NormalizeConcat | src/main/java/com/lemon/words/service/WordService.java:176-181 | the token loop over two runs of pieces is the loop over each, one after the other |
| Service.WordService.HandleWordsStream | src/main/java/com/lemon/words/service/WordService.java:171-184 | the entries become IncrementAll of the old entries over the stream's tokens, line after line; map and list keep agreeing |
| Service.WordService.PostWords | src/main/java/com/lemon/words/service/WordService.java:104-122 | an unknown type throws IllegalStateException with nothing changed; "string", "url" and "file" count the stream and then save the list |
| Service.WordService.InjectWordsToResult | src/main/java/com/lemon/words/service/WordService.java:299-306 | appends the word at the rank when the list is long enough, nothing when it is shorter, and fails for a rank of 0 or less |
| Service.WordService.GetWordRanking | src/main/java/com/lemon/words/service/WordService.java:271-291 | the answer equals the WordRanking function of the list's words |
| Service.WordService.InjectTerm | src/main/java/com/lemon/words/service/WordService.java:277-287 | one comma-separated term: a single rank, or a range read from the first two hyphen-separated parts, with the exceptions in Java's order |
| Service.WordService.InjectRange | src/main/java/com/lemon/words/service/WordService.java:285-287 | the Integer loop from start to end: appends the words of the ranks in increasing order, fails at a start of 0 or less and when the loop variable wraps |
| RankQuery.RankAt | src/main/java/com/lemon/words/service/WordService.java:299-306 | rank n fails exactly when n is 0 or less; otherwise it is the word at n when the list is long enough and nothing when it is shorter |
| RankQuery.RangeWords | src/main/java/com/lemon/words/service/WordService.java:285-287 | a range fails exactly when it is not empty and starts at 0 or less or ends at Integer.MAX_VALUE or more; otherwise it is the words from the start rank up to the end rank or the end of the list, in order, and nothing when the start is above the end |
| RankQuery.RankTerm | src/main/java/com/lemon/words/service/WordService.java:277-287 | every word answered for one term is an indexed word |
| RankQuery.RankTerms | src/main/java/com/lemon/words/service/WordService.java:276-289 | every word answered for a list of terms is an indexed word |
| RankQuery.WordRanking | src/main/java/com/lemon/words/service/WordService.java:271-291 | every word in an answer is an indexed word |
| RankQuery.RankTermsAppend | src/main/java/com/lemon/words/service/WordService.java:276-289 | terms are answered in the order given: the answer to a + b is a's answer followed by b's, with the first error winning |
| RankQuery.RankTermsFailsAt | src/main/java/com/lemon/words/service/WordService.java:276-289 | a failing term fails the whole query |
| RankQuery.RangeWordsByRank | src/main/java/com/lemon/words/service/WordService.java:285-287 | a range is its first rank followed by the rest of the range |
| RankQuery.PastTheEndIsEmpty | src/main/java/com/lemon/words/service/WordService.java:301-305 | ranks past the end of the list contribute nothing, singly or as a range |
| RankQuery.SingleTermIsRank | src/main/java/com/lemon/words/service/WordService.java:277-279 | the term N asks for rank N |
| RankQuery.RangeTermIsRange | src/main/java/com/lemon/words/service/WordService.java:281-287 | the term A-B asks for ranks A to B |
| RankQuery.QueryIsTerms | src/main/java/com/lemon/words/service/WordService.java:274 | a comma-joined query asks for its terms in order |
| RankQuery.RepeatedTermRepeats | src/main/java/com/lemon/words/service/WordService.java:265-266 | overlapping terms are not merged: a repeated term repeats its words |
| Service.WordService.constructor | src/main/java/com/lemon/words/service/WordService.java:83-88 | a service started on a state file it wrote holds that file's entries, or nothing |
| Service.WordService.Init | src/main/java/com/lemon/words/service/WordService.java:83-88 | new empty map and list, then the state file's entries; map and list agree |
| Service.WordService.LoadMapFromDisk | src/main/java/com/lemon/words/service/WordService.java:341-356 | a list in the state file becomes the list, as fresh objects, and each is put into the map under its word; a missing or empty file changes nothing |
| Service.WordService.SaveMapToDisk | src/main/java/com/lemon/words/service/WordService.java:326-333 | a non-empty list replaces the state file's contents; an empty list leaves the file as it was |
| Service.WordService.SaveAndRestart | src/main/java/com/lemon/words/service/WordService.java:83-88 | saving and restarting gives back the same entries in the same order; after saving an empty list, the earlier file's entries come back |
| Service.ReadSnapshot | src/main/java/com/lemon/words/service/WordService.java:349 | readObject yields fresh objects whose values are the saved entries, in order |
| Service.WordService.Clear | src/main/java/com/lemon/words/service/WordService.java:363-369 | the state file is gone and the service holds nothing |
| Scenarios.CompareExamples | src/test/java/com/lemon/words/service/WordsServiceTests.java:41-56 | aaa with 5 occurrences orders after aab with 33; with equal counts, nnt orders after baa |
| Scenarios.TokensSomeDataData | src/test/java/com/lemon/words/service/WordsServiceTests.java:65-71 | "some data data" yields the tokens some, data, data |
| Scenarios.CountSomeDataData | src/test/java/com/lemon/words/service/WordsServiceTests.java:65-71 | those tokens rank data (2) before some (1) |
| Scenarios.RankOneTwo | src/test/java/com/lemon/words/service/WordsServiceTests.java:65-71 | query 1,2 on data, some answers data, some |
| Scenarios.RankOneToTwo | src/test/java/com/lemon/words/service/WordsServiceTests.java:96-102 | query 1-2 on data, some answers data, some |
| Scenarios.RangeQuery | src/main/java/com/lemon/words/service/WordService.java:281-287 | a query that is one range A-B answers the words of ranks A to B |
| Scenarios.RankRangePastTheEnd | src/test/java/com/lemon/words/service/WordsServiceTests.java:131-139 | query 3-99 on two words answers nothing |
| Scenarios.RankPastTheEnd | src/test/java/com/lemon/words/service/WordsServiceTests.java:131-139 | query 888 on two words answers nothing |
| Scenarios.TokensHiYouYou | src/test/java/com/lemon/words/service/WordsServiceTests.java:104-111 | "Hi1 You YOU" yields hi1, you, you |
| Scenarios.CountHiYouYou | src/test/java/com/lemon/words/service/WordsServiceTests.java:104-111 | those tokens rank you (2) before hi1 (1) |
| Scenarios.TokensMidWordClean | src/test/java/com/lemon/words/service/WordsServiceTests.java:113-120 | "mid-word-clean-up-up" yields mid, word, clean, up, up |
| Scenarios.CountMidWordClean | src/test/java/com/lemon/words/service/WordsServiceTests.java:113-120 | those tokens rank up (2) first, then clean, mid, word (1 each) |
| Scenarios.MidWordCleanRanked | src/test/java/com/lemon/words/service/WordsServiceTests.java:113-120 | up (2), clean, mid, word (1 each) is sorted by compareTo with distinct words |
| Scenarios.MidWordCleanWords | src/test/java/com/lemon/words/service/WordsServiceTests.java:113-120 | the words of that ranking are the tokens |
| Scenarios.MidWordCleanCount | src/test/java/com/lemon/words/service/WordsServiceTests.java:113-120 | each word's count in that ranking is its number of occurrences among the tokens |
| Scenarios.RankMidWordClean | src/test/java/com/lemon/words/service/WordsServiceTests.java:113-120 | query 1-2 on up, clean, mid, word answers up, clean |
| Scenarios.CountCumulative | src/test/java/com/lemon/words/service/WordsServiceTests.java:153-161 | "some some some" counted after "some data data" ranks some (4) before data (2) |

## Left out

- Reading the input is not modelled. The Scanner over a string, a file or a URL stream
  (`handlePostString`, `handlePostFile`, `handlePostUrl`) becomes a parameter holding the
  stream's lines, and I/O failures are not modelled.
- Java serialization is not modelled. The state file holds the list's entries as values, and
  `ReadSnapshot` builds fresh objects from them, as `readObject` yields new objects. A corrupt
  or foreign state file and its exceptions are not modelled.
- Service.WordService.constructor: requires that the state file is one the service wrote, a
  list sorted by rank with distinct words. The Java code trusts the file without checking.
- `FileInputStream.available()` is modelled as the `EmptyFile` case of the state file.
- Concurrency is not modelled: the `synchronized` methods, `ConcurrentHashMap` and
  `Collections.synchronizedList`. Every operation runs alone.
- JavaLang.ToLower: lowercases ASCII letters only. Java's `toLowerCase` also maps non-ASCII
  letters and depends on the locale.
- JavaLang.CompareStrings: compares Dafny characters (code points), not UTF-16 code units.
  The two orders differ only for characters outside the Basic Multilingual Plane.
- JavaLang.ParseDecimal: accepts ASCII digits only. `Integer.valueOf` also accepts other
  Unicode decimal digits.
- Counts are unbounded integers. The overflow of a Java `long` count, after 2^63 occurrences,
  is not modelled.
- `persistOnUpdate` is the constant `PersistOnUpdate` (true). Toggling it at run time is left
  out.
- Service.WordService.InjectTerm and Service.WordService.InjectRange are the bodies of
  `getWordRanking`'s two loops, factored out as methods.
- The test that posts `"Hi! My name is ..."` and ranks `1-3,4,5` is not restated. The words
  of the URL and file tests depend on external inputs and are not restated either.
- The Spring controller, the DTO and the application class are not part of this model.
