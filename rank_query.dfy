/**
 * What getWordRanking answers for a comma-separated list of terms, as a function of the
 * words in rank order: a term N is the word at 1-based rank N, a term A-B the words at ranks
 * A to B in increasing order; ranks past the end of the list contribute nothing, and any
 * exception the Java code would throw fails the whole query.
 */
module RankQuery {
  import opened JavaLang

  /** The exceptions getWordRanking lets escape. */
  datatype RankError =
    | NumberFormat           // Integer.valueOf or Long.valueOf on a term that is not a number in range
    | ArrayIndexOutOfBounds  // a term with a hyphen that does not split into two parts
    | IndexOutOfBounds       // occurrencesArray.get with a negative index

  datatype Result<T> = Ok(value: T) | Err(error: RankError)

  /** injectWordsToResult for one position: the word at rank n when the list has at least n
      entries, nothing when it is shorter; for n <= 0 the size check passes and
      occurrencesArray.get(n - 1) throws. */
  function RankAt(words: seq<string>, n: int): (r: Result<seq<string>>)
    ensures r.Err? <==> n <= 0
    ensures r.Ok? && n <= |words| ==> r.value == [words[n - 1]]
    ensures r.Ok? && n > |words| ==> r.value == []
  {
    if n <= 0 then Err(IndexOutOfBounds)
    else if n <= |words| then Ok([words[n - 1]])
    else Ok([])
  }

  function Min(a: int, b: int): int {
    if a <= b then a else b
  }

  /** The words at ranks from to to, inclusive, cut off at the end of the list. */
  function Span(words: seq<string>, from: int, to: int): (r: seq<string>)
    requires 1 <= from
  {
    if to < from || from > |words| then [] else words[from - 1..Min(to, |words|)]
  }

  /** The loop over a range term from-to. Each rank is injected in turn, so a start at or below
      0 fails at once. The loop variable is an Integer: once it has passed
      Integer.MAX_VALUE with the bound not yet exceeded, it wraps to Integer.MIN_VALUE, whose
      lookup index MIN_VALUE - 1 wraps to MAX_VALUE and is out of bounds. */
  function RangeWords(words: seq<string>, from: int, to: int): (r: Result<seq<string>>)
    ensures r.Err? <==> from <= to && (from <= 0 || to >= INT_MAX)
    ensures r.Ok? && from <= to ==> |r.value| == if from > |words| then 0 else Min(to, |words|) - from + 1
    ensures r.Ok? && from > to ==> r.value == []
    ensures r.Ok? ==> forall k :: 0 <= k < |r.value| ==> 0 <= from - 1 + k < |words| && r.value[k] == words[from - 1 + k]
  {
    if from > to then Ok([])
    else if from <= 0 || to >= INT_MAX then Err(IndexOutOfBounds)
    else Ok(Span(words, from, to))
  }

  /** One comma-separated term. Without a hyphen it is Integer.valueOf of the term; with one,
      parts 0 and 1 of the term split at hyphens are read (further parts are ignored), the
      start by Integer.valueOf and the end by Long.valueOf. */
  function RankTerm(words: seq<string>, term: string): (r: Result<seq<string>>)
    ensures r.Ok? ==> forall w :: w in r.value ==> w in words
  {
    if '-' !in term then
      match ParseDecimal(term, INT_MIN, INT_MAX)
      case None => Err(NumberFormat)
      case Some(n) => RankAt(words, n)
    else
      var parts := JavaSplit(term, '-');
      if |parts| < 2 then Err(ArrayIndexOutOfBounds)
      else match ParseDecimal(parts[0], INT_MIN, INT_MAX)
        case None => Err(NumberFormat)
        case Some(from) =>
          match ParseDecimal(parts[1], LONG_MIN, LONG_MAX)
          case None => Err(NumberFormat)
          case Some(to) => RangeWords(words, from, to)
  }

  /** The answer of two parts of a query one after the other; an error in the first part
      comes before anything in the second. */
  function Then(first: Result<seq<string>>, second: Result<seq<string>>): Result<seq<string>> {
    match first
    case Err(e) => Err(e)
    case Ok(x) =>
      match second
      case Err(e) => Err(e)
      case Ok(y) => Ok(x + y)
  }

  /** The terms in the order given, their words appended one after the other; the first term
      that fails fails the whole list. */
  function RankTerms(words: seq<string>, terms: seq<string>): (r: Result<seq<string>>)
    ensures r.Ok? ==> forall w :: w in r.value ==> w in words
    decreases |terms|
  {
    if terms == [] then Ok([])
    else Then(RankTerms(words, terms[..|terms| - 1]), RankTerm(words, terms[|terms| - 1]))
  }

  /** getWordRanking: the input split at commas, then the terms in order. Every word in an
      answer is one of the indexed words. */
  function WordRanking(words: seq<string>, input: string): (r: Result<seq<string>>)
    ensures r.Ok? ==> forall w :: w in r.value ==> w in words
  {
    RankTerms(words, JavaSplit(input, ','))
  }

  // ---------------------------------------------------------------------------------------
  // Properties
  // ---------------------------------------------------------------------------------------

  lemma ThenAssociative(x: Result<seq<string>>, y: Result<seq<string>>, z: Result<seq<string>>)
    ensures Then(Then(x, y), z) == Then(x, Then(y, z))
  {
    if x.Ok? && y.Ok? && z.Ok? {
      assert x.value + y.value + z.value == x.value + (y.value + z.value);
    }
  }

  /** Terms are answered in order: the answer to a + b is the answer to a followed by the
      answer to b, and an error in a comes before anything in b. */
  lemma {:induction false} RankTermsAppend(words: seq<string>, a: seq<string>, b: seq<string>)
    ensures RankTerms(words, a + b) == Then(RankTerms(words, a), RankTerms(words, b))
    decreases |b|
  {
    if b == [] {
      assert a + b == a;
      if RankTerms(words, a).Ok? {
        assert RankTerms(words, a).value + [] == RankTerms(words, a).value;
      }
    } else {
      var b' := b[..|b| - 1];
      RankTermsAppend(words, a, b');
      assert (a + b)[..|a + b| - 1] == a + b';
      assert (a + b)[|a + b| - 1] == b[|b| - 1];
      ThenAssociative(RankTerms(words, a), RankTerms(words, b'), RankTerm(words, b[|b| - 1]));
    }
  }

  /** Once a prefix of the terms has been answered, a failing next term fails the query. */
  lemma RankTermsFailsAt(words: seq<string>, terms: seq<string>, k: int, e: RankError)
    requires 0 <= k < |terms|
    requires RankTerms(words, terms[..k]).Ok? && RankTerm(words, terms[k]) == Err(e)
    ensures RankTerms(words, terms) == Err(e)
  {
    var done := terms[..k + 1];
    assert done[..k] == terms[..k] && done[k] == terms[k];
    assert RankTerms(words, done) == Err(e);
    assert terms == done + terms[k + 1..];
    RankTermsAppend(words, done, terms[k + 1..]);
  }

  /** A range is answered rank by rank, in increasing order: the words of from-to are the
      words of rank from followed by those of from+1 to to. */
  lemma RangeWordsByRank(words: seq<string>, from: int, to: int)
    requires 1 <= from <= to < INT_MAX
    ensures RangeWords(words, from, to) == Ok(RankAt(words, from).value + RangeWords(words, from + 1, to).value)
  {
    if from <= |words| {
      var n := Min(to, |words|);
      assert Span(words, from, to) == words[from - 1..n];
      assert Span(words, from + 1, to) == words[from..n];
      assert words[from - 1..n] == [words[from - 1]] + words[from..n];
    } else {
      assert RangeWords(words, from + 1, to) == Ok([]);
      assert [] + [] == Span(words, from, to);
    }
  }

  /** Ranks past the end of the list contribute nothing, one at a time or as a range. */
  lemma PastTheEndIsEmpty(words: seq<string>, from: int, to: int)
    requires |words| < from
    ensures RankAt(words, from) == Ok([])
    ensures to < INT_MAX ==> RangeWords(words, from, to) == Ok([])
  {
  }

  /** A decimal number never holds a hyphen. */
  lemma DecimalHasNoHyphen(n: nat)
    ensures '-' !in Decimal(n) && ',' !in Decimal(n) && Decimal(n) != []
  {
    DigitsValueDecimal(n);
    var d := Decimal(n);
    forall i | 0 <= i < |d| ensures d[i] != '-' && d[i] != ',' {
      assert IsDigit(d[i]);
    }
  }

  /** The term N, for N in the range of an Integer, asks for rank N. */
  lemma SingleTermIsRank(words: seq<string>, n: nat)
    requires n <= INT_MAX
    ensures RankTerm(words, Decimal(n)) == RankAt(words, n)
  {
    DecimalHasNoHyphen(n);
    ParseDecimalDecimal(n, INT_MIN, INT_MAX);
  }

  /** The term A-B, with A in the range of an Integer and B in that of a Long, asks for the
      ranks A to B. */
  lemma RangeTermIsRange(words: seq<string>, a: nat, b: nat)
    requires a <= INT_MAX && b <= LONG_MAX
    ensures RankTerm(words, Decimal(a) + "-" + Decimal(b)) == RangeWords(words, a, b)
  {
    var t := Decimal(a) + "-" + Decimal(b);
    DecimalHasNoHyphen(a);
    DecimalHasNoHyphen(b);
    assert t == Decimal(a) + ['-'] + Decimal(b);
    assert t[|Decimal(a)|] == '-';
    SplitAllConcat(Decimal(a), Decimal(b), '-');
    SplitAllSingle(Decimal(a), '-');
    SplitAllSingle(Decimal(b), '-');
    assert JavaSplit(t, '-') == [Decimal(a), Decimal(b)];
    ParseDecimalDecimal(a, INT_MIN, INT_MAX);
    ParseDecimalDecimal(b, LONG_MIN, LONG_MAX);
  }

  /** A query of comma-separated terms, the last one non-empty, asks for the terms in
      order. */
  lemma QueryIsTerms(words: seq<string>, terms: seq<string>)
    requires |terms| >= 1 && terms[|terms| - 1] != []
    requires forall i :: 0 <= i < |terms| ==> ',' !in terms[i]
    ensures WordRanking(words, Join(terms, ',')) == RankTerms(words, terms)
  {
    var q := Join(terms, ',');
    SplitAllJoin(terms, ',');
    if ',' !in q {
      SplitAllSingle(q, ',');
    }
  }

  /** Overlapping terms are not merged: asking for the same term twice gives its words twice. */
  lemma RepeatedTermRepeats(words: seq<string>, t: string)
    requires RankTerm(words, t).Ok?
    ensures RankTerms(words, [t, t]) == Ok(RankTerm(words, t).value + RankTerm(words, t).value)
  {
    var r := RankTerm(words, t).value;
    assert [t, t][..1] == [t] && [t, t][1] == t;
    assert [t][..0] == [];
    assert RankTerms(words, [t]) == Ok(r) by {
      assert [] + r == r;
    }
  }
}
