/**
 * How handleWordsStream turns text into the tokens it counts: stripLineForWordsAndSpaces
 * replaces every hyphen by a space and splits the line on the single space character; the
 * token loop skips the empty pieces and lowercases the others.
 */
module Tokenizer {
  import opened JavaLang

  /** stripLineForWordsAndSpaces: StringUtils.replace of "-" by " ", then String.split(" ").
      No piece holds a space or a hyphen. */
  function StripLine(line: string): (pieces: seq<string>)
    ensures forall i :: 0 <= i < |pieces| ==> ' ' !in pieces[i] && '-' !in pieces[i]
  {
    var s := ReplaceChar(line, '-', ' ');
    JavaSplitAvoids(s, ' ', '-');
    JavaSplit(s, ' ')
  }

  /** The body of the token loop over the pieces of one line: empty pieces are skipped, every
      other piece is counted in lower case. At most one token per piece, each non-empty and
      without ASCII capitals; pieces without separators give tokens without separators. */
  function Normalize(pieces: seq<string>): (tokens: seq<string>)
    ensures |tokens| <= |pieces|
    ensures forall i :: 0 <= i < |tokens| ==> tokens[i] != [] && forall j :: 0 <= j < |tokens[i]| ==> !IsUpperAscii(tokens[i][j])
    ensures (forall i :: 0 <= i < |pieces| ==> ' ' !in pieces[i] && '-' !in pieces[i]) ==>
      forall i :: 0 <= i < |tokens| ==> IsToken(tokens[i])
    decreases |pieces|
  {
    if pieces == [] then []
    else
      var init := Normalize(pieces[..|pieces| - 1]);
      var last := pieces[|pieces| - 1];
      ToLowerKeepsSeparators(last);
      if last == [] then init else init + [ToLower(last)]
  }

  /** The tokens counted for one line, in order: every one non-empty, without space, hyphen
      or ASCII capital. */
  function LineTokens(line: string): (tokens: seq<string>)
    ensures forall i :: 0 <= i < |tokens| ==> IsToken(tokens[i])
  {
    Normalize(StripLine(line))
  }

  /** The tokens counted for a whole stream of lines, line after line; every one is a token
      as above. */
  function StreamTokens(lines: seq<string>): (tokens: seq<string>)
    ensures forall i :: 0 <= i < |tokens| ==> IsToken(tokens[i])
    decreases |lines|
  {
    if lines == [] then []
    else
      var a, b := StreamTokens(lines[..|lines| - 1]), LineTokens(lines[|lines| - 1]);
      assert forall i :: 0 <= i < |a + b| ==> (a + b)[i] == if i < |a| then a[i] else b[i - |a|];
      a + b
  }

  /** A string without d splits into pieces without d. */
  lemma JavaSplitAvoids(s: string, c: char, d: char)
    requires d !in s
    ensures forall i :: 0 <= i < |JavaSplit(s, c)| ==> d !in JavaSplit(s, c)[i]
  {
    if c in s {
      var pieces := SplitAll(s, c);
      forall i | 0 <= i < |pieces| ensures d !in pieces[i] {
        if d in pieces[i] {
          JoinSplitAll(s, c);
          JoinContainsPieces(pieces, c, i);
        }
      }
    }
  }

  /** One more piece adds its token, if it has one, at the end. */
  lemma NormalizeSnoc(pieces: seq<string>, j: int)
    requires 0 <= j < |pieces|
    ensures Normalize(pieces[..j + 1]) == Normalize(pieces[..j]) + (if pieces[j] == [] then [] else [ToLower(pieces[j])])
  {
    assert pieces[..j + 1][..j] == pieces[..j];
    if pieces[j] == [] {
      assert Normalize(pieces[..j]) + [] == Normalize(pieces[..j]);
    }
  }

  /** One more line adds its tokens at the end. */
  lemma StreamTokensSnoc(lines: seq<string>, n: int)
    requires 0 <= n < |lines|
    ensures StreamTokens(lines[..n + 1]) == StreamTokens(lines[..n]) + LineTokens(lines[n])
  {
    assert lines[..n + 1][..n] == lines[..n];
  }

  predicate IsToken(t: string) {
    && t != []
    && ' ' !in t
    && '-' !in t
    && forall i :: 0 <= i < |t| ==> !IsUpperAscii(t[i])
  }

  /** Lowercasing neither creates nor removes spaces and hyphens. */
  lemma ToLowerKeepsSeparators(s: string)
    ensures ' ' in ToLower(s) <==> ' ' in s
    ensures '-' in ToLower(s) <==> '-' in s
  {
    var r := ToLower(s);
    if ' ' in r {
      var i :| 0 <= i < |r| && r[i] == ' ';
      assert s[i] == ' ';
    }
    if '-' in r {
      var i :| 0 <= i < |r| && r[i] == '-';
      assert s[i] == '-';
    }
    if ' ' in s {
      var i :| 0 <= i < |s| && s[i] == ' ';
      assert r[i] == ' ';
    }
    if '-' in s {
      var i :| 0 <= i < |s| && s[i] == '-';
      assert r[i] == '-';
    }
  }

  /** Normalizing keeps the non-empty pieces, in order, each lowercased. */
  lemma {:induction false} NormalizeConcat(a: seq<string>, b: seq<string>)
    ensures Normalize(a + b) == Normalize(a) + Normalize(b)
    decreases |b|
  {
    if b == [] {
      assert a + b == a;
    } else {
      var b' := b[..|b| - 1];
      NormalizeConcat(a, b');
      assert (a + b)[..|a + b| - 1] == a + b';
      assert (a + b)[|a + b| - 1] == b[|b| - 1];
      var last := b[|b| - 1];
      if last != [] {
        calc {
          Normalize(a + b);
          Normalize(a + b') + [ToLower(last)];
          Normalize(a) + (Normalize(b') + [ToLower(last)]);
          Normalize(a) + Normalize(b);
        }
      }
    }
  }

  /** Empty pieces at the end contribute no token. */
  lemma {:induction false} NormalizeDropTrailingEmpty(pieces: seq<string>)
    ensures Normalize(DropTrailingEmpty(pieces)) == Normalize(pieces)
    decreases |pieces|
  {
    if pieces != [] && pieces[|pieces| - 1] == [] {
      NormalizeDropTrailingEmpty(pieces[..|pieces| - 1]);
    }
  }

  /** The trailing empty pieces that String.split drops make no difference: the tokens of a
      line are the non-empty pieces between single spaces, after hyphens became spaces. */
  lemma LineTokensSplitAll(line: string)
    ensures LineTokens(line) == Normalize(SplitAll(ReplaceChar(line, '-', ' '), ' '))
  {
    var s := ReplaceChar(line, '-', ' ');
    if ' ' !in s {
      SplitAllSingle(s, ' ');
    } else {
      NormalizeDropTrailingEmpty(SplitAll(s, ' '));
    }
  }

  /** Every character of a piece occurs in the joined string. */
  lemma {:induction false} JoinContainsPieces(pieces: seq<string>, c: char, i: int)
    requires |pieces| >= 1 && 0 <= i < |pieces|
    ensures forall x :: x in pieces[i] ==> x in Join(pieces, c)
    decreases |pieces|
  {
    if i > 0 {
      JoinContainsPieces(pieces[1..], c, i - 1);
    }
  }

  /** A space or a hyphen separates the tokens on its two sides. */
  lemma LineTokensSeparate(a: string, sep: char, b: string)
    requires sep == ' ' || sep == '-'
    ensures LineTokens(a + [sep] + b) == LineTokens(a) + LineTokens(b)
  {
    var ra, rb := ReplaceChar(a, '-', ' '), ReplaceChar(b, '-', ' ');
    assert ReplaceChar(a + [sep] + b, '-', ' ') == ra + [' '] + rb;
    LineTokensSplitAll(a + [sep] + b);
    LineTokensSplitAll(a);
    LineTokensSplitAll(b);
    SplitAllConcat(ra, rb, ' ');
    NormalizeConcat(SplitAll(ra, ' '), SplitAll(rb, ' '));
  }

  /** A non-empty word without separators is one token, lowercased. */
  lemma LineTokensWord(w: string)
    requires w != [] && ' ' !in w && '-' !in w
    ensures LineTokens(w) == [ToLower(w)]
  {
    assert ReplaceChar(w, '-', ' ') == w;
    assert Normalize([w]) == Normalize([][..0]) + [ToLower(w)];
  }

  /** Every word lowercased, in order. */
  function LowerAll(ws: seq<string>): (r: seq<string>)
    ensures |r| == |ws|
    decreases |ws|
  {
    if ws == [] then [] else [ToLower(ws[0])] + LowerAll(ws[1..])
  }

  /** Words with no ASCII capital are their own lowercasing. */
  lemma {:induction false} LowerAllOfLower(ws: seq<string>)
    requires forall i, j :: 0 <= i < |ws| && 0 <= j < |ws[i]| ==> !IsUpperAscii(ws[i][j])
    ensures LowerAll(ws) == ws
    decreases |ws|
  {
    if ws != [] {
      LowerAllOfLower(ws[1..]);
      assert ToLower(ws[0]) == ws[0];
    }
  }

  /** Words without separators, joined by single spaces or single hyphens, are the line's
      tokens, each lowercased. */
  lemma {:induction false} LineTokensOfWords(ws: seq<string>, sep: char)
    requires |ws| >= 1 && (sep == ' ' || sep == '-')
    requires forall i :: 0 <= i < |ws| ==> ws[i] != [] && ' ' !in ws[i] && '-' !in ws[i]
    ensures LineTokens(Join(ws, sep)) == LowerAll(ws)
    decreases |ws|
  {
    LineTokensWord(ws[0]);
    if |ws| > 1 {
      LineTokensOfWords(ws[1..], sep);
      LineTokensSeparate(ws[0], sep, Join(ws[1..], sep));
    }
  }

  /** A line without characters has no tokens. */
  lemma LineTokensEmpty()
    ensures LineTokens("") == []
  {
  }
}
