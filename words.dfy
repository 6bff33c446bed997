/**
  Tokenising a line of text the way the indexer does: trim the line,
  split it at every maximal run of characters that are not word characters
  (the regular expression `[^\w]+`), drop the empty pieces, and normalise
  each remaining piece by uppercasing it.

  Word characters, white space and uppercasing are the ASCII part of what
  the .NET runtime uses.
*/
module Words {

  /** `\w`: a letter, a decimal digit or the underscore. */
  predicate IsWordChar(c: char) {
    ('a' <= c <= 'z') || ('A' <= c <= 'Z') || ('0' <= c <= '9') || c == '_'
  }

  /** The white space that `string.Trim()` removes: the space and U+0009 to U+000D. */
  predicate IsWhiteSpace(c: char) {
    c == ' ' || (9 <= c as int <= 13)
  }

  predicate AllWordChars(s: string) {
    forall i :: 0 <= i < |s| ==> IsWordChar(s[i])
  }

  predicate AllWhiteSpace(s: string) {
    forall i :: 0 <= i < |s| ==> IsWhiteSpace(s[i])
  }

  predicate IsUpperCase(s: string) {
    forall i :: 0 <= i < |s| ==> !('a' <= s[i] <= 'z')
  }

  /** A normalised token, as the occurrence table stores it as a key. */
  predicate IsNormalWord(s: string) {
    |s| >= 1 && AllWordChars(s) && IsUpperCase(s)
  }

  // ---------------------------------------------------------------------
  // Uppercasing

  function UpperChar(c: char): (u: char)
    ensures !('a' <= u <= 'z')
    ensures IsWordChar(u) == IsWordChar(c)
    ensures IsWhiteSpace(u) == IsWhiteSpace(c)
    ensures !('a' <= c <= 'z') ==> u == c
  {
    if 'a' <= c <= 'z' then (c as int - 32) as char else c
  }

  /** `string.ToUpper()`: a character-by-character map. */
  function Upper(s: string): (u: string)
    ensures |u| == |s| && IsUpperCase(u)
    ensures forall i :: 0 <= i < |s| ==> IsWordChar(u[i]) == IsWordChar(s[i])
    ensures forall i :: 0 <= i < |s| ==> IsWhiteSpace(u[i]) == IsWhiteSpace(s[i])
    ensures IsUpperCase(s) ==> u == s
  {
    seq(|s|, i requires 0 <= i < |s| => UpperChar(s[i]))
  }

  /** Uppercasing is idempotent, so normalising a normalised word changes nothing. */
  lemma UpperIdempotent(s: string)
    ensures Upper(Upper(s)) == Upper(s)
  {
  }

  // ---------------------------------------------------------------------
  // Trimming

  function TrimStart(s: string): (r: string)
    ensures |r| <= |s|
    ensures r == [] || !IsWhiteSpace(r[0])
  {
    if s != [] && IsWhiteSpace(s[0]) then TrimStart(s[1..]) else s
  }

  function TrimEnd(s: string): (r: string)
    ensures |r| <= |s| && (r != [] ==> r[0] == s[0])
    ensures r == [] || !IsWhiteSpace(r[|r| - 1])
  {
    if s != [] && IsWhiteSpace(s[|s| - 1]) then TrimEnd(s[..|s| - 1]) else s
  }

  /** `string.Trim()`: white space removed from both ends. */
  function Trim(s: string): (r: string)
    ensures |r| <= |s|
    ensures r == [] || (!IsWhiteSpace(r[0]) && !IsWhiteSpace(r[|r| - 1]))
  {
    TrimEnd(TrimStart(s))
  }

  /** A run of word characters holds no white space, so `Trim` leaves it alone. */
  lemma TrimWord(s: string)
    ensures AllWordChars(s) ==> Trim(s) == s
  {
    if AllWordChars(s) && s != [] {
      assert !IsWhiteSpace(s[0]) && !IsWhiteSpace(s[|s| - 1]);
    }
  }

  /** What the indexer stores for one piece of a line: `word.ToUpper().Trim()`. */
  function Normalize(piece: string): (u: string)
    ensures AllWordChars(piece) ==> u == Upper(piece)
    ensures AllWordChars(piece) ==> (u == [] <==> piece == [])
    ensures AllWordChars(piece) && piece != [] ==> IsNormalWord(u)
  {
    var up := Upper(piece);
    TrimWord(up);
    Trim(up)
  }

  /** `TrimStart` removes a run of white space from the front and nothing else. */
  lemma {:induction false} TrimStartSlice(s: string)
    ensures TrimStart(s) == s[|s| - |TrimStart(s)|..]
    ensures AllWhiteSpace(s[..|s| - |TrimStart(s)|])
    decreases |s|
  {
    if s != [] && IsWhiteSpace(s[0]) {
      TrimStartSlice(s[1..]);
      var m := |s| - |TrimStart(s)|;
      assert s[1..][m - 1..] == s[m..];
      assert s[..m] == [s[0]] + s[1..][..m - 1];
    }
  }

  /** `TrimEnd` removes a run of white space from the back and nothing else. */
  lemma {:induction false} TrimEndSlice(s: string)
    ensures TrimEnd(s) == s[..|TrimEnd(s)|]
    ensures AllWhiteSpace(s[|TrimEnd(s)|..])
    decreases |s|
  {
    if s != [] && IsWhiteSpace(s[|s| - 1]) {
      var init := s[..|s| - 1];
      TrimEndSlice(init);
      var m := |TrimEnd(s)|;
      assert init[..m] == s[..m];
      assert s[m..] == init[m..] + [s[|s| - 1]];
    }
  }

  /**
    `Trim` removes white space from both ends and nothing else: its result
    is the middle of the input, with only white space on either side.
    With `Trim`'s own contract (the result starts and ends with no white
    space) this pins the result down.
  */
  lemma TrimRemovesOnlyEnds(s: string)
    ensures exists i, j :: 0 <= i <= j <= |s| && Trim(s) == s[i..j] && AllWhiteSpace(s[..i]) && AllWhiteSpace(s[j..])
  {
    var t := TrimStart(s);
    TrimStartSlice(s);
    TrimEndSlice(t);
    var i := |s| - |t|;
    var j := i + |TrimEnd(t)|;
    SuffixSlices(s, i, |TrimEnd(t)|);
    assert Trim(s) == s[i..j];
  }

  lemma SuffixSlices(s: string, i: nat, k: nat)
    requires i <= |s| && k <= |s| - i
    ensures s[i..][..k] == s[i..i + k] && s[i..][k..] == s[i + k..]
  {
  }

  // ---------------------------------------------------------------------
  // Splitting at runs of non-word characters

  /** Length of the run of word characters at the start of `s`. */
  function WordRun(s: string): (n: nat)
    ensures n <= |s| && AllWordChars(s[..n])
    ensures n < |s| ==> !IsWordChar(s[n])
  {
    if s == [] || !IsWordChar(s[0]) then 0 else 1 + WordRun(s[1..])
  }

  /** Length of the run of non-word characters at the start of `s`. */
  function GapRun(s: string): (n: nat)
    ensures n <= |s|
    ensures forall i :: 0 <= i < n ==> !IsWordChar(s[i])
    ensures n < |s| ==> IsWordChar(s[n])
  {
    if s == [] || IsWordChar(s[0]) then 0 else 1 + GapRun(s[1..])
  }

  /**
    `new Regex(@"[^\w]+").Split(s)`: the pieces between the maximal runs of
    non-word characters, in order. A run at the start or the end of `s`
    yields an empty first or last piece, and `Split("") == [""]`.
  */
  function Split(s: string): (pieces: seq<string>)
    ensures |pieces| >= 1
    ensures forall k :: 0 <= k < |pieces| ==> AllWordChars(pieces[k])
    decreases |s|
  {
    if WordRun(s) == |s| then [s] else [Piece(s)] + Split(Rest(s))
  }

  /** The leading run of word characters: the first piece `Split` yields. */
  function Piece(s: string): (w: string)
    ensures AllWordChars(w)
  {
    s[..WordRun(s)]
  }

  /** The run of non-word characters that ends the first piece. */
  function Sep(s: string): (g: string)
    requires WordRun(s) < |s|
  {
    var rest := s[WordRun(s)..];
    rest[..GapRun(rest)]
  }

  /** What follows the first separator. */
  function Rest(s: string): (r: string)
    requires WordRun(s) < |s|
    ensures |r| < |s|
  {
    var rest := s[WordRun(s)..];
    rest[GapRun(rest)..]
  }

  /** A string that does not end with its first piece is piece, separator and rest. */
  lemma Cut(s: string)
    requires WordRun(s) < |s|
    ensures s == Piece(s) + (Sep(s) + Rest(s))
    ensures IsGap(Sep(s))
    ensures Rest(s) == [] || IsWordChar(Rest(s)[0])
  {
    CutEnds(s);
    var n := WordRun(s);
    Glue(s, n, GapRun(s[n..]));
  }

  lemma CutEnds(s: string)
    requires WordRun(s) < |s|
    ensures IsGap(Sep(s))
    ensures Rest(s) == [] || IsWordChar(Rest(s)[0])
  {
    var rest := s[WordRun(s)..];
    assert !IsWordChar(rest[0]);
  }

  lemma Glue(s: string, n: nat, g: nat)
    requires n <= |s| && g <= |s| - n
    ensures s == s[..n] + (s[n..][..g] + s[n..][g..])
  {
    assert s[n..] == s[n..][..g] + s[n..][g..];
  }

  /** The non-empty pieces, in order (`.Where(word => word != string.Empty)`). */
  function NonEmpty(pieces: seq<string>): (r: seq<string>)
    ensures forall k :: 0 <= k < |r| ==> r[k] != [] && r[k] in pieces
    ensures forall k :: 0 <= k < |pieces| && pieces[k] != [] ==> pieces[k] in r
  {
    if pieces == [] then []
    else (if pieces[0] == [] then [] else [pieces[0]]) + NonEmpty(pieces[1..])
  }

  /** The tokens of a line or of a whole exclusion file. */
  function Tokens(s: string): (r: seq<string>)
    ensures forall k :: 0 <= k < |r| ==> r[k] != [] && AllWordChars(r[k])
  {
    NonEmpty(Split(Trim(s)))
  }

  /** Dropping the empty pieces of two lists is dropping them from each. */
  lemma {:induction false} NonEmptyAppend(a: seq<string>, b: seq<string>)
    ensures NonEmpty(a + b) == NonEmpty(a) + NonEmpty(b)
    decreases |a|
  {
    if a == [] {
      assert a + b == b;
    } else {
      assert (a + b)[0] == a[0] && (a + b)[1..] == a[1..] + b;
      NonEmptyAppend(a[1..], b);
    }
  }

  /**
    `Where(word => word != string.Empty)` drops only empty pieces: no
    character is lost, no empty piece is kept, and every non-empty piece
    is kept as often as it occurs.
  */
  lemma NonEmptyKeeps(pieces: seq<string>)
    ensures Concat(NonEmpty(pieces)) == Concat(pieces)
    ensures [] !in NonEmpty(pieces)
    ensures forall w :: w != [] ==> multiset(NonEmpty(pieces))[w] == multiset(pieces)[w]
  {
    NonEmptyConcat(pieces);
    NonEmptyCounts(pieces);
  }

  lemma {:induction false} NonEmptyConcat(pieces: seq<string>)
    ensures Concat(NonEmpty(pieces)) == Concat(pieces)
    decreases |pieces|
  {
    if pieces != [] {
      var p, rest := pieces[0], pieces[1..];
      NonEmptyConcat(rest);
      assert pieces == [p] + rest;
      ConcatCons(p, rest);
      if p != [] {
        assert NonEmpty(pieces) == [p] + NonEmpty(rest);
        ConcatCons(p, NonEmpty(rest));
      } else {
        assert NonEmpty(pieces) == NonEmpty(rest);
        assert p + Concat(rest) == Concat(rest);
      }
    }
  }

  lemma {:induction false} NonEmptyCounts(pieces: seq<string>)
    ensures [] !in NonEmpty(pieces)
    ensures forall w :: w != [] ==> multiset(NonEmpty(pieces))[w] == multiset(pieces)[w]
    decreases |pieces|
  {
    if pieces != [] {
      var p, rest := pieces[0], pieces[1..];
      NonEmptyCounts(rest);
      assert pieces == [p] + rest;
      assert multiset(pieces) == multiset{p} + multiset(rest);
      var first := if p == [] then [] else [p];
      assert NonEmpty(pieces) == first + NonEmpty(rest);
      assert multiset(NonEmpty(pieces)) == multiset(first) + multiset(NonEmpty(rest));
    }
  }

  /** The tokens of a text, put back together, are exactly its word characters, in order. */
  lemma TokensKeepWordChars(s: string)
    ensures Concat(Tokens(s)) == WordChars(s)
  {
    NonEmptyConcat(Split(Trim(s)));
    SplitKeepsWordChars(Trim(s));
    TrimKeepsWordChars(s);
  }

  /** Trimming removes no word character. */
  lemma TrimKeepsWordChars(s: string)
    ensures WordChars(Trim(s)) == WordChars(s)
  {
    TrimRemovesOnlyEnds(s);
    var i, j :| 0 <= i <= j <= |s| && Trim(s) == s[i..j] && AllWhiteSpace(s[..i]) && AllWhiteSpace(s[j..]);
    WordCharsAround(s[..i], s[i..j], s[j..]);
    SliceThree(s, i, j);
  }

  lemma SliceThree(s: string, i: nat, j: nat)
    requires i <= j <= |s|
    ensures s == s[..i] + (s[i..j] + s[j..])
  {
    assert s[i..] == s[i..j] + s[j..];
  }

  lemma WordCharsAround(a: string, m: string, b: string)
    requires AllWhiteSpace(a) && AllWhiteSpace(b)
    ensures WordChars(a + (m + b)) == WordChars(m)
  {
    WordCharsAppend(a, m + b);
    WordCharsAppend(m, b);
    WordCharsOfGap(a);
    WordCharsOfGap(b);
  }

  // ---------------------------------------------------------------------
  // What splitting keeps

  function Concat(ss: seq<string>): string {
    if ss == [] then [] else ss[0] + Concat(ss[1..])
  }

  /** The word characters of `s`, in order. */
  function WordChars(s: string): string {
    if s == [] then [] else (if IsWordChar(s[0]) then [s[0]] else []) + WordChars(s[1..])
  }

  lemma {:induction false} WordCharsAppend(a: string, b: string)
    ensures WordChars(a + b) == WordChars(a) + WordChars(b)
    decreases |a|
  {
    if a == [] {
      assert a + b == b;
    } else {
      WordCharsAppend(a[1..], b);
      ConsAppend(a, b);
    }
  }

  lemma ConsAppend(a: string, b: string)
    requires a != []
    ensures a + b != [] && (a + b)[0] == a[0] && (a + b)[1..] == a[1..] + b
  {
  }

  lemma {:induction false} WordCharsOfWord(s: string)
    requires AllWordChars(s)
    ensures WordChars(s) == s
    decreases |s|
  {
    if s != [] {
      WordCharsOfWord(s[1..]);
    }
  }

  lemma {:induction false} WordCharsOfGap(s: string)
    requires forall i :: 0 <= i < |s| ==> !IsWordChar(s[i])
    ensures WordChars(s) == []
    decreases |s|
  {
    if s != [] {
      WordCharsOfGap(s[1..]);
    }
  }

  /**
    Splitting loses no word character and invents none: the pieces, put
    back together, are exactly the word characters of the input, in order.
  */
  lemma {:induction false} SplitKeepsWordChars(s: string)
    ensures Concat(Split(s)) == WordChars(s)
    decreases |s|
  {
    if WordRun(s) == |s| {
      assert s[..WordRun(s)] == s;
      WordCharsOfWord(s);
      assert Concat([s]) == s + Concat([]);
    } else {
      Cut(s);
      SplitKeepsWordChars(Rest(s));
      ConcatCons(Piece(s), Split(Rest(s)));
      WordGapMore(s, Piece(s), Sep(s), Rest(s));
    }
  }

  lemma ConcatCons(w: string, ss: seq<string>)
    ensures Concat([w] + ss) == w + Concat(ss)
  {
    assert ([w] + ss)[0] == w && ([w] + ss)[1..] == ss;
  }

  lemma WordGapMore(s: string, word: string, gap: string, more: string)
    requires s == word + (gap + more) && AllWordChars(word)
    requires forall i :: 0 <= i < |gap| ==> !IsWordChar(gap[i])
    ensures WordChars(s) == word + WordChars(more)
  {
    var tail := gap + more;
    WordCharsAppend(word, tail);
    WordCharsAppend(gap, more);
    WordCharsOfWord(word);
    WordCharsOfGap(gap);
    assert WordChars(tail) == WordChars(more);
  }

  // ---------------------------------------------------------------------
  // Splitting is the inverse of joining with separators

  /** A separator: a non-empty run of characters that are not word characters. */
  predicate IsGap(g: string) {
    g != [] && forall i :: 0 <= i < |g| ==> !IsWordChar(g[i])
  }

  /** `ws[0] + seps[0] + ws[1] + ... + seps[|seps| - 1] + ws[|seps|]`. */
  function Join(ws: seq<string>, seps: seq<string>): string
    requires |ws| == |seps| + 1
    decreases |seps|
  {
    if seps == [] then ws[0] else ws[0] + (seps[0] + Join(ws[1..], seps[1..]))
  }

  /**
    Runs of word characters between separators, as `Split` sees a string:
    only the first piece (a separator at the start) and the last piece (a
    separator at the end) may be empty.
  */
  predicate Separated(ws: seq<string>, seps: seq<string>) {
    && |ws| == |seps| + 1
    && (forall k :: 0 <= k < |ws| ==> AllWordChars(ws[k]))
    && (forall k :: 0 < k < |ws| - 1 ==> ws[k] != [])
    && (forall k :: 0 <= k < |seps| ==> IsGap(seps[k]))
  }

  /** The separators `Split` cuts `s` at, in order. */
  function Gaps(s: string): seq<string>
    decreases |s|
  {
    if WordRun(s) == |s| then [] else [Sep(s)] + Gaps(Rest(s))
  }

  lemma {:induction false} WordRunOfWordThenGap(w: string, tail: string)
    requires AllWordChars(w)
    requires tail == [] || !IsWordChar(tail[0])
    ensures WordRun(w + tail) == |w|
    decreases |w|
  {
    if w != [] {
      assert (w + tail)[1..] == w[1..] + tail;
      WordRunOfWordThenGap(w[1..], tail);
    }
  }

  lemma {:induction false} GapRunOfGapThenWord(gap: string, more: string)
    requires forall i :: 0 <= i < |gap| ==> !IsWordChar(gap[i])
    requires more == [] || IsWordChar(more[0])
    ensures GapRun(gap + more) == |gap|
    decreases |gap|
  {
    if gap != [] {
      assert (gap + more)[1..] == gap[1..] + more;
      GapRunOfGapThenWord(gap[1..], more);
    }
  }

  /** A word, a separator, then the rest: the word is the first piece. */
  lemma SplitWordGap(w: string, gap: string, more: string)
    requires AllWordChars(w) && IsGap(gap)
    requires more == [] || IsWordChar(more[0])
    ensures Split(w + (gap + more)) == [w] + Split(more)
  {
    var s := w + (gap + more);
    WordRunOfWordThenGap(w, gap + more);
    assert Piece(s) == w;
    assert s[|w|..] == gap + more;
    GapRunOfGapThenWord(gap, more);
    assert Rest(s) == more;
  }

  /** A joined string starts with a word character, unless it is a lone empty piece. */
  lemma JoinStart(ws: seq<string>, seps: seq<string>)
    requires |ws| == |seps| + 1 && AllWordChars(ws[0]) && (seps != [] ==> ws[0] != [])
    ensures Join(ws, seps) == [] || IsWordChar(Join(ws, seps)[0])
  {
    if seps != [] {
      assert Join(ws, seps)[0] == ws[0][0];
    }
  }

  /**
    Splitting a joined string gives back its pieces, whatever the
    separators, including the empty first or last piece that a separator
    at the start or the end leaves.
  */
  lemma {:induction false} SplitJoin(ws: seq<string>, seps: seq<string>)
    requires Separated(ws, seps)
    ensures Split(Join(ws, seps)) == ws
    decreases |seps|
  {
    if seps == [] {
      SplitWord(ws[0]);
    } else {
      SeparatedTail(ws, seps);
      var more := Join(ws[1..], seps[1..]);
      JoinStart(ws[1..], seps[1..]);
      SplitWordGap(ws[0], seps[0], more);
      SplitJoin(ws[1..], seps[1..]);
      HeadTail(ws);
    }
  }

  lemma HeadTail(ws: seq<string>)
    requires ws != []
    ensures ws == [ws[0]] + ws[1..]
  {
  }

  /** A run of word characters is a single piece. */
  lemma SplitWord(w: string)
    requires AllWordChars(w)
    ensures Split(w) == [w]
  {
    WordRunOfWordThenGap(w, []);
    assert w + [] == w;
  }

  lemma SeparatedTail(ws: seq<string>, seps: seq<string>)
    requires Separated(ws, seps) && seps != []
    ensures Separated(ws[1..], seps[1..])
    ensures AllWordChars(ws[0]) && IsGap(seps[0])
    ensures seps[1..] != [] ==> ws[1..][0] != []
  {
    forall k | 0 < k < |ws[1..]| - 1 ensures ws[1..][k] != [] {
      assert ws[1..][k] == ws[k + 1];
    }
  }

  /** After a separator the rest is empty or starts a non-empty piece. */
  lemma SplitFirstNonEmpty(t: string)
    requires t != [] && IsWordChar(t[0])
    ensures Split(t)[0] != []
  {
    assert WordRun(t) >= 1;
  }

  lemma SeparatedCons(w: string, gap: string, ws: seq<string>, seps: seq<string>)
    requires Separated(ws, seps) && AllWordChars(w) && IsGap(gap)
    requires |ws| == 1 || ws[0] != []
    ensures Separated([w] + ws, [gap] + seps)
  {
    var ws', seps' := [w] + ws, [gap] + seps;
    forall k | 0 < k < |ws'| - 1 ensures ws'[k] != [] {
      assert ws'[k] == ws[k - 1];
    }
    forall k | 0 <= k < |ws'| ensures AllWordChars(ws'[k]) {
      if k > 0 {
        assert ws'[k] == ws[k - 1];
      }
    }
    forall k | 0 <= k < |seps'| ensures IsGap(seps'[k]) {
      if k > 0 {
        assert seps'[k] == seps[k - 1];
      }
    }
  }

  lemma JoinCons(w: string, gap: string, ws: seq<string>, seps: seq<string>)
    requires |ws| == |seps| + 1
    ensures Join([w] + ws, [gap] + seps) == w + (gap + Join(ws, seps))
  {
    assert ([w] + ws)[1..] == ws && ([gap] + seps)[1..] == seps;
  }

  /**
    Every string is the join of its pieces with its separators: the pieces
    are exactly its maximal runs of word characters, in order.
  */
  lemma {:induction false} SplitIsJoin(s: string)
    ensures Separated(Split(s), Gaps(s))
    ensures Join(Split(s), Gaps(s)) == s
    decreases |s|
  {
    if WordRun(s) == |s| {
      assert Split(s) == [s];
    } else {
      Cut(s);
      var word, gap, more := Piece(s), Sep(s), Rest(s);
      SplitIsJoin(more);
      if more != [] {
        SplitFirstNonEmpty(more);
      }
      SeparatedCons(word, gap, Split(more), Gaps(more));
      JoinCons(word, gap, Split(more), Gaps(more));
    }
  }
}
