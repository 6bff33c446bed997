/**
  What indexing computes, as functions on values: the two tables (the
  occurrence table and the exclusion table), how one token is routed into
  them, and the fold of that routing over every token of every line of
  every file. The indexer's methods are proved against these functions.
*/
module Indexing {
  import opened Words

  /** The occurrence table and the exclusion table: word to count. */
  datatype Tables = Tables(occurrences: map<string, nat>, excluded: map<string, nat>)

  /** The count of `k`, or 0 when `k` has no entry. */
  function Get(m: map<string, nat>, k: string): nat {
    if k in m then m[k] else 0
  }

  /**
    The invariant of the tables: every occurrence key is a non-empty,
    uppercased run of word characters (so its first character exists), and
    every exclusion key is uppercased.
  */
  predicate WellFormed(t: Tables) {
    && (forall k :: k in t.occurrences ==> IsNormalWord(k))
    && (forall k :: k in t.excluded ==> IsUpperCase(k))
  }

  // ---------------------------------------------------------------------
  // Routing one token

  /**
    One normalised token: an exclusion key bumps only its exclusion count
    (`IsFilteredWord`); any other token gets its occurrence entry created
    at 0 if absent and then incremented (`GetOrAdd` then `Increment`).
  */
  function Route(t: Tables, u: string): (r: Tables)
    ensures r.excluded.Keys == t.excluded.Keys
    ensures u in t.excluded ==>
      && r.occurrences == t.occurrences
      && r.excluded[u] == t.excluded[u] + 1
      && (forall k :: k in t.excluded && k != u ==> r.excluded[k] == t.excluded[k])
    ensures u !in t.excluded ==>
      && r.excluded == t.excluded
      && r.occurrences.Keys == t.occurrences.Keys + {u}
      && Get(r.occurrences, u) == Get(t.occurrences, u) + 1
      && (forall k :: k in t.occurrences && k != u ==> r.occurrences[k] == t.occurrences[k])
  {
    if u in t.excluded then t.(excluded := t.excluded[u := t.excluded[u] + 1])
    else t.(occurrences := t.occurrences[u := Get(t.occurrences, u) + 1])
  }

  /** Routing the tokens one after another, in order. */
  function RecordAll(t: Tables, words: seq<string>): (r: Tables)
    ensures r.excluded.Keys == t.excluded.Keys
    ensures t.occurrences.Keys <= r.occurrences.Keys
    ensures forall i :: 0 <= i < |words| ==> words[i] in r.excluded || words[i] in r.occurrences
    decreases |words|
  {
    if words == [] then t else RecordAll(Route(t, words[0]), words[1..])
  }

  lemma {:induction false} RecordAllAppend(t: Tables, a: seq<string>, b: seq<string>)
    ensures RecordAll(t, a + b) == RecordAll(RecordAll(t, a), b)
    decreases |a|
  {
    if a == [] {
      assert a + b == b;
    } else {
      assert (a + b)[0] == a[0] && (a + b)[1..] == a[1..] + b;
      RecordAllAppend(Route(t, a[0]), a[1..], b);
    }
  }

  /**
    The exact effect of routing a sequence of tokens: the exclusion keys do
    not change; an exclusion key's count grows by the number of times it
    occurs and it never enters the occurrence table; every other word's
    occurrence count grows by the number of times it occurs, and it has an
    entry exactly when it had one or occurs at least once.
  */
  lemma {:induction false} RecordAllCounts(t: Tables, words: seq<string>, w: string)
    ensures RecordAll(t, words).excluded.Keys == t.excluded.Keys
    ensures w in t.excluded ==>
      && RecordAll(t, words).excluded[w] == t.excluded[w] + multiset(words)[w]
      && (w in RecordAll(t, words).occurrences <==> w in t.occurrences)
      && Get(RecordAll(t, words).occurrences, w) == Get(t.occurrences, w)
    ensures w !in t.excluded ==>
      && (w in RecordAll(t, words).occurrences <==> w in t.occurrences || w in words)
      && Get(RecordAll(t, words).occurrences, w) == Get(t.occurrences, w) + multiset(words)[w]
    decreases |words|
  {
    if words != [] {
      var t' := Route(t, words[0]);
      RecordAllCounts(t', words[1..], w);
      assert words == [words[0]] + words[1..];
      assert multiset(words)[w] == (if words[0] == w then 1 else 0) + multiset(words[1..])[w];
      assert w in words <==> w == words[0] || w in words[1..];
    }
  }

  /** Routing depends only on how often each token occurs, not on the order. */
  lemma RecordAllReorder(t: Tables, a: seq<string>, b: seq<string>)
    requires multiset(a) == multiset(b)
    ensures RecordAll(t, a) == RecordAll(t, b)
  {
    var ra, rb := RecordAll(t, a), RecordAll(t, b);
    forall w
      ensures (w in ra.occurrences <==> w in rb.occurrences) && Get(ra.occurrences, w) == Get(rb.occurrences, w)
      ensures w in ra.excluded ==> ra.excluded[w] == rb.excluded[w]
    {
      RecordAllReorderAt(t, a, b, w);
    }
    assert ra.occurrences == rb.occurrences;
    assert ra.excluded == rb.excluded;
  }

  /** One word's entries after routing two reorderings of the same tokens. */
  lemma RecordAllReorderAt(t: Tables, a: seq<string>, b: seq<string>, w: string)
    requires multiset(a) == multiset(b)
    ensures var ra, rb := RecordAll(t, a), RecordAll(t, b);
      && (w in ra.occurrences <==> w in rb.occurrences)
      && Get(ra.occurrences, w) == Get(rb.occurrences, w)
      && (w in ra.excluded ==> ra.excluded[w] == rb.excluded[w])
  {
    RecordAllCounts(t, a, w);
    RecordAllCounts(t, b, w);
    assert w in a <==> multiset(a)[w] > 0;
    assert w in b <==> multiset(b)[w] > 0;
  }

  /** Routing normalised words keeps the tables well formed. */
  lemma RecordAllWellFormed(t: Tables, words: seq<string>)
    requires WellFormed(t)
    requires forall k :: 0 <= k < |words| ==> IsNormalWord(words[k])
    ensures WellFormed(RecordAll(t, words))
  {
    var r := RecordAll(t, words);
    forall w | w in r.occurrences ensures IsNormalWord(w) {
      RecordAllCounts(t, words, w);
    }
    RecordAllCounts(t, words, "");
  }

  // ---------------------------------------------------------------------
  // The tokens of a line, a file and a corpus

  /** What one piece of `Regex.Split` contributes: its normalised form, unless that is empty. */
  function WordOf(piece: string): (ws: seq<string>)
    requires AllWordChars(piece)
    ensures ws == if piece == [] then [] else [Upper(piece)]
    ensures forall k :: 0 <= k < |ws| ==> IsNormalWord(ws[k])
  {
    var u := Normalize(piece);
    if u == [] then [] else [u]
  }

  function PieceWords(pieces: seq<string>): (ws: seq<string>)
    requires forall k :: 0 <= k < |pieces| ==> AllWordChars(pieces[k])
    ensures forall k :: 0 <= k < |ws| ==> IsNormalWord(ws[k])
  {
    if pieces == [] then [] else WordOf(pieces[0]) + PieceWords(pieces[1..])
  }

  /** The normalised, non-empty tokens of one line, in order. */
  function LineWords(line: string): (ws: seq<string>)
    ensures forall k :: 0 <= k < |ws| ==> IsNormalWord(ws[k])
  {
    PieceWords(Split(Trim(line)))
  }

  /** The normalised tokens of a file, line after line. */
  function FileWords(lines: seq<string>): (ws: seq<string>)
    ensures forall k :: 0 <= k < |ws| ==> IsNormalWord(ws[k])
  {
    if lines == [] then [] else LineWords(lines[0]) + FileWords(lines[1..])
  }

  /** The normalised tokens of every file, file after file. */
  function CorpusWords(files: seq<seq<string>>): (ws: seq<string>)
    ensures forall k :: 0 <= k < |ws| ==> IsNormalWord(ws[k])
  {
    if files == [] then [] else FileWords(files[0]) + CorpusWords(files[1..])
  }

  lemma {:induction false} PieceWordsAppend(a: seq<string>, b: seq<string>)
    requires forall k :: 0 <= k < |a| ==> AllWordChars(a[k])
    requires forall k :: 0 <= k < |b| ==> AllWordChars(b[k])
    ensures PieceWords(a + b) == PieceWords(a) + PieceWords(b)
    decreases |a|
  {
    if a == [] {
      assert a + b == b;
    } else {
      assert (a + b)[0] == a[0] && (a + b)[1..] == a[1..] + b;
      PieceWordsAppend(a[1..], b);
    }
  }

  lemma {:induction false} FileWordsAppend(a: seq<string>, b: seq<string>)
    ensures FileWords(a + b) == FileWords(a) + FileWords(b)
    decreases |a|
  {
    if a == [] {
      assert a + b == b;
    } else {
      assert (a + b)[0] == a[0] && (a + b)[1..] == a[1..] + b;
      FileWordsAppend(a[1..], b);
    }
  }

  lemma FileWordsSnoc(lines: seq<string>, i: nat)
    requires i < |lines|
    ensures FileWords(lines[..i + 1]) == FileWords(lines[..i]) + LineWords(lines[i])
  {
    assert lines[..i + 1] == lines[..i] + [lines[i]];
    FileWordsAppend(lines[..i], [lines[i]]);
    assert [lines[i]][1..] == [];
  }

  lemma {:induction false} CorpusWordsAppend(a: seq<seq<string>>, b: seq<seq<string>>)
    ensures CorpusWords(a + b) == CorpusWords(a) + CorpusWords(b)
    decreases |a|
  {
    if a == [] {
      assert a + b == b;
    } else {
      assert (a + b)[0] == a[0] && (a + b)[1..] == a[1..] + b;
      CorpusWordsAppend(a[1..], b);
    }
  }

  /** Uppercases every word. */
  function UpperAll(ws: seq<string>): (us: seq<string>)
    ensures |us| == |ws|
  {
    if ws == [] then [] else [Upper(ws[0])] + UpperAll(ws[1..])
  }

  lemma {:induction false} PieceWordsAreUppercasedTokens(pieces: seq<string>)
    requires forall k :: 0 <= k < |pieces| ==> AllWordChars(pieces[k])
    ensures PieceWords(pieces) == UpperAll(NonEmpty(pieces))
  {
    if pieces != [] {
      var p, tail := pieces[0], pieces[1..];
      PieceWordsAreUppercasedTokens(tail);
      var first := if p == [] then [] else [p];
      assert NonEmpty(pieces) == first + NonEmpty(tail);
      UpperAllAppend(first, NonEmpty(tail));
      assert UpperAll(first) == WordOf(p) by {
        if p != [] {
          assert first[1..] == [];
        }
      }
    }
  }

  lemma {:induction false} UpperAllAppend(a: seq<string>, b: seq<string>)
    ensures UpperAll(a + b) == UpperAll(a) + UpperAll(b)
    decreases |a|
  {
    if a == [] {
      assert a + b == b;
    } else {
      assert (a + b)[0] == a[0] && (a + b)[1..] == a[1..] + b;
      UpperAllAppend(a[1..], b);
    }
  }

  /**
    The words a line contributes are exactly its tokens, uppercased, in
    order: every counted word is a non-empty run of word characters taken
    from the trimmed line, and no token is skipped.
  */
  lemma LineWordsAreUppercasedTokens(line: string)
    ensures LineWords(line) == UpperAll(Tokens(line))
  {
    PieceWordsAreUppercasedTokens(Split(Trim(line)));
  }

  // ---------------------------------------------------------------------
  // Indexing a corpus

  /** `Index`, done sequentially: every file's tokens routed into the tables. */
  function IndexFiles(t: Tables, files: seq<seq<string>>): (r: Tables)
    ensures r.excluded.Keys == t.excluded.Keys
    ensures t.occurrences.Keys <= r.occurrences.Keys
  {
    RecordAll(t, CorpusWords(files))
  }

  /** How many times the normalised word `w` occurs across all lines of all files. */
  function Occurrences(w: string, files: seq<seq<string>>): nat {
    multiset(CorpusWords(files))[w]
  }

  /**
    After indexing, a word that is not excluded has its occurrence count
    raised by exactly its number of occurrences in the corpus; an excluded
    word has its exclusion count raised by that number and gets no
    occurrence entry; the exclusion keys stay the same.
  */
  lemma IndexCounts(t: Tables, files: seq<seq<string>>, w: string)
    ensures IndexFiles(t, files).excluded.Keys == t.excluded.Keys
    ensures w in t.excluded ==>
      && IndexFiles(t, files).excluded[w] == t.excluded[w] + Occurrences(w, files)
      && (w in IndexFiles(t, files).occurrences <==> w in t.occurrences)
    ensures w !in t.excluded ==>
      Get(IndexFiles(t, files).occurrences, w) == Get(t.occurrences, w) + Occurrences(w, files)
  {
    RecordAllCounts(t, CorpusWords(files), w);
  }

  /** Indexing keeps every occurrence key a non-empty uppercased word. */
  lemma IndexWellFormed(t: Tables, files: seq<seq<string>>)
    requires WellFormed(t)
    ensures WellFormed(IndexFiles(t, files))
  {
    RecordAllWellFormed(t, CorpusWords(files));
  }

  lemma RemoveOne(gs: seq<seq<string>>, i: nat)
    requires i < |gs|
    ensures multiset(gs[..i] + gs[i + 1..]) == multiset(gs) - multiset{gs[i]}
  {
    assert gs == gs[..i] + [gs[i]] + gs[i + 1..];
  }

  lemma CorpusWordsAround(gs: seq<seq<string>>, i: nat)
    requires i < |gs|
    ensures multiset(CorpusWords(gs)) ==
      multiset(FileWords(gs[i])) + multiset(CorpusWords(gs[..i] + gs[i + 1..]))
  {
    var before, f, after := gs[..i], gs[i], gs[i + 1..];
    assert gs == before + ([f] + after);
    CorpusWordsAppend(before, [f] + after);
    CorpusWordsAppend([f], after);
    CorpusWordsAppend(before, after);
    CorpusWordsSingle(f);
    MultisetAround(CorpusWords(before), FileWords(f), CorpusWords(after));
  }

  lemma CorpusWordsSingle(f: seq<string>)
    ensures CorpusWords([f]) == FileWords(f)
  {
    assert [f][1..] == [];
  }

  lemma MultisetAround(a: seq<string>, b: seq<string>, c: seq<string>)
    ensures multiset(a + (b + c)) == multiset(b) + multiset(a + c)
  {
  }

  lemma {:induction false} CorpusWordsReorder(fs: seq<seq<string>>, gs: seq<seq<string>>)
    requires multiset(fs) == multiset(gs)
    ensures multiset(CorpusWords(fs)) == multiset(CorpusWords(gs))
    decreases |fs|
  {
    if fs == [] {
      assert |gs| == |multiset(gs)| == 0;
    } else {
      var f := fs[0];
      assert f in multiset(gs);
      var i :| 0 <= i < |gs| && gs[i] == f;
      RemoveOne(gs, i);
      assert fs == [f] + fs[1..];
      assert multiset(fs[1..]) == multiset(fs) - multiset{f};
      CorpusWordsReorder(fs[1..], gs[..i] + gs[i + 1..]);
      CorpusWordsAround(gs, i);
    }
  }

  /** The final tables do not depend on the order in which the files are processed. */
  lemma IndexOrderIndependent(t: Tables, fs: seq<seq<string>>, gs: seq<seq<string>>)
    requires multiset(fs) == multiset(gs)
    ensures IndexFiles(t, fs) == IndexFiles(t, gs)
  {
    CorpusWordsReorder(fs, gs);
    RecordAllReorder(t, CorpusWords(fs), CorpusWords(gs));
  }

  // ---------------------------------------------------------------------
  // Configuring exclusions

  /** `Exclude` for each word in turn: the uppercased word gets a fresh count of 0. */
  function ExcludeAll(excluded: map<string, nat>, words: seq<string>): (r: map<string, nat>)
    ensures excluded.Keys <= r.Keys
    ensures forall i :: 0 <= i < |words| ==> Upper(words[i]) in r
    decreases |words|
  {
    if words == [] then excluded else ExcludeAll(excluded[Upper(words[0]) := 0], words[1..])
  }

  /**
    Excluding a list of words adds each uppercased word with count 0,
    overwriting an earlier count, and leaves every other entry alone.
  */
  lemma {:induction false} ExcludeAllEffect(excluded: map<string, nat>, words: seq<string>, k: string)
    ensures k in ExcludeAll(excluded, words) <==> k in excluded || k in UpperAll(words)
    ensures k in UpperAll(words) ==> ExcludeAll(excluded, words)[k] == 0
    ensures k in excluded && k !in UpperAll(words) ==> ExcludeAll(excluded, words)[k] == excluded[k]
    decreases |words|
  {
    if words != [] {
      ExcludeAllEffect(excluded[Upper(words[0]) := 0], words[1..], k);
      assert UpperAll(words) == [Upper(words[0])] + UpperAll(words[1..]);
    }
  }

  /** Excluding one more word after a list of words. */
  lemma {:induction false} ExcludeAllSnoc(excluded: map<string, nat>, words: seq<string>, w: string)
    ensures ExcludeAll(excluded, words + [w]) == ExcludeAll(excluded, words)[Upper(w) := 0]
    decreases |words|
  {
    if words == [] {
      assert words + [w] == [w];
    } else {
      assert (words + [w])[0] == words[0] && (words + [w])[1..] == words[1..] + [w];
      ExcludeAllSnoc(excluded[Upper(words[0]) := 0], words[1..], w);
    }
  }

  lemma ExcludeAllWellFormed(t: Tables, words: seq<string>)
    requires WellFormed(t)
    ensures WellFormed(t.(excluded := ExcludeAll(t.excluded, words)))
  {
    forall k | k in ExcludeAll(t.excluded, words) ensures IsUpperCase(k) {
      ExcludeAllEffect(t.excluded, words, k);
      if k in UpperAll(words) {
        UpperAllUpper(words, k);
      }
    }
  }

  lemma {:induction false} UpperAllUpper(words: seq<string>, k: string)
    requires k in UpperAll(words)
    ensures IsUpperCase(k)
  {
    if words != [] && k != Upper(words[0]) {
      UpperAllUpper(words[1..], k);
    }
  }
}
