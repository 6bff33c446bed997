/**
  The indexer object: it holds the occurrence table and the exclusion
  table and updates them in place as exclusions are configured and files
  are indexed; `Persist` and `PersistExcludeStats` shape the tables for
  output. Every method is proved against the functions of `Indexing`,
  `Grouping` and `DiskFormat`.
*/
module Indexer {
  import opened Wrappers
  import opened Words
  import opened DiskFormat
  import opened Indexing
  import Grouping

  class IndexDirectory {
    /** The directory whose `*.txt` files are indexed. */
    const path: string
    /** Word to occurrence count. */
    var occurrences: map<string, nat>
    /** Excluded word to the number of times it was skipped. */
    var excluded: map<string, nat>

    /** Both tables, as a value. */
    function Snapshot(): Tables
      reads this
    {
      Tables(occurrences, excluded)
    }

    /** The tables' invariant (`WellFormed`), which every method keeps. */
    ghost predicate Valid()
      reads this
    {
      WellFormed(Snapshot())
    }

    /** A new indexer for `path`, with both tables empty. */
    constructor (path: string)
      ensures this.path == path && occurrences == map[] && excluded == map[]
      ensures Valid()
    {
      this.path := path;
      occurrences := map[];
      excluded := map[];
    }

    /**
      `Exclude`: the uppercased word gets a fresh count of 0, replacing any
      count it had; nothing else changes.
    */
    method Exclude(word: string)
      requires Valid()
      modifies this
      ensures excluded == old(excluded)[Upper(word) := 0]
      ensures occurrences == old(occurrences)
      ensures Valid()
    {
      excluded := excluded[Upper(word) := 0];
    }

    /**
      `ExcludeFile`: every non-empty token of the trimmed text, in order, is
      excluded; so the exclusion keys become the old ones plus the
      uppercased tokens, each of those with count 0 (`ExcludeAllEffect`).
    */
    method ExcludeFile(text: string)
      requires Valid()
      modifies this
      ensures excluded == ExcludeAll(old(excluded), Tokens(text))
      ensures occurrences == old(occurrences)
      ensures Valid()
    {
      var words := Tokens(text);
      var i := 0;
      while i < |words|
        invariant 0 <= i <= |words|
        invariant excluded == ExcludeAll(old(excluded), words[..i])
        invariant occurrences == old(occurrences)
        invariant Valid()
      {
        ExcludeStep(old(excluded), words, i);
        Exclude(words[i]);
        i := i + 1;
      }
      assert words[..i] == words;
    }

    /**
      `IsFilteredWord`: whether `word` is excluded; an excluded word has its
      exclusion count bumped by one, and nothing else changes.
    */
    method IsFilteredWord(word: string) returns (filtered: bool)
      modifies this
      ensures filtered <==> word in old(excluded)
      ensures filtered ==> excluded == old(excluded)[word := old(excluded)[word] + 1]
      ensures !filtered ==> excluded == old(excluded)
      ensures occurrences == old(occurrences)
    {
      if word !in excluded {
        return false;
      }
      excluded := excluded[word := excluded[word] + 1];
      return true;
    }

    /**
      `IndexFile`: the file's tokens, line after line, are routed into the
      tables in order (`RecordAll` over `FileWords`).
    */
    method IndexFile(lines: seq<string>)
      requires Valid()
      modifies this
      ensures Snapshot() == RecordAll(old(Snapshot()), FileWords(lines))
      ensures Valid()
    {
      var t0 := Snapshot();
      var i := 0;
      while i < |lines|
        invariant 0 <= i <= |lines|
        invariant Snapshot() == RecordAll(t0, FileWords(lines[..i]))
        invariant Valid()
      {
        FileStep(t0, lines, i);
        IndexLine(lines[i]);
        i := i + 1;
      }
      assert lines[..i] == lines;
    }

    /** One line of a file: its tokens routed in order. */
    method IndexLine(line: string)
      requires Valid()
      modifies this
      ensures Snapshot() == RecordAll(old(Snapshot()), LineWords(line))
      ensures Valid()
    {
      IndexPieces(Split(Trim(line)));
    }

    /**
      The inner loop of `IndexFile`, over the pieces of one trimmed line
      split at runs of non-word characters: each piece is uppercased and
      trimmed, and routed into the tables unless it is empty.
    */
    method IndexPieces(pieces: seq<string>)
      requires Valid() && forall k :: 0 <= k < |pieces| ==> AllWordChars(pieces[k])
      modifies this
      ensures Snapshot() == RecordAll(old(Snapshot()), PieceWords(pieces))
      ensures Valid()
    {
      var t0 := Snapshot();
      var j := 0;
      while j < |pieces|
        invariant 0 <= j <= |pieces|
        invariant Snapshot() == RecordAll(t0, PieceWords(pieces[..j]))
        invariant Valid()
      {
        PiecesStep(t0, pieces, j);
        IndexPiece(pieces[j]);
        j := j + 1;
      }
      assert pieces[..j] == pieces;
    }

    /**
      The body of that inner loop, for one piece: `ToUpper().Trim()`; an
      empty result is skipped; an excluded word has its exclusion count
      bumped (`IsFilteredWord`); any other word has its occurrence count
      created at 0 if absent and incremented (`GetOrAdd`, `Increment`).
    */
    method IndexPiece(piece: string)
      requires Valid() && AllWordChars(piece)
      modifies this
      ensures Snapshot() == RecordAll(old(Snapshot()), WordOf(piece))
      ensures Valid()
    {
      var word := Normalize(piece);
      if word == [] {
        return;
      }
      assert RecordAll(Snapshot(), [word]) == Route(Snapshot(), word);
      var filtered := IsFilteredWord(word);
      if filtered {
        return;
      }
      occurrences := occurrences[word := Get(occurrences, word) + 1];
    }

    /**
      `Index`: every file of the directory is indexed; the tables end up as
      routing every token of every file, in the order given. The source
      indexes the files in parallel; `IndexOrderIndependent` shows the
      order of the files does not matter.
    */
    method Index(files: seq<seq<string>>)
      requires Valid()
      modifies this
      ensures Snapshot() == IndexFiles(old(Snapshot()), files)
      ensures Valid()
    {
      var t0 := Snapshot();
      var i := 0;
      while i < |files|
        invariant 0 <= i <= |files|
        invariant Snapshot() == RecordAll(t0, CorpusWords(files[..i]))
        invariant Valid()
      {
        CorpusStep(t0, files, i);
        IndexFile(files[i]);
        i := i + 1;
      }
      assert files[..i] == files;
    }

    /**
      `Persist`: one output file per letter group of the occurrence table
      enumerated in `order`, each holding its group's entries sorted by key.
      Every file reads back to exactly its group's entries: the keys are
      words, so no line has a space inside its key.
    */
    method Persist(order: seq<string>) returns (files: seq<Grouping.OutputFile>)
      requires Valid() && IsEnumeration(order, occurrences)
      ensures Grouping.Groupable(EntriesOf(occurrences, order))
      ensures files == Grouping.Persist(EntriesOf(occurrences, order))
      ensures |files| == |Grouping.LetterGroups(EntriesOf(occurrences, order))|
      ensures forall i :: 0 <= i < |files| ==>
        files[i].name == Grouping.LetterGroups(EntriesOf(occurrences, order))[i].key &&
        ParseLines(files[i].lines) == Some(Grouping.LetterGroups(EntriesOf(occurrences, order))[i].entries)
    {
      OccurrenceEntriesGroupable(Snapshot(), order);
      var es := EntriesOf(occurrences, order);
      var groups := Grouping.LetterGroups(es);
      files := WriteLetterGroups(groups);
      forall i | 0 <= i < |files|
        ensures files[i].name == groups[i].key && ParseLines(files[i].lines) == Some(groups[i].entries)
      {
        Grouping.PersistRoundTrip(es, i);
      }
    }

    /** `PersistExcludeStats`: one line per exclusion entry, in enumeration order. */
    method PersistExcludeStats(order: seq<string>) returns (lines: seq<string>)
      requires IsEnumeration(order, excluded)
      ensures lines == ToDisk(EntriesOf(excluded, order))
      ensures |lines| == |excluded|
      ensures forall k :: 0 <= k < |order| && HasNoSpace(order[k]) ==>
        ParseLine(lines[k]) == Some(Entry(order[k], excluded[order[k]]))
    {
      lines := ToDiskConcurrent(excluded, order);
    }
  }

  /** The tokens of one more piece of a line: its normalised form, unless that is empty. */
  lemma PieceStep(pieces: seq<string>, j: nat)
    requires j < |pieces| && forall k :: 0 <= k < |pieces| ==> AllWordChars(pieces[k])
    ensures PieceWords(pieces[..j + 1]) == PieceWords(pieces[..j]) + WordOf(pieces[j])
  {
    assert pieces[..j + 1] == pieces[..j] + [pieces[j]];
    PieceWordsAppend(pieces[..j], [pieces[j]]);
    assert PieceWords([pieces[j]]) == WordOf(pieces[j]);
  }

  /** The exclusion table after excluding one more word of a list. */
  lemma ExcludeStep(excluded: map<string, nat>, words: seq<string>, i: nat)
    requires i < |words|
    ensures ExcludeAll(excluded, words[..i + 1]) == ExcludeAll(excluded, words[..i])[Upper(words[i]) := 0]
  {
    ExcludeAllSnoc(excluded, words[..i], words[i]);
    assert words[..i + 1] == words[..i] + [words[i]];
  }

  /** The loop of `Persist`: each letter group, in order, written as one file by `ToDisk`. */
  method WriteLetterGroups(groups: seq<Grouping.LetterGroup>) returns (files: seq<Grouping.OutputFile>)
    ensures files == Grouping.WriteAll(groups)
  {
    ghost var target := Grouping.WriteAll(groups);
    files := [];
    var i := 0;
    while i < |groups|
      invariant 0 <= i <= |groups| == |target|
      invariant files == target[..i]
    {
      assert target[..i + 1] == target[..i] + [target[i]];
      files := files + [Grouping.OutputFile(groups[i].key, ToDisk(groups[i].entries))];
      i := i + 1;
    }
    assert target[..i] == target;
  }

  /** The tables after one more piece of a line. */
  lemma PiecesStep(t: Tables, pieces: seq<string>, j: nat)
    requires j < |pieces| && forall k :: 0 <= k < |pieces| ==> AllWordChars(pieces[k])
    ensures RecordAll(t, PieceWords(pieces[..j + 1])) ==
      RecordAll(RecordAll(t, PieceWords(pieces[..j])), WordOf(pieces[j]))
  {
    PieceStep(pieces, j);
    RecordAllAppend(t, PieceWords(pieces[..j]), WordOf(pieces[j]));
  }

  /** The tables after one more line of a file. */
  lemma FileStep(t: Tables, lines: seq<string>, i: nat)
    requires i < |lines|
    ensures RecordAll(t, FileWords(lines[..i + 1])) ==
      RecordAll(RecordAll(t, FileWords(lines[..i])), LineWords(lines[i]))
  {
    FileWordsSnoc(lines, i);
    RecordAllAppend(t, FileWords(lines[..i]), LineWords(lines[i]));
  }

  /** The tables after one more file. */
  lemma CorpusStep(t: Tables, files: seq<seq<string>>, i: nat)
    requires i < |files|
    ensures RecordAll(t, CorpusWords(files[..i + 1])) ==
      RecordAll(RecordAll(t, CorpusWords(files[..i])), FileWords(files[i]))
  {
    CorpusWordsAppend(files[..i], [files[i]]);
    assert CorpusWords([files[i]]) == FileWords(files[i]);
    assert files[..i + 1] == files[..i] + [files[i]];
    RecordAllAppend(t, CorpusWords(files[..i]), FileWords(files[i]));
  }

  /** Well-formed tables and an enumeration of the occurrence table give entries that can be grouped. */
  lemma OccurrenceEntriesGroupable(t: Tables, order: seq<string>)
    requires WellFormed(t) && IsEnumeration(order, t.occurrences)
    ensures Grouping.Groupable(EntriesOf(t.occurrences, order))
    ensures forall e :: e in EntriesOf(t.occurrences, order) ==> HasNoSpace(e.key)
  {
    forall e | e in EntriesOf(t.occurrences, order) ensures |e.key| >= 1 && HasNoSpace(e.key) {
      assert IsNormalWord(e.key);
      assert !IsWordChar(' ');
    }
  }
}
