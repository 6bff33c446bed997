/**
  Writing a dictionary to disk: one line `<key> <value>` per entry, in the
  order the entries are enumerated. The values are counters, rendered by
  `Count.ToString`, so a value is written as its decimal form.
*/
module DiskFormat {
  import opened Wrappers
  import Counter

  /** One dictionary entry: a word and its count. */
  datatype Entry = Entry(key: string, value: nat)

  predicate HasNoSpace(s: string) {
    forall i :: 0 <= i < |s| ==> s[i] != ' '
  }

  predicate DistinctKeys(entries: seq<Entry>) {
    forall i, j :: 0 <= i < j < |entries| ==> entries[i].key != entries[j].key
  }

  /** The line written for one entry: `$"{result.Key} {result.Value}"`. */
  function Line(e: Entry): string {
    e.key + " " + Counter.Decimal(e.value)
  }

  /** `ToDisk` on a `Dictionary`: the lines of the file, one per entry, in enumeration order. */
  function ToDisk(entries: seq<Entry>): (lines: seq<string>)
    ensures |lines| == |entries|
    ensures entries == [] ==> lines == []
    ensures forall k :: 0 <= k < |entries| ==> lines[k] == Line(entries[k])
    ensures forall k :: 0 <= k < |entries| && HasNoSpace(entries[k].key) ==>
      ParseLine(lines[k]) == Some(entries[k])
  {
    if entries == [] then []
    else
      LineRoundTrip(entries[0]);
      [Line(entries[0])] + ToDisk(entries[1..])
  }

  // ---------------------------------------------------------------------
  // Reading a line back

  /** The position of the first space in `s`, if any. */
  function FirstSpace(s: string): (r: Option<nat>)
    ensures r.Some? ==> r.value < |s| && s[r.value] == ' ' && HasNoSpace(s[..r.value])
    ensures r.None? ==> HasNoSpace(s)
  {
    if s == [] then None
    else if s[0] == ' ' then Some(0)
    else match FirstSpace(s[1..])
      case None => None
      case Some(i) =>
        assert s[..i + 1] == [s[0]] + s[1..][..i];
        Some(i + 1)
  }

  /** Splits a line at its first space into the key and the decimal value. */
  function ParseLine(line: string): Option<Entry> {
    match FirstSpace(line)
    case None => None
    case Some(i) =>
      var text := line[i + 1..];
      if text != [] && Counter.AllDigits(text) then Some(Entry(line[..i], Counter.ParseDecimal(text)))
      else None
  }

  /** The entries of a file, or `None` if some line is not of the form `<key> <value>`. */
  function ParseLines(lines: seq<string>): Option<seq<Entry>> {
    if lines == [] then Some([])
    else match (ParseLine(lines[0]), ParseLines(lines[1..]))
      case (Some(e), Some(es)) => Some([e] + es)
      case _ => None
  }

  lemma {:induction false} FirstSpaceAt(key: string, tail: string)
    requires HasNoSpace(key)
    ensures FirstSpace(key + " " + tail) == Some(|key|)
    decreases |key|
  {
    var s := key + " " + tail;
    if key != [] {
      assert s[1..] == key[1..] + " " + tail;
      FirstSpaceAt(key[1..], tail);
    }
  }

  /**
    For a key without spaces, which every token is, splitting a line at its
    first space recovers the key and the value.
  */
  lemma LineRoundTrip(e: Entry)
    ensures HasNoSpace(e.key) ==> ParseLine(Line(e)) == Some(e)
  {
    if HasNoSpace(e.key) {
      var line := Line(e);
      FirstSpaceAt(e.key, Counter.Decimal(e.value));
      assert line[..|e.key|] == e.key;
      assert line[|e.key| + 1..] == Counter.Decimal(e.value);
      Counter.DecimalRoundTrip(e.value);
    }
  }

  /** Reading a written file back gives exactly the entries written, none missing or extra, in order. */
  lemma {:induction false} ToDiskRoundTrip(entries: seq<Entry>)
    requires forall k :: 0 <= k < |entries| ==> HasNoSpace(entries[k].key)
    ensures ParseLines(ToDisk(entries)) == Some(entries)
  {
    if entries != [] {
      ToDiskRoundTrip(entries[1..]);
      var lines := ToDisk(entries);
      assert lines[1..] == ToDisk(entries[1..]);
      assert [entries[0]] + entries[1..] == entries;
    }
  }

  // ---------------------------------------------------------------------
  // The ConcurrentDictionary overload

  /**
    A listing of the keys of `m` in the order the dictionary enumerates them:
    every key exactly once. The runtime chooses the order.
  */
  predicate IsEnumeration(order: seq<string>, m: map<string, nat>) {
    && (forall i, j :: 0 <= i < j < |order| ==> order[i] != order[j])
    && (forall k :: k in m ==> k in order)
    && (forall i :: 0 <= i < |order| ==> order[i] in m)
  }

  /** The pairs of `m`, in the order `order` enumerates them. */
  function EntriesOf(m: map<string, nat>, order: seq<string>): (es: seq<Entry>)
    requires IsEnumeration(order, m)
    ensures |es| == |order| == |m| && DistinctKeys(es)
    ensures forall e :: e in es <==> e.key in m && m[e.key] == e.value
  {
    var es := seq(|order|, i requires 0 <= i < |order| => Entry(order[i], m[order[i]]));
    assert forall e :: e in es ==> e.key in m && m[e.key] == e.value;
    assert forall k :: k in m ==> Entry(k, m[k]) in es by {
      forall k | k in m ensures Entry(k, m[k]) in es {
        var i :| 0 <= i < |order| && order[i] == k;
        assert es[i] == Entry(k, m[k]);
      }
    }
    DistinctLength(order, m);
    es
  }

  lemma DistinctLength(order: seq<string>, m: map<string, nat>)
    requires IsEnumeration(order, m)
    ensures |order| == |m|
  {
    var keys := set i | 0 <= i < |order| :: order[i];
    assert keys == m.Keys;
    DistinctCard(order);
  }

  lemma {:induction false} DistinctCard(order: seq<string>)
    requires forall i, j :: 0 <= i < j < |order| ==> order[i] != order[j]
    ensures |set i | 0 <= i < |order| :: order[i]| == |order|
  {
    if order != [] {
      var last := |order| - 1;
      DistinctCard(order[..last]);
      var init := set i | 0 <= i < last :: order[..last][i];
      assert (set i | 0 <= i < |order| :: order[i]) == init + {order[last]};
      assert order[last] !in init;
    }
  }

  /**
    `ToDictionary(pair => pair.Key, x => x.Value)`: a copy of the pairs in
    the same order; it fails (an `ArgumentException`) on a duplicate key.
  */
  function ToDictionary(entries: seq<Entry>): (r: Option<seq<Entry>>)
  {
    if DistinctKeys(entries) then Some(entries) else None
  }

  /**
    Copying an enumerated dictionary never fails, because its keys are
    distinct, and keeps its pairs in enumeration order.
  */
  lemma CopyOfEnumeration(m: map<string, nat>, order: seq<string>)
    requires IsEnumeration(order, m)
    ensures ToDictionary(EntriesOf(m, order)) == Some(EntriesOf(m, order))
  {
  }

  /**
    `ToDisk` on a `ConcurrentDictionary`: the same lines as the `Dictionary`
    overload on a copy with the same pairs, so exactly one line per entry
    of `m`.
  */
  function ToDiskConcurrent(m: map<string, nat>, order: seq<string>): (lines: seq<string>)
    requires IsEnumeration(order, m)
    ensures |lines| == |m|
    ensures lines == ToDisk(EntriesOf(m, order))
    ensures forall k :: 0 <= k < |order| && HasNoSpace(order[k]) ==>
      ParseLine(lines[k]) == Some(Entry(order[k], m[order[k]]))
  {
    var copy := ToDictionary(EntriesOf(m, order));
    ToDisk(copy.value)
  }
}
