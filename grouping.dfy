/**
  Shaping the occurrence table for output (`Persist`): the entries, in the
  order the dictionary enumerates them, are grouped by the first character
  of their key (`GroupBy(pair => pair.Key[..1])`), each group is ordered by
  key (`OrderBy(x => x.Key)`) and written as one file of lines
  `<key> <value>`, named after the group's key.
*/
module Grouping {
  import opened Wrappers
  import opened DiskFormat
  import opened Ordering

  /** Every key has a first character, so `Key[..1]` is defined. */
  predicate Groupable(es: seq<Entry>) {
    forall e :: e in es ==> |e.key| >= 1
  }

  /** The grouping key of an entry: the first character of its key. */
  function GroupKey(e: Entry): (k: string)
    requires |e.key| >= 1
    ensures |k| == 1 && k[0] == e.key[0]
  {
    e.key[..1]
  }

  /** The group keys of `es`, each once, in the order the groups first appear. */
  function GroupKeys(es: seq<Entry>): (gs: seq<string>)
    requires Groupable(es)
    ensures forall i, j :: 0 <= i < j < |gs| ==> gs[i] != gs[j]
    ensures forall e :: e in es ==> GroupKey(e) in gs
    ensures forall g :: g in gs ==> exists e :: e in es && GroupKey(e) == g
    decreases |es|
  {
    if es == [] then []
    else
      var init, last := es[..|es| - 1], es[|es| - 1];
      assert es == init + [last];
      var ks := GroupKeys(init);
      if GroupKey(last) in ks then ks else ks + [GroupKey(last)]
  }

  /** The members of group `g`, in enumeration order (`GroupBy` keeps it). */
  function Members(es: seq<Entry>, g: string): (r: seq<Entry>)
    requires Groupable(es)
    ensures forall e :: e in r <==> e in es && GroupKey(e) == g
    ensures DistinctKeys(es) ==> DistinctKeys(r)
  {
    if es == [] then []
    else
      var rest := Members(es[1..], g);
      assert es == [es[0]] + es[1..];
      if GroupKey(es[0]) == g then
        assert forall j :: 0 <= j < |rest| ==> rest[j] in es[1..];
        [es[0]] + rest
      else
        rest
  }

  /** One letter group: its key and its entries in output order. */
  datatype LetterGroup = LetterGroup(key: string, entries: seq<Entry>)

  /** The letter groups of `es`, in the order their keys first appear, each ordered by key. */
  function LetterGroups(es: seq<Entry>): (groups: seq<LetterGroup>)
    requires Groupable(es)
    ensures |groups| == |GroupKeys(es)|
    ensures forall i :: 0 <= i < |groups| ==>
      groups[i].key == GroupKeys(es)[i] &&
      multiset(groups[i].entries) == multiset(Members(es, groups[i].key))
  {
    var gs := GroupKeys(es);
    seq(|gs|, i requires 0 <= i < |gs| => LetterGroup(gs[i], SortByKey(Members(es, gs[i]))))
  }

  // ---------------------------------------------------------------------
  // The letter groups partition the entries

  /** The `i`-th letter group, spelled out. */
  lemma LetterGroupAt(es: seq<Entry>, i: nat)
    requires Groupable(es) && i < |GroupKeys(es)|
    ensures |LetterGroups(es)| == |GroupKeys(es)|
    ensures LetterGroups(es)[i] == LetterGroup(GroupKeys(es)[i], SortByKey(Members(es, GroupKeys(es)[i])))
  {
  }

  /** No two letter groups share a key. */
  lemma LetterGroupKeysDistinct(es: seq<Entry>)
    requires Groupable(es)
    ensures forall i, j :: 0 <= i < j < |LetterGroups(es)| ==> LetterGroups(es)[i].key != LetterGroups(es)[j].key
  {
    forall i, j | 0 <= i < j < |LetterGroups(es)|
      ensures LetterGroups(es)[i].key != LetterGroups(es)[j].key
    {
      LetterGroupAt(es, i);
      LetterGroupAt(es, j);
    }
  }

  /** Every entry has a group: the one keyed by the first character of its key. */
  lemma LetterGroupsCover(es: seq<Entry>, e: Entry)
    requires Groupable(es) && e in es
    ensures exists i :: 0 <= i < |LetterGroups(es)| && LetterGroups(es)[i].key == GroupKey(e)
  {
    var gs := GroupKeys(es);
    var i :| 0 <= i < |gs| && gs[i] == GroupKey(e);
    LetterGroupAt(es, i);
  }

  /**
    A group holds exactly the entries whose key starts with the group's key
    (so an entry is in no other group), in ascending key order when the
    keys are distinct, as they are in a dictionary.
  */
  lemma LetterGroupContents(es: seq<Entry>, i: nat, e: Entry)
    requires Groupable(es) && i < |LetterGroups(es)|
    ensures e in LetterGroups(es)[i].entries <==> e in es && GroupKey(e) == LetterGroups(es)[i].key
    ensures DistinctKeys(es) ==> Ascending(LetterGroups(es)[i].entries)
  {
    LetterGroupAt(es, i);
    var sorted := SortByKey(Members(es, GroupKeys(es)[i]));
    assert e in sorted <==> e in multiset(sorted);
  }

  /** One output file: the group key that names it and its lines. */
  datatype OutputFile = OutputFile(name: string, lines: seq<string>)

  /** `Persist`: one file per letter group, its lines written by `ToDisk`. */
  function Persist(es: seq<Entry>): (files: seq<OutputFile>)
    requires Groupable(es)
    ensures |files| == |LetterGroups(es)|
    ensures forall i :: 0 <= i < |files| ==> files[i].name == LetterGroups(es)[i].key
  {
    WriteAll(LetterGroups(es))
  }

  /** The file written for each group, in order. */
  function WriteAll(groups: seq<LetterGroup>): (files: seq<OutputFile>)
    ensures |files| == |groups|
    ensures forall i :: 0 <= i < |files| ==>
      files[i].name == groups[i].key && |files[i].lines| == |groups[i].entries|
  {
    seq(|groups|, i requires 0 <= i < |groups| => OutputFile(groups[i].key, ToDisk(groups[i].entries)))
  }

  lemma PersistAt(es: seq<Entry>, i: nat)
    requires Groupable(es) && i < |LetterGroups(es)|
    ensures |Persist(es)| == |LetterGroups(es)|
    ensures Persist(es)[i] == OutputFile(LetterGroups(es)[i].key, ToDisk(LetterGroups(es)[i].entries))
  {
  }

  /**
    One file per letter group, named after the group's key; reading a
    written group file back recovers exactly the entries of that group, in
    ascending key order.
  */
  lemma PersistRoundTrip(es: seq<Entry>, i: nat)
    requires Groupable(es) && i < |LetterGroups(es)|
    requires forall e :: e in es ==> HasNoSpace(e.key)
    ensures |Persist(es)| == |LetterGroups(es)|
    ensures Persist(es)[i].name == LetterGroups(es)[i].key
    ensures ParseLines(Persist(es)[i].lines) == Some(LetterGroups(es)[i].entries)
  {
    PersistAt(es, i);
    var g := LetterGroups(es)[i].entries;
    forall k | 0 <= k < |g| ensures HasNoSpace(g[k].key) {
      LetterGroupContents(es, i, g[k]);
    }
    ToDiskRoundTrip(g);
  }

  // ---------------------------------------------------------------------
  // The files do not depend on the enumeration order

  /** The lines of the file named `name`, if there is one. */
  function Lookup(files: seq<OutputFile>, name: string): Option<seq<string>> {
    if files == [] then None
    else if files[0].name == name then Some(files[0].lines)
    else Lookup(files[1..], name)
  }

  lemma {:induction false} LookupAt(files: seq<OutputFile>, name: string)
    requires forall i, j :: 0 <= i < j < |files| ==> files[i].name != files[j].name
    ensures forall i :: 0 <= i < |files| && files[i].name == name ==> Lookup(files, name) == Some(files[i].lines)
    ensures (forall i :: 0 <= i < |files| ==> files[i].name != name) ==> Lookup(files, name) == None
  {
    if files != [] {
      LookupAt(files[1..], name);
      forall i | 1 <= i < |files| ensures files[i] == files[1..][i - 1] {
      }
    }
  }

  /** The file for group `g`: the sorted members of the group, if it has any. */
  lemma LookupPersist(es: seq<Entry>, g: string)
    requires Groupable(es)
    ensures Lookup(Persist(es), g) ==
      if g in GroupKeys(es) then Some(ToDisk(SortByKey(Members(es, g)))) else None
  {
    var files := Persist(es);
    LookupAt(files, g);
    if g in GroupKeys(es) {
      var i :| 0 <= i < |GroupKeys(es)| && GroupKeys(es)[i] == g;
      assert files[i].name == g;
    }
  }

  /** Entry sequences holding the same entries have the same group keys. */
  lemma SameGroupKeys(es1: seq<Entry>, es2: seq<Entry>, g: string)
    requires Groupable(es1) && Groupable(es2)
    requires forall e :: e in es1 <==> e in es2
    ensures g in GroupKeys(es1) <==> g in GroupKeys(es2)
  {
    if g in GroupKeys(es1) {
      var e :| e in es1 && GroupKey(e) == g;
      assert e in es2;
    }
    if g in GroupKeys(es2) {
      var e :| e in es2 && GroupKey(e) == g;
      assert e in es1;
    }
  }

  /**
    Entry sequences holding the same entries, no key twice, give each group
    the same sorted members, whatever order they list the entries in.
  */
  lemma SameSortedMembers(es1: seq<Entry>, es2: seq<Entry>, g: string)
    requires Groupable(es1) && Groupable(es2) && DistinctKeys(es1) && DistinctKeys(es2)
    requires forall e :: e in es1 <==> e in es2
    ensures SortByKey(Members(es1, g)) == SortByKey(Members(es2, g))
  {
    var s1, s2 := SortByKey(Members(es1, g)), SortByKey(Members(es2, g));
    forall e ensures e in s1 <==> e in s2 {
      assert e in s1 <==> e in multiset(s1);
      assert e in s2 <==> e in multiset(s2);
    }
    AscendingUnique(s1, s2);
  }

  /**
    Two enumerations of the same occurrence table give the same files: every
    group file has the same lines whatever order the dictionary enumerated
    its entries in.
  */
  lemma PersistOrderIndependent(m: map<string, nat>, order1: seq<string>, order2: seq<string>, g: string)
    requires IsEnumeration(order1, m) && IsEnumeration(order2, m)
    requires forall k :: k in m ==> |k| >= 1
    ensures Groupable(EntriesOf(m, order1)) && Groupable(EntriesOf(m, order2))
    ensures Lookup(Persist(EntriesOf(m, order1)), g) == Lookup(Persist(EntriesOf(m, order2)), g)
  {
    var es1, es2 := EntriesOf(m, order1), EntriesOf(m, order2);
    assert forall e :: e in es1 <==> e in es2;
    LookupPersist(es1, g);
    LookupPersist(es2, g);
    SameGroupKeys(es1, es2, g);
    SameSortedMembers(es1, es2, g);
  }
}
