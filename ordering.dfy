/**
  Ordering a letter group by key (`OrderBy(x => x.Key)`): ordinal
  lexicographic order on strings, and a stable insertion sort of entries
  by key.
*/
module Ordering {
  import opened DiskFormat

  /** `a` sorts strictly before `b`: character by character, a proper prefix first. */
  predicate Less(a: string, b: string) {
    if b == [] then false
    else if a == [] then true
    else if a[0] != b[0] then a[0] < b[0]
    else Less(a[1..], b[1..])
  }

  lemma {:induction false} LessIrreflexive(a: string)
    ensures !Less(a, a)
  {
    if a != [] {
      LessIrreflexive(a[1..]);
    }
  }

  lemma {:induction false} LessAsymmetric(a: string, b: string)
    ensures Less(a, b) ==> !Less(b, a)
  {
    if a != [] && b != [] && a[0] == b[0] {
      LessAsymmetric(a[1..], b[1..]);
    }
  }

  lemma {:induction false} LessTransitive(a: string, b: string, c: string)
    requires Less(a, b) && Less(b, c)
    ensures Less(a, c)
  {
    if a != [] && a[0] == b[0] && b[0] == c[0] {
      LessTransitive(a[1..], b[1..], c[1..]);
    }
  }

  /** Two different strings are always ordered one way or the other. */
  lemma {:induction false} LessTotal(a: string, b: string)
    requires a != b
    ensures Less(a, b) || Less(b, a)
  {
    if a != [] && b != [] && a[0] == b[0] {
      assert a == [a[0]] + a[1..] && b == [b[0]] + b[1..];
      LessTotal(a[1..], b[1..]);
    }
  }

  /** Strictly ascending keys (and so no key twice). */
  predicate Ascending(s: seq<Entry>) {
    forall i, j :: 0 <= i < j < |s| ==> Less(s[i].key, s[j].key)
  }

  predicate KeyAbsent(k: string, s: seq<Entry>) {
    forall i :: 0 <= i < |s| ==> s[i].key != k
  }

  /** Puts `e` in front of the first entry whose key does not sort before its own. */
  function Insert(e: Entry, s: seq<Entry>): (r: seq<Entry>)
    ensures multiset(r) == multiset(s) + multiset{e}
    ensures Ascending(s) && KeyAbsent(e.key, s) ==> Ascending(r)
  {
    if s == [] then [e]
    else if Less(s[0].key, e.key) then
      var rest := Insert(e, s[1..]);
      assert s == [s[0]] + s[1..];
      InsertHead(s[0], e, s[1..], rest);
      [s[0]] + rest
    else
      InsertFront(e, s);
      [e] + s
  }

  lemma InsertHead(h: Entry, e: Entry, tail: seq<Entry>, rest: seq<Entry>)
    requires Less(h.key, e.key)
    requires multiset(rest) == multiset(tail) + multiset{e}
    ensures Ascending([h] + tail) && Ascending(rest) ==> Ascending([h] + rest)
  {
    if Ascending([h] + tail) && Ascending(rest) {
      forall j | 0 <= j < |rest| ensures Less(h.key, rest[j].key) {
        assert rest[j] in multiset(rest);
        if rest[j] != e {
          assert rest[j] in multiset(tail);
          var t :| 0 <= t < |tail| && tail[t] == rest[j];
          assert ([h] + tail)[0] == h && ([h] + tail)[t + 1] == tail[t];
        }
      }
    }
  }

  lemma InsertFront(e: Entry, s: seq<Entry>)
    requires s != [] && !Less(s[0].key, e.key)
    ensures Ascending(s) && KeyAbsent(e.key, s) ==> Ascending([e] + s)
  {
    if Ascending(s) && KeyAbsent(e.key, s) {
      LessTotal(e.key, s[0].key);
      forall j | 0 <= j < |s| ensures Less(e.key, s[j].key) {
        if j > 0 {
          LessTransitive(e.key, s[0].key, s[j].key);
        }
      }
    }
  }

  /** `OrderBy(x => x.Key)`: the same entries, ascending by key when no key occurs twice. */
  function SortByKey(s: seq<Entry>): (r: seq<Entry>)
    ensures multiset(r) == multiset(s)
    ensures DistinctKeys(s) ==> Ascending(r)
  {
    if s == [] then []
    else
      var rest := SortByKey(s[1..]);
      assert s == [s[0]] + s[1..];
      if DistinctKeys(s) then
        assert DistinctKeys(s[1..]);
        forall i | 0 <= i < |rest| ensures rest[i].key != s[0].key {
          assert rest[i] in multiset(s[1..]);
          var t :| 0 <= t < |s[1..]| && s[1..][t] == rest[i];
          assert s[t + 1] == rest[i];
        }
        Insert(s[0], rest)
      else
        Insert(s[0], rest)
  }

  /** The first of an ascending arrangement is the one whose key sorts first, so both agree on it. */
  lemma AscendingHeads(a: seq<Entry>, b: seq<Entry>)
    requires Ascending(a) && Ascending(b) && a != []
    requires forall e :: e in a <==> e in b
    ensures b != [] && a[0] == b[0]
  {
    assert a[0] in b;
    var j :| 0 <= j < |b| && b[j] == a[0];
    assert b[0] in a;
    var i :| 0 <= i < |a| && a[i] == b[0];
    if i != 0 && j != 0 {
      assert Less(a[0].key, b[0].key) && Less(b[0].key, a[0].key);
      LessAsymmetric(a[0].key, b[0].key);
    }
  }

  /**
    Entries ascending by key are determined by which entries they hold: two
    ascending arrangements of the same entries are the same sequence.
  */
  lemma {:induction false} AscendingUnique(a: seq<Entry>, b: seq<Entry>)
    requires Ascending(a) && Ascending(b)
    requires forall e :: e in a <==> e in b
    ensures a == b
  {
    if a != [] {
      AscendingHeads(a, b);
      assert a == [a[0]] + a[1..] && b == [b[0]] + b[1..];
      forall e ensures e in a[1..] <==> e in b[1..] {
        if e in a[1..] {
          var i :| 0 <= i < |a[1..]| && a[1..][i] == e;
          assert Less(a[0].key, a[i + 1].key);
          LessIrreflexive(a[0].key);
          assert e in b && e != b[0];
        }
        if e in b[1..] {
          var i :| 0 <= i < |b[1..]| && b[1..][i] == e;
          assert Less(b[0].key, b[i + 1].key);
          LessIrreflexive(b[0].key);
          assert e in a && e != a[0];
        }
      }
      AscendingUnique(a[1..], b[1..]);
      assert a == [a[0]] + a[1..] && b == [b[0]] + b[1..];
    } else {
      forall e ensures e !in multiset(b) {
        assert e in multiset(b) <==> e in b;
      }
      assert multiset(b) == multiset{};
      assert |b| == |multiset(b)| == 0;
    }
  }
}
