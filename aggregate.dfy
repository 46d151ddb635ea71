/** The aggregates over the activity log: `getTotalTime` (script.js:182-184) and
    `getBreakdown` (script.js:186-199). */
module Aggregate {

  import opened Activity

  /** `activities.reduce((total, a) => total + a.duration, 0)`: a left fold. */
  function Total(rs: seq<Record>): (t: int)
    ensures (forall k :: 0 <= k < |rs| ==> rs[k].duration >= 0) ==> t >= 0
  {
    if rs == [] then 0 else Total(rs[..|rs| - 1]) + rs[|rs| - 1].duration
  }

  /** The total of a log is the total of its two parts. */
  lemma {:induction false} TotalAppend(a: seq<Record>, b: seq<Record>)
    ensures Total(a + b) == Total(a) + Total(b)
  {
    if b == [] {
      assert a + b == a;
    } else {
      assert (a + b)[..|a + b| - 1] == a + b[..|b| - 1];
      TotalAppend(a, b[..|b| - 1]);
    }
  }

  /** The summed duration of the records named exactly `n`. */
  function NameTotal(rs: seq<Record>, n: string): int {
    if rs == [] then 0
    else NameTotal(rs[..|rs| - 1], n) + (if rs[|rs| - 1].name == n then rs[|rs| - 1].duration else 0)
  }

  predicate Occurs(rs: seq<Record>, n: string) {
    exists k :: 0 <= k < |rs| && rs[k].name == n
  }

  /** A name occurs in a longer log when it occurs earlier or is the new record's. */
  lemma OccursSnoc(rs: seq<Record>, r: Record)
    ensures forall n :: Occurs(rs + [r], n) <==> Occurs(rs, n) || r.name == n
  {
    forall n ensures Occurs(rs + [r], n) <==> Occurs(rs, n) || r.name == n {
      if Occurs(rs, n) {
        var k :| 0 <= k < |rs| && rs[k].name == n;
        assert (rs + [r])[k] == rs[k];
      }
      if Occurs(rs + [r], n) && r.name != n {
        var k :| 0 <= k < |rs + [r]| && (rs + [r])[k].name == n;
        assert rs[k] == (rs + [r])[k];
      }
      if r.name == n {
        assert (rs + [r])[|rs|] == r;
      }
    }
  }

  /** A name no record carries has spent no time. */
  lemma {:induction false} NameTotalAbsent(rs: seq<Record>, n: string)
    requires !Occurs(rs, n)
    ensures NameTotal(rs, n) == 0
  {
    if rs != [] {
      OccursSnoc(rs[..|rs| - 1], rs[|rs| - 1]);
      assert rs[..|rs| - 1] + [rs[|rs| - 1]] == rs;
      NameTotalAbsent(rs[..|rs| - 1], n);
    }
  }

  /** One line of the breakdown: a name and the time spent on it. */
  datatype Entry = Entry(name: string, duration: int)

  predicate DistinctNames(es: seq<Entry>) {
    forall i, j :: 0 <= i < j < |es| ==> es[i].name != es[j].name
  }

  predicate Distinct(ns: seq<string>) {
    forall i, j :: 0 <= i < j < |ns| ==> ns[i] != ns[j]
  }

  /** Non-increasing by duration. */
  predicate Descending(es: seq<Entry>) {
    forall i, j :: 0 <= i < j < |es| ==> es[i].duration >= es[j].duration
  }

  function EntriesTotal(es: seq<Entry>): int {
    if es == [] then 0 else es[0].duration + EntriesTotal(es[1..])
  }

  /** The group of each name in `ns`, in that order. */
  function Groups(ns: seq<string>, rs: seq<Record>): seq<Entry>
  {
    seq(|ns|, k requires 0 <= k < |ns| => Entry(ns[k], NameTotal(rs, ns[k])))
  }

  /** Adding one record to the log adds its duration to the groups' sum once, when
      its name is one of the (distinct) group names, and not at all otherwise. */
  lemma {:induction false} GroupsStep(ns: seq<string>, rs: seq<Record>, r: Record)
    requires Distinct(ns)
    ensures EntriesTotal(Groups(ns, rs + [r])) == EntriesTotal(Groups(ns, rs)) + (if r.name in ns then r.duration else 0)
  {
    assert (rs + [r])[..|rs|] == rs;
    if ns != [] {
      assert Groups(ns, rs + [r])[1..] == Groups(ns[1..], rs + [r]);
      assert Groups(ns, rs)[1..] == Groups(ns[1..], rs);
      assert ns == [ns[0]] + ns[1..];
      GroupsStep(ns[1..], rs, r);
    }
  }

  /** Over an empty log every group is empty. */
  lemma {:induction false} GroupsOfNothing(ns: seq<string>)
    ensures EntriesTotal(Groups(ns, [])) == 0
  {
    if ns != [] {
      assert Groups(ns, [])[1..] == Groups(ns[1..], []);
      GroupsOfNothing(ns[1..]);
    }
  }

  /** Distinct names that cover every record split the total exactly: the groups'
      durations sum to the log's total. */
  lemma {:induction false} GroupsCoverTotal(ns: seq<string>, rs: seq<Record>)
    requires Distinct(ns)
    requires forall k :: 0 <= k < |rs| ==> rs[k].name in ns
    ensures EntriesTotal(Groups(ns, rs)) == Total(rs)
  {
    if rs == [] {
      GroupsOfNothing(ns);
    } else {
      var init, last := rs[..|rs| - 1], rs[|rs| - 1];
      assert rs == init + [last];
      GroupsCoverTotal(ns, init);
      GroupsStep(ns, init, last);
    }
  }

  /** Places `e` before the first entry it is not shorter than. Placing it before
      equal entries keeps a stable order, as `Array.prototype.sort` does. */
  function Insert(e: Entry, s: seq<Entry>): (r: seq<Entry>)
    ensures |r| == |s| + 1
    ensures multiset(r) == multiset(s) + multiset{e}
    ensures EntriesTotal(r) == e.duration + EntriesTotal(s)
  {
    if s == [] || e.duration >= s[0].duration then [e] + s
    else
      assert s == [s[0]] + s[1..];
      [s[0]] + Insert(e, s[1..])
  }

  /** Every entry of an insertion is the inserted one or was already there. */
  lemma InsertMember(e: Entry, s: seq<Entry>, x: Entry)
    requires x in Insert(e, s)
    ensures x == e || x in s
  {
    assert x in multiset(Insert(e, s));
  }

  /** Inserting into a non-increasing sequence keeps it non-increasing. */
  lemma {:induction false} InsertDescending(e: Entry, s: seq<Entry>)
    requires Descending(s)
    ensures Descending(Insert(e, s))
  {
    if s != [] && e.duration < s[0].duration {
      InsertDescending(e, s[1..]);
      var t := Insert(e, s[1..]);
      forall x | x in t ensures s[0].duration >= x.duration {
        InsertMember(e, s[1..], x);
        if x != e {
          var j :| 0 <= j < |s[1..]| && s[1..][j] == x;
          assert s[j + 1] == x;
        }
      }
      DescendingCons(s[0], t);
    }
  }

  /** An entry at least as long as every entry of a non-increasing sequence can
      head it. */
  lemma DescendingCons(h: Entry, t: seq<Entry>)
    requires Descending(t)
    requires forall x :: x in t ==> h.duration >= x.duration
    ensures Descending([h] + t)
  {
    forall i, j | 0 <= i < j < |t| + 1 ensures ([h] + t)[i].duration >= ([h] + t)[j].duration {
      if i == 0 {
        assert ([h] + t)[j] == t[j - 1];
        assert t[j - 1] in t;
      }
    }
  }

  /** Inserting an entry with a fresh name keeps the names distinct. */
  lemma {:induction false} InsertDistinct(e: Entry, s: seq<Entry>)
    requires DistinctNames(s)
    requires forall x :: x in s ==> x.name != e.name
    ensures DistinctNames(Insert(e, s))
  {
    if s != [] && e.duration < s[0].duration {
      InsertDistinct(e, s[1..]);
      var t := Insert(e, s[1..]);
      forall x | x in t ensures s[0].name != x.name {
        InsertMember(e, s[1..], x);
        if x == e {
          assert s[0] in s;
        } else {
          var j :| 0 <= j < |s[1..]| && s[1..][j] == x;
          assert s[j + 1] == x;
        }
      }
      DistinctCons(s[0], t);
    }
  }

  /** An entry whose name no entry of a sequence with distinct names carries can
      head it. */
  lemma DistinctCons(h: Entry, t: seq<Entry>)
    requires DistinctNames(t)
    requires forall x :: x in t ==> h.name != x.name
    ensures DistinctNames([h] + t)
  {
    forall i, j | 0 <= i < j < |t| + 1 ensures ([h] + t)[i].name != ([h] + t)[j].name {
      if i == 0 {
        assert ([h] + t)[j] == t[j - 1];
        assert t[j - 1] in t;
      }
    }
  }

  /** `.sort((a, b) => b.duration - a.duration)`: a stable sort into non-increasing
      duration that permutes its input. */
  function SortByDuration(es: seq<Entry>): (r: seq<Entry>)
    ensures |r| == |es| && multiset(r) == multiset(es)
    ensures Descending(r)
    ensures EntriesTotal(r) == EntriesTotal(es)
  {
    if es == [] then []
    else
      var t := SortByDuration(es[1..]);
      assert es == [es[0]] + es[1..];
      InsertDescending(es[0], t);
      Insert(es[0], t)
  }

  /** Sorting keeps the names distinct. */
  lemma {:induction false} SortDistinct(es: seq<Entry>)
    requires DistinctNames(es)
    ensures DistinctNames(SortByDuration(es))
  {
    if es != [] {
      var t := SortByDuration(es[1..]);
      SortDistinct(es[1..]);
      forall x | x in t ensures x.name != es[0].name {
        assert x in multiset(es[1..]);
      }
      InsertDistinct(es[0], t);
    }
  }

  function Names(es: seq<Entry>): set<string> {
    set e | e in es :: e.name
  }

  /** The breakdown of a log, from its distinct names in any order: sorting their
      groups gives distinct, covering, correctly summed, non-increasing entries. */
  lemma SortedGroups(keys: seq<string>, rs: seq<Record>)
    requires Distinct(keys)
    requires forall n :: n in keys <==> Occurs(rs, n)
    ensures var entries := SortByDuration(Groups(keys, rs));
      && DistinctNames(entries)
      && (forall e :: e in entries ==> Occurs(rs, e.name) && e.duration == NameTotal(rs, e.name))
      && (forall k :: 0 <= k < |rs| ==> rs[k].name in Names(entries))
      && EntriesTotal(entries) == Total(rs)
  {
    var groups := Groups(keys, rs);
    forall k | 0 <= k < |rs| ensures rs[k].name in keys {
      assert Occurs(rs, rs[k].name);
    }
    GroupsCoverTotal(keys, rs);
    assert DistinctNames(groups);
    SortDistinct(groups);
    SortedGroupsSound(keys, rs);
    SortedGroupsCover(keys, rs);
  }

  /** Every sorted group is a name of the log with its group sum. */
  lemma SortedGroupsSound(keys: seq<string>, rs: seq<Record>)
    requires forall n :: n in keys <==> Occurs(rs, n)
    ensures forall e :: e in SortByDuration(Groups(keys, rs)) ==> Occurs(rs, e.name) && e.duration == NameTotal(rs, e.name)
  {
    var groups := Groups(keys, rs);
    var entries := SortByDuration(groups);
    forall e | e in entries ensures Occurs(rs, e.name) && e.duration == NameTotal(rs, e.name) {
      assert e in multiset(groups);
    }
  }

  /** Every record's name has a sorted group. */
  lemma SortedGroupsCover(keys: seq<string>, rs: seq<Record>)
    requires forall n :: n in keys <==> Occurs(rs, n)
    ensures forall k :: 0 <= k < |rs| ==> rs[k].name in Names(SortByDuration(Groups(keys, rs)))
  {
    var groups := Groups(keys, rs);
    var entries := SortByDuration(groups);
    forall k | 0 <= k < |rs| ensures rs[k].name in Names(entries) {
      assert Occurs(rs, rs[k].name);
      var j :| 0 <= j < |keys| && keys[j] == rs[k].name;
      assert groups[j] in multiset(entries);
    }
  }

  /** `getBreakdown()`: one entry per distinct activity name, holding the summed
      duration of the records with exactly that name, sorted by non-increasing
      duration; the entries' durations add up to the total. */
  method Breakdown(activities: seq<Record>) returns (entries: seq<Entry>)
    ensures DistinctNames(entries)
    ensures forall e :: e in entries ==> Occurs(activities, e.name) && e.duration == NameTotal(activities, e.name)
    ensures forall k :: 0 <= k < |activities| ==> activities[k].name in Names(entries)
    ensures Descending(entries)
    ensures EntriesTotal(entries) == Total(activities)
  {
    var breakdown: map<string, int> := map[];
    var keys: seq<string> := [];  // the object's keys, in insertion order
    var i := 0;
    while i < |activities|
      invariant 0 <= i <= |activities|
      invariant Distinct(keys)
      invariant forall n :: n in breakdown <==> n in keys
      invariant forall n :: n in keys <==> Occurs(activities[..i], n)
      invariant forall n :: n in breakdown ==> breakdown[n] == NameTotal(activities[..i], n)
    {
      var a := activities[i];
      assert activities[..i + 1] == activities[..i] + [a];
      assert activities[..i + 1][..i] == activities[..i];
      assert forall n :: NameTotal(activities[..i + 1], n) == NameTotal(activities[..i], n) + (if a.name == n then a.duration else 0);
      OccursSnoc(activities[..i], a);
      if a.name !in breakdown {
        NameTotalAbsent(activities[..i], a.name);
      }
      if a.name !in breakdown || breakdown[a.name] == 0 {
        if a.name !in breakdown {
          keys := keys + [a.name];
        }
        breakdown := breakdown[a.name := 0];
      }
      breakdown := breakdown[a.name := breakdown[a.name] + a.duration];
      i := i + 1;
    }
    assert activities[..i] == activities;
    var unsorted := seq(|keys|, k requires 0 <= k < |keys| => Entry(keys[k], breakdown[keys[k]]));
    assert unsorted == Groups(keys, activities);
    entries := SortByDuration(unsorted);
    SortedGroups(keys, activities);
  }
}
