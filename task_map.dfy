/** The ordered task map that both schedulers keep in a java.util.TreeMap:
    an instant (a raw timestamp, or a date-time counted in whole seconds)
    mapped to a task description. This module gives the TreeMap operations
    the schedulers use -- firstEntry, subMap and the ascending entrySet --
    their meaning, and proves what they promise. */
module TaskMap {

  /** One (key, value) pair of the map, as its entry set yields it. */
  datatype Entry = Entry(when: int, task: string)

  datatype Option<T> = None | Some(value: T)

  /** Outcome of a conflict-checked insert. */
  datatype AddOutcome = Added | Conflict

  /** Outcome of a removal by key: the removed description, or nothing found. */
  datatype RemoveOutcome = Removed(task: string) | NotFound

  /** The map holds exactly this pair. */
  ghost predicate Holds(m: map<int, string>, e: Entry)
  {
    e.when in m && m[e.when] == e.task
  }

  /** Keys strictly increase along the sequence (so no key appears twice). */
  ghost predicate Ascending(s: seq<Entry>)
  {
    forall i, j :: 0 <= i < j < |s| ==> s[i].when < s[j].when
  }

  /** s lists the entries of m, each once, in ascending key order. */
  ghost predicate Enumerates(s: seq<Entry>, m: map<int, string>)
  {
    Ascending(s) && forall e :: e in s <==> Holds(m, e)
  }

  lemma HasMember(keys: set<int>)
    requires keys != {}
    ensures exists y :: y in keys
  {
    if forall y :: y !in keys {
      assert false;
    }
  }

  lemma {:induction false} LeastExists(keys: set<int>)
    requires keys != {}
    ensures exists k :: k in keys && forall x :: x in keys ==> k <= x
    decreases |keys|
  {
    HasMember(keys);
    var y :| y in keys;
    var others := keys - {y};
    if others == {} {
      forall x | x in keys
        ensures y <= x
      {
        assert x !in others;
      }
    } else {
      LeastExists(others);
      var k :| k in others && forall x :: x in others ==> k <= x;
      var least := if y < k then y else k;
      forall x | x in keys
        ensures least <= x
      {
        if x != y {
          assert x in others;
        }
      }
      assert least in keys;
    }
  }

  /** The smallest key of a non-empty key set (TreeMap.firstKey). */
  function Least(keys: set<int>): (k: int)
    requires keys != {}
    ensures k in keys && forall x :: x in keys ==> k <= x
  {
    LeastExists(keys);
    var k :| k in keys && forall x :: x in keys ==> k <= x;
    k
  }

  /** The entries of m in ascending key order: what iterating TreeMap.entrySet yields. */
  function Listing(m: map<int, string>): seq<Entry>
    decreases |m|
  {
    if |m| == 0 then []
    else
      var k := Least(m.Keys);
      assert (m - {k}).Keys == m.Keys - {k};
      [Entry(k, m[k])] + Listing(m - {k})
  }

  /** The listing holds every entry of the map exactly once, in strictly
      ascending key order, and nothing else. */
  lemma {:induction false} ListingEnumerates(m: map<int, string>)
    ensures Enumerates(Listing(m), m)
    ensures |Listing(m)| == |m|
    decreases |m|
  {
    if |m| != 0 {
      var k := Least(m.Keys);
      var rest := m - {k};
      assert rest.Keys == m.Keys - {k};
      ListingEnumerates(rest);
      var tail := Listing(rest);
      var s := Listing(m);
      assert s == [Entry(k, m[k])] + tail;
      forall e
        ensures e in s <==> Holds(m, e)
      {
        if e in s && e != s[0] {
          assert e in tail;
        }
        if Holds(m, e) && e.when != k {
          assert Holds(rest, e);
        }
      }
      forall i, j | 0 <= i < j < |s|
        ensures s[i].when < s[j].when
      {
        assert s[j] == tail[j - 1];
        assert s[j] in tail;
        if i > 0 {
          assert s[i] == tail[i - 1];
        }
      }
    }
  }

  /** Every position of an enumeration holds an entry of the map. */
  lemma EnumeratedHold(s: seq<Entry>, m: map<int, string>)
    requires Enumerates(s, m)
    ensures forall i :: 0 <= i < |s| ==> Holds(m, s[i])
  {
    forall i | 0 <= i < |s|
      ensures Holds(m, s[i])
    {
      assert s[i] in s;
    }
  }

  /** The ascending enumeration is the only one: any sequence that lists the
      entries of m in strictly ascending key order is Listing(m). */
  lemma {:induction false} ListingUnique(m: map<int, string>, s: seq<Entry>)
    requires Enumerates(s, m)
    ensures s == Listing(m)
    decreases |m|
  {
    if |m| == 0 {
      EnumeratedHold(s, m);
    } else {
      var k := Least(m.Keys);
      var rest := m - {k};
      assert rest.Keys == m.Keys - {k};
      assert Holds(m, Entry(k, m[k]));
      assert Entry(k, m[k]) in s;
      var j :| 0 <= j < |s| && s[j] == Entry(k, m[k]);
      assert s[0] in s;
      assert Holds(m, s[0]);
      assert j == 0;
      var tail := s[1..];
      forall e
        ensures e in tail <==> Holds(rest, e)
      {
        if e in tail {
          var i :| 0 <= i < |tail| && tail[i] == e;
          assert e == s[i + 1];
          assert e in s;
          assert s[0] == Entry(k, m[k]);
          assert s[0].when < s[i + 1].when;
          assert Holds(m, e);
        }
        if Holds(rest, e) {
          assert Holds(m, e);
          assert e in s;
          var i :| 0 <= i < |s| && s[i] == e;
          assert i != 0;
          assert e == tail[i - 1];
        }
      }
      assert Ascending(tail) by {
        forall a, b | 0 <= a < b < |tail|
          ensures tail[a].when < tail[b].when
        {
          assert tail[a] == s[a + 1] && tail[b] == s[b + 1];
        }
      }
      ListingUnique(rest, tail);
      assert s == [s[0]] + tail;
    }
  }

  /** Whether a key lies between two bounds, each inclusive or exclusive. */
  predicate InBounds(k: int, from: int, fromInclusive: bool, to: int, toInclusive: bool)
  {
    (if fromInclusive then from <= k else from < k) &&
    (if toInclusive then k <= to else k < to)
  }

  /** TreeMap.subMap(from, fromInclusive, to, toInclusive): the entries whose
      key lies within the bounds. TreeMap.subMap throws when from > to, so
      the range queries require from <= to. */
  function SubMap(m: map<int, string>, from: int, fromInclusive: bool, to: int, toInclusive: bool): map<int, string>
    requires from <= to
  {
    map k | k in m && InBounds(k, from, fromInclusive, to, toInclusive) :: m[k]
  }

  /** Iterating a subMap yields exactly the entries of the map whose key lies
      within the bounds, in strictly ascending key order. */
  lemma RangeEnumerates(m: map<int, string>, from: int, fromInclusive: bool, to: int, toInclusive: bool)
    requires from <= to
    ensures Ascending(Listing(SubMap(m, from, fromInclusive, to, toInclusive)))
    ensures forall e :: e in Listing(SubMap(m, from, fromInclusive, to, toInclusive)) <==>
                        Holds(m, e) && InBounds(e.when, from, fromInclusive, to, toInclusive)
  {
    ListingEnumerates(SubMap(m, from, fromInclusive, to, toInclusive));
  }

  /** The first entry of the ascending listing is the entry with the least key. */
  lemma FirstIsLeast(m: map<int, string>)
    requires |m| != 0
    ensures Listing(m) != []
    ensures Listing(m)[0] == Entry(Least(m.Keys), m[Least(m.Keys)])
  {
    assert |m.Keys| == |m|;
  }

  /** One step of the ascending walk: the listing of a non-empty map is its
      least entry followed by the listing of the rest. */
  lemma ListingStep(m: map<int, string>, k: int)
    requires m.Keys != {} && k == Least(m.Keys)
    ensures |m - {k}| < |m|
    ensures Listing(m) == [Entry(k, m[k])] + Listing(m - {k})
  {
    assert (m - {k}).Keys == m.Keys - {k};
  }

  /** Walks the entry set in ascending key order, one entry after another,
      as the for-each loops over TreeMap.entrySet do. */
  method EntrySet(m: map<int, string>) returns (s: seq<Entry>)
    ensures s == Listing(m)
  {
    s := [];
    var rest := m;
    while |rest| != 0
      invariant s + Listing(rest) == Listing(m)
      decreases |rest|
    {
      assert |rest.Keys| == |rest|;
      var k := Least(rest.Keys);
      ListingStep(rest, k);
      assert s + Listing(rest) == (s + [Entry(k, rest[k])]) + Listing(rest - {k});
      s := s + [Entry(k, rest[k])];
      rest := rest - {k};
    }
    assert Listing(rest) == [];
  }
}
