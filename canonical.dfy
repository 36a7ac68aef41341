/**
 * `json.loads(json.dumps(config, sort_keys=True))`: the same tree with every
 * dict's keys in ascending order, so that the differ walks it in a
 * canonical order.
 */
module Canonical {
  import opened Text
  import opened Nodes

  predicate StrictlySorted(es: Entries) {
    forall i, j | 0 <= i < j < |es| :: Less(es[i].0, es[j].0)
  }

  /** The keys of a strictly sorted list are unique. */
  lemma SortedUnique(es: Entries)
    requires StrictlySorted(es)
    ensures UniqueKeys(es)
  {
    forall i, j | 0 <= i < j < |es| ensures es[i].0 != es[j].0 {
      if es[i].0 == es[j].0 { LessIrreflexive(es[i].0); }
    }
  }

  /** One step of insertion sort, by key. */
  function Insert(e: (string, Node), es: Entries): (r: Entries)
    ensures multiset(r) == multiset(es) + multiset{e}
    ensures |r| == |es| + 1
  {
    if es == [] then [e]
    else if Less(e.0, es[0].0) then [e] + es
    else
      assert es == [es[0]] + es[1..];
      [es[0]] + Insert(e, es[1..])
  }

  /** Every key of `es` is above `k`. */
  predicate Above(k: string, es: Entries) {
    forall j | 0 <= j < |es| :: Less(k, es[j].0)
  }

  lemma SortedTail(es: Entries)
    requires StrictlySorted(es) && es != []
    ensures StrictlySorted(es[1..]) && Above(es[0].0, es[1..])
  {
    var rest := es[1..];
    forall i, j | 0 <= i < j < |rest| ensures Less(rest[i].0, rest[j].0) {
      assert rest[i] == es[i + 1] && rest[j] == es[j + 1];
    }
    forall j | 0 <= j < |rest| ensures Less(es[0].0, rest[j].0) {
      assert rest[j] == es[j + 1];
    }
  }

  lemma ConsSorted(x: (string, Node), tail: Entries)
    requires StrictlySorted(tail) && Above(x.0, tail)
    ensures StrictlySorted([x] + tail)
  {
    var r := [x] + tail;
    forall i, j | 0 <= i < j < |r| ensures Less(r[i].0, r[j].0) {
      assert r[j] == tail[j - 1];
      if i > 0 { assert r[i] == tail[i - 1]; }
    }
  }

  lemma InsertAbove(k: string, e: (string, Node), es: Entries)
    requires Above(k, es) && Less(k, e.0)
    ensures Above(k, Insert(e, es))
  {
    var r := Insert(e, es);
    forall j | 0 <= j < |r| ensures Less(k, r[j].0) {
      assert r[j] in multiset(r);
      if r[j] != e {
        assert r[j] in multiset(es);
        var m :| 0 <= m < |es| && es[m] == r[j];
      }
    }
  }

  lemma NotInTail(es: Entries, k: string)
    requires es != [] && k !in Keys(es)
    ensures k !in Keys(es[1..])
  {
    var rest := es[1..];
    KeysAt(rest, k);
    KeysAt(es, k);
    forall i | 0 <= i < |rest| ensures rest[i].0 != k {
      assert rest[i] == es[i + 1];
    }
  }

  lemma {:induction false} InsertSorted(e: (string, Node), es: Entries)
    requires StrictlySorted(es) && e.0 !in Keys(es)
    ensures StrictlySorted(Insert(e, es))
    decreases |es|
  {
    if es == [] {
    } else if Less(e.0, es[0].0) {
      forall j | 0 <= j < |es| ensures Less(e.0, es[j].0) {
        if j > 0 { LessTransitive(e.0, es[0].0, es[j].0); }
      }
      ConsSorted(e, es);
    } else {
      KeysAt(es, e.0);
      assert es[0].0 != e.0;
      LessTotal(e.0, es[0].0);
      var rest := es[1..];
      SortedTail(es);
      NotInTail(es, e.0);
      InsertSorted(e, rest);
      InsertAbove(es[0].0, e, rest);
      ConsSorted(es[0], Insert(e, rest));
    }
  }

  function SortEntries(es: Entries): (r: Entries)
    ensures multiset(r) == multiset(es)
    ensures |r| == |es|
  {
    if es == [] then []
    else
      assert es == [es[0]] + es[1..];
      Insert(es[0], SortEntries(es[1..]))
  }

  /** Entries with the same multiset have the same members. */
  lemma SameMembers(a: Entries, b: Entries)
    requires multiset(a) == multiset(b)
    ensures forall e :: e in a <==> e in b
  {
    forall e ensures e in a <==> e in b {
      assert e in a <==> e in multiset(a);
      assert e in b <==> e in multiset(b);
    }
  }

  lemma {:induction false} SortEntriesSorted(es: Entries)
    requires UniqueKeys(es)
    ensures StrictlySorted(SortEntries(es))
    decreases |es|
  {
    if es != [] {
      var rest := es[1..];
      assert UniqueKeys(rest) by {
        forall i, j | 0 <= i < j < |rest| ensures rest[i].0 != rest[j].0 {
          assert rest[i] == es[i + 1] && rest[j] == es[j + 1];
        }
      }
      SortEntriesSorted(rest);
      var sorted := SortEntries(rest);
      SameMembers(sorted, rest);
      assert es[0].0 !in Keys(sorted) by {
        KeysAt(sorted, es[0].0);
        forall i | 0 <= i < |sorted| ensures sorted[i].0 != es[0].0 {
          assert sorted[i] in rest;
          var k :| 0 <= k < |rest| && rest[k] == sorted[i];
          assert es[k + 1] == sorted[i];
        }
      }
      InsertSorted(es[0], sorted);
    }
  }

  /** The entries of a dict with every value made canonical, in the original order. */
  function CanonEntries(es: Entries): (r: Entries)
    ensures |r| == |es|
    ensures forall i | 0 <= i < |es| :: r[i].0 == es[i].0
    decreases Size(Map(es)), 0
  {
    seq(|es|, i requires 0 <= i < |es| => (EntrySmaller(es, i); (es[i].0, Canon(es[i].1))))
  }

  function Canon(n: Node): Node
    decreases Size(n), 1
  {
    match n
    case List(xs) => List(seq(|xs|, i requires 0 <= i < |xs| => (ItemSmaller(xs, i); Canon(xs[i]))))
    case Map(es) => Map(SortEntries(CanonEntries(es)))
    case _ => n
  }

  /** Every dict in the tree has strictly ascending keys. */
  predicate KeysSorted(n: Node)
    decreases Size(n)
  {
    match n
    case List(xs) => forall i | 0 <= i < |xs| :: (ItemSmaller(xs, i); KeysSorted(xs[i]))
    case Map(es) => StrictlySorted(es) && forall i | 0 <= i < |es| :: (EntrySmaller(es, i); KeysSorted(es[i].1))
    case _ => true
  }

  lemma KeysOfSameMembers(a: Entries, b: Entries)
    requires forall e :: e in a <==> e in b
    ensures Keys(a) == Keys(b)
  {
    forall k ensures k in Keys(a) <==> k in Keys(b) {
      KeysAt(a, k);
      KeysAt(b, k);
      if k in Keys(a) {
        var i :| 0 <= i < |a| && a[i].0 == k;
        assert a[i] in b;
      }
      if k in Keys(b) {
        var i :| 0 <= i < |b| && b[i].0 == k;
        assert b[i] in a;
      }
    }
  }

  /** The sorted canonical entries of a dict: sorted, unique, the same keys, drawn from the canonical entries. */
  lemma SortedCanonEntries(es: Entries)
    requires UniqueKeys(es)
    ensures var c := SortEntries(CanonEntries(es));
            StrictlySorted(c) && UniqueKeys(c) && Keys(c) == Keys(es) &&
            forall e :: e in c ==> e in CanonEntries(es)
  {
    var ce := CanonEntries(es);
    var c := SortEntries(ce);
    assert UniqueKeys(ce);
    SortEntriesSorted(ce);
    SortedUnique(c);
    SameMembers(c, ce);
    KeysOfSameMembers(c, ce);
    forall k ensures k in Keys(ce) <==> k in Keys(es) { KeysAt(ce, k); KeysAt(es, k); }
  }

  /** The canonical tree equals the original under Python's `==`, has unique and sorted keys. */
  lemma {:induction false} CanonEqual(n: Node)
    requires WellKeyed(n)
    ensures Equal(Canon(n), n) && WellKeyed(Canon(n)) && KeysSorted(Canon(n))
    ensures NullFree(n) ==> NullFree(Canon(n))
    decreases Size(n), 1
  {
    match n
    case List(xs) => CanonListEqual(xs);
    case Map(es) => CanonMapEqual(es);
    case _ =>
  }

  lemma {:induction false} CanonListEqual(xs: seq<Node>)
    requires WellKeyed(List(xs))
    ensures Equal(Canon(List(xs)), List(xs)) && WellKeyed(Canon(List(xs))) && KeysSorted(Canon(List(xs)))
    ensures NullFree(List(xs)) ==> NullFree(Canon(List(xs)))
    decreases Size(List(xs)), 0
  {
    var c := Canon(List(xs)).items;
    forall i | 0 <= i < |xs|
      ensures Equal(c[i], xs[i]) && WellKeyed(c[i]) && KeysSorted(c[i])
      ensures NullFree(xs[i]) ==> NullFree(c[i])
    {
      ItemSmaller(xs, i);
      CanonEqual(xs[i]);
    }
  }

  lemma {:induction false} CanonMapEqual(es: Entries)
    requires WellKeyed(Map(es))
    ensures Equal(Canon(Map(es)), Map(es)) && WellKeyed(Canon(Map(es))) && KeysSorted(Canon(Map(es)))
    ensures NullFree(Map(es)) ==> NullFree(Canon(Map(es)))
    decreases Size(Map(es)), 0
  {
    var ce := CanonEntries(es);
    var c := SortEntries(ce);
    assert Canon(Map(es)) == Map(c);
    SortedCanonEntries(es);
    forall i | 0 <= i < |c|
      ensures Equal(c[i].1, Get(es, c[i].0)) && WellKeyed(c[i].1) && KeysSorted(c[i].1)
      ensures NullFree(Map(es)) ==> NullFree(c[i].1)
    {
      assert c[i] in ce;
      var j :| 0 <= j < |ce| && ce[j] == c[i];
      GetUnique(es, j);
      EntrySmaller(es, j);
      CanonEqual(es[j].1);
    }
  }

  lemma EmptyMembers(a: Entries, b: Entries)
    requires forall e :: e in a <==> e in b
    ensures a == [] <==> b == []
  {
    if a != [] { assert a[0] in b; }
    if b != [] { assert b[0] in a; }
  }

  /** Two strictly sorted lists with the same members are the same list. */
  lemma {:induction false} SortedSameMembers(a: Entries, b: Entries)
    requires StrictlySorted(a) && StrictlySorted(b)
    requires forall e :: e in a <==> e in b
    ensures a == b
    decreases |a|
  {
    EmptyMembers(a, b);
    if a != [] {
      if a[0] != b[0] {
        assert a[0] in b && b[0] in a;
        var j :| 0 <= j < |b| && b[j] == a[0];
        var i :| 0 <= i < |a| && a[i] == b[0];
        assert Less(a[0].0, b[0].0) && Less(b[0].0, a[0].0);
        LessTransitive(a[0].0, b[0].0, a[0].0);
        LessIrreflexive(a[0].0);
      }
      var a', b' := a[1..], b[1..];
      forall e ensures e in a' <==> e in b' {
        if e in a' {
          var i :| 0 <= i < |a'| && a'[i] == e;
          assert a[i + 1] == e && e != a[0] by { LessIrreflexive(a[0].0); }
          assert e in a && e in b;
          var j :| 0 <= j < |b| && b[j] == e;
          assert j != 0;
          assert b'[j - 1] == e;
        }
        if e in b' {
          var i :| 0 <= i < |b'| && b'[i] == e;
          assert b[i + 1] == e && e != b[0] by { LessIrreflexive(b[0].0); }
          assert e in b && e in a;
          var j :| 0 <= j < |a| && a[j] == e;
          assert j != 0;
          assert a'[j - 1] == e;
        }
      }
      assert StrictlySorted(a') by {
        forall i, j | 0 <= i < j < |a'| ensures Less(a'[i].0, a'[j].0) { assert a'[i] == a[i + 1] && a'[j] == a[j + 1]; }
      }
      assert StrictlySorted(b') by {
        forall i, j | 0 <= i < j < |b'| ensures Less(b'[i].0, b'[j].0) { assert b'[i] == b[i + 1] && b'[j] == b[j + 1]; }
      }
      SortedSameMembers(a', b');
      assert a == [a[0]] + a' && b == [b[0]] + b';
    }
  }

  /** Sorting two unique-keyed lists with the same members gives the same list. */
  lemma SortSameMembers(a: Entries, b: Entries)
    requires UniqueKeys(a) && UniqueKeys(b)
    requires forall e :: e in a <==> e in b
    ensures SortEntries(a) == SortEntries(b)
  {
    SortEntriesSorted(a);
    SortEntriesSorted(b);
    SameMembers(SortEntries(a), a);
    SameMembers(SortEntries(b), b);
    SortedSameMembers(SortEntries(a), SortEntries(b));
  }

  /** Equal trees have the same canonical form: the order of insertion no longer shows. */
  lemma {:induction false} CanonDeterministic(a: Node, b: Node)
    requires WellKeyed(a) && WellKeyed(b) && Equal(a, b)
    ensures Canon(a) == Canon(b)
    decreases Size(a) + Size(b), 2
  {
    match (a, b)
    case (List(xs), List(ys)) => CanonListsDeterministic(xs, ys);
    case (Map(xs), Map(ys)) => CanonMapsDeterministic(xs, ys);
    case _ =>
  }

  lemma {:induction false} CanonListsDeterministic(xs: seq<Node>, ys: seq<Node>)
    requires WellKeyed(List(xs)) && WellKeyed(List(ys)) && Equal(List(xs), List(ys))
    ensures Canon(List(xs)) == Canon(List(ys))
    decreases Size(List(xs)) + Size(List(ys)), 1
  {
    forall i | 0 <= i < |xs| ensures Canon(xs[i]) == Canon(ys[i]) {
      ItemSmaller(xs, i);
      ItemSmaller(ys, i);
      CanonDeterministic(xs[i], ys[i]);
    }
  }

  lemma {:induction false} CanonMapsDeterministic(xs: Entries, ys: Entries)
    requires WellKeyed(Map(xs)) && WellKeyed(Map(ys)) && Equal(Map(xs), Map(ys))
    ensures Canon(Map(xs)) == Canon(Map(ys))
    decreases Size(Map(xs)) + Size(Map(ys)), 1
  {
    var cx, cy := CanonEntries(xs), CanonEntries(ys);
    forall e ensures e in cx <==> e in cy {
      if e in cx {
        var i :| 0 <= i < |cx| && cx[i] == e;
        KeysAt(ys, xs[i].0);
        var j :| 0 <= j < |ys| && ys[j].0 == xs[i].0;
        CanonEntryMatch(xs, ys, i, j);
      }
      if e in cy {
        var j :| 0 <= j < |cy| && cy[j] == e;
        KeysAt(xs, ys[j].0);
        var i :| 0 <= i < |xs| && xs[i].0 == ys[j].0;
        CanonEntryMatch(xs, ys, i, j);
      }
    }
    assert UniqueKeys(cx) && UniqueKeys(cy);
    SortSameMembers(cx, cy);
  }

  /** Entries with the same key in two equal dicts have the same canonical entry. */
  lemma {:induction false} CanonEntryMatch(xs: Entries, ys: Entries, i: int, j: int)
    requires WellKeyed(Map(xs)) && WellKeyed(Map(ys)) && Equal(Map(xs), Map(ys))
    requires 0 <= i < |xs| && 0 <= j < |ys| && xs[i].0 == ys[j].0
    ensures CanonEntries(xs)[i] == CanonEntries(ys)[j]
    decreases Size(Map(xs)) + Size(Map(ys)), 0
  {
    GetUnique(ys, j);
    EntrySmaller(xs, i);
    EntrySmaller(ys, j);
    CanonDeterministic(xs[i].1, ys[j].1);
  }
}
