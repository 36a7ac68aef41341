/**
 * The JSON-like tree that the properties parser builds and the differ
 * compares. A Python dict is an association list that keeps insertion
 * order (the differ walks it in that order); `Null` is Python's `None`,
 * which the parser never produces but the differ pads sequences with.
 */
module Nodes {
  import opened Text

  datatype Node =
    | Null
    | Str(text: string)
    | Bool(flag: bool)
    | List(items: seq<Node>)
    | Map(entries: seq<(string, Node)>)

  type Entries = seq<(string, Node)>

  function Keys(es: Entries): (r: set<string>)
    ensures forall i :: 0 <= i < |es| ==> es[i].0 in r
  {
    if es == [] then {}
    else
      var rest := Keys(es[1..]);
      assert forall i :: 1 <= i < |es| ==> es[i] == es[1..][i - 1];
      {es[0].0} + rest
  }

  lemma {:induction false} KeysAt(es: Entries, k: string)
    ensures k in Keys(es) <==> exists i :: 0 <= i < |es| && es[i].0 == k
  {
    if es != [] {
      KeysAt(es[1..], k);
      if k in Keys(es[1..]) {
        var i :| 0 <= i < |es[1..]| && es[1..][i].0 == k;
        assert es[i + 1].0 == k;
      }
      forall i | 1 <= i < |es| && es[i].0 == k ensures k in Keys(es[1..]) {
        assert es[1..][i - 1].0 == k;
      }
    }
  }

  /** Python's `d[k]`: the value of the first entry with key `k`. */
  function Get(es: Entries, k: string): (v: Node)
    requires k in Keys(es)
    ensures (k, v) in es
  {
    if es[0].0 == k then es[0].1 else Get(es[1..], k)
  }

  predicate UniqueKeys(es: Entries) {
    forall i, j :: 0 <= i < j < |es| ==> es[i].0 != es[j].0
  }

  lemma GetUnique(es: Entries, i: int)
    requires UniqueKeys(es) && 0 <= i < |es|
    ensures Get(es, es[i].0) == es[i].1
  {
    if i > 0 {
      assert es[1..][i - 1] == es[i];
      GetUnique(es[1..], i - 1);
    }
  }

  /** Python's `d[k] = v`: an existing key keeps its position, a new one goes last. */
  function Put(es: Entries, k: string, v: Node): (r: Entries)
    ensures k !in Keys(es) ==> r == es + [(k, v)]
    ensures k in Keys(es) ==> |r| == |es|
    ensures forall i :: 0 <= i < |es| ==> r[i].0 == es[i].0
    ensures Keys(r) == Keys(es) + {k}
    ensures Get(r, k) == v
    ensures forall k' :: k' in Keys(es) && k' != k ==> Get(r, k') == Get(es, k')
    ensures forall e :: e in r ==> e in es || e == (k, v)
  {
    if es == [] then [(k, v)]
    else if es[0].0 == k then [(k, v)] + es[1..]
    else [es[0]] + Put(es[1..], k, v)
  }

  lemma {:induction false} PutUnique(es: Entries, k: string, v: Node)
    requires UniqueKeys(es)
    ensures UniqueKeys(Put(es, k, v))
  {
    var r := Put(es, k, v);
    forall i, j | 0 <= i < j < |r| ensures r[i].0 != r[j].0 {
      if j == |es| {
        assert r[i].0 == es[i].0 && r[j].0 == k;
      } else {
        assert r[i].0 == es[i].0 && r[j].0 == es[j].0;
      }
    }
  }

  /** Storing the pairs one after another into an empty dict. */
  function PutAll(ps: seq<(string, Node)>): Entries {
    if ps == [] then [] else Put(PutAll(ps[..|ps| - 1]), ps[|ps| - 1].0, ps[|ps| - 1].1)
  }

  /** One more pair: it is assigned last. */
  lemma PutAllStep(ps: seq<(string, Node)>)
    requires ps != []
    ensures var init, last := ps[..|ps| - 1], ps[|ps| - 1];
      && PutAll(ps) == Put(PutAll(init), last.0, last.1)
      && Keys(PutAll(ps)) == Keys(PutAll(init)) + {last.0}
  {
  }

  /** Storing one more pair after a run of pairs. */
  lemma PutAllSnoc(ps: seq<(string, Node)>, p: (string, Node))
    ensures PutAll(ps + [p]) == Put(PutAll(ps), p.0, p.1)
  {
    assert (ps + [p])[..|ps|] == ps;
  }

  /** Every stored key is in the dict. */
  lemma {:induction false} PutAllHas(ps: seq<(string, Node)>, i: nat)
    requires i < |ps|
    ensures ps[i].0 in Keys(PutAll(ps))
    decreases |ps|
  {
    var init, last := ps[..|ps| - 1], ps[|ps| - 1];
    PutAllStep(ps);
    if i < |init| {
      assert init[i] == ps[i];
      PutAllHas(init, i);
      assert ps[i].0 in Keys(PutAll(init));
    }
  }

  /** Every key of the dict was stored. */
  lemma {:induction false} PutAllFrom(ps: seq<(string, Node)>, k: string)
    requires k in Keys(PutAll(ps))
    ensures exists i | 0 <= i < |ps| :: ps[i].0 == k
    decreases |ps|
  {
    var init, last := ps[..|ps| - 1], ps[|ps| - 1];
    PutAllStep(ps);
    if k != last.0 {
      assert k in Keys(PutAll(init));
      PutAllFrom(init, k);
      var i :| 0 <= i < |init| && init[i].0 == k;
      assert ps[i] == init[i];
    }
  }

  /** A key holds the value of the last pair storing it. */
  lemma {:induction false} PutAllLast(ps: seq<(string, Node)>, i: nat)
    requires i < |ps| && forall i' | i < i' < |ps| :: ps[i'].0 != ps[i].0
    ensures ps[i].0 in Keys(PutAll(ps)) && Get(PutAll(ps), ps[i].0) == ps[i].1
    decreases |ps|
  {
    var init, last := ps[..|ps| - 1], ps[|ps| - 1];
    PutAllStep(ps);
    if i < |init| {
      assert init[i] == ps[i];
      forall i' | i < i' < |init| ensures init[i'].0 != init[i].0 {
        assert init[i'] == ps[i'];
      }
      PutAllLast(init, i);
      assert ps[i].0 in Keys(PutAll(init)) && Get(PutAll(init), ps[i].0) == ps[i].1;
      assert last.0 != ps[i].0;
    }
  }

  /** Python's `d.pop(k, None)`. */
  function Remove(es: Entries, k: string): (r: Entries)
    ensures Keys(r) == Keys(es) - {k}
    ensures forall e :: e in r <==> e in es && e.0 != k
    ensures UniqueKeys(es) ==> UniqueKeys(r)
  {
    if es == [] then []
    else if es[0].0 == k then Remove(es[1..], k)
    else [es[0]] + Remove(es[1..], k)
  }

  /** Every map in the tree has unique keys, as Python dicts do. */
  predicate WellKeyed(n: Node) {
    match n
    case List(xs) => forall i | 0 <= i < |xs| :: WellKeyed(xs[i])
    case Map(es) => UniqueKeys(es) && forall i | 0 <= i < |es| :: WellKeyed(es[i].1)
    case _ => true
  }

  /** No `None` anywhere in the tree. */
  predicate NullFree(n: Node) {
    match n
    case Null => false
    case List(xs) => forall i | 0 <= i < |xs| :: NullFree(xs[i])
    case Map(es) => forall i | 0 <= i < |es| :: NullFree(es[i].1)
    case _ => true
  }

  /** A tree the parser can produce. */
  predicate Valid(n: Node) {
    WellKeyed(n) && NullFree(n)
  }

  /** Python's `==` on JSON values: dicts compare by key set and per-key value, ignoring order. */
  predicate Equal(a: Node, b: Node) {
    match (a, b)
    case (Null, Null) => true
    case (Str(x), Str(y)) => x == y
    case (Bool(x), Bool(y)) => x == y
    case (List(xs), List(ys)) =>
      |xs| == |ys| && forall i | 0 <= i < |xs| :: Equal(xs[i], ys[i])
    case (Map(xs), Map(ys)) =>
      Keys(xs) == Keys(ys) &&
      forall i | 0 <= i < |xs| :: Equal(xs[i].1, Get(ys, xs[i].0))
    case _ => false
  }

  /** Equal values of Python's `type()`; `isinstance(a, type(b))` for these five kinds. */
  predicate SameKind(a: Node, b: Node) {
    (a.Null? && b.Null?) || (a.Str? && b.Str?) || (a.Bool? && b.Bool?)
    || (a.List? && b.List?) || (a.Map? && b.Map?)
  }

  lemma {:induction false} EqualReflexive(n: Node)
    requires WellKeyed(n)
    ensures Equal(n, n)
  {
    match n
    case List(xs) =>
      forall i | 0 <= i < |xs| ensures Equal(xs[i], xs[i]) { EqualReflexive(xs[i]); }
    case Map(es) =>
      forall i | 0 <= i < |es| ensures Equal(es[i].1, Get(es, es[i].0)) {
        GetUnique(es, i);
        EqualReflexive(es[i].1);
      }
    case _ =>
  }

  function Sum(s: seq<nat>): nat {
    if s == [] then 0 else s[0] + Sum(s[1..])
  }

  lemma {:induction false} SumBoundsElement(s: seq<nat>, i: int)
    requires 0 <= i < |s|
    ensures s[i] <= Sum(s)
  {
    if i > 0 { SumBoundsElement(s[1..], i - 1); }
  }

  /** The number of nodes in the tree, a termination measure for the differ. */
  function Size(n: Node): nat {
    match n
    case List(xs) => 2 + Sum(seq(|xs|, i requires 0 <= i < |xs| => Size(xs[i])))
    case Map(es) => 2 + Sum(seq(|es|, i requires 0 <= i < |es| => Size(es[i].1)))
    case _ => 1
  }

  lemma ItemSmaller(xs: seq<Node>, i: int)
    requires 0 <= i < |xs|
    ensures 1 <= Size(xs[i]) <= Size(List(xs)) - 2
  {
    var sizes := seq(|xs|, j requires 0 <= j < |xs| => Size(xs[j]));
    SumBoundsElement(sizes, i);
  }

  lemma EntrySmaller(es: Entries, i: int)
    requires 0 <= i < |es|
    ensures 1 <= Size(es[i].1) <= Size(Map(es)) - 2
  {
    var sizes := seq(|es|, j requires 0 <= j < |es| => Size(es[j].1));
    SumBoundsElement(sizes, i);
  }

  lemma GetSmaller(es: Entries, k: string)
    requires k in Keys(es)
    ensures 1 <= Size(Get(es, k)) <= Size(Map(es)) - 2
  {
    var i :| 0 <= i < |es| && es[i] == (k, Get(es, k));
    EntrySmaller(es, i);
  }
}
