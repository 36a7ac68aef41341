/**
 * `diff_json`: the recursive structural diff of two JSON values, reported as
 * `(jsonpath, before, after)` triples. `Diff` is the specification (one
 * function per loop of the source), `DiffJson` the loop-based procedure.
 */
module JsonDiff {
  import opened Wrappers
  import opened Text
  import opened Nodes

  datatype Triple = Triple(path: string, before: Node, after: Node)

  /** Every sub-result with `prefix` put in front of its path. */
  function Prefixed(prefix: string, ts: seq<Triple>): (r: seq<Triple>)
    ensures |r| == |ts|
    ensures forall i :: 0 <= i < |ts| ==> r[i] == Triple(prefix + ts[i].path, ts[i].before, ts[i].after)
  {
    seq(|ts|, i requires 0 <= i < |ts| => Triple(prefix + ts[i].path, ts[i].before, ts[i].after))
  }

  function Max(a: nat, b: nat): nat {
    if a < b then b else a
  }

  /** The `i`-th pair of `itertools.zip_longest`: `None` past the end of a list. */
  function Pad(xs: seq<Node>, i: nat): Node {
    if i < |xs| then xs[i] else Null
  }

  lemma PadSmaller(xs: seq<Node>, i: nat)
    ensures Size(Pad(xs, i)) <= Size(List(xs)) - 1
    ensures i < |xs| ==> Size(Pad(xs, i)) <= Size(List(xs)) - 2
  {
    if i < |xs| { ItemSmaller(xs, i); }
  }

  /** The path segment `[i]` of a list element. */
  function IndexLabel(i: nat): string {
    "[" + NatToString(i) + "]"
  }

  function Diff(a: Node, b: Node): seq<Triple>
    decreases Size(a) + Size(b), 0
  {
    if Equal(a, b) then []
    else if !SameKind(a, b) then [Triple("", a, b)]
    else match (a, b)
      case (Map(xs), Map(ys)) => FirstMapDiffs(xs, ys, |xs|) + SecondOnlyDiffs(xs, ys, |ys|)
      case (List(xs), List(ys)) => ListDiffs(xs, ys, Max(|xs|, |ys|))
      case _ => [Triple("", a, b)]
  }

  /** What the first loop over `alpha.items()` appends for entry `i`. */
  function EntryDiff(xs: Entries, ys: Entries, i: nat): seq<Triple>
    requires i < |xs|
    decreases Size(Map(xs)) + Size(Map(ys)) - 1, 0
  {
    var (k, v) := xs[i];
    if k in Keys(ys) then
      EntrySmaller(xs, i);
      GetSmaller(ys, k);
      Prefixed("." + k, Diff(v, Get(ys, k)))
    else [Triple(k, v, Null)]
  }

  /** The triples of the first loop after its first `n` entries. */
  function FirstMapDiffs(xs: Entries, ys: Entries, n: nat): seq<Triple>
    requires n <= |xs|
    decreases Size(Map(xs)) + Size(Map(ys)) - 1, n
  {
    if n == 0 then [] else FirstMapDiffs(xs, ys, n - 1) + EntryDiff(xs, ys, n - 1)
  }

  /** The triples of the second loop (keys only `beta` has) after its first `n` entries. */
  function SecondOnlyDiffs(xs: Entries, ys: Entries, n: nat): seq<Triple>
    requires n <= |ys|
  {
    if n == 0 then []
    else
      var (k, v) := ys[n - 1];
      SecondOnlyDiffs(xs, ys, n - 1) + (if k !in Keys(xs) then [Triple(k, Null, v)] else [])
  }

  /** What the loop over the zipped lists appends for index `i`. */
  function ItemDiff(xs: seq<Node>, ys: seq<Node>, i: nat): seq<Triple>
    requires i < Max(|xs|, |ys|)
    decreases Size(List(xs)) + Size(List(ys)) - 1, 0
  {
    PadSmaller(xs, i);
    PadSmaller(ys, i);
    Prefixed(IndexLabel(i), Diff(Pad(xs, i), Pad(ys, i)))
  }

  /** The triples of the list loop after its first `n` indices. */
  function ListDiffs(xs: seq<Node>, ys: seq<Node>, n: nat): seq<Triple>
    requires n <= Max(|xs|, |ys|)
    decreases Size(List(xs)) + Size(List(ys)) - 1, n
  {
    if n == 0 then [] else ListDiffs(xs, ys, n - 1) + ItemDiff(xs, ys, n - 1)
  }

  // ---------------------------------------------------------------------
  // Equal inputs and only equal inputs give no triples.

  lemma DiffSelf(a: Node)
    requires WellKeyed(a)
    ensures Diff(a, a) == []
  {
    EqualReflexive(a);
  }

  /** A value that is not `None` never equals `None`. */
  lemma NullFreeEntry(es: Entries, k: string)
    requires forall i | 0 <= i < |es| :: NullFree(es[i].1)
    requires k in Keys(es)
    ensures NullFree(Get(es, k))
  {
    var i :| 0 <= i < |es| && es[i] == (k, Get(es, k));
  }

  lemma FirstMapDiffsCovers(xs: Entries, ys: Entries, n: nat, i: nat)
    requires i < n <= |xs|
    ensures |EntryDiff(xs, ys, i)| <= |FirstMapDiffs(xs, ys, n)|
    ensures forall t :: t in EntryDiff(xs, ys, i) ==> t in FirstMapDiffs(xs, ys, n)
    decreases n
  {
    if i < n - 1 { FirstMapDiffsCovers(xs, ys, n - 1, i); }
  }

  lemma SecondOnlyDiffsCovers(xs: Entries, ys: Entries, n: nat, j: nat)
    requires j < n <= |ys| && ys[j].0 !in Keys(xs)
    ensures Triple(ys[j].0, Null, ys[j].1) in SecondOnlyDiffs(xs, ys, n)
    decreases n
  {
    if j < n - 1 { SecondOnlyDiffsCovers(xs, ys, n - 1, j); }
  }

  lemma ListDiffsCovers(xs: seq<Node>, ys: seq<Node>, n: nat, i: nat)
    requires i < n <= Max(|xs|, |ys|)
    ensures |ItemDiff(xs, ys, i)| <= |ListDiffs(xs, ys, n)|
    ensures forall t :: t in ItemDiff(xs, ys, i) ==> t in ListDiffs(xs, ys, n)
    decreases n
  {
    if i < n - 1 { ListDiffsCovers(xs, ys, n - 1, i); }
  }

  /** For trees without `None`, `diff_json(a, b) == []` exactly when `a == b`. */
  lemma {:induction false} DiffEmptyIff(a: Node, b: Node)
    requires NullFree(a) && NullFree(b)
    ensures Diff(a, b) == [] <==> Equal(a, b)
    decreases Size(a) + Size(b)
  {
    if !Equal(a, b) && SameKind(a, b) {
      match (a, b)
      case (Map(xs), Map(ys)) =>
        if i :| 0 <= i < |xs| && xs[i].0 !in Keys(ys) {
          FirstMapDiffsCovers(xs, ys, |xs|, i);
        } else if j :| 0 <= j < |ys| && ys[j].0 !in Keys(xs) {
          SecondOnlyDiffsCovers(xs, ys, |ys|, j);
        } else {
          assert Keys(xs) == Keys(ys) by {
            forall k ensures k in Keys(xs) <==> k in Keys(ys) { KeysAt(xs, k); KeysAt(ys, k); }
          }
          var i :| 0 <= i < |xs| && !Equal(xs[i].1, Get(ys, xs[i].0));
          EntrySmaller(xs, i);
          GetSmaller(ys, xs[i].0);
          NullFreeEntry(ys, xs[i].0);
          DiffEmptyIff(xs[i].1, Get(ys, xs[i].0));
          FirstMapDiffsCovers(xs, ys, |xs|, i);
        }
      case (List(xs), List(ys)) =>
        if |xs| != |ys| {
          // One side is padded with `None`, which differs in kind from the other side.
          var i := if |xs| < |ys| then |xs| else |ys|;
          assert !SameKind(Pad(xs, i), Pad(ys, i));
          ListDiffsCovers(xs, ys, Max(|xs|, |ys|), i);
        } else {
          var i :| 0 <= i < |xs| && !Equal(xs[i], ys[i]);
          ItemSmaller(xs, i);
          ItemSmaller(ys, i);
          DiffEmptyIff(xs[i], ys[i]);
          ListDiffsCovers(xs, ys, Max(|xs|, |ys|), i);
        }
      case _ =>
    }
  }

  /** `None` compared with `[]` after the end of one list: the padding that equality cannot see. */
  lemma PaddingHidesLength()
    ensures !Equal(List([Null]), List([]))
    ensures Diff(List([Null]), List([])) == []
  {
    assert ListDiffs([Null], [], 1) == ListDiffs([Null], [], 0) + ItemDiff([Null], [], 0);
  }

  /** Unequal values of different kinds, or unequal scalars, give the single triple `("", a, b)`. */
  lemma DiffMismatch(a: Node, b: Node)
    requires !Equal(a, b)
    requires !(a.Map? && b.Map?) && !(a.List? && b.List?)
    ensures Diff(a, b) == [Triple("", a, b)]
  {
  }

  // ---------------------------------------------------------------------
  // Two maps.

  /** `t` was produced while iterating over the first map's keys. */
  predicate FromFirstKey(xs: Entries, ys: Entries, t: Triple) {
    (exists i | 0 <= i < |xs| :: xs[i].0 !in Keys(ys) && t == Triple(xs[i].0, xs[i].1, Null))
    || (exists i, u | 0 <= i < |xs| && xs[i].0 in Keys(ys) && u in Diff(xs[i].1, Get(ys, xs[i].0)) ::
          t == Triple("." + xs[i].0 + u.path, u.before, u.after))
  }

  /** `t` reports a key that only the second map has. */
  predicate FromSecondOnly(xs: Entries, ys: Entries, t: Triple) {
    exists j | 0 <= j < |ys| :: ys[j].0 !in Keys(xs) && t == Triple(ys[j].0, Null, ys[j].1)
  }

  lemma FirstMapDiffsShape(xs: Entries, ys: Entries, n: nat)
    requires n <= |xs|
    ensures forall t | t in FirstMapDiffs(xs, ys, n) :: FromFirstKey(xs, ys, t)
    decreases n
  {
    if n > 0 {
      FirstMapDiffsShape(xs, ys, n - 1);
      var i := n - 1;
      forall t | t in EntryDiff(xs, ys, i) ensures FromFirstKey(xs, ys, t) {
        if xs[i].0 in Keys(ys) {
          var sub := Diff(xs[i].1, Get(ys, xs[i].0));
          var p :| 0 <= p < |sub| && t == Prefixed("." + xs[i].0, sub)[p];
          assert sub[p] in sub;
        }
      }
    }
  }

  lemma SecondOnlyDiffsShape(xs: Entries, ys: Entries, n: nat)
    requires n <= |ys|
    ensures forall t | t in SecondOnlyDiffs(xs, ys, n) :: FromSecondOnly(xs, ys, t)
    decreases n
  {
    if n > 0 { SecondOnlyDiffsShape(xs, ys, n - 1); }
  }

  /** The triples of the first map's keys all come before those of the second-only keys. */
  lemma MapDiffShape(xs: Entries, ys: Entries) returns (n: nat)
    ensures n <= |Diff(Map(xs), Map(ys))|
    ensures forall p | 0 <= p < n :: FromFirstKey(xs, ys, Diff(Map(xs), Map(ys))[p])
    ensures forall p | n <= p < |Diff(Map(xs), Map(ys))| :: FromSecondOnly(xs, ys, Diff(Map(xs), Map(ys))[p])
  {
    var d := Diff(Map(xs), Map(ys));
    n := 0;
    if d != [] {
      var first := FirstMapDiffs(xs, ys, |xs|);
      var second := SecondOnlyDiffs(xs, ys, |ys|);
      assert d == first + second;
      FirstMapDiffsShape(xs, ys, |xs|);
      SecondOnlyDiffsShape(xs, ys, |ys|);
      assert forall p | 0 <= p < |first| :: d[p] == first[p] && first[p] in first;
      assert forall p | |first| <= p < |d| :: d[p] == second[p - |first|] && second[p - |first|] in second;
      n := |first|;
    }
  }

  /** A key only the first map has is reported as `(key, a[key], None)`. */
  lemma MapDiffOnlyFirst(xs: Entries, ys: Entries, i: nat)
    requires i < |xs| && xs[i].0 !in Keys(ys)
    ensures Triple(xs[i].0, xs[i].1, Null) in Diff(Map(xs), Map(ys))
  {
    if !Equal(Map(xs), Map(ys)) {
      FirstMapDiffsCovers(xs, ys, |xs|, i);
    }
  }

  /** A key only the second map has is reported as `(key, None, b[key])`. */
  lemma MapDiffOnlySecond(xs: Entries, ys: Entries, j: nat)
    requires j < |ys| && ys[j].0 !in Keys(xs)
    ensures Triple(ys[j].0, Null, ys[j].1) in Diff(Map(xs), Map(ys))
  {
    if !Equal(Map(xs), Map(ys)) {
      SecondOnlyDiffsCovers(xs, ys, |ys|, j);
    }
  }

  /** Every difference below a shared key is reported with the prefix `.key`. */
  lemma MapDiffShared(xs: Entries, ys: Entries, i: nat, u: Triple)
    requires i < |xs| && xs[i].0 in Keys(ys)
    requires u in Diff(xs[i].1, Get(ys, xs[i].0))
    ensures Triple("." + xs[i].0 + u.path, u.before, u.after) in Diff(Map(xs), Map(ys))
  {
    if !Equal(Map(xs), Map(ys)) {
      var sub := Diff(xs[i].1, Get(ys, xs[i].0));
      var p :| 0 <= p < |sub| && sub[p] == u;
      assert Prefixed("." + xs[i].0, sub)[p] == Triple("." + xs[i].0 + u.path, u.before, u.after);
      FirstMapDiffsCovers(xs, ys, |xs|, i);
    }
  }

  // ---------------------------------------------------------------------
  // Two lists.

  /** The `i` of a path that starts with `[i]`. */
  function LeadingIndex(path: string): Option<nat> {
    if |path| >= 2 && path[0] == '[' then
      var k := DigitRun(path[1..]);
      assert path[1..k + 1] == path[1..][..k];
      if 0 < k && k + 1 < |path| && path[k + 1] == ']' then Some(DigitsValue(path[1..k + 1])) else None
    else None
  }

  lemma LeadingIndexOfLabel(i: nat, rest: string)
    ensures LeadingIndex(IndexLabel(i) + rest) == Some(i)
  {
    var d := NatToString(i);
    var path := IndexLabel(i) + rest;
    assert path == "[" + d + "]" + rest;
    assert path[1..] == d + ("]" + rest);
    DigitRunOfDigits(d, "]" + rest);
    assert path[1..|d| + 1] == d;
    DigitsValueOfNatToString(i);
  }

  /** `t` was produced for index `i` of the zipped lists. */
  predicate FromItem(xs: seq<Node>, ys: seq<Node>, i: nat, t: Triple) {
    exists u | u in Diff(Pad(xs, i), Pad(ys, i)) :: t == Triple(IndexLabel(i) + u.path, u.before, u.after)
  }

  /** Every triple of `d` starts with some `[i]`, `i < n`. */
  predicate LeadsBelow(d: seq<Triple>, n: nat) {
    forall p | 0 <= p < |d| :: LeadingIndex(d[p].path).Some? && LeadingIndex(d[p].path).value < n
  }

  /** Every triple of `d` that starts with `[i]` comes from the `i`-th elements. */
  predicate FromItems(xs: seq<Node>, ys: seq<Node>, d: seq<Triple>) {
    forall p | 0 <= p < |d| && LeadingIndex(d[p].path).Some? :: FromItem(xs, ys, LeadingIndex(d[p].path).value, d[p])
  }

  /** The leading indices of `d` never decrease. */
  predicate IndexOrdered(d: seq<Triple>) {
    forall p, q | 0 <= p < q < |d| ::
      LeadingIndex(d[p].path).Some? && LeadingIndex(d[q].path).Some? &&
      LeadingIndex(d[p].path).value <= LeadingIndex(d[q].path).value
  }

  /** What element `i` contributes all starts with `[i]` and comes from element `i`. */
  lemma ItemLeads(xs: seq<Node>, ys: seq<Node>, i: nat)
    requires i < Max(|xs|, |ys|)
    ensures forall q | 0 <= q < |ItemDiff(xs, ys, i)| :: LeadingIndex(ItemDiff(xs, ys, i)[q].path) == Some(i)
    ensures FromItems(xs, ys, ItemDiff(xs, ys, i))
  {
    var item := ItemDiff(xs, ys, i);
    var sub := Diff(Pad(xs, i), Pad(ys, i));
    forall q | 0 <= q < |item| ensures LeadingIndex(item[q].path) == Some(i) && FromItem(xs, ys, i, item[q]) {
      LeadingIndexOfLabel(i, sub[q].path);
      assert sub[q] in sub;
    }
  }

  /** Triples led by indices below `n - 1`, in order, followed by triples led by `n - 1`. */
  lemma ConcatLeads(a: seq<Triple>, b: seq<Triple>, n: nat)
    requires n > 0 && LeadsBelow(a, n - 1) && IndexOrdered(a)
    requires forall q | 0 <= q < |b| :: LeadingIndex(b[q].path) == Some(n - 1)
    ensures LeadsBelow(a + b, n) && IndexOrdered(a + b)
  {
    var d := a + b;
    forall p | 0 <= p < |d| ensures LeadingIndex(d[p].path).Some? && LeadingIndex(d[p].path).value < n {
      if p < |a| { assert d[p] == a[p]; } else { assert d[p] == b[p - |a|]; }
    }
    forall p, q | 0 <= p < q < |d|
      ensures LeadingIndex(d[p].path).Some? && LeadingIndex(d[q].path).Some?
      ensures LeadingIndex(d[p].path).value <= LeadingIndex(d[q].path).value
    {
      if q < |a| {
        assert d[p] == a[p] && d[q] == a[q];
      } else {
        assert d[q] == b[q - |a|];
      }
    }
  }

  lemma ConcatFrom(xs: seq<Node>, ys: seq<Node>, a: seq<Triple>, b: seq<Triple>)
    requires FromItems(xs, ys, a) && FromItems(xs, ys, b)
    ensures FromItems(xs, ys, a + b)
  {
    var d := a + b;
    forall p | 0 <= p < |d| && LeadingIndex(d[p].path).Some?
      ensures FromItem(xs, ys, LeadingIndex(d[p].path).value, d[p])
    {
      if p < |a| { assert d[p] == a[p]; } else { assert d[p] == b[p - |a|]; }
    }
  }

  lemma {:induction false} ListDiffsLead(xs: seq<Node>, ys: seq<Node>, n: nat)
    requires n <= Max(|xs|, |ys|)
    ensures LeadsBelow(ListDiffs(xs, ys, n), n) && IndexOrdered(ListDiffs(xs, ys, n))
    decreases n
  {
    if n > 0 {
      ListDiffsLead(xs, ys, n - 1);
      ItemLeads(xs, ys, n - 1);
      assert ListDiffs(xs, ys, n) == ListDiffs(xs, ys, n - 1) + ItemDiff(xs, ys, n - 1);
      ConcatLeads(ListDiffs(xs, ys, n - 1), ItemDiff(xs, ys, n - 1), n);
    }
  }

  lemma {:induction false} ListDiffsFrom(xs: seq<Node>, ys: seq<Node>, n: nat)
    requires n <= Max(|xs|, |ys|)
    ensures FromItems(xs, ys, ListDiffs(xs, ys, n))
    decreases n
  {
    if n > 0 {
      ListDiffsFrom(xs, ys, n - 1);
      ItemLeads(xs, ys, n - 1);
      assert ListDiffs(xs, ys, n) == ListDiffs(xs, ys, n - 1) + ItemDiff(xs, ys, n - 1);
      ConcatFrom(xs, ys, ListDiffs(xs, ys, n - 1), ItemDiff(xs, ys, n - 1));
    }
  }

  /** Every triple of two lists' diff starts with `[i]`, `i` below the longer length, in index order. */
  lemma ListDiffShape(xs: seq<Node>, ys: seq<Node>)
    ensures LeadsBelow(Diff(List(xs), List(ys)), Max(|xs|, |ys|))
    ensures FromItems(xs, ys, Diff(List(xs), List(ys)))
    ensures IndexOrdered(Diff(List(xs), List(ys)))
  {
    if !Equal(List(xs), List(ys)) {
      assert Diff(List(xs), List(ys)) == ListDiffs(xs, ys, Max(|xs|, |ys|));
      ListDiffsLead(xs, ys, Max(|xs|, |ys|));
      ListDiffsFrom(xs, ys, Max(|xs|, |ys|));
    }
  }

  /** Every difference between the `i`-th elements (the shorter list padded) is reported under `[i]`. */
  lemma ListDiffItem(xs: seq<Node>, ys: seq<Node>, i: nat, u: Triple)
    requires i < Max(|xs|, |ys|)
    requires u in Diff(Pad(xs, i), Pad(ys, i))
    ensures Triple(IndexLabel(i) + u.path, u.before, u.after) in Diff(List(xs), List(ys))
  {
    if !Equal(List(xs), List(ys)) {
      var sub := Diff(Pad(xs, i), Pad(ys, i));
      var p :| 0 <= p < |sub| && sub[p] == u;
      assert ItemDiff(xs, ys, i)[p] == Triple(IndexLabel(i) + u.path, u.before, u.after);
      ListDiffsCovers(xs, ys, Max(|xs|, |ys|), i);
    }
  }

  // ---------------------------------------------------------------------
  // The procedure, which appends to `results` inside its loops.

  /** `results` extended by every triple of `sub` with `prefix` put in front of its path. */
  method AppendPrefixed(results: seq<Triple>, prefix: string, sub: seq<Triple>) returns (r: seq<Triple>)
    ensures r == results + Prefixed(prefix, sub)
  {
    r := results;
    var j := 0;
    while j < |sub|
      invariant 0 <= j <= |sub|
      invariant r == results + Prefixed(prefix, sub[..j])
    {
      assert Prefixed(prefix, sub[..j + 1]) == Prefixed(prefix, sub[..j]) + [Triple(prefix + sub[j].path, sub[j].before, sub[j].after)];
      r := r + [Triple(prefix + sub[j].path, sub[j].before, sub[j].after)];
      j := j + 1;
    }
    assert sub[..j] == sub;
  }

  method DiffJson(alpha: Node, beta: Node) returns (results: seq<Triple>)
    ensures results == Diff(alpha, beta)
    decreases Size(alpha) + Size(beta)
  {
    results := [];
    if Equal(alpha, beta) {
      // They are the same.
    } else if !SameKind(alpha, beta) {
      results := [Triple("", alpha, beta)];
    } else if alpha.Map? {
      var xs, ys := alpha.entries, beta.entries;
      var i := 0;
      while i < |xs|
        invariant 0 <= i <= |xs|
        invariant results == FirstMapDiffs(xs, ys, i)
      {
        var (key, value) := xs[i];
        if key in Keys(ys) {
          EntrySmaller(xs, i);
          GetSmaller(ys, key);
          var sub := DiffJson(value, Get(ys, key));
          results := AppendPrefixed(results, "." + key, sub);
        } else {
          results := results + [Triple(key, value, Null)];
        }
        i := i + 1;
      }
      var j := 0;
      while j < |ys|
        invariant 0 <= j <= |ys|
        invariant results == FirstMapDiffs(xs, ys, |xs|) + SecondOnlyDiffs(xs, ys, j)
      {
        var (key, value) := ys[j];
        if key !in Keys(xs) {
          results := results + [Triple(key, Null, value)];
        }
        j := j + 1;
      }
    } else if alpha.List? {
      var xs, ys := alpha.items, beta.items;
      var n := Max(|xs|, |ys|);
      var index := 0;
      while index < n
        invariant 0 <= index <= n
        invariant results == ListDiffs(xs, ys, index)
      {
        PadSmaller(xs, index);
        PadSmaller(ys, index);
        var sub := DiffJson(Pad(xs, index), Pad(ys, index));
        results := AppendPrefixed(results, IndexLabel(index), sub);
        index := index + 1;
      }
    } else {
      // Different scalars.
      results := [Triple("", alpha, beta)];
    }
  }
}
