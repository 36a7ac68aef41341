/**
 * `NextflowConfigTest.check_results` after the config has been obtained:
 * drop the namespaces of the common submodules, diff against the expected
 * tree, discard differences of dated fields that only differ in their
 * timestamps, and decide.
 */
module ResultCheck {
  import opened Wrappers
  import opened Nodes
  import opened Dates
  import opened JsonDiff

  /** The `ConfigTest` record, field by field. */
  datatype ConfigTest = ConfigTest(
    config: seq<string>,
    paramsFile: string,
    cpus: int,
    memoryGb: real,
    emptyFiles: seq<string>,
    mappedFiles: seq<(string, string)>,
    nfParams: seq<(string, string)>,
    envvars: seq<(string, string)>,
    mocks: Node,
    datedFields: seq<string>,
    expectedResult: Node)

  /** `True`, `False` together with the record that would be saved beside the test, or an exception. */
  datatype Outcome =
    | Pass
    | Fail(remaining: seq<Triple>, rewritten: ConfigTest)
    | Crash

  /** The namespaces defined in the common submodules. */
  const BoringKeys: set<string> :=
    {"csv_parser", "custom_schema_types", "methods", "retry", "schema", "bam_parser", "json_extractor"}

  // ---------------------------------------------------------------------
  // Dropping the top-level keys

  /** The entries whose key is not in `ks`, in their order. */
  function DropKeys(es: Entries, ks: set<string>): (r: Entries)
    ensures forall e :: e in r <==> e in es && e.0 !in ks
    ensures Keys(r) == Keys(es) - ks
    ensures UniqueKeys(es) ==> UniqueKeys(r)
  {
    if es == [] then []
    else if es[0].0 in ks then DropKeys(es[1..], ks)
    else [es[0]] + DropKeys(es[1..], ks)
  }

  lemma {:induction false} RemoveDropKeys(es: Entries, ks: set<string>, k: string)
    ensures Remove(DropKeys(es, ks), k) == DropKeys(es, ks + {k})
    decreases |es|
  {
    if es != [] {
      RemoveDropKeys(es[1..], ks, k);
    }
  }

  /** `for key in boring_keys: result.pop(key, None)`, in whatever order the set yields its keys. */
  method DropBoringKeys(result: Entries) returns (r: Entries)
    ensures r == DropKeys(result, BoringKeys)
  {
    r := result;
    var done: set<string> := {};
    var todo := BoringKeys;
    assert r == DropKeys(result, done) by { DropNothing(result); }
    while todo != {}
      invariant done + todo == BoringKeys && done !! todo
      invariant r == DropKeys(result, done)
      decreases |todo|
    {
      var key :| key in todo;
      r := Remove(r, key);
      RemoveDropKeys(result, done, key);
      done := done + {key};
      todo := todo - {key};
    }
  }

  lemma {:induction false} DropNothing(es: Entries)
    ensures DropKeys(es, {}) == es
    decreases |es|
  {
    if es != [] {
      DropNothing(es[1..]);
    }
  }

  // ---------------------------------------------------------------------
  // Filtering the differences

  /** `re.sub(r"^\.+", "", path)`. */
  function StripDots(path: string): (r: string)
    ensures |r| <= |path|
    ensures r == [] || r[0] != '.'
  {
    if path != [] && path[0] == '.' then StripDots(path[1..]) else path
  }

  /** What the pattern removes is the leading run of dots, and only that. */
  lemma {:induction false} StripDotsSuffix(path: string)
    ensures var r := StripDots(path);
            r == path[|path| - |r|..] && forall i :: 0 <= i < |path| - |r| ==> path[i] == '.'
    decreases |path|
  {
    if path != [] && path[0] == '.' {
      StripDotsSuffix(path[1..]);
      var r := StripDots(path);
      assert path[1..][|path| - 1 - |r|..] == path[|path| - |r|..];
      forall i | 0 <= i < |path| - |r| ensures path[i] == '.' {
        if i > 0 { assert path[1..][i - 1] == path[i]; }
      }
    }
  }

  /**
   * Whether the loop pops this triple: `Some(true)` for a dated field whose
   * two strings agree once timestamps are deleted, `None` where `re.sub`
   * is handed something other than a string and raises.
   */
  function DateNoise(t: Triple, dated: seq<string>): Option<bool> {
    if StripDots(t.path) !in dated then Some(false)
    else if t.before.Str? && t.after.Str? then Some(DeleteDates(t.before.text) == DeleteDates(t.after.text))
    else None
  }

  /** The triples that survive the filter, in their order, or `None` when the loop raises. */
  function Kept(ts: seq<Triple>, dated: seq<string>): Option<seq<Triple>> {
    if ts == [] then Some([])
    else
      var noise := DateNoise(ts[0], dated);
      var rest := Kept(ts[1..], dated);
      if noise.None? || rest.None? then None
      else if noise.value then rest
      else Some([ts[0]] + rest.value)
  }

  /** A triple that makes the loop raise makes the whole filter raise, wherever it sits. */
  lemma {:induction false} KeptCrash(ts: seq<Triple>, i: nat, dated: seq<string>)
    requires i <= |ts| && Kept(ts[i..], dated).None?
    ensures Kept(ts, dated).None?
    decreases i
  {
    if i > 0 {
      assert ts[i..] == ts[1..][i - 1..];
      KeptCrash(ts[1..], i - 1, dated);
    }
  }

  /** One step backwards: the triple at `i` is popped or kept in front of the survivors after it. */
  lemma KeptStep(ts: seq<Triple>, i: nat, dated: seq<string>, survivors: seq<Triple>)
    requires i < |ts| && Kept(ts[i + 1..], dated) == Some(survivors) && DateNoise(ts[i], dated).Some?
    ensures Kept(ts[i..], dated) == Some(if DateNoise(ts[i], dated).value then survivors else [ts[i]] + survivors)
  {
    assert ts[i..][0] == ts[i] && ts[i..][1..] == ts[i + 1..];
  }

  /** `list.pop(i)`, the list it leaves behind. */
  function Pop(s: seq<Triple>, i: nat): (r: seq<Triple>)
    requires i < |s|
    ensures |r| == |s| - 1 && r[..i] == s[..i] && r[i..] == s[i + 1..]
  {
    s[..i] + s[i + 1..]
  }

  /**
   * The reversed-enumeration loop: walking from the end and popping by
   * index never disturbs the positions still to be visited.
   */
  method FilterDates(differences: seq<Triple>, dated: seq<string>) returns (r: Option<seq<Triple>>)
    ensures r == Kept(differences, dated)
  {
    var ds := differences;
    var index := |differences|;
    ghost var survivors: seq<Triple> := [];
    while index > 0
      invariant 0 <= index <= |differences|
      invariant Kept(differences[index..], dated) == Some(survivors)
      invariant |ds| == index + |survivors| && ds[..index] == differences[..index] && ds[index..] == survivors
    {
      index := index - 1;
      var t := differences[index];
      var noise := DateNoise(t, dated);
      if noise.None? {
        KeptCrash(differences, index, dated);
        return None;
      }
      KeptStep(differences, index, dated, survivors);
      assert ds[..index] == ds[..index + 1][..index] && differences[..index] == differences[..index + 1][..index];
      if noise.value {
        ds := Pop(ds, index);
      } else {
        assert ds[index] == ds[..index + 1][index] == t;
        assert ds[index..] == [ds[index]] + ds[index + 1..];
        survivors := [t] + survivors;
      }
    }
    assert differences[0..] == differences;
    return Some(ds);
  }

  // ---------------------------------------------------------------------
  // The verdict

  function Check(test: ConfigTest, result: Entries): Outcome {
    var dropped := DropKeys(result, BoringKeys);
    match Kept(Diff(test.expectedResult, Map(dropped)), test.datedFields)
    case None => Crash
    case Some(k) => if k == [] then Pass else Fail(k, test.(expectedResult := Map(dropped)))
  }

  method CheckResults(test: ConfigTest, result: Entries) returns (outcome: Outcome)
    ensures outcome == Check(test, result)
  {
    var dropped := DropBoringKeys(result);
    var differences := DiffJson(test.expectedResult, Map(dropped));
    var kept := FilterDates(differences, test.datedFields);
    if kept.None? {
      return Crash;
    }
    if kept.value != [] {
      return Fail(kept.value, test.(expectedResult := Map(dropped)));
    }
    return Pass;
  }

  // ---------------------------------------------------------------------
  // What the filter keeps

  /** `a` is `b` with some elements left out, the rest in order. */
  predicate Subsequence(a: seq<Triple>, b: seq<Triple>)
    decreases |b|
  {
    if a == [] then true
    else if b == [] then false
    else if a[0] == b[0] then Subsequence(a[1..], b[1..])
    else Subsequence(a, b[1..])
  }

  /** The survivors are the triples that are not date noise, in their original relative order. */
  lemma {:induction false} KeptIsSubsequence(ts: seq<Triple>, dated: seq<string>)
    requires Kept(ts, dated).Some?
    ensures Subsequence(Kept(ts, dated).value, ts)
    ensures forall t :: t in Kept(ts, dated).value <==> t in ts && DateNoise(t, dated) == Some(false)
    decreases |ts|
  {
    if ts != [] {
      KeptIsSubsequence(ts[1..], dated);
      var k := Kept(ts[1..], dated).value;
      if DateNoise(ts[0], dated) == Some(true) {
        SubsequenceDropHead(k, ts);
      }
    }
  }

  lemma SubsequenceDropHead(a: seq<Triple>, b: seq<Triple>)
    requires b != [] && Subsequence(a, b[1..])
    ensures Subsequence(a, b)
    decreases |b|, 1
  {
    if a != [] && a[0] == b[0] {
      SubsequenceTail(a, b[1..]);
    }
  }

  lemma SubsequenceTail(a: seq<Triple>, c: seq<Triple>)
    requires a != [] && Subsequence(a, c)
    ensures Subsequence(a[1..], c)
    decreases |c| + 1, 0
  {
    if a[0] == c[0] {
      SubsequenceDropHead(a[1..], c);
    } else {
      SubsequenceTail(a, c[1..]);
      SubsequenceDropHead(a[1..], c);
    }
  }

  /** Nothing survives exactly when every triple is date noise. */
  lemma {:induction false} KeptEmptyIff(ts: seq<Triple>, dated: seq<string>)
    ensures Kept(ts, dated) == Some([]) <==> forall i :: 0 <= i < |ts| ==> DateNoise(ts[i], dated) == Some(true)
    decreases |ts|
  {
    if ts != [] {
      KeptEmptyIff(ts[1..], dated);
      assert forall i :: 1 <= i < |ts| ==> ts[i] == ts[1..][i - 1];
    }
  }

  /** The test passes exactly when every difference is a dated field that differs only in its timestamps. */
  lemma PassIff(test: ConfigTest, result: Entries)
    ensures var d := Diff(test.expectedResult, Map(DropKeys(result, BoringKeys)));
            Check(test, result) == Pass <==> forall i :: 0 <= i < |d| ==> DateNoise(d[i], test.datedFields) == Some(true)
  {
    var d := Diff(test.expectedResult, Map(DropKeys(result, BoringKeys)));
    KeptEmptyIff(d, test.datedFields);
    CheckPass(test, result);
  }

  lemma CheckPass(test: ConfigTest, result: Entries)
    ensures Check(test, result) == Pass <==>
            Kept(Diff(test.expectedResult, Map(DropKeys(result, BoringKeys))), test.datedFields) == Some([])
  {
  }

  /** An expected tree equal to the result without the boring keys passes. */
  lemma PassWhenEqual(test: ConfigTest, result: Entries)
    requires NullFree(test.expectedResult) && NullFree(Map(result))
    requires Equal(test.expectedResult, Map(DropKeys(result, BoringKeys)))
    ensures Check(test, result) == Pass
  {
    var dropped := DropKeys(result, BoringKeys);
    forall i | 0 <= i < |dropped| ensures NullFree(dropped[i].1) {
      assert dropped[i] in dropped;
      var j :| 0 <= j < |result| && result[j] == dropped[i];
    }
    DiffEmptyIff(test.expectedResult, Map(dropped));
  }

  /** A dated field whose value only had its timestamps masked is noise, in either direction. */
  lemma MaskedDateIsNoise(path: string, s: string, dated: seq<string>)
    requires StripDots(path) in dated
    ensures DateNoise(Triple(path, Str(s), Str(MaskDates(s))), dated) == Some(true)
    ensures DateNoise(Triple(path, Str(MaskDates(s)), Str(s)), dated) == Some(true)
  {
    DeleteDatesOfMask(s);
  }

  /** The record saved beside a failing test differs from the test in its expected result only. */
  lemma RewrittenRecord(test: ConfigTest, result: Entries)
    requires Check(test, result).Fail?
    ensures var t := Check(test, result).rewritten;
            t.expectedResult == Map(DropKeys(result, BoringKeys)) &&
            t == test.(expectedResult := t.expectedResult)
  {
  }
}
