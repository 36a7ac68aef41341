/**
 * Release tags of the documentation action: `TAG_REGEX`, `sort_key` and the
 * choice of version and alias in `get_version_and_alias`, with the output
 * of `git tag --points-at HEAD` and `mike list` given as arguments.
 */
module Tags {
  import opened Wrappers
  import opened Text

  // ---------------------------------------------------------------------
  // `^v(?P<major>\d+)\.(?P<minor>\d+)\.(?P<patch>\d+)(?:-rc\.(?P<rc>\d+))?`

  datatype Version = Version(major: nat, minor: nat, patch: nat, rc: Option<nat>)

  /** A maximal run of at least one digit at the start, its value and what follows it. */
  function Digits(s: string): (r: Option<(nat, string)>)
    ensures r.Some? ==> |r.value.1| < |s|
  {
    var k := DigitRun(s);
    if k == 0 then None else Some((DigitsValue(s[..k]), s[k..]))
  }

  /** A `.` followed by a run of digits, its value and what follows it. */
  function Field(s: string): (r: Option<(nat, string)>)
    ensures r.Some? ==> |r.value.1| < |s|
  {
    if s == [] || s[0] != '.' then None else Digits(s[1..])
  }

  /** The groups of `TAG_REGEX.match(s)`; there is no end anchor, so trailing text is ignored. */
  function MatchTag(s: string): Option<Version> {
    if s == [] || s[0] != 'v' then None
    else
      match Digits(s[1..])
      case None => None
      case Some((major, r1)) =>
        match Field(r1)
        case None => None
        case Some((minor, r2)) =>
          match Field(r2)
          case None => None
          case Some((patch, r3)) => Some(Version(major, minor, patch, RcGroup(r3)))
  }

  /** The optional `-rc.N` group: absent unless `-rc.` is followed by a digit. */
  function RcGroup(s: string): Option<nat> {
    if StartsWith(s, "-rc.") then
      match Digits(s[4..])
      case Some((n, _)) => Some(n)
      case None => None
    else None
  }

  /** The tag that names a version. */
  function FormatTag(v: Version): string {
    "v" + (NatToString(v.major) + ("." + (NatToString(v.minor) + ("." + (NatToString(v.patch) + RcSuffix(v.rc))))))
  }

  lemma DigitsOfNat(n: nat, rest: string)
    requires rest == [] || !IsDigit(rest[0])
    ensures Digits(NatToString(n) + rest) == Some((n, rest))
  {
    var d := NatToString(n);
    DigitRunOfDigits(d, rest);
    DigitsValueOfNatToString(n);
    assert (d + rest)[..|d|] == d && (d + rest)[|d|..] == rest;
  }

  lemma FieldOf(n: nat, rest: string)
    requires rest == [] || !IsDigit(rest[0])
    ensures Field("." + (NatToString(n) + rest)) == Some((n, rest))
  {
    assert ("." + (NatToString(n) + rest))[1..] == NatToString(n) + rest;
    DigitsOfNat(n, rest);
  }

  /** The `-rc.N` suffix of a formatted tag, or nothing. */
  function RcSuffix(rc: Option<nat>): string {
    if rc.Some? then "-rc." + NatToString(rc.value) else ""
  }

  lemma RcGroupOf(rc: Option<nat>, rest: string)
    requires rest == [] || !IsDigit(rest[0])
    requires rc.Some? || rest == [] || rest[0] != '-'
    ensures RcGroup(RcSuffix(rc) + rest) == rc
    ensures RcSuffix(rc) + rest == [] || !IsDigit((RcSuffix(rc) + rest)[0])
  {
    if rc.Some? {
      var s := "-rc." + NatToString(rc.value) + rest;
      assert s[..4] == "-rc." && s[4..] == NatToString(rc.value) + rest;
      DigitsOfNat(rc.value, rest);
    } else {
      assert !StartsWith(rest, "-rc.") by {
        if |rest| >= 4 { assert rest[..4][0] == rest[0]; }
      }
    }
  }

  lemma Assoc(a: string, b: string, c: string)
    ensures (a + b) + c == a + (b + c)
  {
  }

  /** Text after a formatted tag joins its innermost piece. */
  lemma AppendNested(n1: string, n2: string, n3: string, d: string, rest: string)
    ensures ("v" + (n1 + ("." + (n2 + ("." + (n3 + d)))))) + rest
         == "v" + (n1 + ("." + (n2 + ("." + (n3 + (d + rest))))))
  {
    var x5 := n3 + d;
    var x4 := "." + x5;
    var x3 := n2 + x4;
    var x2 := "." + x3;
    var x1 := n1 + x2;
    Assoc("v", x1, rest);
    Assoc(n1, x2, rest);
    Assoc(".", x3, rest);
    Assoc(n2, x4, rest);
    Assoc(".", x5, rest);
    Assoc(n3, d, rest);
  }

  /** The pattern reads the fields of a tag written out piece by piece. */
  lemma MatchNested(v: Version, rest: string)
    requires rest == [] || !IsDigit(rest[0])
    requires v.rc.Some? || rest == [] || rest[0] != '-'
    ensures MatchTag("v" + (NatToString(v.major) + ("." + (NatToString(v.minor) + ("." + (NatToString(v.patch)
              + (RcSuffix(v.rc) + rest))))))) == Some(v)
  {
    var r3 := RcSuffix(v.rc) + rest;
    RcGroupOf(v.rc, rest);
    var r2 := "." + (NatToString(v.patch) + r3);
    FieldOf(v.patch, r3);
    var r1 := "." + (NatToString(v.minor) + r2);
    FieldOf(v.minor, r2);
    var s := "v" + (NatToString(v.major) + r1);
    assert s[1..] == NatToString(v.major) + r1;
    DigitsOfNat(v.major, r1);
  }

  /**
   * A well-formed tag followed by anything that cannot extend it is keyed by
   * its own numbers: the pattern reads back what the tag says.
   */
  lemma MatchFormatted(v: Version, rest: string)
    requires rest == [] || !IsDigit(rest[0])
    requires v.rc.Some? || rest == [] || rest[0] != '-'
    ensures MatchTag(FormatTag(v) + rest) == Some(v)
  {
    AppendNested(NatToString(v.major), NatToString(v.minor), NatToString(v.patch), RcSuffix(v.rc), rest);
    MatchNested(v, rest);
  }

  // ---------------------------------------------------------------------
  // `sort_key`

  /** The release-candidate slot: an absent RC is `sys.maxsize`, above every RC number. */
  datatype Rc = Candidate(n: nat) | Final

  /**
   * The key tuples `sort_key` returns: `(-1, s)` and `(sys.maxsize, s)` for
   * non-version strings, `(major, minor, patch, rc)` for versions, with
   * `sys.maxsize` a top element above every number.
   */
  datatype Key = Low(text: string) | Release(major: nat, minor: nat, patch: nat, rc: Rc) | High(text: string)

  predicate RcLess(a: Rc, b: Rc) {
    match (a, b)
    case (Candidate(x), Candidate(y)) => x < y
    case (Candidate(_), Final) => true
    case _ => false
  }

  /** Python's `<` on the key tuples. */
  predicate KeyLess(a: Key, b: Key) {
    match (a, b)
    case (Low(s), Low(t)) => Less(s, t)
    case (Low(_), _) => true
    case (Release(_, _, _, _), Low(_)) => false
    case (Release(a1, a2, a3, a4), Release(b1, b2, b3, b4)) =>
      a1 < b1 || (a1 == b1 && (a2 < b2 || (a2 == b2 && (a3 < b3 || (a3 == b3 && RcLess(a4, b4))))))
    case (Release(_, _, _, _), High(_)) => true
    case (High(s), High(t)) => Less(s, t)
    case (High(_), _) => false
  }

  lemma KeyLessIrreflexive(a: Key)
    ensures !KeyLess(a, a)
  {
    if a.Low? || a.High? { LessIrreflexive(a.text); }
  }

  lemma KeyLessTransitive(a: Key, b: Key, c: Key)
    requires KeyLess(a, b) && KeyLess(b, c)
    ensures KeyLess(a, c)
  {
    if a.Low? && b.Low? && c.Low? { LessTransitive(a.text, b.text, c.text); }
    if a.High? && b.High? && c.High? { LessTransitive(a.text, b.text, c.text); }
  }

  lemma KeyLessTotal(a: Key, b: Key)
    requires a != b
    ensures KeyLess(a, b) || KeyLess(b, a)
  {
    if (a.Low? && b.Low?) || (a.High? && b.High?) { LessTotal(a.text, b.text); }
  }

  function Rank(v: Version): Key {
    Release(v.major, v.minor, v.patch, if v.rc.Some? then Candidate(v.rc.value) else Final)
  }

  /** `int(numbers[4])` on the four groups of the pattern: every matching tag raises. */
  datatype Raised = IndexError

  /** `sort_key(version_str, strings_high)` as written. */
  function SortKeyAsWritten(s: string, stringsHigh: bool): Result<Key, Raised> {
    match MatchTag(s)
    case Some(_) => Err(IndexError)
    case None => if stringsHigh then Ok(High(s)) else Ok(Low(s))
  }

  /** `sort_key` reading the `rc` group, `numbers[3]`, as its docstring describes. */
  function SortKey(s: string, stringsHigh: bool): Key {
    match MatchTag(s)
    case Some(v) => Rank(v)
    case None => if stringsHigh then High(s) else Low(s)
  }

  /**
   * A formatted tag is keyed by its own version; as written, `sort_key`
   * raises on it instead.
   */
  lemma KeyOfFormatted(v: Version, stringsHigh: bool)
    ensures SortKey(FormatTag(v), stringsHigh) == Rank(v)
    ensures SortKeyAsWritten(FormatTag(v), stringsHigh) == Err(IndexError)
  {
    MatchFormatted(v, "");
    assert FormatTag(v) + "" == FormatTag(v);
  }

  lemma SpellFinals()
    ensures FormatTag(Version(1, 2, 3, None)) == "v1.2.3"
    ensures FormatTag(Version(1, 2, 4, None)) == "v1.2.4"
  {
    assert NatToString(1) == "1" && NatToString(2) == "2" && NatToString(3) == "3" && NatToString(4) == "4";
  }

  lemma SpellFirstCandidate()
    ensures FormatTag(Version(1, 2, 4, Some(1))) == "v1.2.4-rc.1"
  {
    assert NatToString(1) == "1" && NatToString(2) == "2" && NatToString(4) == "4";
  }

  lemma SpellSecondCandidate()
    ensures FormatTag(Version(1, 2, 4, Some(2))) == "v1.2.4-rc.2"
  {
    assert NatToString(1) == "1" && NatToString(2) == "2" && NatToString(4) == "4";
  }

  /** The tag that shows the index error: the smallest ordinary release. */
  lemma SortKeyAsWrittenRaises()
    ensures MatchTag("v1.2.3") == Some(Version(1, 2, 3, None))
    ensures SortKeyAsWritten("v1.2.3", false) == Err(IndexError)
    ensures SortKeyAsWritten("v1.2.3", true) == Err(IndexError)
  {
    SpellFinals();
    MatchFormatted(Version(1, 2, 3, None), "");
    assert FormatTag(Version(1, 2, 3, None)) + "" == "v1.2.3";
  }

  lemma KeysOfFinals()
    ensures SortKey("v1.2.3", false) == Release(1, 2, 3, Final)
    ensures SortKey("v1.2.4", false) == Release(1, 2, 4, Final)
  {
    SpellFinals();
    KeyOfFormatted(Version(1, 2, 3, None), false);
    KeyOfFormatted(Version(1, 2, 4, None), false);
  }

  lemma KeysOfCandidates()
    ensures SortKey("v1.2.4-rc.1", false) == Release(1, 2, 4, Candidate(1))
    ensures SortKey("v1.2.4-rc.2", false) == Release(1, 2, 4, Candidate(2))
  {
    SpellFirstCandidate();
    KeyOfFormatted(Version(1, 2, 4, Some(1)), false);
    SpellSecondCandidate();
    KeyOfFormatted(Version(1, 2, 4, Some(2)), false);
  }

  /** Formatted tags are ordered by `sort_key` exactly as their versions are ranked. */
  lemma FormattedOrder(v: Version, w: Version, stringsHigh: bool)
    ensures KeyLess(SortKey(FormatTag(v), stringsHigh), SortKey(FormatTag(w), stringsHigh)) <==> KeyLess(Rank(v), Rank(w))
  {
    KeyOfFormatted(v, stringsHigh);
    KeyOfFormatted(w, stringsHigh);
  }

  /** The order the docstring of `sort_key` gives: v1.2.3 < v1.2.4-rc.1 < v1.2.4-rc.2 < v1.2.4. */
  lemma DocstringChain(stringsHigh: bool)
    ensures KeyLess(SortKey("v1.2.3", stringsHigh), SortKey("v1.2.4-rc.1", stringsHigh))
    ensures KeyLess(SortKey("v1.2.4-rc.1", stringsHigh), SortKey("v1.2.4-rc.2", stringsHigh))
    ensures KeyLess(SortKey("v1.2.4-rc.2", stringsHigh), SortKey("v1.2.4", stringsHigh))
  {
    var v123, rc1 := Version(1, 2, 3, None), Version(1, 2, 4, Some(1));
    var rc2, v124 := Version(1, 2, 4, Some(2)), Version(1, 2, 4, None);
    SpellFinals();
    SpellFirstCandidate();
    SpellSecondCandidate();
    FormattedOrder(v123, rc1, stringsHigh);
    FormattedOrder(rc1, rc2, stringsHigh);
    FormattedOrder(rc2, v124, stringsHigh);
  }

  /** A tag followed by text that cannot extend it is keyed by the tag's version. */
  lemma KeyOfTagged(v: Version, rest: string)
    requires rest == [] || (!IsDigit(rest[0]) && rest[0] != '-')
    ensures SortKey(FormatTag(v) + rest, false) == Rank(v)
  {
    MatchFormatted(v, rest);
  }

  /** A final release ranks above each of its own candidates, whatever follows the tag. */
  lemma FinalAboveCandidates(major: nat, minor: nat, patch: nat, n: nat, rest: string)
    requires rest == [] || (!IsDigit(rest[0]) && rest[0] != '-')
    ensures KeyLess(SortKey(FormatTag(Version(major, minor, patch, Some(n))) + rest, false),
                    SortKey(FormatTag(Version(major, minor, patch, None)) + rest, false))
  {
    KeyOfTagged(Version(major, minor, patch, Some(n)), rest);
    KeyOfTagged(Version(major, minor, patch, None), rest);
  }

  /** Non-version strings sit below every version under the low key and above under the high key. */
  lemma StringsAtTheEnds(s: string, t: string)
    requires MatchTag(s).None? && MatchTag(t).Some?
    ensures KeyLess(SortKey(s, false), SortKey(t, false))
    ensures KeyLess(SortKey(t, true), SortKey(s, true))
    ensures forall u :: MatchTag(u).None? ==>
              (KeyLess(SortKey(s, false), SortKey(u, false)) <==> Less(s, u))
  {
  }

  // ---------------------------------------------------------------------
  // `get_version_and_alias`

  /** The elements of `xs` that `keep` accepts, in order. */
  function Filter(xs: seq<string>, keep: string -> bool): (r: seq<string>)
    ensures forall i :: 0 <= i < |r| ==> keep(r[i])
  {
    if xs == [] then [] else (if keep(xs[0]) then [xs[0]] else []) + Filter(xs[1..], keep)
  }

  lemma {:induction false} FilterSound(xs: seq<string>, keep: string -> bool, t: string)
    requires t in Filter(xs, keep)
    ensures t in xs
  {
    var rest := xs[1..];
    if t != xs[0] {
      assert t in Filter(rest, keep);
      FilterSound(rest, keep, t);
    }
  }

  lemma {:induction false} FilterComplete(xs: seq<string>, keep: string -> bool)
    ensures forall x :: x in xs && keep(x) ==> x in Filter(xs, keep)
  {
    if xs != [] {
      var rest := xs[1..];
      FilterComplete(rest, keep);
      assert forall x :: x in xs ==> x == xs[0] || x in rest;
    }
  }

  lemma {:induction false} FilterEmpty(xs: seq<string>, keep: string -> bool)
    ensures Filter(xs, keep) == [] <==> forall x :: x in xs ==> !keep(x)
  {
    FilterComplete(xs, keep);
    if Filter(xs, keep) != [] {
      FilterSound(xs, keep, Filter(xs, keep)[0]);
    }
  }

  /** `TAG_REGEX.match(t)` succeeds. */
  predicate IsTag(t: string) {
    MatchTag(t).Some?
  }

  /** `tag.strip()` for each line. */
  function Stripped(lines: seq<string>): (r: seq<string>)
    ensures |r| == |lines| && forall i :: 0 <= i < |lines| ==> r[i] == Strip(lines[i])
  {
    seq(|lines|, i requires 0 <= i < |lines| => Strip(lines[i]))
  }

  /** The stripped head tags that match the pattern, in `git tag` order. */
  function HeadTags(lines: seq<string>): (r: seq<string>)
    ensures forall i :: 0 <= i < |r| ==> MatchTag(r[i]).Some?
  {
    Filter(Stripped(lines), IsTag)
  }

  /** Every stripped line that matches is a head tag. */
  lemma HeadTagsComplete(lines: seq<string>)
    ensures forall i :: 0 <= i < |lines| && MatchTag(Strip(lines[i])).Some? ==> Strip(lines[i]) in HeadTags(lines)
  {
    var stripped := Stripped(lines);
    FilterComplete(stripped, IsTag);
    forall i | 0 <= i < |lines| && MatchTag(Strip(lines[i])).Some?
      ensures Strip(lines[i]) in HeadTags(lines)
    {
      assert stripped[i] in stripped && IsTag(stripped[i]);
    }
  }

  /** Every head tag is a stripped line. */
  lemma HeadTagsSound(lines: seq<string>, t: string)
    requires t in HeadTags(lines)
    ensures exists i :: 0 <= i < |lines| && t == Strip(lines[i])
  {
    var stripped := Stripped(lines);
    FilterSound(stripped, IsTag, t);
    var i :| 0 <= i < |stripped| && stripped[i] == t;
  }

  /** `strings_low_key` applied to each string. */
  function LowKeys(xs: seq<string>): (ks: seq<Key>)
    ensures |ks| == |xs| && forall i :: 0 <= i < |xs| ==> ks[i] == SortKey(xs[i], false)
  {
    seq(|xs|, i requires 0 <= i < |xs| => SortKey(xs[i], false))
  }

  /** `max` over the first `n` keys: the first position whose key no other key exceeds. */
  function MaxIndex(ks: seq<Key>, n: nat): (m: nat)
    requires 0 < n <= |ks|
    ensures m < n
    ensures forall j :: 0 <= j < n ==> !KeyLess(ks[m], ks[j])
    ensures forall j :: 0 <= j < m ==> KeyLess(ks[j], ks[m])
  {
    if n == 1 then
      KeyLessIrreflexive(ks[0]);
      0
    else
      var m := MaxIndex(ks, n - 1);
      if KeyLess(ks[m], ks[n - 1]) then
        MaxStep(ks, n, m);
        n - 1
      else
        m
  }

  lemma MaxStep(ks: seq<Key>, n: nat, m: nat)
    requires 1 < n <= |ks| && m < n - 1
    requires forall j :: 0 <= j < n - 1 ==> !KeyLess(ks[m], ks[j])
    requires KeyLess(ks[m], ks[n - 1])
    ensures forall j :: 0 <= j < n ==> !KeyLess(ks[n - 1], ks[j])
    ensures forall j :: 0 <= j < n - 1 ==> KeyLess(ks[j], ks[n - 1])
  {
    var top := ks[n - 1];
    forall j | 0 <= j < n - 1 ensures KeyLess(ks[j], top) {
      if ks[j] != ks[m] {
        KeyLessTotal(ks[j], ks[m]);
        KeyLessTransitive(ks[j], ks[m], top);
      }
    }
    forall j | 0 <= j < n ensures !KeyLess(top, ks[j]) {
      KeyLessIrreflexive(top);
      if j < n - 1 && KeyLess(top, ks[j]) {
        KeyLessTransitive(top, ks[j], top);
      }
    }
  }

  /** `max(doc_versions, default="v0.0.0", key=strings_low_key)`. */
  function HighestDoc(docVersions: seq<string>): string {
    if docVersions == [] then "v0.0.0" else docVersions[MaxIndex(LowKeys(docVersions), |docVersions|)]
  }

  /** The version to publish and its alias, with the tag-reading fixed. */
  function VersionAndAlias(headLines: seq<string>, docVersions: seq<string>): (string, Option<string>) {
    var tags := HeadTags(headLines);
    if tags == [] then ("development", None)
    else
      var highest := tags[MaxIndex(LowKeys(tags), |tags|)];
      if KeyLess(SortKey(HighestDoc(docVersions), false), SortKey(highest, false)) then (highest, Some("latest"))
      else (highest, None)
  }

  /** `get_version_and_alias` as written: once any head tag matches, keying it raises. */
  function VersionAndAliasAsWritten(headLines: seq<string>, docVersions: seq<string>)
    : Result<(string, Option<string>), Raised>
  {
    var tags := HeadTags(headLines);
    if tags == [] then Ok(("development", None))
    else match SortKeyAsWritten(tags[0], false)
      case Err(e) => Err(e)
      case Ok(_) => Err(IndexError)
  }

  /** As written, every tagged commit fails; only untagged commits get a version. */
  lemma AsWrittenTaggedCommitRaises(headLines: seq<string>, docVersions: seq<string>)
    ensures VersionAndAliasAsWritten(headLines, docVersions).Ok? <==> HeadTags(headLines) == []
  {
    var tags := HeadTags(headLines);
    if tags != [] {
      assert MatchTag(tags[0]).Some?;
    }
  }

  /** An untagged commit is published as `development` with no alias. */
  lemma Untagged(headLines: seq<string>, docVersions: seq<string>)
    requires forall i :: 0 <= i < |headLines| ==> MatchTag(Strip(headLines[i])).None?
    ensures HeadTags(headLines) == []
    ensures VersionAndAlias(headLines, docVersions) == ("development", None)
  {
    var stripped := Stripped(headLines);
    FilterEmpty(stripped, IsTag);
    forall x | x in stripped ensures !IsTag(x) {
      var i :| 0 <= i < |stripped| && stripped[i] == x;
    }
  }

  /** The version is a matching head tag that no other head tag outranks. */
  lemma HighestHeadTag(headLines: seq<string>, docVersions: seq<string>)
    requires HeadTags(headLines) != []
    ensures var (v, _) := VersionAndAlias(headLines, docVersions);
            v in HeadTags(headLines) && MatchTag(v).Some? &&
            forall t :: t in HeadTags(headLines) ==> !KeyLess(SortKey(v, false), SortKey(t, false))
  {
  }

  /** `latest` exactly when the version outranks every published version (or `v0.0.0` when there is none). */
  lemma LatestIff(headLines: seq<string>, docVersions: seq<string>)
    requires HeadTags(headLines) != []
    ensures var (v, alias) := VersionAndAlias(headLines, docVersions);
            var docs := if docVersions == [] then ["v0.0.0"] else docVersions;
            (alias == Some("latest") <==> forall d :: d in docs ==> KeyLess(SortKey(d, false), SortKey(v, false)))
            && (alias.None? <==> !(alias == Some("latest")))
  {
    var (v, alias) := VersionAndAlias(headLines, docVersions);
    if docVersions != [] {
      AboveHighestDoc(docVersions, SortKey(v, false));
    }
  }

  /** A key is above the highest published version exactly when it is above each of them. */
  lemma AboveHighestDoc(docVersions: seq<string>, k: Key)
    requires docVersions != []
    ensures KeyLess(SortKey(HighestDoc(docVersions), false), k) <==>
            forall d :: d in docVersions ==> KeyLess(SortKey(d, false), k)
  {
    var ks := LowKeys(docVersions);
    BelowMax(ks, k);
    if forall j :: 0 <= j < |ks| ==> KeyLess(ks[j], k) {
      forall d | d in docVersions ensures KeyLess(SortKey(d, false), k) {
        var j :| 0 <= j < |docVersions| && docVersions[j] == d;
        assert ks[j] == SortKey(d, false);
      }
    }
  }

  /** A key is above the maximum exactly when it is above every key. */
  lemma BelowMax(ks: seq<Key>, k: Key)
    requires |ks| > 0
    ensures KeyLess(ks[MaxIndex(ks, |ks|)], k) <==> forall j :: 0 <= j < |ks| ==> KeyLess(ks[j], k)
  {
    var top := ks[MaxIndex(ks, |ks|)];
    if KeyLess(top, k) {
      forall j | 0 <= j < |ks| ensures KeyLess(ks[j], k) {
        if ks[j] != top {
          KeyLessTotal(ks[j], top);
          KeyLessTransitive(ks[j], top, k);
        }
      }
    }
  }
}
