/**
 * `parse_config`: the Java-properties dump that `nextflow config -flat`
 * prints, turned into a nested tree with dated and versioned values masked.
 */
module Config {
  import opened Wrappers
  import opened Text
  import opened Nodes
  import opened ValueParser
  import opened Dates
  import opened Canonical

  // ---------------------------------------------------------------------
  // `str.splitlines()`

  /** The line boundaries of `str.splitlines`. */
  const LineBreaks: set<char> :=
    {'\n', '\r', '\U{0B}', '\U{0C}', '\U{1C}', '\U{1D}', '\U{1E}', '\U{85}', '\U{2028}', '\U{2029}'}

  predicate IsLineBreak(c: char) {
    c in LineBreaks
  }

  /** The index of the first line boundary, or `|s|` when there is none. */
  function BreakIndex(s: string): (i: nat)
    ensures i <= |s|
    ensures forall j :: 0 <= j < i ==> !IsLineBreak(s[j])
    ensures i < |s| ==> IsLineBreak(s[i])
  {
    if s == [] || IsLineBreak(s[0]) then 0 else 1 + BreakIndex(s[1..])
  }

  /** `\r\n` is one boundary; every other boundary is one character. */
  function BreakWidth(s: string, i: nat): (w: nat)
    requires i < |s|
    ensures 1 <= w && i + w <= |s|
  {
    if s[i] == '\r' && i + 1 < |s| && s[i + 1] == '\n' then 2 else 1
  }

  /** A line holds no boundary. */
  predicate Unbroken(l: string) {
    forall j :: 0 <= j < |l| ==> !IsLineBreak(l[j])
  }

  function SplitLines(s: string): seq<string>
    decreases |s|
  {
    if s == [] then []
    else
      var i := BreakIndex(s);
      if i == |s| then [s]
      else [s[..i]] + SplitLines(s[i + BreakWidth(s, i)..])
  }

  /** `s.splitlines()` at its first boundary: the text before it, then the lines of the rest. */
  lemma SplitAtBreak(s: string, i: nat)
    requires i == BreakIndex(s) < |s|
    ensures SplitLines(s) == [s[..i]] + SplitLines(s[i + BreakWidth(s, i)..])
  {
    assert s != [];
  }

  /** No line holds a boundary. */
  lemma {:induction false} SplitLinesUnbroken(s: string)
    ensures forall k :: 0 <= k < |SplitLines(s)| ==> Unbroken(SplitLines(s)[k])
    decreases |s|
  {
    if s != [] {
      var i := BreakIndex(s);
      if i < |s| {
        var rest := s[i + BreakWidth(s, i)..];
        SplitLinesUnbroken(rest);
        SplitAtBreak(s, i);
        assert Unbroken(s[..i]);
      }
    }
  }

  function DropBreaks(s: string): string {
    if s == [] then [] else if IsLineBreak(s[0]) then DropBreaks(s[1..]) else [s[0]] + DropBreaks(s[1..])
  }

  function Concat(ls: seq<string>): string {
    if ls == [] then [] else ls[0] + Concat(ls[1..])
  }

  lemma {:induction false} DropBreaksNone(s: string)
    requires forall j :: 0 <= j < |s| ==> !IsLineBreak(s[j])
    ensures DropBreaks(s) == s
    decreases |s|
  {
    if s != [] { DropBreaksNone(s[1..]); }
  }

  /** Deleting boundaries around the first one: the text before it, then the rest. */
  lemma DropBreaksAtBreak(s: string)
    requires BreakIndex(s) < |s|
    ensures DropBreaks(s) == s[..BreakIndex(s)] + DropBreaks(s[BreakIndex(s) + BreakWidth(s, BreakIndex(s))..])
  {
    var i := BreakIndex(s);
    var w := BreakWidth(s, i);
    DropBreaksPrefix(s, i);
    var t := s[i..];
    assert t[0] == s[i];
    if w == 2 {
      assert t[1] == '\n' && t[1..][1..] == s[i + 2..];
    } else {
      assert t[1..] == s[i + 1..];
    }
  }

  lemma {:induction false} DropBreaksPrefix(s: string, i: nat)
    requires i <= |s| && forall j :: 0 <= j < i ==> !IsLineBreak(s[j])
    ensures DropBreaks(s) == s[..i] + DropBreaks(s[i..])
    decreases i
  {
    if i > 0 {
      DropBreaksPrefix(s[1..], i - 1);
      assert s[1..][i - 1..] == s[i..];
      assert s[..i] == [s[0]] + s[1..][..i - 1];
    }
  }

  /** The lines hold every character of the text except the line boundaries, in order. */
  lemma {:induction false} SplitLinesContent(s: string)
    ensures Concat(SplitLines(s)) == DropBreaks(s)
    decreases |s|
  {
    if s != [] {
      var i := BreakIndex(s);
      if i == |s| {
        SingleLineContent(s);
      } else {
        SplitLinesContent(s[i + BreakWidth(s, i)..]);
        DropBreaksAtBreak(s);
        ConcatSplitLines(s, i);
      }
    }
  }

  /** Text without a boundary is one line, and nothing is dropped from it. */
  lemma SingleLineContent(s: string)
    requires s != [] && BreakIndex(s) == |s|
    ensures Concat(SplitLines(s)) == DropBreaks(s)
  {
    DropBreaksNone(s);
    assert SplitLines(s) == [s];
    assert Concat([s]) == s + Concat([]);
  }

  lemma ConcatSplitLines(s: string, i: nat)
    requires i == BreakIndex(s) < |s|
    ensures Concat(SplitLines(s)) == s[..i] + Concat(SplitLines(s[i + BreakWidth(s, i)..]))
  {
    SplitAtBreak(s, i);
    ConcatCons(s[..i], SplitLines(s[i + BreakWidth(s, i)..]));
  }

  lemma ConcatCons(line: string, ls: seq<string>)
    ensures Concat([line] + ls) == line + Concat(ls)
  {
    assert ([line] + ls)[1..] == ls;
  }

  // ---------------------------------------------------------------------
  // `re.search(r"^manifest.version=(.*)$", config_str, re.MULTILINE)`

  /** A line the pattern matches: `manifest`, any character but a newline, `version=`. */
  predicate ManifestLine(l: string) {
    |l| >= 17 && l[..8] == "manifest" && l[8] != '\n' && l[9..17] == "version="
  }

  function FirstManifest(ls: seq<string>): (r: Option<string>)
    ensures r.None? <==> forall i :: 0 <= i < |ls| ==> !ManifestLine(ls[i])
    ensures r.Some? ==>
              exists i :: 0 <= i < |ls| && ManifestLine(ls[i]) && r.value == ls[i][17..]
                          && forall j :: 0 <= j < i ==> !ManifestLine(ls[j])
  {
    if ls == [] then None
    else if ManifestLine(ls[0]) then Some(ls[0][17..])
    else
      var r := FirstManifest(ls[1..]);
      assert forall i :: 1 <= i < |ls| ==> ls[i] == ls[1..][i - 1];
      if r.Some? then
        var i :| 0 <= i < |ls[1..]| && ManifestLine(ls[1..][i]) && r.value == ls[1..][i][17..]
          && forall j :: 0 <= j < i ==> !ManifestLine(ls[1..][j]);
        assert ManifestLine(ls[i + 1]) && r.value == ls[i + 1][17..];
        r
      else r
  }

  /** The rest of the first line that sets `manifest.version`, or `None`. */
  function ManifestVersion(text: string): Option<string> {
    FirstManifest(SplitOn(text, "\n"))
  }

  // ---------------------------------------------------------------------
  // `^(?P<key>\S+?[^\\])=(?P<value>.*)$`

  /**
   * The pattern can split the line with `=` at `k`: a key of at least two
   * characters, all but the last of them non-space, the last not a backslash.
   */
  predicate IsSplitAt(line: string, k: int) {
    2 <= k < |line| && NoSpace(line[..k - 1]) && line[k - 1] != '\\' && line[k] == '='
  }

  /** The lazy `\S+?` takes the shortest key that lets the rest match. */
  function SplitFrom(line: string, k: nat): (r: Option<nat>)
    ensures r.Some? ==> k <= r.value && IsSplitAt(line, r.value)
    ensures r.Some? ==> forall m :: k <= m < r.value ==> !IsSplitAt(line, m)
    ensures r.None? ==> forall m :: k <= m ==> !IsSplitAt(line, m)
    decreases |line| - k
  {
    if k >= |line| then None
    else if IsSplitAt(line, k) then Some(k)
    else SplitFrom(line, k + 1)
  }

  function SplitPoint(line: string): Option<nat> {
    SplitFrom(line, 2)
  }

  // ---------------------------------------------------------------------
  // `assign_value`

  datatype ConfigError =
    | Malformed(line: string)   // `ValueError`: a line the pattern does not match
    | Failed                    // an exception from `parse_value` or from assigning into a non-dict

  /** The skipped leaf name has no dot in it. */
  lemma JsonObjectHasNoDot()
    ensures Find("json_object", ".", 0) == None
  {
    FindAbsent("json_object", '.');
  }

  /** The first segment of a dotted key. */
  function Head(key: string): string {
    match Find(key, ".", 0)
    case None => key
    case Some(i) => key[..i]
  }

  /** The last segment of a dotted key, the one `assign_value` finally assigns. */
  function Leaf(key: string): string
    decreases |key|
  {
    match Find(key, ".", 0)
    case None => key
    case Some(i) => Leaf(key[i + 1..])
  }

  /**
   * `assign_value(closure, key, value)` on a dict: split off the first
   * segment, create an empty dict for it when it is missing and descend; a
   * last segment `json_object` is skipped without parsing the value.
   */
  function Assign(es: Entries, key: string, raw: string): (r: Result<Entries, ConfigError>)
    ensures r.Ok? && key == "json_object" ==> r.value == es
    ensures r.Ok? && key != "json_object" ==> Keys(r.value) == Keys(es) + {Head(key)}
    ensures r.Ok? ==> forall k :: k in Keys(es) && k != Head(key) ==> Get(r.value, k) == Get(es, k)
    decreases |key|, 0
  {
    match Find(key, ".", 0)
    case None =>
      if key == "json_object" then Ok(es)
      else
        (match ParseValue(raw)
         case Ok(v) => Ok(Put(es, key, v))
         case Err(_) => Err(Failed))
    case Some(i) =>
      JsonObjectHasNoDot();
      var local := key[..i];
      var child := if local in Keys(es) then Get(es, local) else Map([]);
      match AssignInto(child, key[i + 1..], raw)
      case Ok(c) => Ok(Put(es, local, c))
      case Err(_) => Err(Failed)
  }

  /**
   * `assign_value` on whatever value sits at a key: a dict is assigned
   * into; anything else survives only the skipped `json_object` leaf, and
   * every other assignment into it raises.
   */
  function AssignInto(n: Node, key: string, raw: string): Result<Node, ConfigError>
    decreases |key|, 1
  {
    if n.Map? then
      match Assign(n.entries, key, raw)
      case Ok(es) => Ok(Map(es))
      case Err(_) => Err(Failed)
    else if key == "json_object" then Ok(n)
    else Err(Failed)
  }

  /** `closure[k1][k2]…[kn]` for the dotted key `k1.k2.….kn`, or `None` where it would fail. */
  function Lookup(n: Node, key: string): Option<Node>
    decreases |key|
  {
    match Find(key, ".", 0)
    case None => if n.Map? && key in Keys(n.entries) then Some(Get(n.entries, key)) else None
    case Some(i) =>
      if n.Map? && key[..i] in Keys(n.entries) then Lookup(Get(n.entries, key[..i]), key[i + 1..])
      else None
  }

  /** After an assignment the dotted key looks up the parsed value. */
  lemma {:induction false} AssignStores(es: Entries, key: string, raw: string)
    requires Assign(es, key, raw).Ok? && Leaf(key) != "json_object"
    ensures ParseValue(raw).Ok?
    ensures Lookup(Map(Assign(es, key, raw).value), key) == Some(ParseValue(raw).value)
    decreases |key|
  {
    match Find(key, ".", 0)
    case None =>
    case Some(i) =>
      var local := key[..i];
      var child := if local in Keys(es) then Get(es, local) else Map([]);
      var rest := key[i + 1..];
      assert Leaf(rest) == Leaf(key);
      JsonObjectHasNoDot();
      assert child.Map?;
      AssignStores(child.entries, rest, raw);
  }

  /** A `json_object` leaf is never parsed: the value on the line does not matter. */
  lemma {:induction false} AssignIgnoresJsonObject(es: Entries, key: string, raw1: string, raw2: string)
    requires Leaf(key) == "json_object"
    ensures Assign(es, key, raw1) == Assign(es, key, raw2)
    decreases |key|
  {
    match Find(key, ".", 0)
    case None =>
    case Some(i) =>
      var local := key[..i];
      var child := if local in Keys(es) then Get(es, local) else Map([]);
      assert Leaf(key[i + 1..]) == Leaf(key);
      if child.Map? {
        AssignIgnoresJsonObject(child.entries, key[i + 1..], raw1, raw2);
      }
  }

  /** Assignment keeps the tree well-formed: unique keys and no `None`. */
  lemma {:induction false} AssignValid(es: Entries, key: string, raw: string)
    requires Valid(Map(es)) && Assign(es, key, raw).Ok?
    ensures Valid(Map(Assign(es, key, raw).value))
    decreases |key|
  {
    match Find(key, ".", 0)
    case None =>
      if key != "json_object" {
        var v := ParseValue(raw).value;
        ValueValid(raw);
        PutValid(es, key, v);
      }
    case Some(i) =>
      var local := key[..i];
      var child := if local in Keys(es) then Get(es, local) else Map([]);
      assert Valid(child) by {
        if local in Keys(es) {
          var j :| 0 <= j < |es| && es[j] == (local, child);
        }
      }
      if child.Map? {
        AssignValid(child.entries, key[i + 1..], raw);
      }
      var c := AssignInto(child, key[i + 1..], raw).value;
      PutValid(es, local, c);
  }

  lemma PutValid(es: Entries, k: string, v: Node)
    requires Valid(Map(es)) && Valid(v)
    ensures Valid(Map(Put(es, k, v)))
  {
    var r := Put(es, k, v);
    PutUnique(es, k, v);
    forall i | 0 <= i < |r| ensures Valid(r[i].1) {
      assert r[i] in r;
      if r[i] != (k, v) {
        var j :| 0 <= j < |es| && es[j] == r[i];
      }
    }
  }

  // ---------------------------------------------------------------------
  // The loop over the lines

  /** What the loop masks: the dated fields, the version fields and the manifest version. */
  datatype Masking = Masking(dated: seq<string>, fields: seq<string>, version: Option<string>)

  /** The value after masking timestamps of dated fields and the version in version fields. */
  function MaskValue(key: string, value: string, m: Masking): string {
    var v := if key in m.dated then MaskDates(value) else value;
    if key in m.fields && m.version.Some? && m.version.value != [] then ReplaceAll(v, m.version.value, "VER.SI.ON") else v
  }

  /** One line of the loop: blank lines are skipped, others must match and are assigned. */
  function ParseLine(config: Entries, line: string, m: Masking): Result<Entries, ConfigError> {
    var l := Strip(line);
    if l == [] then Ok(config)
    else
      match SplitPoint(l)
      case None => Err(Malformed(l))
      case Some(k) => AssignLine(config, l, k, m)
  }

  /** A matched line: the unescaped key before `=` gets the masked value after it. */
  function AssignLine(config: Entries, l: string, k: nat, m: Masking): Result<Entries, ConfigError>
    requires k < |l|
  {
    var key := Unescape(l[..k]);
    Assign(config, key, MaskValue(key, l[k + 1..], m))
  }

  /** The dict after the remaining lines, starting from `config`, or the first error. */
  function ParseFrom(config: Entries, lines: seq<string>, m: Masking): Result<Entries, ConfigError>
    decreases |lines|
  {
    if lines == [] then Ok(config)
    else
      match ParseLine(config, lines[0], m)
      case Err(e) => Err(e)
      case Ok(c) => ParseFrom(c, lines[1..], m)
  }

  /** The fields whose values get the version masked: `manifest.version` joins them when it is set. */
  function Masks(text: string, dated: seq<string>, versionFields: seq<string>): Masking {
    var version := ManifestVersion(text);
    Masking(dated, versionFields + if version.Some? then ["manifest.version"] else [], version)
  }

  /** `parse_config(config_str, dated_fields, version_fields)`, keys sorted at the end. */
  function Parse(text: string, dated: seq<string>, versionFields: seq<string>): Result<Node, ConfigError> {
    match ParseFrom([], SplitLines(text), Masks(text, dated, versionFields))
    case Ok(c) => Ok(Canon(Map(c)))
    case Err(e) => Err(e)
  }

  lemma {:induction false} ParseFromValid(config: Entries, lines: seq<string>, m: Masking)
    requires Valid(Map(config)) && ParseFrom(config, lines, m).Ok?
    ensures Valid(Map(ParseFrom(config, lines, m).value))
    decreases |lines|
  {
    if lines != [] {
      var next := ParseLine(config, lines[0], m);
      assert ParseFrom(config, lines, m) == ParseFrom(next.value, lines[1..], m);
      LineValid(config, lines[0], m);
      ParseFromValid(next.value, lines[1..], m);
    }
  }

  lemma LineValid(config: Entries, line: string, m: Masking)
    requires Valid(Map(config)) && ParseLine(config, line, m).Ok?
    ensures Valid(Map(ParseLine(config, line, m).value))
  {
    var l := Strip(line);
    if l != [] {
      match SplitPoint(l)
      case Some(k) => AssignLineValid(config, l, k, m);
    }
  }

  lemma AssignLineValid(config: Entries, l: string, k: nat, m: Masking)
    requires k < |l| && Valid(Map(config)) && AssignLine(config, l, k, m).Ok?
    ensures Valid(Map(AssignLine(config, l, k, m).value))
  {
    var key := Unescape(l[..k]);
    AssignValid(config, key, MaskValue(key, l[k + 1..], m));
  }

  /** A parsed config is a well-formed tree with every dict's keys in ascending order. */
  lemma ParseValid(text: string, dated: seq<string>, versionFields: seq<string>)
    requires Parse(text, dated, versionFields).Ok?
    ensures Valid(Parse(text, dated, versionFields).value) && KeysSorted(Parse(text, dated, versionFields).value)
  {
    var m := Masks(text, dated, versionFields);
    ParseFromValid([], SplitLines(text), m);
    CanonEqual(Map(ParseFrom([], SplitLines(text), m).value));
  }

  // ---------------------------------------------------------------------
  // The loop over the lines as a whole.

  /** A line that is blank once stripped is skipped: it changes nothing. */
  lemma BlankSkipped(config: Entries, line: string, lines: seq<string>, m: Masking)
    requires Strip(line) == []
    ensures ParseFrom(config, [line] + lines, m) == ParseFrom(config, lines, m)
  {
    assert ([line] + lines)[1..] == lines;
  }

  /** The lines that are not blank once stripped, in their order. */
  function NonBlank(lines: seq<string>): (r: seq<string>)
    ensures |r| <= |lines|
    ensures forall i | 0 <= i < |r| :: Strip(r[i]) != []
  {
    if lines == [] then []
    else if Strip(lines[0]) == [] then NonBlank(lines[1..])
    else [lines[0]] + NonBlank(lines[1..])
  }

  /** Blank lines do not matter: the loop gives the same over the other lines alone. */
  lemma {:induction false} BlankLinesIgnored(config: Entries, lines: seq<string>, m: Masking)
    ensures ParseFrom(config, lines, m) == ParseFrom(config, NonBlank(lines), m)
    decreases |lines|
  {
    if lines != [] {
      var rest := lines[1..];
      if Strip(lines[0]) == [] {
        assert lines == [lines[0]] + rest;
        BlankSkipped(config, lines[0], rest, m);
        BlankLinesIgnored(config, rest, m);
      } else {
        var kept := [lines[0]] + NonBlank(rest);
        assert kept[0] == lines[0] && kept[1..] == NonBlank(rest);
        match ParseLine(config, lines[0], m)
        case Err(_) =>
        case Ok(c) => BlankLinesIgnored(c, rest, m);
      }
    }
  }

  /** A non-blank line the key pattern does not match is an error, whatever the dict so far. */
  lemma LineRejected(config: Entries, line: string, m: Masking)
    requires Strip(line) != [] && SplitPoint(Strip(line)).None?
    ensures ParseLine(config, line, m) == Err(Malformed(Strip(line)))
  {
  }

  /** Such a line raises `ValueError`, which ends the whole parse. */
  lemma ParseAborts(config: Entries, lines: seq<string>, m: Masking, j: nat)
    requires j < |lines| && Strip(lines[j]) != [] && SplitPoint(Strip(lines[j])).None?
    ensures ParseFrom(config, lines, m).Err?
  {
    ParseFromIsRun(config, lines, m);
    if Run(LineStep(m), config, lines).Ok? {
      var before := RunReaches(LineStep(m), config, lines, j);
      LineRejected(before, lines[j], m);
    }
  }

  /** One line of the text that does not match makes `parse_config` raise. */
  lemma ParseRejects(text: string, dated: seq<string>, versionFields: seq<string>, j: nat)
    requires j < |SplitLines(text)| && Strip(SplitLines(text)[j]) != []
    requires SplitPoint(Strip(SplitLines(text)[j])).None?
    ensures Parse(text, dated, versionFields).Err?
  {
    ParseAborts([], SplitLines(text), Masks(text, dated, versionFields), j);
  }

  /** A line the key pattern matches assigns its masked value under its unescaped key. */
  lemma LineAssigns(config: Entries, line: string, m: Masking, l: string, k: nat, key: string)
    requires l == Strip(line) && SplitPoint(l) == Some(k) && key == Unescape(l[..k])
    ensures k < |l| && ParseLine(config, line, m) == Assign(config, key, MaskValue(key, l[k + 1..], m))
  {
  }

  /**
   * After a line the pattern matches, the dict holds under the line's dotted
   * key the masked value of the line as `parse_value` reads it (unless its
   * leaf is `json_object`).
   */
  lemma StoredByLine(config: Entries, line: string, m: Masking, l: string, k: nat, key: string)
    requires ParseLine(config, line, m).Ok?
    requires l == Strip(line) && SplitPoint(l) == Some(k) && key == Unescape(l[..k])
    requires Leaf(key) != "json_object"
    ensures ParseValue(MaskValue(key, l[k + 1..], m)).Ok?
    ensures Lookup(Map(ParseLine(config, line, m).value), key) == Some(ParseValue(MaskValue(key, l[k + 1..], m)).value)
  {
    LineAssigns(config, line, m, l, k, key);
    AssignStores(config, key, MaskValue(key, l[k + 1..], m));
  }

  /** A loop that feeds each line to `step` in turn and stops at the first error. */
  function Run<S, E>(step: (S, string) -> Result<S, E>, s: S, lines: seq<string>): Result<S, E>
    decreases |lines|
  {
    if lines == [] then Ok(s)
    else
      match step(s, lines[0])
      case Err(e) => Err(e)
      case Ok(t) => Run(step, t, lines[1..])
  }

  /** A loop that succeeds ends with its last line, fed to the state `before` that the other lines built. */
  lemma {:induction false} RunLast<S, E>(step: (S, string) -> Result<S, E>, s: S, lines: seq<string>) returns (before: S)
    requires lines != [] && Run(step, s, lines).Ok?
    ensures step(before, lines[|lines| - 1]) == Run(step, s, lines)
    decreases |lines|
  {
    var t := step(s, lines[0]).value;
    if |lines| == 1 {
      assert lines[1..] == [];
      before := s;
    } else {
      assert lines[1..][|lines| - 2] == lines[|lines| - 1];
      before := RunLast(step, t, lines[1..]);
    }
  }

  /** A loop that succeeds feeds every line, in turn, to a state on which `step` succeeds. */
  lemma {:induction false} RunReaches<S, E>(step: (S, string) -> Result<S, E>, s: S, lines: seq<string>, j: nat) returns (before: S)
    requires j < |lines| && Run(step, s, lines).Ok?
    ensures step(before, lines[j]).Ok?
    decreases j
  {
    if j == 0 {
      before := s;
    } else {
      assert lines[1..][j - 1] == lines[j];
      before := RunReaches(step, step(s, lines[0]).value, lines[1..], j - 1);
    }
  }

  /** One turn of the loop over the lines of the dump. */
  function LineStep(m: Masking): (Entries, string) -> Result<Entries, ConfigError> {
    (config, line) => ParseLine(config, line, m)
  }

  /** The loop of `parse_config` is the generic loop with that turn. */
  lemma {:induction false} ParseFromIsRun(config: Entries, lines: seq<string>, m: Masking)
    ensures ParseFrom(config, lines, m) == Run(LineStep(m), config, lines)
    decreases |lines|
  {
    if lines != [] {
      assert LineStep(m)(config, lines[0]) == ParseLine(config, lines[0], m);
      match ParseLine(config, lines[0], m)
      case Err(_) =>
      case Ok(c) => ParseFromIsRun(c, lines[1..], m);
    }
  }

  /** The key on the last of the lines keeps the value that line stores: nothing comes after it. */
  lemma StoredByLastLine(config: Entries, lines: seq<string>, m: Masking, l: string, k: nat, key: string)
    requires lines != [] && ParseFrom(config, lines, m).Ok?
    requires l == Strip(lines[|lines| - 1]) && SplitPoint(l) == Some(k) && key == Unescape(l[..k])
    requires Leaf(key) != "json_object"
    ensures ParseValue(MaskValue(key, l[k + 1..], m)).Ok?
    ensures Lookup(Map(ParseFrom(config, lines, m).value), key) == Some(ParseValue(MaskValue(key, l[k + 1..], m)).value)
  {
    ParseFromIsRun(config, lines, m);
    var before := RunLast(LineStep(m), config, lines);
    StoredByLine(before, lines[|lines| - 1], m, l, k, key);
  }

  /** Python-equal dicts hold Python-equal values under the same key. */
  lemma GetEqual(xs: Entries, ys: Entries, k: string)
    requires Equal(Map(xs), Map(ys)) && k in Keys(ys)
    ensures k in Keys(xs) && Equal(Get(xs, k), Get(ys, k))
  {
    var i :| 0 <= i < |xs| && xs[i] == (k, Get(xs, k));
  }

  /** Python-equal trees look up Python-equal values under every dotted key. */
  lemma {:induction false} LookupEqual(a: Node, b: Node, key: string)
    requires Equal(a, b) && Lookup(b, key).Some?
    ensures Lookup(a, key).Some? && Equal(Lookup(a, key).value, Lookup(b, key).value)
    decreases |key|
  {
    assert a.Map? && b.Map?;
    match Find(key, ".", 0)
    case None =>
      GetEqual(a.entries, b.entries, key);
    case Some(i) =>
      GetEqual(a.entries, b.entries, key[..i]);
      LookupEqual(Get(a.entries, key[..i]), Get(b.entries, key[..i]), key[i + 1..]);
  }

  /** The key-sorted JSON round trip looks up a value `==` to the original's under every dotted key. */
  lemma CanonLookup(n: Node, key: string)
    requires WellKeyed(n) && Lookup(n, key).Some?
    ensures Lookup(Canon(n), key).Some? && Equal(Lookup(Canon(n), key).value, Lookup(n, key).value)
  {
    CanonEqual(n);
    LookupEqual(Canon(n), n, key);
  }

  /** The loop's dict `c` for the whole dump, of which the parsed config is the key-sorted round trip. */
  lemma ParsedFrom(text: string, dated: seq<string>, versionFields: seq<string>, n: Node) returns (c: Entries)
    requires Parse(text, dated, versionFields) == Ok(n)
    ensures ParseFrom([], SplitLines(text), Masks(text, dated, versionFields)) == Ok(c) && n == Canon(Map(c))
  {
    c := ParseFrom([], SplitLines(text), Masks(text, dated, versionFields)).value;
  }

  /** The key-sorted dict the lines build from `{}` looks up, under the last line's key, a value `==` to what that line stored. */
  lemma StoredInSorted(lines: seq<string>, m: Masking, c: Entries, l: string, k: nat, key: string)
    requires lines != [] && ParseFrom([], lines, m) == Ok(c)
    requires l == Strip(lines[|lines| - 1]) && SplitPoint(l) == Some(k) && key == Unescape(l[..k])
    requires Leaf(key) != "json_object"
    ensures ParseValue(MaskValue(key, l[k + 1..], m)).Ok?
    ensures Lookup(Canon(Map(c)), key).Some?
    ensures Equal(Lookup(Canon(Map(c)), key).value, ParseValue(MaskValue(key, l[k + 1..], m)).value)
  {
    StoredByLastLine([], lines, m, l, k, key);
    ParseFromValid([], lines, m);
    CanonLookup(Map(c), key);
  }

  /**
   * The key on the last line of the text looks up, in the parsed and sorted
   * config, a value `==` to the masked value of that line as `parse_value`
   * reads it: no later line can overwrite it.
   */
  lemma ParseStoresLast(text: string, dated: seq<string>, versionFields: seq<string>, n: Node, l: string, k: nat, key: string)
    requires Parse(text, dated, versionFields) == Ok(n) && SplitLines(text) != []
    requires l == Strip(SplitLines(text)[|SplitLines(text)| - 1]) && SplitPoint(l) == Some(k)
    requires key == Unescape(l[..k]) && Leaf(key) != "json_object"
    ensures ParseValue(MaskValue(key, l[k + 1..], Masks(text, dated, versionFields))).Ok?
    ensures Lookup(n, key).Some?
    ensures Equal(Lookup(n, key).value, ParseValue(MaskValue(key, l[k + 1..], Masks(text, dated, versionFields))).value)
  {
    var c := ParsedFrom(text, dated, versionFields, n);
    StoredInSorted(SplitLines(text), Masks(text, dated, versionFields), c, l, k, key);
  }

  /** The body of the loop over the lines. */
  method ParseConfigLine(config: Entries, lines: seq<string>, m: Masking) returns (r: Result<Entries, ConfigError>)
    requires lines != []
    ensures r == ParseLine(config, lines[0], m)
  {
    var line := Strip(lines[0]);
    if line == [] {
      return Ok(config);
    }
    var split := SplitPoint(line);
    if split.None? {
      return Err(Malformed(line));
    }
    var key := Unescape(line[..split.value]);
    var value := MaskValue(key, line[split.value + 1..], m);
    r := Assign(config, key, value);
  }

  method ParseConfig(configStr: string, datedFields: seq<string>, versionFields: seq<string>)
    returns (r: Result<Node, ConfigError>)
    ensures r == Parse(configStr, datedFields, versionFields)
  {
    var fields := versionFields;
    var version := ManifestVersion(configStr);
    if version.Some? {
      fields := fields + ["manifest.version"];
    }
    var m := Masking(datedFields, fields, version);
    assert m == Masks(configStr, datedFields, versionFields);
    var config: Entries := [];
    var lines := SplitLines(configStr);
    var i := 0;
    while i < |lines|
      invariant i <= |lines|
      invariant ParseFrom(config, lines[i..], m) == ParseFrom([], lines, m)
    {
      var outcome := ParseConfigLine(config, lines[i..], m);
      assert lines[i..][1..] == lines[i + 1..];
      if outcome.Err? {
        return Err(outcome.error);
      }
      config := outcome.value;
      i := i + 1;
    }
    return Ok(Canon(Map(config)));
  }

  /**
   * Only listed keys are masked: a key in neither list keeps its value as
   * written, and outside the version fields, or with no non-empty manifest
   * version, only the timestamps of dated keys change.
   */
  lemma MaskOnlyListed(key: string, value: string, m: Masking)
    ensures key !in m.dated && key !in m.fields ==> MaskValue(key, value, m) == value
    ensures key !in m.fields || m.version.None? || m.version.value == [] ==>
              MaskValue(key, value, m) == if key in m.dated then MaskDates(value) else value
  {
  }

  /**
   * The version is the text after the first `manifest?version=` line; when
   * there is one, `manifest.version` joins the version fields. The caller's
   * list is extended in a copy, never changed.
   */
  lemma MasksFields(text: string, dated: seq<string>, versionFields: seq<string>)
    ensures var m := Masks(text, dated, versionFields);
            var ls := SplitOn(text, "\n");
            && m.dated == dated
            && |m.fields| >= |versionFields| && m.fields[..|versionFields|] == versionFields
            && (m.version.None? <==> forall i :: 0 <= i < |ls| ==> !ManifestLine(ls[i]))
            && (m.version.None? ==> m.fields == versionFields)
            && (m.version.Some? ==> "manifest.version" in m.fields)
  {
    var m := Masks(text, dated, versionFields);
    assert m.version == FirstManifest(SplitOn(text, "\n"));
    if m.version.Some? {
      assert m.fields[|versionFields|] == "manifest.version";
    }
  }

  // ---------------------------------------------------------------------
  // Lines that show the key pattern at work.

  /** Text without a boundary is a single line. */
  lemma SingleLine(s: string)
    requires s != [] && Unbroken(s)
    ensures SplitLines(s) == [s]
  {
  }

  /** A lone line the key pattern does not match is the error of the whole loop. */
  lemma OnlyLineRejected(config: Entries, line: string, m: Masking)
    requires Strip(line) != [] && SplitPoint(Strip(line)).None?
    ensures ParseFrom(config, [line], m) == Err(Malformed(Strip(line)))
  {
  }

  /** The line `a=1` is a whole text of one line, with nothing to strip and no split point. */
  lemma OneCharacterLine()
    ensures SplitLines("a=1") == ["a=1"] && Strip("a=1") == "a=1"
    ensures SplitPoint("a=1") == None
  {
    assert !IsSplitAt("a=1", 2);
    assert Unbroken("a=1") by {
      assert 'a' !in LineBreaks && '=' !in LineBreaks && '1' !in LineBreaks;
    }
    SingleLine("a=1");
    assert NoSpace("a=1");
  }

  /** The line `ab=1` splits after its two-character key. */
  lemma TwoCharacterKey()
    ensures SplitPoint("ab=1") == Some(2)
  {
    assert "ab=1"[..1] == "a";
    assert IsSplitAt("ab=1", 2);
  }

  /** A one-character key does not match `\S+?[^\\]`: such a line is rejected; two characters will do. */
  lemma OneCharacterKeyRejected(dated: seq<string>, versionFields: seq<string>)
    ensures SplitPoint("a=1") == None
    ensures Parse("a=1", dated, versionFields) == Err(Malformed("a=1"))
    ensures SplitPoint("ab=1") == Some(2)
  {
    OneCharacterLine();
    OnlyLineRejected([], "a=1", Masks("a=1", dated, versionFields));
    TwoCharacterKey();
  }

  /** An escaped `=` stays in the key; the first unescaped one splits the line. */
  lemma EscapedEqualsInKey()
    ensures SplitPoint("a\\=b=c") == Some(4)
    ensures Unescape("a\\=b") == "a=b"
  {
    var line := "a\\=b=c";
    assert !IsSplitAt(line, 2) && !IsSplitAt(line, 3);
    assert line[..3] == "a\\=";
    assert IsSplitAt(line, 4);
    var k := "a\\=b";
    assert EscapeAt(k);
    assert k[3..] == "b";
  }
}
