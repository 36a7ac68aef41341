/**
 * The older documentation builder of `render-and-deploy-docs`: both of its
 * scripts split the README line by line into one section per `## ` header,
 * name each section's file, and build an mkdocs configuration whose `nav`
 * lists the sections in the order they first appear. The README is given as
 * its sequence of lines, each with its line terminator.
 */
module Sections {
  import opened Wrappers
  import opened Text

  // ---------------------------------------------------------------------
  // Section names and file names

  /** `line.startswith('## ')`: the line opens (or reopens) a section. */
  predicate IsHeaderLine(line: string) {
    StartsWith(line, "## ")
  }

  /** The number of `#` at the start of `s`. */
  function HashRun(s: string): (k: nat)
    ensures k <= |s|
    ensures forall i :: 0 <= i < k ==> s[i] == '#'
    ensures k < |s| ==> s[k] != '#'
  {
    if s != [] && s[0] == '#' then 1 + HashRun(s[1..]) else 0
  }

  /** `re.sub('^#+ ', '', s)`: a leading run of `#` followed by a space is removed. */
  function DropMarker(s: string): string {
    var k := HashRun(s);
    if 0 < k < |s| && s[k] == ' ' then s[k + 1..] else s
  }

  /** The header text of a line: right-stripped, without its `#` marker. */
  function Header(line: string): string {
    DropMarker(RStrip(line))
  }

  /** The key of the section a header line opens: "overview" in any letter case is `Home`. */
  function SectionName(line: string): string {
    var header := Header(line);
    if Lower(header) == "overview" then "Home" else header
  }

  /**
   * On a header line the marker removed is exactly its first three
   * characters `## `; only a line holding nothing but `## ` and trailing
   * whitespace keeps the `##`, because stripping takes its space away.
   */
  lemma HeaderOfHeaderLine(line: string)
    requires IsHeaderLine(line)
    ensures |RStrip(line)| >= 3 ==> Header(line) == RStrip(line)[3..]
    ensures |RStrip(line)| < 3 ==> Header(line) == "##"
  {
    var t := RStrip(line);
    assert line[0] == '#' && line[1] == '#' && line[2] == ' ';
    if |t| >= 3 {
      assert t[..3] == line[..3];
      assert t[1..][1..][0] == ' ';
      assert HashRun(t) == 2;
    } else {
      assert !IsSpace(line[1]) && IsSpace(line[2]);
      assert |t| == 2 && t == line[..2];
      assert HashRun(t) == 2;
    }
  }

  /** `s.replace(' ', '-')`. */
  function SpacesToDashes(s: string): (r: string)
    ensures |r| == |s|
    ensures forall i :: 0 <= i < |s| ==> r[i] == if s[i] == ' ' then '-' else s[i]
  {
    if s == [] then [] else [if s[0] == ' ' then '-' else s[0]] + SpacesToDashes(s[1..])
  }

  /** The name of the markdown file a section is written to, relative to `docs/`. */
  function DocFileName(name: string): string {
    if name == "Home" then "index.md" else SpacesToDashes(Lower(name)) + ".md"
  }

  /**
   * Home is `index.md`; any other section's file is its name in lower case
   * with every space turned into `-`, followed by `.md`.
   */
  lemma DocFileNameShape(name: string)
    ensures name == "Home" ==> DocFileName(name) == "index.md"
    ensures name != "Home" ==> var f := DocFileName(name);
      |f| == |name| + 3 && f[|name|..] == ".md"
      && (forall i :: 0 <= i < |name| ==> (f[i] != ' ' && !IsUpper(f[i])
          && (name[i] == ' ' ==> f[i] == '-')
          && (name[i] != ' ' ==> f[i] == LowerChar(name[i]))))
  {
    if name != "Home" {
      var f := DocFileName(name);
      var d := SpacesToDashes(Lower(name));
      assert f == d + ".md";
      forall i | 0 <= i < |name|
        ensures f[i] != ' ' && !IsUpper(f[i])
        ensures name[i] == ' ' ==> f[i] == '-'
        ensures name[i] != ' ' ==> f[i] == LowerChar(name[i])
      {
        assert f[i] == d[i];
        assert Lower(name)[i] == LowerChar(name[i]);
        assert LowerChar(name[i]) == ' ' <==> name[i] == ' ';
      }
    }
  }

  /**
   * File names are not unique to sections: a section headed `Index` is
   * written to the same `index.md` as Home.
   */
  lemma SharedFileName()
    ensures DocFileName("Index") == DocFileName("Home")
  {
    var l := Lower("Index");
    assert l[0] == 'i' && l[1] == 'n' && l[2] == 'd' && l[3] == 'e' && l[4] == 'x';
    assert l == "index";
    var d := SpacesToDashes(l);
    assert d[0] == 'i' && d[1] == 'n' && d[2] == 'd' && d[3] == 'e' && d[4] == 'x';
    assert d == "index";
  }

  // ---------------------------------------------------------------------
  // The `contents` and `paths` dicts, as association lists in insertion order

  type Contents = seq<(string, seq<string>)>
  type Paths = seq<(string, string)>

  function Names<T>(es: seq<(string, T)>): (r: seq<string>)
    ensures |r| == |es|
    ensures forall i :: 0 <= i < |es| ==> r[i] == es[i].0
  {
    seq(|es|, i requires 0 <= i < |es| => es[i].0)
  }

  /** `contents.setdefault(name, [])`, the dict it leaves behind. */
  function SetDefault(cs: Contents, name: string): Contents {
    if name in Names(cs) then cs else cs + [(name, [])]
  }

  /** The list `contents.setdefault(name, [])` returns, when `name` is a key. */
  function LinesOf(cs: Contents, name: string): seq<string> {
    if cs == [] then []
    else if cs[0].0 == name then cs[0].1
    else LinesOf(cs[1..], name)
  }

  /** `cur.append(line)` where `cur` is the list stored under `name`. */
  function AppendTo(cs: Contents, name: string, line: string): (r: Contents)
    ensures |r| == |cs|
    ensures forall m :: 0 <= m < |cs| ==> r[m] == if cs[m].0 == name then (name, cs[m].1 + [line]) else cs[m]
  {
    seq(|cs|, m requires 0 <= m < |cs| => if cs[m].0 == name then (name, cs[m].1 + [line]) else cs[m])
  }

  /** `paths[name] = file`. */
  function PutPath(ps: Paths, name: string, file: string): Paths {
    if name in Names(ps)
    then seq(|ps|, m requires 0 <= m < |ps| => if ps[m].0 == name then (name, file) else ps[m])
    else ps + [(name, file)]
  }

  // ---------------------------------------------------------------------
  // `split_readme`: the loop over the README's lines

  /** The two dicts and `cur`, which is the list of the section `current` names. */
  datatype Sectioning = Sectioning(contents: Contents, paths: Paths, current: Option<string>)

  const Start := Sectioning([], [], None)

  /** A header line: `cur = contents.setdefault(header, [])`, the path on first sight. */
  function OpenSection(st: Sectioning, name: string): Sectioning {
    var contents := SetDefault(st.contents, name);
    var paths := if LinesOf(contents, name) == [] then PutPath(st.paths, name, DocFileName(name)) else st.paths;
    Sectioning(contents, paths, Some(name))
  }

  /** One iteration: open a section on a header line, then keep the line if a section is open. */
  function TakeLine(st: Sectioning, line: string): Sectioning {
    var st' := if IsHeaderLine(line) then OpenSection(st, SectionName(line)) else st;
    match st'.current
    case None => st'
    case Some(name) => st'.(contents := AppendTo(st'.contents, name, line))
  }

  /** The state after the loop has read `lines`. */
  function SplitLines(lines: seq<string>): Sectioning
    decreases |lines|
  {
    if lines == [] then Start else TakeLine(SplitLines(lines[..|lines| - 1]), lines[|lines| - 1])
  }

  /** `split_readme` without its file writes: the sections and their paths. */
  method SplitReadme(lines: seq<string>) returns (contents: Contents, paths: Paths)
    ensures contents == SplitLines(lines).contents && paths == SplitLines(lines).paths
  {
    contents, paths := [], [];
    var cur: Option<string> := None;
    for i := 0 to |lines|
      invariant SplitLines(lines[..i]) == Sectioning(contents, paths, cur)
    {
      assert lines[..i + 1][..i] == lines[..i];
      var line := lines[i];
      if IsHeaderLine(line) {
        var header := SectionName(line);
        contents := SetDefault(contents, header);
        if LinesOf(contents, header) == [] {
          paths := PutPath(paths, header, DocFileName(header));
        }
        cur := Some(header);
      }
      if cur.None? {
        continue;
      }
      contents := AppendTo(contents, cur.value, line);
    }
    assert lines[..|lines|] == lines;
  }

  // ---------------------------------------------------------------------
  // What the loop computes, stated without the loop

  /** The section the last line read belongs to: that of the last header line. */
  function Current(lines: seq<string>): Option<string>
    decreases |lines|
  {
    if lines == [] then None
    else if IsHeaderLine(lines[|lines| - 1]) then Some(SectionName(lines[|lines| - 1]))
    else Current(lines[..|lines| - 1])
  }

  /** The section names in the order of their first header line. */
  function Order(lines: seq<string>): seq<string>
    decreases |lines|
  {
    if lines == [] then []
    else
      var before := Order(lines[..|lines| - 1]);
      var last := lines[|lines| - 1];
      if IsHeaderLine(last) && SectionName(last) !in before then before + [SectionName(last)] else before
  }

  /** The lines that belong to section `name`, in input order, each header line included. */
  function Under(lines: seq<string>, name: string): seq<string>
    decreases |lines|
  {
    if lines == [] then []
    else Under(lines[..|lines| - 1], name) + (if Current(lines) == Some(name) then [lines[|lines| - 1]] else [])
  }

  /** Each section of `order`, in that order, with the lines of `lines` it owns. */
  predicate Holds(cs: Contents, order: seq<string>, lines: seq<string>) {
    |cs| == |order| && forall m :: 0 <= m < |order| ==> cs[m] == (order[m], Under(lines, order[m]))
  }

  /** Each section of `order`, in that order, with its file name. */
  predicate PathsFor(ps: Paths, order: seq<string>) {
    |ps| == |order| && forall m :: 0 <= m < |order| ==> ps[m] == (order[m], DocFileName(order[m]))
  }

  predicate Matches(st: Sectioning, lines: seq<string>) {
    st.current == Current(lines) && Holds(st.contents, Order(lines), lines) && PathsFor(st.paths, Order(lines))
  }

  lemma LastOf(lines: seq<string>)
    requires lines != []
    ensures lines == lines[..|lines| - 1] + [lines[|lines| - 1]]
  {
  }

  lemma {:induction false} CurrentInOrder(lines: seq<string>)
    ensures Current(lines).Some? ==> Current(lines).value in Order(lines)
    decreases |lines|
  {
    if lines != [] {
      CurrentInOrder(lines[..|lines| - 1]);
    }
  }

  /** Every section begins with its own header line. */
  lemma {:induction false} UnderStartsWithHeader(lines: seq<string>, name: string)
    requires name in Order(lines)
    ensures Under(lines, name) != []
    ensures IsHeaderLine(Under(lines, name)[0]) && SectionName(Under(lines, name)[0]) == name
    decreases |lines|
  {
    var before := lines[..|lines| - 1];
    if name in Order(before) {
      UnderStartsWithHeader(before, name);
    } else {
      UnderEmpty(before, name);
    }
  }

  /** A name that was never a header has no lines. */
  lemma {:induction false} UnderEmpty(lines: seq<string>, name: string)
    requires name !in Order(lines)
    ensures Under(lines, name) == []
    decreases |lines|
  {
    if lines != [] {
      var before := lines[..|lines| - 1];
      assert name !in Order(before);
      UnderEmpty(before, name);
      CurrentInOrder(lines);
    }
  }

  /** The order of first appearance names every section once. */
  lemma {:induction false} OrderDistinct(lines: seq<string>)
    ensures forall i, j :: 0 <= i < j < |Order(lines)| ==> Order(lines)[i] != Order(lines)[j]
    decreases |lines|
  {
    if lines != [] {
      OrderDistinct(lines[..|lines| - 1]);
    }
  }

  lemma LinesOfFirst(cs: Contents, m: nat, name: string)
    requires m < |cs| && cs[m].0 == name
    requires forall k :: 0 <= k < m ==> cs[k].0 != name
    ensures LinesOf(cs, name) == cs[m].1
    decreases m
  {
    if m > 0 {
      LinesOfFirst(cs[1..], m - 1, name);
    }
  }

  lemma LinesOfLast(cs: Contents, name: string)
    requires name !in Names(cs)
    ensures LinesOf(cs + [(name, [])], name) == []
  {
    LinesOfFirst(cs + [(name, [])], |cs|, name);
  }

  /** Reading one more line. */
  lemma Snoc(lines: seq<string>, line: string)
    ensures var ls := lines + [line];
      ls[..|ls| - 1] == lines
      && Current(ls) == (if IsHeaderLine(line) then Some(SectionName(line)) else Current(lines))
      && Order(ls) == (if IsHeaderLine(line) && SectionName(line) !in Order(lines)
                       then Order(lines) + [SectionName(line)] else Order(lines))
      && forall k :: Under(ls, k) == Under(lines, k) + (if Current(ls) == Some(k) then [line] else [])
  {
    var ls := lines + [line];
    assert ls[..|ls| - 1] == lines;
  }

  lemma SnocUnder(lines: seq<string>, line: string, k: string)
    ensures Under(lines + [line], k) == Under(lines, k) + (if Current(lines + [line]) == Some(k) then [line] else [])
  {
    var ls := lines + [line];
    assert ls[..|ls| - 1] == lines;
  }

  /** A line outside every section leaves the sections as they were. */
  lemma KeepHolds(cs: Contents, order: seq<string>, lines: seq<string>, line: string)
    requires Holds(cs, order, lines) && Current(lines + [line]) == None
    ensures Holds(cs, order, lines + [line])
  {
    forall m | 0 <= m < |order| ensures cs[m] == (order[m], Under(lines + [line], order[m])) {
      SnocUnder(lines, line, order[m]);
      assert Under(lines + [line], order[m]) == Under(lines, order[m]) + [];
      assert Under(lines, order[m]) + [] == Under(lines, order[m]);
      assert cs[m] == (order[m], Under(lines, order[m]));
    }
  }

  /** A line of section `name` is appended to it and to no other. */
  lemma AppendHolds(cs: Contents, order: seq<string>, lines: seq<string>, line: string, name: string)
    requires Holds(cs, order, lines) && Current(lines + [line]) == Some(name)
    ensures Holds(AppendTo(cs, name, line), order, lines + [line])
  {
    var r := AppendTo(cs, name, line);
    forall m | 0 <= m < |order| ensures r[m] == (order[m], Under(lines + [line], order[m])) {
      SnocUnder(lines, line, order[m]);
      assert cs[m] == (order[m], Under(lines, order[m]));
      if order[m] == name {
        assert r[m] == (name, Under(lines, name) + [line]);
      } else {
        assert Under(lines + [line], order[m]) == Under(lines, order[m]) + [];
        assert Under(lines, order[m]) + [] == Under(lines, order[m]);
      }
    }
  }

  /** A plain line goes to the open section, if any. */
  lemma StepPlain(st: Sectioning, lines: seq<string>, line: string)
    requires Matches(st, lines) && !IsHeaderLine(line)
    ensures Matches(TakeLine(st, line), lines + [line])
  {
    Snoc(lines, line);
    if st.current.None? {
      KeepHolds(st.contents, Order(lines), lines, line);
    } else {
      AppendHolds(st.contents, Order(lines), lines, line, st.current.value);
    }
  }

  /** A header line of a section seen before reopens it; its path stays. */
  lemma StepReopen(st: Sectioning, lines: seq<string>, line: string)
    requires Matches(st, lines) && IsHeaderLine(line) && SectionName(line) in Order(lines)
    ensures Matches(TakeLine(st, line), lines + [line])
  {
    var name := SectionName(line);
    var order := Order(lines);
    Snoc(lines, line);
    assert Names(st.contents) == order;
    assert SetDefault(st.contents, name) == st.contents;
    var m :| 0 <= m < |order| && order[m] == name;
    OrderDistinct(lines);
    LinesOfFirst(st.contents, m, name);
    UnderStartsWithHeader(lines, name);
    assert OpenSection(st, name) == Sectioning(st.contents, st.paths, Some(name));
    AppendHolds(st.contents, order, lines, line, name);
  }

  /** A header line of a new section appends it, with its path, to both dicts. */
  lemma StepNew(st: Sectioning, lines: seq<string>, line: string)
    requires Matches(st, lines) && IsHeaderLine(line) && SectionName(line) !in Order(lines)
    ensures Matches(TakeLine(st, line), lines + [line])
  {
    var name := SectionName(line);
    var order := Order(lines);
    Snoc(lines, line);
    assert Names(st.contents) == order && Names(st.paths) == order;
    var cs := st.contents + [(name, [])];
    assert SetDefault(st.contents, name) == cs;
    LinesOfLast(st.contents, name);
    var ps := st.paths + [(name, DocFileName(name))];
    assert PutPath(st.paths, name, DocFileName(name)) == ps;
    assert OpenSection(st, name) == Sectioning(cs, ps, Some(name));
    UnderEmpty(lines, name);
    assert Holds(cs, order + [name], lines);
    AppendHolds(cs, order + [name], lines, line, name);
  }

  lemma TakeLineMatches(st: Sectioning, lines: seq<string>, line: string)
    requires Matches(st, lines)
    ensures Matches(TakeLine(st, line), lines + [line])
  {
    if !IsHeaderLine(line) {
      StepPlain(st, lines, line);
    } else if SectionName(line) in Order(lines) {
      StepReopen(st, lines, line);
    } else {
      StepNew(st, lines, line);
    }
  }

  /**
   * The sections `split_readme` collects: one per distinct section name, in
   * the order of its first header line; each holds, in input order, exactly
   * the lines from one of its header lines up to the next header line, its
   * header lines included; its path is that of its name. Lines before the
   * first header line belong to no section.
   */
  lemma {:induction false} SplitLinesSections(lines: seq<string>)
    ensures Matches(SplitLines(lines), lines)
    decreases |lines|
  {
    if lines != [] {
      var before := lines[..|lines| - 1];
      SplitLinesSections(before);
      LastOf(lines);
      TakeLineMatches(SplitLines(before), before, lines[|lines| - 1]);
    }
  }

  /** Without a header line, nothing is kept. */
  lemma {:induction false} PreambleDropped(lines: seq<string>)
    requires forall i :: 0 <= i < |lines| ==> !IsHeaderLine(lines[i])
    ensures SplitLines(lines) == Start
    decreases |lines|
  {
    if lines != [] {
      PreambleDropped(lines[..|lines| - 1]);
    }
  }

  /**
   * A repeated header adds its line to the section it names and changes
   * neither the order of the sections nor any path.
   */
  lemma Reopen(lines: seq<string>, line: string)
    requires IsHeaderLine(line) && SectionName(line) in Order(lines)
    ensures SplitLines(lines + [line]).paths == SplitLines(lines).paths
    ensures Names(SplitLines(lines + [line]).contents) == Names(SplitLines(lines).contents)
    ensures Under(lines + [line], SectionName(line)) == Under(lines, SectionName(line)) + [line]
  {
    var ls := lines + [line];
    assert ls[..|ls| - 1] == lines;
    SplitLinesSections(lines);
    SplitLinesSections(ls);
    assert Order(ls) == Order(lines);
  }

  // ---------------------------------------------------------------------
  // `get_pipeline_name` and the mkdocs configuration

  /** `repo.split('/')[1]`, or `None` where that raises `IndexError`. */
  function SecondSegment(repo: string): Option<string> {
    var parts := SplitOn(repo, "/");
    if |parts| >= 2 then Some(parts[1]) else None
  }

  lemma {:induction false} FindAbsent(s: string, c: char, from: nat)
    requires forall j :: from <= j < |s| ==> s[j] != c
    ensures Find(s, [c], from) == None
    decreases |s| - from
  {
    if from + 1 <= |s| {
      assert s[from..from + 1][0] == s[from];
      FindAbsent(s, c, from + 1);
    }
  }

  lemma {:induction false} FindFirst(s: string, c: char, from: nat, k: nat)
    requires from <= k < |s| && s[k] == c
    requires forall j :: from <= j < k ==> s[j] != c
    ensures Find(s, [c], from) == Some(k)
    decreases k - from
  {
    assert s[k..k + 1] == [c];
    if from < k {
      assert s[from..from + 1][0] == s[from];
      FindFirst(s, c, from + 1, k);
    }
  }

  /**
   * The pipeline name is the text between the first and the second `/`;
   * a repository name without `/` has none.
   */
  lemma SplitNoSlash(s: string)
    requires '/' !in s
    ensures SplitOn(s, "/") == [s]
  {
    FindAbsent(s, '/', 0);
  }

  lemma SplitAtFirst(pre: string, post: string)
    requires '/' !in pre
    ensures SplitOn(pre + "/" + post, "/") == [pre] + SplitOn(post, "/")
  {
    var s := pre + "/" + post;
    assert forall j :: 0 <= j < |pre| ==> s[j] == pre[j];
    FindFirst(s, '/', 0, |pre|);
    assert s[..|pre|] == pre && s[|pre| + 1..] == post;
  }

  lemma PipelineNameOf(owner: string, name: string)
    requires '/' !in owner && '/' !in name
    ensures SecondSegment(owner + "/" + name) == Some(name)
    ensures SecondSegment(owner) == None
  {
    SplitNoSlash(owner);
    SplitNoSlash(name);
    SplitAtFirst(owner, name);
  }

  /** Later segments are ignored. */
  lemma PipelineNameOfLonger(owner: string, name: string, rest: string)
    requires '/' !in owner && '/' !in name
    ensures SecondSegment(owner + "/" + (name + "/" + rest)) == Some(name)
  {
    var tail := name + "/" + rest;
    SplitAtFirst(name, rest);
    SplitAtFirst(owner, tail);
    assert SplitOn(owner + "/" + tail, "/")[1] == SplitOn(tail, "/")[0];
  }

  /**
   * `get_pipeline_name` of `build_config_yaml_from_readme.py`: the loop over
   * the prefixes `pipeline` and `metapipeline` discards what `replace`
   * returns, so the second segment comes back as it is.
   */
  method PipelineNameFromEnvironment(repo: string) returns (r: Option<string>)
    ensures r == SecondSegment(repo)
  {
    var segment := SecondSegment(repo);
    if segment.None? {
      return None;
    }
    var pipelineName := segment.value;
    var keys := ["pipeline", "metapipeline"];
    for k := 0 to |keys| {
      if StartsWith(pipelineName, keys[k]) {
        var discarded := ReplaceAll(pipelineName, keys[k], "");
        break;
      }
    }
    r := Some(pipelineName);
  }

  /** The six keys of the configuration both scripts write to `mkdocs.yml`. */
  datatype SiteConfig = SiteConfig(
    siteName: string,
    docsDir: string,
    repoUrl: string,
    nav: seq<(string, string)>,
    theme: string,
    markdownExtensions: seq<string>)

  /** `get_mkdocs_config_data(None, repo)`; `None` where `get_pipeline_name` raises. */
  function DefaultSiteConfig(repo: string): Option<SiteConfig> {
    match SecondSegment(repo)
    case None => None
    case Some(name) => Some(SiteConfig(name, "docs/", "https://github.com/" + repo, [], "readthedocs", ["tables", "admonition"]))
  }

  /** `Path(docs_dir / file).name`: the last component of the file's path. */
  function BaseName(file: string): string {
    AfterLast(file, '/')
  }

  /** `[{key: val.name} for key, val in paths.items()]`. */
  function NavOf(paths: Paths): (r: seq<(string, string)>)
    ensures |r| == |paths|
    decreases |paths|
  {
    if paths == [] then []
    else NavOf(paths[..|paths| - 1]) + [(paths[|paths| - 1].0, BaseName(paths[|paths| - 1].1))]
  }

  /** Each path becomes the entry pairing its section with the file's base name. */
  lemma {:induction false} NavOfAt(paths: Paths)
    ensures forall m :: 0 <= m < |paths| ==> NavOf(paths)[m] == (paths[m].0, BaseName(paths[m].1))
    decreases |paths|
  {
    if paths != [] {
      var before := paths[..|paths| - 1];
      NavOfAt(before);
      assert forall m :: 0 <= m < |before| ==> before[m] == paths[m];
    }
  }

  /** The loop `config_data['nav'].append({key: val.name})` over the paths. */
  method AppendNav(nav: seq<(string, string)>, paths: Paths) returns (r: seq<(string, string)>)
    ensures r == nav + NavOf(paths)
  {
    r := nav;
    for k := 0 to |paths|
      invariant r == nav + NavOf(paths[..k])
    {
      var entry := (paths[k].0, BaseName(paths[k].1));
      assert paths[..k + 1][..k] == paths[..k];
      assert NavOf(paths[..k + 1]) == NavOf(paths[..k]) + [entry];
      r := r + [entry];
    }
    assert paths[..|paths|] == paths;
  }

  /** The configuration of `create_mkdocs_config.py` without a config file. */
  function RenderConfig(repo: string, lines: seq<string>): Option<SiteConfig> {
    match DefaultSiteConfig(repo)
    case None => None
    case Some(config) => Some(config.(nav := config.nav + NavOf(SplitLines(lines).paths)))
  }

  /** `build_mkdocs_config` of `create_mkdocs_config.py`, without a config file. */
  method BuildRenderConfig(repo: string, lines: seq<string>) returns (r: Option<SiteConfig>)
    ensures r == RenderConfig(repo, lines)
  {
    var config := DefaultSiteConfig(repo);
    if config.None? {
      return None;
    }
    var contents, paths := SplitReadme(lines);
    var nav := AppendNav(config.value.nav, paths);
    r := Some(config.value.(nav := nav));
  }

  /** `build_mkdocs_config` of `build_config_yaml_from_readme.py`. */
  function ReadmeConfig(repo: string, lines: seq<string>): Option<SiteConfig> {
    match SecondSegment(repo)
    case None => None
    case Some(name) =>
      Some(SiteConfig(name, "docs/", "https://github.com/" + repo, NavOf(SplitLines(lines).paths),
        "readthedocs", ["tables", "admonition"]))
  }

  /** A section name without `/` is its own file's base name. */
  lemma BaseNameOfPlain(name: string)
    requires '/' !in name
    ensures BaseName(DocFileName(name)) == DocFileName(name)
  {
    DocFileNameNoSlash(name);
    AfterLastWhole(DocFileName(name), '/');
  }

  lemma DocFileNameNoSlash(name: string)
    requires '/' !in name
    ensures '/' !in DocFileName(name)
  {
    var f := DocFileName(name);
    DocFileNameShape(name);
    if name != "Home" {
      forall i | 0 <= i < |f| ensures f[i] != '/' {
        if i >= |name| {
          assert f[i] == f[|name|..][i - |name|];
        } else {
          assert name[i] != '/';
        }
      }
    }
  }

  /**
   * Both scripts write the same configuration: site name the second segment
   * of the repository name, `repo_url` the GitHub address, and one `nav`
   * entry per section, in order of first appearance, pairing the section's
   * name with its file name.
   */
  lemma ConfigsAgree(repo: string, lines: seq<string>)
    ensures RenderConfig(repo, lines) == ReadmeConfig(repo, lines)
    ensures RenderConfig(repo, lines).Some? <==> SecondSegment(repo).Some?
    ensures RenderConfig(repo, lines).Some? ==>
      var c := RenderConfig(repo, lines).value;
      var order := Order(lines);
      c.siteName == SecondSegment(repo).value && c.repoUrl == "https://github.com/" + repo
      && |c.nav| == |order|
      && forall m :: 0 <= m < |order| ==> c.nav[m] == (order[m], BaseName(DocFileName(order[m])))
  {
    SplitLinesSections(lines);
    NavOfAt(SplitLines(lines).paths);
    assert [] + NavOf(SplitLines(lines).paths) == NavOf(SplitLines(lines).paths);
  }
}
