/**
 * The documentation builder of `build-and-deploy-docs`: GitHub heading
 * anchors, page file names, splitting the README's token stream into one
 * page per H2, the anchor-to-page table, rewriting of fragment-only links,
 * the default mkdocs configuration and the navigation it ends up with.
 * Tokens come from a Markdown tokeniser that is not part of this model; a
 * token is its type, its tag and its text content.
 */
module Pages {
  import opened Wrappers
  import opened Text

  // ---------------------------------------------------------------------
  // `get_heading_anchor`

  /** `re.sub(r"\s", "-", s)`. */
  function DashSpaces(s: string): (r: string)
    ensures |r| == |s|
    ensures forall i :: 0 <= i < |s| ==> r[i] == if IsSpace(s[i]) then '-' else s[i]
  {
    if s == [] then [] else [if IsSpace(s[0]) then '-' else s[0]] + DashSpaces(s[1..])
  }

  predicate AnchorChar(c: char) {
    IsWordChar(c) || c == '-'
  }

  /** `re.sub(r"[^\w_-]", "", s)`: keeps word characters, `_` and `-`. */
  function DropSpecials(s: string): (r: string)
    ensures forall i :: 0 <= i < |r| ==> AnchorChar(r[i])
    ensures |r| <= |s|
  {
    if s == [] then []
    else if AnchorChar(s[0]) then [s[0]] + DropSpecials(s[1..])
    else DropSpecials(s[1..])
  }

  /** Every anchor character is kept as often as it occurs. */
  lemma {:induction false} DropSpecialsCounts(s: string)
    ensures forall c | AnchorChar(c) :: multiset(DropSpecials(s))[c] == multiset(s)[c]
    decreases |s|
  {
    if s != [] {
      assert s == [s[0]] + s[1..];
      DropSpecialsCounts(s[1..]);
    }
  }

  /** Filtering a concatenation filters each part in turn, so kept characters stay in order. */
  lemma {:induction false} DropSpecialsConcat(a: string, b: string)
    ensures DropSpecials(a + b) == DropSpecials(a) + DropSpecials(b)
    decreases |a|
  {
    if a != [] {
      assert (a + b)[0] == a[0] && (a + b)[1..] == a[1..] + b;
      DropSpecialsConcat(a[1..], b);
      if AnchorChar(a[0]) {
        assert DropSpecials(a + b) == [a[0]] + (DropSpecials(a[1..]) + DropSpecials(b));
      } else {
        assert DropSpecials(a + b) == DropSpecials(a[1..]) + DropSpecials(b);
      }
    } else {
      assert a + b == b;
    }
  }

  /** The anchor name GitHub gives a heading with this text. */
  function Anchor(text: string): (r: string)
    ensures forall i :: 0 <= i < |r| ==> AnchorChar(r[i]) && !IsUpper(r[i])
  {
    Lower(DropSpecials(DashSpaces(Strip(text))))
  }

  /** An anchor holds no whitespace. */
  lemma AnchorHasNoSpace(text: string)
    ensures NoSpace(Anchor(text))
  {
    var a := Anchor(text);
    forall i | 0 <= i < |a| ensures !IsSpace(a[i]) {
      AnchorCharNotSpace(a[i]);
    }
  }

  lemma AnchorCharNotSpace(c: char)
    requires AnchorChar(c)
    ensures !IsSpace(c)
  {
  }

  lemma {:induction false} DashSpacesNoSpace(s: string)
    requires NoSpace(s)
    ensures DashSpaces(s) == s
  {
    if s != [] {
      assert NoSpace(s[1..]) by { forall i | 0 <= i < |s| - 1 ensures !IsSpace(s[1..][i]) { assert s[1..][i] == s[i + 1]; } }
      DashSpacesNoSpace(s[1..]);
    }
  }

  lemma {:induction false} DropSpecialsKeeps(s: string)
    requires forall i :: 0 <= i < |s| ==> AnchorChar(s[i])
    ensures DropSpecials(s) == s
  {
    if s != [] {
      assert forall i :: 0 <= i < |s| - 1 ==> s[1..][i] == s[i + 1];
      DropSpecialsKeeps(s[1..]);
    }
  }

  /** An anchor is its own anchor, so a link that already names the anchor finds its heading. */
  lemma AnchorIdempotent(text: string)
    ensures Anchor(Anchor(text)) == Anchor(text)
  {
    var a := Anchor(text);
    AnchorHasNoSpace(text);
    DashSpacesNoSpace(a);
    DropSpecialsKeeps(a);
    assert Lower(a) == a;
  }

  // ---------------------------------------------------------------------
  // Pages

  /** A Markdown token: its type (`heading_open`, `inline`, ...), tag (`h2`, ...) and content. */
  datatype Token = Token(kind: string, tag: string, content: string)

  datatype Page = Page(title: string, filename: string, tokens: seq<Token>)

  predicate IsHeading(t: Token) {
    t.kind == "heading_open"
  }

  predicate IsH2(t: Token) {
    IsHeading(t) && t.tag == "h2"
  }

  /** `Page.get_filename`: the explicit file name, else the title's anchor with `.md`. */
  function FileName(p: Page): (r: string)
    ensures r != []
    ensures p.filename == "" ==> r == Anchor(p.title) + ".md"
    ensures p.filename != "" ==> r == p.filename
  {
    if p.filename == "" then Anchor(p.title) + ".md" else p.filename
  }

  /** The tokens of all pages, in page order. */
  function Flatten(pages: seq<Page>): seq<Token> {
    if pages == [] then [] else Flatten(pages[..|pages| - 1]) + pages[|pages| - 1].tokens
  }

  /** The number of H2 headings among `ts`. */
  function H2Count(ts: seq<Token>): nat {
    if ts == [] then 0 else H2Count(ts[..|ts| - 1]) + if IsH2(ts[|ts| - 1]) then 1 else 0
  }

  lemma {:induction false} H2CountMonotone(ts: seq<Token>, j: nat, i: nat)
    requires j <= i <= |ts|
    ensures H2Count(ts[..j]) <= H2Count(ts[..i])
    decreases i
  {
    if j < i {
      assert ts[..i][..i - 1] == ts[..i - 1];
      H2CountMonotone(ts, j, i - 1);
    }
  }

  /** The index of the page that token `j` lands in. */
  function Owner(tokens: seq<Token>, j: nat): nat
    requires j < |tokens|
  {
    H2Count(tokens[..j + 1])
  }

  /** The anchor of the heading that opens at `j`, named by the next token's content. */
  function AnchorAt(tokens: seq<Token>, j: nat): string
    requires j + 1 < |tokens|
  {
    Anchor(tokens[j + 1].content)
  }

  datatype Split = Split(pages: seq<Page>, anchors: map<string, string>)

  datatype SplitError =
    | MissingHeadingText          // a heading is the last token: `None.content`
    | DuplicateAnchor(anchor: string)  // `assert anchor not in anchor_pages`

  const Home := Page("Home", "index.md", [])

  function AppendToLast(pages: seq<Page>, t: Token): (r: seq<Page>)
    requires pages != []
    ensures |r| == |pages| && r[..|r| - 1] == pages[..|pages| - 1]
    ensures r[|r| - 1] == pages[|pages| - 1].(tokens := pages[|pages| - 1].tokens + [t])
  {
    var last := pages[|pages| - 1];
    pages[..|pages| - 1] + [last.(tokens := last.tokens + [t])]
  }

  /** The pages after token `i`: an H2 first opens a page titled by the next token, then the token joins the last page. */
  function NextPages(pages: seq<Page>, tokens: seq<Token>, i: nat): (r: seq<Page>)
    requires i < |tokens| && pages != [] && (IsHeading(tokens[i]) ==> i + 1 < |tokens|)
    ensures r != []
  {
    var t := tokens[i];
    var withPage := if IsH2(t) then pages + [Page(tokens[i + 1].content, "", [])] else pages;
    AppendToLast(withPage, t)
  }

  /** One turn of the pairwise loop over the tokens. */
  function Step(st: Split, tokens: seq<Token>, i: nat): (r: Result<Split, SplitError>)
    requires i < |tokens| && st.pages != []
    ensures r.Ok? ==> (IsHeading(tokens[i]) ==> i + 1 < |tokens|) && r.value.pages == NextPages(st.pages, tokens, i)
  {
    var t := tokens[i];
    if !IsHeading(t) then Ok(Split(NextPages(st.pages, tokens, i), st.anchors))
    else if i + 1 == |tokens| then Err(MissingHeadingText)
    else
      var pages := NextPages(st.pages, tokens, i);
      var anchor := AnchorAt(tokens, i);
      if anchor in st.anchors then Err(DuplicateAnchor(anchor))
      else Ok(Split(pages, st.anchors[anchor := FileName(pages[|pages| - 1])]))
  }

  function SplitFrom(st: Split, tokens: seq<Token>, i: nat): (r: Result<Split, SplitError>)
    requires i <= |tokens| && st.pages != []
    ensures r.Ok? ==> r.value.pages != []
    decreases |tokens| - i
  {
    if i == |tokens| then Ok(st)
    else
      match Step(st, tokens, i)
      case Err(e) => Err(e)
      case Ok(next) => SplitFrom(next, tokens, i + 1)
  }

  /** The pages and anchor table of `split_readme_new`. */
  function SplitPages(tokens: seq<Token>): (r: Result<Split, SplitError>)
    ensures r.Ok? ==> r.value.pages != []
  {
    SplitFrom(Split([Home], map[]), tokens, 0)
  }

  /** Appending a token to the last page keeps that page's file name. */
  lemma LastFileName(pages: seq<Page>, t: Token)
    requires pages != []
    ensures FileName(AppendToLast(pages, t)[|pages| - 1]) == FileName(pages[|pages| - 1])
  {
  }

  /** One turn of `split_readme_new`'s loop; `current_page` is the last page of the list. */
  method TakeToken(pages: seq<Page>, anchors: map<string, string>, tokens: seq<Token>, i: nat)
    returns (r: Result<Split, SplitError>)
    requires i < |tokens| && pages != []
    ensures r == Step(Split(pages, anchors), tokens, i)
  {
    var pages, anchors := pages, anchors;
    var token := tokens[i];
    if token.kind == "heading_open" {
      if i + 1 == |tokens| {
        return Err(MissingHeadingText);
      }
      var headingContent := tokens[i + 1].content;
      if token.tag == "h2" {
        pages := pages + [Page(headingContent, "", [])];
      }
      var anchor := Anchor(headingContent);
      if anchor in anchors {
        return Err(DuplicateAnchor(anchor));
      }
      anchors := anchors[anchor := FileName(pages[|pages| - 1])];
      LastFileName(pages, token);
    }
    pages := AppendToLast(pages, token);
    return Ok(Split(pages, anchors));
  }

  /** `split_readme_new`'s page loop. */
  method SplitReadme(tokens: seq<Token>) returns (r: Result<Split, SplitError>)
    ensures r == SplitPages(tokens)
  {
    var pages := [Home];
    var anchors: map<string, string> := map[];
    var i := 0;
    while i < |tokens|
      invariant i <= |tokens| && pages != []
      invariant SplitFrom(Split(pages, anchors), tokens, i) == SplitPages(tokens)
    {
      var step := TakeToken(pages, anchors, tokens, i);
      if step.Err? {
        return Err(step.error);
      }
      pages, anchors := step.value.pages, step.value.anchors;
      i := i + 1;
    }
    return Ok(Split(pages, anchors));
  }

  // ---------------------------------------------------------------------
  // What the split keeps: every token once, in order; one page per H2.

  predicate HeadingsHaveText(tokens: seq<Token>, i: nat)
    requires i <= |tokens|
  {
    forall j :: 0 <= j < i && IsHeading(tokens[j]) ==> j + 1 < |tokens|
  }

  predicate Shape(pages: seq<Page>, tokens: seq<Token>, i: nat)
    requires i <= |tokens|
  {
    && |pages| == 1 + H2Count(tokens[..i])
    && pages[0].title == "Home" && pages[0].filename == "index.md"
    && Flatten(pages) == tokens[..i]
    && HeadingsHaveText(tokens, i)
  }

  lemma FlattenAppendToLast(pages: seq<Page>, t: Token)
    requires pages != []
    ensures Flatten(AppendToLast(pages, t)) == Flatten(pages) + [t]
  {
    var r := AppendToLast(pages, t);
    assert r[..|r| - 1] == pages[..|pages| - 1];
  }

  lemma FlattenPush(pages: seq<Page>, p: Page)
    requires p.tokens == []
    ensures Flatten(pages + [p]) == Flatten(pages)
  {
    assert (pages + [p])[..|pages|] == pages;
  }

  lemma H2CountSnoc(ts: seq<Token>, t: Token)
    ensures H2Count(ts + [t]) == H2Count(ts) + if IsH2(t) then 1 else 0
  {
    assert (ts + [t])[..|ts|] == ts;
  }

  /** The pages gain a page exactly at an H2, and their tokens gain token `i`. */
  lemma NextPagesGrow(pages: seq<Page>, tokens: seq<Token>, i: nat)
    requires i < |tokens| && pages != [] && (IsHeading(tokens[i]) ==> i + 1 < |tokens|)
    ensures |NextPages(pages, tokens, i)| == |pages| + if IsH2(tokens[i]) then 1 else 0
    ensures NextPages(pages, tokens, i)[0].title == pages[0].title
    ensures NextPages(pages, tokens, i)[0].filename == pages[0].filename
    ensures Flatten(NextPages(pages, tokens, i)) == Flatten(pages) + [tokens[i]]
  {
    var t := tokens[i];
    var withPage := if IsH2(t) then pages + [Page(tokens[i + 1].content, "", [])] else pages;
    if IsH2(t) { FlattenPush(pages, Page(tokens[i + 1].content, "", [])); }
    FlattenAppendToLast(withPage, t);
  }

  lemma StepShape(pages: seq<Page>, tokens: seq<Token>, i: nat)
    requires i < |tokens| && pages != [] && (IsHeading(tokens[i]) ==> i + 1 < |tokens|)
    requires Shape(pages, tokens, i)
    ensures Shape(NextPages(pages, tokens, i), tokens, i + 1)
  {
    assert tokens[..i + 1] == tokens[..i] + [tokens[i]];
    H2CountSnoc(tokens[..i], tokens[i]);
    NextPagesGrow(pages, tokens, i);
  }

  lemma {:induction false} SplitFromShape(st: Split, tokens: seq<Token>, i: nat)
    requires i <= |tokens| && st.pages != [] && Shape(st.pages, tokens, i)
    requires SplitFrom(st, tokens, i).Ok?
    ensures Shape(SplitFrom(st, tokens, i).value.pages, tokens, |tokens|)
    decreases |tokens| - i
  {
    if i < |tokens| {
      StepShape(st.pages, tokens, i);
      SplitFromShape(Step(st, tokens, i).value, tokens, i + 1);
    }
  }

  /**
   * The first page is Home at `index.md`, there is one more page per H2, every
   * heading is followed by its text, and the pages' tokens, concatenated, are
   * the input in order.
   */
  lemma SplitKeepsTokens(tokens: seq<Token>)
    requires SplitPages(tokens).Ok?
    ensures var s := SplitPages(tokens).value;
            && |s.pages| == 1 + H2Count(tokens)
            && s.pages[0].title == "Home" && FileName(s.pages[0]) == "index.md"
            && Flatten(s.pages) == tokens
            && HeadingsHaveText(tokens, |tokens|)
  {
    assert tokens[..0] == [];
    SplitFromShape(Split([Home], map[]), tokens, 0);
    assert tokens[..|tokens|] == tokens;
  }

  // ---------------------------------------------------------------------
  // Page titles: each page after Home opens with its H2 and is named by it.

  /** Home holds no H2; every later page holds exactly one H2, its first token, and has no file name. */
  predicate PageHolds(p: Page, k: nat) {
    if k == 0 then forall m :: 0 <= m < |p.tokens| ==> !IsH2(p.tokens[m])
    else
      && p.tokens != [] && IsH2(p.tokens[0]) && p.filename == ""
      && forall m :: 1 <= m < |p.tokens| ==> !IsH2(p.tokens[m])
  }

  /** Page `k` starts at the H2 token `j` after the earlier pages' tokens and is titled by token `j + 1`. */
  predicate Titled(pages: seq<Page>, tokens: seq<Token>, k: nat)
    requires 1 <= k < |pages| && PageHolds(pages[k], k)
  {
    var j := |Flatten(pages[..k])|;
    j + 1 < |tokens| && tokens[j] == pages[k].tokens[0] && pages[k].title == tokens[j + 1].content
  }

  predicate Titles(pages: seq<Page>, tokens: seq<Token>)
  {
    && (forall k :: 0 <= k < |pages| ==> PageHolds(pages[k], k))
    && forall k :: 1 <= k < |pages| ==> Titled(pages, tokens, k)
  }

  lemma AppendHolds(p: Page, k: nat, t: Token)
    requires PageHolds(p, k) && !IsH2(t)
    ensures PageHolds(p.(tokens := p.tokens + [t]), k)
  {
    var q := p.(tokens := p.tokens + [t]);
    assert forall m :: 0 <= m < |p.tokens| ==> q.tokens[m] == p.tokens[m];
  }

  /** An H2 opens a page holding just that heading, titled by the next token. */
  lemma StepTitlesH2(pages: seq<Page>, tokens: seq<Token>, i: nat)
    requires i + 1 < |tokens| && pages != [] && IsH2(tokens[i])
    requires Shape(pages, tokens, i) && Titles(pages, tokens)
    ensures Titles(NextPages(pages, tokens, i), tokens)
  {
    var t := tokens[i];
    var next := NextPages(pages, tokens, i);
    var n := |pages|;
    var newPage := Page(tokens[i + 1].content, "", []);
    var withPage := pages + [newPage];
    assert next == AppendToLast(withPage, t);
    assert withPage[..n] == pages;
    assert newPage.tokens + [t] == [t];
    assert next == pages + [newPage.(tokens := [t])];
    forall k | 0 <= k < |next| ensures PageHolds(next[k], k) {
      if k < n { assert next[k] == pages[k]; }
    }
    forall k | 1 <= k < |next| ensures Titled(next, tokens, k) {
      if k < n {
        assert next[..k] == pages[..k] && next[k] == pages[k];
        assert Titled(pages, tokens, k);
      } else {
        assert next[..n] == pages;
        assert |Flatten(next[..n])| == i;
      }
    }
  }

  /** A token that is not an H2 joins the last page and leaves page `k` holding what it held. */
  lemma OtherHoldsAt(pages: seq<Page>, t: Token, k: nat)
    requires pages != [] && !IsH2(t) && k < |pages| && PageHolds(pages[k], k)
    ensures PageHolds(AppendToLast(pages, t)[k], k)
  {
    var next := AppendToLast(pages, t);
    var n := |pages|;
    if k < n - 1 {
      assert next[k] == next[..n - 1][k] == pages[..n - 1][k] == pages[k];
    } else {
      AppendHolds(pages[k], k, t);
    }
  }

  /** A token that is not an H2 joins the last page and leaves page `k` titled as it was. */
  lemma OtherTitledAt(pages: seq<Page>, tokens: seq<Token>, t: Token, k: nat)
    requires pages != [] && !IsH2(t) && 1 <= k < |pages| && PageHolds(pages[k], k) && Titled(pages, tokens, k)
    ensures PageHolds(AppendToLast(pages, t)[k], k) && Titled(AppendToLast(pages, t), tokens, k)
  {
    OtherHoldsAt(pages, t, k);
    var next := AppendToLast(pages, t);
    var n := |pages|;
    assert next[..k] == next[..n - 1][..k] == pages[..n - 1][..k] == pages[..k];
    if k == n - 1 {
      assert next[k].tokens == pages[k].tokens + [t];
    } else {
      assert next[k] == next[..n - 1][k] == pages[k];
    }
  }

  /** Any other token joins the last page, leaving every title and first token as it was. */
  lemma StepTitlesOther(pages: seq<Page>, tokens: seq<Token>, i: nat)
    requires i < |tokens| && pages != [] && !IsH2(tokens[i]) && (IsHeading(tokens[i]) ==> i + 1 < |tokens|)
    requires Titles(pages, tokens)
    ensures Titles(NextPages(pages, tokens, i), tokens)
  {
    var next := NextPages(pages, tokens, i);
    assert next == AppendToLast(pages, tokens[i]);
    forall k | 0 <= k < |next| ensures PageHolds(next[k], k) {
      OtherHoldsAt(pages, tokens[i], k);
    }
    forall k | 1 <= k < |next| ensures Titled(next, tokens, k) {
      OtherTitledAt(pages, tokens, tokens[i], k);
    }
  }

  lemma {:induction false} SplitFromTitles(st: Split, tokens: seq<Token>, i: nat)
    requires i <= |tokens| && st.pages != [] && Shape(st.pages, tokens, i) && Titles(st.pages, tokens)
    requires SplitFrom(st, tokens, i).Ok?
    ensures Titles(SplitFrom(st, tokens, i).value.pages, tokens)
    decreases |tokens| - i
  {
    if i < |tokens| {
      StepShape(st.pages, tokens, i);
      if IsH2(tokens[i]) { StepTitlesH2(st.pages, tokens, i); } else { StepTitlesOther(st.pages, tokens, i); }
      SplitFromTitles(Step(st, tokens, i).value, tokens, i + 1);
    }
  }

  /**
   * Home holds no H2. Every later page starts with the H2 that opened it,
   * holds no other H2, is titled by that heading's text and is named by its
   * anchor.
   */
  lemma SplitTitles(tokens: seq<Token>)
    requires SplitPages(tokens).Ok?
    ensures var s := SplitPages(tokens).value;
            && PageHolds(s.pages[0], 0)
            && forall k :: 1 <= k < |s.pages| ==>
                 && PageHolds(s.pages[k], k) && Titled(s.pages, tokens, k)
                 && FileName(s.pages[k]) == Anchor(s.pages[k].title) + ".md"
  {
    assert tokens[..0] == [];
    assert Titles([Home], tokens);
    SplitFromShape(Split([Home], map[]), tokens, 0);
    SplitFromTitles(Split([Home], map[]), tokens, 0);
  }

  // ---------------------------------------------------------------------
  // The anchor table: each heading's anchor names the page current at it.

  /** Heading `j`'s anchor is in the table, naming the file of the page token `j` lands in. */
  predicate Recorded(st: Split, tokens: seq<Token>, j: nat)
    requires j + 1 < |tokens|
  {
    var a := AnchorAt(tokens, j);
    var k := Owner(tokens, j);
    && a in st.anchors && k < |st.pages| && st.anchors[a] == FileName(st.pages[k])
    && (IsH2(tokens[j]) ==> st.pages[k].title == tokens[j + 1].content && st.pages[k].filename == "")
  }

  predicate IsTitledHeading(tokens: seq<Token>, j: nat) {
    j + 1 < |tokens| && IsHeading(tokens[j])
  }

  /** The anchors of the headings before `i`. */
  function AnchorsBefore(tokens: seq<Token>, i: nat): set<string>
    requires i <= |tokens|
  {
    set j | 0 <= j < i && IsTitledHeading(tokens, j) :: AnchorAt(tokens, j)
  }

  /** No two headings before `i` share an anchor. */
  predicate DistinctAnchors(tokens: seq<Token>, i: nat)
    requires i <= |tokens|
  {
    forall j1, j2 :: 0 <= j1 < j2 < i && IsTitledHeading(tokens, j1) && IsTitledHeading(tokens, j2) ==>
      AnchorAt(tokens, j1) != AnchorAt(tokens, j2)
  }

  predicate Anchors(st: Split, tokens: seq<Token>, i: nat)
    requires i <= |tokens|
  {
    && (forall j :: 0 <= j < i && IsTitledHeading(tokens, j) ==> Recorded(st, tokens, j))
    && st.anchors.Keys <= AnchorsBefore(tokens, i)
    && DistinctAnchors(tokens, i)
  }

  /** Token `i` changes no page's title or file name. */
  lemma NextPagesKeepNames(pages: seq<Page>, tokens: seq<Token>, i: nat)
    requires i < |tokens| && pages != [] && (IsHeading(tokens[i]) ==> i + 1 < |tokens|)
    ensures |NextPages(pages, tokens, i)| >= |pages|
    ensures forall k :: 0 <= k < |pages| ==>
              NextPages(pages, tokens, i)[k].title == pages[k].title &&
              NextPages(pages, tokens, i)[k].filename == pages[k].filename
  {
    var t := tokens[i];
    var withPage := if IsH2(t) then pages + [Page(tokens[i + 1].content, "", [])] else pages;
    assert forall k :: 0 <= k < |pages| ==> withPage[k] == pages[k];
  }

  lemma OwnerBound(tokens: seq<Token>, j: nat, i: nat)
    requires j < i <= |tokens|
    ensures Owner(tokens, j) <= H2Count(tokens[..i])
  {
    H2CountMonotone(tokens, j + 1, i);
  }

  /** What a successful turn does to the table: a heading adds its fresh anchor, naming the last page. */
  lemma StepTable(st: Split, tokens: seq<Token>, i: nat)
    requires i < |tokens| && st.pages != [] && Step(st, tokens, i).Ok?
    ensures var next := Step(st, tokens, i).value;
            if IsHeading(tokens[i]) then
              && i + 1 < |tokens| && AnchorAt(tokens, i) !in st.anchors
              && next.anchors == st.anchors[AnchorAt(tokens, i) := FileName(next.pages[|next.pages| - 1])]
            else next.anchors == st.anchors
  {
  }

  /** Earlier headings keep their entries: a new key is fresh and page names do not change. */
  lemma StepKeepsRecords(st: Split, tokens: seq<Token>, i: nat)
    requires i < |tokens| && st.pages != [] && Anchors(st, tokens, i)
    requires Step(st, tokens, i).Ok?
    ensures forall j :: 0 <= j < i && IsTitledHeading(tokens, j) ==> Recorded(Step(st, tokens, i).value, tokens, j)
  {
    var next := Step(st, tokens, i).value;
    NextPagesKeepNames(st.pages, tokens, i);
    StepTable(st, tokens, i);
    forall j | 0 <= j < i && IsTitledHeading(tokens, j) ensures Recorded(next, tokens, j) {
      assert Recorded(st, tokens, j);
      var a := AnchorAt(tokens, j);
      assert a in next.anchors && next.anchors[a] == st.anchors[a];
      var k := Owner(tokens, j);
      assert FileName(next.pages[k]) == FileName(st.pages[k]);
    }
  }

  /** The heading at `i` is entered with the page it lands in, the last one. */
  lemma StepRecordsNew(st: Split, tokens: seq<Token>, i: nat)
    requires i < |tokens| && st.pages != [] && Shape(st.pages, tokens, i)
    requires Step(st, tokens, i).Ok? && IsTitledHeading(tokens, i)
    ensures Recorded(Step(st, tokens, i).value, tokens, i)
  {
    var next := Step(st, tokens, i).value;
    StepShape(st.pages, tokens, i);
    assert tokens[..i + 1][..i] == tokens[..i];
    assert Owner(tokens, i) == |next.pages| - 1;
    if IsH2(tokens[i]) {
      NewPageNamed(st.pages, tokens, i);
    }
  }

  /** The table's keys stay among the anchors seen, and the new one differs from all earlier ones. */
  lemma StepKeysDistinct(st: Split, tokens: seq<Token>, i: nat)
    requires i < |tokens| && st.pages != [] && Anchors(st, tokens, i)
    requires Step(st, tokens, i).Ok?
    ensures Step(st, tokens, i).value.anchors.Keys <= AnchorsBefore(tokens, i + 1)
    ensures DistinctAnchors(tokens, i + 1)
  {
    StepTable(st, tokens, i);
    assert AnchorsBefore(tokens, i) <= AnchorsBefore(tokens, i + 1);
    forall j1, j2 | 0 <= j1 < j2 < i + 1 && IsTitledHeading(tokens, j1) && IsTitledHeading(tokens, j2)
      ensures AnchorAt(tokens, j1) != AnchorAt(tokens, j2)
    {
      if j2 == i {
        assert Recorded(st, tokens, j1);
      }
    }
  }

  lemma StepAnchors(st: Split, tokens: seq<Token>, i: nat)
    requires i < |tokens| && st.pages != [] && Shape(st.pages, tokens, i) && Anchors(st, tokens, i)
    requires Step(st, tokens, i).Ok?
    ensures Anchors(Step(st, tokens, i).value, tokens, i + 1)
  {
    StepKeepsRecords(st, tokens, i);
    if IsTitledHeading(tokens, i) { StepRecordsNew(st, tokens, i); }
    StepKeysDistinct(st, tokens, i);
  }

  /** The page an H2 opens is titled by the heading's text and has no file name of its own. */
  lemma NewPageNamed(pages: seq<Page>, tokens: seq<Token>, i: nat)
    requires i + 1 < |tokens| && pages != [] && IsH2(tokens[i])
    ensures var next := NextPages(pages, tokens, i);
            next[|next| - 1].title == tokens[i + 1].content && next[|next| - 1].filename == ""
  {
  }

  lemma {:induction false} SplitFromAnchors(st: Split, tokens: seq<Token>, i: nat)
    requires i <= |tokens| && st.pages != [] && Shape(st.pages, tokens, i) && Anchors(st, tokens, i)
    requires SplitFrom(st, tokens, i).Ok?
    ensures Anchors(SplitFrom(st, tokens, i).value, tokens, |tokens|)
    decreases |tokens| - i
  {
    if i < |tokens| {
      StepShape(st.pages, tokens, i);
      StepAnchors(st, tokens, i);
      SplitFromAnchors(Step(st, tokens, i).value, tokens, i + 1);
    }
  }

  /**
   * After a split, each heading's anchor maps to the file of the page the
   * heading lands in; an H2's anchor maps to its own page, `anchor.md`; and no
   * two headings share an anchor.
   */
  lemma SplitAnchors(tokens: seq<Token>)
    requires SplitPages(tokens).Ok?
    ensures var s := SplitPages(tokens).value;
            && (forall j :: 0 <= j < |tokens| && IsHeading(tokens[j]) ==>
                  && j + 1 < |tokens| && Owner(tokens, j) < |s.pages|
                  && AnchorAt(tokens, j) in s.anchors
                  && s.anchors[AnchorAt(tokens, j)] == FileName(s.pages[Owner(tokens, j)])
                  && (IsH2(tokens[j]) ==> s.anchors[AnchorAt(tokens, j)] == AnchorAt(tokens, j) + ".md"))
            && DistinctAnchors(tokens, |tokens|)
  {
    var s := SplitPages(tokens).value;
    assert tokens[..0] == [];
    SplitFromShape(Split([Home], map[]), tokens, 0);
    SplitFromAnchors(Split([Home], map[]), tokens, 0);
    forall j | 0 <= j < |tokens| && IsHeading(tokens[j])
      ensures j + 1 < |tokens| && Recorded(s, tokens, j)
    {
    }
  }

  /** Under distinct anchors, the anchor at `i` is not yet a key. */
  lemma FreshAnchor(st: Split, tokens: seq<Token>, i: nat)
    requires i < |tokens| && st.anchors.Keys <= AnchorsBefore(tokens, i)
    requires DistinctAnchors(tokens, |tokens|) && IsTitledHeading(tokens, i)
    ensures AnchorAt(tokens, i) !in st.anchors
  {
    forall a | a in st.anchors ensures a != AnchorAt(tokens, i) {
      var j :| 0 <= j < i && IsTitledHeading(tokens, j) && AnchorAt(tokens, j) == a;
    }
  }

  /** With every heading followed by its text and no anchor repeated, the split succeeds. */
  lemma {:induction false} SplitFromSucceeds(st: Split, tokens: seq<Token>, i: nat)
    requires i <= |tokens| && st.pages != []
    requires st.anchors.Keys <= AnchorsBefore(tokens, i)
    requires HeadingsHaveText(tokens, |tokens|) && DistinctAnchors(tokens, |tokens|)
    ensures SplitFrom(st, tokens, i).Ok?
    decreases |tokens| - i
  {
    if i < |tokens| {
      if IsHeading(tokens[i]) {
        FreshAnchor(st, tokens, i);
      }
      var next := Step(st, tokens, i).value;
      assert AnchorsBefore(tokens, i) <= AnchorsBefore(tokens, i + 1);
      assert next.anchors.Keys <= AnchorsBefore(tokens, i + 1);
      SplitFromSucceeds(next, tokens, i + 1);
    }
  }

  /** The split fails exactly when some heading is the last token or two headings share an anchor. */
  lemma SplitSucceedsIff(tokens: seq<Token>)
    ensures SplitPages(tokens).Ok? <==> HeadingsHaveText(tokens, |tokens|) && DistinctAnchors(tokens, |tokens|)
  {
    if HeadingsHaveText(tokens, |tokens|) && DistinctAnchors(tokens, |tokens|) {
      SplitFromSucceeds(Split([Home], map[]), tokens, 0);
    }
    if SplitPages(tokens).Ok? {
      SplitKeepsTokens(tokens);
      SplitAnchors(tokens);
    }
  }

  // ---------------------------------------------------------------------
  // `sanitize_link`: links that only name a fragment

  /** The six parts `urlparse` splits a link into. */
  datatype Link = Link(scheme: string, netloc: string, path: string, params: string, query: string, fragment: string)

  /** `anchor_pages[...]` raising `KeyError`. */
  datatype LinkError = UnknownAnchor(anchor: string)

  /**
   * `sanitize_link(url)` with `link == urlparse(url)`. The branch for links
   * to files on disk consults the filesystem; its result is `fileLink`.
   */
  function SanitizeLink(url: string, link: Link, anchorPages: map<string, string>, fileLink: string)
    : Result<string, LinkError>
  {
    if link.scheme != "" || link.netloc != "" then Ok(url)
    else if link.path != "" then Ok(fileLink)
    else if link.fragment != "" then
      var key := Anchor(link.fragment);
      if key in anchorPages then Ok(anchorPages[key] + "#" + link.fragment) else Err(UnknownAnchor(key))
    else Ok(url)
  }

  /** Links with a scheme or host, and links with no path or fragment, are returned unchanged. */
  lemma UntouchedLinks(url: string, link: Link, anchorPages: map<string, string>, fileLink: string)
    requires link.scheme != "" || link.netloc != "" || (link.path == "" && link.fragment == "")
    ensures SanitizeLink(url, link, anchorPages, fileLink) == Ok(url)
  {
  }

  /**
   * After a split, a fragment-only link naming a heading, by its text or by its
   * anchor, is sent to the page that heading lands in.
   */
  lemma LinkToHeading(tokens: seq<Token>, j: nat, url: string, link: Link, fileLink: string)
    requires SplitPages(tokens).Ok?
    requires j < |tokens| && IsHeading(tokens[j])
    requires link.scheme == "" && link.netloc == "" && link.path == "" && link.fragment != ""
    requires j + 1 < |tokens| ==> link.fragment == tokens[j + 1].content || link.fragment == AnchorAt(tokens, j)
    ensures var s := SplitPages(tokens).value;
            && j + 1 < |tokens| && Owner(tokens, j) < |s.pages|
            && SanitizeLink(url, link, s.anchors, fileLink) == Ok(FileName(s.pages[Owner(tokens, j)]) + "#" + link.fragment)
  {
    SplitAnchors(tokens);
    AnchorIdempotent(tokens[j + 1].content);
  }

  // ---------------------------------------------------------------------
  // Table of contents and configuration

  /** One `{title: filename}` entry per page, in page order. */
  function Contents(pages: seq<Page>): (toc: seq<(string, string)>)
  {
    seq(|pages|, k requires 0 <= k < |pages| => (pages[k].title, FileName(pages[k])))
  }

  /** The loop that writes the pages and collects the table of contents; writing is left out. */
  method TableOfContents(pages: seq<Page>) returns (toc: seq<(string, string)>)
    ensures toc == Contents(pages)
  {
    toc := [];
    for k := 0 to |pages|
      invariant toc == Contents(pages)[..k]
    {
      assert Contents(pages)[..k + 1] == Contents(pages)[..k] + [Contents(pages)[k]];
      toc := toc + [(pages[k].title, FileName(pages[k]))];
    }
    assert Contents(pages)[..|pages|] == Contents(pages);
  }

  /** The mkdocs settings the builder writes; `nav` entries are `{title: filename}` pairs. */
  datatype MkdocsConfig = MkdocsConfig(
    siteName: string, docsDir: string, repoUrl: string, nav: seq<(string, string)>,
    theme: string, markdownExtensions: seq<string>, editUriTemplate: string, plugins: seq<string>)

  /** `repo.rsplit('/', maxsplit=1)[-1]`. */
  function PipelineName(repo: string): string {
    AfterLast(repo, '/')
  }

  /** The pipeline name is what follows the last `/`, or the whole name when there is none. */
  lemma PipelineNameLast(repo: string)
    ensures var r := PipelineName(repo);
            && '/' !in r && r == repo[|repo| - |r|..]
            && ('/' !in repo ==> r == repo)
            && ('/' in repo ==> |r| < |repo| && repo[|repo| - |r| - 1] == '/')
  {
    var r := PipelineName(repo);
    assert r == repo[|repo| - |r|..];
    if |r| < |repo| {
      assert repo[|repo| - |r| - 1] in repo;
    }
  }

  /** The default branch of `get_mkdocs_config_data`. */
  function DefaultConfig(repo: string): MkdocsConfig {
    MkdocsConfig(PipelineName(repo), "docs/", "https://github.com/" + repo, [], "readthedocs",
                 ["tables", "admonition"], "blob/main/README.md", ["mike"])
  }

  /** `build_mkdocs_config`: the README's pages go in front of the configured navigation. */
  function BuildConfig(config: MkdocsConfig, tokens: seq<Token>): Result<MkdocsConfig, SplitError> {
    match SplitPages(tokens)
    case Err(e) => Err(e)
    case Ok(s) => Ok(config.(nav := Contents(s.pages) + config.nav))
  }

  /**
   * The navigation starts with Home, then one entry per H2 titled by its text
   * and named by its anchor, then the entries the configuration already had;
   * nothing else in the configuration changes.
   */
  lemma BuiltNavigation(config: MkdocsConfig, tokens: seq<Token>)
    requires SplitPages(tokens).Ok?
    ensures var c := BuildConfig(config, tokens).value;
            var n := 1 + H2Count(tokens);
            && c == config.(nav := c.nav)
            && |c.nav| == n + |config.nav| && c.nav[n..] == config.nav
            && c.nav[0] == ("Home", "index.md")
            && forall k :: 1 <= k < n ==> c.nav[k].1 == Anchor(c.nav[k].0) + ".md"
  {
    SplitKeepsTokens(tokens);
    SplitTitles(tokens);
    var s := SplitPages(tokens).value;
    var toc := Contents(s.pages);
    assert (toc + config.nav)[|toc|..] == config.nav;
  }

  /** With no configuration file, the site is named after the repository and its navigation is the README's pages. */
  lemma DefaultBuild(repo: string, tokens: seq<Token>)
    requires SplitPages(tokens).Ok?
    ensures var c := BuildConfig(DefaultConfig(repo), tokens).value;
            && c.siteName == PipelineName(repo) && c.repoUrl == "https://github.com/" + repo
            && c.nav == Contents(SplitPages(tokens).value.pages)
  {
    var s := SplitPages(tokens).value;
    assert Contents(s.pages) + [] == Contents(s.pages);
  }
}
