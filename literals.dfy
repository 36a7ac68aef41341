/**
 * Turning a sequence of texts into key-value pairs, one pair per text, where
 * any text may fail to give one.
 */
module PairLists {
  import opened Wrappers
  import opened Nodes

  /** The pair each text gives, in order, or `None` when some text gives none. */
  function PairsBy(texts: seq<string>, pair: string -> Option<(string, Node)>): (r: Option<seq<(string, Node)>>)
    ensures r.Some? ==> |r.value| == |texts|
  {
    if texts == [] then Some([])
    else
      match PairsBy(texts[..|texts| - 1], pair)
      case None => None
      case Some(ps) =>
        match pair(texts[|texts| - 1])
        case None => None
        case Some(p) => Some(ps + [p])
  }

  /** One more text: its pair goes last. */
  lemma PairsStep(texts: seq<string>, pair: string -> Option<(string, Node)>)
    requires texts != []
    ensures PairsBy(texts, pair).Some? <==>
      PairsBy(texts[..|texts| - 1], pair).Some? && pair(texts[|texts| - 1]).Some?
    ensures PairsBy(texts, pair).Some? ==>
      PairsBy(texts, pair).value == PairsBy(texts[..|texts| - 1], pair).value + [pair(texts[|texts| - 1]).value]
  {
  }

  /** The first `n` texts: the pairs of the first `n - 1` and then the pair of text `n - 1`. */
  lemma PairsPrefixStep(texts: seq<string>, pair: string -> Option<(string, Node)>, n: nat)
    requires 0 < n <= |texts|
    ensures PairsBy(texts[..n], pair).Some? <==>
      PairsBy(texts[..n - 1], pair).Some? && pair(texts[n - 1]).Some?
    ensures PairsBy(texts[..n], pair).Some? ==>
      PairsBy(texts[..n], pair).value == PairsBy(texts[..n - 1], pair).value + [pair(texts[n - 1]).value]
  {
    var ts := texts[..n];
    PairsStep(ts, pair);
    assert ts[..n - 1] == texts[..n - 1] && ts[n - 1] == texts[n - 1];
  }

  /** The pair at position `j` is the one text `j` gives. */
  lemma {:induction false} PairAt(texts: seq<string>, pair: string -> Option<(string, Node)>, j: nat)
    requires PairsBy(texts, pair).Some? && j < |texts|
    ensures pair(texts[j]).Some? && PairsBy(texts, pair).value[j] == pair(texts[j]).value
    decreases |texts|
  {
    var init := texts[..|texts| - 1];
    PairsStep(texts, pair);
    if j < |init| {
      assert init[j] == texts[j];
      PairAt(init, pair, j);
      assert (PairsBy(init, pair).value + [pair(texts[|texts| - 1]).value])[j] == PairsBy(init, pair).value[j];
    }
  }

  /** A text that gives no pair leaves no pairs. */
  lemma {:induction false} PairsFail(texts: seq<string>, pair: string -> Option<(string, Node)>, j: nat)
    requires j < |texts| && pair(texts[j]).None?
    ensures PairsBy(texts, pair).None?
    decreases |texts|
  {
    var init := texts[..|texts| - 1];
    PairsStep(texts, pair);
    if j < |init| {
      assert init[j] == texts[j];
      PairsFail(init, pair, j);
    }
  }

  /** When every text gives a pair there are pairs. */
  lemma {:induction false} PairsSucceed(texts: seq<string>, pair: string -> Option<(string, Node)>)
    requires forall j | 0 <= j < |texts| :: pair(texts[j]).Some?
    ensures PairsBy(texts, pair).Some?
    decreases |texts|
  {
    if texts != [] {
      var init := texts[..|texts| - 1];
      forall j | 0 <= j < |init| ensures pair(init[j]).Some? {
        assert init[j] == texts[j];
      }
      PairsSucceed(init, pair);
      PairsStep(texts, pair);
      assert pair(texts[|texts| - 1]).Some?;
    }
  }
}

/**
 * What `_parse_list_value` and `_parse_dict_value` return for a whole
 * input, stated independently of their character and token loops: a list
 * without brackets inside holds `parse_value` of each `,`-piece, and a dict
 * holds, for each key, the value of the last `, `-token that names it.
 */
module LiteralShapes {
  import opened Wrappers
  import opened Text
  import opened Nodes
  import opened ValueParser
  import opened PairLists

  // ---------------------------------------------------------------------
  // Lists

  /** The body holds none of the characters the list parser tracks. */
  predicate Flat(ls: string) {
    forall i | 0 <= i < |ls| :: ls[i] != '{' && ls[i] != '}' && ls[i] != '(' && ls[i] != ')'
  }

  /** `ls.split(",")` with the last piece kept only when it has two characters or more. */
  function CommaPieces(ls: string): (r: seq<string>)
    ensures forall k | 0 <= k < |r| :: |r[k]| <= |ls|
  {
    var pieces := SplitOn(ls, ",");
    var last := pieces[|pieces| - 1];
    pieces[..|pieces| - 1] + if |last| >= 2 then [last] else []
  }

  /** On a flat body a character only matters when it is a comma, which cuts off the open piece. */
  lemma FlatStep(ls: string, st: ListState, i: nat)
    requires Flat(ls) && st.stack == [] && st.first <= i < |ls|
    ensures ListStep(ls, st, i) ==
      if ls[i] == ',' then Ok(ListState([], i + 1, st.elements + [ls[st.first..i]])) else Ok(st)
  {
    assert ls[i] != '{' && ls[i] != '}' && ls[i] != '(' && ls[i] != ')';
  }

  /** One more character that is a comma: it closes the open piece and opens an empty one. */
  lemma CommaCloses(ls: string, i: nat, elements: seq<string>, first: nat)
    requires 0 < i <= |ls| && first < i && ls[i - 1] == ','
    requires elements + [ls[first..i - 1]] == SplitOn(ls[..i - 1], ",")
    ensures (elements + [ls[first..i - 1]]) + [ls[i..i]] == SplitOn(ls[..i], ",")
  {
    assert ls[..i] == ls[..i - 1] + [ls[i - 1]];
    SplitSnocSep(ls[..i - 1], ',');
    assert ls[i..i] == [];
  }

  /** One more character that is not a comma: it extends the open piece. */
  lemma OtherExtends(ls: string, i: nat, elements: seq<string>, first: nat)
    requires 0 < i <= |ls| && first < i && ls[i - 1] != ','
    requires elements + [ls[first..i - 1]] == SplitOn(ls[..i - 1], ",")
    ensures elements + [ls[first..i]] == SplitOn(ls[..i], ",")
  {
    assert ls[..i] == ls[..i - 1] + [ls[i - 1]];
    SplitSnocOther(ls[..i - 1], ls[i - 1], ',');
    var r := SplitOn(ls[..i - 1], ",");
    assert r[..|r| - 1] == elements && r[|r| - 1] == ls[first..i - 1];
    assert ls[first..i] == ls[first..i - 1] + [ls[i - 1]];
  }

  /** One more character of a flat body keeps the scan's elements and open piece equal to the `,`-pieces so far. */
  lemma FlatScanStep(ls: string, i: nat, st: ListState)
    requires 0 < i <= |ls| && Flat(ls) && st.stack == [] && st.first < i
    requires st.elements + [ls[st.first..i - 1]] == SplitOn(ls[..i - 1], ",")
    ensures ListStep(ls, st, i - 1).Ok?
    ensures ListStep(ls, st, i - 1).value.stack == [] && ListStep(ls, st, i - 1).value.first <= i
    ensures ListStep(ls, st, i - 1).value.elements + [ls[ListStep(ls, st, i - 1).value.first..i]] == SplitOn(ls[..i], ",")
  {
    FlatStep(ls, st, i - 1);
    if ls[i - 1] == ',' {
      CommaCloses(ls, i, st.elements, st.first);
    } else {
      OtherExtends(ls, i, st.elements, st.first);
    }
  }

  /** On a flat body the scan never fails, and its elements and open piece are the `,`-pieces so far. */
  lemma {:induction false} FlatScan(ls: string, i: nat)
    requires i <= |ls| && Flat(ls)
    ensures ListScan(ls, i).Ok?
    ensures ListScan(ls, i).value.stack == [] && ListScan(ls, i).value.first <= i
    ensures ListScan(ls, i).value.elements + [ls[ListScan(ls, i).value.first..i]] == SplitOn(ls[..i], ",")
    decreases i
  {
    if i == 0 {
      assert ls[..0] == [];
      assert ListScan(ls, 0) == Ok(ListState([], 0, []));
    } else {
      FlatScan(ls, i - 1);
      var st := ListScan(ls, i - 1).value;
      assert ListScan(ls, i) == ListStep(ls, st, i - 1);
      FlatScanStep(ls, i, st);
    }
  }

  /** `parse_value` of one element text. */
  function Element(t: string): Parsed {
    ParseValue(t)
  }

  /** One more element: the fold succeeds when the shorter fold and the element do, and appends its value. */
  lemma FoldLast(texts: seq<string>, bound: nat)
    requires texts != [] && forall k | 0 <= k < |texts| :: |texts[k]| <= bound
    ensures ListFold(texts, bound).Ok? <==>
      ListFold(texts[..|texts| - 1], bound).Ok? && Element(texts[|texts| - 1]).Ok?
    ensures ListFold(texts, bound).Ok? ==>
      ListFold(texts, bound).value == ListFold(texts[..|texts| - 1], bound).value + [Element(texts[|texts| - 1]).value]
  {
  }

  /** Parsing each element in turn succeeds exactly when every element parses. */
  lemma {:induction false} FoldOkEach(texts: seq<string>, bound: nat)
    requires forall k | 0 <= k < |texts| :: |texts[k]| <= bound
    ensures ListFold(texts, bound).Ok? <==> forall k | 0 <= k < |texts| :: Element(texts[k]).Ok?
    decreases |texts|
  {
    if texts != [] {
      var init := texts[..|texts| - 1];
      assert forall k | 0 <= k < |init| :: init[k] == texts[k];
      FoldOkEach(init, bound);
      FoldLast(texts, bound);
    }
  }

  /** A successful fold holds the value of each element, in order. */
  lemma {:induction false} FoldValue(texts: seq<string>, bound: nat, k: nat)
    requires forall k' | 0 <= k' < |texts| :: |texts[k']| <= bound
    requires ListFold(texts, bound).Ok? && k < |texts|
    ensures Element(texts[k]) == Ok(ListFold(texts, bound).value[k])
    decreases |texts|
  {
    var init := texts[..|texts| - 1];
    FoldLast(texts, bound);
    if k < |init| {
      assert init[k] == texts[k];
      FoldValue(init, bound, k);
    }
  }

  /**
   * A list literal without `{`, `}`, `(` or `)` inside: it parses exactly
   * when every `,`-piece does, and then holds their values in order, the
   * last piece only when it has two characters or more.
   */
  lemma FlatList(s: string)
    requires |s| >= 2 && s[0] == '[' && s[|s| - 1] == ']' && Flat(s[1..|s| - 1])
    ensures var texts := CommaPieces(s[1..|s| - 1]);
      && (ParseList(s).Ok? <==> forall k | 0 <= k < |texts| :: Element(texts[k]).Ok?)
      && (ParseList(s).Ok? ==>
            && ParseList(s).value.List?
            && |ParseList(s).value.items| == |texts|
            && forall k | 0 <= k < |texts| :: Element(texts[k]) == Ok(ParseList(s).value.items[k]))
  {
    var ls := s[1..|s| - 1];
    FlatScan(ls, |ls|);
    assert ls[..|ls|] == ls;
    var st := ListScan(ls, |ls|).value;
    var pieces := SplitOn(ls, ",");
    assert pieces[..|pieces| - 1] == st.elements && pieces[|pieces| - 1] == ls[st.first..];
    assert ListTexts(ls, st) == CommaPieces(ls);
    FoldOkEach(CommaPieces(ls), |ls|);
    if ParseList(s).Ok? {
      forall k | 0 <= k < |CommaPieces(ls)| ensures Element(CommaPieces(ls)[k]) == Ok(ParseList(s).value.items[k]) {
        FoldValue(CommaPieces(ls), |ls|, k);
      }
    }
  }

  // ---------------------------------------------------------------------
  // Dicts

  /** The key a token stores under: its text before the first `\=`, parsed and hashable. */
  function TokenKey(token: string): Option<string> {
    match Find(token, "\\=", 0)
    case None => None
    case Some(p) =>
      match ParseValue(token[..p])
      case Err(_) => None
      case Ok(k) => DictKey(k)
  }

  /** The value a token stores: its text after the first `\=`, parsed. */
  function TokenValue(token: string): Parsed {
    match Find(token, "\\=", 0)
    case None => Err(Invalid)
    case Some(p) => ParseValue(token[p + 2..])
  }

  /** A token can be stored exactly when it has a key and a value. */
  predicate Storable(token: string) {
    TokenKey(token).Some? && TokenValue(token).Ok?
  }

  /** Every token can be stored. */
  predicate AllStorable(tokens: seq<string>) {
    forall j | 0 <= j < |tokens| :: Storable(tokens[j])
  }

  /** One token: stored under its key, or the dict fails. */
  lemma AddTokenIs(es: Entries, token: string, bound: nat)
    requires |token| <= bound
    ensures AddToken(es, token, bound).Ok? <==> Storable(token)
    ensures Storable(token) ==>
      AddToken(es, token, bound) == Ok(Put(es, TokenKey(token).value, TokenValue(token).value))
  {
  }

  /** The pair a token stores, or `None` when it cannot be stored. */
  function TokenPair(token: string): (r: Option<(string, Node)>)
    ensures r.Some? <==> Storable(token)
  {
    if Storable(token) then Some((TokenKey(token).value, TokenValue(token).value)) else None
  }

  /** One more token: the fold succeeds when the shorter fold does and the token can be stored, and stores it. */
  lemma DictStep(tokens: seq<string>, bound: nat, n: nat)
    requires 0 < n <= |tokens| && forall k | 0 <= k < |tokens| :: |tokens[k]| <= bound
    ensures DictFold(tokens, bound, n).Ok? <==> DictFold(tokens, bound, n - 1).Ok? && TokenPair(tokens[n - 1]).Some?
    ensures DictFold(tokens, bound, n).Ok? ==>
      DictFold(tokens, bound, n).value ==
        Put(DictFold(tokens, bound, n - 1).value, TokenPair(tokens[n - 1]).value.0, TokenPair(tokens[n - 1]).value.1)
  {
    if DictFold(tokens, bound, n - 1).Ok? {
      AddTokenIs(DictFold(tokens, bound, n - 1).value, tokens[n - 1], bound);
    }
  }

  /** The dict after the first `n` tokens is their pairs stored in order. */
  lemma {:induction false} FoldIsPutAll(tokens: seq<string>, bound: nat, n: nat)
    requires n <= |tokens| && forall k | 0 <= k < |tokens| :: |tokens[k]| <= bound
    ensures DictFold(tokens, bound, n).Ok? <==> PairsBy(tokens[..n], TokenPair).Some?
    ensures DictFold(tokens, bound, n).Ok? ==>
      DictFold(tokens, bound, n).value == PutAll(PairsBy(tokens[..n], TokenPair).value)
    decreases n
  {
    if n == 0 {
      assert tokens[..0] == [];
    } else {
      FoldIsPutAll(tokens, bound, n - 1);
      DictStep(tokens, bound, n);
      PairsPrefixStep(tokens, TokenPair, n);
      if PairsBy(tokens[..n], TokenPair).Some? {
        PutAllSnoc(PairsBy(tokens[..n - 1], TokenPair).value, TokenPair(tokens[n - 1]).value);
      }
    }
  }

  /** All the tokens: the dict is their pairs stored in order. */
  lemma FoldAll(tokens: seq<string>, bound: nat)
    requires forall k | 0 <= k < |tokens| :: |tokens[k]| <= bound
    ensures DictFold(tokens, bound, |tokens|).Ok? <==> PairsBy(tokens, TokenPair).Some?
    ensures DictFold(tokens, bound, |tokens|).Ok? ==>
      DictFold(tokens, bound, |tokens|).value == PutAll(PairsBy(tokens, TokenPair).value)
  {
    FoldIsPutAll(tokens, bound, |tokens|);
    assert tokens[..|tokens|] == tokens;
  }

  /** The fold of all the tokens succeeds exactly when every token can be stored. */
  lemma FoldOkIff(tokens: seq<string>, bound: nat)
    requires forall k | 0 <= k < |tokens| :: |tokens[k]| <= bound
    ensures DictFold(tokens, bound, |tokens|).Ok? <==> AllStorable(tokens)
  {
    FoldAll(tokens, bound);
    if PairsBy(tokens, TokenPair).Some? {
      forall j | 0 <= j < |tokens| ensures Storable(tokens[j]) {
        PairAt(tokens, TokenPair, j);
      }
    }
    if AllStorable(tokens) {
      PairsSucceed(tokens, TokenPair);
    }
  }

  /** The dict folded from all the tokens holds the key of every token. */
  lemma FoldHasKeyAt(tokens: seq<string>, bound: nat, es: Entries, j: nat)
    requires forall k | 0 <= k < |tokens| :: |tokens[k]| <= bound
    requires DictFold(tokens, bound, |tokens|) == Ok(es) && j < |tokens|
    ensures Storable(tokens[j]) && TokenKey(tokens[j]).value in Keys(es)
  {
    FoldAll(tokens, bound);
    PairAt(tokens, TokenPair, j);
    PutAllHas(PairsBy(tokens, TokenPair).value, j);
  }

  /** Every key of the dict folded from all the tokens is the key of some token `j`. */
  lemma FoldKeyFromToken(tokens: seq<string>, bound: nat, es: Entries, k: string) returns (j: nat)
    requires forall k' | 0 <= k' < |tokens| :: |tokens[k']| <= bound
    requires DictFold(tokens, bound, |tokens|) == Ok(es) && k in Keys(es)
    ensures j < |tokens| && TokenKey(tokens[j]) == Some(k)
  {
    FoldAll(tokens, bound);
    var ps := PairsBy(tokens, TokenPair).value;
    PutAllFrom(ps, k);
    j :| 0 <= j < |ps| && ps[j].0 == k;
    PairAt(tokens, TokenPair, j);
  }

  /** No later token stores under the key of token `j`. */
  predicate LastFor(tokens: seq<string>, j: nat)
    requires j < |tokens|
  {
    forall j' | j < j' < |tokens| :: TokenKey(tokens[j']) != TokenKey(tokens[j])
  }

  /** In the dict folded from all the tokens, the last token to name a key gives that key's value. */
  lemma FoldLastWinsAt(tokens: seq<string>, bound: nat, es: Entries, j: nat)
    requires forall k | 0 <= k < |tokens| :: |tokens[k]| <= bound
    requires DictFold(tokens, bound, |tokens|) == Ok(es)
    requires j < |tokens| && LastFor(tokens, j)
    ensures TokenKey(tokens[j]).Some? && TokenKey(tokens[j]).value in Keys(es)
    ensures Ok(Get(es, TokenKey(tokens[j]).value)) == TokenValue(tokens[j])
  {
    FoldAll(tokens, bound);
    var ps := PairsBy(tokens, TokenPair).value;
    PairAt(tokens, TokenPair, j);
    forall j' | j < j' < |ps| ensures ps[j'].0 != ps[j].0 {
      PairAt(tokens, TokenPair, j');
    }
    PutAllLast(ps, j);
  }

  // Whole dict literals: the fold runs over the `, `-tokens of the text between the braces.

  /** A dict literal parses exactly when every `, `-token can be stored. */
  lemma DictOkIff(s: string)
    requires |s| >= 2 && s[0] == '{' && s[|s| - 1] == '}'
    ensures ParseDict(s).Ok? <==> AllStorable(DictTokens(s))
  {
    FoldOkIff(DictTokens(s), |s| - 2);
    DictOkIsFoldOk(s);
  }

  /** A `, `-token without `\=` fails the whole dict, as the two-way unpacking of `split` does. */
  lemma DictNoSeparator(s: string, j: nat)
    requires |s| >= 2 && s[0] == '{' && s[|s| - 1] == '}'
    requires j < |DictTokens(s)| && Find(DictTokens(s)[j], "\\=", 0).None?
    ensures ParseDict(s).Err?
  {
    DictOkIff(s);
  }

  /** A parsed dict holds the key of every `, `-token. */
  lemma DictHasKey(s: string, es: Entries, j: nat)
    requires ParseDict(s) == Ok(Map(es))
    requires |s| >= 2 && j < |DictTokens(s)|
    ensures Storable(DictTokens(s)[j]) && TokenKey(DictTokens(s)[j]).value in Keys(es)
  {
    DictFoldOf(s, es);
    FoldHasKeyAt(DictTokens(s), |s| - 2, es, j);
  }

  /** Every key of a parsed dict is the key of some `, `-token. */
  lemma DictKeyFromToken(s: string, es: Entries, k: string)
    requires ParseDict(s) == Ok(Map(es)) && k in Keys(es)
    ensures |s| >= 2 && exists j | 0 <= j < |DictTokens(s)| :: TokenKey(DictTokens(s)[j]) == Some(k)
  {
    DictFoldOf(s, es);
    var j := FoldKeyFromToken(DictTokens(s), |s| - 2, es, k);
    assert TokenKey(DictTokens(s)[j]) == Some(k);
  }

  /**
   * In a parsed dict the last `, `-token to name a key gives that key's
   * value, as repeated assignments into a Python dict leave it.
   */
  lemma DictLastWins(s: string, es: Entries, j: nat)
    requires ParseDict(s) == Ok(Map(es))
    requires |s| >= 2 && j < |DictTokens(s)| && LastFor(DictTokens(s), j)
    ensures TokenKey(DictTokens(s)[j]).Some? && TokenKey(DictTokens(s)[j]).value in Keys(es)
    ensures Ok(Get(es, TokenKey(DictTokens(s)[j]).value)) == TokenValue(DictTokens(s)[j])
  {
    DictFoldOf(s, es);
    FoldLastWinsAt(DictTokens(s), |s| - 2, es, j);
  }
}
