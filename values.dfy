/**
 * `parse_value` and its two literal parsers: how one serialised Groovy/Java
 * value of `nextflow config -flat`-style output becomes a tree. The four
 * regular expressions of the source are written out as predicates.
 */
module ValueParser {
  import opened Wrappers
  import opened Text
  import opened Nodes

  /** Any exception raised while parsing a value. */
  datatype Invalid = Invalid

  type Parsed = Result<Node, Invalid>

  // ---------------------------------------------------------------------
  // CLOSURE_RE = ^Script\S+_run_closure

  const ClosureMark := "_run_closure"

  predicate IsClosure(s: string) {
    StartsWith(s, "Script") &&
    exists k | 7 <= k <= |s| - |ClosureMark| :: OccursAt(s, ClosureMark, k) && NoSpace(s[6..k])
  }

  // ---------------------------------------------------------------------
  // The Java object-address pattern: ^(\[?Ljava\..*;@)(\w+)$

  /** Where `$` matches: the end, or just before one final newline. */
  function MatchEnd(s: string): (e: nat)
    ensures e <= |s|
  {
    if |s| > 0 && s[|s| - 1] == '\n' then |s| - 1 else |s|
  }

  /** The length of the longest run of word characters at the end of `s`. */
  function TrailingWordRun(s: string): (w: nat)
    ensures w <= |s|
    ensures forall i :: |s| - w <= i < |s| ==> IsWordChar(s[i])
    ensures w < |s| ==> !IsWordChar(s[|s| - w - 1])
  {
    if s != [] && IsWordChar(s[|s| - 1]) then TrailingWordRun(s[..|s| - 1]) + 1 else 0
  }

  /** Where `Ljava.` must start: after an optional `[`. */
  function ArrayMark(s: string): nat {
    if |s| > 0 && s[0] == '[' then 1 else 0
  }

  /** The end of group 1 (just after `;@`), when it is before the trailing word run. */
  function PointerCut(s: string): int {
    MatchEnd(s) - TrailingWordRun(s[..MatchEnd(s)])
  }

  predicate IsPointer(s: string) {
    var p := ArrayMark(s);
    var k := PointerCut(s);
    k < MatchEnd(s) && p + 8 <= k &&
    OccursAt(s, "Ljava.", p) && s[k - 2..k] == ";@" && '\n' !in s[p + 6..k - 2]
  }

  /** Substituting `\1dec0ded` for a match of that pattern: the address after the last `;@` is masked. */
  function MaskPointer(s: string): (r: string)
    requires IsPointer(s)
    ensures var k := PointerCut(s);
      && 2 <= k < MatchEnd(s)
      && OccursAt(s, ";@", k - 2)
      && (forall j | k - 1 <= j && j + 2 <= |s| :: !OccursAt(s, ";@", j))
      && (forall i | k <= i < MatchEnd(s) :: IsWordChar(s[i]))
      && r == s[..k] + "dec0ded" + s[MatchEnd(s)..]
  {
    var k := PointerCut(s);
    var e := MatchEnd(s);
    assert OccursAt(s, ";@", k - 2);
    forall m | k <= m < |s| ensures s[m] != '@' {
      if m < e { assert s[..e][m] == s[m]; }
    }
    forall j | k - 1 <= j && j + 2 <= |s| ensures !OccursAt(s, ";@", j) {
      assert s[j..j + 2][1] == s[j + 1];
    }
    forall i | k <= i < e ensures IsWordChar(s[i]) {
      assert s[..e][i] == s[i];
    }
    s[..k] + "dec0ded" + s[e..]
  }

  // ---------------------------------------------------------------------
  // ESCAPE_RE = ([^\\])\\([ =:]), substituted by \1\2

  predicate IsEscapable(c: char) {
    c == ' ' || c == '=' || c == ':'
  }

  /** An escape the pattern matches at the start of `s`. */
  predicate EscapeAt(s: string) {
    |s| >= 3 && s[0] != '\\' && s[1] == '\\' && IsEscapable(s[2])
  }

  /** `ESCAPE_RE.sub(r"\1\2", s)`: left to right, matches do not overlap. */
  function Unescape(s: string): (r: string)
    ensures |r| <= |s|
    ensures '\\' !in s ==> r == s
  {
    if EscapeAt(s) then [s[0], s[2]] + Unescape(s[3..])
    else if s == [] then []
    else [s[0]] + Unescape(s[1..])
  }

  // ---------------------------------------------------------------------
  // The parsers.

  /** Python's `hash` accepts a string or a bool as a key; JSON writes a bool key as `true`/`false`. */
  function DictKey(n: Node): (r: Option<string>)
    ensures r.Some? <==> n.Str? || n.Bool?
  {
    match n
    case Str(t) => Some(t)
    case Bool(b) => Some(if b then "true" else "false")
    case _ => None
  }

  /** `parse_value`: the branches are tried in the source's order. */
  function ParseValue(s: string): Parsed
    decreases |s|, 2, 0
  {
    if IsClosure(s) then Ok(Str("closure()"))
    else if IsPointer(s) then Ok(Str(MaskPointer(s)))
    else if |s| > 0 && s[0] == '[' && s[|s| - 1] == ']' then ParseList(s)
    else if |s| > 0 && s[0] == '{' && s[|s| - 1] == '}' then ParseDict(s)
    else if s == "true" then Ok(Bool(true))
    else if s == "false" then Ok(Bool(false))
    else Ok(Str(Unescape(Strip(s))))
  }

  /**
   * The loop state of `_parse_list_value`: closers still expected, start of
   * the current element, and the text of each element cut off so far.
   */
  datatype ListState = ListState(stack: seq<char>, first: nat, elements: seq<string>)

  /** What `_parse_list_value` does with character `ls[i]`; a top-level comma cuts off `ls[first..i]`. */
  function ListStep(ls: string, st: ListState, i: nat): (r: Result<ListState, Invalid>)
    requires st.first <= i < |ls|
    ensures r.Ok? ==> r.value.first <= i + 1
    ensures r.Ok? ==> r.value.elements == st.elements || r.value.elements == st.elements + [ls[st.first..i]]
  {
    var c := ls[i];
    if c == '{' then Ok(st.(stack := st.stack + ['}']))
    else if c == '(' then Ok(st.(stack := st.stack + [')']))
    else if c == '}' || c == ')' then
      if st.stack != [] && st.stack[|st.stack| - 1] == c then Ok(st.(stack := st.stack[..|st.stack| - 1]))
      else Err(Invalid)
    else if c == ',' && st.stack == [] then Ok(ListState([], i + 1, st.elements + [ls[st.first..i]]))
    else Ok(st)
  }

  /** The loop state of `_parse_list_value` after its first `i` characters of `ls`. */
  function ListScan(ls: string, i: nat): (r: Result<ListState, Invalid>)
    requires i <= |ls|
    ensures r.Ok? ==> r.value.first <= i && forall k | 0 <= k < |r.value.elements| :: |r.value.elements[k]| <= i
  {
    if i == 0 then Ok(ListState([], 0, []))
    else match ListScan(ls, i - 1)
      case Err(_) => Err(Invalid)
      case Ok(st) => ListStep(ls, st, i - 1)
  }

  /** `parse_value` on each element in turn: the first failure fails the list. */
  function ListFold(texts: seq<string>, bound: nat): (r: Result<seq<Node>, Invalid>)
    requires forall k | 0 <= k < |texts| :: |texts[k]| <= bound
    ensures r.Ok? ==> |r.value| == |texts|
    decreases bound + 1, 0, |texts|
  {
    if texts == [] then Ok([])
    else match ListFold(texts[..|texts| - 1], bound)
      case Err(_) => Err(Invalid)
      case Ok(vs) =>
        match ParseValue(texts[|texts| - 1])
        case Err(_) => Err(Invalid)
        case Ok(v) => Ok(vs + [v])
  }

  /** The element texts of `ls`: the trailing element counts only when it has two characters or more. */
  function ListTexts(ls: string, st: ListState): (r: seq<string>)
    requires st.first <= |ls|
    ensures r == st.elements || r == st.elements + [ls[st.first..]]
  {
    if |ls| - st.first >= 2 then st.elements + [ls[st.first..]] else st.elements
  }

  /** `_parse_list_value`. */
  function ParseList(s: string): (r: Parsed)
    ensures r.Ok? ==> r.value.List?
    decreases |s|, 1, 0
  {
    if |s| < 2 || s[0] != '[' || s[|s| - 1] != ']' then Err(Invalid)
    else
      var ls := s[1..|s| - 1];
      match ListScan(ls, |ls|)
      case Err(_) => Err(Invalid)
      case Ok(st) =>
        if st.stack != [] then Err(Invalid)
        else
          match ListFold(ListTexts(ls, st), |ls|)
          case Err(_) => Err(Invalid)
          case Ok(vs) => Ok(List(vs))
  }

  /** What `_parse_dict_value` does with one token: split at the first `\\=`, parse both sides, store. */
  function AddToken(es: Entries, token: string, bound: nat): Result<Entries, Invalid>
    requires |token| <= bound
    decreases bound + 1, 0, 0
  {
    match Find(token, "\\=", 0)
    case None => Err(Invalid)
    case Some(p) =>
      var key := ParseValue(token[..p]);
      var value := ParseValue(token[p + 2..]);
      if key.Err? || value.Err? then Err(Invalid)
      else match DictKey(key.value)
        case None => Err(Invalid)
        case Some(k) => Ok(Put(es, k, value.value))
  }

  /** The dict that `_parse_dict_value` has built from its first `n` tokens. */
  function DictFold(tokens: seq<string>, bound: nat, n: nat): Result<Entries, Invalid>
    requires n <= |tokens|
    requires forall k | 0 <= k < |tokens| :: |tokens[k]| <= bound
    decreases bound + 1, 0, n
  {
    if n == 0 then Ok([])
    else match DictFold(tokens, bound, n - 1)
      case Err(_) => Err(Invalid)
      case Ok(es) => AddToken(es, tokens[n - 1], bound)
  }

  /** The `, `-tokens of a dict literal's body. */
  function DictTokens(s: string): (r: seq<string>)
    requires |s| >= 2
    ensures forall k | 0 <= k < |r| :: |r[k]| <= |s| - 2
  {
    SplitOn(s[1..|s| - 1], ", ")
  }

  /** `_parse_dict_value`. */
  function ParseDict(s: string): (r: Parsed)
    ensures r.Ok? ==> r.value.Map?
    decreases |s|, 1, 0
  {
    if |s| < 2 || s[0] != '{' || s[|s| - 1] != '}' then Err(Invalid)
    else
      var tokens := SplitOn(s[1..|s| - 1], ", ");
      match DictFold(tokens, |s| - 2, |tokens|)
      case Err(_) => Err(Invalid)
      case Ok(es) => Ok(Map(es))
  }

  // ---------------------------------------------------------------------
  // What the parsers produce is well-formed: unique dict keys, no `None`.

  predicate AllValid(vs: seq<Node>) {
    forall k | 0 <= k < |vs| :: Valid(vs[k])
  }

  predicate EntriesValid(es: Entries) {
    UniqueKeys(es) && forall k | 0 <= k < |es| :: Valid(es[k].1)
  }

  lemma {:induction false} ValueValid(s: string)
    ensures ParseValue(s).Ok? ==> Valid(ParseValue(s).value)
    decreases |s|, 2, 0
  {
    if !IsClosure(s) && !IsPointer(s) && |s| > 0 {
      if s[0] == '[' && s[|s| - 1] == ']' {
        ListValid(s);
      } else if s[0] == '{' && s[|s| - 1] == '}' {
        DictValid(s);
      }
    }
  }

  lemma {:induction false} ListValid(s: string)
    ensures ParseList(s).Ok? ==> Valid(ParseList(s).value)
    decreases |s|, 1, 0
  {
    if |s| >= 2 && s[0] == '[' && s[|s| - 1] == ']' {
      var ls := s[1..|s| - 1];
      if ListScan(ls, |ls|).Ok? {
        FoldValid(ListTexts(ls, ListScan(ls, |ls|).value), |ls|);
      }
    }
  }

  lemma {:induction false} FoldValid(texts: seq<string>, bound: nat)
    requires forall k | 0 <= k < |texts| :: |texts[k]| <= bound
    ensures ListFold(texts, bound).Ok? ==> AllValid(ListFold(texts, bound).value)
    decreases bound + 1, 0, |texts|
  {
    if texts != [] {
      FoldValid(texts[..|texts| - 1], bound);
      ValueValid(texts[|texts| - 1]);
    }
  }

  lemma {:induction false} AddTokenValid(es: Entries, token: string, bound: nat)
    requires |token| <= bound && EntriesValid(es)
    ensures AddToken(es, token, bound).Ok? ==> EntriesValid(AddToken(es, token, bound).value)
    decreases bound + 1, 0, 0
  {
    if Find(token, "\\=", 0).Some? {
      var p := Find(token, "\\=", 0).value;
      ValueValid(token[p + 2..]);
      var key := ParseValue(token[..p]);
      var value := ParseValue(token[p + 2..]);
      if key.Ok? && value.Ok? && DictKey(key.value).Some? {
        PutValid(es, DictKey(key.value).value, value.value);
      }
    }
  }

  lemma PutValid(es: Entries, k: string, v: Node)
    requires EntriesValid(es) && Valid(v)
    ensures EntriesValid(Put(es, k, v))
  {
    var r := Put(es, k, v);
    PutUnique(es, k, v);
    forall j | 0 <= j < |r| ensures Valid(r[j].1) {
      assert r[j] in r;
    }
  }

  lemma {:induction false} DictFoldValid(tokens: seq<string>, bound: nat, n: nat)
    requires n <= |tokens|
    requires forall k | 0 <= k < |tokens| :: |tokens[k]| <= bound
    ensures DictFold(tokens, bound, n).Ok? ==> EntriesValid(DictFold(tokens, bound, n).value)
    decreases bound + 1, 0, n
  {
    if n > 0 {
      DictFoldValid(tokens, bound, n - 1);
      if DictFold(tokens, bound, n - 1).Ok? {
        AddTokenValid(DictFold(tokens, bound, n - 1).value, tokens[n - 1], bound);
      }
    }
  }

  lemma {:induction false} DictValid(s: string)
    ensures ParseDict(s).Ok? ==> Valid(ParseDict(s).value)
    decreases |s|, 1, 0
  {
    if |s| >= 2 && s[0] == '{' && s[|s| - 1] == '}' {
      var tokens := SplitOn(s[1..|s| - 1], ", ");
      DictFoldValid(tokens, |s| - 2, |tokens|);
    }
  }

  // ---------------------------------------------------------------------
  // The loops.

  /** Once the scan has failed, it stays failed. */
  lemma {:induction false} ListScanFails(ls: string, i: nat, j: nat)
    requires i <= j <= |ls|
    requires ListScan(ls, i).Err?
    ensures ListScan(ls, j).Err?
    decreases j - i
  {
    if i < j { ListScanFails(ls, i + 1, j); }
  }

  lemma {:induction false} DictFoldFails(tokens: seq<string>, bound: nat, i: nat, j: nat)
    requires i <= j <= |tokens|
    requires forall k | 0 <= k < |tokens| :: |tokens[k]| <= bound
    requires DictFold(tokens, bound, i).Err?
    ensures DictFold(tokens, bound, j) == Err(Invalid)
    decreases j - i
  {
    if i < j { DictFoldFails(tokens, bound, i + 1, j); }
  }

  /** The elements cut off by the first `i` characters stay the first elements of every longer scan. */
  lemma {:induction false} ScanPrefix(ls: string, i: nat, j: nat)
    requires i <= j <= |ls| && ListScan(ls, j).Ok?
    ensures ListScan(ls, i).Ok? && ListScan(ls, i).value.elements <= ListScan(ls, j).value.elements
    decreases j - i
  {
    if i < j {
      assert ListScan(ls, j - 1).Ok?;
      ScanPrefix(ls, i, j - 1);
    }
  }

  /** One more element: its parse is appended, or its failure fails the fold. */
  lemma FoldSnoc(texts: seq<string>, t: string, bound: nat, vs: seq<Node>)
    requires |t| <= bound && forall k | 0 <= k < |texts| :: |texts[k]| <= bound
    requires ListFold(texts, bound) == Ok(vs)
    ensures ParseValue(t).Err? ==> ListFold(texts + [t], bound).Err?
    ensures ParseValue(t).Ok? ==> ListFold(texts + [t], bound) == Ok(vs + [ParseValue(t).value])
  {
    assert (texts + [t])[..|texts|] == texts;
  }

  /** Once an element fails to parse, every longer list of elements fails too. */
  lemma {:induction false} FoldFails(a: seq<string>, b: seq<string>, bound: nat)
    requires a <= b && forall k | 0 <= k < |b| :: |b[k]| <= bound
    requires ListFold(a, bound).Err?
    ensures ListFold(b, bound).Err?
    decreases |b|
  {
    if a != b {
      assert a <= b[..|b| - 1];
      FoldFails(a, b[..|b| - 1], bound);
    }
  }

  /** One more character of the scan, case by case. */
  lemma ScanStep(ls: string, i: nat, st: ListState)
    requires i < |ls| && ListScan(ls, i) == Ok(st)
    ensures ls[i] == '{' ==> ListScan(ls, i + 1) == Ok(st.(stack := st.stack + ['}']))
    ensures ls[i] == '(' ==> ListScan(ls, i + 1) == Ok(st.(stack := st.stack + [')']))
    ensures ls[i] == '}' || ls[i] == ')' ==>
              if st.stack != [] && st.stack[|st.stack| - 1] == ls[i]
              then ListScan(ls, i + 1) == Ok(st.(stack := st.stack[..|st.stack| - 1]))
              else ListScan(ls, i + 1).Err?
    ensures ls[i] == ',' && st.stack == [] ==>
              ListScan(ls, i + 1) == Ok(ListState([], i + 1, st.elements + [ls[st.first..i]]))
    ensures Quiet(ls[i]) || (ls[i] == ',' && st.stack != []) ==> ListScan(ls, i + 1) == Ok(st)
  {
  }

  /**
   * One turn of `_parse_list_value`'s loop on `ls[i]`: `{` and `(` push the
   * closer they expect, `}` and `)` must match the top of the stack and pop
   * it, and a comma outside every bracket parses the element before it.
   * `ok` is false when that turn raises.
   */
  method ScanCharacter(ls: string, i: nat, stack: seq<char>, first: nat, value: seq<Node>, ghost texts: seq<string>)
    returns (ok: bool, stack': seq<char>, first': nat, value': seq<Node>, ghost texts': seq<string>)
    requires i < |ls| && ListScan(ls, i) == Ok(ListState(stack, first, texts))
    requires ListFold(texts, |ls|) == Ok(value)
    ensures ok ==> ListScan(ls, i + 1) == Ok(ListState(stack', first', texts'))
    ensures ok ==> ListFold(texts', |ls|) == Ok(value')
    ensures !ok ==> ListScan(ls, i + 1).Err? || ListFold(ListScan(ls, i + 1).value.elements, |ls|).Err?
  {
    ScanStep(ls, i, ListState(stack, first, texts));
    ok, stack', first', value', texts' := true, stack, first, value, texts;
    var character := ls[i];
    if character == '{' {
      stack' := stack + ['}'];
    } else if character == '(' {
      stack' := stack + [')'];
    } else if character == '}' || character == ')' {
      if stack == [] || stack[|stack| - 1] != character {
        return false, stack, first, value, texts;
      }
      stack' := stack[..|stack| - 1];
    } else if character == ',' && stack == [] {
      // The comma itself is left out of both elements.
      var element := ParseValue(ls[first..i]);
      FoldSnoc(texts, ls[first..i], |ls|, value);
      texts' := texts + [ls[first..i]];
      if element.Err? {
        return false, stack, first, value, texts';
      }
      value' := value + [element.value];
      first' := i + 1;
    }
  }

  /** `_parse_list_value`: one pass over the characters, pushing and popping expected closers. */
  method ParseListValue(s: string) returns (r: Parsed)
    ensures r == ParseList(s)
  {
    if |s| < 2 || s[0] != '[' || s[|s| - 1] != ']' {
      NotList(s);
      return Err(Invalid);
    }
    var ls := s[1..|s| - 1];
    var ok, stack, first, value, texts, index := ScanList(ls);
    if !ok {
      ListFails(s, ls);
      return Err(Invalid);
    }
    r := CloseList(s, ls, stack, first, value, texts, index);
  }

  lemma NotList(s: string)
    requires |s| < 2 || s[0] != '[' || s[|s| - 1] != ']'
    ensures ParseList(s) == Err(Invalid)
  {
  }

  /** The scan of a list's inside, or one of its elements, fails: so does the list. */
  lemma ListFails(s: string, ls: string)
    requires |s| >= 2 && s[0] == '[' && s[|s| - 1] == ']' && ls == s[1..|s| - 1]
    requires ListScan(ls, |ls|).Err? || ListFold(ListTexts(ls, ListScan(ls, |ls|).value), |ls|).Err?
    ensures ParseList(s).Err?
  {
  }

  /** The character loop of `_parse_list_value`, up to the stack check. */
  method ScanList(ls: string)
    returns (ok: bool, stack: seq<char>, first: nat, value: seq<Node>, ghost texts: seq<string>, index: int)
    ensures ok ==> ListScan(ls, |ls|) == Ok(ListState(stack, first, texts)) && ListFold(texts, |ls|) == Ok(value)
    ensures ok ==> index == if |ls| == 0 then 0 else |ls| - 1
    ensures !ok ==> ListScan(ls, |ls|).Err? || ListFold(ListTexts(ls, ListScan(ls, |ls|).value), |ls|).Err?
  {
    value, stack, index, first, texts := [], [], 0, 0, [];
    var i := 0;
    while i < |ls|
      invariant 0 <= i <= |ls|
      invariant ListScan(ls, i) == Ok(ListState(stack, first, texts))
      invariant ListFold(texts, |ls|) == Ok(value)
      invariant index == if i == 0 then 0 else i - 1
    {
      index := i;
      ok, stack, first, value, texts := ScanCharacter(ls, i, stack, first, value, texts);
      if !ok {
        StopFails(ls, i + 1);
        return;
      }
      i := i + 1;
    }
    ok := true;
  }

  /** A character at which the loop stops fails the scan or one of the list's elements. */
  lemma StopFails(ls: string, i: nat)
    requires i <= |ls|
    requires ListScan(ls, i).Err? || ListFold(ListScan(ls, i).value.elements, |ls|).Err?
    ensures ListScan(ls, |ls|).Err? || ListFold(ListTexts(ls, ListScan(ls, |ls|).value), |ls|).Err?
  {
    if ListScan(ls, i).Err? {
      ListScanFails(ls, i, |ls|);
    } else if ListScan(ls, |ls|).Ok? {
      var st := ListScan(ls, |ls|).value;
      ScanPrefix(ls, i, |ls|);
      FoldFails(ListScan(ls, i).value.elements, ListTexts(ls, st), |ls|);
    }
  }

  /** The end of `_parse_list_value`: the stack check and the trailing element. */
  method CloseList(s: string, ls: string, stack: seq<char>, first: nat, value: seq<Node>, ghost texts: seq<string>, index: int)
    returns (r: Parsed)
    requires |s| >= 2 && s[0] == '[' && s[|s| - 1] == ']' && ls == s[1..|s| - 1]
    requires ListScan(ls, |ls|) == Ok(ListState(stack, first, texts))
    requires ListFold(texts, |ls|) == Ok(value)
    requires index == if |ls| == 0 then 0 else |ls| - 1
    ensures r == ParseList(s)
  {
    FinishList(s, ls, ListState(stack, first, texts), value);
    if stack != [] {
      return Err(Invalid);
    }
    if index > first {
      var element := ParseValue(ls[first..]);
      if element.Err? {
        return Err(Invalid);
      }
      return Ok(List(value + [element.value]));
    }
    r := Ok(List(value));
  }

  /** What `_parse_list_value` returns once the scan of all characters has ended in state `st`. */
  lemma FinishList(s: string, ls: string, st: ListState, vs: seq<Node>)
    requires |s| >= 2 && s[0] == '[' && s[|s| - 1] == ']' && ls == s[1..|s| - 1]
    requires ListScan(ls, |ls|) == Ok(st)
    requires ListFold(st.elements, |ls|) == Ok(vs)
    ensures st.stack != [] ==> ParseList(s).Err?
    ensures st.stack == [] && |ls| - st.first < 2 ==> ParseList(s) == Ok(List(vs))
    ensures st.stack == [] && |ls| - st.first >= 2 ==>
              var t := ls[st.first..];
              if ParseValue(t).Err? then ParseList(s).Err? else ParseList(s) == Ok(List(vs + [ParseValue(t).value]))
  {
    if st.stack == [] && |ls| - st.first >= 2 {
      FoldSnoc(st.elements, ls[st.first..], |ls|, vs);
    }
  }

  /** The body of `_parse_dict_value`'s loop: split one token at its first `\\=` and store the pair. */
  method StoreToken(value: Entries, token: string, ghost bound: nat) returns (r: Result<Entries, Invalid>)
    requires |token| <= bound
    ensures r == AddToken(value, token, bound)
  {
    var split := Find(token, "\\=", 0);
    if split.None? {
      // Unpacking a one-element split raises.
      return Err(Invalid);
    }
    var tokenKey, tokenValue := token[..split.value], token[split.value + 2..];
    var key := ParseValue(tokenKey);
    var parsed := ParseValue(tokenValue);
    if key.Err? || parsed.Err? {
      return Err(Invalid);
    }
    var name := DictKey(key.value);
    if name.None? {
      // A list or a dict is not hashable.
      return Err(Invalid);
    }
    r := Ok(Put(value, name.value, parsed.value));
  }

  /** `_parse_dict_value`: the `", "`-separated tokens of the inside are stored in turn. */
  method ParseDictValue(s: string) returns (r: Parsed)
    ensures r == ParseDict(s)
  {
    if |s| < 2 || s[0] != '{' || s[|s| - 1] != '}' {
      NotDict(s);
      return Err(Invalid);
    }
    var tokens := SplitOn(s[1..|s| - 1], ", ");
    var stored := StoreTokens(tokens, |s| - 2);
    if stored.Err? {
      return Err(Invalid);
    }
    DictDone(s, tokens, |s| - 2, stored.value);
    r := Ok(Map(stored.value));
  }

  /** The token loop of `_parse_dict_value`: later keys overwrite earlier ones. */
  method StoreTokens(tokens: seq<string>, ghost bound: nat) returns (r: Result<Entries, Invalid>)
    requires forall k | 0 <= k < |tokens| :: |tokens[k]| <= bound
    ensures r == DictFold(tokens, bound, |tokens|)
  {
    var value: Entries := [];
    var n := 0;
    while n < |tokens|
      invariant 0 <= n <= |tokens|
      invariant Stored(tokens, bound, n, value)
    {
      var ok;
      ok, value := StoreNext(tokens, bound, n, value);
      if !ok {
        return Err(Invalid);
      }
      n := n + 1;
    }
    r := Ok(value);
  }

  ghost predicate Stored(tokens: seq<string>, bound: nat, n: nat, value: Entries)
    requires n <= |tokens| && forall k | 0 <= k < |tokens| :: |tokens[k]| <= bound
  {
    DictFold(tokens, bound, n) == Ok(value)
  }

  /** One turn of the token loop: the next token is stored, or the whole loop fails. */
  method StoreNext(tokens: seq<string>, ghost bound: nat, n: nat, value: Entries) returns (ok: bool, value': Entries)
    requires n < |tokens| && forall k | 0 <= k < |tokens| :: |tokens[k]| <= bound
    requires Stored(tokens, bound, n, value)
    ensures ok ==> Stored(tokens, bound, n + 1, value')
    ensures !ok ==> DictFold(tokens, bound, |tokens|) == Err(Invalid)
  {
    var stored := StoreToken(value, tokens[n], bound);
    if stored.Err? {
      DictFoldFails(tokens, bound, n + 1, |tokens|);
      return false, value;
    }
    return true, stored.value;
  }

  lemma DictDone(s: string, tokens: seq<string>, bound: nat, value: Entries)
    requires |s| >= 2 && s[0] == '{' && s[|s| - 1] == '}'
    requires tokens == SplitOn(s[1..|s| - 1], ", ") && bound == |s| - 2
    requires DictFold(tokens, bound, |tokens|) == Ok(value)
    ensures ParseDict(s) == Ok(Map(value))
  {
  }

  /** A dict literal parses exactly when its tokens fold, and gives the folded dict. */
  lemma DictIsFold(s: string)
    requires |s| >= 2 && s[0] == '{' && s[|s| - 1] == '}'
    ensures ParseDict(s).Ok? <==> DictFold(DictTokens(s), |s| - 2, |DictTokens(s)|).Ok?
    ensures ParseDict(s).Ok? ==> ParseDict(s).value == Map(DictFold(DictTokens(s), |s| - 2, |DictTokens(s)|).value)
  {
  }

  /** A dict literal parses exactly when its tokens fold. */
  lemma DictOkIsFoldOk(s: string)
    requires |s| >= 2 && s[0] == '{' && s[|s| - 1] == '}'
    ensures ParseDict(s).Ok? <==> DictFold(DictTokens(s), |s| - 2, |DictTokens(s)|).Ok?
  {
  }

  /** A parsed dict is the fold of its tokens. */
  lemma DictFoldOf(s: string, es: Entries)
    requires ParseDict(s) == Ok(Map(es))
    ensures |s| >= 2 && s[0] == '{' && s[|s| - 1] == '}'
    ensures DictFold(DictTokens(s), |s| - 2, |DictTokens(s)|) == Ok(es)
  {
  }

  lemma NotDict(s: string)
    requires |s| < 2 || s[0] != '{' || s[|s| - 1] != '}'
    ensures ParseDict(s) == Err(Invalid)
  {
  }

  // ---------------------------------------------------------------------
  // Properties of the parsers.

  /** `"[]"` is the empty list. */
  lemma EmptyList()
    ensures ParseValue("[]") == Ok(List([]))
  {
    assert !IsPointer("[]");
    assert ListScan("", 0) == Ok(ListState([], 0, []));
  }

  /** A one-character element at the end of a list is dropped: `"[x]"` is the empty list. */
  lemma SingleCharacterListIsEmpty(c: char)
    requires c != '{' && c != '(' && c != '}' && c != ')' && c != ','
    ensures ParseValue(['[', c, ']']) == Ok(List([]))
  {
    var s := ['[', c, ']'];
    assert !StartsWith(s, "Script");
    assert !IsPointer(s) by { NotPointer(s); }
    assert s[1..|s| - 1] == [c];
    ScanStep([c], 0, ListState([], 0, []));
    assert ListTexts([c], ListState([], 0, [])) == [];
    assert ListFold([], 1) == Ok([]);
    ListBranch(s);
  }

  /** `"{}"` is not a dict: its only token has no `\=`. */
  lemma EmptyDictFails()
    ensures ParseValue("{}").Err?
  {
    var s := "{}";
    assert !IsPointer(s);
    assert SplitOn("", ", ") == [""];
    assert DictFold([""], 0, 1) == AddToken([], "", 0);
  }

  /** The escape that the source's properties writer puts before ` `, `=` and `:`. */
  function Escape(t: string): (r: string)
    ensures |r| >= |t|
  {
    if t == [] then []
    else if IsEscapable(t[0]) then ['\\', t[0]] + Escape(t[1..])
    else [t[0]] + Escape(t[1..])
  }

  /** Text that `ESCAPE_RE` can unescape again: no backslash, no escapable first character, no two escapables in a row. */
  predicate Unescapable(t: string) {
    '\\' !in t &&
    (t != [] ==> !IsEscapable(t[0])) &&
    forall i | 0 <= i < |t| - 1 :: !(IsEscapable(t[i]) && IsEscapable(t[i + 1]))
  }

  /** Unescaping undoes escaping for such text. */
  lemma {:induction false} UnescapeEscape(t: string)
    requires Unescapable(t)
    ensures Unescape(Escape(t)) == t
    decreases |t|
  {
    if |t| >= 2 {
      if IsEscapable(t[1]) {
        var rest := t[2..];
        assert Escape(t) == [t[0], '\\', t[1]] + Escape(rest) by {
          assert Escape(t[1..]) == ['\\', t[1]] + Escape(t[1..][1..]);
          assert t[1..][1..] == rest;
        }
        UnescapeEscape(rest);
        assert (Escape(t))[3..] == Escape(rest);
        assert t == [t[0], t[1]] + rest;
      } else {
        var rest := t[1..];
        assert Escape(t) == [t[0]] + Escape(rest);
        assert Escape(rest) == [t[1]] + Escape(rest[1..]);
        assert !EscapeAt(Escape(t));
        UnescapeEscape(rest);
        assert (Escape(t))[1..] == Escape(rest);
      }
    }
  }

  /** Two escapes in a row: the second backslash follows a consumed character and stays. */
  lemma AdjacentEscapesStay()
    ensures Unescape("a\\=\\=") == "a=\\="
  {
    assert EscapeAt("a\\=\\=");
    assert "a\\=\\="[3..] == "\\=";
    assert !EscapeAt("\\=");
    assert "\\="[1..] == "=";
  }

  /** A value that is none of the special forms is the unescaped, stripped text. */
  lemma PlainBranch(s: string)
    requires !IsClosure(s) && !IsPointer(s)
    requires s == [] || (s[0] != '[' && s[0] != '{')
    requires s != "true" && s != "false"
    ensures ParseValue(s) == Ok(Str(Unescape(Strip(s))))
  {
  }

  /** A token with no space, backslash or bracket, not a bool, closure or pointer, is itself as a string. */
  lemma PlainToken(t: string)
    requires 0 < |t| && NoSpace(t) && '\\' !in t
    requires t[0] != '[' && t[0] != '{' && t != "true" && t != "false"
    requires !StartsWith(t, "Script") && !StartsWith(t, "Ljava.")
    ensures ParseValue(t) == Ok(Str(t))
  {
    assert ArrayMark(t) == 0;
    NotPointer(t);
    PlainBranch(t);
  }

  /**
   * A list element cut after `, ` starts with a space, so none of the special
   * forms applies: it is parsed as a string and stripped.
   */
  lemma SpacedElement(t: string)
    requires '\\' !in t
    ensures ParseValue(" " + t) == Ok(Str(Strip(t)))
  {
    SpacedPlain(t);
    PlainBranch(" " + t);
  }

  lemma SpacedPlain(t: string)
    requires '\\' !in t
    ensures var s := " " + t;
            && !IsClosure(s) && !IsPointer(s) && s[0] == ' ' && s != "true" && s != "false"
            && Strip(s) == Strip(t) && '\\' !in Strip(t)
  {
    SpacedNotSpecial(t);
    StripSpaced(t);
  }

  lemma SpacedNotSpecial(t: string)
    ensures !IsClosure(" " + t) && !IsPointer(" " + t)
  {
    var s := " " + t;
    assert !StartsWith(s, "Script") by { assert |s| < 6 || s[..6][0] == ' '; }
    NotOccursAt(s, "Ljava.", 0);
    NotPointer(s);
  }

  lemma StripSpaced(t: string)
    requires '\\' !in t
    ensures Strip(" " + t) == Strip(t) && '\\' !in Strip(t)
  {
    var s := " " + t;
    assert s[1..] == t;
    assert LStrip(s) == LStrip(t);
    StripKeepsOut(t, '\\');
  }

  lemma NotPointer(t: string)
    requires !OccursAt(t, "Ljava.", ArrayMark(t))
    ensures !IsPointer(t)
  {
  }

  /** A character that leaves the list scan's state alone. */
  predicate Quiet(c: char) {
    c != '{' && c != '(' && c != '}' && c != ')' && c != ','
  }

  /** A list element that `parse_value` keeps as the same string. */
  predicate PlainElement(t: string) {
    0 < |t| && NoSpace(t) && '\\' !in t &&
    t[0] != '[' && t[0] != '{' && t != "true" && t != "false" &&
    !StartsWith(t, "Script") && !StartsWith(t, "Ljava.") &&
    forall k | 0 <= k < |t| :: Quiet(t[k])
  }

  lemma {:induction false} ScanQuiet(ls: string, i: nat, j: nat, st: ListState)
    requires i <= j <= |ls| && ListScan(ls, i) == Ok(st)
    requires forall k | i <= k < j :: Quiet(ls[k])
    ensures ListScan(ls, j) == Ok(st)
    decreases j - i
  {
    if i < j {
      ScanQuiet(ls, i, j - 1, st);
      assert ListScan(ls, j) == ListStep(ls, st, j - 1);
    }
  }

  /** A top-level comma cuts off the current element. */
  lemma ScanComma(ls: string, i: nat, st: ListState)
    requires i < |ls| && ListScan(ls, i) == Ok(st) && ls[i] == ',' && st.stack == []
    ensures ListScan(ls, i + 1) == Ok(ListState([], i + 1, st.elements + [ls[st.first..i]]))
  {
    assert ListScan(ls, i + 1) == ListStep(ls, st, i);
  }

  /** `Ljava.` cannot start right after the `[` of a list whose first element does not start with it. */
  lemma ListNotPointer(s: string, x: string)
    requires PlainElement(x) && |s| > |x| + 1 && s[0] == '[' && s[1..|x| + 1] == x && s[|x| + 1] == ','
    ensures !IsPointer(s)
  {
    assert ArrayMark(s) == 1;
    if |x| >= 6 {
      assert s[1..7] == x[..6];
    } else {
      assert "Ljava."[|x|] != ',';
    }
  }

  /** A value in brackets that is neither a closure nor a pointer is parsed as a list. */
  lemma DictBranch(s: string)
    requires !IsClosure(s) && !IsPointer(s) && |s| > 0 && s[0] == '{' && s[|s| - 1] == '}'
    ensures ParseValue(s) == ParseDict(s)
  {
  }

  lemma ListBranch(s: string)
    requires !IsClosure(s) && !IsPointer(s) && |s| > 0 && s[0] == '[' && s[|s| - 1] == ']'
    ensures ParseValue(s) == ParseList(s)
  {
  }

  /** The scan of `x,y`: one element `x`, the next starting after the comma. */
  lemma ScanTwo(ls: string, x: string, y: string)
    requires forall k | 0 <= k < |x| :: Quiet(x[k])
    requires forall k | 0 <= k < |y| :: Quiet(y[k])
    requires |ls| == |x| + 1 + |y| && ls[..|x|] == x && ls[|x|] == ',' && ls[|x| + 1..] == y
    ensures ListScan(ls, |ls|) == Ok(ListState([], |x| + 1, [x]))
  {
    ScanFirst(ls, x);
    forall k | |x| + 1 <= k < |ls| ensures Quiet(ls[k]) {
      assert ls[k] == ls[|x| + 1..][k - |x| - 1];
    }
    ScanQuiet(ls, |x| + 1, |ls|, ListState([], |x| + 1, [x]));
  }

  /** Up to and including the comma after a first element `x`. */
  lemma ScanFirst(ls: string, x: string)
    requires forall k | 0 <= k < |x| :: Quiet(x[k])
    requires |ls| > |x| && ls[..|x|] == x && ls[|x|] == ','
    ensures ListScan(ls, |x| + 1) == Ok(ListState([], |x| + 1, [x]))
  {
    var st0 := ListState([], 0, []);
    assert ListScan(ls, 0) == Ok(st0);
    forall k | 0 <= k < |x| ensures Quiet(ls[k]) {
      assert ls[k] == ls[..|x|][k];
    }
    ScanQuiet(ls, 0, |x|, st0);
    ScanComma(ls, |x|, st0);
    assert st0.elements + [ls[..|x|]] == [x];
  }

  /** Two plain elements parse to themselves, in order. */
  lemma FoldPlain(x: string, y: string, bound: nat)
    requires PlainElement(x) && PlainElement(y) && |x| <= bound && |y| <= bound
    ensures ListFold([x], bound) == Ok([Str(x)])
    ensures ListFold([x, y], bound) == Ok([Str(x), Str(y)])
  {
    PlainToken(x);
    PlainToken(y);
    assert ListFold([], bound) == Ok([]);
    FoldSnoc([], x, bound, []);
    assert [] + [x] == [x] && [] + [Str(x)] == [Str(x)];
    FoldSnoc([x], y, bound, [Str(x)]);
    assert [x] + [y] == [x, y] && [Str(x)] + [Str(y)] == [Str(x), Str(y)];
  }

  /** A bracketed list whose inside scans as `x,y`: `y` is kept only with two characters or more. */
  lemma ParseTwo(s: string, x: string, y: string)
    requires PlainElement(x) && PlainElement(y)
    requires |s| == |x| + |y| + 3 && s[0] == '[' && s[|s| - 1] == ']'
    requires s[1..|x| + 1] == x && s[|x| + 1] == ',' && s[|x| + 2..|s| - 1] == y
    ensures ParseValue(s) == if |y| >= 2 then Ok(List([Str(x), Str(y)])) else Ok(List([Str(x)]))
  {
    TwoIsList(s, x);
    TwoInside(s, x, y);
  }

  lemma TwoIsList(s: string, x: string)
    requires PlainElement(x) && |s| > |x| + 1 && s[0] == '[' && s[|s| - 1] == ']'
    requires s[1..|x| + 1] == x && s[|x| + 1] == ','
    ensures ParseValue(s) == ParseList(s)
  {
    ListNotPointer(s, x);
    ListBranch(s);
  }

  lemma TwoInside(s: string, x: string, y: string)
    requires PlainElement(x) && PlainElement(y)
    requires |s| == |x| + |y| + 3 && s[0] == '[' && s[|s| - 1] == ']'
    requires s[1..|x| + 1] == x && s[|x| + 1] == ',' && s[|x| + 2..|s| - 1] == y
    ensures ParseList(s) == if |y| >= 2 then Ok(List([Str(x), Str(y)])) else Ok(List([Str(x)]))
  {
    var ls := s[1..|s| - 1];
    assert ls[..|x|] == x && ls[|x|] == ',' && ls[|x| + 1..] == y;
    TwoElements(ls, x, y);
    var vs := if |y| >= 2 then [Str(x), Str(y)] else [Str(x)];
    ParseListOk(s, ls, ListState([], |x| + 1, [x]), vs);
  }

  /** The inside `x,y` of such a list: the scan ends with no bracket open, and the elements parse to themselves. */
  lemma TwoElements(ls: string, x: string, y: string)
    requires PlainElement(x) && PlainElement(y)
    requires |ls| == |x| + 1 + |y| && ls[..|x|] == x && ls[|x|] == ',' && ls[|x| + 1..] == y
    ensures ListScan(ls, |ls|) == Ok(ListState([], |x| + 1, [x]))
    ensures ListFold(ListTexts(ls, ListState([], |x| + 1, [x])), |ls|) ==
            if |y| >= 2 then Ok([Str(x), Str(y)]) else Ok([Str(x)])
  {
    ScanTwo(ls, x, y);
    FoldPlain(x, y, |ls|);
    var st := ListState([], |x| + 1, [x]);
    if |y| >= 2 {
      assert ListTexts(ls, st) == [x, y];
    } else {
      assert ListTexts(ls, st) == [x];
    }
  }

  /** A scan that ends with no bracket open, and elements that all parse, give a list. */
  lemma ParseListOk(s: string, ls: string, st: ListState, vs: seq<Node>)
    requires |s| >= 2 && s[0] == '[' && s[|s| - 1] == ']' && ls == s[1..|s| - 1]
    requires ListScan(ls, |ls|) == Ok(st) && st.stack == []
    requires ListFold(ListTexts(ls, st), |ls|) == Ok(vs)
    ensures ParseList(s) == Ok(List(vs))
  {
  }

  /**
   * `"[x,y]"` for two plain elements: the last element is kept only when it
   * has at least two characters, since the loop's final `index` is one short
   * of the end.
   */
  lemma TwoElementList(x: string, y: string)
    requires PlainElement(x) && PlainElement(y)
    ensures ParseValue("[" + x + "," + y + "]") ==
            if |y| >= 2 then Ok(List([Str(x), Str(y)])) else Ok(List([Str(x)]))
  {
    BracketedPair(x, y);
    ParseTwo("[" + x + "," + y + "]", x, y);
  }

  lemma BracketedPair(x: string, y: string)
    ensures var s := "[" + x + "," + y + "]";
            |s| == |x| + |y| + 3 && s[0] == '[' && s[|s| - 1] == ']' &&
            s[1..|x| + 1] == x && s[|x| + 1] == ',' && s[|x| + 2..|s| - 1] == y
  {
  }


  /** A pattern cannot occur where its first character does not. */
  lemma NotOccursAt(s: string, pattern: string, j: int)
    requires |pattern| > 0 && 0 <= j < |s| && s[j] != pattern[0]
    ensures !OccursAt(s, pattern, j)
  {
    if j + |pattern| <= |s| { assert s[j..j + |pattern|][0] == s[j]; }
  }

  /** Storing the token `a\=<d>` for a one-digit value `d`. */
  lemma StoreDigit(es: Entries, d: char, bound: nat)
    requires IsDigit(d) && 4 <= bound
    ensures AddToken(es, ['a', '\\', '=', d], bound) == Ok(Put(es, "a", Str([d])))
  {
    DigitTokenSplits(d);
    DigitTokenSides(d);
    AddTokenOk(es, ['a', '\\', '=', d], bound, 1, "a", Str([d]));
  }

  /** Both sides of `a\=<d>` parse as plain strings. */
  lemma DigitTokenSides(d: char)
    requires IsDigit(d)
    ensures ParseValue(['a', '\\', '=', d][..1]) == Ok(Str("a"))
    ensures ParseValue(['a', '\\', '=', d][3..]) == Ok(Str([d]))
  {
    var token := ['a', '\\', '=', d];
    assert token[..1] == "a" && token[3..] == [d];
    PlainToken("a");
    PlainToken([d]);
  }

  /** A token whose two sides parse, with a string key, stores the pair. */
  lemma AddTokenOk(es: Entries, token: string, bound: nat, p: nat, k: string, v: Node)
    requires |token| <= bound && Find(token, "\\=", 0) == Some(p)
    requires ParseValue(token[..p]) == Ok(Str(k)) && ParseValue(token[p + 2..]) == Ok(v)
    ensures AddToken(es, token, bound) == Ok(Put(es, k, v))
  {
  }

  lemma DigitTokenSplits(d: char)
    ensures var token := ['a', '\\', '=', d];
            Find(token, "\\=", 0) == Some(1) && token[..1] == "a" && token[3..] == [d]
  {
    var token := ['a', '\\', '=', d];
    NotOccursAt(token, "\\=", 0);
    assert OccursAt(token, "\\=", 1);
  }

  lemma SplitTokenPair(first: string, second: string)
    requires |first| == 4 && |second| == 4
    requires forall j | 0 <= j < 4 :: first[j] != ',' && second[j] != ','
    ensures SplitOn(first + ", " + second, ", ") == [first, second]
  {
    var inner := first + ", " + second;
    forall j | 0 <= j < 4 ensures !OccursAt(inner, ", ", j) {
      assert inner[j] == first[j];
      NotOccursAt(inner, ", ", j);
    }
    assert OccursAt(inner, ", ", 4);
    assert inner[..4] == first && inner[6..] == second;
    forall j | 0 <= j < 4 ensures !OccursAt(second, ", ", j) { NotOccursAt(second, ", ", j); }
  }

  lemma FoldDuplicatePair(bound: nat)
    requires 10 <= bound
    ensures DictFold(["a\\=1", "a\\=2"], bound, 2) == Ok([("a", Str("2"))])
  {
    var tokens := ["a\\=1", "a\\=2"];
    StoreDigit([], '1', bound);
    assert Put([], "a", Str("1")) == [("a", Str("1"))];
    assert DictFold(tokens, bound, 1) == Ok([("a", Str("1"))]);
    StoreDigit([("a", Str("1"))], '2', bound);
    assert Put([("a", Str("1"))], "a", Str("2")) == [("a", Str("2"))];
  }

  /** A later duplicate key overwrites the earlier value: `{a\=1, a\=2}` is `{"a": "2"}`. */
  lemma DuplicateKeyOverwrites()
    ensures ParseValue("{a\\=1, a\\=2}") == Ok(Map([("a", Str("2"))]))
  {
    var first, second := "a\\=1", "a\\=2";
    var inner := first + ", " + second;
    var s := "{" + inner + "}";
    assert s == "{a\\=1, a\\=2}";
    assert s[1..|s| - 1] == inner;
    NotPointer(s);
    assert !IsClosure(s);
    SplitTokenPair(first, second);
    FoldDuplicatePair(|s| - 2);
    DictDone(s, [first, second], |s| - 2, [("a", Str("2"))]);
    DictBranch(s);
  }
}
