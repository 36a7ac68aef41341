/**
 * String operations of Python's `str` and `re` that the scripts rely on,
 * restricted to ASCII: whitespace, word characters, `strip`, `lower`,
 * `split`, `join`, `replace`, `rsplit` and decimal digits.
 */
module Text {
  import opened Wrappers

  /** `str.isspace` / `\s`, restricted to ASCII. */
  predicate IsSpace(c: char) {
    c == ' ' || c == '\t' || c == '\n' || c == '\r' || c == '\U{0B}' || c == '\U{0C}'
    || c == '\U{1C}' || c == '\U{1D}' || c == '\U{1E}' || c == '\U{1F}'
  }

  /** `\d`, restricted to ASCII. */
  predicate IsDigit(c: char) {
    '0' <= c <= '9'
  }

  /** `\w`, restricted to ASCII. */
  predicate IsWordChar(c: char) {
    'a' <= c <= 'z' || 'A' <= c <= 'Z' || IsDigit(c) || c == '_'
  }

  predicate IsUpper(c: char) {
    'A' <= c <= 'Z'
  }

  /** `str.lower` / `str.casefold` on one ASCII character. */
  function LowerChar(c: char): (r: char)
    ensures !IsUpper(r)
    ensures !IsUpper(c) ==> r == c
    ensures IsWordChar(c) <==> IsWordChar(r)
    ensures IsSpace(c) <==> IsSpace(r)
    ensures (c == '-') <==> (r == '-')
  {
    if IsUpper(c) then (c as int + 32) as char else c
  }

  function Lower(s: string): (r: string)
    ensures |r| == |s|
    ensures forall i :: 0 <= i < |s| ==> r[i] == LowerChar(s[i])
  {
    if s == [] then [] else [LowerChar(s[0])] + Lower(s[1..])
  }

  predicate NoSpace(s: string) {
    forall i :: 0 <= i < |s| ==> !IsSpace(s[i])
  }

  /** `str.lstrip()`: the longest suffix that does not start with whitespace. */
  function LStrip(s: string): (r: string)
    ensures |r| <= |s| && r == s[|s| - |r|..]
    ensures forall i :: 0 <= i < |s| - |r| ==> IsSpace(s[i])
    ensures r != [] ==> !IsSpace(r[0])
  {
    if s != [] && IsSpace(s[0]) then LStrip(s[1..]) else s
  }

  /** `str.rstrip()`: the longest prefix that does not end with whitespace. */
  function RStrip(s: string): (r: string)
    ensures |r| <= |s| && r == s[..|r|]
    ensures forall i :: |r| <= i < |s| ==> IsSpace(s[i])
    ensures r != [] ==> !IsSpace(r[|r| - 1])
  {
    if s != [] && IsSpace(s[|s| - 1]) then RStrip(s[..|s| - 1]) else s
  }

  /** `str.strip()`. */
  function Strip(s: string): (r: string)
    ensures r != [] ==> !IsSpace(r[0]) && !IsSpace(r[|r| - 1])
    ensures NoSpace(s) ==> r == s
  {
    RStrip(LStrip(s))
  }

  /** Stripping only removes characters. */
  lemma StripKeepsOut(t: string, c: char)
    requires c !in t
    ensures c !in Strip(t)
  {
    var l := LStrip(t);
    var r := RStrip(l);
    forall i | 0 <= i < |l| ensures l[i] != c {
      assert l[i] == t[|t| - |l| + i];
    }
    forall i | 0 <= i < |r| ensures r[i] != c {
      assert r[i] == l[i];
    }
  }

  predicate StartsWith(s: string, prefix: string) {
    |prefix| <= |s| && s[..|prefix|] == prefix
  }

  /** `pattern` occurs in `s` at position `i`. */
  predicate OccursAt(s: string, pattern: string, i: int) {
    0 <= i && i + |pattern| <= |s| && s[i..i + |pattern|] == pattern
  }

  /** Python's `pattern in s` for strings. */
  predicate Contains(s: string, pattern: string) {
    exists i | 0 <= i <= |s| - |pattern| :: OccursAt(s, pattern, i)
  }

  /** The leftmost occurrence of `pattern` in `s` at or after `from` (`str.find`). */
  function Find(s: string, pattern: string, from: nat): (r: Option<nat>)
    decreases |s| - from
    ensures r.Some? ==> from <= r.value && OccursAt(s, pattern, r.value)
    ensures r.Some? ==> forall j :: from <= j < r.value ==> !OccursAt(s, pattern, j)
    ensures r.None? ==> forall j :: from <= j ==> !OccursAt(s, pattern, j)
  {
    if from + |pattern| > |s| then None
    else if OccursAt(s, pattern, from) then Some(from)
    else Find(s, pattern, from + 1)
  }

  /** A character that does not occur in `s` is never found in it. */
  lemma FindAbsent(s: string, c: char)
    requires c !in s
    ensures Find(s, [c], 0) == None
  {
    forall j | 0 <= j < |s| ensures !OccursAt(s, [c], j) {
      assert s[j..j + 1] == [s[j]];
    }
  }

  lemma OccursInPrefix(s: string, pattern: string, n: nat, j: int)
    requires n <= |s|
    requires OccursAt(s[..n], pattern, j)
    ensures OccursAt(s, pattern, j)
  {
    assert s[..n][j..j + |pattern|] == s[j..j + |pattern|];
  }

  lemma OccursInSuffix(s: string, pattern: string, n: nat, j: int)
    requires n <= |s|
    requires OccursAt(s[n..], pattern, j)
    ensures OccursAt(s, pattern, j + n)
  {
    assert s[n..][j..j + |pattern|] == s[j + n..j + n + |pattern|];
  }

  /** `s.split(sep)`: the pieces between the leftmost non-overlapping occurrences of `sep`. */
  function SplitOn(s: string, sep: string): (r: seq<string>)
    requires |sep| > 0
    decreases |s|
    ensures |r| >= 1
    ensures forall k :: 0 <= k < |r| ==> |r[k]| <= |s| && !Contains(r[k], sep)
  {
    match Find(s, sep, 0)
    case None => [s]
    case Some(i) =>
      assert !Contains(s[..i], sep) by {
        forall j | 0 <= j <= i - |sep| ensures !OccursAt(s[..i], sep, j) {
          if OccursAt(s[..i], sep, j) { OccursInPrefix(s, sep, i, j); }
        }
      }
      [s[..i]] + SplitOn(s[i + |sep|..], sep)
  }

  /** Finding a one-character separator from `from` on, after appending one character. */
  lemma {:induction false} FindSnoc(p: string, c: char, sep: char, from: nat)
    requires from <= |p|
    ensures Find(p + [c], [sep], from) ==
      if Find(p, [sep], from).Some? then Find(p, [sep], from) else if c == sep then Some(|p|) else None
    decreases |p| - from
  {
    var q := p + [c];
    if from == |p| {
      assert q[|p|..|p| + 1] == [c];
      if c != sep {
        assert Find(q, [sep], from + 1) == None;
      }
    } else {
      assert q[from..from + 1] == p[from..from + 1];
      FindSnoc(p, c, sep, from + 1);
    }
  }

  /** Splitting on a one-character separator after appending the separator: a new empty piece opens. */
  lemma {:induction false} SplitSnocSep(p: string, sep: char)
    ensures SplitOn(p + [sep], [sep]) == SplitOn(p, [sep]) + [""]
    decreases |p|
  {
    var q := p + [sep];
    FindSnoc(p, sep, sep, 0);
    match Find(p, [sep], 0)
    case Some(i) =>
      assert q[..i] == p[..i];
      assert q[i + 1..] == p[i + 1..] + [sep];
      SplitSnocSep(p[i + 1..], sep);
    case None =>
      assert q[..|p|] == p;
      assert q[|p| + 1..] == [];
  }

  /** Splitting on a one-character separator after appending any other character: the last piece grows. */
  lemma {:induction false} SplitSnocOther(p: string, c: char, sep: char)
    requires c != sep
    ensures SplitOn(p + [c], [sep]) ==
      SplitOn(p, [sep])[..|SplitOn(p, [sep])| - 1] + [SplitOn(p, [sep])[|SplitOn(p, [sep])| - 1] + [c]]
    decreases |p|
  {
    var q := p + [c];
    FindSnoc(p, c, sep, 0);
    match Find(p, [sep], 0)
    case Some(i) =>
      assert q[..i] == p[..i];
      assert q[i + 1..] == p[i + 1..] + [c];
      SplitSnocOther(p[i + 1..], c, sep);
    case None =>
  }

  /** `sep.join(pieces)`. */
  function Join(pieces: seq<string>, sep: string): string {
    if |pieces| == 0 then ""
    else if |pieces| == 1 then pieces[0]
    else pieces[0] + sep + Join(pieces[1..], sep)
  }

  lemma JoinCons(first: string, pieces: seq<string>, sep: string)
    requires |pieces| >= 1
    ensures Join([first] + pieces, sep) == first + sep + Join(pieces, sep)
  {
    assert ([first] + pieces)[1..] == pieces;
  }

  /** A string is its prefix, its `n` characters from `i`, and the rest. */
  lemma Reassemble(s: string, i: nat, n: nat)
    requires i + n <= |s|
    ensures s == s[..i] + s[i..i + n] + s[i + n..]
  {
  }

  /** Splitting and joining again gives back the original string. */
  lemma {:induction false} JoinSplitOn(s: string, sep: string)
    requires |sep| > 0
    ensures Join(SplitOn(s, sep), sep) == s
    decreases |s|
  {
    match Find(s, sep, 0)
    case None =>
    case Some(i) =>
      var rest := s[i + |sep|..];
      var tail := SplitOn(rest, sep);
      JoinSplitOn(rest, sep);
      assert SplitOn(s, sep) == [s[..i]] + tail;
      JoinCons(s[..i], tail, sep);
      assert s[i..i + |sep|] == sep;
      Reassemble(s, i, |sep|);
  }

  /** `s.replace(target, replacement)`: every leftmost non-overlapping occurrence is replaced. */
  function ReplaceAll(s: string, target: string, replacement: string): (r: string)
    requires |target| > 0
    decreases |s|
    ensures !Contains(s, target) ==> r == s
  {
    match Find(s, target, 0)
    case None => s
    case Some(i) => s[..i] + replacement + ReplaceAll(s[i + |target|..], target, replacement)
  }

  /** `s.replace(target, replacement)` is `replacement.join(s.split(target))`. */
  lemma {:induction false} ReplaceAllIsJoinOfSplit(s: string, target: string, replacement: string)
    requires |target| > 0
    ensures ReplaceAll(s, target, replacement) == Join(SplitOn(s, target), replacement)
    decreases |s|
  {
    match Find(s, target, 0)
    case None =>
    case Some(i) =>
      var rest := s[i + |target|..];
      var tail := SplitOn(rest, target);
      ReplaceAllIsJoinOfSplit(rest, target, replacement);
      assert SplitOn(s, target) == [s[..i]] + tail;
      JoinCons(s[..i], tail, replacement);
  }

  /** `s.rsplit(c, maxsplit=1)[-1]`: the text after the last `c`, or all of `s`. */
  function AfterLast(s: string, c: char): (r: string)
    ensures c !in r
    ensures |r| <= |s| && forall i :: 0 <= i < |r| ==> r[i] == s[|s| - |r| + i]
    ensures |r| < |s| ==> s[|s| - |r| - 1] == c
  {
    if s == [] then []
    else if s[|s| - 1] == c then []
    else AfterLast(s[..|s| - 1], c) + [s[|s| - 1]]
  }

  /** Text without `c` is its own last segment. */
  lemma AfterLastWhole(s: string, c: char)
    requires c !in s
    ensures AfterLast(s, c) == s
  {
    var r := AfterLast(s, c);
    assert |r| == |s|;
  }

  predicate AllDigits(s: string) {
    forall i :: 0 <= i < |s| ==> IsDigit(s[i])
  }

  function DigitChar(d: nat): (c: char)
    requires d < 10
    ensures IsDigit(c) && c as int - '0' as int == d
  {
    ('0' as int + d) as char
  }

  /** `str(n)` for a natural number. */
  function NatToString(n: nat): (r: string)
    ensures |r| >= 1 && AllDigits(r)
    decreases n
  {
    if n < 10 then [DigitChar(n)] else NatToString(n / 10) + [DigitChar(n % 10)]
  }

  /** `int(s)` for a string of ASCII digits. */
  function DigitsValue(s: string): nat
    requires AllDigits(s)
  {
    if s == [] then 0
    else DigitsValue(s[..|s| - 1]) * 10 + (s[|s| - 1] as int - '0' as int)
  }

  /** `int(str(n)) == n`. */
  lemma {:induction false} DigitsValueOfNatToString(n: nat)
    ensures DigitsValue(NatToString(n)) == n
    decreases n
  {
    if n >= 10 {
      DigitsValueOfNatToString(n / 10);
      var s := NatToString(n);
      assert s[..|s| - 1] == NatToString(n / 10);
    }
  }

  /** The length of the longest run of digits at the start of `s` (what a greedy `\d+` consumes). */
  function DigitRun(s: string): (k: nat)
    ensures k <= |s| && AllDigits(s[..k])
    ensures k < |s| ==> !IsDigit(s[k])
  {
    if s != [] && IsDigit(s[0]) then
      var k := 1 + DigitRun(s[1..]);
      assert s[..k] == [s[0]] + s[1..][..k - 1];
      k
    else 0
  }

  /** A digit run followed by a non-digit is consumed exactly. */
  lemma {:induction false} DigitRunOfDigits(d: string, rest: string)
    requires AllDigits(d)
    requires rest == [] || !IsDigit(rest[0])
    ensures DigitRun(d + rest) == |d|
    decreases |d|
  {
    if d != [] {
      assert (d + rest)[1..] == d[1..] + rest;
      DigitRunOfDigits(d[1..], rest);
    }
  }

  /** Python's `<` on strings: lexicographic by code point. */
  predicate Less(a: string, b: string)
    decreases |a|
  {
    if a == [] then b != []
    else if b == [] then false
    else if a[0] != b[0] then a[0] < b[0]
    else Less(a[1..], b[1..])
  }

  lemma {:induction false} LessIrreflexive(a: string)
    ensures !Less(a, a)
    decreases |a|
  {
    if a != [] { LessIrreflexive(a[1..]); }
  }

  lemma {:induction false} LessTransitive(a: string, b: string, c: string)
    requires Less(a, b) && Less(b, c)
    ensures Less(a, c)
    decreases |a|
  {
    if a != [] && b != [] && c != [] && a[0] == b[0] && b[0] == c[0] {
      LessTransitive(a[1..], b[1..], c[1..]);
    }
  }

  lemma {:induction false} LessTotal(a: string, b: string)
    requires a != b
    ensures Less(a, b) || Less(b, a)
    decreases |a|
  {
    if a != [] && b != [] && a[0] == b[0] {
      assert a == [a[0]] + a[1..] && b == [b[0]] + b[1..];
      LessTotal(a[1..], b[1..]);
    }
  }
}
