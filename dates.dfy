/**
 * `DATE_RE = \d{8}T\d{6}Z` and `re.sub` with it: the timestamps that the
 * config parser masks and that the result check deletes before comparing.
 */
module Dates {
  import opened Text

  const DateLength := 16

  /** The date the parser writes over every timestamp of a dated field. */
  const Sentinel := "19970704T165655Z"

  /** A timestamp `\d{8}T\d{6}Z` starts at position `p` of `s`. */
  predicate DateAt(s: string, p: nat) {
    p + DateLength <= |s| &&
    AllDigits(s[p..p + 8]) && s[p + 8] == 'T' && AllDigits(s[p + 9..p + 15]) && s[p + 15] == 'Z'
  }

  /** `DATE_RE.sub(replacement, s)`: leftmost timestamps first, never overlapping. */
  function ReplaceDates(s: string, replacement: string): (r: string)
    decreases |s|
  {
    if DateAt(s, 0) then replacement + ReplaceDates(s[DateLength..], replacement)
    else if s == [] then []
    else [s[0]] + ReplaceDates(s[1..], replacement)
  }

  /** `re.sub(DATE_RE, "", s)`. */
  function DeleteDates(s: string): (r: string)
    ensures |r| <= |s|
    ensures (forall p | 0 <= p < |s| :: !DateAt(s, p)) ==> r == s
    ensures DateAt(s, 0) ==> |r| <= |s| - DateLength
  {
    DeleteDatesShorter(s);
    ReplaceDates(s, "")
  }

  lemma {:induction false} DeleteDatesShorter(s: string)
    ensures |ReplaceDates(s, "")| <= |s|
    ensures (forall p | 0 <= p < |s| :: !DateAt(s, p)) ==> ReplaceDates(s, "") == s
    ensures DateAt(s, 0) ==> |ReplaceDates(s, "")| <= |s| - DateLength
    decreases |s|
  {
    if DateAt(s, 0) { DeleteDatesShorter(s[DateLength..]); }
    else if s != [] { DeleteDatesShorter(s[1..]); }
    if forall p | 0 <= p < |s| :: !DateAt(s, p) {
      ReplaceDatesNoDate(s, "");
    }
  }

  /** `DATE_RE.sub("19970704T165655Z", s)`. */
  function MaskDates(s: string): string {
    ReplaceDates(s, Sentinel)
  }

  lemma DateAtTail(s: string, p: nat)
    requires |s| > 0
    ensures DateAt(s[1..], p) <==> DateAt(s, p + 1)
  {
    if p + 1 + DateLength <= |s| {
      assert s[1..][p..p + 8] == s[p + 1..p + 9];
      assert s[1..][p + 9..p + 15] == s[p + 10..p + 16];
    }
  }

  /** A string with no timestamp is left alone. */
  lemma {:induction false} ReplaceDatesNoDate(s: string, replacement: string)
    requires forall p | 0 <= p < |s| :: !DateAt(s, p)
    ensures ReplaceDates(s, replacement) == s
    decreases |s|
  {
    if s != [] {
      assert !DateAt(s, 0);
      forall p | 0 <= p < |s| - 1 ensures !DateAt(s[1..], p) {
        DateAtTail(s, p);
      }
      ReplaceDatesNoDate(s[1..], replacement);
    }
  }

  // ---------------------------------------------------------------------
  // Masking keeps the shape that the pattern looks at.

  /** What `DATE_RE` can tell about a character. */
  function Shape(c: char): nat {
    if IsDigit(c) then 0 else if c == 'T' then 1 else if c == 'Z' then 2 else 3
  }

  predicate SameShape(a: string, b: string) {
    |a| == |b| && forall i | 0 <= i < |a| :: Shape(a[i]) == Shape(b[i])
  }

  lemma SameShapeDateAt(a: string, b: string, p: nat)
    requires SameShape(a, b)
    ensures DateAt(a, p) <==> DateAt(b, p)
  {
    if p + DateLength <= |a| {
      SameShapeDigits(a, b, p, p + 8);
      SameShapeDigits(a, b, p + 9, p + 15);
      assert Shape(a[p + 8]) == Shape(b[p + 8]) && Shape(a[p + 15]) == Shape(b[p + 15]);
    }
  }

  lemma SameShapeDigits(a: string, b: string, lo: nat, hi: nat)
    requires SameShape(a, b) && lo <= hi <= |a|
    ensures AllDigits(a[lo..hi]) <==> AllDigits(b[lo..hi])
  {
    forall i | 0 <= i < hi - lo ensures IsDigit(a[lo..hi][i]) <==> IsDigit(b[lo..hi][i]) {
      assert a[lo..hi][i] == a[lo + i] && b[lo..hi][i] == b[lo + i];
      assert Shape(a[lo + i]) == Shape(b[lo + i]);
    }
  }

  /** Replacing timestamps by a timestamp keeps every character's shape. */
  lemma {:induction false} MaskKeepsShape(s: string, stamp: string)
    requires |stamp| == DateLength && DateAt(stamp, 0)
    ensures SameShape(ReplaceDates(s, stamp), s)
    decreases |s|
  {
    if DateAt(s, 0) {
      MaskKeepsShape(s[DateLength..], stamp);
      var tail := ReplaceDates(s[DateLength..], stamp);
      assert ReplaceDates(s, stamp) == stamp + tail;
      forall i | 0 <= i < DateLength ensures Shape(stamp[i]) == Shape(s[i]) {
        if i < 8 {
          assert stamp[..8][i] == stamp[i] && s[..8][i] == s[i];
        } else if 9 <= i < 15 {
          assert stamp[9..15][i - 9] == stamp[i] && s[9..15][i - 9] == s[i];
        }
      }
    } else if s != [] {
      MaskKeepsShape(s[1..], stamp);
    }
  }

  /** Replacing the timestamps of a masked string is replacing those of the original. */
  lemma {:induction false} ReplaceAfterMask(s: string, stamp: string, replacement: string)
    requires |stamp| == DateLength && DateAt(stamp, 0)
    ensures ReplaceDates(ReplaceDates(s, stamp), replacement) == ReplaceDates(s, replacement)
    decreases |s|
  {
    var m := ReplaceDates(s, stamp);
    MaskKeepsShape(s, stamp);
    SameShapeDateAt(m, s, 0);
    if DateAt(s, 0) {
      var tail := ReplaceDates(s[DateLength..], stamp);
      assert m == stamp + tail;
      assert m[DateLength..] == tail;
      ReplaceAfterMask(s[DateLength..], stamp, replacement);
    } else if s != [] {
      var tail := ReplaceDates(s[1..], stamp);
      assert m == [s[0]] + tail;
      assert m[1..] == tail;
      ReplaceAfterMask(s[1..], stamp, replacement);
    }
  }

  lemma SentinelIsDate()
    ensures |Sentinel| == DateLength && DateAt(Sentinel, 0)
  {
    assert Sentinel[..8] == "19970704" && Sentinel[9..15] == "165655";
  }

  /** Masking is idempotent. */
  lemma MaskDatesIdempotent(s: string)
    ensures MaskDates(MaskDates(s)) == MaskDates(s)
  {
    SentinelIsDate();
    ReplaceAfterMask(s, Sentinel, Sentinel);
  }

  /** A masked value and the original agree once timestamps are deleted. */
  lemma DeleteDatesOfMask(s: string)
    ensures DeleteDates(MaskDates(s)) == DeleteDates(s)
  {
    SentinelIsDate();
    ReplaceAfterMask(s, Sentinel, "");
  }
}
