/** Character-level helpers that stand for the Python string built-ins the
    pipeline relies on: `str.strip` (with and without a character set),
    `str.isdigit`/`int` on decimal numerals, `str(n)`, `str.replace`,
    `"sep".join`, list slicing with clamped bounds, and `os.path.join`. */
module Text {

  datatype Option<T> = None | Some(value: T)

  /** The characters Python's `str.isspace` accepts (and that `\s` matches in a `str` pattern). */
  predicate IsSpace(c: char)
  {
    || c == ' ' || c == '\t' || c == '\n' || c == '\r' || c == '\U{000B}' || c == '\U{000C}'
    || ('\U{001C}' <= c <= '\U{001F}') || c == '\U{0085}' || c == '\U{00A0}' || c == '\U{1680}'
    || ('\U{2000}' <= c <= '\U{200A}') || c == '\U{2028}' || c == '\U{2029}' || c == '\U{202F}'
    || c == '\U{205F}' || c == '\U{3000}'
  }

  predicate IsDigit(c: char)
  {
    '0' <= c <= '9'
  }

  predicate AllDigits(s: string)
  {
    forall i | 0 <= i < |s| :: IsDigit(s[i])
  }

  predicate AllSatisfy(s: string, p: char -> bool)
  {
    forall i | 0 <= i < |s| :: p(s[i])
  }

  // ---------------------------------------------------------------------------
  // Stripping

  /** `s.lstrip(chars)`: drop the longest prefix whose characters all satisfy `drop`. */
  function LStripBy(s: string, drop: char -> bool): (r: string)
    ensures |r| <= |s| && r == s[|s| - |r|..]
    ensures AllSatisfy(s[..|s| - |r|], drop)
    ensures r == [] || !drop(r[0])
    decreases |s|
  {
    if |s| > 0 && drop(s[0]) then
      var r := LStripBy(s[1..], drop);
      assert s[..|s| - |r|] == [s[0]] + s[1..][..|s| - 1 - |r|];
      r
    else s
  }

  /** `s.rstrip(chars)`: drop the longest suffix whose characters all satisfy `drop`. */
  function RStripBy(s: string, drop: char -> bool): (r: string)
    ensures |r| <= |s| && r == s[..|r|]
    ensures AllSatisfy(s[|r|..], drop)
    ensures r == [] || !drop(r[|r| - 1])
    decreases |s|
  {
    if |s| > 0 && drop(s[|s| - 1]) then
      var r := RStripBy(s[..|s| - 1], drop);
      assert s[|r|..] == s[..|s| - 1][|r|..] + [s[|s| - 1]];
      r
    else s
  }

  /** `s.strip(chars)`. */
  function StripBy(s: string, drop: char -> bool): string
  {
    RStripBy(LStripBy(s, drop), drop)
  }

  /** `s.strip()`: both ends, Python whitespace. */
  function Strip(s: string): string
  {
    StripBy(s, IsSpace)
  }

  lemma {:induction false} LStripPrefixed(a: string, b: string, drop: char -> bool)
    requires AllSatisfy(a, drop)
    ensures LStripBy(a + b, drop) == LStripBy(b, drop)
    decreases |a|
  {
    if a != [] {
      assert (a + b)[1..] == a[1..] + b;
      LStripPrefixed(a[1..], b, drop);
    } else {
      assert a + b == b;
    }
  }

  lemma {:induction false} RStripSuffixed(a: string, b: string, drop: char -> bool)
    requires AllSatisfy(b, drop)
    ensures RStripBy(a + b, drop) == RStripBy(a, drop)
    decreases |b|
  {
    if b != [] {
      assert (a + b)[..|a + b| - 1] == a + b[..|b| - 1];
      RStripSuffixed(a, b[..|b| - 1], drop);
    } else {
      assert a + b == a;
    }
  }

  /** The strip of `s` is the slice of `s` that starts at offset `a`. */
  lemma StripSlice(s: string) returns (a: nat, b: nat)
    ensures a <= b <= |s| && Strip(s) == s[a..b]
  {
    var l := LStripBy(s, IsSpace);
    var r := RStripBy(l, IsSpace);
    a := |s| - |l|;
    b := a + |r|;
    SliceOfSuffix(s, a, |r|);
  }

  /** Stripping a string that is bracketed by kept characters changes nothing. */
  lemma StripByFixed(s: string, drop: char -> bool)
    requires |s| > 0 && !drop(s[0]) && !drop(s[|s| - 1])
    ensures StripBy(s, drop) == s
  {
  }

  /** Right-stripping first does not change what a full strip yields. */
  lemma {:induction false} StripAfterRStrip(s: string)
    ensures Strip(RStripBy(s, IsSpace)) == Strip(s)
    decreases |s|
  {
    if |s| > 0 && IsSpace(s[|s| - 1]) {
      StripAfterRStrip(s[..|s| - 1]);
      var r := s[..|s| - 1];
      // stripping the last space first or last gives the same core
      RStripOfLStrip(r, s);
    }
  }

  /** Helper: for `s == r + [space]`, the full strip of `s` and of `r` agree. */
  lemma {:induction false} RStripOfLStrip(r: string, s: string)
    requires |s| > 0 && IsSpace(s[|s| - 1]) && r == s[..|s| - 1]
    ensures Strip(s) == Strip(r)
    decreases |s|
  {
    if |r| > 0 && IsSpace(r[0]) {
      assert s[1..][..|s[1..]| - 1] == r[1..];
      RStripOfLStrip(r[1..], s[1..]);
    } else if |r| == 0 {
    } else {
      assert LStripBy(r, IsSpace) == r;
      assert LStripBy(s, IsSpace) == s;
    }
  }

  /** Left-stripping past a kept character never reaches what follows. */
  lemma {:induction false} LStripAppend(a: string, b: string, drop: char -> bool)
    requires exists i | 0 <= i < |a| :: !drop(a[i])
    ensures LStripBy(a + b, drop) == LStripBy(a, drop) + b
    decreases |a|
  {
    if drop(a[0]) {
      assert (a + b)[1..] == a[1..] + b;
      var i :| 0 <= i < |a| && !drop(a[i]);
      assert a[1..][i - 1] == a[i];
      LStripAppend(a[1..], b, drop);
    }
  }

  /** Right-stripping `a + b`, where `a` ends in a kept character, only touches `b`. */
  lemma {:induction false} RStripAppend(a: string, b: string, drop: char -> bool)
    requires |a| > 0 && !drop(a[|a| - 1])
    ensures RStripBy(a + b, drop) == a + RStripBy(b, drop)
    decreases |b|
  {
    if b == [] {
      assert a + b == a;
    } else if drop(b[|b| - 1]) {
      assert (a + b)[..|a + b| - 1] == a + b[..|b| - 1];
      RStripAppend(a, b[..|b| - 1], drop);
    }
  }

  /** Padding made only of stripped characters does not change the strip. */
  lemma StripPadded(a: string, d: string, b: string, drop: char -> bool)
    requires AllSatisfy(a, drop) && AllSatisfy(b, drop)
    ensures StripBy(a + d + b, drop) == StripBy(d, drop)
  {
    AppendAssoc(a, d, b);
    LStripPrefixed(a, d + b, drop);
    if exists i | 0 <= i < |d| :: !drop(d[i]) {
      LStripAppend(d, b, drop);
      RStripSuffixed(LStripBy(d, drop), b, drop);
    } else {
      LStripPrefixed(d, b, drop);
      LStripPrefixed(d, [], drop);
      AppendNil(d);
    }
  }

  // ---------------------------------------------------------------------------
  // Decimal numerals

  /** The value of a decimal digit; every caller passes a digit, any other character counts 0. */
  function DigitValue(c: char): nat
  {
    if IsDigit(c) then c as int - '0' as int else 0
  }

  function DigitChar(d: nat): (c: char)
    requires d < 10
    ensures IsDigit(c) && DigitValue(c) == d
  {
    ('0' as int + d) as char
  }

  /** `int(s)` for a non-empty ASCII numeral (leading zeros allowed). */
  function DigitsValue(s: string): nat
    decreases |s|
  {
    if s == [] then 0 else 10 * DigitsValue(s[..|s| - 1]) + DigitValue(s[|s| - 1])
  }

  /** `str(n)` for a natural number; parsing it back gives `n`. */
  function Decimal(n: nat): (s: string)
    ensures |s| >= 1 && AllDigits(s) && DigitsValue(s) == n
    ensures n > 0 ==> s[0] != '0'
  {
    if n < 10 then [DigitChar(n)]
    else
      var hi := Decimal(n / 10);
      var s := hi + [DigitChar(n % 10)];
      assert s[..|s| - 1] == hi;
      s
  }

  // ---------------------------------------------------------------------------
  // str.replace, join, slicing, os.path.join

  predicate OccursAt(s: string, target: string, p: int)
  {
    0 <= p && p + |target| <= |s| && s[p..p + |target|] == target
  }

  /** `target` occurs in `s` at position `q` and nowhere else. */
  ghost predicate OccursOnlyAt(s: string, target: string, q: int)
  {
    forall p :: OccursAt(s, target, p) ==> p == q
  }

  lemma HeadTail<T>(s: seq<T>)
    requires s != []
    ensures [s[0]] + s[1..] == s
  {
  }

  lemma SplitAt<T>(s: seq<T>, k: nat)
    requires k <= |s|
    ensures s[..k] + s[k..] == s
  {
  }

  lemma TakeSnoc<T>(s: seq<T>, k: nat)
    requires k < |s|
    ensures s[..k] + [s[k]] == s[..k + 1]
  {
  }

  lemma AppendNil<T>(s: seq<T>)
    ensures s + [] == s && [] + s == s
  {
  }

  lemma SliceSuffix<T>(s: seq<T>, a: nat, b: nat, i: nat)
    requires a <= b <= |s| && i <= b - a
    ensures s[a..b][i..] + s[b..] == s[a + i..]
  {
  }

  lemma SliceOfSuffix<T>(s: seq<T>, a: nat, n: nat)
    requires a + n <= |s|
    ensures s[a..][..n] == s[a..a + n]
  {
  }

  /** The pieces of `a + x` around the first `d` elements of `x`. */
  lemma ConcatParts<T>(a: seq<T>, x: seq<T>, d: nat)
    requires d < |x|
    ensures (a + x)[..|a|] == a && (a + x)[|a|..] == x
    ensures (a + x)[|a|..][..d] == (a + x)[|a|..|a| + d] == x[..d] && (a + x)[|a| + d] == x[d]
  {
  }

  lemma AppendAssoc<T>(a: seq<T>, b: seq<T>, c: seq<T>)
    ensures a + (b + c) == (a + b) + c
  {
  }

  /** A prefix of `b` extends to a prefix of `a + b`. */
  lemma PrefixOfConcat(a: string, b: string, c: string)
    requires |c| <= |b| && b[..|c|] == c
    ensures (a + b)[..|a| + |c|] == a + c
  {
    assert (a + b)[..|a| + |c|] == a + b[..|c|];
  }

  /** `s.replace(target, replacement)`: every non-overlapping occurrence, scanned left to right. */
  function ReplaceAll(s: string, target: string, replacement: string): string
    requires |target| > 0
    decreases |s|
  {
    if |s| < |target| then s
    else if s[..|target|] == target then replacement + ReplaceAll(s[|target|..], target, replacement)
    else [s[0]] + ReplaceAll(s[1..], target, replacement)
  }

  /** An occurrence in a suffix is an occurrence in the whole string, shifted. */
  lemma OccursShift(s: string, target: string, p: int, k: nat)
    requires k <= |s| && OccursAt(s[k..], target, p)
    ensures OccursAt(s, target, p + k)
  {
    assert s[p + k..p + k + |target|] == s[k..][p..p + |target|];
  }

  /** Without an occurrence, `replace` returns the string unchanged. */
  lemma {:induction false} ReplaceAllAbsent(s: string, target: string, replacement: string)
    requires |target| > 0
    requires forall p :: !OccursAt(s, target, p)
    ensures ReplaceAll(s, target, replacement) == s
    decreases |s|
  {
    if |s| >= |target| {
      assert !OccursAt(s, target, 0);
      assert s[..|target|] != target;
      forall p ensures !OccursAt(s[1..], target, p) {
        if OccursAt(s[1..], target, p) {
          OccursShift(s, target, p, 1);
          assert false;
        }
      }
      ReplaceAllAbsent(s[1..], target, replacement);
      assert s == [s[0]] + s[1..];
    }
  }

  /** When `target` occurs in `a + target + b` only right after `a`, `replace` swaps that one occurrence. */
  lemma {:induction false} ReplaceAllUnique(a: string, target: string, b: string, replacement: string)
    requires |target| > 0
    requires forall p :: OccursAt(a + target + b, target, p) ==> p == |a|
    ensures ReplaceAll(a + target + b, target, replacement) == a + replacement + b
    decreases |a|
  {
    var s := a + target + b;
    if a == [] {
      assert s == target + b;
      assert s[..|target|] == target;
      assert s[|target|..] == b;
      forall p ensures !OccursAt(b, target, p) {
        if OccursAt(b, target, p) {
          OccursShift(s, target, p, |target|);
          assert false;
        }
      }
      ReplaceAllAbsent(b, target, replacement);
    } else {
      assert |s| >= |target|;
      assert !OccursAt(s, target, 0);
      assert s[..|target|] != target;
      var s' := a[1..] + target + b;
      assert s[1..] == s';
      forall p | OccursAt(s', target, p) ensures p == |a[1..]| {
        OccursShift(s, target, p, 1);
      }
      ReplaceAllUnique(a[1..], target, b, replacement);
      assert [s[0]] + (a[1..] + replacement + b) == a + replacement + b;
    }
  }

  /** `replace` on a string made of two copies of `target` swaps both. */
  lemma ReplaceAllTwice(target: string, replacement: string)
    requires |target| > 0
    ensures ReplaceAll(target + target, target, replacement) == replacement + replacement
  {
    var s := target + target;
    assert s[..|target|] == target;
    assert s[|target|..] == target;
    assert ReplaceAll(s, target, replacement) == replacement + ReplaceAll(target, target, replacement);
    assert target[..|target|] == target;
    assert target[|target|..] == [];
    assert ReplaceAll(target, target, replacement) == replacement + ReplaceAll([], target, replacement);
  }

  /** `sep.join(xs)`. */
  function Join(xs: seq<string>, sep: string): (r: string)
    ensures xs == [] ==> r == []
    ensures |xs| == 1 ==> r == xs[0]
  {
    if xs == [] then []
    else if |xs| == 1 then xs[0]
    else xs[0] + sep + Join(xs[1..], sep)
  }

  /** `xs[lo:hi]` for non-negative bounds: Python clamps both to the length. */
  function PySlice<T>(xs: seq<T>, lo: nat, hi: nat): (r: seq<T>)
    ensures lo <= hi <= |xs| ==> r == xs[lo..hi]
    ensures |r| == if lo <= hi && lo <= |xs| then (if hi <= |xs| then hi else |xs|) - lo else 0
  {
    var l := if lo <= |xs| then lo else |xs|;
    var h := if hi <= |xs| then hi else |xs|;
    if l <= h then xs[l..h] else []
  }

  /** `os.path.join(dir, name)` for a relative `name`, POSIX separator. */
  function PathJoin(dir: string, name: string): (p: string)
    ensures |p| >= |name| && p[|p| - |name|..] == name
  {
    if dir == [] || dir[|dir| - 1] == '/' then dir + name else dir + "/" + name
  }

  /** Joining onto one directory is injective in the file name. */
  lemma PathJoinInjective(dir: string, a: string, b: string)
    requires PathJoin(dir, a) == PathJoin(dir, b)
    ensures a == b
  {
    var pa, pb := PathJoin(dir, a), PathJoin(dir, b);
    var k := if dir == [] || dir[|dir| - 1] == '/' then |dir| else |dir| + 1;
    assert pa[k..] == a;
    assert pb[k..] == b;
  }
}
