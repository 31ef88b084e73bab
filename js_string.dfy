/**
 * The JavaScript string operations the build scripts rely on, stated over
 * `seq<char>`: `trim`, `startsWith`, `endsWith`, `indexOf`/`includes`,
 * `split` and `join` with a string separator, `replace` with a string
 * pattern (first occurrence only), `substring` with its argument swap, and
 * ASCII upper-casing.
 */
module JsString {
  import opened Wrappers

  /** ECMAScript WhiteSpace and LineTerminator: what `trim` removes and what `\s` matches. */
  predicate IsSpace(c: char) {
    c == ' ' || c == '\t' || c == '\n' || c == '\r' || c == '\U{B}' || c == '\U{C}'
    || c == '\U{A0}' || c == '\U{1680}' || ('\U{2000}' <= c <= '\U{200A}')
    || c == '\U{2028}' || c == '\U{2029}' || c == '\U{202F}' || c == '\U{205F}'
    || c == '\U{3000}' || c == '\U{FEFF}'
  }

  /** ECMAScript LineTerminator: the characters after which `^` matches in a multiline regex. */
  predicate IsLineTerminator(c: char) {
    c == '\n' || c == '\r' || c == '\U{2028}' || c == '\U{2029}'
  }

  predicate AllSpace(s: string) {
    forall i :: 0 <= i < |s| ==> IsSpace(s[i])
  }

  predicate IsDigit(c: char) {
    '0' <= c <= '9'
  }

  predicate StartsWith(s: string, prefix: string) {
    |prefix| <= |s| && s[..|prefix|] == prefix
  }

  predicate EndsWith(s: string, suffix: string) {
    |suffix| <= |s| && s[|s| - |suffix|..] == suffix
  }

  lemma PrefixOfConcat(p: string, rest: string)
    ensures StartsWith(p + rest, p)
    ensures (p + rest)[|p|..] == rest
  {
    assert (p + rest)[..|p|] == p;
  }

  lemma StartsWithChar(s: string, c: char)
    ensures StartsWith(s, [c]) <==> |s| > 0 && s[0] == c
  {
    if |s| > 0 {
      assert s[..1] == [s[0]];
    }
  }

  lemma MismatchNotPrefix(s: string, p: string, i: nat)
    requires i < |p| && i < |s| && s[i] != p[i]
    ensures !StartsWith(s, p)
  {
    if |p| <= |s| {
      assert s[..|p|][i] == s[i];
    }
  }

  lemma EndsWithChar(s: string, c: char)
    ensures EndsWith(s, [c]) <==> |s| > 0 && s[|s| - 1] == c
  {
    if |s| > 0 {
      assert s[|s| - 1..] == [s[|s| - 1]];
    }
  }

  /** The index of the first non-white-space character at or after `i` (or `|s|`). */
  function SkipSpaceForward(s: string, i: nat): (k: nat)
    requires i <= |s|
    ensures i <= k <= |s|
    ensures forall j :: i <= j < k ==> IsSpace(s[j])
    ensures k == |s| || !IsSpace(s[k])
    decreases |s| - i
  {
    if i < |s| && IsSpace(s[i]) then SkipSpaceForward(s, i + 1) else i
  }

  /** The forward skip over white space from `b` ends at `e` when `b..e` is white space and `s[e]` is not. */
  lemma {:induction false} SkipForwardStops(s: string, b: nat, e: nat)
    requires b <= e < |s|
    requires forall m :: b <= m < e ==> IsSpace(s[m])
    requires !IsSpace(s[e])
    ensures SkipSpaceForward(s, b) == e
    decreases e - b
  {
    if b < e {
      SkipForwardStops(s, b + 1, e);
    }
  }

  /** The index just past the last non-white-space character before `j`, but not below `lo`. */
  function SkipSpaceBackward(s: string, lo: nat, j: nat): (k: nat)
    requires lo <= j <= |s|
    ensures lo <= k <= j
    ensures forall m :: k <= m < j ==> IsSpace(s[m])
    ensures k == lo || !IsSpace(s[k - 1])
    decreases j
  {
    if lo < j && IsSpace(s[j - 1]) then SkipSpaceBackward(s, lo, j - 1) else j
  }

  /** `String.prototype.trim`: white space removed from both ends. */
  function Trim(s: string): (r: string)
    ensures |r| <= |s|
    ensures r == [] || (!IsSpace(r[0]) && !IsSpace(r[|r| - 1]))
  {
    var a := SkipSpaceForward(s, 0);
    s[a..SkipSpaceBackward(s, a, |s|)]
  }

  /** The trim is the infix left after removing white space from both ends. */
  lemma TrimSpec(s: string)
    ensures exists k :: 0 <= k <= |s| - |Trim(s)| && Trim(s) == s[k..k + |Trim(s)|]
                        && AllSpace(s[..k]) && AllSpace(s[k + |Trim(s)|..])
  {
    var a := SkipSpaceForward(s, 0);
    var b := SkipSpaceBackward(s, a, |s|);
    assert Trim(s) == s[a..b];
    assert AllSpace(s[..a]);
    assert AllSpace(s[b..]);
  }

  /** A string that trims to nothing is all white space. */
  lemma TrimEmptyAllSpace(s: string)
    requires Trim(s) == ""
    ensures AllSpace(s)
  {
    var a := SkipSpaceForward(s, 0);
    var b := SkipSpaceBackward(s, a, |s|);
    assert s[a..b] == [];
    assert a == b;
  }

  /** A string that starts and ends with something other than white space is its own trim. */
  lemma TrimNoop(s: string)
    requires s == [] || (!IsSpace(s[0]) && !IsSpace(s[|s| - 1]))
    ensures Trim(s) == s
  {
    if s != [] {
      assert SkipSpaceForward(s, 0) == 0;
      assert SkipSpaceBackward(s, 0, |s|) == |s|;
    }
  }

  /** A string that starts with something other than white space keeps that first character after trimming. */
  lemma TrimKeepsFirst(s: string)
    requires |s| > 0 && !IsSpace(s[0])
    ensures |Trim(s)| > 0 && Trim(s)[0] == s[0]
  {
    assert SkipSpaceForward(s, 0) == 0;
  }

  lemma {:induction false} SkipForwardShift(c: char, s: string, i: nat)
    requires i <= |s|
    ensures SkipSpaceForward([c] + s, i + 1) == SkipSpaceForward(s, i) + 1
    decreases |s| - i
  {
    if i < |s| {
      assert ([c] + s)[i + 1] == s[i];
      if IsSpace(s[i]) {
        SkipForwardShift(c, s, i + 1);
      }
    }
  }

  lemma {:induction false} SkipBackwardShift(c: char, s: string, lo: nat, j: nat)
    requires lo <= j <= |s|
    ensures SkipSpaceBackward([c] + s, lo + 1, j + 1) == SkipSpaceBackward(s, lo, j) + 1
    decreases j
  {
    if lo < j {
      assert ([c] + s)[j] == s[j - 1];
      if IsSpace(s[j - 1]) {
        SkipBackwardShift(c, s, lo, j - 1);
      }
    }
  }

  lemma SkipForwardCons(c: char, s: string)
    requires IsSpace(c)
    ensures SkipSpaceForward([c] + s, 0) == SkipSpaceForward(s, 0) + 1
  {
    SkipForwardShift(c, s, 0);
  }

  lemma TrimConsSpace(c: char, s: string)
    requires IsSpace(c)
    ensures Trim([c] + s) == Trim(s)
  {
    var t := [c] + s;
    SkipForwardCons(c, s);
    var a := SkipSpaceForward(s, 0);
    SkipBackwardShift(c, s, a, |s|);
    var b := SkipSpaceBackward(s, a, |s|);
    assert Trim(t) == t[a + 1..b + 1];
    SliceOfCons(c, s, a, b);
  }

  lemma SliceOfCons(c: char, s: string, a: nat, b: nat)
    requires a <= b <= |s|
    ensures ([c] + s)[a + 1..b + 1] == s[a..b]
  {
  }

  /** White space in front of a string does not change its trim. */
  lemma {:induction false} TrimSkipsIndent(indent: string, s: string)
    requires AllSpace(indent)
    ensures Trim(indent + s) == Trim(s)
    decreases |indent|
  {
    if indent == [] {
      assert indent + s == s;
    } else {
      assert indent + s == [indent[0]] + (indent[1..] + s);
      TrimConsSpace(indent[0], indent[1..] + s);
      TrimSkipsIndent(indent[1..], s);
    }
  }

  predicate OccursAt(s: string, sub: string, i: nat) {
    i + |sub| <= |s| && s[i..i + |sub|] == sub
  }

  lemma OccursFirstChar(s: string, sub: string, i: nat)
    requires OccursAt(s, sub, i) && |sub| > 0
    ensures s[i] == sub[0]
  {
    assert s[i..i + |sub|][0] == s[i];
  }

  /** `s.indexOf(sub, from)`, as an option. */
  function IndexOfFrom(s: string, sub: string, from: nat): (r: Option<nat>)
    ensures r.Some? ==> from <= r.value && OccursAt(s, sub, r.value)
    ensures r.Some? ==> forall j :: from <= j < r.value ==> !OccursAt(s, sub, j)
    ensures r.None? ==> forall j :: from <= j ==> !OccursAt(s, sub, j)
    decreases |s| - from
  {
    if from + |sub| > |s| then None
    else if s[from..from + |sub|] == sub then Some(from)
    else IndexOfFrom(s, sub, from + 1)
  }

  /** `s.indexOf(sub)`: the first occurrence. */
  function IndexOf(s: string, sub: string): (r: Option<nat>)
    ensures r.Some? ==> OccursAt(s, sub, r.value) && forall j :: 0 <= j < r.value ==> !OccursAt(s, sub, j)
    ensures r.None? ==> forall j :: 0 <= j ==> !OccursAt(s, sub, j)
  {
    IndexOfFrom(s, sub, 0)
  }

  /** `s.includes(sub)`. */
  predicate Contains(s: string, sub: string) {
    IndexOf(s, sub).Some?
  }

  /** `s.split(sep)` for a non-empty string separator. */
  function Split(s: string, sep: string): (parts: seq<string>)
    requires sep != []
    ensures |parts| >= 1
    decreases |s|
  {
    match IndexOf(s, sep)
    case None => [s]
    case Some(i) => [s[..i]] + Split(s[i + |sep|..], sep)
  }

  /** `parts.join(sep)`. */
  function Join(parts: seq<string>, sep: string): string {
    if |parts| == 0 then ""
    else if |parts| == 1 then parts[0]
    else parts[0] + sep + Join(parts[1..], sep)
  }

  /** Joining two non-empty lists of parts puts the separator between their joins. */
  lemma {:induction false} JoinConcat(a: seq<string>, b: seq<string>, sep: string)
    requires a != [] && b != []
    ensures Join(a + b, sep) == Join(a, sep) + sep + Join(b, sep)
    decreases |a|
  {
    if |a| == 1 {
      assert (a + b)[0] == a[0] && (a + b)[1..] == b;
    } else {
      JoinConcat(a[1..], b, sep);
      assert (a + b)[0] == a[0] && (a + b)[1..] == a[1..] + b;
    }
  }

  /** Joining the pieces of a split restores the string. */
  lemma {:induction false} JoinSplit(s: string, sep: string)
    requires sep != []
    ensures Join(Split(s, sep), sep) == s
    decreases |s|
  {
    match IndexOf(s, sep)
    case None =>
    case Some(i) =>
      var rest := s[i + |sep|..];
      var parts := Split(s, sep);
      assert parts == [s[..i]] + Split(rest, sep);
      assert parts[1..] == Split(rest, sep);
      assert Join(parts, sep) == s[..i] + sep + Join(Split(rest, sep), sep);
      JoinSplit(rest, sep);
      assert s == s[..i] + sep + rest;
  }

  /** Splitting on a one-character separator undoes a join of pieces that do not contain it. */
  lemma {:induction false} SplitJoin(parts: seq<string>, c: char)
    requires |parts| >= 1
    requires forall i :: 0 <= i < |parts| ==> c !in parts[i]
    ensures Split(Join(parts, [c]), [c]) == parts
    decreases |parts|
  {
    var s := Join(parts, [c]);
    if |parts| == 1 {
      forall j | 0 <= j ensures !OccursAt(s, [c], j) {
        if j < |s| {
          assert s[j..j + 1] == [s[j]];
        }
      }
    } else {
      var p := parts[0];
      var rest := Join(parts[1..], [c]);
      assert s == p + [c] + rest;
      assert OccursAt(s, [c], |p|);
      forall j | 0 <= j < |p| ensures !OccursAt(s, [c], j) {
        assert s[j] == p[j];
      }
      assert IndexOf(s, [c]) == Some(|p|);
      assert s[..|p|] == p;
      assert s[|p| + 1..] == rest;
      assert Split(s, [c]) == [p] + Split(rest, [c]);
      SplitJoin(parts[1..], c);
      assert parts == [p] + parts[1..];
    }
  }

  /** Number of occurrences of `c` in `s`. */
  function Count(s: string, c: char): nat {
    if s == [] then 0 else (if s[0] == c then 1 else 0) + Count(s[1..], c)
  }

  lemma {:induction false} CountAppend(a: string, b: string, c: char)
    ensures Count(a + b, c) == Count(a, c) + Count(b, c)
    decreases |a|
  {
    if a == [] {
      assert a + b == b;
    } else {
      assert (a + b)[1..] == a[1..] + b;
      CountAppend(a[1..], b, c);
    }
  }

  lemma {:induction false} CountAbsent(s: string, c: char)
    requires c !in s
    ensures Count(s, c) == 0
    decreases |s|
  {
    if s != [] {
      assert c !in s[1..];
      CountAbsent(s[1..], c);
    }
  }

  /** Splitting on one character yields one piece more than there are occurrences of it. */
  lemma {:induction false} SplitCount(s: string, c: char)
    ensures |Split(s, [c])| == Count(s, c) + 1
    decreases |s|
  {
    match IndexOf(s, [c])
    case None =>
      forall j | 0 <= j < |s| ensures s[j] != c {
        assert !OccursAt(s, [c], j);
        assert s[j..j + 1] == [s[j]];
      }
      CountAbsent(s, c);
    case Some(i) =>
      forall j | 0 <= j < i ensures s[j] != c {
        assert !OccursAt(s, [c], j);
        assert s[j..j + 1] == [s[j]];
      }
      assert c !in s[..i];
      CountAbsent(s[..i], c);
      assert s[i..i + 1] == [c];
      assert s == s[..i] + [c] + s[i + 1..];
      CountAppend(s[..i] + [c], s[i + 1..], c);
      CountAppend(s[..i], [c], c);
      SplitCount(s[i + 1..], c);
  }

  /** `s.replace(pattern, replacement)` with a string pattern: only the first occurrence. */
  function ReplaceFirst(s: string, pattern: string, replacement: string): (r: string)
    ensures !Contains(s, pattern) ==> r == s
    ensures Contains(s, pattern) ==>
              exists i :: 0 <= i <= |s| - |pattern| && OccursAt(s, pattern, i)
                && (forall j :: 0 <= j < i ==> !OccursAt(s, pattern, j))
                && r == s[..i] + replacement + s[i + |pattern|..]
  {
    match IndexOf(s, pattern)
    case None => s
    case Some(i) => s[..i] + replacement + s[i + |pattern|..]
  }

  /** `s.replace(/c/g, d)` for a single character. */
  function ReplaceChar(s: string, c: char, d: char): (r: string)
    ensures |r| == |s|
    ensures forall i :: 0 <= i < |s| ==> r[i] == if s[i] == c then d else s[i]
    ensures c != d ==> c !in r
  {
    seq(|s|, i requires 0 <= i < |s| => if s[i] == c then d else s[i])
  }

  /** `s.replace(/c/g, r)`: every occurrence of the character `c` becomes the text `r`. */
  function ReplaceCharBy(s: string, c: char, r: string): string {
    if s == [] then [] else (if s[0] == c then r else [s[0]]) + ReplaceCharBy(s[1..], c, r)
  }

  /** The replacement works piece by piece. */
  lemma {:induction false} ReplaceCharByAppend(a: string, b: string, c: char, r: string)
    ensures ReplaceCharBy(a + b, c, r) == ReplaceCharBy(a, c, r) + ReplaceCharBy(b, c, r)
    decreases |a|
  {
    if a == [] {
      assert a + b == b;
    } else {
      assert (a + b)[1..] == a[1..] + b;
      ReplaceCharByAppend(a[1..], b, c, r);
    }
  }

  /** Each `c` grows from one character to `|r|`; a character that is neither `c` nor in `r` does not appear afterwards. */
  lemma ReplaceCharByShape(s: string, c: char, r: string, x: char)
    ensures |ReplaceCharBy(s, c, r)| == |s| - Count(s, c) + Count(s, c) * |r|
    ensures x in ReplaceCharBy(s, c, r) <==> (x in r && c in s) || (x != c && x in s)
  {
    ReplaceCharByLength(s, c, r);
    ReplaceCharByMembers(s, c, r, x);
  }

  lemma {:induction false} ReplaceCharByLength(s: string, c: char, r: string)
    ensures |ReplaceCharBy(s, c, r)| == |s| - Count(s, c) + Count(s, c) * |r|
    decreases |s|
  {
    if s != [] {
      ReplaceCharByLength(s[1..], c, r);
      var n := Count(s[1..], c);
      if s[0] == c {
        assert (n + 1) * |r| == n * |r| + |r|;
      }
    }
  }

  lemma {:induction false} ReplaceCharByMembers(s: string, c: char, r: string, x: char)
    ensures x in ReplaceCharBy(s, c, r) <==> (x in r && c in s) || (x != c && x in s)
    decreases |s|
  {
    if s != [] {
      ReplaceCharByMembers(s[1..], c, r, x);
      assert s == [s[0]] + s[1..];
    }
  }

  function Clamp(x: int, n: nat): nat {
    if x < 0 then 0 else if x > n then n else x
  }

  /** `s.substring(start, end)`: both bounds clamped to the string, swapped when start > end. */
  function JsSubstring(s: string, start: int, end: int): (r: string)
    ensures |r| <= |s|
  {
    var a := Clamp(start, |s|);
    var b := Clamp(end, |s|);
    if a <= b then s[a..b] else s[b..a]
  }

  /** `toUpperCase` restricted to ASCII letters. */
  function UpperAscii(c: char): char {
    if 'a' <= c <= 'z' then (c as int - 32) as char else c
  }

  function UpperAsciiString(s: string): (r: string)
    ensures |r| == |s|
  {
    seq(|s|, i requires 0 <= i < |s| => UpperAscii(s[i]))
  }

  function DigitChar(d: nat): char
    requires d < 10
  {
    ('0' as int + d) as char
  }

  /** The decimal text of a number, as a template literal prints it. */
  function NatToString(n: nat): (r: string)
    ensures |r| >= 1
    ensures forall i :: 0 <= i < |r| ==> IsDigit(r[i])
  {
    if n < 10 then [DigitChar(n)] else NatToString(n / 10) + [DigitChar(n % 10)]
  }
}
