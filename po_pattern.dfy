/**
 * The regular expression both PO rewriting scripts build for one key,
 * `<head>\s*\n<tail>` with the `g` flag, and `String.prototype.replace` /
 * `String.prototype.match` with it.
 *
 * `head` is `msgid "<key>"` and `tail` is `msgstr "..."`. Because the tail
 * starts with a character that is not white space, the greedy `\s*` followed
 * by `\n` matches exactly when the white-space run after the head is
 * non-empty and ends with a newline, and then the tail must start right
 * after that run; `MatchAtIsRegex` proves this against the backtracking
 * reading of the pattern.
 */
module PoPattern {
  import opened Wrappers
  import opened JsString

  datatype Pattern = Pattern(head: string, tail: string)

  /** The `.po` file of a language. */
  function PoPath(lang: string): string {
    "locales/" + lang + ".po"
  }

  /** The line `msgid "key"`. */
  function MsgidLine(key: string): string {
    "msgid \"" + key + "\""
  }

  /** `msgid "key"\s*\nmsgstr ""`: the key's msgstr that is still empty. */
  function EmptyPattern(key: string): Pattern {
    Pattern(MsgidLine(key), "msgstr \"\"")
  }

  /** The tail of `p` starts with something other than white space. */
  predicate WellFormed(p: Pattern) {
    |p.tail| > 0 && !IsSpace(p.tail[0])
  }

  /**
   * If `p` matches at `i`, the index where its tail starts; the text from
   * `i` to there is the first capture group (head and white space).
   */
  function MatchAt(s: string, p: Pattern, i: nat): (r: Option<nat>)
    ensures r.Some? ==> i + |p.head| < r.value && r.value + |p.tail| <= |s|
  {
    if OccursAt(s, p.head, i) then TailStart(s, p, i + |p.head|, i + |p.head|) else None
  }

  /**
   * The white-space run that began at `b` is scanned on from `k`; where it
   * ends, it must be non-empty, end in a newline and be followed by the tail.
   */
  function TailStart(s: string, p: Pattern, b: nat, k: nat): (r: Option<nat>)
    requires b <= k
    ensures r.Some? ==> b < r.value && r.value + |p.tail| <= |s|
    decreases |s| - k
  {
    if k < |s| && IsSpace(s[k]) then TailStart(s, p, b, k + 1)
    else if k > b && k <= |s| && s[k - 1] == '\n' && OccursAt(s, p.tail, k) then Some(k)
    else None
  }

  /** The scan stops where the forward skip over white space stops. */
  lemma {:induction false} TailStartSkips(s: string, p: Pattern, b: nat, k: nat)
    requires b <= k <= |s|
    ensures var e := SkipSpaceForward(s, k);
            TailStart(s, p, b, k) == if e > b && s[e - 1] == '\n' && OccursAt(s, p.tail, e) then Some(e) else None
    decreases |s| - k
  {
    if k < |s| && IsSpace(s[k]) {
      TailStartSkips(s, p, b, k + 1);
    }
  }

  /** The regular expression read literally: head, any white space, a newline, tail. */
  predicate RegexMatchesAt(s: string, p: Pattern, i: nat, j: nat) {
    OccursAt(s, p.head, i) && i + |p.head| <= j < |s|
    && AllSpace(s[i + |p.head|..j]) && s[j] == '\n' && OccursAt(s, p.tail, j + 1)
  }

  /** `MatchAt` finds a match exactly when the pattern, read with backtracking, has one, and the split point is unique. */
  lemma MatchAtIsRegex(s: string, p: Pattern, i: nat, j: nat)
    requires WellFormed(p)
    ensures RegexMatchesAt(s, p, i, j) <==> MatchAt(s, p, i) == Some(j + 1)
  {
    var b := i + |p.head|;
    if OccursAt(s, p.head, i) {
      TailStartSkips(s, p, b, b);
    }
    if RegexMatchesAt(s, p, i, j) {
      assert s[j + 1] == p.tail[0] by {
        assert s[j + 1..j + 1 + |p.tail|][0] == s[j + 1];
      }
      forall m | b <= m < j + 1 ensures IsSpace(s[m]) {
        if m < j {
          assert s[b..j][m - b] == s[m];
        }
      }
      SkipForwardStops(s, b, j + 1);
    }
    if MatchAt(s, p, i) == Some(j + 1) {
      forall m | 0 <= m < j - b ensures IsSpace(s[b..j][m]) {
        assert s[b..j][m] == s[b + m];
      }
    }
  }

  /** The first index at or after `i` where `p` matches. */
  function FirstMatchFrom(s: string, p: Pattern, i: nat): (r: Option<nat>)
    ensures r.Some? ==> i <= r.value < |s| && MatchAt(s, p, r.value).Some?
    ensures r.Some? ==> forall m :: i <= m < r.value ==> MatchAt(s, p, m).None?
    ensures r.None? ==> forall m :: i <= m ==> MatchAt(s, p, m).None?
    decreases |s| - i
  {
    if i >= |s| then None
    else if MatchAt(s, p, i).Some? then Some(i)
    else FirstMatchFrom(s, p, i + 1)
  }

  /** `s.match(p)` is not null. */
  predicate HasMatch(s: string, p: Pattern) {
    FirstMatchFrom(s, p, 0).Some?
  }

  /**
   * A left-to-right scan that, at each index, either replaces a hit (its end
   * and its replacement text) and resumes after it, or keeps one character.
   */
  function Scan(s: string, hit: nat -> Option<(nat, string)>, i: nat): string
    decreases |s| - i
  {
    if i >= |s| then []
    else
      match hit(i)
      case Some(h) => if i < h.0 then h.1 + Scan(s, hit, h.0) else [s[i]] + Scan(s, hit, i + 1)
      case None => [s[i]] + Scan(s, hit, i + 1)
  }

  /** With no hit from `i` on, the scan copies the rest of the text. */
  lemma {:induction false} ScanNoHit(s: string, hit: nat -> Option<(nat, string)>, i: nat)
    requires i <= |s|
    requires forall j :: i <= j < |s| ==> hit(j).None?
    ensures Scan(s, hit, i) == s[i..]
    decreases |s| - i
  {
    if i < |s| {
      ScanNoHit(s, hit, i + 1);
      assert s[i..] == [s[i]] + s[i + 1..];
    }
  }

  /** The text before the first hit is copied, then the hit's replacement, then the scan resumes after it. */
  lemma {:induction false} ScanFirstHit(s: string, hit: nat -> Option<(nat, string)>, i: nat, m: nat)
    requires i <= m < |s|
    requires forall j :: i <= j < m ==> hit(j).None?
    requires hit(m).Some? && m < hit(m).value.0
    ensures Scan(s, hit, i) == s[i..m] + hit(m).value.1 + Scan(s, hit, hit(m).value.0)
    decreases m - i
  {
    var h := hit(m).value;
    if i < m {
      assert hit(i).None?;
      assert Scan(s, hit, i) == [s[i]] + Scan(s, hit, i + 1);
      ScanFirstHit(s, hit, i + 1, m);
      assert s[i..m] == [s[i]] + s[i + 1..m];
    } else {
      assert Scan(s, hit, m) == h.1 + Scan(s, hit, h.0);
      assert s[i..m] == [];
    }
  }

  /** The hit the scan of `s.replace(p, r)` sees at `i`: the match, replaced by `r` of its first group. */
  function ReplaceHit(s: string, p: Pattern, r: string -> string, i: nat): Option<(nat, string)> {
    match MatchAt(s, p, i)
    case Some(e) => Some((e + |p.tail|, r(s[i..e])))
    case None => None
  }

  /** `s.replace(p, r)` with the global flag. */
  function ReplaceAll(s: string, p: Pattern, r: string -> string): string {
    Scan(s, (i: nat) => ReplaceHit(s, p, r, i), 0)
  }

  /** Without a match, the replacement leaves the content as it was. */
  lemma ReplaceAllNoMatch(s: string, p: Pattern, r: string -> string)
    requires !HasMatch(s, p)
    ensures ReplaceAll(s, p, r) == s
  {
    var hit := (i: nat) => ReplaceHit(s, p, r, i);
    forall j | 0 <= j < |s| ensures hit(j).None? {
      assert MatchAt(s, p, j).None?;
    }
    ScanNoHit(s, hit, 0);
  }

  /**
   * The text before the first match is copied, the match is replaced by `r`
   * of its first group, and the rest is processed from the end of the match.
   */
  lemma ReplaceAllFirst(s: string, p: Pattern, r: string -> string, m: nat, e: nat)
    requires FirstMatchFrom(s, p, 0) == Some(m) && MatchAt(s, p, m) == Some(e)
    ensures ReplaceAll(s, p, r) == s[..m] + r(s[m..e]) + Scan(s, (i: nat) => ReplaceHit(s, p, r, i), e + |p.tail|)
  {
    var hit := (i: nat) => ReplaceHit(s, p, r, i);
    forall j | 0 <= j < m ensures hit(j).None? {
      assert MatchAt(s, p, j).None?;
    }
    assert hit(m) == Some((e + |p.tail|, r(s[m..e])));
    ScanFirstHit(s, hit, 0, m);
  }

  /** The result of the replacement starts with the text before the first match followed by that match's replacement. */
  lemma ReplaceAllPrefix(s: string, p: Pattern, r: string -> string, m: nat, e: nat)
    requires FirstMatchFrom(s, p, 0) == Some(m) && MatchAt(s, p, m) == Some(e)
    ensures StartsWith(ReplaceAll(s, p, r), s[..m] + r(s[m..e]))
  {
    ReplaceAllFirst(s, p, r, m, e);
    PrefixOfConcat(s[..m] + r(s[m..e]), Scan(s, (i: nat) => ReplaceHit(s, p, r, i), e + |p.tail|));
  }
}
