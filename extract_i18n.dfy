/**
 * The POT extraction script: it finds the `.njk` templates under a source
 * tree, collects every `{{ 'key' | i18n }}` with the line it is on, and
 * either creates `messages.pot` or appends to it the messages whose text is
 * not yet a `msgid` of it.
 *
 * A regular expression with the `g` flag, driven by `exec` in a `while`
 * loop, is modelled by a `Matcher`: what the expression finds when tried at
 * one index. `exec` returns the first index at or after `lastIndex` where it
 * matches, and the next search resumes where that match ended.
 */
module ExtractI18n {
  import opened Wrappers
  import opened JsString

  // ---- Global regular expressions ----

  /** The captured text and the end of the match when the expression is tried at an index. */
  type Matcher = nat -> Option<(string, nat)>

  /** Every match is non-empty and ends within a text of length `n`. */
  ghost predicate Advances(at: Matcher, n: nat) {
    forall i: nat :: at(i).Some? ==> i < at(i).value.1 <= n
  }

  /** `regex.exec(s)` with `lastIndex == from`: the first index at or after `from` where it matches. */
  function FirstFrom(at: Matcher, n: nat, from: nat): (r: Option<nat>)
    ensures r.Some? ==> from <= r.value < n && at(r.value).Some?
    ensures r.Some? ==> forall j :: from <= j < r.value ==> at(j).None?
    ensures r.None? ==> forall j :: from <= j < n ==> at(j).None?
    decreases n - from
  {
    if from >= n then None
    else if at(from).Some? then Some(from)
    else FirstFrom(at, n, from + 1)
  }

  datatype Hit = Hit(index: nat, text: string, end: nat)

  /** The matches `exec` returns from `from` on, in order. */
  function Hits(at: Matcher, n: nat, from: nat): seq<Hit>
    requires Advances(at, n)
    decreases n - from
  {
    match FirstFrom(at, n, from)
    case None => []
    case Some(i) => [Hit(i, at(i).value.0, at(i).value.1)] + Hits(at, n, at(i).value.1)
  }

  /** Every hit is a match at its index, at or after `from`; the hits come left to right, and none overlaps the next. */
  ghost predicate HitsWithin(at: Matcher, n: nat, from: nat, r: seq<Hit>) {
    (forall k :: 0 <= k < |r| ==> from <= r[k].index < r[k].end <= n && at(r[k].index) == Some((r[k].text, r[k].end)))
    && (forall k :: 0 <= k < |r| - 1 ==> r[k].end <= r[k + 1].index)
  }

  lemma {:induction false} HitsOrdered(at: Matcher, n: nat, from: nat)
    requires Advances(at, n)
    ensures HitsWithin(at, n, from, Hits(at, n, from))
    decreases n - from
  {
    match FirstFrom(at, n, from)
    case None =>
    case Some(i) =>
      var e := at(i).value.1;
      HitsOrdered(at, n, e);
      var rest := Hits(at, n, e);
      var r := Hits(at, n, from);
      assert r == [Hit(i, at(i).value.0, e)] + rest;
      assert i < e <= n;
      forall k | 0 <= k < |r|
        ensures from <= r[k].index < r[k].end <= n && at(r[k].index) == Some((r[k].text, r[k].end))
      {
        if k > 0 {
          assert r[k] == rest[k - 1];
        } else {
          assert r[0] == Hit(i, at(i).value.0, e);
        }
      }
      forall k | 0 <= k < |r| - 1 ensures r[k].end <= r[k + 1].index {
        if k > 0 {
          assert r[k] == rest[k - 1] && r[k + 1] == rest[k];
        } else {
          assert r[1] == rest[0];
        }
      }
  }

  /** Every index at or after `from` where the expression matches lies within one of the hits. */
  lemma {:induction false} HitsComplete(at: Matcher, n: nat, from: nat, i: nat)
    requires Advances(at, n) && from <= i && at(i).Some?
    ensures exists k :: 0 <= k < |Hits(at, n, from)| && Hits(at, n, from)[k].index <= i < Hits(at, n, from)[k].end
    decreases n - from
  {
    var m := FirstFrom(at, n, from).value;
    var e := at(m).value.1;
    var r := Hits(at, n, from);
    assert r == [Hit(m, at(m).value.0, e)] + Hits(at, n, e);
    if i < e {
      assert r[0].index <= i < r[0].end;
    } else {
      HitsComplete(at, n, e, i);
      var k :| 0 <= k < |Hits(at, n, e)| && Hits(at, n, e)[k].index <= i < Hits(at, n, e)[k].end;
      assert r[k + 1] == Hits(at, n, e)[k];
    }
  }

  /** A search that finds a match yields it, and the search resumes where that match ends. */
  lemma HitsStep(at: Matcher, n: nat, from: nat)
    requires Advances(at, n) && FirstFrom(at, n, from).Some?
    ensures var i := FirstFrom(at, n, from).value;
            Hits(at, n, from) == [Hit(i, at(i).value.0, at(i).value.1)] + Hits(at, n, at(i).value.1)
  {
  }

  /** Without a match from `from` on, there is no hit. */
  lemma HitsNone(at: Matcher, n: nat, from: nat)
    requires Advances(at, n) && FirstFrom(at, n, from).None?
    ensures Hits(at, n, from) == []
  {
  }

  // ---- The template expression ----

  predicate IsQuote(c: char) {
    c == '\'' || c == '"' || c == '`'
  }

  /** The end of the run of characters without a quote that starts at `i`. */
  function SkipKey(s: string, i: nat): (k: nat)
    requires i <= |s|
    ensures i <= k <= |s|
    ensures forall j :: i <= j < k ==> !IsQuote(s[j])
    ensures k == |s| || IsQuote(s[k])
    decreases |s| - i
  {
    if i < |s| && !IsQuote(s[i]) then SkipKey(s, i + 1) else i
  }

  lemma {:induction false} KeyStops(s: string, b: nat, e: nat)
    requires b <= e < |s|
    requires forall m :: b <= m < e ==> !IsQuote(s[m])
    requires IsQuote(s[e])
    ensures SkipKey(s, b) == e
    decreases e - b
  {
    if b < e {
      KeyStops(s, b + 1, e);
    }
  }

  /**
   * Where the pieces of `{{\s*['"`]([^'"`]+)['"`]\s*\|\s*i18n\s*\}\}` fall:
   * the opening and closing quotes, the bar, the word `i18n` and the braces.
   */
  datatype Spans = Spans(open: nat, close: nat, bar: nat, word: nat, brace: nat)

  predicate SpaceBetween(s: string, x: nat, y: nat) {
    x <= y <= |s| && forall m :: x <= m < y ==> IsSpace(s[m])
  }

  /** The expression read literally, with the pieces at the given places. */
  predicate I18nMatchesAt(s: string, i: nat, p: Spans) {
    OccursAt(s, "{{", i) && SpaceBetween(s, i + 2, p.open)
    && p.open + 1 < p.close < |s| && IsQuote(s[p.open]) && IsQuote(s[p.close])
    && (forall m :: p.open < m < p.close ==> !IsQuote(s[m]))
    && SpaceBetween(s, p.close + 1, p.bar) && p.bar < |s| && s[p.bar] == '|'
    && SpaceBetween(s, p.bar + 1, p.word) && OccursAt(s, "i18n", p.word)
    && SpaceBetween(s, p.word + 4, p.brace) && OccursAt(s, "}}", p.brace)
  }

  /** Each white-space run is maximal and each quoted run ends at the first quote, so there is one way to match at `i`. */
  function I18nSpans(s: string, i: nat): (r: Option<Spans>)
    ensures r.Some? ==> i + 2 <= r.value.open < r.value.close < r.value.bar < r.value.word && r.value.brace + 2 <= |s|
  {
    if OccursAt(s, "{{", i) then QuoteFrom(s, SkipSpaceForward(s, i + 2)) else None
  }

  /** The quoted key, once `{{` and the white space after it are read. */
  function QuoteFrom(s: string, a: nat): (r: Option<Spans>)
    requires a <= |s|
    ensures r.Some? ==> r.value.open == a < r.value.close < r.value.bar < r.value.word && r.value.brace + 2 <= |s|
  {
    if a < |s| && IsQuote(s[a]) then
      var b := SkipKey(s, a + 1);
      if a + 1 < b < |s| then BarFrom(s, a, b, SkipSpaceForward(s, b + 1)) else None
    else None
  }

  /** The bar, once the key and the white space after it are read. */
  function BarFrom(s: string, a: nat, b: nat, c: nat): (r: Option<Spans>)
    requires c <= |s|
    ensures r.Some? ==> r.value.open == a && r.value.close == b && r.value.bar == c < r.value.word && r.value.brace + 2 <= |s|
  {
    if c < |s| && s[c] == '|' then WordFrom(s, a, b, c, SkipSpaceForward(s, c + 1)) else None
  }

  /** The word `i18n`, once the bar and the white space after it are read. */
  function WordFrom(s: string, a: nat, b: nat, c: nat, d: nat): (r: Option<Spans>)
    requires d <= |s|
    ensures r.Some? ==> r.value.open == a && r.value.close == b && r.value.bar == c && r.value.word == d && r.value.brace + 2 <= |s|
  {
    if OccursAt(s, "i18n", d) then BraceFrom(s, a, b, c, d, SkipSpaceForward(s, d + 4)) else None
  }

  /** The closing braces, once the word and the white space after it are read. */
  function BraceFrom(s: string, a: nat, b: nat, c: nat, d: nat, e: nat): (r: Option<Spans>)
    ensures r.Some? <==> OccursAt(s, "}}", e)
    ensures r.Some? ==> r.value == Spans(a, b, c, d, e) && e + 2 <= |s|
  {
    if OccursAt(s, "}}", e) then Some(Spans(a, b, c, d, e)) else None
  }

  /** What the scan finds is a literal match. */
  lemma I18nSpansSound(s: string, i: nat)
    requires I18nSpans(s, i).Some?
    ensures I18nMatchesAt(s, i, I18nSpans(s, i).value)
  {
  }

  /** A literal match is what the scan finds: the places of the pieces are unique. */
  lemma I18nSpansComplete(s: string, i: nat, p: Spans)
    requires I18nMatchesAt(s, i, p)
    ensures I18nSpans(s, i) == Some(p)
  {
    BarComplete(s, p);
    QuoteComplete(s, p);
    OpenComplete(s, i, p);
  }

  lemma OpenComplete(s: string, i: nat, p: Spans)
    requires OccursAt(s, "{{", i) && SpaceBetween(s, i + 2, p.open) && p.open < |s| && IsQuote(s[p.open])
    requires QuoteFrom(s, p.open) == Some(p)
    ensures I18nSpans(s, i) == Some(p)
  {
    assert !IsSpace(s[p.open]);
    SkipForwardStops(s, i + 2, p.open);
  }

  lemma BarComplete(s: string, p: Spans)
    requires p.bar < |s| && s[p.bar] == '|'
    requires SpaceBetween(s, p.bar + 1, p.word) && OccursAt(s, "i18n", p.word)
    requires SpaceBetween(s, p.word + 4, p.brace) && OccursAt(s, "}}", p.brace)
    ensures BarFrom(s, p.open, p.close, p.bar) == Some(p)
  {
    WordComplete(s, p);
    WordStops(s, p.bar + 1, p.word, "i18n");
  }

  /** The word and the braces after it, once the white space before the word is read. */
  lemma WordComplete(s: string, p: Spans)
    requires p.word + 4 <= |s| && OccursAt(s, "i18n", p.word)
    requires SpaceBetween(s, p.word + 4, p.brace) && OccursAt(s, "}}", p.brace)
    ensures WordFrom(s, p.open, p.close, p.bar, p.word) == Some(p)
  {
    WordStops(s, p.word + 4, p.brace, "}}");
    assert p == Spans(p.open, p.close, p.bar, p.word, p.brace);
  }

  lemma QuoteComplete(s: string, p: Spans)
    requires p.open + 1 < p.close < |s| && IsQuote(s[p.open]) && IsQuote(s[p.close])
    requires forall m :: p.open < m < p.close ==> !IsQuote(s[m])
    requires SpaceBetween(s, p.close + 1, p.bar) && p.bar < |s| && s[p.bar] == '|'
    requires BarFrom(s, p.open, p.close, p.bar) == Some(p)
    ensures QuoteFrom(s, p.open) == Some(p)
  {
    KeyStops(s, p.open + 1, p.close);
    BarStops(s, p.close + 1, p.bar);
    QuoteFromBar(s, p.open, p.close, p.bar);
  }

  /** `QuoteFrom` hands over to `BarFrom` once the key and the white space after it are read. */
  lemma QuoteFromBar(s: string, a: nat, b: nat, c: nat)
    requires a + 1 < b < |s| && IsQuote(s[a]) && SkipKey(s, a + 1) == b && SkipSpaceForward(s, b + 1) == c
    ensures QuoteFrom(s, a) == BarFrom(s, a, b, c)
  {
  }

  lemma BarStops(s: string, b: nat, e: nat)
    requires SpaceBetween(s, b, e) && e < |s| && s[e] == '|'
    ensures SkipSpaceForward(s, b) == e
  {
    assert !IsSpace(s[e]);
    SkipForwardStops(s, b, e);
  }

  /** A white-space run followed by a word that does not start with white space ends where the word starts. */
  lemma WordStops(s: string, b: nat, e: nat, w: string)
    requires SpaceBetween(s, b, e) && OccursAt(s, w, e) && |w| > 0 && !IsSpace(w[0])
    ensures SkipSpaceForward(s, b) == e
  {
    OccursFirstChar(s, w, e);
    SkipForwardStops(s, b, e);
  }

  /** The key extractor: the text between the quotes, and the end after the braces. */
  function I18nAt(s: string): Matcher {
    (i: nat) =>
      match I18nSpans(s, i)
      case None => None
      case Some(p) => Some((s[p.open + 1..p.close], p.brace + 2))
  }

  lemma I18nAdvances(s: string)
    ensures Advances(I18nAt(s), |s|)
  {
  }

  /** A key is non-empty and holds no quote character. */
  lemma KeyShape(s: string, i: nat)
    requires I18nAt(s)(i).Some?
    ensures var key := I18nAt(s)(i).value.0; key != "" && forall m :: 0 <= m < |key| ==> !IsQuote(key[m])
  {
    var p := I18nSpans(s, i).value;
    I18nSpansSound(s, i);
    var key := s[p.open + 1..p.close];
    forall m | 0 <= m < |key| ensures !IsQuote(key[m]) {
      assert key[m] == s[p.open + 1 + m];
    }
  }

  // ---- extractFromNunjucks ----

  datatype Message = Message(text: string, references: seq<string>)

  /** `source.substring(0, index).split('\n').length`. */
  function LineOf(source: string, index: nat): nat {
    |Split(JsSubstring(source, 0, index), "\n")|
  }

  /** The line is one more than the number of newlines before the index. */
  lemma LineCountsNewlines(source: string, index: nat)
    requires index <= |source|
    ensures LineOf(source, index) == Count(source[..index], '\n') + 1
  {
    assert JsSubstring(source, 0, index) == source[..index];
    SplitCount(source[..index], '\n');
  }

  /** The message added for one match: its key, referenced as `filename:line`. */
  function MessageOf(filename: string, source: string, h: Hit): Message {
    Message(h.text, [Location(filename, LineOf(source, h.index))])
  }

  /** `` `${filename}:${line}` ``. */
  function Location(filename: string, line: nat): string {
    filename + ":" + NatToString(line)
  }

  function MessagesOf(filename: string, source: string, hits: seq<Hit>): (r: seq<Message>)
    ensures |r| == |hits|
    ensures forall k :: 0 <= k < |hits| ==> r[k] == MessageOf(filename, source, hits[k])
  {
    seq(|hits|, k requires 0 <= k < |hits| => MessageOf(filename, source, hits[k]))
  }

  /** The matches of the template expression in a whole source. */
  function I18nHits(source: string): seq<Hit> {
    I18nAdvances(source);
    Hits(I18nAt(source), |source|, 0)
  }

  lemma MessagesOfCons(filename: string, source: string, h: Hit, rest: seq<Hit>)
    ensures MessagesOf(filename, source, [h] + rest) == [MessageOf(filename, source, h)] + MessagesOf(filename, source, rest)
  {
    var hs := [h] + rest;
    assert forall k :: 0 < k < |hs| ==> hs[k] == rest[k - 1];
  }

  lemma AppendRegroup<T>(a: seq<T>, x: T, c: seq<T>)
    ensures (a + [x]) + c == a + ([x] + c)
  {
  }

  /** What `extractFromNunjucks(filename, source)` adds, in order. */
  function Extracted(filename: string, source: string): seq<Message> {
    MessagesOf(filename, source, I18nHits(source))
  }

  /** The `while ((match = i18nRegex.exec(source)) !== null)` loop. */
  method ExtractFromNunjucks(filename: string, source: string) returns (messages: seq<Message>)
    ensures messages == Extracted(filename, source)
  {
    var at := I18nAt(source);
    I18nAdvances(source);
    messages := [];
    var lastIndex := 0;
    while true
      invariant lastIndex <= |source|
      invariant messages + MessagesOf(filename, source, Hits(at, |source|, lastIndex)) == Extracted(filename, source)
      decreases |source| - lastIndex
    {
      var found := FirstFrom(at, |source|, lastIndex);
      if found.None? {
        HitsNone(at, |source|, lastIndex);
        return;
      }
      var index := found.value;
      var key := at(index).value.0;
      var end := at(index).value.1;
      var line := LineOf(source, index);
      HitsStep(at, |source|, lastIndex);
      MessagesOfCons(filename, source, Hit(index, key, end), Hits(at, |source|, end));
      AppendRegroup(messages, Message(key, [Location(filename, line)]), MessagesOf(filename, source, Hits(at, |source|, end)));
      messages := messages + [Message(key, [Location(filename, line)])];
      lastIndex := end;
    }
  }

  /**
   * One message per match, in source order: each message's text is the key
   * of a match and its reference names the match's line. Messages do not
   * overlap, and every index where the expression matches lies within one.
   */
  lemma ExtractedMatches(filename: string, source: string, k: nat)
    requires k < |Extracted(filename, source)|
    ensures var h := I18nHits(source)[k];
            h.index < |source|
            && I18nSpans(source, h.index).Some?
            && I18nMatchesAt(source, h.index, I18nSpans(source, h.index).value)
            && Extracted(filename, source)[k] ==
               Message(h.text, [Location(filename, Count(source[..h.index], '\n') + 1)])
  {
    I18nAdvances(source);
    var hits := I18nHits(source);
    HitsOrdered(I18nAt(source), |source|, 0);
    I18nSpansSound(source, hits[k].index);
    LineCountsNewlines(source, hits[k].index);
  }

  // ---- Existing msgids ----

  /** The end of the run of characters other than `"` that starts at `i`. */
  function SkipToQuote(s: string, i: nat): (k: nat)
    requires i <= |s|
    ensures i <= k <= |s|
    ensures forall j :: i <= j < k ==> s[j] != '"'
    ensures k == |s| || s[k] == '"'
    decreases |s| - i
  {
    if i < |s| && s[i] != '"' then SkipToQuote(s, i + 1) else i
  }

  /** `^` with the `m` flag: the start of the text or just after a line terminator. */
  predicate LineStart(s: string, i: nat) {
    i == 0 || (0 < i <= |s| && IsLineTerminator(s[i - 1]))
  }

  /** `/^msgid "([^"]+)"/gm` tried at one index. */
  function MsgidAt(s: string): Matcher {
    (i: nat) =>
      if LineStart(s, i) && OccursAt(s, "msgid \"", i) then
        var b := SkipToQuote(s, i + 7);
        if i + 7 < b < |s| then Some((s[i + 7..b], b + 1)) else None
      else None
  }

  lemma MsgidAdvances(s: string)
    ensures Advances(MsgidAt(s), |s|)
  {
  }

  /** A msgid is found at `i` exactly when a line starts there with `msgid "`, a non-empty text without `"`, and `"`. */
  lemma MsgidAtIsRegex(s: string, i: nat, id: string, e: nat)
    ensures MsgidAt(s)(i) == Some((id, e)) <==>
              LineStart(s, i) && OccursAt(s, "msgid \"", i) && id != "" && '"' !in id
              && OccursAt(s, id, i + 7) && e == i + 8 + |id| && e <= |s| && s[e - 1] == '"'
  {
    if LineStart(s, i) && OccursAt(s, "msgid \"", i) && id != "" && '"' !in id
       && OccursAt(s, id, i + 7) && e == i + 8 + |id| && e <= |s| && s[e - 1] == '"' {
      forall m | i + 7 <= m < e - 1 ensures s[m] != '"' {
        assert s[m] == s[i + 7..i + 7 + |id|][m - i - 7] == id[m - i - 7];
      }
      QuoteStops(s, i + 7, e - 1);
    }
    if MsgidAt(s)(i) == Some((id, e)) {
      var b := SkipToQuote(s, i + 7);
      assert id == s[i + 7..b];
      forall m | 0 <= m < |id| ensures id[m] != '"' {
        assert id[m] == s[i + 7 + m];
      }
    }
  }

  lemma {:induction false} QuoteStops(s: string, b: nat, e: nat)
    requires b <= e < |s|
    requires forall m :: b <= m < e ==> s[m] != '"'
    requires s[e] == '"'
    ensures SkipToQuote(s, b) == e
    decreases e - b
  {
    if b < e {
      QuoteStops(s, b + 1, e);
    }
  }

  function HitTexts(hits: seq<Hit>): set<string> {
    set k | 0 <= k < |hits| :: hits[k].text
  }

  /** The `existingMsgids` set of a POT file's content. */
  function ExistingMsgids(pot: string): set<string> {
    HitTexts(MsgidHits(pot))
  }

  /** The matches of the msgid expression in a whole POT file. */
  function MsgidHits(pot: string): seq<Hit> {
    MsgidAdvances(pot);
    Hits(MsgidAt(pot), |pot|, 0)
  }

  /** The `while ((match = msgidRegex.exec(existingPot)) !== null)` loop. */
  method CollectExistingMsgids(pot: string) returns (existing: set<string>)
    ensures existing == ExistingMsgids(pot)
  {
    var at := MsgidAt(pot);
    MsgidAdvances(pot);
    existing := {};
    var lastIndex := 0;
    while true
      invariant lastIndex <= |pot|
      invariant existing + HitTexts(Hits(at, |pot|, lastIndex)) == ExistingMsgids(pot)
      decreases |pot| - lastIndex
    {
      var found := FirstFrom(at, |pot|, lastIndex);
      if found.None? {
        HitsNone(at, |pot|, lastIndex);
        return;
      }
      var index := found.value;
      var rest := Hits(at, |pot|, at(index).value.1);
      var hit := Hit(index, at(index).value.0, at(index).value.1);
      assert Hits(at, |pot|, lastIndex) == [hit] + rest;
      HitTextsCons(hit, rest);
      existing := existing + {at(index).value.0};
      lastIndex := at(index).value.1;
    }
  }

  lemma HitTextsCons(h: Hit, rest: seq<Hit>)
    ensures HitTexts([h] + rest) == {h.text} + HitTexts(rest)
  {
    var hs := [h] + rest;
    forall t | t in HitTexts(hs) ensures t in {h.text} + HitTexts(rest) {
      var k :| 0 <= k < |hs| && hs[k].text == t;
      if k > 0 {
        assert hs[k] == rest[k - 1];
      }
    }
    forall t | t in HitTexts(rest) ensures t in HitTexts(hs) {
      var k :| 0 <= k < |rest| && rest[k].text == t;
      assert hs[k + 1] == rest[k];
    }
    assert hs[0].text == h.text;
  }

  /** Every collected msgid is the non-empty, quote-free text of a line-initial `msgid "…"`; the empty header msgid is never collected. */
  lemma ExistingSound(pot: string, id: string)
    requires id in ExistingMsgids(pot)
    ensures id != "" && '"' !in id
    ensures exists i :: 0 <= i < |pot| && LineStart(pot, i) && OccursAt(pot, "msgid \"", i) && OccursAt(pot, id, i + 7)
  {
    MsgidAdvances(pot);
    var hits := MsgidHits(pot);
    HitsOrdered(MsgidAt(pot), |pot|, 0);
    var k :| 0 <= k < |hits| && hits[k].text == id;
    var h := hits[k];
    assert MsgidAt(pot)(h.index) == Some((id, h.end));
    MsgidAtIsRegex(pot, h.index, id, h.end);
    assert h.index < |pot| && LineStart(pot, h.index) && OccursAt(pot, "msgid \"", h.index) && OccursAt(pot, id, h.index + 7);
  }

  /** A line-initial msgid that lies inside no earlier match is collected. */
  lemma ExistingComplete(pot: string, i: nat, id: string, e: nat)
    requires MsgidAt(pot)(i) == Some((id, e))
    requires forall h :: h in MsgidHits(pot) ==> !(h.index < i < h.end)
    ensures id in ExistingMsgids(pot)
  {
    MsgidAdvances(pot);
    var hits := MsgidHits(pot);
    HitsComplete(MsgidAt(pot), |pot|, 0, i);
    HitsOrdered(MsgidAt(pot), |pot|, 0);
    var k :| 0 <= k < |hits| && hits[k].index <= i < hits[k].end;
    assert hits[k] in hits;
    assert hits[k].index == i;
  }

  // ---- New messages and the appended text ----

  /** `newMessages.filter(msg => !existingMsgids.has(msg.text))`. */
  function NewMessages(messages: seq<Message>, existing: set<string>): (r: seq<Message>)
    ensures |r| <= |messages|
    ensures forall m :: m in r <==> m in messages && m.text !in existing
  {
    if messages == [] then []
    else
      assert messages == [messages[0]] + messages[1..];
      (if messages[0].text !in existing then [messages[0]] else []) + NewMessages(messages[1..], existing)
  }

  /** The filter keeps the relative order: filtering a concatenation concatenates the filtered parts. */
  lemma {:induction false} NewMessagesAppend(a: seq<Message>, b: seq<Message>, existing: set<string>)
    ensures NewMessages(a + b, existing) == NewMessages(a, existing) + NewMessages(b, existing)
    decreases |a|
  {
    if a != [] {
      assert (a + b)[0] == a[0] && (a + b)[1..] == a[1..] + b;
      NewMessagesAppend(a[1..], b, existing);
    } else {
      assert a + b == b;
    }
  }

  /** With no known text, every message is new. */
  lemma {:induction false} NewMessagesAll(messages: seq<Message>)
    ensures NewMessages(messages, {}) == messages
    decreases |messages|
  {
    if messages != [] {
      NewMessagesAll(messages[1..]);
      assert messages == [messages[0]] + messages[1..];
    }
  }

  /** `` `#: ${ref}` ``. */
  function ReferenceLine(ref: string): string {
    "#: " + ref
  }

  function ReferenceLines(refs: seq<string>): seq<string> {
    seq(|refs|, k requires 0 <= k < |refs| => ReferenceLine(refs[k]))
  }

  /** The entry for one new message. */
  function Block(m: Message): string {
    "\n" + Join(ReferenceLines(m.references), "\n") + "\nmsgid \"" + m.text + "\"\nmsgstr \"\""
  }

  function Blocks(messages: seq<Message>): (r: seq<string>)
    ensures |r| == |messages|
    ensures forall k :: 0 <= k < |r| ==> r[k] == Block(messages[k])
  {
    seq(|messages|, k requires 0 <= k < |messages| => Block(messages[k]))
  }

  /** `newPotContent`: the entries joined by newlines. */
  function Appended(messages: seq<Message>): string {
    Join(Blocks(messages), "\n")
  }

  /** What the script does to `messages.pot`. `Create` stands for the extractor's own file format, which is not part of this model. */
  datatype PotUpdate = Create(messages: seq<Message>) | Append(text: string) | Keep

  /** The decision of lines 72-112; `pot` is the file's content, `None` when it does not exist. */
  function UpdatePot(pot: Option<string>, messages: seq<Message>): (r: PotUpdate)
    ensures r.Create? <==> pot.None?
    ensures pot.Some? ==> (r.Keep? <==> forall m :: m in messages ==> m.text in ExistingMsgids(pot.value))
  {
    match pot
    case None => Create(messages)
    case Some(prior) =>
      var added := NewMessages(messages, ExistingMsgids(prior));
      if added == [] then Keep else Append(Appended(added))
  }

  /** The file's content afterwards, when it existed. */
  function Written(prior: string, update: PotUpdate): string {
    match update
    case Append(text) => prior + text
    case _ => prior
  }

  /** The prior content is kept as a prefix, and it is all that remains exactly when no message is new. */
  lemma UpdateKeepsOld(prior: string, messages: seq<Message>)
    ensures StartsWith(Written(prior, UpdatePot(Some(prior), messages)), prior)
    ensures Written(prior, UpdatePot(Some(prior), messages)) == prior <==>
              forall m :: m in messages ==> m.text in ExistingMsgids(prior)
  {
    var added := NewMessages(messages, ExistingMsgids(prior));
    var w := Written(prior, UpdatePot(Some(prior), messages));
    PrefixOfConcat(prior, if added == [] then "" else Appended(added));
    if added != [] {
      assert added[0] in added;
      AppendedNonEmpty(added);
      assert |w| > |prior|;
    }
  }

  /** The entries of two batches are the first batch's entries, a newline, and the second batch's. */
  lemma AppendedConcat(a: seq<Message>, b: seq<Message>)
    requires a != [] && b != []
    ensures Appended(a + b) == Appended(a) + "\n" + Appended(b)
    ensures Appended([a[0]]) == Block(a[0])
  {
    assert Blocks(a + b) == Blocks(a) + Blocks(b);
    JoinConcat(Blocks(a), Blocks(b), "\n");
  }

  /** A non-empty append starts with a newline, so the first entry begins on a line of its own. */
  lemma AppendedNonEmpty(messages: seq<Message>)
    requires messages != []
    ensures StartsWith(Appended(messages), "\n")
  {
    var bs := Blocks(messages);
    assert bs[0][..1] == "\n";
    if |bs| > 1 {
      assert Appended(messages) == bs[0] + "\n" + Join(bs[1..], "\n");
      assert (bs[0] + "\n" + Join(bs[1..], "\n"))[..1] == bs[0][..1];
    }
  }

  /** An occurrence inside a part is an occurrence in the whole. */
  lemma OccursShift(a: string, b: string, c: string, sub: string, i: nat)
    requires OccursAt(b, sub, i)
    ensures OccursAt(a + b + c, sub, |a| + i)
  {
    assert (a + b + c)[|a| + i..|a| + i + |sub|] == b[i..i + |sub|];
  }

  /** Every part of a join occurs in it. */
  lemma {:induction false} JoinHasPart(parts: seq<string>, sep: string, k: nat)
    requires k < |parts|
    ensures exists o :: OccursAt(Join(parts, sep), parts[k], o)
    decreases k
  {
    if |parts| == 1 {
      assert parts[0][0..|parts[0]|] == parts[0];
      assert OccursAt(Join(parts, sep), parts[k], 0);
    } else if k == 0 {
      OccursShift([], parts[0], sep + Join(parts[1..], sep), parts[0], 0);
      assert [] + parts[0] + (sep + Join(parts[1..], sep)) == Join(parts, sep);
    } else {
      JoinHasPart(parts[1..], sep, k - 1);
      var o :| OccursAt(Join(parts[1..], sep), parts[1..][k - 1], o);
      OccursShift(parts[0] + sep, Join(parts[1..], sep), [], parts[k], o);
      assert parts[0] + sep + Join(parts[1..], sep) + [] == Join(parts, sep);
    }
  }

  /** The appended text holds, for every new message, the lines `msgid "text"` and `msgstr ""`. */
  lemma AppendedHasEntry(messages: seq<Message>, k: nat)
    requires k < |messages|
    ensures Contains(Appended(messages), "\nmsgid \"" + messages[k].text + "\"\nmsgstr \"\"")
  {
    var m := messages[k];
    var entry := "\nmsgid \"" + m.text + "\"\nmsgstr \"\"";
    var head := "\n" + Join(ReferenceLines(m.references), "\n");
    assert Block(m) == head + entry + [];
    assert OccursAt(entry, entry, 0);
    OccursShift(head, entry, [], entry, 0);
    JoinHasPart(Blocks(messages), "\n", k);
    var o :| OccursAt(Appended(messages), Block(m), o);
    OccursIn(Appended(messages), Block(m), entry, o, |head|);
  }

  /** An occurrence of an occurrence. */
  lemma OccursIn(s: string, b: string, sub: string, o: nat, i: nat)
    requires OccursAt(s, b, o) && OccursAt(b, sub, i)
    ensures Contains(s, sub)
  {
    forall j | 0 <= j < |sub| ensures s[o + i + j] == sub[j] {
      assert sub[j] == b[i..i + |sub|][j] == b[i + j];
      assert b[i + j] == s[o..o + |b|][i + j];
    }
    assert s[o + i..o + i + |sub|] == sub;
    assert OccursAt(s, sub, o + i);
  }

  // ---- findNjkFiles ----

  /** An entry of a directory listing, with what `statSync` says about it. */
  datatype Node = File(name: string) | Directory(name: string, items: seq<Node>)

  /** `path.join(dir, item)`. */
  function JoinPath(dir: string, item: string): string {
    dir + "/" + item
  }

  /** The `.njk` files under `dir` whose entries are `items`, in listing order and depth first. */
  function NjkFiles(dir: string, items: seq<Node>): seq<string>
    decreases items
  {
    if items == [] then []
    else
      var item := items[|items| - 1];
      NjkFiles(dir, items[..|items| - 1])
      + match item
        case Directory(name, children) => NjkFiles(JoinPath(dir, name), children)
        case File(name) => if EndsWith(name, ".njk") then [JoinPath(dir, name)] else []
  }

  /** `findNjkFiles(dir)`: recursion into directories, a push for each `.njk` file. */
  method FindNjkFiles(dir: string, items: seq<Node>) returns (files: seq<string>)
    ensures files == NjkFiles(dir, items)
    decreases items
  {
    files := [];
    for i := 0 to |items|
      invariant files == NjkFiles(dir, items[..i])
    {
      assert items[..i + 1][..i] == items[..i];
      var fullPath := JoinPath(dir, items[i].name);
      match items[i]
      case Directory(_, children) =>
        var sub := FindNjkFiles(fullPath, children);
        files := files + sub;
      case File(name) =>
        if EndsWith(name, ".njk") {
          files := files + [fullPath];
        }
    }
    assert items[..|items|] == items;
  }

  /** The tree has a file named `name` whose full path is `path`. */
  predicate FileIn(dir: string, items: seq<Node>, path: string, name: string)
    decreases items
  {
    exists k :: 0 <= k < |items| &&
      match items[k]
      case File(n) => n == name && path == JoinPath(dir, n)
      case Directory(n, children) => FileIn(JoinPath(dir, n), children, path, name)
  }

  /** The result lists exactly the paths of the files, at any depth, whose names end in `.njk`. */
  lemma {:induction false} NjkFilesExact(dir: string, items: seq<Node>, path: string)
    ensures path in NjkFiles(dir, items) <==> exists name :: EndsWith(name, ".njk") && FileIn(dir, items, path, name)
    decreases items
  {
    if items != [] {
      var init := items[..|items| - 1];
      var item := items[|items| - 1];
      NjkFilesExact(dir, init, path);
      match item {
        case Directory(n, children) =>
          NjkFilesExact(JoinPath(dir, n), children, path);
        case File(n) =>
      }
      assert items == init + [item];
      forall name ensures FileIn(dir, items, path, name) <==>
                          FileIn(dir, init, path, name) || FileIn(dir, [item], path, name) {
        FileInSnoc(dir, init, item, path, name);
      }
    }
  }

  /** A file is in a listing when it is in its front or in its last entry. */
  lemma FileInSnoc(dir: string, init: seq<Node>, item: Node, path: string, name: string)
    ensures FileIn(dir, init + [item], path, name) <==> FileIn(dir, init, path, name) || FileIn(dir, [item], path, name)
  {
    var items := init + [item];
    if FileIn(dir, items, path, name) {
      var k :| 0 <= k < |items| && match items[k]
        case File(n) => n == name && path == JoinPath(dir, n)
        case Directory(n, children) => FileIn(JoinPath(dir, n), children, path, name);
      if k < |init| {
        assert items[k] == init[k];
      } else {
        assert [item][0] == items[k];
      }
    }
    if FileIn(dir, init, path, name) {
      var k :| 0 <= k < |init| && match init[k]
        case File(n) => n == name && path == JoinPath(dir, n)
        case Directory(n, children) => FileIn(JoinPath(dir, n), children, path, name);
      assert items[k] == init[k];
    }
    if FileIn(dir, [item], path, name) {
      assert items[|init|] == [item][0];
    }
  }

  // ---- The script ----

  /** The messages the templates add to the extractor, file by file in the order found; `read` gives a file's text. */
  function AddedMessages(files: seq<string>, read: string -> string): seq<Message> {
    if files == [] then []
    else AddedMessages(files[..|files| - 1], read) + Extracted(files[|files| - 1], read(files[|files| - 1]))
  }

  /**
   * Lines 46-112: `tree` is the `./src` listing, `getMessages` the extractor's
   * view of what was added, and `pot` the existing `messages.pot`.
   */
  function Run(tree: seq<Node>, read: string -> string, getMessages: seq<Message> -> seq<Message>,
               pot: Option<string>): (r: PotUpdate)
    ensures r.Create? <==> pot.None?
  {
    UpdatePot(pot, getMessages(AddedMessages(NjkFiles("src", tree), read)))
  }
}
