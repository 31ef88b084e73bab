/**
 * The PO-to-JSON converter: a line-oriented state machine over gettext
 * Portable Object text that fills a flat `msgid -> msgstr` object, and the
 * per-language driver that filters out empty entries before writing JSON.
 */
module PoToJson {
  import opened Wrappers
  import opened JsString
  import opened OrderedDict

  /** The four parser variables and the `translations` object being filled. */
  datatype ParserState = ParserState(
    msgid: Option<string>,
    msgstr: Option<string>,
    inMsgid: bool,
    inMsgstr: bool,
    translations: Dict<string, string>)

  const Start := ParserState(None, None, false, false, [])

  /** `.replace(/^"/, '').replace(/"$/, '')`: at most one quote off each end. */
  function StripQuotes(s: string): string {
    var t := if |s| > 0 && s[0] == '"' then s[1..] else s;
    if |t| > 0 && t[|t| - 1] == '"' then t[..|t| - 1] else t
  }

  /** The value of a `msgid `/`msgstr ` line: the text after the keyword, quotes stripped. */
  function KeywordValue(line: string, keywordLength: nat): string {
    StripQuotes(JsSubstring(line, keywordLength, |line|))
  }

  /** The pending pair is stored only when both msgid and msgstr are non-empty strings. */
  predicate Committable(st: ParserState) {
    st.msgid.Some? && st.msgid.value != "" && st.msgstr.Some? && st.msgstr.value != ""
  }

  function Commit(st: ParserState): Dict<string, string> {
    if Committable(st) then Put(st.translations, st.msgid.value, st.msgstr.value) else st.translations
  }

  /** What a line is, once trimmed; the tests are made in the source's order. */
  datatype LineKind =
    | Skipped                      // a comment or an empty line
    | MsgidLine(value: string)
    | MsgstrLine(value: string)
    | Continuation(content: string) // starts and ends with a quote
    | Other                        // msgctxt, msgid_plural, msgstr[n], ...

  function Classify(raw: string): (r: LineKind)
    ensures Trim(raw) == "" ==> r == Skipped
    ensures r.MsgidLine? ==> StartsWith(Trim(raw), "msgid ")
    ensures r.MsgstrLine? ==> StartsWith(Trim(raw), "msgstr ")
    ensures r.Continuation? ==> StartsWith(Trim(raw), "\"") && EndsWith(Trim(raw), "\"")
  {
    ClassifyTrimmed(Trim(raw))
  }

  function ClassifyTrimmed(line: string): LineKind {
    if StartsWith(line, "#") || line == "" then Skipped
    else if StartsWith(line, "msgid ") then MsgidLine(KeywordValue(line, 6))
    else if StartsWith(line, "msgstr ") then MsgstrLine(KeywordValue(line, 7))
    else if StartsWith(line, "\"") && EndsWith(line, "\"") then Continuation(JsSubstring(line, 1, |line| - 1))
    else Other
  }

  /** One iteration of the loop over lines. */
  function Step(st: ParserState, raw: string): (r: ParserState)
    ensures r.translations == st.translations
            || (Committable(st) && r.translations == Put(st.translations, st.msgid.value, st.msgstr.value))
  {
    StepOn(st, Classify(raw))
  }

  /** The effect of a line of the given kind. */
  function StepOn(st: ParserState, kind: LineKind): ParserState {
    match kind
    case Skipped => st
    case Other => st
    case MsgidLine(v) => ParserState(Some(v), None, true, false, Commit(st))
    case MsgstrLine(v) => st.(msgstr := Some(v), inMsgid := false, inMsgstr := true)
    case Continuation(c) =>
      if st.inMsgid && st.msgid.Some? then st.(msgid := Some(st.msgid.value + c))
      else if st.inMsgstr && st.msgstr.Some? then st.(msgstr := Some(st.msgstr.value + c))
      else st
  }

  /** The state after the given lines, from the initial state. */
  function Run(lines: seq<string>): ParserState {
    if lines == [] then Start else Step(Run(lines[..|lines| - 1]), lines[|lines| - 1])
  }

  function ParseLines(lines: seq<string>): Dict<string, string> {
    Commit(Run(lines))
  }

  function Parse(poContent: string): (r: Dict<string, string>)
    ensures forall i :: 0 <= i < |r| ==> r[i].0 != "" && r[i].1 != ""
  {
    var lines := Split(poContent, "\n");
    RunTableNonEmpty(lines);
    CommitNonEmpty(Run(lines));
    ParseLines(lines)
  }

  /** `parsePoFile`: the loop over lines, then the commit of the last pending pair. */
  method ParsePoFile(poContent: string) returns (translations: Dict<string, string>)
    ensures translations == Parse(poContent)
  {
    var lines := Split(poContent, "\n");
    var currentMsgid: Option<string> := None;
    var currentMsgstr: Option<string> := None;
    var inMsgid := false;
    var inMsgstr := false;
    translations := [];
    for i := 0 to |lines|
      invariant Run(lines[..i]) == ParserState(currentMsgid, currentMsgstr, inMsgid, inMsgstr, translations)
    {
      ghost var before := ParserState(currentMsgid, currentMsgstr, inMsgid, inMsgstr, translations);
      RunStep(lines, i);
      var line := Trim(lines[i]);
      ghost var kind := ClassifyTrimmed(line);
      assert Run(lines[..i + 1]) == StepOn(before, kind);
      if StartsWith(line, "#") || line == "" {
        assert kind == Skipped;
        continue;
      }
      if StartsWith(line, "msgid ") {
        assert kind == MsgidLine(StripQuotes(JsSubstring(line, 6, |line|)));
        if currentMsgid.Some? && currentMsgid.value != "" && currentMsgstr.Some? {
          if currentMsgstr.value != "" {
            translations := Put(translations, currentMsgid.value, currentMsgstr.value);
          }
        }
        assert translations == Commit(before);
        currentMsgid := Some(StripQuotes(JsSubstring(line, 6, |line|)));
        currentMsgstr := None;
        inMsgid := true;
        inMsgstr := false;
        continue;
      }
      if StartsWith(line, "msgstr ") {
        assert kind == MsgstrLine(StripQuotes(JsSubstring(line, 7, |line|)));
        currentMsgstr := Some(StripQuotes(JsSubstring(line, 7, |line|)));
        inMsgid := false;
        inMsgstr := true;
        continue;
      }
      if StartsWith(line, "\"") && EndsWith(line, "\"") {
        var content := JsSubstring(line, 1, |line| - 1);
        assert kind == Continuation(content);
        if inMsgid && currentMsgid.Some? {
          currentMsgid := Some(currentMsgid.value + content);
        } else if inMsgstr && currentMsgstr.Some? {
          currentMsgstr := Some(currentMsgstr.value + content);
        }
        continue;
      }
      assert kind == Other;
    }
    assert lines[..|lines|] == lines;
    if currentMsgid.Some? && currentMsgid.value != "" && currentMsgstr.Some? {
      if currentMsgstr.value != "" {
        translations := Put(translations, currentMsgid.value, currentMsgstr.value);
      }
    }
  }

  /** `Run` on one more line. */
  lemma RunStep(lines: seq<string>, i: nat)
    requires i < |lines|
    ensures Run(lines[..i + 1]) == Step(Run(lines[..i]), lines[i])
  {
    assert lines[..i + 1][..i] == lines[..i];
  }

  /** Every stored key and value is a non-empty string, and each key is stored once. */
  predicate NonEmptyTable(d: Dict<string, string>) {
    DistinctKeys(d) && forall i :: 0 <= i < |d| ==> d[i].0 != "" && d[i].1 != ""
  }

  lemma {:induction false} RunTableNonEmpty(lines: seq<string>)
    ensures NonEmptyTable(Run(lines).translations)
    decreases |lines|
  {
    if lines != [] {
      var st := Run(lines[..|lines| - 1]);
      RunTableNonEmpty(lines[..|lines| - 1]);
      CommitNonEmpty(st);
    }
  }

  lemma CommitNonEmpty(st: ParserState)
    requires NonEmptyTable(st.translations)
    ensures NonEmptyTable(Commit(st))
  {
  }

  /** Lines are trimmed before they are classified, so indentation never matters. */
  lemma IndentIgnored(st: ParserState, indent: string, raw: string)
    requires AllSpace(indent)
    ensures Step(st, indent + raw) == Step(st, raw)
  {
    TrimSkipsIndent(indent, raw);
  }

  /** A comment line, `#` after any indentation, leaves the parser state as it was. */
  lemma CommentIgnored(st: ParserState, indent: string, text: string)
    requires AllSpace(indent)
    ensures Step(st, indent + "#" + text) == st
  {
    assert indent + "#" + text == indent + ("#" + text);
    IndentIgnored(st, indent, "#" + text);
    var line := "#" + text;
    assert line[0] == '#';
    TrimKeepsFirst(line);
    StartsWithChar(Trim(line), '#');
  }

  /**
   * A quoted line `"c"` extends the msgid being read, else the msgstr being
   * read, else it is ignored; nothing else in the state changes.
   */
  lemma ContinuationExtends(st: ParserState, c: string)
    ensures var r := Step(st, "\"" + c + "\"");
            r.inMsgid == st.inMsgid && r.inMsgstr == st.inMsgstr && r.translations == st.translations
    ensures var r := Step(st, "\"" + c + "\"");
            if st.inMsgid && st.msgid.Some? then r.msgid == Some(st.msgid.value + c) && r.msgstr == st.msgstr
            else if st.inMsgstr && st.msgstr.Some? then r.msgid == st.msgid && r.msgstr == Some(st.msgstr.value + c)
            else r == st
  {
    var line := "\"" + c + "\"";
    assert line[0] == '"' && line[|line| - 1] == '"';
    assert Classify(line) == Continuation(c) by {
      TrimNoop(line);
      StartsWithChar(line, '#');
      MismatchNotPrefix(line, "msgid ", 0);
      MismatchNotPrefix(line, "msgstr ", 0);
      StartsWithChar(line, '"');
      EndsWithChar(line, '"');
      assert line[1..|line| - 1] == c;
    }
  }

  /**
   * A line holding a single quote both starts and ends with a quote; the
   * substring from 1 to 0 swaps its bounds, so the quote itself is appended.
   */
  lemma LoneQuoteAppendsQuote(st: ParserState)
    requires st.inMsgid && st.msgid.Some?
    ensures Step(st, "\"").msgid == Some(st.msgid.value + "\"")
  {
    var line := "\"";
    assert ClassifyTrimmed(line) == Continuation(line) by {
      StartsWithChar(line, '#');
      MismatchNotPrefix(line, "msgid ", 0);
      MismatchNotPrefix(line, "msgstr ", 0);
      StartsWithChar(line, '"');
      EndsWithChar(line, '"');
      assert JsSubstring(line, 1, 0) == line;
    }
    TrimNoop(line);
  }

  /** A new msgid line drops a pending msgid that never got a msgstr. */
  lemma MsgidWithoutMsgstrDropped(st: ParserState, id: string)
    requires st.msgstr.None?
    ensures Step(st, "msgid \"" + id + "\"") == ParserState(Some(id), None, true, false, st.translations)
  {
    ClassifyMsgidLine(id);
  }

  /** A msgstr with no msgid before it is never stored. */
  lemma OrphanMsgstrIgnored(str: string)
    requires '\n' !in str
    ensures Parse("msgstr \"" + str + "\"") == []
  {
    var line := "msgstr \"" + str + "\"";
    assert '\n' !in line by {
      assert line == "msgstr \"" + str + "\"";
    }
    assert "\n" == ['\n'];
    SplitJoin([line], '\n');
    assert Join([line], "\n") == line;
    assert Split(line, "\n") == [line];
    assert [line][..0] == [];
    ClassifyMsgstrLine(str);
    assert Run([line]) == ParserState(None, Some(str), false, true, []);
  }

  /** The parser never stores an empty key (so never the header entry) or an empty value. */
  lemma ParseNonEmpty(poContent: string)
    ensures NonEmptyTable(Parse(poContent))
    ensures Get(Parse(poContent), "").None?
  {
    var lines := Split(poContent, "\n");
    RunTableNonEmpty(lines);
    CommitNonEmpty(Run(lines));
  }

  /** The test of lines 93-98: both the key and the value are truthy. */
  predicate NonEmptyEntry(e: (string, string)) {
    e.0 != "" && e.1 != ""
  }

  /** The filter of lines 93-98: keep the entries whose key and value are both truthy. */
  function NonEmptyEntries(d: Dict<string, string>): Dict<string, string> {
    Filter(d, NonEmptyEntry)
  }

  /** `filteredTranslations`, filled key by key in `Object.keys` order. */
  method FilterTranslations(translations: Dict<string, string>) returns (filtered: Dict<string, string>)
    requires DistinctKeys(translations)
    ensures filtered == NonEmptyEntries(translations)
  {
    filtered := [];
    for i := 0 to |translations|
      invariant filtered == NonEmptyEntries(translations[..i])
    {
      var key := translations[i].0;
      assert translations[..i + 1][..i] == translations[..i];
      if key != "" && translations[i].1 != "" {
        FilterSub(translations[..i], NonEmptyEntry);
        assert key !in Keys(translations[..i]);
        filtered := Put(filtered, key, translations[i].1);
      }
    }
    assert translations[..|translations|] == translations;
  }

  /** The filter applied to parser output returns it unchanged. */
  lemma FilterOfParse(poContent: string)
    ensures NonEmptyEntries(Parse(poContent)) == Parse(poContent)
  {
    ParseNonEmpty(poContent);
    FilterKeepsAll(Parse(poContent), NonEmptyEntry);
  }

  // ---- Reference semantics for well-formed PO text ----

  /** A `msgid "id"` line followed by a `msgstr "str"` line. */
  function EntryLines(entry: (string, string)): seq<string> {
    ["msgid \"" + entry.0 + "\"", "msgstr \"" + entry.1 + "\""]
  }

  function RenderLines(entries: seq<(string, string)>): seq<string> {
    if entries == [] then [] else RenderLines(entries[..|entries| - 1]) + EntryLines(entries[|entries| - 1])
  }

  /** The PO text of a list of single-line entries. */
  function Render(entries: seq<(string, string)>): string {
    Join(RenderLines(entries), "\n")
  }

  /**
   * The table a list of entries describes: entries in file order, an entry
   * with an empty msgid or msgstr contributes nothing, a later entry for the
   * same msgid overrides an earlier one.
   */
  function LastWins(entries: seq<(string, string)>): Dict<string, string> {
    if entries == [] then []
    else
      var e := entries[|entries| - 1];
      var d := LastWins(entries[..|entries| - 1]);
      if e.0 != "" && e.1 != "" then Put(d, e.0, e.1) else d
  }

  lemma StripQuotesQuoted(v: string)
    ensures StripQuotes("\"" + v + "\"") == v
  {
    var q := "\"" + v + "\"";
    assert q[1..] == v + "\"";
    assert (v + "\"")[..|v|] == v;
  }

  /** A trimmed line starting with `msgid ` is classified by that keyword alone. */
  lemma ClassifyKeywordLine(line: string)
    requires |line| > 7 && line[0] == 'm' && !IsSpace(line[|line| - 1])
    ensures StartsWith(line, "msgid ") ==> Classify(line) == MsgidLine(KeywordValue(line, 6))
    ensures StartsWith(line, "msgstr ") ==> Classify(line) == MsgstrLine(KeywordValue(line, 7))
  {
    TrimNoop(line);
    StartsWithChar(line, '#');
    if StartsWith(line, "msgstr ") {
      assert line[..7][3] == 's';
      MismatchNotPrefix(line, "msgid ", 3);
    }
  }

  lemma ClassifyMsgidLine(id: string)
    ensures Classify("msgid \"" + id + "\"") == MsgidLine(id)
  {
    var q := "\"" + id + "\"";
    var a := "msgid " + q;
    assert a == "msgid \"" + id + "\"";
    PrefixOfConcat("msgid ", q);
    assert a[0] == 'm' && a[|a| - 1] == '"';
    ClassifyKeywordLine(a);
    assert JsSubstring(a, 6, |a|) == q;
    StripQuotesQuoted(id);
  }

  lemma ClassifyMsgstrLine(str: string)
    ensures Classify("msgstr \"" + str + "\"") == MsgstrLine(str)
  {
    var q := "\"" + str + "\"";
    var b := "msgstr " + q;
    assert b == "msgstr \"" + str + "\"";
    PrefixOfConcat("msgstr ", q);
    assert b[0] == 'm' && b[|b| - 1] == '"';
    ClassifyKeywordLine(b);
    assert JsSubstring(b, 7, |b|) == q;
    StripQuotesQuoted(str);
  }

  /** `Run` on one more line at the end. */
  lemma RunSnoc(lines: seq<string>, raw: string)
    ensures Run(lines + [raw]) == Step(Run(lines), raw)
  {
    assert (lines + [raw])[..|lines|] == lines;
  }

  /** The two lines of an entry leave its pair pending, after committing the pair pending before them. */
  lemma RunEntry(lines: seq<string>, e: (string, string))
    ensures Run(lines + EntryLines(e)) == ParserState(Some(e.0), Some(e.1), false, true, Commit(Run(lines)))
  {
    var a := EntryLines(e)[0];
    var b := EntryLines(e)[1];
    assert lines + EntryLines(e) == (lines + [a]) + [b];
    RunSnoc(lines, a);
    RunSnoc(lines + [a], b);
    ClassifyMsgidLine(e.0);
    ClassifyMsgstrLine(e.1);
  }

  /** A non-empty sequence is its front and its last element. */
  lemma LastSplit<T>(s: seq<T>)
    requires s != []
    ensures s == s[..|s| - 1] + [s[|s| - 1]]
  {
  }

  /** Rendering one more entry appends its two lines. */
  lemma RenderLinesSnoc(init: seq<(string, string)>, e: (string, string))
    ensures RenderLines(init + [e]) == RenderLines(init) + EntryLines(e)
  {
    assert (init + [e])[..|init|] == init;
  }

  /** One more entry of the last-wins table. */
  lemma LastWinsSnoc(init: seq<(string, string)>, e: (string, string))
    ensures LastWins(init + [e]) == if e.0 != "" && e.1 != "" then Put(LastWins(init), e.0, e.1) else LastWins(init)
  {
    assert (init + [e])[..|init|] == init;
  }

  /** After the lines of `init` and then of `e`, `e` is pending and the table is the last-wins table of `init`. */
  lemma {:induction false} RunRendered(init: seq<(string, string)>, e: (string, string))
    ensures Run(RenderLines(init + [e])) == ParserState(Some(e.0), Some(e.1), false, true, LastWins(init))
    decreases |init|
  {
    RenderLinesSnoc(init, e);
    RunEntry(RenderLines(init), e);
    if init != [] {
      var front := init[..|init| - 1];
      var last := init[|init| - 1];
      LastSplit(init);
      RunRendered(front, last);
      LastWinsSnoc(front, last);
    }
  }

  lemma {:induction false} RenderLinesNoNewline(entries: seq<(string, string)>)
    requires forall i :: 0 <= i < |entries| ==> '\n' !in entries[i].0 && '\n' !in entries[i].1
    ensures forall j :: 0 <= j < |RenderLines(entries)| ==> '\n' !in RenderLines(entries)[j]
    ensures |RenderLines(entries)| == 2 * |entries|
    decreases |entries|
  {
    if entries != [] {
      RenderLinesNoNewline(entries[..|entries| - 1]);
    }
  }

  /** `Parse` seen through the lines the text splits into. */
  lemma ParseOfLines(text: string, lines: seq<string>)
    requires Split(text, "\n") == lines
    ensures Parse(text) == Commit(Run(lines))
  {
  }

  /** The final commit stores the pending last entry over the table of the earlier ones. */
  lemma CommitRendered(init: seq<(string, string)>, e: (string, string))
    ensures Commit(Run(RenderLines(init + [e]))) == LastWins(init + [e])
  {
    RunRendered(init, e);
    LastWinsSnoc(init, e);
  }

  /**
   * Round trip: the text of a list of single-line entries parses to the
   * last-wins table of its non-empty entries.
   */
  lemma ParseRender(entries: seq<(string, string)>)
    requires forall i :: 0 <= i < |entries| ==> '\n' !in entries[i].0 && '\n' !in entries[i].1
    ensures Parse(Render(entries)) == LastWins(entries)
  {
    if entries == [] {
      assert Render(entries) == "";
      ParseEmptyText();
      assert LastWins(entries) == [];
    } else {
      SplitRender(entries);
      ParseOfLines(Render(entries), RenderLines(entries));
      LastSplit(entries);
      CommitRendered(entries[..|entries| - 1], entries[|entries| - 1]);
    }
  }

  /** The lines of a rendered table are what splitting its text gives back. */
  lemma SplitRender(entries: seq<(string, string)>)
    requires entries != []
    requires forall i :: 0 <= i < |entries| ==> '\n' !in entries[i].0 && '\n' !in entries[i].1
    ensures Split(Render(entries), "\n") == RenderLines(entries)
  {
    RenderLinesNoNewline(entries);
    assert "\n" == ['\n'];
    SplitJoin(RenderLines(entries), '\n');
  }

  /** An empty file gives an empty table. */
  lemma ParseEmptyText()
    ensures Parse("") == []
  {
    assert IndexOf("", "\n") == None;
    assert Split("", "\n") == [""];
    assert Classify("") == Skipped;
    assert [""][..0] == [];
    assert Run([""]) == Start;
  }

  /** `msgid "x"` followed by `msgstr ""` stores nothing for `x`. */
  lemma EmptyMsgstrDropped()
    ensures Parse("msgid \"x\"\nmsgstr \"\"") == []
  {
    assert Render([("x", "")]) == "msgid \"x\"\nmsgstr \"\"";
    ParseRender([("x", "")]);
  }

  /** A repeated msgid keeps the position of its first entry and the value of its last. */
  lemma RepeatedMsgidLastWins()
    ensures Parse(Render([("a", "1"), ("b", "2"), ("a", "3")])) == [("a", "3"), ("b", "2")]
  {
    var entries := [("a", "1"), ("b", "2"), ("a", "3")];
    assert forall i :: 0 <= i < |entries| ==> '\n' !in entries[i].0 && '\n' !in entries[i].1;
    ParseRender(entries);
    RepeatedMsgidTable();
  }

  lemma RepeatedMsgidTable()
    ensures LastWins([("a", "1"), ("b", "2"), ("a", "3")]) == [("a", "3"), ("b", "2")]
  {
    var entries := [("a", "1"), ("b", "2"), ("a", "3")];
    assert entries[..2][..1] == [("a", "1")];
    assert LastWins([("a", "1")]) == [("a", "1")];
    assert "b" != "a" by { assert "b"[0] != "a"[0]; }
    assert "b" !in Keys([("a", "1")]);
    assert LastWins(entries[..2]) == [("a", "1"), ("b", "2")];
    assert KeyIndex([("a", "1"), ("b", "2")], "a") == Some(0);
  }
}

module PoToJsonDriver {
  import opened Wrappers
  import opened JsString
  import opened OrderedDict
  import opened PoToJson
  import opened PoPattern

  function JsonPath(lang: string): string {
    "src/_data/locales/" + lang + ".json"
  }

  /**
   * The JSON files written, in order, for the given languages; `files` gives
   * the content of each existing `.po` file and `None` for a missing one.
   */
  function ConversionWrites(languages: seq<string>, files: string -> Option<string>): seq<(string, Dict<string, string>)> {
    if languages == [] then []
    else
      var lang := languages[|languages| - 1];
      var earlier := ConversionWrites(languages[..|languages| - 1], files);
      match files(PoPath(lang))
      case None => earlier
      case Some(content) => earlier + [(JsonPath(lang), NonEmptyEntries(Parse(content)))]
  }

  /** The loop over languages: a missing `.po` file is skipped, every other one is converted and counted. */
  method ConvertLocales(languages: seq<string>, files: string -> Option<string>)
    returns (writes: seq<(string, Dict<string, string>)>, processedCount: nat)
    ensures writes == ConversionWrites(languages, files)
    ensures processedCount == |writes|
  {
    writes := [];
    processedCount := 0;
    for i := 0 to |languages|
      invariant writes == ConversionWrites(languages[..i], files)
      invariant processedCount == |writes|
    {
      assert languages[..i + 1][..i] == languages[..i];
      var lang := languages[i];
      var poFile := "locales/" + lang + ".po";
      var jsonFile := "src/_data/locales/" + lang + ".json";
      match files(poFile) {
        case None =>
        case Some(poContent) =>
          var translations := ParsePoFile(poContent);
          ParseNonEmpty(poContent);
          var filteredTranslations := FilterTranslations(translations);
          writes := writes + [(jsonFile, filteredTranslations)];
          processedCount := processedCount + 1;
      }
    }
    assert languages[..|languages|] == languages;
  }

  /** Each language writes at most one JSON file, holding the parsed table of its `.po` file unchanged by the filter. */
  lemma {:induction false} ConversionWritesSound(languages: seq<string>, files: string -> Option<string>)
    ensures |ConversionWrites(languages, files)| <= |languages|
    ensures forall w :: w in ConversionWrites(languages, files) ==>
              exists lang :: lang in languages && files(PoPath(lang)).Some? && w == (JsonPath(lang), Parse(files(PoPath(lang)).value))
    decreases |languages|
  {
    if languages != [] {
      var init := languages[..|languages| - 1];
      var lang := languages[|languages| - 1];
      ConversionWritesSound(init, files);
      var earlier := ConversionWrites(init, files);
      forall w | w in earlier
        ensures exists l :: l in languages && files(PoPath(l)).Some? && w == (JsonPath(l), Parse(files(PoPath(l)).value))
      {
        var l :| l in init && files(PoPath(l)).Some? && w == (JsonPath(l), Parse(files(PoPath(l)).value));
        assert l in languages;
      }
      match files(PoPath(lang))
      case None =>
      case Some(content) =>
        FilterOfParse(content);
        assert ConversionWrites(languages, files) == earlier + [(JsonPath(lang), Parse(content))];
    }
  }

  /** Every language whose `.po` file exists gets its JSON file. */
  lemma {:induction false} ConversionWritesComplete(languages: seq<string>, files: string -> Option<string>, lang: string)
    requires lang in languages && files(PoPath(lang)).Some?
    ensures (JsonPath(lang), Parse(files(PoPath(lang)).value)) in ConversionWrites(languages, files)
    decreases |languages|
  {
    var init := languages[..|languages| - 1];
    var last := languages[|languages| - 1];
    assert languages == init + [last];
    if lang == last {
      FilterOfParse(files(PoPath(lang)).value);
    } else {
      ConversionWritesComplete(init, files, lang);
    }
  }
}
