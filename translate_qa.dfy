/**
 * The Q&A translation script. The `qa_` entries of the English messages are
 * sent one by one to a translation service for French, Spanish and German,
 * with a pause after every third request. Each locale's `.po` file then gets
 * the translations in the msgstr lines that are still empty, and the run is
 * summarised as translated strings and fallbacks per locale.
 */
module TranslateQa {
  import opened Wrappers
  import opened JsString
  import opened OrderedDict
  import opened PoPattern
  import PoToJson

  // ---- translateText ----

  /**
   * What one call to the service yields: `Failed` when the fetch rejects,
   * the HTTP status is not ok or the body is not JSON; otherwise the body's
   * `responseStatus` and `responseData.translatedText` (`""` when absent).
   */
  datatype Reply = Failed | Answer(responseStatus: int, translatedText: string)

  /** The prefix of a machine translation: U+1F916 and a space. */
  const Robot: string := "\U{1F916} "

  /** `[LANG] text`: the original text tagged with the upper-cased language code. */
  function Fallback(text: string, lang: string): string {
    "[" + UpperAsciiString(lang) + "] " + text
  }

  /** Status 200 and a truthy translated text. */
  predicate Succeeded(reply: Reply) {
    reply.Answer? && reply.responseStatus == 200 && reply.translatedText != ""
  }

  /** `translateText(text, targetLang)`, the service being `api(query, lang)`; the query is the trimmed text. */
  function TranslateText(text: string, lang: string, api: (string, string) -> Reply): (r: string)
    ensures Trim(text) == "" ==> r == text
    ensures Trim(text) != "" && Succeeded(api(Trim(text), lang)) ==> r == Robot + api(Trim(text), lang).translatedText
    ensures Trim(text) != "" && !Succeeded(api(Trim(text), lang)) ==> r == Fallback(text, lang)
  {
    var cleanText := Trim(text);
    if cleanText == "" then text
    else
      var reply := api(cleanText, lang);
      if Succeeded(reply) then Robot + reply.translatedText else Fallback(text, lang)
  }

  // ---- The success count of lines 165-173 ----

  /** A value counted as translated: truthy, not starting with `[` and not containing `] `. */
  predicate IsSuccessful(v: string) {
    v != "" && !StartsWith(v, "[") && !Contains(v, "] ")
  }

  /** `Object.values(translations).filter(IsSuccessful).length`. */
  function SuccessCount(values: seq<string>): (n: nat)
    ensures n <= |values|
  {
    if values == [] then 0
    else SuccessCount(values[..|values| - 1]) + if IsSuccessful(values[|values| - 1]) then 1 else 0
  }

  /** The count is the total exactly when every value is a success, and 0 exactly when none is. */
  lemma {:induction false} SuccessCountExtremes(values: seq<string>)
    ensures SuccessCount(values) == |values| <==> forall i :: 0 <= i < |values| ==> IsSuccessful(values[i])
    ensures SuccessCount(values) == 0 <==> forall i :: 0 <= i < |values| ==> !IsSuccessful(values[i])
    decreases |values|
  {
    if values != [] {
      var init := values[..|values| - 1];
      SuccessCountExtremes(init);
      assert forall i :: 0 <= i < |init| ==> init[i] == values[i];
    }
  }

  /** A fallback is never counted as a translation. */
  lemma FallbackNotSuccessful(text: string, lang: string)
    ensures !IsSuccessful(Fallback(text, lang))
  {
    StartsWithChar(Fallback(text, lang), '[');
  }

  /** `] ` occurs in the robot-prefixed text exactly when it occurs in the translation. */
  lemma RobotContains(t: string)
    ensures Contains(Robot + t, "] ") <==> Contains(t, "] ")
  {
    var s := Robot + t;
    if Contains(s, "] ") {
      var i := IndexOf(s, "] ").value;
      assert s[i..i + 2][0] == s[i];
      assert i >= 2;
      assert s[i..i + 2] == t[i - 2..i];
      assert OccursAt(t, "] ", i - 2);
    }
    if Contains(t, "] ") {
      var j := IndexOf(t, "] ").value;
      assert s[j + 2..j + 4] == t[j..j + 2];
      assert OccursAt(s, "] ", j + 2);
    }
  }

  /** A text that trims to something is counted as translated exactly when the service succeeded with a translation that does not contain `] `. */
  lemma TranslateTextClassified(text: string, lang: string, api: (string, string) -> Reply)
    requires Trim(text) != ""
    ensures var reply := api(Trim(text), lang);
            IsSuccessful(TranslateText(text, lang, api)) <==> Succeeded(reply) && !Contains(reply.translatedText, "] ")
  {
    var reply := api(Trim(text), lang);
    if Succeeded(reply) {
      RobotContains(reply.translatedText);
      StartsWithChar(Robot + reply.translatedText, '[');
    } else {
      FallbackNotSuccessful(text, lang);
    }
  }

  /** A text of white space only is returned as it is, and a non-empty one then counts as translated. */
  lemma BlankCountsAsSuccess(text: string, lang: string, api: (string, string) -> Reply)
    requires text != "" && Trim(text) == ""
    ensures TranslateText(text, lang, api) == text
    ensures IsSuccessful(text)
  {
    TrimEmptyAllSpace(text);
    MismatchNotPrefix(text, "[", 0);
    if Contains(text, "] ") {
      var i := IndexOf(text, "] ").value;
      OccursFirstChar(text, "] ", i);
      assert false;
    }
  }

  // ---- loadEnglishQAContent ----

  predicate IsQaEntry(e: (string, string)) {
    StartsWith(e.0, "qa_")
  }

  /** `loadEnglishQAContent()` on the parsed English messages: the entries whose key starts with `qa_`, in order. */
  method LoadEnglishQAContent(allTranslations: Dict<string, string>) returns (qaContent: Dict<string, string>)
    requires DistinctKeys(allTranslations)
    ensures qaContent == Filter(allTranslations, IsQaEntry)
  {
    qaContent := [];
    var keys := Keys(allTranslations);
    for i := 0 to |keys|
      invariant qaContent == Filter(allTranslations[..i], IsQaEntry)
    {
      assert allTranslations[..i + 1][..i] == allTranslations[..i];
      var key := keys[i];
      if StartsWith(key, "qa_") {
        KeyIndexDistinct(allTranslations, i);
        FilterSub(allTranslations[..i], IsQaEntry);
        assert key !in Keys(allTranslations[..i]);
        qaContent := Put(qaContent, key, Get(allTranslations, key).value);
      }
    }
    assert allTranslations[..|keys|] == allTranslations;
  }

  /** Exactly the `qa_` keys are kept, each with its English value. */
  lemma QaContentExact(allTranslations: Dict<string, string>, k: string)
    requires DistinctKeys(allTranslations)
    ensures DistinctKeys(Filter(allTranslations, IsQaEntry))
    ensures Get(Filter(allTranslations, IsQaEntry), k) == if StartsWith(k, "qa_") then Get(allTranslations, k) else None
  {
    FilterGet(allTranslations, IsQaEntry, k);
  }

  // ---- translateQAContent ----

  /** The value stored for one English text: translated when it is truthy and not blank, copied otherwise. */
  function TranslateItem(englishText: string, lang: string, api: (string, string) -> Reply): (r: string)
    ensures Trim(englishText) == "" ==> r == englishText
    ensures Trim(englishText) != "" ==> r == TranslateText(englishText, lang, api)
  {
    if englishText != "" && Trim(englishText) != "" then TranslateText(englishText, lang, api) else englishText
  }

  function ItemTranslator(lang: string, api: (string, string) -> Reply): string -> string {
    englishText => TranslateItem(englishText, lang, api)
  }

  /** Line 100: whether the loop pauses after item `i` of `total`. */
  predicate PausesAfter(i: nat, total: nat) {
    (i + 1) % 3 == 0 && i < total - 1
  }

  /** The items among the first `n` after which the loop pauses, in order. */
  function PauseSchedule(total: nat, n: nat): seq<nat> {
    if n == 0 then [] else PauseSchedule(total, n - 1) + if PausesAfter(n - 1, total) then [n - 1] else []
  }

  /** One more item of the schedule, with the test of line 100 as the loop writes it. */
  lemma PauseStep(total: nat, i: nat)
    ensures PauseSchedule(total, i + 1) == PauseSchedule(total, i) + if (i + 1) % 3 == 0 && i < total - 1 then [i] else []
  {
  }

  /**
   * `translateQAContent(locale, qaContent)`. The language code is the locale
   * itself (the mapping table is the identity). `pauses` lists the items
   * after which the two-second pause is taken.
   */
  method TranslateQAContent(locale: string, qaContent: Dict<string, string>, api: (string, string) -> Reply)
    returns (translated: Dict<string, string>, pauses: seq<nat>)
    requires DistinctKeys(qaContent)
    ensures translated == MapValues(qaContent, ItemTranslator(locale, api))
    ensures pauses == PauseSchedule(|qaContent|, |qaContent|)
  {
    var langCode := locale;
    translated := [];
    pauses := [];
    var keys := Keys(qaContent);
    var total := |keys|;
    for i := 0 to total
      invariant translated == MapValues(qaContent[..i], ItemTranslator(langCode, api))
      invariant pauses == PauseSchedule(total, i)
    {
      var key := keys[i];
      TranslateStep(qaContent, langCode, api, i, translated);
      var englishText := Get(qaContent, key).value;
      var value;
      if englishText != "" && Trim(englishText) != "" {
        value := TranslateText(englishText, langCode, api);
      } else {
        value := englishText;
      }
      assert value == TranslateItem(englishText, langCode, api);
      translated := Put(translated, key, value);
      PauseStep(total, i);
      if (i + 1) % 3 == 0 && i < total - 1 {
        pauses := pauses + [i];
      }
    }
    assert qaContent[..total] == qaContent;
  }

  /** Storing the next item's value under its key extends the mapped prefix by one entry. */
  lemma MapValuesStep(d: Dict<string, string>, f: string -> string, i: nat)
    requires DistinctKeys(d) && i < |d|
    ensures Get(d, d[i].0) == Some(d[i].1)
    ensures Put(MapValues(d[..i], f), d[i].0, f(d[i].1)) == MapValues(d[..i + 1], f)
  {
    KeyIndexDistinct(d, i);
    MapValuesGet(d[..i], f, d[i].0);
    assert d[i].0 !in Keys(d[..i]);
    assert d[..i + 1][..i] == d[..i];
  }

  /** The loop's step, with the item translated by `TranslateItem`. */
  lemma TranslateStep(d: Dict<string, string>, lang: string, api: (string, string) -> Reply, i: nat, translated: Dict<string, string>)
    requires DistinctKeys(d) && i < |d| && translated == MapValues(d[..i], ItemTranslator(lang, api))
    ensures Get(d, d[i].0) == Some(d[i].1)
    ensures Put(translated, d[i].0, TranslateItem(d[i].1, lang, api)) == MapValues(d[..i + 1], ItemTranslator(lang, api))
  {
    MapValuesStep(d, ItemTranslator(lang, api), i);
  }

  /** The output has the input's keys, and a text that is empty or white space only is copied unchanged. */
  lemma TranslatedKeys(qaContent: Dict<string, string>, lang: string, api: (string, string) -> Reply, k: string)
    ensures Keys(MapValues(qaContent, ItemTranslator(lang, api))) == Keys(qaContent)
    ensures Get(qaContent, k).Some? && Trim(Get(qaContent, k).value) == "" ==>
              Get(MapValues(qaContent, ItemTranslator(lang, api)), k) == Get(qaContent, k)
    ensures Get(qaContent, k).Some? && Trim(Get(qaContent, k).value) != "" ==>
              Get(MapValues(qaContent, ItemTranslator(lang, api)), k) == Some(TranslateText(Get(qaContent, k).value, lang, api))
  {
    MapValuesGet(qaContent, ItemTranslator(lang, api), k);
  }

  /** The pauses are exactly the items `i` with `PausesAfter(i, total)`. */
  lemma {:induction false} PauseScheduleMembers(total: nat, n: nat, i: nat)
    ensures i in PauseSchedule(total, n) <==> i < n && PausesAfter(i, total)
    decreases n
  {
    if n > 0 {
      PauseScheduleMembers(total, n - 1, i);
    }
  }

  /** Before the last item, one pause in every three items. */
  lemma {:induction false} PauseScheduleLength(total: nat, n: nat)
    requires n < total
    ensures |PauseSchedule(total, n)| == n / 3
    decreases n
  {
    if n > 0 {
      PauseScheduleLength(total, n - 1);
      assert n / 3 == (n - 1) / 3 + if n % 3 == 0 then 1 else 0;
    }
  }

  /** There is never a pause after the last item, and there are `(total - 1) / 3` pauses in all. */
  lemma PauseCount(total: nat)
    requires total >= 1
    ensures total - 1 !in PauseSchedule(total, total)
    ensures |PauseSchedule(total, total)| == (total - 1) / 3
  {
    PauseScheduleMembers(total, total, total - 1);
    PauseScheduleLength(total, total - 1);
  }

  // ---- updatePoFile ----

  /** `translation.replace(/"/g, '\\"').replace(/\n/g, '\\n')`. */
  function Escape(translation: string): (r: string)
    ensures '\n' !in r
  {
    var quoted := ReplaceCharBy(translation, '"', "\\\"");
    ReplaceCharByShape(quoted, '\n', "\\n", '\n');
    ReplaceCharBy(quoted, '\n', "\\n")
  }

  /** The escape of one character. */
  function EscapeChar(c: char): string {
    if c == '"' then "\\\"" else if c == '\n' then "\\n" else [c]
  }

  /** The two passes escape character by character. */
  lemma {:induction false} EscapeCons(c: char, s: string)
    ensures Escape([c] + s) == EscapeChar(c) + Escape(s)
  {
    var q := ReplaceCharBy(s, '"', "\\\"");
    assert ReplaceCharBy([c] + s, '"', "\\\"") == (if c == '"' then "\\\"" else [c]) + q by {
      assert ([c] + s)[1..] == s;
    }
    ReplaceCharByAppend(if c == '"' then "\\\"" else [c], q, '\n', "\\n");
    if c == '"' {
      assert ReplaceCharBy("\\\"", '\n', "\\n") == "\\\"" by {
        assert "\\\""[1..] == "\"";
        assert "\""[1..] == [];
      }
    } else {
      assert ReplaceCharBy([c], '\n', "\\n") == if c == '\n' then "\\n" else [c] by {
        assert [c][1..] == [];
      }
    }
  }

  /** The escaped text has no newline, and each quote and newline takes one more character. */
  lemma EscapeShape(translation: string)
    ensures '\n' !in Escape(translation)
    ensures |Escape(translation)| == |translation| + Count(translation, '"') + Count(translation, '\n')
  {
    var q := ReplaceCharBy(translation, '"', "\\\"");
    ReplaceCharByShape(translation, '"', "\\\"", '\n');
    ReplaceCharByShape(q, '\n', "\\n", '\n');
    CountAfterQuotes(translation);
  }

  /** Escaping the quotes leaves the newlines where they were. */
  lemma {:induction false} CountAfterQuotes(s: string)
    ensures Count(ReplaceCharBy(s, '"', "\\\""), '\n') == Count(s, '\n')
    decreases |s|
  {
    if s != [] {
      CountAfterQuotes(s[1..]);
      var head := if s[0] == '"' then "\\\"" else [s[0]];
      CountAppend(head, ReplaceCharBy(s[1..], '"', "\\\""), '\n');
      if s[0] == '"' {
        assert "\\\""[1..] == "\"";
        assert "\""[1..] == [];
      } else {
        assert [s[0]][1..] == [];
      }
    }
  }

  /** Reading back PO escapes: `\"` is a quote, `\n` a newline. */
  function Unescape(s: string): string
    decreases |s|
  {
    if |s| >= 2 && s[0] == '\\' && s[1] == '"' then "\"" + Unescape(s[2..])
    else if |s| >= 2 && s[0] == '\\' && s[1] == 'n' then "\n" + Unescape(s[2..])
    else if s == [] then []
    else [s[0]] + Unescape(s[1..])
  }

  /** On a text without backslashes, escaping loses nothing. */
  lemma {:induction false} UnescapeEscape(translation: string)
    requires '\\' !in translation
    ensures Unescape(Escape(translation)) == translation
    decreases |translation|
  {
    if translation == [] {
      assert Escape(translation) == [];
    } else {
      var c := translation[0];
      var rest := translation[1..];
      assert translation == [c] + rest;
      EscapeCons(c, rest);
      UnescapeEscape(rest);
      var e := Escape(rest);
      if c == '"' {
        assert (EscapeChar(c) + e)[2..] == e;
      } else if c == '\n' {
        assert (EscapeChar(c) + e)[2..] == e;
      } else {
        assert (EscapeChar(c) + e)[1..] == e;
      }
    }
  }

  /** With a backslash the escape is ambiguous: the two characters `\n` and a newline escape alike. */
  lemma BackslashAmbiguous()
    ensures Escape("\\n") == Escape("\n")
  {
    EscapeCons('\\', "n");
    EscapeCons('n', "");
    EscapeCons('\n', "");
    assert Escape("") == "";
    assert "\\n" == ['\\'] + "n";
    assert "n" == ['n'] + "";
    assert "\n" == ['\n'] + "";
  }

  /** `msgid "key"`, a newline and `msgstr "<escaped>"`. */
  function FilledText(key: string, translation: string): string {
    MsgidLine(key) + "\nmsgstr \"" + Escape(translation) + "\""
  }

  /** The replacement of a whole match; the white space the pattern matched is not kept. */
  function QaReplacement(key: string, translation: string): string -> string {
    _ => FilledText(key, translation)
  }

  /** One key's effect: only a truthy translation and a present pattern rewrite the content. */
  function QaRewriteKey(content: string, key: string, translation: string): string {
    if translation == "" then content
    else if HasMatch(content, EmptyPattern(key)) then ReplaceAll(content, EmptyPattern(key), QaReplacement(key, translation))
    else content
  }

  /** The keys processed in order, each on the content the previous ones left. */
  function QaRewriteKeys(content: string, keys: seq<string>, qaTranslations: Dict<string, string>): string {
    if keys == [] then content
    else
      var key := keys[|keys| - 1];
      QaRewriteKey(QaRewriteKeys(content, keys[..|keys| - 1], qaTranslations), key, Get(qaTranslations, key).GetOr(""))
  }

  /** `updatePoFile(locale, qaTranslations)`: `poFile` is the file, `None` when it cannot be read (the call then throws). */
  method UpdatePoFile(locale: string, qaTranslations: Dict<string, string>, poFile: Option<string>)
    returns (written: Option<string>)
    ensures poFile.None? ==> written.None?
    ensures poFile.Some? ==> written == Some(QaRewriteKeys(poFile.value, Keys(qaTranslations), qaTranslations))
  {
    if poFile.None? {
      return None;
    }
    var poContent := poFile.value;
    var keys := Keys(qaTranslations);
    for i := 0 to |keys|
      invariant poContent == QaRewriteKeys(poFile.value, keys[..i], qaTranslations)
    {
      assert keys[..i + 1][..i] == keys[..i];
      var key := keys[i];
      var translation := Get(qaTranslations, key).GetOr("");
      if translation != "" {
        var msgidPattern := EmptyPattern(key);
        var replacement := QaReplacement(key, translation);
        if HasMatch(poContent, msgidPattern) {
          poContent := ReplaceAll(poContent, msgidPattern, replacement);
        }
      }
    }
    assert keys[..|keys|] == keys;
    written := Some(poContent);
  }

  /** When no key with a translation has an empty msgstr in the file, the file is written back unchanged. */
  lemma {:induction false} NothingToFill(content: string, keys: seq<string>, qaTranslations: Dict<string, string>)
    requires forall i :: 0 <= i < |keys| ==>
               Get(qaTranslations, keys[i]).GetOr("") == "" || !HasMatch(content, EmptyPattern(keys[i]))
    ensures QaRewriteKeys(content, keys, qaTranslations) == content
    decreases |keys|
  {
    if keys != [] {
      NothingToFill(content, keys[..|keys| - 1], qaTranslations);
    }
  }

  /**
   * At the first `msgid "key"`, white space, newline, `msgstr ""`: the text
   * before it is kept, and the match becomes `msgid "key"`, a newline and
   * `msgstr "<escaped>"`.
   */
  lemma EmptyMsgstrFilled(content: string, key: string, translation: string, m: nat, e: nat)
    requires translation != ""
    requires FirstMatchFrom(content, EmptyPattern(key), 0) == Some(m) && MatchAt(content, EmptyPattern(key), m) == Some(e)
    ensures StartsWith(QaRewriteKey(content, key, translation), content[..m] + FilledText(key, translation))
  {
    assert QaReplacement(key, translation)(content[m..e]) == FilledText(key, translation);
    ReplaceAllPrefix(content, EmptyPattern(key), QaReplacement(key, translation), m, e);
  }

  /** The filled msgstr stays on one line, which the PO reader takes as a msgstr holding the escaped text. */
  lemma FilledLineParses(translation: string)
    ensures '\n' !in Escape(translation)
    ensures PoToJson.Classify("msgstr \"" + Escape(translation) + "\"") == PoToJson.MsgstrLine(Escape(translation))
  {
    EscapeShape(translation);
    PoToJson.ClassifyMsgstrLine(Escape(translation));
  }

  // ---- main ----

  /** `Object.keys(LANGUAGE_MAPPINGS)`. */
  const Locales: seq<string> := ["fr", "es", "de"]

  /** One entry of `results`. */
  datatype LocaleResult =
    | Summary(locale: string, total: nat, successful: nat, fallbacks: int)
    | Error(locale: string)

  /** What the loop of lines 159-179 records for one locale. */
  function LocaleOutcome(locale: string, qaContent: Dict<string, string>, api: (string, string) -> Reply, files: string -> Option<string>): LocaleResult {
    if files(PoPath(locale)).None? then Error(locale)
    else
      var translations := MapValues(qaContent, ItemTranslator(locale, api));
      var successful := SuccessCount(Values(translations));
      Summary(locale, |Keys(translations)|, successful, |Keys(translations)| - successful)
  }

  function Outcomes(locales: seq<string>, qaContent: Dict<string, string>, api: (string, string) -> Reply, files: string -> Option<string>): (r: seq<LocaleResult>)
    ensures |r| == |locales|
    ensures forall i :: 0 <= i < |locales| ==> r[i] == LocaleOutcome(locales[i], qaContent, api, files)
  {
    if locales == [] then []
    else Outcomes(locales[..|locales| - 1], qaContent, api, files) + [LocaleOutcome(locales[|locales| - 1], qaContent, api, files)]
  }

  /** The `.po` file written for a locale whose file exists: the translations filled in. */
  function QaWrite(locale: string, qaContent: Dict<string, string>, api: (string, string) -> Reply, file: string): (string, string) {
    var translations := MapValues(qaContent, ItemTranslator(locale, api));
    (PoPath(locale), QaRewriteKeys(file, Keys(translations), translations))
  }

  /** The files written, in locale order: one per locale whose `.po` file exists. */
  function QaWrites(locales: seq<string>, qaContent: Dict<string, string>, api: (string, string) -> Reply, files: string -> Option<string>): (r: seq<(string, string)>)
    ensures |r| <= |locales|
  {
    if locales == [] then []
    else
      var locale := locales[|locales| - 1];
      QaWrites(locales[..|locales| - 1], qaContent, api, files)
      + match files(PoPath(locale)) case None => [] case Some(file) => [QaWrite(locale, qaContent, api, file)]
  }

  /** The summary of a locale whose file exists, from its translations. */
  lemma OutcomeOfSummary(locale: string, qaContent: Dict<string, string>, api: (string, string) -> Reply, files: string -> Option<string>, translations: Dict<string, string>)
    requires files(PoPath(locale)).Some? && translations == MapValues(qaContent, ItemTranslator(locale, api))
    ensures LocaleOutcome(locale, qaContent, api, files)
            == Summary(locale, |Keys(translations)|, SuccessCount(Values(translations)), |Keys(translations)| - SuccessCount(Values(translations)))
  {
  }

  /** One more locale of the loop: its outcome, and its write when its file exists. */
  lemma LocaleStep(locales: seq<string>, i: nat, qaContent: Dict<string, string>, api: (string, string) -> Reply, files: string -> Option<string>)
    requires i < |locales|
    ensures Outcomes(locales[..i + 1], qaContent, api, files)
            == Outcomes(locales[..i], qaContent, api, files) + [LocaleOutcome(locales[i], qaContent, api, files)]
    ensures QaWrites(locales[..i + 1], qaContent, api, files)
            == QaWrites(locales[..i], qaContent, api, files)
               + match files(PoPath(locales[i])) case None => [] case Some(file) => [QaWrite(locales[i], qaContent, api, file)]
  {
    assert locales[..i + 1][..i] == locales[..i];
  }

  /**
   * The body of the `try` of lines 161-174 for one locale: the translations,
   * the `.po` file written, and the summary; the result is `Error` when the
   * file does not exist, which is where `updatePoFile` throws.
   */
  method TranslateLocale(locale: string, qaContent: Dict<string, string>, api: (string, string) -> Reply, files: string -> Option<string>)
    returns (result: LocaleResult, written: Option<(string, string)>)
    requires DistinctKeys(qaContent)
    ensures result == LocaleOutcome(locale, qaContent, api, files)
    ensures written == match files(PoPath(locale)) case None => None case Some(file) => Some(QaWrite(locale, qaContent, api, file))
  {
    var translations, _ := TranslateQAContent(locale, qaContent, api);
    var content := UpdatePoFile(locale, translations, files(PoPath(locale)));
    if content.None? {
      return Error(locale), None;
    }
    var successful := SuccessCount(Values(translations));
    OutcomeOfSummary(locale, qaContent, api, files, translations);
    result := Summary(locale, |Keys(translations)|, successful, |Keys(translations)| - successful);
    written := Some((PoPath(locale), content.value));
  }

  /**
   * `main()`: `english` is the parsed English messages, `None` when they
   * cannot be loaded (the process then exits with status 1 and nothing is
   * written); `files` is the `.po` files at the start.
   */
  method TranslateAll(english: Option<Dict<string, string>>, api: (string, string) -> Reply, files: string -> Option<string>)
    returns (results: Option<seq<LocaleResult>>, writes: seq<(string, string)>)
    requires english.Some? ==> DistinctKeys(english.value)
    ensures english.None? ==> results.None? && writes == []
    ensures english.Some? ==> results == Some(Outcomes(Locales, Filter(english.value, IsQaEntry), api, files))
    ensures english.Some? ==> writes == QaWrites(Locales, Filter(english.value, IsQaEntry), api, files)
  {
    if english.None? {
      return None, [];
    }
    var qaContent := LoadEnglishQAContent(english.value);
    QaContentExact(english.value, "");
    var acc: seq<LocaleResult> := [];
    writes := [];
    for i := 0 to |Locales|
      invariant acc == Outcomes(Locales[..i], qaContent, api, files)
      invariant writes == QaWrites(Locales[..i], qaContent, api, files)
    {
      var locale := Locales[i];
      LocaleStep(Locales, i, qaContent, api, files);
      var result, written := TranslateLocale(locale, qaContent, api, files);
      if written.Some? {
        writes := writes + [written.value];
      }
      acc := acc + [result];
    }
    assert Locales[..|Locales|] == Locales;
    results := Some(acc);
  }

  /** Every summary has as many entries as the Q&A content, and its translated strings and fallbacks add up to them. */
  lemma SummaryConsistent(locale: string, qaContent: Dict<string, string>, api: (string, string) -> Reply, files: string -> Option<string>)
    ensures var r := LocaleOutcome(locale, qaContent, api, files);
            r.Summary? ==> r.total == |qaContent| && r.fallbacks >= 0 && r.successful + r.fallbacks == r.total
    ensures LocaleOutcome(locale, qaContent, api, files).Error? <==> files(PoPath(locale)).None?
  {
    var translations := MapValues(qaContent, ItemTranslator(locale, api));
    assert |Values(translations)| == |translations|;
  }
}
