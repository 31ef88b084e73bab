/**
 * The restore script: for each language, every key of a translations table
 * that has a text for that language rewrites the `msgstr` following its
 * `msgid "key"` line, first where that msgstr is empty and, only when there
 * is none, where it still holds the key itself.
 */
module RestoreTranslations {
  import opened Wrappers
  import opened JsString
  import opened OrderedDict
  import opened PoPattern

  /** key -> (language -> text), as the script's constant object. */
  type Table = Dict<string, Dict<string, string>>

  /** `(msgid "key"\s*\n)(msgstr "key")` */
  function KeyPattern(key: string): Pattern {
    Pattern(MsgidLine(key), "msgstr \"" + key + "\"")
  }

  /** `$1msgstr "text"`: the captured msgid line and white space, then the new msgstr. */
  function Replacement(text: string): string -> string {
    group => group + "msgstr \"" + text + "\""
  }

  lemma PatternsWellFormed(key: string)
    ensures WellFormed(EmptyPattern(key)) && WellFormed(KeyPattern(key))
  {
  }

  /** `translations[key][lang]`, with `""` standing for both a missing and an empty text (both falsy). */
  function TextFor(table: Table, key: string, lang: string): string {
    match Get(table, key)
    case None => ""
    case Some(row) => Get(row, lang).GetOr("")
  }

  /** The effect of one key: the new content, and whether the count goes up. */
  function RewriteKey(content: string, key: string, text: string): (string, bool) {
    if text == "" then (content, false)
    else if HasMatch(content, EmptyPattern(key)) then (ReplaceAll(content, EmptyPattern(key), Replacement(text)), true)
    else if HasMatch(content, KeyPattern(key)) then (ReplaceAll(content, KeyPattern(key), Replacement(text)), true)
    else (content, false)
  }

  /** A key counts exactly when it has a text and one of the two patterns matches; otherwise the content is kept. */
  lemma RewriteKeyCounts(content: string, key: string, text: string)
    ensures RewriteKey(content, key, text).1
            <==> text != "" && (HasMatch(content, EmptyPattern(key)) || HasMatch(content, KeyPattern(key)))
    ensures !RewriteKey(content, key, text).1 ==> RewriteKey(content, key, text).0 == content
  {
  }

  /** The keys processed in order, each on the content the previous ones left; the second component is `updatedCount`. */
  function RewriteKeys(content: string, keys: seq<string>, table: Table, lang: string): (string, nat) {
    if keys == [] then (content, 0)
    else
      var prev := RewriteKeys(content, keys[..|keys| - 1], table, lang);
      var step := RewriteKey(prev.0, keys[|keys| - 1], TextFor(table, keys[|keys| - 1], lang));
      (step.0, prev.1 + if step.1 then 1 else 0)
  }

  /** One more key: `RewriteKey` on what the keys before it left. */
  lemma RewriteKeysStep(content: string, keys: seq<string>, i: nat, table: Table, lang: string, prev: string, count: nat)
    requires i < |keys| && (prev, count) == RewriteKeys(content, keys[..i], table, lang)
    ensures RewriteKeys(content, keys[..i + 1], table, lang)
            == (RewriteKey(prev, keys[i], TextFor(table, keys[i], lang)).0,
                count + if RewriteKey(prev, keys[i], TextFor(table, keys[i], lang)).1 then 1 else 0)
  {
    assert keys[..i + 1][..i] == keys[..i];
  }

  /**
   * `updatePoFile(lang, translations)`: `file` is the `.po` content, `None`
   * when the file does not exist; `written` is what is written back.
   */
  method UpdatePoFile(lang: string, translations: Table, file: Option<string>)
    returns (written: Option<string>, updatedCount: nat)
    ensures file.None? ==> written.None? && updatedCount == 0
    ensures file.Some? ==>
              written == Some(RewriteKeys(file.value, Keys(translations), translations, lang).0)
              && updatedCount == RewriteKeys(file.value, Keys(translations), translations, lang).1
  {
    if file.None? {
      return None, 0;
    }
    var content := file.value;
    updatedCount := 0;
    var keys := Keys(translations);
    for i := 0 to |keys|
      invariant (content, updatedCount) == RewriteKeys(file.value, keys[..i], translations, lang)
    {
      RewriteKeysStep(file.value, keys, i, translations, lang, content, updatedCount);
      var key := keys[i];
      var translatedText := TextFor(translations, key, lang);
      if translatedText != "" {
        var emptyPattern := EmptyPattern(key);
        var keyPattern := KeyPattern(key);
        var replacement := Replacement(translatedText);
        if HasMatch(content, emptyPattern) {
          content := ReplaceAll(content, emptyPattern, replacement);
          updatedCount := updatedCount + 1;
        } else if HasMatch(content, keyPattern) {
          content := ReplaceAll(content, keyPattern, replacement);
          updatedCount := updatedCount + 1;
        }
      }
    }
    assert keys[..|keys|] == keys;
    written := Some(content);
  }

  /** The number of keys that have a text for `lang`. */
  function TranslatedCount(keys: seq<string>, table: Table, lang: string): nat {
    if keys == [] then 0
    else TranslatedCount(keys[..|keys| - 1], table, lang) + if TextFor(table, keys[|keys| - 1], lang) != "" then 1 else 0
  }

  /** Each key raises the count at most once, and only if it has a text: the count is bounded by those keys. */
  lemma {:induction false} CountBound(content: string, keys: seq<string>, table: Table, lang: string)
    ensures RewriteKeys(content, keys, table, lang).1 <= TranslatedCount(keys, table, lang) <= |keys|
    decreases |keys|
  {
    if keys != [] {
      CountBound(content, keys[..|keys| - 1], table, lang);
    }
  }

  /** A language none of whose keys has a text leaves the file as it was, with a count of 0. */
  lemma {:induction false} UntranslatedUnchanged(content: string, keys: seq<string>, table: Table, lang: string)
    requires forall i :: 0 <= i < |keys| ==> TextFor(table, keys[i], lang) == ""
    ensures RewriteKeys(content, keys, table, lang) == (content, 0)
    decreases |keys|
  {
    if keys != [] {
      UntranslatedUnchanged(content, keys[..|keys| - 1], table, lang);
    }
  }

  /** A key whose msgstr is neither empty nor the key itself has nothing to rewrite. */
  lemma NoPatternUnchanged(content: string, key: string, text: string)
    requires !HasMatch(content, EmptyPattern(key)) && !HasMatch(content, KeyPattern(key))
    ensures RewriteKey(content, key, text) == (content, false)
  {
  }

  /**
   * At the first `msgid "key"`, white space, newline, `msgstr ""`: everything
   * up to the msgstr is kept and the msgstr becomes `msgstr "text"`.
   */
  lemma EmptyMsgstrFilled(content: string, key: string, text: string, m: nat, e: nat)
    requires text != ""
    requires FirstMatchFrom(content, EmptyPattern(key), 0) == Some(m) && MatchAt(content, EmptyPattern(key), m) == Some(e)
    ensures RewriteKey(content, key, text).1
    ensures StartsWith(RewriteKey(content, key, text).0, content[..e] + "msgstr \"" + text + "\"")
  {
    FilledPrefix(content, EmptyPattern(key), text, m, e);
  }

  /** The same for a msgstr that still holds the key, when no empty msgstr follows that msgid. */
  lemma KeyMsgstrFilled(content: string, key: string, text: string, m: nat, e: nat)
    requires text != "" && !HasMatch(content, EmptyPattern(key))
    requires FirstMatchFrom(content, KeyPattern(key), 0) == Some(m) && MatchAt(content, KeyPattern(key), m) == Some(e)
    ensures RewriteKey(content, key, text).1
    ensures StartsWith(RewriteKey(content, key, text).0, content[..e] + "msgstr \"" + text + "\"")
  {
    FilledPrefix(content, KeyPattern(key), text, m, e);
  }

  /** Replacing every match keeps the text up to the end of the first match, then writes the new msgstr. */
  lemma FilledPrefix(content: string, p: Pattern, text: string, m: nat, e: nat)
    requires FirstMatchFrom(content, p, 0) == Some(m) && MatchAt(content, p, m) == Some(e)
    ensures StartsWith(ReplaceAll(content, p, Replacement(text)), content[..e] + "msgstr \"" + text + "\"")
  {
    ReplaceAllPrefix(content, p, Replacement(text), m, e);
    var msgstr := "msgstr \"" + text + "\"";
    assert Replacement(text)(content[m..e]) == content[m..e] + msgstr;
    SliceRegroup(content, m, e, msgstr);
  }

  /** Splitting a prefix at `m` and regrouping. */
  lemma SliceRegroup<T>(s: seq<T>, m: nat, e: nat, t: seq<T>)
    requires m <= e <= |s|
    ensures s[..m] + (s[m..e] + t) == s[..e] + t
  {
    assert s[..m] + s[m..e] == s[..e];
  }

  /** The languages the script restores, in order. */
  const Languages: seq<string> := ["en", "es", "fr", "de"]

  /** What one language writes: its rewritten `.po` file, when that file exists. */
  function RestoreWrite(lang: string, translations: Table, files: string -> Option<string>): seq<(string, string)> {
    match files(PoPath(lang))
    case None => []
    case Some(file) => [(PoPath(lang), RewriteKeys(file, Keys(translations), translations, lang).0)]
  }

  /** The files written for the languages `langs`, in their order. */
  function RestoreWrites(langs: seq<string>, translations: Table, files: string -> Option<string>): (r: seq<(string, string)>)
    ensures |r| <= |langs|
  {
    if langs == [] then []
    else RestoreWrites(langs[..|langs| - 1], translations, files) + RestoreWrite(langs[|langs| - 1], translations, files)
  }

  lemma RestoreWritesStep(langs: seq<string>, i: nat, translations: Table, files: string -> Option<string>)
    requires i < |langs|
    ensures RestoreWrites(langs[..i + 1], translations, files)
            == RestoreWrites(langs[..i], translations, files) + RestoreWrite(langs[i], translations, files)
  {
    assert langs[..i + 1][..i] == langs[..i];
  }

  /** Every write is the rewrite of the existing `.po` file of one of the languages. */
  lemma {:induction false} RestoreWritesSound(langs: seq<string>, translations: Table, files: string -> Option<string>, w: (string, string))
    requires w in RestoreWrites(langs, translations, files)
    ensures exists lang :: lang in langs && files(PoPath(lang)).Some?
              && w == (PoPath(lang), RewriteKeys(files(PoPath(lang)).value, Keys(translations), translations, lang).0)
    decreases |langs|
  {
    var init := langs[..|langs| - 1];
    var lang := langs[|langs| - 1];
    if w in RestoreWrites(init, translations, files) {
      RestoreWritesSound(init, translations, files, w);
      var l :| l in init && files(PoPath(l)).Some?
               && w == (PoPath(l), RewriteKeys(files(PoPath(l)).value, Keys(translations), translations, l).0);
      assert l in langs;
    } else {
      assert w in RestoreWrite(lang, translations, files);
      assert lang in langs;
    }
  }

  /** Every language whose `.po` file exists has its rewrite among the writes. */
  lemma {:induction false} RestoreWritesComplete(langs: seq<string>, translations: Table, files: string -> Option<string>, lang: string)
    requires lang in langs && files(PoPath(lang)).Some?
    ensures (PoPath(lang), RewriteKeys(files(PoPath(lang)).value, Keys(translations), translations, lang).0)
            in RestoreWrites(langs, translations, files)
    decreases |langs|
  {
    var init := langs[..|langs| - 1];
    if lang in init {
      RestoreWritesComplete(init, translations, files, lang);
    } else {
      assert lang == langs[|langs| - 1];
    }
  }

  /** The files written by the whole script: one per existing `.po` file, in language order. */
  method RestoreAll(translations: Table, files: string -> Option<string>)
    returns (writes: seq<(string, string)>)
    ensures writes == RestoreWrites(Languages, translations, files)
  {
    writes := [];
    for i := 0 to |Languages|
      invariant writes == RestoreWrites(Languages[..i], translations, files)
    {
      var lang := Languages[i];
      RestoreWritesStep(Languages, i, translations, files);
      var written, _ := UpdatePoFile(lang, translations, files(PoPath(lang)));
      if written.Some? {
        writes := writes + [(PoPath(lang), written.value)];
      }
    }
    assert Languages[..|Languages|] == Languages;
  }
}
