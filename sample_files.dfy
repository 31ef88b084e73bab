/**
 * The sample-files data file: for each audience directory, its `.epub`
 * files with a display name derived from the file name, most recent date
 * first.
 *
 * File names follow either the convention `Title - Author - YYYY-MM-DD.epub`
 * or `hyphenated-words.epub`. A date is modelled by its ordinal
 * `year * 10000 + month * 100 + day`, which orders calendar dates as their
 * times do; the epoch of `new Date(0)` is 1970-01-01.
 */
module SampleFiles {
  import opened Wrappers
  import opened JsString
  import opened StableSort
  import Epubs

  // ---- formatDisplayName ----

  /** `filename.replace('.epub', '')`: only the first occurrence goes. */
  function Stem(filename: string): string {
    ReplaceFirst(filename, ".epub", "")
  }

  /** `word.charAt(0).toUpperCase() + word.slice(1)`. */
  function Capitalize(word: string): string {
    if word == [] then [] else [UpperAscii(word[0])] + word[1..]
  }

  function CapitalizeAll(words: seq<string>): seq<string> {
    seq(|words|, i requires 0 <= i < |words| => Capitalize(words[i]))
  }

  /** `formatDisplayName(filename)`. */
  function FormatDisplayName(filename: string): (r: string)
    ensures Contains(Stem(filename), " - ") ==>
              r == Trim(Stem(filename)[..IndexOf(Stem(filename), " - ").value])
    ensures Contains(Stem(filename), " - ") ==>
              |r| < |Stem(filename)| && (r == [] || (!IsSpace(r[0]) && !IsSpace(r[|r| - 1])))
    ensures !Contains(Stem(filename), " - ") ==> |r| == |Stem(filename)| && '-' !in r
  {
    var name := Stem(filename);
    if Contains(name, " - ") then Trim(Split(name, " - ")[0])
    else WordsTitleCase(name); Join(CapitalizeAll(Split(name, "-")), " ")
  }

  /**
   * The hyphenated name read as words, character by character: every hyphen
   * becomes a space and every character that starts a word is upper-cased.
   */
  function TitleCase(s: string): (r: string)
    ensures |r| == |s|
    ensures '-' !in r
  {
    seq(|s|, i requires 0 <= i < |s| =>
      if s[i] == '-' then ' ' else if i == 0 || s[i - 1] == '-' then UpperAscii(s[i]) else s[i])
  }

  /** A string with no hyphen has no hyphen at any index. */
  lemma NoDashAt(s: string, k: nat)
    requires k < |s| && IndexOf(s, "-").None?
    ensures s[k] != '-'
  {
    assert s[k..k + 1] == [s[k]];
    assert !OccursAt(s, "-", k);
  }

  /** A word without a hyphen is capitalised as its title case. */
  lemma CapitalizeNoDash(s: string)
    requires IndexOf(s, "-").None?
    ensures Capitalize(s) == TitleCase(s)
  {
    forall k | 0 <= k < |s| ensures Capitalize(s)[k] == TitleCase(s)[k] {
      NoDashAt(s, k);
      if k > 0 {
        NoDashAt(s, k - 1);
      }
    }
  }

  /** Before the first hyphen, a hyphen does not occur. */
  lemma NoDashBefore(s: string, i: nat, k: nat)
    requires IndexOf(s, "-") == Some(i) && k < i
    ensures s[k] != '-'
  {
    assert s[k..k + 1] == [s[k]];
    assert !OccursAt(s, "-", k);
  }

  /** The title case of a name is that of its first word, a space, and that of the rest. */
  lemma TitleCaseAtDash(s: string, i: nat)
    requires IndexOf(s, "-") == Some(i)
    ensures TitleCase(s) == Capitalize(s[..i]) + " " + TitleCase(s[i + 1..])
  {
    var lhs := Capitalize(s[..i]) + " " + TitleCase(s[i + 1..]);
    forall k | 0 <= k < |s| ensures lhs[k] == TitleCase(s)[k] {
      TitleCaseAtDashIndex(s, i, k);
    }
  }

  lemma TitleCaseAtDashIndex(s: string, i: nat, k: nat)
    requires IndexOf(s, "-") == Some(i) && k < |s|
    ensures (Capitalize(s[..i]) + " " + TitleCase(s[i + 1..]))[k] == TitleCase(s)[k]
  {
    var rest := s[i + 1..];
    var first := Capitalize(s[..i]);
    var lhs := first + " " + TitleCase(rest);
    assert |first| == i;
    if k < i {
      assert lhs[k] == first[k];
      NoDashBefore(s, i, k);
      if k > 0 {
        NoDashBefore(s, i, k - 1);
        assert first[k] == s[k];
      } else {
        assert first[0] == UpperAscii(s[0]);
      }
    } else if k == i {
      assert lhs[k] == ' ';
      OccursFirstChar(s, "-", i);
    } else {
      assert lhs[k] == TitleCase(rest)[k - i - 1];
      assert rest[k - i - 1] == s[k];
      if k > i + 1 {
        assert rest[k - i - 2] == s[k - 1];
      } else {
        OccursFirstChar(s, "-", i);
      }
    }
  }

  /** A name without a hyphen is one word. */
  lemma WordsNoDash(s: string)
    requires IndexOf(s, "-").None?
    ensures Join(CapitalizeAll(Split(s, "-")), " ") == Capitalize(s)
  {
    assert Split(s, "-") == [s];
    assert CapitalizeAll([s]) == [Capitalize(s)];
  }

  /** The words of a name are its first word, capitalised, then the words after the first hyphen. */
  lemma WordsAtDash(s: string, i: nat)
    requires IndexOf(s, "-") == Some(i)
    ensures Join(CapitalizeAll(Split(s, "-")), " ")
            == Capitalize(s[..i]) + " " + Join(CapitalizeAll(Split(s[i + 1..], "-")), " ")
  {
    var tail := Split(s[i + 1..], "-");
    assert Split(s, "-") == [s[..i]] + tail;
    CapitalizeAllCons(s[..i], tail);
    JoinCons(Capitalize(s[..i]), CapitalizeAll(tail), " ");
  }

  lemma CapitalizeAllCons(word: string, words: seq<string>)
    ensures CapitalizeAll([word] + words) == [Capitalize(word)] + CapitalizeAll(words)
  {
  }

  lemma JoinCons(first: string, rest: seq<string>, sep: string)
    requires rest != []
    ensures Join([first] + rest, sep) == first + sep + Join(rest, sep)
  {
    assert ([first] + rest)[1..] == rest;
  }

  /** Splitting on `-`, capitalising each word and joining with spaces is the character-wise title case. */
  lemma {:induction false} WordsTitleCase(s: string)
    ensures Join(CapitalizeAll(Split(s, "-")), " ") == TitleCase(s)
    decreases |s|
  {
    match IndexOf(s, "-")
    case None =>
      WordsNoDash(s);
      CapitalizeNoDash(s);
    case Some(i) =>
      WordsAtDash(s, i);
      WordsTitleCase(s[i + 1..]);
      TitleCaseAtDash(s, i);
  }

  /** A name without ` - ` is shown as its title case: no hyphen is left and the length is kept. */
  lemma HyphenatedName(filename: string)
    requires !Contains(Stem(filename), " - ")
    ensures FormatDisplayName(filename) == TitleCase(Stem(filename))
  {
    WordsTitleCase(Stem(filename));
  }

  // ---- The naming convention ----

  /** `Title - Author - YYYY-MM-DD.epub`. */
  function SampleName(title: string, author: string, date: string): string {
    title + " - " + author + " - " + date + ".epub"
  }

  /**
   * The first `.epub` of a name that holds no `.epub` of its own is the
   * suffix: no occurrence can straddle the suffix, since its dot is the
   * only dot in `.epub`.
   */
  lemma StemOfSuffixed(name: string)
    requires !Contains(name, ".epub")
    ensures Stem(name + ".epub") == name
  {
    var s := name + ".epub";
    assert OccursAt(s, ".epub", |name|) by {
      assert s[|name|..|name| + 5] == ".epub";
    }
    forall j | 0 <= j < |name| ensures !OccursAt(s, ".epub", j) {
      if j + 5 <= |name| {
        assert !OccursAt(name, ".epub", j);
        assert s[j..j + 5] == name[j..j + 5];
      } else if j + 5 <= |s| {
        var k := |name| - j;
        assert 1 <= k <= 4 && s[j + k] == '.';
        assert s[j..j + 5][k] == s[j + k];
        assert ".epub"[k] != '.';
      }
    }
    assert IndexOf(s, ".epub") == Some(|name|);
    assert s[..|name|] == name;
  }

  /**
   * A part that holds no ` - ` and does not end in ` -` ends at the first
   * ` - ` after it, hyphens inside it notwithstanding.
   */
  lemma SplitAfterPart(a: string, rest: string)
    requires !Contains(a + " -", " - ")
    ensures Split(a + " - " + rest, " - ") == [a] + Split(rest, " - ")
  {
    var s := a + " - " + rest;
    var head := a + " -";
    assert OccursAt(s, " - ", |a|) by {
      assert s[|a|..|a| + 3] == " - ";
    }
    assert s[..|a| + 2] == head;
    forall j | 0 <= j < |a| ensures !OccursAt(s, " - ", j) {
      assert !OccursAt(head, " - ", j);
      assert s[j..j + 3] == head[j..j + 3];
    }
    assert IndexOf(s, " - ") == Some(|a|);
    assert s[..|a|] == a;
    assert s[|a| + 3..] == rest;
  }

  /** A last part without a space is not split further. */
  lemma SplitNoSpace(s: string)
    requires ' ' !in s
    ensures Split(s, " - ") == [s]
  {
    forall j | 0 <= j ensures !OccursAt(s, " - ", j) {
      if j + 3 <= |s| {
        assert s[j..j + 3][0] == s[j] != ' ';
      }
    }
  }

  // ---- extractDate ----

  /** `/^\d{4}-\d{2}-\d{2}$/.test(s)`. */
  predicate IsDateText(s: string) {
    |s| == 10 && s[4] == '-' && s[7] == '-'
    && IsDigit(s[0]) && IsDigit(s[1]) && IsDigit(s[2]) && IsDigit(s[3])
    && IsDigit(s[5]) && IsDigit(s[6]) && IsDigit(s[8]) && IsDigit(s[9])
  }

  function DigitValue(c: char): int {
    c as int - '0' as int
  }

  /** The ordinal of a `YYYY-MM-DD` text. */
  function DateOrdinal(s: string): int
    requires IsDateText(s)
  {
    (DigitValue(s[0]) * 1000 + DigitValue(s[1]) * 100 + DigitValue(s[2]) * 10 + DigitValue(s[3])) * 10000
    + (DigitValue(s[5]) * 10 + DigitValue(s[6])) * 100
    + DigitValue(s[8]) * 10 + DigitValue(s[9])
  }

  /** `new Date(0)`: 1970-01-01. */
  const EpochOrdinal: int := 19700101

  /** The last ` - ` part of the stem, trimmed: the date's place in a conventional name. */
  function LastPart(filename: string): string {
    var parts := Split(Stem(filename), " - ");
    Trim(parts[|parts| - 1])
  }

  /**
   * `extractDate(filename)`: the date of a name with at least three ` - `
   * parts whose last part is a `YYYY-MM-DD` text, otherwise the epoch.
   */
  function ExtractDate(filename: string): (d: int)
    ensures |Split(Stem(filename), " - ")| >= 3 && IsDateText(LastPart(filename)) ==>
              d == DateOrdinal(LastPart(filename))
    ensures d != EpochOrdinal ==>
              |Split(Stem(filename), " - ")| >= 3 && IsDateText(LastPart(filename)) && d == DateOrdinal(LastPart(filename))
  {
    if |Split(Stem(filename), " - ")| >= 3 && IsDateText(LastPart(filename)) then DateOrdinal(LastPart(filename))
    else EpochOrdinal
  }

  /** The two-digit text of `n`. */
  function TwoDigits(n: nat): string
    requires n < 100
  {
    [DigitChar(n / 10), DigitChar(n % 10)]
  }

  /** `YYYY-MM-DD` for a year, month and day. */
  function DateText(year: nat, month: nat, day: nat): (s: string)
    requires year < 10000 && month < 100 && day < 100
    ensures IsDateText(s)
  {
    TwoDigits(year / 100) + TwoDigits(year % 100) + "-" + TwoDigits(month) + "-" + TwoDigits(day)
  }

  /** The ordinal reads the year, month and day back from their text. */
  lemma DateOrdinalOfText(year: nat, month: nat, day: nat)
    requires year < 10000 && month < 100 && day < 100
    ensures DateOrdinal(DateText(year, month, day)) == year * 10000 + month * 100 + day
  {
    var s := DateText(year, month, day);
    assert DigitValue(s[0]) * 10 + DigitValue(s[1]) == year / 100;
    assert DigitValue(s[2]) * 10 + DigitValue(s[3]) == year % 100;
    assert DigitValue(s[5]) * 10 + DigitValue(s[6]) == month;
    assert DigitValue(s[8]) * 10 + DigitValue(s[9]) == day;
  }

  /** A later calendar date has a larger ordinal, so ordinals compare as the dates' times do. */
  lemma OrdinalOrdersDates(y1: nat, m1: nat, d1: nat, y2: nat, m2: nat, d2: nat)
    requires y1 < 10000 && m1 < 100 && d1 < 100 && y2 < 10000 && m2 < 100 && d2 < 100
    requires y1 < y2 || (y1 == y2 && m1 < m2) || (y1 == y2 && m1 == m2 && d1 < d2)
    ensures DateOrdinal(DateText(y1, m1, d1)) < DateOrdinal(DateText(y2, m2, d2))
  {
    DateOrdinalOfText(y1, m1, d1);
    DateOrdinalOfText(y2, m2, d2);
  }

  /** A conventional name has no dot before its suffix. */
  lemma ConventionNoDot(title: string, author: string, date: string)
    requires '.' !in title && '.' !in author && IsDateText(date)
    ensures '.' !in title + " - " + author + " - " + date
  {
    var name := title + " - " + author + " - " + date;
    forall k | 0 <= k < |name| ensures name[k] != '.' {
      if k < |title| {
        assert name[k] == title[k];
      } else if |title| + 3 <= k < |title| + 3 + |author| {
        assert name[k] == author[k - |title| - 3];
      } else if k >= |title| + 6 + |author| {
        assert name[k] == date[k - |title| - 6 - |author|];
      }
    }
  }

  /** A conventional name splits into its title, author and date. */
  lemma ConventionParts(title: string, author: string, date: string)
    requires !Contains(title + " -", " - ") && !Contains(author + " -", " - ") && IsDateText(date)
    ensures Split(title + " - " + author + " - " + date, " - ") == [title, author, date]
    ensures Contains(title + " - " + author + " - " + date, " - ")
  {
    var rest := author + " - " + date;
    ConventionRegroup(title, author, date);
    DateNoSpace(date);
    SplitNoSpace(date);
    SplitAfterPart(author, date);
    SplitAfterPart(title, rest);
    SeparatorAt(title, rest);
  }

  lemma ConventionRegroup(title: string, author: string, date: string)
    ensures title + " - " + author + " - " + date == title + " - " + (author + " - " + date)
  {
  }

  lemma DateNoSpace(date: string)
    requires IsDateText(date)
    ensures ' ' !in date
  {
    forall k | 0 <= k < |date| ensures date[k] != ' ' {
    }
  }

  lemma SeparatorAt(a: string, rest: string)
    ensures Contains(a + " - " + rest, " - ")
  {
    var s := a + " - " + rest;
    assert OccursAt(s, " - ", |a|) by {
      assert s[|a|..|a| + 3] == " - ";
    }
  }

  /**
   * A name that follows the convention is shown as its trimmed title and
   * dated by its date. The title and the author may hold hyphens and dots;
   * they hold no ` - ` and do not end in ` -`, and no `.epub` comes before
   * the suffix.
   */
  lemma NamingConvention(title: string, author: string, date: string)
    requires !Contains(title + " -", " - ") && !Contains(author + " -", " - ")
    requires !Contains(title + " - " + author + " - " + date, ".epub")
    requires IsDateText(date)
    ensures FormatDisplayName(SampleName(title, author, date)) == Trim(title)
    ensures ExtractDate(SampleName(title, author, date)) == DateOrdinal(date)
  {
    var name := title + " - " + author + " - " + date;
    ConventionStem(title, author, date);
    ConventionParts(title, author, date);
    var parts := Split(name, " - ");
    assert parts[0] == title && parts[|parts| - 1] == date;
    TrimNoop(date);
  }

  /** The stem of a conventional name drops just its suffix. */
  lemma ConventionStem(title: string, author: string, date: string)
    requires !Contains(title + " - " + author + " - " + date, ".epub")
    ensures Stem(SampleName(title, author, date)) == title + " - " + author + " - " + date
  {
    var name := title + " - " + author + " - " + date;
    assert SampleName(title, author, date) == name + ".epub";
    StemOfSuffixed(name);
  }

  /** A name without a dot holds no `.epub`. */
  lemma NoDotNoSuffix(name: string)
    requires '.' !in name
    ensures !Contains(name, ".epub")
  {
    if Contains(name, ".epub") {
      OccursFirstChar(name, ".epub", IndexOf(name, ".epub").value);
    }
  }

  /** A name with a single ` - ` has two parts, and is dated at the epoch. */
  lemma OneSeparatorIsEpoch(filename: string)
    requires Contains(Stem(filename), " - ")
    requires !Contains(Stem(filename)[IndexOf(Stem(filename), " - ").value + 3..], " - ")
    ensures ExtractDate(filename) == EpochOrdinal
  {
    var stem := Stem(filename);
    var i := IndexOf(stem, " - ").value;
    assert Split(stem[i + 3..], " - ") == [stem[i + 3..]];
    assert |Split(stem, " - ")| == 2;
  }


  /** A name without ` - ` sorts as the epoch. */
  lemma UndatedIsEpoch(filename: string)
    requires !Contains(Stem(filename), " - ")
    ensures ExtractDate(filename) == EpochOrdinal
  {
    assert Split(Stem(filename), " - ") == [Stem(filename)];
  }

  // ---- scanDirectory ----

  datatype SampleFile = SampleFile(filename: string, displayName: string, path: string)

  /** The record of one file of an audience directory. */
  function SampleFor(audienceDir: string, filename: string): SampleFile {
    SampleFile(filename, FormatDisplayName(filename), "/epub/samples/" + audienceDir + "/" + filename)
  }

  /** The records of the `.epub` files, in listing order. */
  function Samples(audienceDir: string, files: seq<string>): (r: seq<SampleFile>)
    ensures |r| == |Epubs.EpubFiles(files)|
    ensures forall i :: 0 <= i < |r| ==> r[i] == SampleFor(audienceDir, Epubs.EpubFiles(files)[i])
    ensures forall s :: s in r <==> exists f :: f in files && EndsWith(f, ".epub") && s == SampleFor(audienceDir, f)
  {
    var epubs := Epubs.EpubFiles(files);
    var r := seq(|epubs|, i requires 0 <= i < |epubs| => SampleFor(audienceDir, epubs[i]));
    assert forall f :: f in epubs ==> SampleFor(audienceDir, f) in r by {
      forall f | f in epubs ensures SampleFor(audienceDir, f) in r {
        var i :| 0 <= i < |epubs| && epubs[i] == f;
        assert r[i] == SampleFor(audienceDir, f);
      }
    }
    r
  }

  /** The comparator `dateB - dateA` as an ascending key: the later the date, the smaller the key. */
  function Recency(s: SampleFile): int {
    -ExtractDate(s.filename)
  }

  /** `scanDirectory(audienceDir)`; `listing` is the directory listing, `None` when it cannot be read. */
  function ScanDirectory(audienceDir: string, listing: Option<seq<string>>): (r: seq<SampleFile>)
    ensures listing.None? ==> r == []
    ensures listing.Some? ==> multiset(r) == multiset(Samples(audienceDir, listing.value))
    ensures forall i, j :: 0 <= i < j < |r| ==> ExtractDate(r[i].filename) >= ExtractDate(r[j].filename)
  {
    match listing
    case None => []
    case Some(files) =>
      var r := SortBy(Samples(audienceDir, files), Recency);
      assert forall i, j :: 0 <= i < j < |r| ==> Recency(r[i]) <= Recency(r[j]);
      r
  }

  /** The scan lists exactly the `.epub` files of the directory, each with its display name and public path. */
  lemma ScanMembers(audienceDir: string, files: seq<string>, s: SampleFile)
    ensures s in ScanDirectory(audienceDir, Some(files)) <==>
              exists f :: f in files && EndsWith(f, ".epub") && s == SampleFor(audienceDir, f)
  {
    var r := ScanDirectory(audienceDir, Some(files));
    assert s in r <==> s in multiset(r);
    assert s in Samples(audienceDir, files) <==> s in multiset(Samples(audienceDir, files));
  }

  /** Files with the same date keep their listing order, the sort being stable. */
  lemma ScanStable(audienceDir: string, files: seq<string>, k: int)
    ensures WithKey(ScanDirectory(audienceDir, Some(files)), Recency, k) == WithKey(Samples(audienceDir, files), Recency, k)
  {
    SortByStable(Samples(audienceDir, files), Recency, k);
  }

  /** An epoch-dated file comes after every file with a later date. */
  lemma EpochAfterDated(audienceDir: string, files: seq<string>, i: nat, j: nat)
    requires var r := ScanDirectory(audienceDir, Some(files));
             i < |r| && j < |r| && ExtractDate(r[i].filename) == EpochOrdinal && ExtractDate(r[j].filename) > EpochOrdinal
    ensures j < i
  {
  }

  /** `path.join('epub/samples', audienceDir)`. */
  function AudiencePath(audience: string): string {
    "epub/samples/" + audience
  }

  /** One audience of the export, scanned from its own directory. */
  function Audience(audience: string, listDir: string -> Option<seq<string>>): (a: (string, seq<SampleFile>))
    ensures a.0 == audience
  {
    (audience, ScanDirectory(audience, listDir(AudiencePath(audience))))
  }

  /** The audience directories, in the order of the export. */
  const AudienceNames: seq<string> := ["writers", "designers", "developers"]

  /** `module.exports`: the three audiences, each listed from `epub/samples/<audience>`. */
  function SampleCatalog(listDir: string -> Option<seq<string>>): (r: seq<(string, seq<SampleFile>)>)
    ensures |r| == 3 && r[0].0 == "writers" && r[1].0 == "designers" && r[2].0 == "developers"
    ensures forall i :: 0 <= i < |r| ==> r[i] == Audience(AudienceNames[i], listDir)
  {
    seq(|AudienceNames|, i requires 0 <= i < |AudienceNames| => Audience(AudienceNames[i], listDir))
  }
}
