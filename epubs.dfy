/**
 * The EPUB catalog data file: for every category directory of sample
 * books, the metadata of each readable `.epub` file, sorted by its
 * `dcterms:modified` date.
 *
 * An archive is the list of its entries (path and text) in zip order. A
 * parsed XML document is the list of its elements in document order, the
 * first being the document element. The zip reader, the XML parser and date
 * parsing are parameters of the model.
 */
module Epubs {
  import opened Wrappers
  import opened JsString
  import opened OrderedDict
  import opened StableSort

  // ---- Archives and documents ----

  type Archive = seq<(string, string)>

  datatype Element = Element(
    namespace: string,
    localName: string,
    tagName: string,
    attributes: map<string, string>,
    textContent: string)

  type Document = seq<Element>

  const DcNamespace: string := "http://purl.org/dc/elements/1.1/"

  /** `el.getAttribute(name)`; the XML library answers `""` for a missing attribute. */
  function GetAttribute(el: Element, name: string): string {
    if name in el.attributes then el.attributes[name] else ""
  }

  /** `zip.files.find(file => file.path === path)`: the text of the first entry with that path. */
  function FindEntry(archive: Archive, path: string): (r: Option<string>)
    ensures r.None? <==> forall i :: 0 <= i < |archive| ==> archive[i].0 != path
  {
    if archive == [] then None
    else if archive[0].0 == path then Some(archive[0].1)
    else FindEntry(archive[1..], path)
  }

  /** The entry found is the first one whose path is exactly `path`. */
  lemma {:induction false} FindEntryFirst(archive: Archive, path: string, i: nat)
    requires i < |archive| && archive[i].0 == path
    requires forall j :: 0 <= j < i ==> archive[j].0 != path
    ensures FindEntry(archive, path) == Some(archive[i].1)
    decreases i
  {
    if i > 0 {
      FindEntryFirst(archive[1..], path, i - 1);
    }
  }

  /** The elements of `doc` that satisfy `p`, in document order. */
  function Select(doc: Document, p: Element -> bool): (r: seq<Element>)
    ensures |r| <= |doc|
  {
    if doc == [] then [] else (if p(doc[0]) then [doc[0]] else []) + Select(doc[1..], p)
  }

  function HasTagName(name: string): Element -> bool {
    (el: Element) => el.tagName == name
  }

  function HasName(namespace: string, localName: string): Element -> bool {
    (el: Element) => el.namespace == namespace && el.localName == localName
  }

  /** `doc.getElementsByTagName(name)`: by qualified name. */
  function ElementsByTagName(doc: Document, name: string): seq<Element> {
    Select(doc, HasTagName(name))
  }

  /** `doc.getElementsByTagNameNS(namespace, localName)`. */
  function ElementsByTagNameNS(doc: Document, namespace: string, localName: string): seq<Element> {
    Select(doc, HasName(namespace, localName))
  }

  /** `els[0] ? els[0].textContent : null`. */
  function FirstText(els: seq<Element>): Option<string> {
    if els == [] then None else Some(els[0].textContent)
  }

  /** `Array.from(els).map(el => el.textContent)`. */
  function Texts(els: seq<Element>): (r: seq<string>)
    ensures |r| == |els|
    ensures forall i :: 0 <= i < |els| ==> r[i] == els[i].textContent
  {
    seq(|els|, i requires 0 <= i < |els| => els[i].textContent)
  }

  /** The first selected element is the first element of the document that satisfies `p`. */
  lemma {:induction false} SelectFirst(doc: Document, p: Element -> bool, i: nat)
    requires i < |doc| && p(doc[i])
    requires forall j :: 0 <= j < i ==> !p(doc[j])
    ensures Select(doc, p) != [] && Select(doc, p)[0] == doc[i]
    decreases i
  {
    if i > 0 {
      SelectFirst(doc[1..], p, i - 1);
    }
  }

  /** Nothing is selected exactly when no element satisfies `p`. */
  lemma {:induction false} SelectEmpty(doc: Document, p: Element -> bool)
    ensures Select(doc, p) == [] <==> forall j :: 0 <= j < |doc| ==> !p(doc[j])
    decreases |doc|
  {
    if doc != [] {
      SelectEmpty(doc[1..], p);
      if !p(doc[0]) {
        forall j | 1 <= j < |doc| ensures doc[j] == doc[1..][j - 1] { }
      }
    }
  }

  /** The selection keeps exactly the elements that satisfy `p`. */
  lemma {:induction false} SelectMembers(doc: Document, p: Element -> bool, el: Element)
    ensures el in Select(doc, p) <==> el in doc && p(el)
    decreases |doc|
  {
    if doc != [] {
      SelectMembers(doc[1..], p, el);
      assert doc == [doc[0]] + doc[1..];
    }
  }

  /** A first-or-null field is the text of the first element with that name, and null when there is none. */
  lemma FirstFieldRule(doc: Document, namespace: string, localName: string)
    ensures FirstText(ElementsByTagNameNS(doc, namespace, localName)).None? <==>
              forall j :: 0 <= j < |doc| ==> !(doc[j].namespace == namespace && doc[j].localName == localName)
    ensures forall i :: 0 <= i < |doc| && doc[i].namespace == namespace && doc[i].localName == localName
                        && (forall j :: 0 <= j < i ==> !(doc[j].namespace == namespace && doc[j].localName == localName)) ==>
              FirstText(ElementsByTagNameNS(doc, namespace, localName)) == Some(doc[i].textContent)
  {
    var p := HasName(namespace, localName);
    SelectEmpty(doc, p);
    forall i | 0 <= i < |doc| && doc[i].namespace == namespace && doc[i].localName == localName
                && (forall j :: 0 <= j < i ==> !(doc[j].namespace == namespace && doc[j].localName == localName))
      ensures FirstText(ElementsByTagNameNS(doc, namespace, localName)) == Some(doc[i].textContent)
    {
      SelectFirst(doc, p, i);
    }
  }

  /** The indices, at or after `from`, of the elements that satisfy `p`, in increasing order. */
  function MatchIndices(doc: Document, p: Element -> bool, from: nat): (r: seq<nat>)
    decreases |doc| - from
  {
    if from >= |doc| then [] else (if p(doc[from]) then [from] else []) + MatchIndices(doc, p, from + 1)
  }

  /** The indices are strictly increasing, and they are exactly those of the elements from `from` on that satisfy `p`. */
  lemma {:induction false} MatchIndicesExact(doc: Document, p: Element -> bool, from: nat)
    ensures forall k, k' :: 0 <= k < k' < |MatchIndices(doc, p, from)| ==> MatchIndices(doc, p, from)[k] < MatchIndices(doc, p, from)[k']
    ensures forall i :: i in MatchIndices(doc, p, from) <==> from <= i < |doc| && p(doc[i])
    decreases |doc| - from
  {
    if from < |doc| {
      MatchIndicesExact(doc, p, from + 1);
      var rest := MatchIndices(doc, p, from + 1);
      assert forall k :: 0 <= k < |rest| ==> from < rest[k] by {
        forall k | 0 <= k < |rest| ensures from < rest[k] {
          assert rest[k] in rest;
        }
      }
    }
  }

  /** The k-th selected element is the document's element at the k-th matching index. */
  lemma {:induction false} SelectIndexed(doc: Document, p: Element -> bool, from: nat)
    requires from <= |doc|
    ensures |Select(doc[from..], p)| == |MatchIndices(doc, p, from)|
    ensures forall k :: 0 <= k < |MatchIndices(doc, p, from)| ==>
              MatchIndices(doc, p, from)[k] < |doc| && Select(doc[from..], p)[k] == doc[MatchIndices(doc, p, from)[k]]
    decreases |doc| - from
  {
    if from < |doc| {
      SelectIndexed(doc, p, from + 1);
      assert doc[from..][1..] == doc[from + 1..];
    }
  }

  /** Selection works piece by piece, so it keeps the document's order and every matching element. */
  lemma {:induction false} SelectAppend(a: Document, b: Document, p: Element -> bool)
    ensures Select(a + b, p) == Select(a, p) + Select(b, p)
    decreases |a|
  {
    if a == [] {
      assert a + b == b;
    } else {
      assert (a + b)[0] == a[0] && (a + b)[1..] == a[1..] + b;
      SelectAppend(a[1..], b, p);
      ConcatAssoc(if p(a[0]) then [a[0]] else [], Select(a[1..], p), Select(b, p));
    }
  }

  /** One element is selected exactly when it satisfies `p`. */
  lemma SelectSingle(x: Element, p: Element -> bool)
    ensures Select([x], p) == if p(x) then [x] else []
  {
    assert [x][1..] == [];
  }

  /**
   * An all-in-order field lists the texts of the elements with that name in
   * document order, one per element: the k-th text is that of the element at
   * the k-th matching index.
   */
  lemma AllFieldRule(doc: Document, namespace: string, localName: string, t: string)
    ensures |Texts(ElementsByTagNameNS(doc, namespace, localName))| == |MatchIndices(doc, HasName(namespace, localName), 0)|
    ensures forall k :: 0 <= k < |MatchIndices(doc, HasName(namespace, localName), 0)| ==>
              MatchIndices(doc, HasName(namespace, localName), 0)[k] < |doc|
              && Texts(ElementsByTagNameNS(doc, namespace, localName))[k]
                 == doc[MatchIndices(doc, HasName(namespace, localName), 0)[k]].textContent
    ensures t in Texts(ElementsByTagNameNS(doc, namespace, localName)) <==>
              exists el :: el in doc && el.namespace == namespace && el.localName == localName && el.textContent == t
  {
    SelectIndexed(doc, HasName(namespace, localName), 0);
    assert doc[0..] == doc;
    var els := ElementsByTagNameNS(doc, namespace, localName);
    if t in Texts(els) {
      var i :| 0 <= i < |els| && Texts(els)[i] == t;
      SelectMembers(doc, HasName(namespace, localName), els[i]);
    }
    if exists el :: el in doc && el.namespace == namespace && el.localName == localName && el.textContent == t {
      var el :| el in doc && el.namespace == namespace && el.localName == localName && el.textContent == t;
      SelectMembers(doc, HasName(namespace, localName), el);
      var i :| 0 <= i < |els| && els[i] == el;
      assert Texts(els)[i] == t;
    }
  }

  // ---- The two search loops ----

  /** The text of the first element, at or after `i`, whose attribute `name` is `value`. */
  function FirstWithAttribute(els: seq<Element>, name: string, value: string, i: nat): (r: Option<string>)
    ensures r.None? <==> forall j :: i <= j < |els| ==> GetAttribute(els[j], name) != value
    decreases |els| - i
  {
    if i >= |els| then None
    else if GetAttribute(els[i], name) == value then Some(els[i].textContent)
    else FirstWithAttribute(els, name, value, i + 1)
  }

  /** The text found is that of the first element, at or after `i`, whose attribute matches. */
  lemma {:induction false} FirstWithAttributeAt(els: seq<Element>, name: string, value: string, i: nat, k: nat)
    requires i <= k < |els| && GetAttribute(els[k], name) == value
    requires forall m :: i <= m < k ==> GetAttribute(els[m], name) != value
    ensures FirstWithAttribute(els, name, value, i) == Some(els[k].textContent)
    decreases k - i
  {
    if i < k {
      FirstWithAttributeAt(els, name, value, i + 1, k);
    }
  }

  /**
   * The loops of lines 44-50 and 72-79: the text of the first element whose
   * attribute `name` equals `value`, leaving the loop at that element.
   */
  method FindByAttribute(els: seq<Element>, name: string, value: string) returns (found: Option<string>)
    ensures found == FirstWithAttribute(els, name, value, 0)
  {
    found := None;
    for i := 0 to |els|
      invariant FirstWithAttribute(els, name, value, 0) == FirstWithAttribute(els, name, value, i)
    {
      if GetAttribute(els[i], name) == value {
        found := Some(els[i].textContent);
        return;
      }
    }
  }

  // ---- extractEpubMetadata ----

  datatype Metadata = Metadata(
    uuid: Option<string>,
    title: Option<string>,
    authors: seq<string>,
    description: Option<string>,
    language: Option<string>,
    publisher: Option<string>,
    subjects: seq<string>,
    modified: Option<string>,
    filePath: string)

  /** The metadata read from a package document that has a document element. */
  function PackageMetadata(opfDoc: Document, filePath: string): (r: Metadata)
    requires opfDoc != []
    ensures r.filePath == filePath
    ensures |r.authors| <= |opfDoc| && |r.subjects| <= |opfDoc|
  {
    var uniqueIdentifier := GetAttribute(opfDoc[0], "unique-identifier");
    Metadata(
      FirstWithAttribute(ElementsByTagNameNS(opfDoc, DcNamespace, "identifier"), "id", uniqueIdentifier, 0),
      FirstText(ElementsByTagNameNS(opfDoc, DcNamespace, "title")),
      Texts(ElementsByTagNameNS(opfDoc, DcNamespace, "creator")),
      FirstText(ElementsByTagNameNS(opfDoc, DcNamespace, "description")),
      FirstText(ElementsByTagNameNS(opfDoc, DcNamespace, "language")),
      FirstText(ElementsByTagNameNS(opfDoc, DcNamespace, "publisher")),
      Texts(ElementsByTagNameNS(opfDoc, DcNamespace, "subject")),
      FirstWithAttribute(ElementsByTagName(opfDoc, "meta"), "property", "dcterms:modified", 0),
      filePath)
  }

  /**
   * What `extractEpubMetadata(filePath)` resolves to: `archive` is the
   * opened zip (`None` when it cannot be opened) and `parse` the XML parser.
   */
  function Extract(filePath: string, archive: Option<Archive>, parse: string -> Document): (r: Option<Metadata>)
    ensures archive.None? ==> r.None?
    ensures r.Some? ==> r.value.filePath == filePath
  {
    if archive.None? then None
    else
      match FindEntry(archive.value, "META-INF/container.xml")
      case None => None
      case Some(containerContent) =>
        var rootfiles := ElementsByTagName(parse(containerContent), "rootfile");
        if rootfiles == [] then None
        else
          match FindEntry(archive.value, GetAttribute(rootfiles[0], "full-path"))
          case None => None
          case Some(opfContent) =>
            var opfDoc := parse(opfContent);
            if opfDoc == [] then None else Some(PackageMetadata(opfDoc, filePath))
  }

  /** `extractEpubMetadata(filePath)`; every failure is caught and yields `None`. */
  method ExtractEpubMetadata(filePath: string, archive: Option<Archive>, parse: string -> Document)
    returns (metadata: Option<Metadata>)
    ensures metadata == Extract(filePath, archive, parse)
  {
    if archive.None? {
      return None;
    }
    var zip := archive.value;
    var containerEntry := FindEntry(zip, "META-INF/container.xml");
    if containerEntry.None? {
      return None;
    }
    var containerDoc := parse(containerEntry.value);
    var rootfiles := ElementsByTagName(containerDoc, "rootfile");
    if rootfiles == [] {
      return None;
    }
    var opfPath := GetAttribute(rootfiles[0], "full-path");
    var opfEntry := FindEntry(zip, opfPath);
    if opfEntry.None? {
      return None;
    }
    var opfDoc := parse(opfEntry.value);
    if opfDoc == [] {
      return None;
    }
    var uniqueIdentifier := GetAttribute(opfDoc[0], "unique-identifier");
    var identifiers := ElementsByTagNameNS(opfDoc, DcNamespace, "identifier");
    var uuid := FindByAttribute(identifiers, "id", uniqueIdentifier);
    var metaElements := ElementsByTagName(opfDoc, "meta");
    var modified := FindByAttribute(metaElements, "property", "dcterms:modified");
    metadata := Some(Metadata(
      uuid,
      FirstText(ElementsByTagNameNS(opfDoc, DcNamespace, "title")),
      Texts(ElementsByTagNameNS(opfDoc, DcNamespace, "creator")),
      FirstText(ElementsByTagNameNS(opfDoc, DcNamespace, "description")),
      FirstText(ElementsByTagNameNS(opfDoc, DcNamespace, "language")),
      FirstText(ElementsByTagNameNS(opfDoc, DcNamespace, "publisher")),
      Texts(ElementsByTagNameNS(opfDoc, DcNamespace, "subject")),
      modified,
      filePath));
  }

  /**
   * Extraction fails exactly when the archive cannot be opened, has no
   * `META-INF/container.xml`, the container has no `rootfile`, the
   * `full-path` of the first one names no entry, or the package document has
   * no document element.
   */
  lemma ExtractFails(filePath: string, archive: Option<Archive>, parse: string -> Document)
    ensures Extract(filePath, archive, parse).None? <==>
              archive.None?
              || (forall i :: 0 <= i < |archive.value| ==> archive.value[i].0 != "META-INF/container.xml")
              || (var containerDoc := parse(FindEntry(archive.value, "META-INF/container.xml").value);
                  forall j :: 0 <= j < |containerDoc| ==> containerDoc[j].tagName != "rootfile")
              || (var rootfiles := ElementsByTagName(parse(FindEntry(archive.value, "META-INF/container.xml").value), "rootfile");
                  rootfiles != []
                  && var opfPath := GetAttribute(rootfiles[0], "full-path");
                     (forall i :: 0 <= i < |archive.value| ==> archive.value[i].0 != opfPath)
                     || parse(FindEntry(archive.value, opfPath).value) == [])
  {
    if archive.Some? {
      var c := FindEntry(archive.value, "META-INF/container.xml");
      if c.Some? {
        SelectEmpty(parse(c.value), HasTagName("rootfile"));
      }
    }
  }

  /**
   * The uuid is the text of the first Dublin Core identifier whose `id` is
   * the package's `unique-identifier`, and null when none is.
   */
  lemma UuidRule(opfDoc: Document, filePath: string, i: nat)
    requires opfDoc != []
    ensures var ids := ElementsByTagNameNS(opfDoc, DcNamespace, "identifier");
            var wanted := GetAttribute(opfDoc[0], "unique-identifier");
            var uuid := PackageMetadata(opfDoc, filePath).uuid;
            (uuid.None? <==> forall j :: 0 <= j < |ids| ==> GetAttribute(ids[j], "id") != wanted)
            && ((i < |ids| && GetAttribute(ids[i], "id") == wanted && forall j :: 0 <= j < i ==> GetAttribute(ids[j], "id") != wanted)
                ==> uuid == Some(ids[i].textContent))
  {
    var ids := ElementsByTagNameNS(opfDoc, DcNamespace, "identifier");
    var wanted := GetAttribute(opfDoc[0], "unique-identifier");
    if i < |ids| && GetAttribute(ids[i], "id") == wanted && forall j :: 0 <= j < i ==> GetAttribute(ids[j], "id") != wanted {
      FirstWithAttributeAt(ids, "id", wanted, 0, i);
    }
  }

  /**
   * On success the metadata is that of the package document: the entry named
   * by the `full-path` of the first `rootfile` of the container.
   */
  lemma ExtractReadsPackage(filePath: string, archive: Archive, parse: string -> Document)
    requires Extract(filePath, Some(archive), parse).Some?
    ensures var rootfiles := ElementsByTagName(parse(FindEntry(archive, "META-INF/container.xml").value), "rootfile");
            rootfiles != []
            && var opfDoc := parse(FindEntry(archive, GetAttribute(rootfiles[0], "full-path")).value);
               opfDoc != [] && Extract(filePath, Some(archive), parse) == Some(PackageMetadata(opfDoc, filePath))
  {
  }

  /** `modified` is the text of the first `meta` whose `property` is exactly `dcterms:modified`, and null when there is none. */
  lemma ModifiedRule(opfDoc: Document, filePath: string, i: nat)
    requires opfDoc != []
    ensures var metas := ElementsByTagName(opfDoc, "meta");
            var modified := PackageMetadata(opfDoc, filePath).modified;
            (modified.None? <==> forall j :: 0 <= j < |metas| ==> GetAttribute(metas[j], "property") != "dcterms:modified")
            && ((i < |metas| && GetAttribute(metas[i], "property") == "dcterms:modified"
                 && forall j :: 0 <= j < i ==> GetAttribute(metas[j], "property") != "dcterms:modified")
                ==> modified == Some(metas[i].textContent))
  {
    var metas := ElementsByTagName(opfDoc, "meta");
    if i < |metas| && GetAttribute(metas[i], "property") == "dcterms:modified"
       && forall j :: 0 <= j < i ==> GetAttribute(metas[j], "property") != "dcterms:modified" {
      FirstWithAttributeAt(metas, "property", "dcterms:modified", 0, i);
    }
  }

  /**
   * A package without `unique-identifier` reads it as `""`, which an
   * identifier without an `id` attribute matches: the first such identifier
   * then gives the uuid.
   */
  lemma MissingUniqueIdentifier(opfDoc: Document, filePath: string)
    requires opfDoc != [] && "unique-identifier" !in opfDoc[0].attributes
    requires var ids := ElementsByTagNameNS(opfDoc, DcNamespace, "identifier"); ids != [] && "id" !in ids[0].attributes
    ensures PackageMetadata(opfDoc, filePath).uuid == Some(ElementsByTagNameNS(opfDoc, DcNamespace, "identifier")[0].textContent)
  {
  }

  // ---- The catalog ----

  /** A directory entry from `readdirSync(dir, { withFileTypes: true })`. */
  datatype Dirent = Dirent(name: string, isDirectory: bool)

  /** A catalog record: the metadata spread, then `category` and `relativePath`. */
  datatype Book = Book(metadata: Metadata, category: string, relativePath: string)

  /** The names of the directories, in listing order. */
  function DirNames(entries: seq<Dirent>): (names: seq<string>)
    ensures forall n :: n in names <==> Dirent(n, true) in entries
  {
    if entries == [] then []
    else
      assert entries == [entries[0]] + entries[1..];
      (if entries[0].isDirectory then [entries[0].name] else []) + DirNames(entries[1..])
  }

  /** The file names ending in `.epub`, in listing order. */
  function EpubFiles(files: seq<string>): (r: seq<string>)
    ensures |r| <= |files|
    ensures forall f :: f in r <==> f in files && EndsWith(f, ".epub")
  {
    if files == [] then []
    else
      assert files == [files[0]] + files[1..];
      (if EndsWith(files[0], ".epub") then [files[0]] else []) + EpubFiles(files[1..])
  }

  /** The filter works piece by piece, so it keeps the listing order and every `.epub` entry, duplicates included. */
  lemma {:induction false} EpubFilesAppend(a: seq<string>, b: seq<string>)
    ensures EpubFiles(a + b) == EpubFiles(a) + EpubFiles(b)
    decreases |a|
  {
    if a == [] {
      assert a + b == b;
    } else {
      assert (a + b)[0] == a[0] && (a + b)[1..] == a[1..] + b;
      EpubFilesAppend(a[1..], b);
      ConcatAssoc(if EndsWith(a[0], ".epub") then [a[0]] else [], EpubFiles(a[1..]), EpubFiles(b));
    }
  }

  /** A single name is kept exactly when it ends in `.epub`. */
  lemma EpubFilesSingle(f: string)
    ensures EpubFiles([f]) == if EndsWith(f, ".epub") then [f] else []
  {
    assert [f][1..] == [];
  }

  /** The path of a book relative to the `epub` directory, with every backslash turned into a slash. */
  function RelativePath(categoryName: string, filename: string): (r: string)
    ensures '\\' !in r
  {
    ReplaceChar("samples/" + categoryName + "/" + filename, '\\', '/')
  }

  /** `path.join(samplesDir, categoryName)`. */
  function CategoryPath(samplesDir: string, categoryName: string): string {
    samplesDir + "/" + categoryName
  }

  /** `path.join(categoryPath, file)`. */
  function BookPath(samplesDir: string, categoryName: string, filename: string): string {
    CategoryPath(samplesDir, categoryName) + "/" + filename
  }

  /** `extractEpubMetadata` as a function of the path; `open` opens an archive by path. */
  function Reader(open: string -> Option<Archive>, parse: string -> Document): string -> Option<Metadata> {
    (filePath: string) => Extract(filePath, open(filePath), parse)
  }

  /** The record for one file of a category, when `read` gives its metadata. */
  function BookFor(samplesDir: string, categoryName: string, filename: string,
                   read: string -> Option<Metadata>): Option<Book>
  {
    var filePath := BookPath(samplesDir, categoryName, filename);
    match read(filePath)
    case None => None
    case Some(metadata) => Some(Book(metadata, categoryName, RelativePath(categoryName, filename)))
  }

  /** `categoryBooks` before the sort: one record per readable file, in listing order. */
  function CategoryBooks(samplesDir: string, categoryName: string, epubFiles: seq<string>,
                         read: string -> Option<Metadata>): seq<Book>
  {
    if epubFiles == [] then []
    else
      CategoryBooks(samplesDir, categoryName, epubFiles[..|epubFiles| - 1], read)
      + match BookFor(samplesDir, categoryName, epubFiles[|epubFiles| - 1], read)
        case None => []
        case Some(book) => [book]
  }

  /** `a.modified || '9999-12-31'`. */
  function SortDate(book: Book): (r: string)
    ensures r != ""
    ensures r == "9999-12-31" || book.metadata.modified == Some(r)
  {
    match book.metadata.modified
    case Some(m) => if m != "" then m else "9999-12-31"
    case None => "9999-12-31"
  }

  /** The comparator's key: the time of the sort date, `time` standing for `new Date(...)`. */
  function DateKey(time: string -> int): Book -> int {
    book => time(SortDate(book))
  }

  /** The catalog for the directories `dirs`, or `None` when one of them cannot be listed (the whole build then returns `{}`). */
  function CatalogFrom(samplesDir: string, dirs: seq<string>, listDir: string -> Option<seq<string>>,
                       read: string -> Option<Metadata>, time: string -> int)
    : (r: Option<Dict<string, seq<Book>>>)
    ensures r.Some? ==> |r.value| <= |dirs|
  {
    if dirs == [] then Some([])
    else
      var categoryName := dirs[|dirs| - 1];
      match CatalogFrom(samplesDir, dirs[..|dirs| - 1], listDir, read, time)
      case None => None
      case Some(categories) =>
        match listDir(CategoryPath(samplesDir, categoryName))
        case None => None
        case Some(files) => Some(Put(categories, categoryName, CategoryList(samplesDir, categoryName, files, read, time)))
  }

  /** The value of one category: the records of its `.epub` files, sorted by date. */
  function CategoryList(samplesDir: string, categoryName: string, files: seq<string>,
                        read: string -> Option<Metadata>, time: string -> int): seq<Book>
  {
    SortBy(CategoryBooks(samplesDir, categoryName, EpubFiles(files), read), DateKey(time))
  }

  /** One more directory that can be listed adds or replaces its category. */
  lemma CatalogStep(samplesDir: string, dirs: seq<string>, listDir: string -> Option<seq<string>>,
                    read: string -> Option<Metadata>, time: string -> int, i: nat)
    requires i < |dirs| && CatalogFrom(samplesDir, dirs[..i], listDir, read, time).Some?
    requires listDir(CategoryPath(samplesDir, dirs[i])).Some?
    ensures CatalogFrom(samplesDir, dirs[..i + 1], listDir, read, time)
            == Some(Put(CatalogFrom(samplesDir, dirs[..i], listDir, read, time).value, dirs[i],
                        CategoryList(samplesDir, dirs[i], listDir(CategoryPath(samplesDir, dirs[i])).value, read, time)))
  {
    assert dirs[..i + 1][..i] == dirs[..i];
  }

  /** The catalog for non-empty `dirs` is the previous one with the last directory's category added or replaced. */
  lemma CatalogLast(samplesDir: string, dirs: seq<string>, listDir: string -> Option<seq<string>>,
                    read: string -> Option<Metadata>, time: string -> int)
    requires dirs != [] && CatalogFrom(samplesDir, dirs, listDir, read, time).Some?
    ensures var last := dirs[|dirs| - 1];
            var prev := CatalogFrom(samplesDir, dirs[..|dirs| - 1], listDir, read, time);
            prev.Some? && listDir(CategoryPath(samplesDir, last)).Some?
            && CatalogFrom(samplesDir, dirs, listDir, read, time).value
               == Put(prev.value, last, CategoryList(samplesDir, last, listDir(CategoryPath(samplesDir, last)).value, read, time))
  {
  }

  /** The exported builder's result; `listing` is the samples directory, `None` when it cannot be read. */
  function Catalog(samplesDir: string, listing: Option<seq<Dirent>>, listDir: string -> Option<seq<string>>,
                   read: string -> Option<Metadata>, time: string -> int)
    : Dict<string, seq<Book>>
  {
    match listing
    case None => []
    case Some(entries) => CatalogFrom(samplesDir, DirNames(entries), listDir, read, time).GetOr([])
  }

  /** The exported async function of lines 99-149. */
  method BuildCatalog(samplesDir: string, listing: Option<seq<Dirent>>, listDir: string -> Option<seq<string>>,
                      open: string -> Option<Archive>, parse: string -> Document, time: string -> int)
    returns (categories: Dict<string, seq<Book>>)
    ensures categories == Catalog(samplesDir, listing, listDir, Reader(open, parse), time)
  {
    if listing.None? {
      return [];
    }
    var categoryDirs := DirNames(listing.value);
    categories := [];
    for i := 0 to |categoryDirs|
      invariant CatalogFrom(samplesDir, categoryDirs[..i], listDir, Reader(open, parse), time) == Some(categories)
    {
      var categoryName := categoryDirs[i];
      var categoryPath := CategoryPath(samplesDir, categoryName);
      var files := listDir(categoryPath);
      if files.None? {
        UnlistableEmptiesCatalog(samplesDir, categoryDirs, listDir, Reader(open, parse), time, i);
        return [];
      }
      var epubFiles := EpubFiles(files.value);
      var categoryBooks := CollectBooks(samplesDir, categoryName, epubFiles, open, parse);
      categoryBooks := SortBy(categoryBooks, DateKey(time));
      CatalogStep(samplesDir, categoryDirs, listDir, Reader(open, parse), time, i);
      categories := Put(categories, categoryName, categoryBooks);
    }
    assert categoryDirs[..|categoryDirs|] == categoryDirs;
  }

  /** The inner loop of lines 116-132: a record pushed for each file whose metadata can be read. */
  method CollectBooks(samplesDir: string, categoryName: string, epubFiles: seq<string>,
                      open: string -> Option<Archive>, parse: string -> Document)
    returns (categoryBooks: seq<Book>)
    ensures categoryBooks == CategoryBooks(samplesDir, categoryName, epubFiles, Reader(open, parse))
  {
    categoryBooks := [];
    for j := 0 to |epubFiles|
      invariant categoryBooks == CategoryBooks(samplesDir, categoryName, epubFiles[..j], Reader(open, parse))
    {
      assert epubFiles[..j + 1][..j] == epubFiles[..j];
      var epubFile := BookPath(samplesDir, categoryName, epubFiles[j]);
      var metadata := ExtractEpubMetadata(epubFile, open(epubFile), parse);
      if metadata.Some? {
        var relativePath := RelativePath(categoryName, epubFiles[j]);
        categoryBooks := categoryBooks + [Book(metadata.value, categoryName, relativePath)];
      }
    }
    assert epubFiles[..|epubFiles|] == epubFiles;
  }

  /** Once one directory cannot be listed, no longer prefix of the directories yields a catalog. */
  lemma {:induction false} CatalogFromNone(samplesDir: string, dirs: seq<string>, listDir: string -> Option<seq<string>>,
                                           read: string -> Option<Metadata>, time: string -> int, n: nat)
    requires n <= |dirs| && CatalogFrom(samplesDir, dirs[..n], listDir, read, time).None?
    ensures CatalogFrom(samplesDir, dirs, listDir, read, time).None?
    decreases |dirs| - n
  {
    if n < |dirs| {
      assert dirs[..n + 1][..n] == dirs[..n];
      CatalogFromNone(samplesDir, dirs, listDir, read, time, n + 1);
    } else {
      assert dirs[..n] == dirs;
    }
  }

  /** A directory that cannot be listed empties the whole catalog. */
  lemma {:induction false} UnlistableEmptiesCatalog(samplesDir: string, dirs: seq<string>, listDir: string -> Option<seq<string>>,
                                                    read: string -> Option<Metadata>, time: string -> int, i: nat)
    requires i < |dirs| && listDir(CategoryPath(samplesDir, dirs[i])).None?
    ensures CatalogFrom(samplesDir, dirs, listDir, read, time).None?
  {
    assert dirs[..i + 1][..i] == dirs[..i];
    assert CatalogFrom(samplesDir, dirs[..i + 1], listDir, read, time).None?;
    CatalogFromNone(samplesDir, dirs, listDir, read, time, i + 1);
  }

  /** Membership in a non-empty sequence: in its front or its last element. */
  lemma InLast<T>(s: seq<T>, x: T)
    requires s != []
    ensures x in s <==> x in s[..|s| - 1] || x == s[|s| - 1]
  {
    assert s == s[..|s| - 1] + [s[|s| - 1]];
  }

  /** Every listed directory gets a key, even when it holds no readable book, and there are no other keys. */
  lemma {:induction false} CatalogKeys(samplesDir: string, dirs: seq<string>, listDir: string -> Option<seq<string>>,
                                       read: string -> Option<Metadata>, time: string -> int, name: string)
    requires CatalogFrom(samplesDir, dirs, listDir, read, time).Some?
    ensures name in Keys(CatalogFrom(samplesDir, dirs, listDir, read, time).value) <==> name in dirs
    ensures DistinctKeys(CatalogFrom(samplesDir, dirs, listDir, read, time).value)
    decreases |dirs|
  {
    if dirs != [] {
      InLast(dirs, name);
      CatalogLast(samplesDir, dirs, listDir, read, time);
      CatalogKeys(samplesDir, dirs[..|dirs| - 1], listDir, read, time, name);
    }
  }

  /** A category listed once has the value computed from its own listing. */
  lemma {:induction false} CategoryValue(samplesDir: string, dirs: seq<string>, listDir: string -> Option<seq<string>>,
                                         read: string -> Option<Metadata>, time: string -> int, i: nat)
    requires CatalogFrom(samplesDir, dirs, listDir, read, time).Some?
    requires i < |dirs| && forall j :: 0 <= j < |dirs| && j != i ==> dirs[j] != dirs[i]
    ensures listDir(CategoryPath(samplesDir, dirs[i])).Some?
    ensures Get(CatalogFrom(samplesDir, dirs, listDir, read, time).value, dirs[i])
            == Some(CategoryList(samplesDir, dirs[i], listDir(CategoryPath(samplesDir, dirs[i])).value, read, time))
    decreases |dirs|
  {
    var init := dirs[..|dirs| - 1];
    var last := dirs[|dirs| - 1];
    var prev := CatalogFrom(samplesDir, init, listDir, read, time);
    CatalogLast(samplesDir, dirs, listDir, read, time);
    CatalogKeys(samplesDir, init, listDir, read, time, dirs[i]);
    var list := CategoryList(samplesDir, last, listDir(CategoryPath(samplesDir, last)).value, read, time);
    PutGet(prev.value, last, list, dirs[i]);
    if i < |dirs| - 1 {
      forall j | 0 <= j < |init| && j != i ensures init[j] != init[i] {
        assert init[j] == dirs[j];
      }
      CategoryValue(samplesDir, init, listDir, read, time, i);
    }
  }

  /**
   * A category's value is its readable books sorted by date: sorted, the same
   * records, and records with equal dates in listing order.
   */
  lemma CategorySorted(samplesDir: string, categoryName: string, files: seq<string>,
                       read: string -> Option<Metadata>, time: string -> int)
    ensures var books := CategoryBooks(samplesDir, categoryName, EpubFiles(files), read);
            var list := CategoryList(samplesDir, categoryName, files, read, time);
            SortedBy(list, DateKey(time)) && multiset(list) == multiset(books)
            && forall k :: WithKey(list, DateKey(time), k) == WithKey(books, DateKey(time), k)
  {
    var books := CategoryBooks(samplesDir, categoryName, EpubFiles(files), read);
    forall k ensures WithKey(SortBy(books, DateKey(time)), DateKey(time), k) == WithKey(books, DateKey(time), k) {
      SortByStable(books, DateKey(time), k);
    }
  }

  /**
   * A record with a missing or empty `modified` date sorts after every
   * record whose date is earlier than the `9999-12-31` default.
   */
  lemma UndatedLast(samplesDir: string, categoryName: string, files: seq<string>,
                    read: string -> Option<Metadata>, time: string -> int, i: nat, j: nat)
    requires i < |CategoryList(samplesDir, categoryName, files, read, time)|
    requires j < |CategoryList(samplesDir, categoryName, files, read, time)|
    requires CategoryList(samplesDir, categoryName, files, read, time)[i].metadata.modified in {None, Some("")}
    requires time(SortDate(CategoryList(samplesDir, categoryName, files, read, time)[j])) < time("9999-12-31")
    ensures j < i
  {
    var list := CategoryList(samplesDir, categoryName, files, read, time);
    assert SortDate(list[i]) == "9999-12-31";
    assert SortedBy(list, DateKey(time));
  }

  /** Every record comes from a `.epub` file of its category whose metadata could be read, with the normalised path. */
  lemma {:induction false} BooksSound(samplesDir: string, categoryName: string, files: seq<string>,
                                      read: string -> Option<Metadata>, book: Book)
    requires book in CategoryBooks(samplesDir, categoryName, files, read)
    ensures exists f :: f in files && BookFor(samplesDir, categoryName, f, read) == Some(book)
    ensures book.category == categoryName && '\\' !in book.relativePath
    decreases |files|
  {
    var init := files[..|files| - 1];
    var last := files[|files| - 1];
    if book in CategoryBooks(samplesDir, categoryName, init, read) {
      BooksSound(samplesDir, categoryName, init, read, book);
      var f :| f in init && BookFor(samplesDir, categoryName, f, read) == Some(book);
      assert f in files;
    } else {
      assert BookFor(samplesDir, categoryName, last, read) == Some(book);
    }
  }

  /** Every file whose metadata can be read has its record in the category. */
  lemma {:induction false} BooksComplete(samplesDir: string, categoryName: string, files: seq<string>,
                                         read: string -> Option<Metadata>, f: string)
    requires f in files && BookFor(samplesDir, categoryName, f, read).Some?
    ensures BookFor(samplesDir, categoryName, f, read).value in CategoryBooks(samplesDir, categoryName, files, read)
    decreases |files|
  {
    var init := files[..|files| - 1];
    var last := files[|files| - 1];
    var tail := match BookFor(samplesDir, categoryName, last, read) case None => [] case Some(book) => [book];
    assert CategoryBooks(samplesDir, categoryName, files, read) == CategoryBooks(samplesDir, categoryName, init, read) + tail;
    if f != last {
      assert files == init + [last];
      BooksComplete(samplesDir, categoryName, init, read, f);
    } else {
      assert tail == [BookFor(samplesDir, categoryName, f, read).value];
    }
  }
}
