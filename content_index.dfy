/** scripts/generate-content-indexes.mjs: every Markdown file of a
    collection and language becomes an entry record; published entries must
    be complete, drafts may not be; the entries kept are sorted newest first
    and written as that directory's index. Reading directories and files,
    the front-matter parser, normalizeDate (which wraps the Date
    constructor), writing the JSON files and the console are outside the
    model: a file arrives as the outcome of reading and parsing it, and
    normalizeDate and the date parser of the sort are arguments. */
module ContentIndex {
  import opened Wrappers
  import opened Text
  import opened Values
  import opened DateOrder
  import opened Seqs

  // ---------------------------------------------------------------------
  // Field normalisation.

  /** safeString: null and undefined become "", anything else String(value). */
  function SafeString(v: Option<Value>): (r: string)
    ensures v.None? || v == Some(Null) ==> r == ""
    ensures v.Some? && v.value.Str? ==> r == v.value.s
    ensures v.Some? && !v.value.Null? ==> r == ToJsString(v.value)
  {
    if v.None? || v.value.Null? then "" else ToJsString(v.value)
  }

  /** A value other than null and undefined: what `??` keeps. */
  predicate Defined(v: Option<Value>) {
    v.Some? && !v.value.Null?
  }

  /** safeString(v).trim() || fallback. */
  function TextOr(v: Option<Value>, fallback: string): (r: string)
    ensures Trim(SafeString(v)) != "" ==> r == Trim(SafeString(v))
    ensures Trim(SafeString(v)) == "" ==> r == fallback
    ensures !Defined(v) ==> r == fallback
  {
    EmptyIsTrimmed();
    var raw := Trim(SafeString(v));
    if raw != "" then raw else fallback
  }

  lemma EmptyIsTrimmed()
    ensures Trim("") == ""
  {
    assert TrimStart("") == "";
  }

  /** normalizeId: the first of id, content_id and translation_id that is
      neither null nor undefined, trimmed; the file name when that is blank.
      A defined but blank id gives the file name: it does not fall through to
      content_id. */
  function NormalizeId(data: map<string, Value>, filenameSlug: string): (r: string)
    ensures r == filenameSlug || (r != "" && IsTrimmed(r))
    ensures Defined(Get(data, "id")) ==> r == TextOr(Get(data, "id"), filenameSlug)
    ensures !Defined(Get(data, "id")) && Defined(Get(data, "content_id")) ==> r == TextOr(Get(data, "content_id"), filenameSlug)
    ensures !Defined(Get(data, "id")) && !Defined(Get(data, "content_id")) ==> r == TextOr(Get(data, "translation_id"), filenameSlug)
    ensures !Defined(Get(data, "id")) && !Defined(Get(data, "content_id")) && !Defined(Get(data, "translation_id")) ==> r == filenameSlug
  {
    var id := Coalesce(Coalesce(Get(data, "id"), Get(data, "content_id")), Get(data, "translation_id"));
    TextOr(id, filenameSlug)
  }

  /** A defined id decides alone: dropping content_id and translation_id
      from the front matter changes nothing. */
  lemma IdDecidesAlone(data: map<string, Value>, filenameSlug: string)
    requires Defined(Get(data, "id"))
    ensures NormalizeId(data, filenameSlug) == NormalizeId(map["id" := data["id"]], filenameSlug)
  {
    var only := map["id" := data["id"]];
    assert Get(only, "id") == Get(data, "id");
  }

  /** normalizeSlug: the trimmed slug, or the file name when that is blank. */
  function NormalizeSlug(data: map<string, Value>, filenameSlug: string): (r: string)
    ensures r == filenameSlug || (r != "" && IsTrimmed(r))
    ensures Trim(SafeString(Get(data, "slug"))) != "" ==> r == Trim(SafeString(Get(data, "slug")))
    ensures Trim(SafeString(Get(data, "slug"))) == "" ==> r == filenameSlug
  {
    var raw := Trim(SafeString(Get(data, "slug")));
    if raw != "" then raw else filenameSlug
  }

  /** What one element of an images array names: a string itself, or the
      image property of an object when it is a string, else its url property
      when that is; "" for anything else. */
  function ImageText(item: Value): (r: string)
    ensures item.Str? ==> r == item.s
    ensures item.Obj? && "image" in item.fields && item.fields["image"].Str? ==> r == item.fields["image"].s
    ensures item.Obj? && !("image" in item.fields && item.fields["image"].Str?) && "url" in item.fields && item.fields["url"].Str?
      ==> r == item.fields["url"].s
    ensures item.Obj? && !("image" in item.fields && item.fields["image"].Str?) && !("url" in item.fields && item.fields["url"].Str?)
      ==> r == ""
    ensures !item.Str? && !item.Obj? ==> r == ""
  {
    match item
    case Str(s) => s
    case Obj(fields) =>
      if "image" in fields && fields["image"].Str? then fields["image"].s
      else if "url" in fields && fields["url"].Str? then fields["url"].s
      else ""
    case _ => ""
  }

  /** normalizeImages: a falsy value or one that is not an array gives no
      images; an array (always truthy, even when empty) gives the trimmed
      image of each element, in order, the empty ones dropped. */
  function NormalizeImages(images: Option<Value>): (r: seq<string>)
    ensures forall i :: 0 <= i < |r| ==> r[i] != "" && IsTrimmed(r[i])
    ensures images.Some? && images.value.Arr? ==> r == ImageList(images.value.items)
    ensures images.None? || !images.value.Arr? ==> r == []
  {
    if !Present(images) then []
    else match images.value
      case Arr(items) => ImageListTrimmed(items); ImageList(items)
      case _ => []
  }

  /** The second map: safeString(v).trim(). */
  function TrimmedText(v: string): string {
    Trim(SafeString(Some(Str(v))))
  }

  lemma TrimmedTextIsTrim(v: string)
    ensures TrimmedText(v) == Trim(v)
  {
  }

  /** The filter(Boolean) test on a string. */
  function NonEmpty(v: string): bool {
    v != ""
  }

  /** The map, map and filter chain over the elements. */
  function ImageList(items: seq<Value>): seq<string> {
    Filter(Map(Map(items, ImageText), TrimmedText), NonEmpty)
  }

  /** Every image kept is trimmed and non-empty. */
  lemma ImageListTrimmed(items: seq<Value>)
    ensures forall i :: 0 <= i < |ImageList(items)| ==> ImageList(items)[i] != "" && IsTrimmed(ImageList(items)[i])
  {
    var m := Map(Map(items, ImageText), TrimmedText);
    forall i | 0 <= i < |m|
      ensures IsTrimmed(m[i])
    {
      MapIndex(Map(items, ImageText), TrimmedText, i);
    }
  }

  /** One element gives its trimmed image text, or nothing when that is
      blank. */
  lemma ImageListSingle(x: Value)
    ensures ImageList([x]) == if Trim(ImageText(x)) != "" then [Trim(ImageText(x))] else []
  {
    MapSingle(x, ImageText);
    MapSingle(ImageText(x), TrimmedText);
    TrimmedTextIsTrim(ImageText(x));
    FilterSingle(Trim(ImageText(x)), NonEmpty);
  }

  /** The chain keeps the order of the elements. */
  lemma ImageListAppend(a: seq<Value>, b: seq<Value>)
    ensures ImageList(a + b) == ImageList(a) + ImageList(b)
  {
    MapAppend(a, b, ImageText);
    MapAppend(Map(a, ImageText), Map(b, ImageText), TrimmedText);
    FilterAppend(Map(Map(a, ImageText), TrimmedText), Map(Map(b, ImageText), TrimmedText), NonEmpty);
  }

  /** The status: the status field unless it is falsy, trimmed, and "draft"
      when nothing is left. */
  function NormalizeStatus(data: map<string, Value>): (r: string)
    ensures r != ""
    ensures !Present(Get(data, "status")) ==> r == "draft"
    ensures Present(Get(data, "status")) && Trim(SafeString(Get(data, "status"))) != "" ==> r == Trim(SafeString(Get(data, "status")))
    ensures Present(Get(data, "status")) && Trim(SafeString(Get(data, "status"))) == "" ==> r == "draft"
  {
    DraftIsTrimmed();
    var raw := Trim(SafeString(Or(Get(data, "status"), Some(Str("draft")))));
    if raw != "" then raw else "draft"
  }

  lemma DraftIsTrimmed()
    ensures Trim("draft") == "draft"
  {
    assert TrimStart("draft") == "draft" by {
      assert !IsJsSpace("draft"[0]);
    }
    assert TrimEnd("draft") == "draft" by {
      assert !IsJsSpace("draft"[4]);
    }
  }

  // ---------------------------------------------------------------------
  // Entries.

  datatype Details =
    | Post(excerpt: string, bodyMarkdown: string)
    | Album(description: string, images: seq<string>)

  datatype Entry = Entry(
    id: string, title: string, date: string, lang: string, status: string,
    slug: string, coverImage: string, details: Details)

  /** The record parseMarkdownEntry returns for an already parsed file: its
      front-matter data and its body text. */
  function BuildEntry(data: map<string, Value>, content: string, filenameSlug: string, lang: string,
                      collection: string, normalizeDate: Option<Value> -> string): (e: Entry)
    ensures e.lang == lang && e.status != ""
    ensures e.details.Album? <==> collection == "gallery"
    ensures e.id == NormalizeId(data, filenameSlug) && e.slug == NormalizeSlug(data, filenameSlug)
    ensures e.status == NormalizeStatus(data)
    ensures e.details.Album? ==> e.details.images == NormalizeImages(Get(data, "images"))
    ensures e.title == Trim(SafeString(Get(data, "title")))
    ensures e.date == normalizeDate(Get(data, "date"))
    ensures e.coverImage == Trim(SafeString(Get(data, "cover_image")))
    ensures e.details.Album? ==> e.details.description == Trim(SafeString(Get(data, "description")))
    ensures e.details.Post? ==> e.details.excerpt == Trim(SafeString(Get(data, "excerpt")))
    ensures e.details.Post? && Trim(content) != "" ==> e.details.bodyMarkdown == Trim(content)
    ensures e.details.Post? && Trim(content) == "" ==>
      e.details.bodyMarkdown == Trim(SafeString(Or(Get(data, "body_markdown"), Get(data, "body"))))
  {
    var body := Trim(content);
    var coverImage := Trim(SafeString(Get(data, "cover_image")));
    var details :=
      if collection == "gallery" then
        Album(Trim(SafeString(Get(data, "description"))), NormalizeImages(Get(data, "images")))
      else
        Post(Trim(SafeString(Get(data, "excerpt"))),
             if body != "" then body else Trim(SafeString(Or(Get(data, "body_markdown"), Get(data, "body")))));
    Entry(NormalizeId(data, filenameSlug), Trim(SafeString(Get(data, "title"))), normalizeDate(Get(data, "date")),
          lang, NormalizeStatus(data), NormalizeSlug(data, filenameSlug), coverImage, details)
  }

  // ---------------------------------------------------------------------
  // Validation.

  datatype Field = Title | Date | Slug | CoverImage | Description | Images | Excerpt | BodyMarkdown

  /** The message validateEntry pushes for a missing field. */
  function Message(f: Field): string {
    match f
    case Title => "missing title"
    case Date => "missing date"
    case Slug => "missing slug"
    case CoverImage => "missing cover_image"
    case Description => "missing description"
    case Images => "missing images"
    case Excerpt => "missing excerpt"
    case BodyMarkdown => "missing body_markdown"
  }

  /** The fields a published entry must have, in the order they are checked. */
  function RequiredFields(collection: string): seq<Field> {
    if collection == "gallery" then [Title, Date, Slug, CoverImage, Description, Images]
    else [Title, Date, Slug, CoverImage, Excerpt, BodyMarkdown]
  }

  /** A field the entry lacks: an empty string, no images, or a field the
      record of this kind does not have (undefined). */
  predicate Blank(e: Entry, f: Field) {
    match f
    case Title => e.title == ""
    case Date => e.date == ""
    case Slug => e.slug == ""
    case CoverImage => e.coverImage == ""
    case Description => !e.details.Album? || e.details.description == ""
    case Images => !e.details.Album? || |e.details.images| == 0
    case Excerpt => !e.details.Post? || e.details.excerpt == ""
    case BodyMarkdown => !e.details.Post? || e.details.bodyMarkdown == ""
  }

  /** The message for field f, if it is blank. */
  function Msg(e: Entry, f: Field): seq<string> {
    if Blank(e, f) then [Message(f)] else []
  }

  /** One message per blank field of fs, in the order of fs. */
  function MissingOf(e: Entry, fs: seq<Field>): (r: seq<string>)
    ensures |r| <= |fs|
  {
    if fs == [] then [] else MissingOf(e, fs[..|fs| - 1]) + Msg(e, fs[|fs| - 1])
  }

  predicate Complete(e: Entry, collection: string) {
    forall i :: 0 <= i < |RequiredFields(collection)| ==> !Blank(e, RequiredFields(collection)[i])
  }

  /** One statement `if (missing) errors.push(message)` of validateEntry. */
  method PushIf(errors: seq<string>, missing: bool, message: string) returns (r: seq<string>)
    ensures missing ==> r == errors + [message]
    ensures !missing ==> r == errors
  {
    r := errors;
    if missing {
      r := r + [message];
    }
  }

  /** validateEntry: one message per missing field, in a fixed order. */
  method ValidateEntry(e: Entry, collection: string) returns (errors: seq<string>)
    ensures errors == MissingOf(e, RequiredFields(collection))
  {
    ghost var before: seq<string> := [];
    errors := PushIf([], e.title == "", Message(Title));
    Pushed(e, Title, before, errors);
    before := errors;
    errors := PushIf(errors, e.date == "", Message(Date));
    Pushed(e, Date, before, errors);
    before := errors;
    errors := PushIf(errors, e.slug == "", Message(Slug));
    Pushed(e, Slug, before, errors);
    before := errors;
    if collection == "gallery" {
      errors := PushIf(errors, e.coverImage == "", Message(CoverImage));
      Pushed(e, CoverImage, before, errors);
      before := errors;
      errors := PushIf(errors, !e.details.Album? || e.details.description == "", Message(Description));
      Pushed(e, Description, before, errors);
      before := errors;
      errors := PushIf(errors, !e.details.Album? || |e.details.images| == 0, Message(Images));
      Pushed(e, Images, before, errors);
      GalleryMessages(e, collection);
    } else {
      errors := PushIf(errors, e.coverImage == "", Message(CoverImage));
      Pushed(e, CoverImage, before, errors);
      before := errors;
      errors := PushIf(errors, !e.details.Post? || e.details.excerpt == "", Message(Excerpt));
      Pushed(e, Excerpt, before, errors);
      before := errors;
      errors := PushIf(errors, !e.details.Post? || e.details.bodyMarkdown == "", Message(BodyMarkdown));
      Pushed(e, BodyMarkdown, before, errors);
      PostMessages(e, collection);
    }
  }

  /** One push of validateEntry adds the message of field f exactly when f
      is blank. */
  lemma Pushed(e: Entry, f: Field, before: seq<string>, after: seq<string>)
    requires Blank(e, f) ==> after == before + [Message(f)]
    requires !Blank(e, f) ==> after == before
    ensures after == before + Msg(e, f)
  {
  }

  lemma GalleryMessages(e: Entry, collection: string)
    requires collection == "gallery"
    ensures MissingOf(e, RequiredFields(collection))
      == [] + Msg(e, Title) + Msg(e, Date) + Msg(e, Slug) + Msg(e, CoverImage) + Msg(e, Description) + Msg(e, Images)
  {
    MissingOfSix(e, RequiredFields(collection));
  }

  lemma PostMessages(e: Entry, collection: string)
    requires collection != "gallery"
    ensures MissingOf(e, RequiredFields(collection))
      == [] + Msg(e, Title) + Msg(e, Date) + Msg(e, Slug) + Msg(e, CoverImage) + Msg(e, Excerpt) + Msg(e, BodyMarkdown)
  {
    MissingOfSix(e, RequiredFields(collection));
  }

  /** The messages for six fields, written out. */
  lemma MissingOfSix(e: Entry, fs: seq<Field>)
    requires |fs| == 6
    ensures MissingOf(e, fs) == [] + Msg(e, fs[0]) + Msg(e, fs[1]) + Msg(e, fs[2]) + Msg(e, fs[3]) + Msg(e, fs[4]) + Msg(e, fs[5])
  {
    assert MissingOf(e, fs[..0]) == [] by {
      assert fs[..0] == [];
    }
    MissingStep(e, fs, 0);
    MissingStep(e, fs, 1);
    MissingStep(e, fs, 2);
    MissingStep(e, fs, 3);
    MissingStep(e, fs, 4);
    MissingStep(e, fs, 5);
    assert fs[..6] == fs;
  }

  lemma MissingStep(e: Entry, fs: seq<Field>, k: nat)
    requires k < |fs|
    ensures MissingOf(e, fs[..k + 1]) == MissingOf(e, fs[..k]) + Msg(e, fs[k])
  {
    assert fs[..k + 1][..k] == fs[..k];
  }

  /** validateEntry reports nothing exactly when no field of fs is blank. */
  lemma {:induction false} MissingEmptyIff(e: Entry, fs: seq<Field>)
    ensures MissingOf(e, fs) == [] <==> forall i :: 0 <= i < |fs| ==> !Blank(e, fs[i])
  {
    if fs != [] {
      var init := fs[..|fs| - 1];
      MissingEmptyIff(e, init);
      assert forall i :: 0 <= i < |init| ==> init[i] == fs[i];
    }
  }

  /** Every blank field of fs has its message among the reported ones, and
      every reported message is that of a blank field of fs. */
  lemma {:induction false} MissingNamesBlank(e: Entry, fs: seq<Field>)
    ensures forall i :: 0 <= i < |fs| && Blank(e, fs[i]) ==> Message(fs[i]) in MissingOf(e, fs)
    ensures forall m :: m in MissingOf(e, fs) ==> exists i :: 0 <= i < |fs| && Blank(e, fs[i]) && m == Message(fs[i])
  {
    if fs != [] {
      var init := fs[..|fs| - 1];
      MissingNamesBlank(e, init);
      assert forall i :: 0 <= i < |init| ==> init[i] == fs[i];
    }
  }

  /** validateEntry finds nothing exactly when the entry is complete; a
      gallery entry without images is never complete. */
  lemma ValidIffComplete(e: Entry, collection: string)
    ensures MissingOf(e, RequiredFields(collection)) == [] <==> Complete(e, collection)
    ensures collection == "gallery" && (!e.details.Album? || e.details.images == []) ==> !Complete(e, collection)
  {
    MissingEmptyIff(e, RequiredFields(collection));
    if collection == "gallery" {
      assert RequiredFields(collection)[5] == Images;
    }
  }

  // ---------------------------------------------------------------------
  // One directory of the run loop.

  /** What reading a Markdown file and running the front-matter parser on it
      gives: the error readFile throws, the error matter throws, or the parsed
      data (already `parsed.data || {}`) and content (already
      `parsed.content || ""`). */
  datatype Matter =
    | ReadFailed(readError: string)
    | MatterFailed(matterError: string)
    | Matter(data: map<string, Value>, content: string)

  /** A file of a directory listing: its path, its name without the
      extension (path.basename), and what reading it gives. */
  datatype SourceFile = SourceFile(filePath: string, filenameSlug: string, matter: Matter)

  type DateNormalizer = Option<Value> -> string

  /** A Markdown file of the directory after reading and parsing it: the
      entry, or the message of the error that was thrown. */
  datatype ParsedFile = ParsedFile(filePath: string, outcome: Result<Entry, string>)

  /** parseMarkdownEntry inside the try block of run: the entry built from
      the front matter, or the message of the error caught. */
  function ParseMarkdownEntry(f: SourceFile, lang: string, collection: string, normalizeDate: DateNormalizer): (p: ParsedFile)
    ensures p.filePath == f.filePath
    ensures f.matter.ReadFailed? ==> p.outcome == Failure(f.matter.readError)
    ensures f.matter.MatterFailed? ==> p.outcome == Failure("Frontmatter parse failed for " + f.filePath + ": " + f.matter.matterError)
    ensures f.matter.Matter? ==> p.outcome == Success(BuildEntry(f.matter.data, f.matter.content, f.filenameSlug, lang, collection, normalizeDate))
  {
    match f.matter
    case ReadFailed(e) => ParsedFile(f.filePath, Failure(e))
    case MatterFailed(e) => ParsedFile(f.filePath, Failure("Frontmatter parse failed for " + f.filePath + ": " + e))
    case Matter(data, content) =>
      ParsedFile(f.filePath, Success(BuildEntry(data, content, f.filenameSlug, lang, collection, normalizeDate)))
  }

  /** Every file of a directory, parsed, in listing order. */
  function ParseAll(files: seq<SourceFile>, lang: string, collection: string, normalizeDate: DateNormalizer): (r: seq<ParsedFile>)
    ensures |r| == |files|
  {
    if files == [] then []
    else ParseAll(files[..|files| - 1], lang, collection, normalizeDate) + [ParseMarkdownEntry(files[|files| - 1], lang, collection, normalizeDate)]
  }

  lemma ParseAllStep(files: seq<SourceFile>, i: nat, lang: string, collection: string, normalizeDate: DateNormalizer)
    requires i < |files|
    ensures ParseAll(files[..i + 1], lang, collection, normalizeDate)
      == ParseAll(files[..i], lang, collection, normalizeDate) + [ParseMarkdownEntry(files[i], lang, collection, normalizeDate)]
  {
    assert files[..i + 1][..i] == files[..i];
  }

  /** The decision for one file read: a draft is kept, a published entry
      is kept when it validates. */
  predicate Keeps(f: ParsedFile, collection: string) {
    f.outcome.Success? && (f.outcome.value.status != "published" || MissingOf(f.outcome.value, RequiredFields(collection)) == [])
  }

  /** The failure line one file contributes: the message of the error that
      was thrown, "path: errors" for a published entry that does not
      validate, nothing for a kept entry. */
  function FailureLine(f: ParsedFile, collection: string): (r: seq<string>)
    ensures |r| == if Keeps(f, collection) then 0 else 1
  {
    if f.outcome.Failure? then [f.outcome.error]
    else if f.outcome.value.status == "published" && MissingOf(f.outcome.value, RequiredFields(collection)) != []
    then [f.filePath + ": " + Join(MissingOf(f.outcome.value, RequiredFields(collection)), ", ")]
    else []
  }

  /** The entries kept, in file order. */
  function Kept(files: seq<ParsedFile>, collection: string): (r: seq<Entry>)
    ensures |r| <= |files|
  {
    if files == [] then []
    else
      var f := files[|files| - 1];
      Kept(files[..|files| - 1], collection) + (if Keeps(f, collection) then [f.outcome.value] else [])
  }

  /** The failure lines, in file order. */
  function Failures(files: seq<ParsedFile>, collection: string): seq<string> {
    if files == [] then []
    else Failures(files[..|files| - 1], collection) + FailureLine(files[|files| - 1], collection)
  }

  /** The comparator of entries.sort, over the two parsed dates. */
  function IndexCompare(parseDate: string -> Option<int>, a: Entry, b: Entry): int {
    var da := parseDate(a.date);
    var db := parseDate(b.date);
    if da.Some? && db.Some? then db.value - da.value
    else if da.Some? then -1
    else if db.Some? then 1
    else 0
  }

  function EntryDate(parseDate: string -> Option<int>): Entry -> Option<int> {
    (e: Entry) => parseDate(e.date)
  }

  /** The build script orders entries as the site's loader orders items. */
  lemma SameOrderAsLoader(parseDate: string -> Option<int>, a: Entry, b: Entry)
    ensures IndexCompare(parseDate, a, b) == Compare(EntryDate(parseDate)(a), EntryDate(parseDate)(b))
    ensures IndexCompare(parseDate, a, b) == 0 <==> parseDate(a.date) == parseDate(b.date)
  {
  }

  /** The body of the inner loop of run for one directory, with the sort
      that follows it. */
  method IndexDirectory(files: seq<SourceFile>, lang: string, collection: string,
                        normalizeDate: DateNormalizer, parseDate: string -> Option<int>)
    returns (entries: seq<Entry>, failures: seq<string>)
    ensures entries == Sort(Kept(ParseAll(files, lang, collection, normalizeDate), collection), EntryDate(parseDate))
    ensures failures == Failures(ParseAll(files, lang, collection, normalizeDate), collection)
  {
    entries := [];
    failures := [];
    var i := 0;
    while i < |files|
      invariant 0 <= i <= |files|
      invariant entries == Kept(ParseAll(files[..i], lang, collection, normalizeDate), collection)
      invariant failures == Failures(ParseAll(files[..i], lang, collection, normalizeDate), collection)
    {
      var file := ParseMarkdownEntry(files[i], lang, collection, normalizeDate);
      ParseAllStep(files, i, lang, collection, normalizeDate);
      KeptSnoc(ParseAll(files[..i], lang, collection, normalizeDate), file, collection);
      if file.outcome.Failure? {
        failures := failures + [file.outcome.error];
      } else {
        var entry := file.outcome.value;
        var isPublished := entry.status == "published";
        var skip := false;
        if isPublished {
          var errs := ValidateEntry(entry, collection);
          if |errs| > 0 {
            failures := failures + [file.filePath + ": " + Join(errs, ", ")];
            skip := true;
          }
        }
        if !skip {
          entries := entries + [entry];
        }
      }
      i := i + 1;
    }
    PrefixAll(files);
    entries := Sort(entries, EntryDate(parseDate));
  }

  /** One more file: its entry, if kept, and its failure line come after
      those of the files before it. */
  lemma KeptSnoc(ps: seq<ParsedFile>, f: ParsedFile, collection: string)
    ensures Kept(ps + [f], collection) == Kept(ps, collection) + (if Keeps(f, collection) then [f.outcome.value] else [])
    ensures Failures(ps + [f], collection) == Failures(ps, collection) + FailureLine(f, collection)
  {
    assert (ps + [f])[..|ps|] == ps;
  }

  /** Every entry kept in a directory is the record built for that
      directory: its language, and the gallery shape exactly in the gallery. */
  lemma {:induction false} DirectoryEntriesShaped(files: seq<SourceFile>, lang: string, collection: string, normalizeDate: DateNormalizer)
    ensures forall e :: e in Kept(ParseAll(files, lang, collection, normalizeDate), collection) ==>
      e.lang == lang && (e.details.Album? <==> collection == "gallery") && e.status != ""
  {
    if files != [] {
      var init := files[..|files| - 1];
      var f := ParseMarkdownEntry(files[|files| - 1], lang, collection, normalizeDate);
      DirectoryEntriesShaped(init, lang, collection, normalizeDate);
      KeptSnoc(ParseAll(init, lang, collection, normalizeDate), f, collection);
    }
  }

  /** Every file lands in exactly one place: kept or reported. */
  lemma {:induction false} KeptOrReported(files: seq<ParsedFile>, collection: string)
    ensures |Kept(files, collection)| + |Failures(files, collection)| == |files|
  {
    if files != [] {
      KeptOrReported(files[..|files| - 1], collection);
    }
  }

  /** Drafts that were read are always kept. */
  lemma {:induction false} DraftsKept(files: seq<ParsedFile>, collection: string)
    ensures forall i :: 0 <= i < |files| && files[i].outcome.Success? && files[i].outcome.value.status != "published" ==>
        files[i].outcome.value in Kept(files, collection)
  {
    if files != [] {
      var init := files[..|files| - 1];
      DraftsKept(init, collection);
      assert forall i :: 0 <= i < |init| ==> init[i] == files[i];
    }
  }

  /** A kept published entry is complete. */
  lemma {:induction false} KeptPublishedComplete(files: seq<ParsedFile>, collection: string)
    ensures forall i :: 0 <= i < |Kept(files, collection)| && Kept(files, collection)[i].status == "published" ==>
        Complete(Kept(files, collection)[i], collection)
  {
    if files != [] {
      var init := files[..|files| - 1];
      KeptPublishedComplete(init, collection);
      var f := files[|files| - 1];
      if f.outcome.Success? {
        ValidIffComplete(f.outcome.value, collection);
      }
    }
  }

  /** The entries of a directory index: the kept ones, each as often, newest
      first, entries with the same date in file order. */
  lemma DirectoryIndexOrdered(files: seq<ParsedFile>, collection: string, parseDate: string -> Option<int>)
    ensures multiset(Sort(Kept(files, collection), EntryDate(parseDate))) == multiset(Kept(files, collection))
    ensures Sorted(Sort(Kept(files, collection), EntryDate(parseDate)), EntryDate(parseDate))
    ensures forall k ::
      Filter(Sort(Kept(files, collection), EntryDate(parseDate)), HasKey(EntryDate(parseDate), k))
        == Filter(Kept(files, collection), HasKey(EntryDate(parseDate), k))
  {
    forall k
      ensures Filter(Sort(Kept(files, collection), EntryDate(parseDate)), HasKey(EntryDate(parseDate), k))
        == Filter(Kept(files, collection), HasKey(EntryDate(parseDate), k))
    {
      SortStable(Kept(files, collection), EntryDate(parseDate), k);
    }
    SortPermutes(Kept(files, collection), EntryDate(parseDate));
    SortSorted(Kept(files, collection), EntryDate(parseDate));
  }

  // ---------------------------------------------------------------------
  // The run loop over every collection and language.

  datatype Collection = Collection(name: string, kind: string)

  const Langs: seq<string> := ["en", "es", "ko", "ja"]
  const Collections: seq<Collection> := [Collection("blog", "posts"), Collection("news", "posts"), Collection("gallery", "albums")]

  /** The content of one index.json: { [kind]: entries }, for the directory
      content/collection/lang. */
  datatype Index = Index(collection: string, lang: string, kind: string, entries: seq<Entry>)

  /** The Markdown files of content/collection/lang, in listing order. */
  type Listing = (string, string) -> seq<SourceFile>

  function DirIndex(c: Collection, lang: string, listing: Listing, normalizeDate: DateNormalizer, parseDate: string -> Option<int>): Index {
    Index(c.name, lang, c.kind, Sort(Kept(ParseAll(listing(c.name, lang), lang, c.name, normalizeDate), c.name), EntryDate(parseDate)))
  }

  function DirFailures(c: Collection, lang: string, listing: Listing, normalizeDate: DateNormalizer): seq<string> {
    Failures(ParseAll(listing(c.name, lang), lang, c.name, normalizeDate), c.name)
  }

  /** Every entry of a directory's index is in that directory's language and
      of the shape its collection asks for. */
  lemma IndexEntriesShaped(c: Collection, lang: string, listing: Listing, normalizeDate: DateNormalizer, parseDate: string -> Option<int>)
    ensures forall e :: e in DirIndex(c, lang, listing, normalizeDate, parseDate).entries ==>
      e.lang == lang && (e.details.Album? <==> c.name == "gallery")
  {
    var kept := Kept(ParseAll(listing(c.name, lang), lang, c.name, normalizeDate), c.name);
    DirectoryEntriesShaped(listing(c.name, lang), lang, c.name, normalizeDate);
    SortPermutes(kept, EntryDate(parseDate));
    forall e | e in DirIndex(c, lang, listing, normalizeDate, parseDate).entries
      ensures e in kept
    {
      assert e in multiset(Sort(kept, EntryDate(parseDate)));
    }
  }

  function LangIndexes(c: Collection, langs: seq<string>, listing: Listing, normalizeDate: DateNormalizer, parseDate: string -> Option<int>): (r: seq<Index>)
    ensures |r| == |langs|
  {
    if langs == [] then []
    else LangIndexes(c, langs[..|langs| - 1], listing, normalizeDate, parseDate) + [DirIndex(c, langs[|langs| - 1], listing, normalizeDate, parseDate)]
  }

  function LangFailures(c: Collection, langs: seq<string>, listing: Listing, normalizeDate: DateNormalizer): seq<string> {
    if langs == [] then []
    else LangFailures(c, langs[..|langs| - 1], listing, normalizeDate) + DirFailures(c, langs[|langs| - 1], listing, normalizeDate)
  }

  function AllIndexes(cs: seq<Collection>, listing: Listing, normalizeDate: DateNormalizer, parseDate: string -> Option<int>): (r: seq<Index>)
    ensures |r| == |cs| * |Langs|
  {
    if cs == [] then []
    else AllIndexes(cs[..|cs| - 1], listing, normalizeDate, parseDate) + LangIndexes(cs[|cs| - 1], Langs, listing, normalizeDate, parseDate)
  }

  function AllFailures(cs: seq<Collection>, listing: Listing, normalizeDate: DateNormalizer): seq<string> {
    if cs == [] then []
    else AllFailures(cs[..|cs| - 1], listing, normalizeDate) + LangFailures(cs[|cs| - 1], Langs, listing, normalizeDate)
  }

  /** The inner loop of run: the directories of one collection, language
      by language. */
  method IndexCollection(c: Collection, listing: Listing, normalizeDate: DateNormalizer, parseDate: string -> Option<int>)
    returns (indexes: seq<Index>, failures: seq<string>)
    ensures indexes == LangIndexes(c, Langs, listing, normalizeDate, parseDate)
    ensures failures == LangFailures(c, Langs, listing, normalizeDate)
  {
    indexes := [];
    failures := [];
    var li := 0;
    while li < |Langs|
      invariant 0 <= li <= |Langs|
      invariant indexes == LangIndexes(c, Langs[..li], listing, normalizeDate, parseDate)
      invariant failures == LangFailures(c, Langs[..li], listing, normalizeDate)
    {
      var lang := Langs[li];
      var entries, failed := IndexDirectory(listing(c.name, lang), lang, c.name, normalizeDate, parseDate);
      LangStep(c, Langs, li, listing, normalizeDate, parseDate);
      indexes := indexes + [Index(c.name, lang, c.kind, entries)];
      failures := failures + failed;
      li := li + 1;
    }
    PrefixAll(Langs);
  }

  /** run: one index per collection and language, all failures gathered
      across directories, and exit status 1 when there is any. */
  method Run(listing: Listing, normalizeDate: DateNormalizer, parseDate: string -> Option<int>)
    returns (indexes: seq<Index>, failures: seq<string>, exitCode: int)
    ensures indexes == AllIndexes(Collections, listing, normalizeDate, parseDate)
    ensures failures == AllFailures(Collections, listing, normalizeDate)
    ensures |indexes| == 12
    ensures exitCode == 1 <==> failures != []
    ensures exitCode == 0 <==> failures == []
  {
    indexes := [];
    failures := [];
    var ci := 0;
    while ci < |Collections|
      invariant 0 <= ci <= |Collections|
      invariant indexes == AllIndexes(Collections[..ci], listing, normalizeDate, parseDate)
      invariant failures == AllFailures(Collections[..ci], listing, normalizeDate)
    {
      var dirIndexes, dirFailures := IndexCollection(Collections[ci], listing, normalizeDate, parseDate);
      CollectionStep(Collections, ci, listing, normalizeDate, parseDate);
      indexes := indexes + dirIndexes;
      failures := failures + dirFailures;
      ci := ci + 1;
    }
    PrefixAll(Collections);
    exitCode := if |failures| > 0 then 1 else 0;
  }

  lemma LangStep(c: Collection, langs: seq<string>, k: nat, listing: Listing, normalizeDate: DateNormalizer, parseDate: string -> Option<int>)
    requires k < |langs|
    ensures LangIndexes(c, langs[..k + 1], listing, normalizeDate, parseDate)
      == LangIndexes(c, langs[..k], listing, normalizeDate, parseDate) + [DirIndex(c, langs[k], listing, normalizeDate, parseDate)]
    ensures LangFailures(c, langs[..k + 1], listing, normalizeDate)
      == LangFailures(c, langs[..k], listing, normalizeDate) + DirFailures(c, langs[k], listing, normalizeDate)
  {
    assert langs[..k + 1][..k] == langs[..k];
  }

  lemma CollectionStep(cs: seq<Collection>, k: nat, listing: Listing, normalizeDate: DateNormalizer, parseDate: string -> Option<int>)
    requires k < |cs|
    ensures AllIndexes(cs[..k + 1], listing, normalizeDate, parseDate)
      == AllIndexes(cs[..k], listing, normalizeDate, parseDate) + LangIndexes(cs[k], Langs, listing, normalizeDate, parseDate)
    ensures AllFailures(cs[..k + 1], listing, normalizeDate) == AllFailures(cs[..k], listing, normalizeDate) + LangFailures(cs[k], Langs, listing, normalizeDate)
  {
    assert cs[..k + 1][..k] == cs[..k];
  }
}
