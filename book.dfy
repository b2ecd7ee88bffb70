/** The persisted Book record, its attribute constraints and its ToString layout. */
module Entities {
  import opened Wrappers
  import opened Text
  import opened Numbers
  import opened Dates
  import opened Guids
  import opened Annotations

  /** Book: Id is the document's `_id`; the other five fields are stored as they are. */
  datatype Book = Book(
    id: Guid,
    author: string,
    title: string,
    description: string,
    pageCount: Int32,
    publishDate: Date)

  /** The ErrorMessage given to every [Range] on PageCount. */
  const PAGE_COUNT_MESSAGE := "Page count must be greater than 0"

  /** [Required] [StringLength(100, MinimumLength = 1)] */
  predicate ValidAuthor(author: string) {
    !IsBlank(author) && 1 <= |author| <= 100
  }

  /** [Required] [StringLength(200, MinimumLength = 1)] */
  predicate ValidTitle(title: string) {
    !IsBlank(title) && 1 <= |title| <= 200
  }

  /** [StringLength(1000)] */
  predicate ValidDescription(description: string) {
    |description| <= 1000
  }

  /** [Range(1, int.MaxValue)] */
  predicate ValidPageCount(pageCount: int) {
    1 <= pageCount <= INT32_MAX
  }

  /** The attributes shared by Book and CreateBookDto, checked in declaration order:
      Author, Title, Description, PageCount (Id and PublishDate carry none). */
  function FieldViolations(author: string, title: string, description: string, pageCount: Int32): seq<Violation> {
    RequiredString("Author", author, 1, 100)
      + RequiredString("Title", title, 1, 200)
      + StringLength("Description", Some(description), 0, 1000)
      + Range("PageCount", Some(pageCount), 1, INT32_MAX, PAGE_COUNT_MESSAGE)
  }

  /** No attribute fails exactly when each field meets its rule, and each field that breaks
      its rule is reported, once. */
  lemma FieldViolationsByMember(author: string, title: string, description: string, pageCount: Int32)
    ensures FieldViolations(author, title, description, pageCount) == []
        <==> ValidAuthor(author) && ValidTitle(title) && ValidDescription(description) && ValidPageCount(pageCount)
    ensures var ms := Members(FieldViolations(author, title, description, pageCount));
      && ("Author" in ms <==> !ValidAuthor(author))
      && ("Title" in ms <==> !ValidTitle(title))
      && ("Description" in ms <==> !ValidDescription(description))
      && ("PageCount" in ms <==> !ValidPageCount(pageCount))
      && |ms| <= 4
  {
    var a := RequiredString("Author", author, 1, 100);
    var t := RequiredString("Title", title, 1, 200);
    var d := StringLength("Description", Some(description), 0, 1000);
    var p := Range("PageCount", Some(pageCount), 1, INT32_MAX, PAGE_COUNT_MESSAGE);
    RequiredStringMembers("Author", author, 1, 100);
    RequiredStringMembers("Title", title, 1, 200);
    StringLengthMembers("Description", Some(description), 0, 1000);
    RangeMembers("PageCount", Some(pageCount), 1, INT32_MAX, PAGE_COUNT_MESSAGE);
    MembersConcat(a, t);
    MembersConcat(a + t, d);
    MembersConcat(a + t + d, p);
    assert |"Author"| == 6 && |"Title"| == 5 && |"Description"| == 11 && |"PageCount"| == 9;
    FourReports("Author", ValidAuthor(author), "Title", ValidTitle(title),
                "Description", ValidDescription(description), "PageCount", ValidPageCount(pageCount));
  }

  function BookViolations(b: Book): seq<Violation> {
    FieldViolations(b.author, b.title, b.description, b.pageCount)
  }

  predicate IsValidBook(b: Book) {
    ValidAuthor(b.author) && ValidTitle(b.title) && ValidDescription(b.description) && ValidPageCount(b.pageCount)
  }

  /** Book.ToString(): six lines, the date as "yyyy-MM-dd". */
  function ToString(b: Book): string {
    ("Id: " + FormatGuid(b.id)) + "\n" + ("Author: " + b.author) + "\n" + ("Title: " + b.title) + "\n"
      + ("Description: " + b.description) + "\n" + ("PageCount: " + FormatInt(b.pageCount)) + "\n"
      + ("PublishDate: " + FormatDate(b.publishDate))
  }

  /** The six labelled lines of a book, in the order ToString writes them. */
  function Lines(b: Book): seq<string> {
    [ "Id: " + FormatGuid(b.id), "Author: " + b.author, "Title: " + b.title,
      "Description: " + b.description, "PageCount: " + FormatInt(b.pageCount),
      "PublishDate: " + FormatDate(b.publishDate) ]
  }

  lemma NoNewlineInDigits(s: string)
    requires AllDigits(s)
    ensures '\n' !in s
  {
    forall k | 0 <= k < |s| ensures s[k] != '\n' {
      assert IsDigit(s[k]);
    }
  }

  lemma NoNewlineInGuid(g: Guid)
    ensures '\n' !in FormatGuid(g)
  {
    HexRoundTrip(g[..8]);
    HexRoundTrip(g[8..12]);
    HexRoundTrip(g[12..16]);
    HexRoundTrip(g[16..20]);
    HexRoundTrip(g[20..]);
  }

  lemma NoNewlineInDate(d: Date)
    ensures '\n' !in FormatDate(d)
  {
    NoNewlineInDigits(PadDigits(d.year, 4));
    NoNewlineInDigits(PadDigits(d.month, 2));
    NoNewlineInDigits(PadDigits(d.day, 2));
  }

  lemma NoNewlineInInt(n: int)
    ensures '\n' !in FormatInt(n)
  {
    var m := if n < 0 then -n else n;
    NatToDigitsValue(m);
    NoNewlineInDigits(NatToDigits(m));
  }

  /** When Author, Title and Description hold no line break, ToString's text splits on '\n'
      into exactly the six labelled lines. */
  lemma ToStringLines(b: Book)
    requires '\n' !in b.author && '\n' !in b.title && '\n' !in b.description
    ensures Split(ToString(b), '\n') == Lines(b)
    ensures |Split(ToString(b), '\n')| == 6
  {
    var ls := Lines(b);
    LinesHaveNoNewline(b);
    LinesJoin(b);
    SplitJoin(ls, '\n');
  }

  lemma LinesHaveNoNewline(b: Book)
    requires '\n' !in b.author && '\n' !in b.title && '\n' !in b.description
    ensures forall k :: 0 <= k < |Lines(b)| ==> '\n' !in Lines(b)[k]
  {
    NoNewlineInGuid(b.id);
    NoNewlineInInt(b.pageCount);
    NoNewlineInDate(b.publishDate);
    Labelled("Id: ", FormatGuid(b.id));
    Labelled("Author: ", b.author);
    Labelled("Title: ", b.title);
    Labelled("Description: ", b.description);
    Labelled("PageCount: ", FormatInt(b.pageCount));
    Labelled("PublishDate: ", FormatDate(b.publishDate));
  }

  /** A label without a line break in front of a value without one. */
  lemma Labelled(caption: string, value: string)
    requires '\n' !in caption && '\n' !in value
    ensures '\n' !in caption + value
  {
  }

  lemma LinesJoin(b: Book)
    ensures Join("\n", Lines(b)) == ToString(b)
  {
    var ls := Lines(b);
    JoinSix("\n", ls[0], ls[1], ls[2], ls[3], ls[4], ls[5]);
    assert ls == [ls[0], ls[1], ls[2], ls[3], ls[4], ls[5]];
  }
}
