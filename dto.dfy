/** The transfer records CreateBookDto and UpdateBookDto with their attribute constraints. */
module Dto {
  import opened Wrappers
  import opened Text
  import opened Numbers
  import opened Dates
  import opened Annotations
  import opened Entities

  /** CreateBookDto: a Book without its Id. The record's defaults are "" for the strings
      and 0 for PageCount. */
  datatype CreateBookDto = CreateBookDto(
    author: string,
    title: string,
    description: string,
    pageCount: Int32,
    publishDate: Date)

  /** UpdateBookDto: Title is required, the other fields are null (None) unless supplied. */
  datatype UpdateBookDto = UpdateBookDto(
    title: string,
    author: Option<string>,
    description: Option<string>,
    pageCount: Option<Int32>,
    publishDate: Option<Date>)

  /** CreateBookDto carries the same attributes as Book on the same fields. */
  function CreateViolations(d: CreateBookDto): seq<Violation> {
    FieldViolations(d.author, d.title, d.description, d.pageCount)
  }

  predicate IsValidCreate(d: CreateBookDto) {
    ValidAuthor(d.author) && ValidTitle(d.title) && ValidDescription(d.description) && ValidPageCount(d.pageCount)
  }

  /** The PageCount value as the [Range] check sees it. */
  function PageCountValue(pageCount: Option<Int32>): Option<int> {
    if pageCount.Some? then Some(pageCount.value as int) else None
  }

  /** UpdateBookDto's attributes, in declaration order: Title [Required] [StringLength(200, 1)],
      Author [StringLength(100, 1)], Description [StringLength(1000)], PageCount [Range(1, int.MaxValue)]. */
  function UpdateViolations(u: UpdateBookDto): seq<Violation> {
    RequiredString("Title", u.title, 1, 200)
      + StringLength("Author", u.author, 1, 100)
      + StringLength("Description", u.description, 0, 1000)
      + Range("PageCount", PageCountValue(u.pageCount), 1, INT32_MAX, PAGE_COUNT_MESSAGE)
  }

  /** A null Author passes; a supplied one (even all blanks) needs 1..100 characters. */
  predicate ValidOptionalAuthor(author: Option<string>) {
    author.Some? ==> 1 <= |author.value| <= 100
  }

  predicate ValidOptionalDescription(description: Option<string>) {
    description.Some? ==> |description.value| <= 1000
  }

  predicate ValidOptionalPageCount(pageCount: Option<Int32>) {
    pageCount.Some? ==> ValidPageCount(pageCount.value)
  }

  predicate IsValidUpdate(u: UpdateBookDto) {
    && ValidTitle(u.title)
    && ValidOptionalAuthor(u.author)
    && ValidOptionalDescription(u.description)
    && ValidOptionalPageCount(u.pageCount)
  }

  /** The properties an UpdateBookDto's check reports, in declaration order. */
  lemma UpdateMembers(u: UpdateBookDto)
    ensures Members(UpdateViolations(u))
         == Report("Title", ValidTitle(u.title)) + Report("Author", ValidOptionalAuthor(u.author))
          + Report("Description", ValidOptionalDescription(u.description))
          + Report("PageCount", ValidOptionalPageCount(u.pageCount))
  {
    var t := RequiredString("Title", u.title, 1, 200);
    var a := StringLength("Author", u.author, 1, 100);
    var d := StringLength("Description", u.description, 0, 1000);
    var p := Range("PageCount", PageCountValue(u.pageCount), 1, INT32_MAX, PAGE_COUNT_MESSAGE);
    RequiredStringMembers("Title", u.title, 1, 200);
    StringLengthMembers("Author", u.author, 1, 100);
    StringLengthMembers("Description", u.description, 0, 1000);
    RangeMembers("PageCount", PageCountValue(u.pageCount), 1, INT32_MAX, PAGE_COUNT_MESSAGE);
    MembersConcat(t, a);
    MembersConcat(t + a, d);
    MembersConcat(t + a + d, p);
  }

  /** No attribute of an UpdateBookDto fails exactly when each field meets its rule, and every
      field that breaks its rule is reported once; PublishDate is never reported. */
  lemma UpdateViolationsByMember(u: UpdateBookDto)
    ensures UpdateViolations(u) == [] <==> IsValidUpdate(u)
    ensures var ms := Members(UpdateViolations(u));
      && ("Title" in ms <==> !ValidTitle(u.title))
      && ("Author" in ms <==> !ValidOptionalAuthor(u.author))
      && ("Description" in ms <==> !ValidOptionalDescription(u.description))
      && ("PageCount" in ms <==> !ValidOptionalPageCount(u.pageCount))
      && "PublishDate" !in ms
      && |ms| <= 4
  {
    UpdateMembers(u);
    assert |"Author"| == 6 && |"Title"| == 5 && |"Description"| == 11 && |"PageCount"| == 9;
    assert "PublishDate"[0] == 'P' && "PageCount"[1] == 'a' && "PublishDate"[1] == 'u';
    FourReports("Title", ValidTitle(u.title), "Author", ValidOptionalAuthor(u.author),
                "Description", ValidOptionalDescription(u.description), "PageCount", ValidOptionalPageCount(u.pageCount));
  }

  /** The attributes of a CreateBookDto never look at PublishDate, so a date in the future passes. */
  lemma CreatePublishDateUnconstrained(d: CreateBookDto, date: Date)
    ensures CreateViolations(d.(publishDate := date)) == CreateViolations(d)
  {
  }

  /** The record's default PageCount of 0 is reported; any value from 1 up is not. */
  lemma CreatePageCountBoundary(d: CreateBookDto)
    ensures d.pageCount == 0 ==> RangeFailed("PageCount", PAGE_COUNT_MESSAGE) in CreateViolations(d)
    ensures d.pageCount >= 1 ==> "PageCount" !in Members(CreateViolations(d))
  {
    FieldViolationsByMember(d.author, d.title, d.description, d.pageCount);
    if d.pageCount == 0 {
      var v := CreateViolations(d);
      var head := RequiredString("Author", d.author, 1, 100) + RequiredString("Title", d.title, 1, 200)
                  + StringLength("Description", Some(d.description), 0, 1000);
      assert v == head + [RangeFailed("PageCount", PAGE_COUNT_MESSAGE)];
      assert v[|v| - 1] == RangeFailed("PageCount", PAGE_COUNT_MESSAGE);
    }
  }
}
