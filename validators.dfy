/** The FluentValidation rule sets BookValidator, CreateBookDtoValidator and
    UpdateBookDtoValidator. They are registered with the container but no code path of the
    core runs them; they differ from the attributes in rejecting a PublishDate after today.
    Each validator yields its error messages in rule order; it passes when there are none.
    Every chain keeps going after a failed step (FluentValidation's default cascade). */
module BookValidators {
  import opened Wrappers
  import opened Text
  import opened Numbers
  import opened Dates
  import opened Entities
  import opened Dto

  const AUTHOR_REQUIRED := "Author is required"
  const AUTHOR_TOO_LONG := "Author cannot exceed 100 characters"
  const TITLE_REQUIRED := "Title is required"
  const TITLE_TOO_LONG := "Title cannot exceed 200 characters"
  const DESCRIPTION_TOO_LONG := "Description cannot exceed 1000 characters"
  const PAGE_COUNT_NOT_POSITIVE := "Page count must be greater than 0"
  const PUBLISH_DATE_IN_FUTURE := "Publish date cannot be in the future"

  /** A step of a rule chain: its message when the check fails. */
  function Check(ok: bool, message: string): seq<string> {
    if ok then [] else [message]
  }

  /** RuleFor(Title).NotEmpty().MaximumLength(200); NotEmpty rejects white space only. */
  function TitleRule(title: string): seq<string> {
    Check(!IsBlank(title), TITLE_REQUIRED) + Check(|title| <= 200, TITLE_TOO_LONG)
  }

  /** The rules BookValidator and CreateBookDtoValidator both declare, today being
      DateTime.Today. */
  function FieldRules(author: string, title: string, description: string, pageCount: int,
                      publishDate: Date, today: Date): seq<string>
  {
    Check(!IsBlank(author), AUTHOR_REQUIRED) + Check(|author| <= 100, AUTHOR_TOO_LONG)
      + TitleRule(title)
      + Check(|description| <= 1000, DESCRIPTION_TOO_LONG)
      + Check(pageCount > 0, PAGE_COUNT_NOT_POSITIVE)
      + Check(OnOrBefore(publishDate, today), PUBLISH_DATE_IN_FUTURE)
  }

  function BookValidator(b: Book, today: Date): seq<string> {
    FieldRules(b.author, b.title, b.description, b.pageCount, b.publishDate, today)
  }

  function CreateBookDtoValidator(d: CreateBookDto, today: Date): seq<string> {
    FieldRules(d.author, d.title, d.description, d.pageCount, d.publishDate, today)
  }

  /** The rules on Author and Description apply only `When` the value is neither null nor
      empty; those on PageCount and PublishDate only when they have a value. */
  function UpdateBookDtoValidator(u: UpdateBookDto, today: Date): seq<string> {
    TitleRule(u.title)
      + Check(!(u.author.Some? && u.author.value != "") || |u.author.value| <= 100, AUTHOR_TOO_LONG)
      + Check(!(u.description.Some? && u.description.value != "") || |u.description.value| <= 1000,
              DESCRIPTION_TOO_LONG)
      + Check(u.pageCount.None? || u.pageCount.value > 0, PAGE_COUNT_NOT_POSITIVE)
      + Check(u.publishDate.None? || OnOrBefore(u.publishDate.value, today), PUBLISH_DATE_IN_FUTURE)
  }

  /** A Book or CreateBookDto passes exactly when its attributes hold and its PublishDate is
      not after today: the rule set is the attributes plus the date rule. */
  lemma FieldRulesAreAttributesPlusDate(author: string, title: string, description: string,
                                        pageCount: Int32, publishDate: Date, today: Date)
    ensures FieldRules(author, title, description, pageCount, publishDate, today) == []
        <==> (&& ValidAuthor(author) && ValidTitle(title) && ValidDescription(description)
              && ValidPageCount(pageCount) && OnOrBefore(publishDate, today))
  {
    if !IsBlank(author) {
      assert |author| >= 1;
    }
    if !IsBlank(title) {
      assert |title| >= 1;
    }
  }

  lemma CreateValidatorAgainstAttributes(d: CreateBookDto, today: Date)
    ensures CreateBookDtoValidator(d, today) == [] <==> IsValidCreate(d) && OnOrBefore(d.publishDate, today)
  {
    FieldRulesAreAttributesPlusDate(d.author, d.title, d.description, d.pageCount, d.publishDate, today);
  }

  lemma BookValidatorAgainstAttributes(b: Book, today: Date)
    ensures BookValidator(b, today) == [] <==> IsValidBook(b) && OnOrBefore(b.publishDate, today)
  {
    FieldRulesAreAttributesPlusDate(b.author, b.title, b.description, b.pageCount, b.publishDate, today);
  }

  /** The date boundary: published today passes the date rule, any later day fails it, for
      both the Book and the CreateBookDto rule sets. */
  lemma PublishDateBoundary(author: string, title: string, description: string, pageCount: int,
                            publishDate: Date, today: Date)
    ensures publishDate == today ==> PUBLISH_DATE_IN_FUTURE !in FieldRules(author, title, description, pageCount, publishDate, today)
    ensures Before(today, publishDate) ==> PUBLISH_DATE_IN_FUTURE in FieldRules(author, title, description, pageCount, publishDate, today)
  {
    var rest := Check(!IsBlank(author), AUTHOR_REQUIRED) + Check(|author| <= 100, AUTHOR_TOO_LONG)
      + TitleRule(title) + Check(|description| <= 1000, DESCRIPTION_TOO_LONG)
      + Check(pageCount > 0, PAGE_COUNT_NOT_POSITIVE);
    var r := FieldRules(author, title, description, pageCount, publishDate, today);
    assert r == rest + Check(OnOrBefore(publishDate, today), PUBLISH_DATE_IN_FUTURE);
    assert PUBLISH_DATE_IN_FUTURE !in rest;
    if Before(today, publishDate) {
      assert r[|r| - 1] == PUBLISH_DATE_IN_FUTURE;
    }
  }

  /** Whatever the attributes of an UpdateBookDto accept, and whose date is not after today,
      the UpdateBookDtoValidator accepts too. */
  lemma UpdateValidatorAcceptsValidUpdates(u: UpdateBookDto, today: Date)
    requires IsValidUpdate(u)
    requires u.publishDate.Some? ==> OnOrBefore(u.publishDate.value, today)
    ensures UpdateBookDtoValidator(u, today) == []
  {
  }

  /** The converse fails: an empty Author passes the Update rule set but breaks
      [StringLength(100, MinimumLength = 1)]. */
  lemma UpdateValidatorAcceptsEmptyAuthor(today: Date)
    ensures var u := UpdateBookDto("Dune", Some(""), None, None, None);
      UpdateBookDtoValidator(u, today) == [] && !IsValidUpdate(u)
  {
    var u := UpdateBookDto("Dune", Some(""), None, None, None);
    assert !IsBlank(u.title) by {
      assert !IsWhiteSpace(u.title[0]);
    }
  }

  /** UpdateBookDtoValidator rejects exactly what its rules reject: Title is always checked;
      Author and Description only when given and not empty; PageCount and PublishDate only
      when given. Each rule's message is in the list exactly when that rule fails. */
  lemma UpdateValidatorExactly(u: UpdateBookDto, today: Date)
    ensures UpdateBookDtoValidator(u, today) == []
        <==> (&& !IsBlank(u.title) && |u.title| <= 200
              && (u.author.None? || u.author.value == "" || |u.author.value| <= 100)
              && (u.description.None? || u.description.value == "" || |u.description.value| <= 1000)
              && (u.pageCount.None? || u.pageCount.value > 0)
              && (u.publishDate.None? || OnOrBefore(u.publishDate.value, today)))
    ensures var r := UpdateBookDtoValidator(u, today);
      && (TITLE_REQUIRED in r <==> IsBlank(u.title))
      && (TITLE_TOO_LONG in r <==> |u.title| > 200)
      && (AUTHOR_TOO_LONG in r <==> u.author.Some? && u.author.value != "" && |u.author.value| > 100)
      && (DESCRIPTION_TOO_LONG in r <==>
            u.description.Some? && u.description.value != "" && |u.description.value| > 1000)
      && (PAGE_COUNT_NOT_POSITIVE in r <==> u.pageCount.Some? && u.pageCount.value <= 0)
      && (PUBLISH_DATE_IN_FUTURE in r <==> u.publishDate.Some? && !OnOrBefore(u.publishDate.value, today))
  {
    assert |TITLE_REQUIRED| == 17 && |TITLE_TOO_LONG| == 34 && |AUTHOR_TOO_LONG| == 35;
    assert |DESCRIPTION_TOO_LONG| == 41 && |PAGE_COUNT_NOT_POSITIVE| == 33 && |PUBLISH_DATE_IN_FUTURE| == 36;
  }

  /** On an UpdateBookDto the date rule is the only difference a supplied date makes: today
      passes, a later day fails, and no date at all passes. */
  lemma UpdatePublishDateRule(u: UpdateBookDto, today: Date)
    ensures u.publishDate.None? ==> PUBLISH_DATE_IN_FUTURE !in UpdateBookDtoValidator(u, today)
    ensures u.publishDate == Some(today) ==> PUBLISH_DATE_IN_FUTURE !in UpdateBookDtoValidator(u, today)
    ensures u.publishDate.Some? && Before(today, u.publishDate.value)
        ==> PUBLISH_DATE_IN_FUTURE in UpdateBookDtoValidator(u, today)
  {
    var r := UpdateBookDtoValidator(u, today);
    var rest := TitleRule(u.title)
      + Check(!(u.author.Some? && u.author.value != "") || |u.author.value| <= 100, AUTHOR_TOO_LONG)
      + Check(!(u.description.Some? && u.description.value != "") || |u.description.value| <= 1000,
              DESCRIPTION_TOO_LONG)
      + Check(u.pageCount.None? || u.pageCount.value > 0, PAGE_COUNT_NOT_POSITIVE);
    assert PUBLISH_DATE_IN_FUTURE !in rest;
    assert r == rest + Check(u.publishDate.None? || OnOrBefore(u.publishDate.value, today), PUBLISH_DATE_IN_FUTURE);
    if u.publishDate.Some? && Before(today, u.publishDate.value) {
      assert r[|r| - 1] == PUBLISH_DATE_IN_FUTURE;
    }
  }
}
