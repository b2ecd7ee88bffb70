/** Mapper: turns the fields of a line of console input into DTOs, and text into a Guid. */
module Mapper {
  import opened Wrappers
  import opened Exceptions
  import opened Text
  import opened Numbers
  import opened Dates
  import opened Guids
  import opened Annotations
  import opened Entities
  import opened Dto
  import opened Validation

  const CREATE_FORMAT_MESSAGE := "Invalid input format. Expected: Title, Author, Description, PageCount, PublishDate"
  const INVALID_FORMAT_MESSAGE := "Invalid format for PageCount or PublishDate"
  const UPDATE_FORMAT_MESSAGE := "Invalid input format. At least Title is required."
  const BLANK_ID_MESSAGE := "Input cannot be null or empty"

  /** The ArgumentException thrown when the built DTO does not validate. */
  function ValidationFailed(v: ValidationResult): Error {
    ArgumentError("Validation failed: " + v.errorMessage, None)
  }

  /** MapToCreateBookDtoAsync. The fields are [Title, Author, Description, PageCount, PublishDate].
      int.Parse runs before DateTime.Parse; its FormatException and DateTime.Parse's become
      "Invalid format ...", while its OverflowException escapes unchanged. */
  function MapToCreateBookDto(input: seq<string>): (r: Result<CreateBookDto, Error>)
    ensures |input| != 5 ==> r == Failure(ArgumentError(CREATE_FORMAT_MESSAGE, None))
    ensures |input| == 5 && ParseInt(Trim(input[3])).TooLarge? ==> r == Failure(Overflow)
    ensures |input| == 5 && ParseInt(Trim(input[3])).BadFormat?
        ==> r == Failure(ArgumentError(INVALID_FORMAT_MESSAGE, None))
    ensures |input| == 5 && ParseInt(Trim(input[3])).Parsed? && TryParseDateTime(Trim(input[4])).None?
        ==> r == Failure(ArgumentError(INVALID_FORMAT_MESSAGE, None))
    ensures r.Success? ==>
      && |input| == 5
      && r.value.title == Trim(input[0]) && r.value.author == Trim(input[1])
      && r.value.description == Trim(input[2])
      && TryParseInt(Trim(input[3])) == Some(r.value.pageCount)
      && TryParseDateTime(Trim(input[4])) == Some(r.value.publishDate)
      && IsTrimmed(r.value.title) && IsTrimmed(r.value.author) && IsTrimmed(r.value.description)
      && IsValidCreate(r.value)
    ensures |input| == 5 && TryParseInt(Trim(input[3])).Some? && TryParseDateTime(Trim(input[4])).Some?
        ==> var d := CreateBookDto(Trim(input[1]), Trim(input[0]), Trim(input[2]),
                                   TryParseInt(Trim(input[3])).value, TryParseDateTime(Trim(input[4])).value);
            r == if IsValidCreate(d) then Success(d)
                 else Failure(ArgumentError("Validation failed: " + Join("; ", Messages(CreateViolations(d))), None))
  {
    if |input| != 5 then Failure(ArgumentError(CREATE_FORMAT_MESSAGE, None))
    else
      match ParseInt(Trim(input[3]))
      case TooLarge => Failure(Overflow)
      case BadFormat => Failure(ArgumentError(INVALID_FORMAT_MESSAGE, None))
      case Parsed(pageCount) =>
        match ParseDate(Trim(input[4]))
        case None => Failure(ArgumentError(INVALID_FORMAT_MESSAGE, None))
        case Some(publishDate) =>
          var dto := CreateBookDto(Trim(input[1]), Trim(input[0]), Trim(input[2]), pageCount, publishDate);
          var validation := Validate(CreateModel(dto));
          TrimShape(input[0]);
          TrimShape(input[1]);
          TrimShape(input[2]);
          if !validation.isValid then Failure(ValidationFailed(validation)) else Success(dto)
  }

  /** Field `k` of the input, trimmed, when it is there and not blank. */
  function OptionalField(input: seq<string>, k: nat): Option<string> {
    if k < |input| && !IsBlank(input[k]) then Some(Trim(input[k])) else None
  }

  /** The UpdateBookDto that MapToUpdateBookDtoAsync builds before validating it, from the
      fields [Title, PageCount?, PublishDate?, Author?, Description?]: an optional number or
      date that does not parse is left null. */
  function UpdateCandidate(input: seq<string>): UpdateBookDto
    requires |input| >= 1
  {
    var pageCount := OptionalField(input, 1);
    var publishDate := OptionalField(input, 2);
    UpdateBookDto(
      Trim(input[0]),
      OptionalField(input, 3),
      OptionalField(input, 4),
      if pageCount.Some? then TryParseInt(pageCount.value) else None,
      if publishDate.Some? then TryParseDateTime(publishDate.value) else None)
  }

  /** MapToUpdateBookDtoAsync: only an empty field list, or a DTO that fails validation, is an
      error; the DTO is filled in field by field. */
  method MapToUpdateBookDto(input: seq<string>) returns (r: Result<UpdateBookDto, Error>)
    ensures |input| == 0 ==> r == Failure(ArgumentError(UPDATE_FORMAT_MESSAGE, None))
    ensures |input| >= 1 ==>
      var u := UpdateCandidate(input);
      var v := Validate(UpdateModel(u));
      r == if v.isValid then Success(u) else Failure(ValidationFailed(v))
    ensures r.Success? <==> |input| >= 1 && IsValidUpdate(UpdateCandidate(input))
  {
    if |input| < 1 {
      return Failure(ArgumentError(UPDATE_FORMAT_MESSAGE, None));
    }
    ghost var target := UpdateCandidate(input);
    var dto := UpdateBookDto(Trim(input[0]), None, None, None, None);
    if |input| > 1 && !IsBlank(input[1]) {
      var pageCount := TryParseInt(Trim(input[1]));
      if pageCount.Some? {
        dto := dto.(pageCount := pageCount);
      }
    }
    assert dto == target.(author := None, description := None, publishDate := None);
    if |input| > 2 && !IsBlank(input[2]) {
      var publishDate := TryParseDateTime(Trim(input[2]));
      if publishDate.Some? {
        dto := dto.(publishDate := publishDate);
      }
    }
    assert dto == target.(author := None, description := None);
    if |input| > 3 && !IsBlank(input[3]) {
      dto := dto.(author := Some(Trim(input[3])));
    }
    assert dto == target.(description := None);
    if |input| > 4 && !IsBlank(input[4]) {
      dto := dto.(description := Some(Trim(input[4])));
    }
    assert dto == target;
    var validation := Validate(UpdateModel(dto));
    assert validation.isValid == AnnotationsHold(UpdateModel(target)) == IsValidUpdate(target);
    if !validation.isValid {
      return Failure(ValidationFailed(validation));
    }
    return Success(dto);
  }

  /** With only a Title, every optional field of the update is left null. */
  lemma TitleOnlyUpdate(input: seq<string>)
    requires |input| == 1
    ensures UpdateCandidate(input) == UpdateBookDto(Trim(input[0]), None, None, None, None)
  {
  }

  /** Fields after the fifth are ignored. */
  lemma UpdateIgnoresExtraFields(input: seq<string>)
    requires |input| >= 5
    ensures UpdateCandidate(input) == UpdateCandidate(input[..5])
  {
  }

  /** Each field of the candidate comes from its own input field: the Title always, trimmed;
      Author and Description exactly when their field is there and not blank, trimmed, and then
      non-empty and not blank, so the repository will write them; PageCount and PublishDate
      exactly when their field is there, not blank and parses, and then as it parses. */
  lemma UpdateCandidateFields(input: seq<string>)
    requires |input| >= 1
    ensures var u := UpdateCandidate(input);
      && u.title == Trim(input[0])
      && (u.author.Some? <==> 3 < |input| && !IsBlank(input[3]))
      && (u.author.Some? ==> u.author.value == Trim(input[3]))
      && (u.description.Some? <==> 4 < |input| && !IsBlank(input[4]))
      && (u.description.Some? ==> u.description.value == Trim(input[4]))
      && (u.pageCount.Some? ==> u.pageCount == TryParseInt(Trim(input[1])))
      && (u.publishDate.Some? ==> u.publishDate == TryParseDateTime(Trim(input[2])))
      && (u.author.Some? ==> u.author.value != "" && IsTrimmed(u.author.value) && !IsBlank(u.author.value))
      && (u.description.Some? ==> u.description.value != "" && IsTrimmed(u.description.value))
      && (u.pageCount.Some? <==> 1 < |input| && !IsBlank(input[1]) && TryParseInt(Trim(input[1])).Some?)
      && (u.publishDate.Some? <==> 2 < |input| && !IsBlank(input[2]) && TryParseDateTime(Trim(input[2])).Some?)
  {
    if 3 < |input| && !IsBlank(input[3]) {
      TrimEmptyIffBlank(input[3]);
      TrimShape(input[3]);
      TrimIdempotent(input[3]);
      TrimEmptyIffBlank(Trim(input[3]));
    }
    if 4 < |input| && !IsBlank(input[4]) {
      TrimEmptyIffBlank(input[4]);
      TrimShape(input[4]);
    }
  }

  /** MapToGuidAsync: blank text is refused before parsing; otherwise the trimmed text must be a
      Guid, and the Guid returned is the one that text spells. */
  function MapToGuid(input: string): (r: Result<Guid, Error>)
    ensures IsBlank(input) ==> r == Failure(ArgumentError(BLANK_ID_MESSAGE, Some("input")))
    ensures !IsBlank(input) && ParseGuid(Trim(input)).None?
        ==> r == Failure(ArgumentError("Invalid GUID format: " + input, None))
    ensures !IsBlank(input) && ParseGuid(Trim(input)).Some? ==> r == Success(ParseGuid(Trim(input)).value)
    ensures r.Success? ==> !IsBlank(input) && FormatGuid(r.value) == LowerText(Trim(input))
  {
    if IsBlank(input) then Failure(ArgumentError(BLANK_ID_MESSAGE, Some("input")))
    else match ParseGuid(Trim(input))
      case Some(g) => ParseFormatGuid(Trim(input)); Success(g)
      case None => Failure(ArgumentError("Invalid GUID format: " + input, None))
  }

  /** The text Guid.ToString() writes maps back to the same Guid. */
  lemma MapToGuidOfFormat(g: Guid)
    ensures MapToGuid(FormatGuid(g)) == Success(g)
  {
    var s := FormatGuid(g);
    HexRoundTrip(g[..8]);
    HexRoundTrip(g[20..]);
    assert s[0] == HexText(g[..8])[0] && s[|s| - 1] == HexText(g[20..])[11];
    assert !IsWhiteSpace(s[0]);
    TrimOfTrimmed(s);
    FormatParseGuid(g);
  }
}
