/** The DataAnnotations attributes the records carry, with the way System.ComponentModel's
    Validator checks them on one property: [Required] first, and when it fails nothing else
    is checked on that property; then the property's other attributes. */
module Annotations {
  import opened Wrappers
  import opened Text
  import opened Numbers

  /** One failed attribute on one property, named by the property. */
  datatype Violation =
    | RequiredFailed(member: string)
    | StringLengthFailed(member: string, minimumLength: nat, maximumLength: nat)
    | RangeFailed(member: string, errorMessage: string)

  /** The attribute's ErrorMessage when one is given, else the framework's default English text. */
  function Message(v: Violation): string {
    match v
    case RequiredFailed(m) => "The " + m + " field is required."
    case StringLengthFailed(m, min, max) =>
      if min == 0 then "The field " + m + " must be a string with a maximum length of " + NatToDigits(max) + "."
      else "The field " + m + " must be a string with a minimum length of " + NatToDigits(min)
           + " and a maximum length of " + NatToDigits(max) + "."
    case RangeFailed(_, text) => text
  }

  /** [StringLength(max, MinimumLength = min)]: a null value passes. */
  function StringLength(member: string, value: Option<string>, min: nat, max: nat): seq<Violation> {
    match value
    case None => []
    case Some(s) => if min <= |s| <= max then [] else [StringLengthFailed(member, min, max)]
  }

  /** [Required] then [StringLength]: RequiredAttribute rejects an empty or white-space-only string. */
  function RequiredString(member: string, value: string, min: nat, max: nat): seq<Violation> {
    if IsBlank(value) then [RequiredFailed(member)] else StringLength(member, Some(value), min, max)
  }

  /** [Range(min, max, ErrorMessage = errorMessage)]: a null value passes. */
  function Range(member: string, value: Option<int>, min: int, max: int, errorMessage: string): seq<Violation> {
    match value
    case None => []
    case Some(n) => if min <= n <= max then [] else [RangeFailed(member, errorMessage)]
  }

  /** The properties that failed, in the order they were checked. */
  function Members(vs: seq<Violation>): (ms: seq<string>)
    ensures |ms| == |vs|
  {
    seq(|vs|, i requires 0 <= i < |vs| => vs[i].member)
  }

  /** What one property's check reports: the property, when its rule fails. */
  function Report(member: string, ok: bool): seq<string> {
    if ok then [] else [member]
  }

  /** A string property's check reports that property, once, exactly when its rule fails. */
  lemma RequiredStringMembers(member: string, value: string, min: nat, max: nat)
    ensures Members(RequiredString(member, value, min, max)) == Report(member, !IsBlank(value) && min <= |value| <= max)
  {
  }

  lemma StringLengthMembers(member: string, value: Option<string>, min: nat, max: nat)
    ensures Members(StringLength(member, value, min, max)) == Report(member, value.None? || min <= |value.value| <= max)
  {
  }

  lemma RangeMembers(member: string, value: Option<int>, min: int, max: int, errorMessage: string)
    ensures Members(Range(member, value, min, max, errorMessage)) == Report(member, value.None? || min <= value.value <= max)
  {
  }

  /** Checks run one after another report their properties one after another. */
  lemma MembersConcat(xs: seq<Violation>, ys: seq<Violation>)
    ensures Members(xs + ys) == Members(xs) + Members(ys)
  {
  }

  /** Four checks on four distinct properties: the report names exactly the properties whose
      rule fails, each once, and is empty exactly when all four rules hold. */
  lemma FourReports(m1: string, ok1: bool, m2: string, ok2: bool, m3: string, ok3: bool, m4: string, ok4: bool)
    requires m1 != m2 && m1 != m3 && m1 != m4 && m2 != m3 && m2 != m4 && m3 != m4
    ensures var ms := Report(m1, ok1) + Report(m2, ok2) + Report(m3, ok3) + Report(m4, ok4);
      && (ms == [] <==> ok1 && ok2 && ok3 && ok4)
      && (m1 in ms <==> !ok1) && (m2 in ms <==> !ok2) && (m3 in ms <==> !ok3) && (m4 in ms <==> !ok4)
      && (forall m :: m in ms ==> m == m1 || m == m2 || m == m3 || m == m4)
      && |ms| <= 4
  {
  }

  /** Every violation has a message to show. */
  lemma MessageNonEmpty(v: Violation)
    requires v.RangeFailed? ==> v.errorMessage != ""
    ensures Message(v) != ""
  {
  }

  /** Every violation in the list has a message to show. */
  predicate Shown(vs: seq<Violation>) {
    forall k :: 0 <= k < |vs| ==> Message(vs[k]) != ""
  }

  lemma ShownConcat(xs: seq<Violation>, ys: seq<Violation>)
    requires Shown(xs) && Shown(ys)
    ensures Shown(xs + ys)
  {
    forall k | 0 <= k < |xs + ys| ensures Message((xs + ys)[k]) != "" {
      if k >= |xs| {
        assert (xs + ys)[k] == ys[k - |xs|];
      }
    }
  }

  /** [Required] with [StringLength] reports only violations with a message. */
  lemma RequiredStringShown(member: string, s: string, min: nat, max: nat)
    ensures Shown(RequiredString(member, s, min, max))
  {
    ShownOne(RequiredFailed(member));
    ShownOne(StringLengthFailed(member, min, max));
  }

  /** [StringLength] reports only violations with a message. */
  lemma StringLengthShown(member: string, o: Option<string>, min: nat, max: nat)
    ensures Shown(StringLength(member, o, min, max))
  {
    ShownOne(StringLengthFailed(member, min, max));
  }

  /** [Range] reports only violations with a message, given a non-empty ErrorMessage. */
  lemma RangeShown(member: string, n: Option<int>, min: int, max: int, errorMessage: string)
    requires errorMessage != ""
    ensures Shown(Range(member, n, min, max, errorMessage))
  {
    ShownOne(RangeFailed(member, errorMessage));
  }

  lemma ShownOne(v: Violation)
    requires v.RangeFailed? ==> v.errorMessage != ""
    ensures Shown([v])
  {
    MessageNonEmpty(v);
  }
}
