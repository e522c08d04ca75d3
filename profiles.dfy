/**
 * The two profile schemas: the settings form's schema (name length bounds
 * and a trimmed, optional last name) and the looser schema the settings
 * action parses (an id and a first name, no bounds).
 */
module ProfileValidation {
  import opened Wrappers
  import opened JsString

  const MissingMessage := "Required"
  const FirstNameTooShortMessage := "Firstname must be at least 2 characters."
  const FirstNameTooLongMessage := "Firstname must not be longer than 30 characters."
  const LastNameTooLongMessage := "Lastname must not be longer than 30 characters."
  const InvalidUrlMessage := "Invalid url"

  /** The longest first or last name the form accepts. */
  const NameMaxLength := 30

  /** The values the settings form submits; `None` is an absent key. */
  datatype ProfileFormInput = ProfileFormInput(
    firstName: Option<string>, lastName: Option<string>, userName: Option<string>, avatarUrl: Option<string>)

  /** The form's parsed values. */
  datatype ProfileFormValues = ProfileFormValues(
    firstName: string, lastName: Option<string>, userName: Option<string>, avatarUrl: Option<string>)

  function FirstNameIssues(firstName: Option<string>): seq<string> {
    if firstName.None? then [MissingMessage]
    else
      (if |firstName.value| < 2 then [FirstNameTooShortMessage] else [])
      + (if |firstName.value| > NameMaxLength then [FirstNameTooLongMessage] else [])
  }

  function LastNameIssues(lastName: Option<string>): seq<string> {
    if lastName.Some? && |lastName.value| > NameMaxLength then [LastNameTooLongMessage] else []
  }

  function AvatarIssues(avatarUrl: Option<string>, isUrl: string -> bool): seq<string> {
    if avatarUrl.Some? && !isUrl(avatarUrl.value) then [InvalidUrlMessage] else []
  }

  /** The last-name transform: trimmed, and a blank (or absent) name becomes absent. */
  function TrimLastName(lastName: Option<string>): (r: Option<string>)
    ensures r.None? <==> lastName.None? || Trim(lastName.value) == ""
    ensures r.Some? ==> r.value != "" && IsTrimmed(r.value)
  {
    if lastName.None? || Trim(lastName.value) == "" then None else Some(Trim(lastName.value))
  }

  /** Running the transform on its own output changes nothing. */
  lemma TrimLastNameIdempotent(lastName: Option<string>)
    ensures TrimLastName(TrimLastName(lastName)) == TrimLastName(lastName)
  {
    if lastName.Some? {
      TrimIdempotent(lastName.value);
    }
  }

  /** The conditions of the form schema, stated field by field. */
  predicate ValidProfileForm(input: ProfileFormInput, isUrl: string -> bool) {
    && input.firstName.Some? && 2 <= |input.firstName.value| <= NameMaxLength
    && (input.lastName.Some? ==> |input.lastName.value| <= NameMaxLength)
    && (input.avatarUrl.Some? ==> isUrl(input.avatarUrl.value))
  }

  /** `profileFormSchema.safeParse(input)`. */
  function ParseProfileForm(input: ProfileFormInput, isUrl: string -> bool): Result<ProfileFormValues, seq<string>> {
    var issues := FirstNameIssues(input.firstName) + LastNameIssues(input.lastName) + AvatarIssues(input.avatarUrl, isUrl);
    if issues != [] then Err(issues)
    else Ok(ProfileFormValues(input.firstName.value, TrimLastName(input.lastName), input.userName, input.avatarUrl))
  }

  /**
   * The form parse succeeds exactly when the schema's conditions hold (the
   * last name's length is checked before trimming); the first name, user
   * name and avatar URL are then kept as given and the last name is trimmed,
   * a blank one dropped.
   */
  lemma ParseProfileFormValid(input: ProfileFormInput, isUrl: string -> bool)
    ensures ParseProfileForm(input, isUrl).Ok? <==> ValidProfileForm(input, isUrl)
    ensures var r := ParseProfileForm(input, isUrl);
            r.Ok? ==>
              && r.value.firstName == input.firstName.value && 2 <= |r.value.firstName| <= NameMaxLength
              && r.value.userName == input.userName && r.value.avatarUrl == input.avatarUrl
              && (r.value.lastName.None? <==> input.lastName.None? || Trim(input.lastName.value) == "")
              && (r.value.lastName.Some? ==> r.value.lastName.value == Trim(input.lastName.value) && |r.value.lastName.value| <= NameMaxLength)
  {
    if ValidProfileForm(input, isUrl) {
      assert FirstNameIssues(input.firstName) == [];
      if input.lastName.Some? {
        assert |Trim(input.lastName.value)| <= |input.lastName.value|;
      }
    } else if input.firstName.Some? && 2 <= |input.firstName.value| <= NameMaxLength {
      assert FirstNameIssues(input.firstName) == [];
    }
  }

  /** A last name over 30 characters is refused even when it fits once trimmed. */
  lemma LastNameCheckedBeforeTrim(input: ProfileFormInput, isUrl: string -> bool)
    requires input.lastName.Some? && |input.lastName.value| > NameMaxLength
    ensures var r := ParseProfileForm(input, isUrl);
            r.Err? && LastNameTooLongMessage in r.error
  {
  }

  /** The values the settings action receives; `None` is an absent key. */
  datatype ProfileInput = ProfileInput(
    id: Option<string>, firstName: Option<string>, lastName: Option<string>,
    userName: Option<string>, avatarUrl: Option<string>)

  /** The action schema's parsed values. */
  datatype ProfileData = ProfileData(
    id: string, firstName: string, lastName: Option<string>, userName: Option<string>, avatarUrl: Option<string>)

  /** `profileSchema.safeParse(input)`: no length bounds and no trimming. */
  function ParseProfile(input: ProfileInput, isUrl: string -> bool): Result<ProfileData, seq<string>> {
    var issues :=
      (if input.id.None? then [MissingMessage] else [])
      + (if input.firstName.None? then [MissingMessage] else [])
      + AvatarIssues(input.avatarUrl, isUrl);
    if issues != [] then Err(issues)
    else Ok(ProfileData(input.id.value, input.firstName.value, input.lastName, input.userName, input.avatarUrl))
  }

  /**
   * The action's parse succeeds exactly when the id and first name are
   * present and any avatar URL is a URL; every value is kept as given, so
   * an empty or over-long first name passes.
   */
  lemma ParseProfileValid(input: ProfileInput, isUrl: string -> bool)
    ensures ParseProfile(input, isUrl).Ok? <==>
              input.id.Some? && input.firstName.Some? && (input.avatarUrl.Some? ==> isUrl(input.avatarUrl.value))
    ensures var r := ParseProfile(input, isUrl);
            r.Ok? ==> r.value == ProfileData(input.id.value, input.firstName.value, input.lastName, input.userName, input.avatarUrl)
  {
  }

  /** Values the form accepts are accepted by the action's schema once an id is added. */
  lemma FormValuesPassActionSchema(input: ProfileFormInput, isUrl: string -> bool, id: string)
    requires ParseProfileForm(input, isUrl).Ok?
    ensures var v := ParseProfileForm(input, isUrl).value;
            ParseProfile(ProfileInput(Some(id), Some(v.firstName), v.lastName, v.userName, v.avatarUrl), isUrl)
              == Ok(ProfileData(id, v.firstName, v.lastName, v.userName, v.avatarUrl))
  {
    ParseProfileFormValid(input, isUrl);
  }
}
