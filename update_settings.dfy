/**
 * `UpdateSettings`: writes the signed-in user's display name, user name and
 * avatar to their `profiles` row.
 */
module UpdateSettingsAction {
  import opened Wrappers
  import opened JsString
  import opened Store
  import opened ProfileValidation

  const InvalidProfileMessage := "Invalid profile data"

  /**
   * `full_name`: the non-empty names among first and last, joined by one
   * space and trimmed, or the first name itself when that comes out empty.
   */
  function FullName(firstName: string, lastName: Option<string>): string {
    var kept := (if firstName != "" then [firstName] else [])
      + (if lastName.Some? && lastName.value != "" then [lastName.value] else []);
    var joined := Trim(Join(kept, ' '));
    if joined != "" then joined else firstName
  }

  /** With both names non-empty: the trimmed `first last`, or the first name when that is blank. */
  lemma FullNameBoth(firstName: string, lastName: string)
    requires firstName != "" && lastName != ""
    ensures var full := Trim(firstName + " " + lastName);
            FullName(firstName, Some(lastName)) == if full != "" then full else firstName
  {
    assert Join([firstName, lastName], ' ') == firstName + " " + lastName;
  }

  /** With no last name (absent or `""`): the trimmed first name, or the raw first name when that is blank. */
  lemma FullNameFirstOnly(firstName: string, lastName: Option<string>)
    requires lastName.None? || lastName.value == ""
    ensures FullName(firstName, lastName) == if Trim(firstName) != "" then Trim(firstName) else firstName
  {
    if firstName == "" {
      assert Trim(Join([], ' ')) == "";
    }
  }

  /** With an empty first name, the trimmed last name. */
  lemma FullNameLastOnly(lastName: string)
    ensures FullName("", Some(lastName)) == Trim(lastName)
  {
    if lastName != "" {
      assert Join([lastName], ' ') == lastName;
    }
  }

  /**
   * The name is empty exactly when the first name is empty and the last is
   * blank or absent; otherwise it is either a non-empty trimmed string or
   * the raw first name.
   */
  lemma FullNameShape(firstName: string, lastName: Option<string>)
    ensures var full := FullName(firstName, lastName);
            && (full == "" <==> firstName == "" && (lastName.None? || Trim(lastName.value) == ""))
            && (full == firstName || (full != "" && IsTrimmed(full)))
  {
    if firstName == "" {
      if lastName.Some? {
        FullNameLastOnly(lastName.value);
      } else {
        assert Trim(Join([], ' ')) == "";
      }
    }
  }

  /**
   * The row after the write: the full name, and the user name and avatar
   * when given (an absent value leaves its column untouched).
   */
  function ApplySettings(row: Profile, p: ProfileData): Profile {
    row.(fullName := Some(FullName(p.firstName, p.lastName)),
         username := if p.userName.Some? then p.userName else row.username,
         avatarUrl := if p.avatarUrl.Some? then p.avatarUrl else row.avatarUrl)
  }

  /**
   * The effect of `UpdateSettings(input)`. `write` is the database's answer
   * to the update; an update that matches no row changes nothing and is not
   * an error.
   */
  function UpdateSettingsSpec(t: Tables, input: ProfileInput, isUrl: string -> bool, write: WriteOutcome): Outcome<bool> {
    match ParseProfile(input, isUrl)
    case Err(_) => Outcome(t, Err(InvalidProfileMessage))
    case Ok(p) =>
      match write
      case Rejected(_, msg) => Outcome(t, Err(msg))
      case Written =>
        var profiles := if p.id in t.profiles then t.profiles[p.id := ApplySettings(t.profiles[p.id], p)] else t.profiles;
        Outcome(t.(profiles := profiles), Ok(true))
  }

  /** `UpdateSettings`, step by step against the database. */
  method UpdateSettings(db: Backend, input: ProfileInput, isUrl: string -> bool, write: WriteOutcome)
    returns (r: Result<bool, string>)
    modifies db
    ensures var o := UpdateSettingsSpec(old(db.Snapshot()), input, isUrl, write);
            db.Snapshot() == o.tables && r == o.result
  {
    var parsed := ParseProfile(input, isUrl);
    if parsed.Err? {
      return Err(InvalidProfileMessage);
    }
    var profile := parsed.value;
    if write.Rejected? {
      return Err(write.message);
    }
    if profile.id in db.profiles {
      var row := db.profiles[profile.id];
      var fullName := FullName(profile.firstName, profile.lastName);
      var username := row.username;
      if profile.userName.Some? {
        username := profile.userName;
      }
      var avatarUrl := row.avatarUrl;
      if profile.avatarUrl.Some? {
        avatarUrl := profile.avatarUrl;
      }
      db.profiles := db.profiles[profile.id := row.(fullName := Some(fullName), username := username, avatarUrl := avatarUrl)];
    }
    return Ok(true);
  }

  /** Invalid input returns the fixed message and a rejected write its own; neither changes anything. */
  lemma UpdateSettingsErrors(t: Tables, input: ProfileInput, isUrl: string -> bool, write: WriteOutcome)
    ensures var o := UpdateSettingsSpec(t, input, isUrl, write);
            && (ParseProfile(input, isUrl).Err? ==> o.result == Err(InvalidProfileMessage))
            && (ParseProfile(input, isUrl).Ok? && write.Rejected? ==> o.result == Err(write.message))
            && (o.result.Err? ==> o.tables == t)
            && (o.result.Ok? ==> o.result.value)
  {
  }

  /**
   * A successful write changes only the row whose id was given: its full
   * name, and its user name and avatar where given; its id and admin flag
   * are kept, and no other row or table changes.
   */
  lemma UpdateSettingsSuccess(t: Tables, input: ProfileInput, isUrl: string -> bool)
    requires ParseProfile(input, isUrl).Ok?
    ensures var o := UpdateSettingsSpec(t, input, isUrl, Written);
            var id := input.id.value;
            && o.result == Ok(true)
            && o.tables.profiles.Keys == t.profiles.Keys
            && (forall k :: k in t.profiles && k != id ==> o.tables.profiles[k] == t.profiles[k])
            && (id in t.profiles ==>
                  var before := t.profiles[id];
                  var after := o.tables.profiles[id];
                  && after.id == before.id && after.isAdmin == before.isAdmin
                  && after.fullName == Some(FullName(input.firstName.value, input.lastName))
                  && after.username == (if input.userName.Some? then input.userName else before.username)
                  && after.avatarUrl == (if input.avatarUrl.Some? then input.avatarUrl else before.avatarUrl))
            && o.tables.drafts == t.drafts && o.tables.posts == t.posts
            && o.tables.categories == t.categories && o.tables.blobs == t.blobs
  {
    ParseProfileValid(input, isUrl);
  }

  /** Saving the same settings twice leaves the database as saving them once. */
  lemma UpdateSettingsIdempotent(t: Tables, input: ProfileInput, isUrl: string -> bool)
    ensures var once := UpdateSettingsSpec(t, input, isUrl, Written);
            UpdateSettingsSpec(once.tables, input, isUrl, Written) == once
  {
  }
}
