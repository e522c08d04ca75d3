/**
 * The users settings panel: the list of profiles with their admin switches,
 * and the handler that flips one profile's admin flag.
 */
module UserSettings {
  import opened Wrappers

  /** One row of the panel's list. */
  datatype ProfileItem = ProfileItem(
    id: string, fullName: Option<string>, username: Option<string>, email: Option<string>, isAdmin: bool)

  /** The list after a successful toggle: every entry with the user's id gets the new flag, the others are kept. */
  function SetAdmin(profiles: seq<ProfileItem>, userId: string, value: bool): (r: seq<ProfileItem>)
    ensures |r| == |profiles|
  {
    seq(|profiles|, i requires 0 <= i < |profiles| =>
      if profiles[i].id == userId then profiles[i].(isAdmin := value) else profiles[i])
  }

  /**
   * The toggled entries carry the new flag and nothing else about them
   * changes; every other entry is kept in its place.
   */
  lemma SetAdminEffect(profiles: seq<ProfileItem>, userId: string, value: bool)
    ensures var r := SetAdmin(profiles, userId, value);
            && |r| == |profiles|
            && (forall i :: 0 <= i < |r| && profiles[i].id == userId ==>
                  r[i].isAdmin == value && r[i] == profiles[i].(isAdmin := value))
            && (forall i :: 0 <= i < |r| && profiles[i].id != userId ==> r[i] == profiles[i])
  {
  }

  /** The flag every entry with the given id carries. */
  predicate AllAdminFlags(profiles: seq<ProfileItem>, userId: string, value: bool) {
    forall i :: 0 <= i < |profiles| && profiles[i].id == userId ==> profiles[i].isAdmin == value
  }

  /**
   * Two successful toggles of the same profile, each passing the switch's
   * current value, restore the list.
   */
  lemma ToggleTwiceRestores(profiles: seq<ProfileItem>, userId: string, current: bool)
    requires AllAdminFlags(profiles, userId, current)
    ensures var once := SetAdmin(profiles, userId, !current);
            AllAdminFlags(once, userId, !current) && SetAdmin(once, userId, !!current) == profiles
  {
    var once := SetAdmin(profiles, userId, !current);
    var twice := SetAdmin(once, userId, !!current);
    assert forall i :: 0 <= i < |profiles| ==> twice[i] == profiles[i];
  }

  /** The panel's state: the list shown and the id whose switch is disabled while its update runs. */
  class UsersPanel {
    var profiles: seq<ProfileItem>
    var updatingId: Option<string>

    constructor (initialProfiles: seq<ProfileItem>)
      ensures profiles == initialProfiles && updatingId == None
    {
      profiles := initialProfiles;
      updatingId := None;
    }

    /** The first half of `handleToggleAdmin`, before the update is awaited: the user's switch is disabled. */
    method BeginToggle(userId: string)
      modifies this
      ensures updatingId == Some(userId) && profiles == old(profiles)
    {
      updatingId := Some(userId);
    }

    /**
     * The second half, once the update has answered: the switch is enabled
     * again whatever the outcome, and only a success flips the flag in the
     * list.
     */
    method EndToggle(userId: string, currentValue: bool, success: bool)
      modifies this
      ensures updatingId == None
      ensures success ==> profiles == SetAdmin(old(profiles), userId, !currentValue)
      ensures !success ==> profiles == old(profiles)
    {
      updatingId := None;
      if success {
        profiles := SetAdmin(profiles, userId, !currentValue);
      }
    }

    /** `handleToggleAdmin(userId, currentValue)`, with `success` the update's answer. */
    method HandleToggleAdmin(userId: string, currentValue: bool, success: bool)
      modifies this
      ensures updatingId == None
      ensures success ==> profiles == SetAdmin(old(profiles), userId, !currentValue)
      ensures !success ==> profiles == old(profiles)
    {
      BeginToggle(userId);
      EndToggle(userId, currentValue, success);
    }
  }
}
