/**
 * src/app/api/settings/route.ts: administrators read and upsert the
 * key/value settings table.
 */
module SettingsRoute {
  import opened Wrappers
  import opened Permissions
  import opened Store

  /** `session?.user?.id && isAdmin(session.user.role)`. */
  predicate IsAdminSession(session: Session) {
    SessionUserId(session).Some? && IsAdmin(session.value.role)
  }

  /** A GET with a `key` answers one row (or `null`); without one, every row. */
  datatype SettingsBody = One(setting: Option<Setting>) | All(entries: map<string, Setting>)

  /** GET /api/settings. */
  function GetSettings(entries: map<string, Setting>, session: Session, key: Option<string>)
    : (r: Response<SettingsBody>)
    ensures !IsAdminSession(session) <==> r == Failure(401, UnauthorizedMessage)
    ensures IsAdminSession(session) && key.Some? && key.value != "" ==>
              r.Success? && r.body.One? &&
              (r.body.setting.Some? <==> key.value in entries) &&
              (key.value in entries ==> r.body.setting.value == entries[key.value])
    ensures IsAdminSession(session) && (key.None? || key.value == "") ==> r == Success(200, All(entries))
  {
    if !IsAdminSession(session) then Failure(401, UnauthorizedMessage)
    else if key.Some? && key.value != "" then
      Success(200, One(if key.value in entries then Some(entries[key.value]) else None))
    else Success(200, All(entries))
  }

  const MissingKeyValueMessage := "Key and value are required"

  /** The upsert of a POST: `update: { value, description }`, `create: { key, value, description }`. */
  function SaveEntries(m: map<string, Setting>, key: string, value: string, description: Option<string>)
    : map<string, Setting>
  {
    UpsertEntries(m, key, SettingUpdate(Some(value), description), Setting(value, description))
  }

  /** POST /api/settings. `value` is `None` when the body has none (`undefined`);
      `description` is `None` when absent, which leaves an existing description as it was. */
  method SaveSetting(table: SettingsTable, session: Session, key: Option<string>, value: Option<string>,
                     description: Option<string>)
    returns (r: Response<Setting>)
    modifies table
    ensures !IsAdminSession(session) ==>
              r == Failure(401, UnauthorizedMessage) && table.entries == old(table.entries)
    ensures IsAdminSession(session) && (key.None? || key.value == "" || value.None?) ==>
              r == Failure(400, MissingKeyValueMessage) && table.entries == old(table.entries)
    ensures IsAdminSession(session) && key.Some? && key.value != "" && value.Some? ==>
              && table.entries == SaveEntries(old(table.entries), key.value, value.value, description)
              && r == Success(201, table.entries[key.value])
  {
    if !IsAdminSession(session) {
      return Failure(401, UnauthorizedMessage);
    }
    if key.None? || key.value == "" || value.None? {
      return Failure(400, MissingKeyValueMessage);
    }
    table.Upsert(key.value, SettingUpdate(Some(value.value), description), Setting(value.value, description));
    r := Success(201, table.entries[key.value]);
  }

  /** After a save the key holds the given value, and the given description (the old one, or
      none for a new key, when no description was sent); every other key is as it was. */
  lemma SaveSetsKeyOnly(m: map<string, Setting>, key: string, value: string, description: Option<string>)
    ensures key in SaveEntries(m, key, value, description)
    ensures SaveEntries(m, key, value, description)[key].value == value
    ensures description.Some? ==> SaveEntries(m, key, value, description)[key].description == description
    ensures description.None? ==>
              SaveEntries(m, key, value, description)[key].description == (if key in m then m[key].description else None)
    ensures forall k :: k != key ==>
              (k in SaveEntries(m, key, value, description) <==> k in m) &&
              (k in m ==> SaveEntries(m, key, value, description)[k] == m[k])
  {
  }

  /** Saving the same setting twice gives the same table as saving it once. */
  lemma SaveIdempotent(m: map<string, Setting>, key: string, value: string, description: Option<string>)
    ensures SaveEntries(SaveEntries(m, key, value, description), key, value, description)
         == SaveEntries(m, key, value, description)
  {
    UpsertIdempotent(m, key, SettingUpdate(Some(value), description), Setting(value, description));
  }

  /** Reading a key back after saving it gives what was saved. */
  lemma SaveThenGet(m: map<string, Setting>, session: Session, key: string, value: string, description: Option<string>)
    requires IsAdminSession(session) && key != ""
    ensures GetSettings(SaveEntries(m, key, value, description), session, Some(key)).body.setting.value.value == value
  {
  }
}
