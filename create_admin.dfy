/**
 * scripts/create-admin.ts: seed the first administrator and the default
 * registration setting, doing nothing when the administrator exists.
 */
module CreateAdminScript {
  import opened Wrappers
  import opened Permissions
  import opened Store
  import opened RegistrationRoute

  const AdminEmail := "admin@example.com"
  const AdminName := "Admin User"
  const RegistrationDescription := "Allow new user registrations"

  /** `prisma.user.findUnique({ where: { email } })` finds a row. */
  predicate HasUserWithEmail(users: seq<User>, email: string) {
    exists i :: 0 <= i < |users| && users[i].email == email
  }

  /** The two tables the script touches. */
  datatype State = State(users: seq<User>, settings: map<string, Setting>)

  /** What one run of the script leaves behind. `passwordHash` is the bcrypt hash of the fixed password. */
  function Seed(s: State, passwordHash: string): (r: State)
    ensures HasUserWithEmail(s.users, AdminEmail) ==> r == s
    ensures !HasUserWithEmail(s.users, AdminEmail) ==>
              r.users == s.users + [User(AdminEmail, AdminName, passwordHash, Admin)]
    ensures !HasUserWithEmail(s.users, AdminEmail) && AllowRegistrationKey in s.settings ==>
              r.settings == s.settings
    ensures !HasUserWithEmail(s.users, AdminEmail) && AllowRegistrationKey !in s.settings ==>
              r.settings == s.settings[AllowRegistrationKey := Setting("true", Some(RegistrationDescription))]
  {
    if HasUserWithEmail(s.users, AdminEmail) then s
    else
      var users := s.users + [User(AdminEmail, AdminName, passwordHash, Admin)];
      var settings := UpsertEntries(s.settings, AllowRegistrationKey, SettingUpdate(None, None),
                                    Setting("true", Some(RegistrationDescription)));
      assert AllowRegistrationKey in s.settings ==> settings == s.settings;
      State(users, settings)
  }

  /** `createAdmin()` over the user and settings tables. */
  method CreateAdmin(users: UserTable, settings: SettingsTable, passwordHash: string)
    modifies users, settings
    ensures State(users.rows, settings.entries) == Seed(State(old(users.rows), old(settings.entries)), passwordHash)
  {
    var existing := false;
    var i := 0;
    while i < |users.rows|
      invariant 0 <= i <= |users.rows|
      invariant existing <==> exists j :: 0 <= j < i && users.rows[j].email == AdminEmail
    {
      if users.rows[i].email == AdminEmail {
        existing := true;
      }
      i := i + 1;
    }
    if existing {
      return;
    }
    users.Create(User(AdminEmail, AdminName, passwordHash, Admin));
    settings.Upsert(AllowRegistrationKey, SettingUpdate(None, None), Setting("true", Some(RegistrationDescription)));
  }

  /** Running the script a second time changes nothing, whatever hash that run computes. */
  lemma SeedIdempotent(s: State, hash1: string, hash2: string)
    ensures Seed(Seed(s, hash1), hash2) == Seed(s, hash1)
  {
    var once := Seed(s, hash1);
    if !HasUserWithEmail(s.users, AdminEmail) {
      assert once.users[|s.users|].email == AdminEmail;
      assert HasUserWithEmail(once.users, AdminEmail);
    }
  }

  /** On an empty database the script opens registration; an existing setting keeps its value. */
  lemma SeedRegistration(s: State, hash: string)
    requires !HasUserWithEmail(s.users, AdminEmail)
    ensures AllowRegistrationKey !in s.settings ==> AllowRegistration(Seed(s, hash).settings)
    ensures AllowRegistrationKey in s.settings ==> AllowRegistration(Seed(s, hash).settings) == AllowRegistration(s.settings)
    ensures |Seed(s, hash).users| == |s.users| + 1
  {
  }
}
