/**
 * src/app/api/settings/registration/route.ts: whether sign-up is open,
 * read from the `ALLOW_REGISTRATION` setting.
 */
module RegistrationRoute {
  import opened Store

  const AllowRegistrationKey := "ALLOW_REGISTRATION"

  /** `setting?.value === 'true'`: open only when the entry exists and its value is exactly `'true'`. */
  function AllowRegistration(entries: map<string, Setting>): (allow: bool)
    ensures AllowRegistrationKey !in entries ==> !allow
    ensures AllowRegistrationKey in entries ==> (allow <==> entries[AllowRegistrationKey].value == "true")
  {
    AllowRegistrationKey in entries && entries[AllowRegistrationKey].value == "true"
  }

  /** Only the `ALLOW_REGISTRATION` entry is consulted: tables that agree on it agree on the answer. */
  lemma OnlyRegistrationKeyRead(a: map<string, Setting>, b: map<string, Setting>)
    requires AllowRegistrationKey in a <==> AllowRegistrationKey in b
    requires AllowRegistrationKey in a ==> a[AllowRegistrationKey].value == b[AllowRegistrationKey].value
    ensures AllowRegistration(a) == AllowRegistration(b)
  {
  }

  /** The comparison is exact: other spellings such as `'TRUE'`, `'false'` or `''` keep sign-up closed. */
  lemma OtherValuesClose(entries: map<string, Setting>)
    requires AllowRegistrationKey in entries
    requires entries[AllowRegistrationKey].value in {"TRUE", "false", "", "True", "1"}
    ensures !AllowRegistration(entries)
  {
  }
}
