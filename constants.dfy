/**
 * The plugin's fixed policy: the redaction marker, the key names that are
 * always redacted or always ignored, and the names of the audit stamp group
 * and its fields.
 */
module Constants {
  import opened JsValue

  const AuditLogsSlug: string := "audit-logs"
  const DefaultUsernameField: string := "email"
  const DefaultUsername: string := "System"
  const DefaultId: string := "-"
  const AuditGroupName: string := "audit"
  const UpdatedByFieldName: string := "updatedBy"
  const CreatedByFieldName: string := "createdBy"
  const CreatedAtFieldName: string := "createdAt"
  const UpdatedAtFieldName: string := "updatedAt"
  const PublishedByFieldName: string := "publishedBy"
  const PublishedAtFieldName: string := "publishedAt"

  /** The marker written in place of a sensitive value. */
  const Redacted: string := "[REDACTED]"

  /** Key names redacted wherever the diff or `redactKeys` looks at a key; a value the diff stores raw keeps its contents. */
  const GlobalRedactKeys: seq<string> := [
    "password",
    "passwordConfirm",
    "secret",
    "token",
    "resetToken",
    "apiKey",
    "privateKey",
    "refreshToken",
    "accessToken",
    "sessionToken",
    "sessionSecret",
    "salt",
    "hash",
    "loginAttempts",
    "lockUntil",
    "sessions",
    "cvc"
  ]

  /** Key names left out of a diff at every level it descends into. */
  const GlobalIgnoreKeys: seq<string> := ["loginAt", "lastLogin", "audit"]

  /** The global lists are fixed: 17 distinct redacted names and 3 distinct ignored names. */
  lemma GlobalListsAreDistinct()
    ensures |GlobalRedactKeys| == 17 && NoDup(GlobalRedactKeys)
    ensures |GlobalIgnoreKeys| == 3 && NoDup(GlobalIgnoreKeys)
  {
  }

  /** No key name is both always redacted and always ignored. */
  lemma GlobalListsDisjoint()
    ensures forall k :: k in GlobalRedactKeys ==> k !in GlobalIgnoreKeys
  {
  }

  /** The group that the stamping hook fills is one of the ignored names. */
  lemma AuditGroupIsIgnored()
    ensures AuditGroupName in GlobalIgnoreKeys
    ensures AuditGroupName !in GlobalRedactKeys
  {
  }

  /** The six stamp fields are distinct names. */
  lemma StampFieldNamesDistinct()
    ensures NoDup([CreatedByFieldName, CreatedAtFieldName, UpdatedByFieldName,
                   UpdatedAtFieldName, PublishedByFieldName, PublishedAtFieldName])
  {
  }
}
