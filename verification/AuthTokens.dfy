/** Refresh tokens and their allow-list records, as the auth services share them. */
module AuthTokens {
  import opened Common

  type Id = nat   // user ids, session ids and jtis

  /** (user id, session id) */
  type Key = (Id, Id)

  /** The authentic payload of a signed refresh token. */
  datatype Token = Token(jti: Id, sub: Id, sid: Id)

  datatype AllowRecord = AllowRecord(user: Id, sid: Option<Id>)

  /** `parseAllowRecord` and the session test after it. */
  predicate RecordFits(rec: AllowRecord, t: Token) {
    rec.user == t.sub && (rec.sid.Some? ==> rec.sid.value == t.sid)
  }

  /** The record was stored for a token of session k. */
  predicate Names(rec: AllowRecord, k: Key) {
    rec.user == k.0 && rec.sid == Some(k.1)
  }

  function KeyOf(t: Token): Key {
    (t.sub, t.sid)
  }
}
