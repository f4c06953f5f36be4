/** The Redis helpers of the password-reset flow: a key-value store whose
    entries may carry an expiry instant, read through an abstract clock.
    An entry read at or after its expiry is absent. The connection and its
    lifecycle events are not part of this model. */
module Cache {
  import opened Common

  type Key = string

  /** Seconds on the cache server's clock. */
  type Time = nat

  /** An `EX` argument: the cache refuses a non-positive expiry. */
  type Ttl = n: nat | n > 0 witness 1

  /** A stored string and the instant it expires at (`None`: never). */
  datatype Entry = Entry(value: string, expiresAt: Option<Time>)

  type Store = map<Key, Entry>

  predicate Live(e: Entry, now: Time) {
    e.expiresAt.None? || now < e.expiresAt.value
  }

  /** `GET`: the value of a live entry, `None` (Redis `null`) otherwise. */
  function Get(c: Store, key: Key, now: Time): (r: Option<string>)
    ensures r.Some? <==> key in c && Live(c[key], now)
    ensures r.Some? ==> r.value == c[key].value
  {
    if key in c && Live(c[key], now) then Some(c[key].value) else None
  }

  /** `SET key value`: a plain SET also drops any earlier expiry. */
  function Set(c: Store, key: Key, value: string): Store {
    c[key := Entry(value, None)]
  }

  /** `SET key value EX ttl`. */
  function SetEx(c: Store, key: Key, value: string, ttl: Ttl, now: Time): Store {
    c[key := Entry(value, Some(now + ttl))]
  }

  /** `DEL key`. */
  function Del(c: Store, key: Key): Store {
    c - {key}
  }

  /** True when every key other than those in `keys` reads the same in both
      stores at every instant. */
  ghost predicate SameElsewhere(c: Store, c': Store, keys: set<Key>) {
    forall k, t :: k !in keys ==> Get(c', k, t) == Get(c, k, t)
  }

  // ---- key namespaces ----

  const OtpPrefix := "otp:"
  const ResetPrefix := "reset:"

  function OtpKey(email: string): Key {
    OtpPrefix + email
  }

  function ResetKey(email: string): Key {
    ResetPrefix + email
  }

  /** The e-mail an `otp:` key belongs to (the inverse of `OtpKey`). */
  function OtpEmail(key: Key): Option<string> {
    if |key| >= |OtpPrefix| && key[..|OtpPrefix|] == OtpPrefix
    then Some(key[|OtpPrefix|..]) else None
  }

  /** The e-mail a `reset:` key belongs to (the inverse of `ResetKey`). */
  function ResetEmail(key: Key): Option<string> {
    if |key| >= |ResetPrefix| && key[..|ResetPrefix|] == ResetPrefix
    then Some(key[|ResetPrefix|..]) else None
  }

  /** A key is the OTP key of `email` exactly when it parses back to it. */
  lemma OtpKeyRoundTrip(key: Key, email: string)
    ensures OtpEmail(key) == Some(email) <==> key == OtpKey(email)
  {
    if key == OtpKey(email) {
      assert key[..|OtpPrefix|] == OtpPrefix;
      assert key[|OtpPrefix|..] == email;
    }
    if OtpEmail(key) == Some(email) {
      assert key == key[..|OtpPrefix|] + key[|OtpPrefix|..];
    }
  }

  /** A key is the reset key of `email` exactly when it parses back to it. */
  lemma ResetKeyRoundTrip(key: Key, email: string)
    ensures ResetEmail(key) == Some(email) <==> key == ResetKey(email)
  {
    if key == ResetKey(email) {
      assert key[..|ResetPrefix|] == ResetPrefix;
      assert key[|ResetPrefix|..] == email;
    }
    if ResetEmail(key) == Some(email) {
      assert key == key[..|ResetPrefix|] + key[|ResetPrefix|..];
    }
  }

  /** Each key function is injective, and no OTP key is a reset key, so the
      two records of one e-mail, and the records of different e-mails,
      never overwrite each other. */
  lemma KeysSeparate(e1: string, e2: string)
    ensures OtpKey(e1) == OtpKey(e2) <==> e1 == e2
    ensures ResetKey(e1) == ResetKey(e2) <==> e1 == e2
    ensures OtpKey(e1) != ResetKey(e2)
  {
    OtpKeyRoundTrip(OtpKey(e1), e1);
    OtpKeyRoundTrip(OtpKey(e1), e2);
    ResetKeyRoundTrip(ResetKey(e1), e1);
    ResetKeyRoundTrip(ResetKey(e1), e2);
    assert OtpKey(e1)[0] == 'o' && ResetKey(e2)[0] == 'r';
  }

  // ---- the helpers of the configuration module ----

  const DefaultOtpTtl: Ttl := 300
  const DefaultResetTtl: Ttl := 900

  /** `setToken`: stored without expiry, so every later read sees it. */
  function SetToken(c: Store, key: Key, value: string): (c': Store)
    ensures forall t :: Get(c', key, t) == Some(value)
    ensures SameElsewhere(c, c', {key})
  {
    Set(c, key, value)
  }

  /** `getToken`: the value of a live entry, absent otherwise. */
  function GetToken(c: Store, key: Key, now: Time): (r: Option<string>)
    ensures r.Some? <==> key in c && Live(c[key], now)
    ensures r.Some? ==> r.value == c[key].value
  {
    Get(c, key, now)
  }

  /** `deleteToken`: the key reads absent from then on. */
  function DeleteToken(c: Store, key: Key): (c': Store)
    ensures forall t :: GetToken(c', key, t).None?
    ensures SameElsewhere(c, c', {key})
  {
    Del(c, key)
  }

  /** `storeOTP`: the code reads back under `otp:<email>` until the expiry
      and is absent from the expiry on; no other key changes. */
  function StoreOtp(c: Store, email: string, otp: string, now: Time, expiresIn: Ttl := DefaultOtpTtl): (c': Store)
    ensures forall t :: now <= t < now + expiresIn ==> Get(c', OtpKey(email), t) == Some(otp)
    ensures forall t :: now + expiresIn <= t ==> Get(c', OtpKey(email), t).None?
    ensures SameElsewhere(c, c', {OtpKey(email)})
  {
    SetEx(c, OtpKey(email), otp, expiresIn, now)
  }

  /** `getOTP`. */
  function GetOtp(c: Store, email: string, now: Time): (r: Option<string>)
    ensures r.Some? <==> OtpKey(email) in c && Live(c[OtpKey(email)], now)
    ensures r.Some? ==> r.value == c[OtpKey(email)].value
  {
    Get(c, OtpKey(email), now)
  }

  /** `deleteOTP`: removes `otp:<email>` and keeps every other entry. */
  function DeleteOtp(c: Store, email: string): (c': Store)
    ensures OtpKey(email) !in c'
    ensures forall k :: k != OtpKey(email) ==> (k in c' <==> k in c)
    ensures forall k :: k in c' ==> c'[k] == c[k]
  {
    Del(c, OtpKey(email))
  }

  /** `storeResetToken`: the token reads back under `reset:<email>` until
      the expiry and is absent from the expiry on; no other key changes. */
  function StoreResetToken(c: Store, email: string, token: string, now: Time, expiresIn: Ttl := DefaultResetTtl): (c': Store)
    ensures forall t :: now <= t < now + expiresIn ==> Get(c', ResetKey(email), t) == Some(token)
    ensures forall t :: now + expiresIn <= t ==> Get(c', ResetKey(email), t).None?
    ensures SameElsewhere(c, c', {ResetKey(email)})
  {
    SetEx(c, ResetKey(email), token, expiresIn, now)
  }

  /** The JavaScript value the cache client hands back from `GET`. */
  function AsJs(r: Option<string>): JsValue {
    match r
    case None => Null
    case Some(v) => Str(v)
  }

  /** `verifyResetToken` as written: `storedToken === token`. An absent key
      reads as `null`, so a `null` token is accepted when no reset token is
      live. */
  function VerifyResetTokenAsWritten(c: Store, email: string, token: JsValue, now: Time): (ok: bool)
    ensures ok <==>
              (token.Str? && Get(c, ResetKey(email), now) == Some(token.s))
              || (token == Null && Get(c, ResetKey(email), now).None?)
  {
    AsJs(Get(c, ResetKey(email), now)) == token
  }

  /** `verifyResetToken` as evidently intended: accepted exactly when a live
      reset token exists and the supplied value is that very string. */
  function VerifyResetToken(c: Store, email: string, token: JsValue, now: Time): (ok: bool)
    ensures ok <==> token.Str? && Get(c, ResetKey(email), now) == Some(token.s)
    ensures ok ==> VerifyResetTokenAsWritten(c, email, token, now)
  {
    match Get(c, ResetKey(email), now)
    case None => false
    case Some(v) => token == Str(v)
  }

  /** The discrepancy: with no reset token on record, the helper as written
      accepts `null`, while the intended check refuses it. */
  lemma NullTokenAcceptedWhenAbsent(c: Store, email: string, now: Time)
    requires Get(c, ResetKey(email), now).None?
    ensures VerifyResetTokenAsWritten(c, email, Null, now)
    ensures !VerifyResetToken(c, email, Null, now)
  {
  }

  /** `deleteResetToken`: removes `reset:<email>` and keeps every other
      entry. */
  function DeleteResetToken(c: Store, email: string): (c': Store)
    ensures ResetKey(email) !in c'
    ensures forall k :: k != ResetKey(email) ==> (k in c' <==> k in c)
    ensures forall k :: k in c' ==> c'[k] == c[k]
  {
    Del(c, ResetKey(email))
  }
}
