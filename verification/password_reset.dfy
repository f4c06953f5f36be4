/** The password-reset flow: request a code, exchange the code for a reset
    token, exchange the token for a new password. Each handler is a pure
    transition over the cache and the user table; the clock, the random
    draw behind the code, the generated token and the hash function are
    parameters, and e-mails are returned as effects that never influence
    the reply. */
module PasswordReset {
  import opened Common
  import Cache
  import Otp
  import Accounts
  import Rows

  datatype State = State(cache: Cache.Store, users: Accounts.Table)

  /** A handler's reply, the reset token in its body (verify only), the
      state it leaves, and the e-mails it dispatches. */
  datatype Step = Step(reply: Reply, resetToken: Option<string>, state: State, mail: seq<Mail>)

  const OtpExpiry: Cache.Ttl := 300
  const ResetExpiry: Cache.Ttl := 900

  const UserNotFound := Reply(NotFound, "User not found with this email address")
  const OtpSent := Reply(Ok, "OTP has been sent to your email address")
  const OtpMissing := Reply(BadRequest, "OTP has expired or was not requested")
  const OtpInvalid := Reply(BadRequest, "Invalid OTP")
  const OtpVerified := Reply(Ok, "OTP verified successfully")
  const TokenInvalid := Reply(BadRequest, "Invalid or expired reset token")
  const PasswordReset := Reply(Ok, "Password has been reset successfully")

  predicate Registered(s: State, email: string) {
    Accounts.FindByEmail(s.users, email).Some?
  }

  function UserOf(s: State, email: string): Accounts.User
    requires Registered(s, email)
  {
    s.users[Accounts.FindByEmail(s.users, email).value]
  }

  /** A failed step: the state is left as it was and nothing is sent. */
  function Refuse(reply: Reply, s: State): Step {
    Step(reply, None, s, [])
  }

  /** `requestPasswordReset`. `draw` stands for the random source. For a
      registered user the new code overwrites any earlier one under
      `otp:<email>` for 300 seconds and is mailed to the user; the reply is
      the same whatever happens to the mail. */
  function RequestPasswordReset(s: State, email: string, draw: nat, now: Cache.Time): (out: Step)
    requires draw < Otp.Draws
    ensures !Registered(s, email) ==> out == Refuse(UserNotFound, s)
    ensures Registered(s, email) ==>
              var code := Otp.GenerateOtp(draw);
              && out.reply == OtpSent
              && out.resetToken.None?
              && out.state.users == s.users
              && (forall t :: now <= t < now + OtpExpiry ==> Cache.GetOtp(out.state.cache, email, t) == Some(code))
              && (forall t :: now + OtpExpiry <= t ==> Cache.GetOtp(out.state.cache, email, t).None?)
              && Cache.SameElsewhere(s.cache, out.state.cache, {Cache.OtpKey(email)})
              && out.mail == [OtpMail(UserOf(s, email).email, UserOf(s, email).name, code)]
  {
    match Accounts.FindByEmail(s.users, email)
    case None => Refuse(UserNotFound, s)
    case Some(i) =>
      var code := Otp.GenerateOtp(draw);
      var cache' := Cache.StoreOtp(s.cache, email, code, now, OtpExpiry);
      Step(OtpSent, None, s.(cache := cache'), [OtpMail(s.users[i].email, s.users[i].name, code)])
  }

  /** The code on record counts only when it is a non-empty string
      (`if (!storedOTP)`). */
  predicate OtpOnRecord(s: State, email: string, now: Cache.Time) {
    var stored := Cache.GetOtp(s.cache, email, now);
    stored.Some? && stored.value != ""
  }

  /** `verifyOTP`. `token` is the freshly generated reset token. A matching
      code is consumed and replaced by the token under `reset:<email>` for
      900 seconds; every refusal leaves the state as it was. */
  function VerifyOtp(s: State, email: string, otp: JsValue, token: string, now: Cache.Time): (out: Step)
    ensures !Registered(s, email) ==> out == Refuse(UserNotFound, s)
    ensures Registered(s, email) && !OtpOnRecord(s, email, now) ==> out == Refuse(OtpMissing, s)
    ensures (Registered(s, email) && OtpOnRecord(s, email, now) &&
             otp != Str(Cache.GetOtp(s.cache, email, now).value)) ==> out == Refuse(OtpInvalid, s)
    ensures out.reply.status == Ok <==>
              Registered(s, email) && OtpOnRecord(s, email, now)
              && otp == Str(Cache.GetOtp(s.cache, email, now).value)
    ensures out.reply.status == Ok ==>
              && out.reply == OtpVerified
              && out.resetToken == Some(token)
              && out.state.users == s.users
              && out.mail == []
              && (forall t :: Cache.GetOtp(out.state.cache, email, t).None?)
              && (forall t :: now <= t < now + ResetExpiry ==> Cache.Get(out.state.cache, Cache.ResetKey(email), t) == Some(token))
              && (forall t :: now + ResetExpiry <= t ==> Cache.Get(out.state.cache, Cache.ResetKey(email), t).None?)
              && Cache.SameElsewhere(s.cache, out.state.cache, {Cache.OtpKey(email), Cache.ResetKey(email)})
  {
    if !Registered(s, email) then Refuse(UserNotFound, s)
    else if !OtpOnRecord(s, email, now) then Refuse(OtpMissing, s)
    else if otp != Str(Cache.GetOtp(s.cache, email, now).value) then Refuse(OtpInvalid, s)
    else
      Cache.KeysSeparate(email, email);
      var cache' := Cache.DeleteOtp(Cache.StoreResetToken(s.cache, email, token, now, ResetExpiry), email);
      Step(OtpVerified, Some(token), s.(cache := cache'), [])
  }

  /** The password update of a successful reset: only when the new password
      is truthy, and only on the user's own row. */
  function SetPassword(users: Accounts.Table, i: nat, newPassword: string, hash: string -> string): Accounts.Table
    requires i < |users|
  {
    if newPassword != "" then users[i := users[i].(password := hash(newPassword))] else users
  }

  /** The effect of a reset once the token check has passed. */
  function CompleteReset(s: State, email: string, newPassword: string, hash: string -> string): Step
    requires Registered(s, email)
  {
    var i := Accounts.FindByEmail(s.users, email).value;
    var users' := SetPassword(s.users, i, newPassword, hash);
    var cache' := Cache.DeleteResetToken(s.cache, email);
    Step(PasswordReset, None, State(cache', users'), [ResetConfirmation(s.users[i].email, s.users[i].name)])
  }

  /** `resetPassword`, with the token check as evidently intended. A
      refused token leaves the password untouched; an accepted one is
      consumed, and the stored digest becomes the hash of the new password
      when one is given. */
  function ResetPassword(s: State, email: string, resetToken: JsValue, newPassword: string,
                         hash: string -> string, now: Cache.Time): (out: Step)
    ensures !Registered(s, email) ==> out == Refuse(UserNotFound, s)
    ensures Registered(s, email) && !Cache.VerifyResetToken(s.cache, email, resetToken, now) ==>
              out == Refuse(TokenInvalid, s)
    ensures out.reply.status == Ok <==>
              Registered(s, email) && resetToken.Str?
              && Cache.Get(s.cache, Cache.ResetKey(email), now) == Some(resetToken.s)
    ensures out.reply.status == Ok ==>
              var i := Accounts.FindByEmail(s.users, email).value;
              && out.reply == PasswordReset
              && |out.state.users| == |s.users|
              && out.state.users[i].password == (if newPassword != "" then hash(newPassword) else s.users[i].password)
              && out.state.users[i] == s.users[i].(password := out.state.users[i].password)
              && (forall k :: 0 <= k < |s.users| && k != i ==> out.state.users[k] == s.users[k])
              && (forall t :: Cache.Get(out.state.cache, Cache.ResetKey(email), t).None?)
              && Cache.SameElsewhere(s.cache, out.state.cache, {Cache.ResetKey(email)})
              && out.mail == [ResetConfirmation(s.users[i].email, s.users[i].name)]
  {
    if !Registered(s, email) then Refuse(UserNotFound, s)
    else if !Cache.VerifyResetToken(s.cache, email, resetToken, now) then Refuse(TokenInvalid, s)
    else CompleteReset(s, email, newPassword, hash)
  }

  /** `resetPassword` as written, over the `===` token check. */
  function ResetPasswordAsWritten(s: State, email: string, resetToken: JsValue, newPassword: string,
                                  hash: string -> string, now: Cache.Time): (out: Step)
    ensures !Registered(s, email) ==> out == Refuse(UserNotFound, s)
    ensures out.reply.status == Ok <==>
              && Registered(s, email)
              && ((resetToken.Str? && Cache.Get(s.cache, Cache.ResetKey(email), now) == Some(resetToken.s))
                  || (resetToken == Null && Cache.Get(s.cache, Cache.ResetKey(email), now).None?))
    ensures out.reply.status != Ok ==> out.state == s && out.mail == []
    ensures Registered(s, email) && Cache.VerifyResetToken(s.cache, email, resetToken, now) ==>
              out == ResetPassword(s, email, resetToken, newPassword, hash, now)
  {
    if !Registered(s, email) then Refuse(UserNotFound, s)
    else if !Cache.VerifyResetTokenAsWritten(s.cache, email, resetToken, now) then Refuse(TokenInvalid, s)
    else CompleteReset(s, email, newPassword, hash)
  }

  /** The discrepancy at the flow level: with no reset token on record (no
      code was ever verified), a `null` token resets a registered user's
      password as written, while the intended check refuses it. */
  lemma NullTokenResetsWithoutOtp(s: State, email: string, newPassword: string,
                                  hash: string -> string, now: Cache.Time)
    requires Registered(s, email)
    requires Cache.Get(s.cache, Cache.ResetKey(email), now).None?
    requires newPassword != ""
    ensures var out := ResetPasswordAsWritten(s, email, Null, newPassword, hash, now);
            && out.reply == PasswordReset
            && Registered(out.state, email)
            && UserOf(out.state, email).password == hash(newPassword)
    ensures ResetPassword(s, email, Null, newPassword, hash, now) == Refuse(TokenInvalid, s)
  {
    var out := ResetPasswordAsWritten(s, email, Null, newPassword, hash, now);
    var i := Accounts.FindByEmail(s.users, email).value;
    Cache.NullTokenAcceptedWhenAbsent(s.cache, email, now);
    Rows.SameKeysSameIndex(s.users, out.state.users, Accounts.EmailOf, email);
  }

  // ---- properties of runs of the flow ----

  /** A matching code works once: a second verification with it fails,
      whenever it happens, unless a new code is requested in between. */
  lemma VerifyIsSingleUse(s: State, email: string, otp: JsValue, token: string, now: Cache.Time,
                          token2: string, later: Cache.Time)
    requires VerifyOtp(s, email, otp, token, now).reply.status == Ok
    ensures var s' := VerifyOtp(s, email, otp, token, now).state;
            VerifyOtp(s', email, otp, token2, later) == Refuse(OtpMissing, s')
  {
  }

  /** After a request, a wrong guess within the code's 300 seconds is
      refused and changes nothing, so the mailed code still verifies at any
      instant of that window. */
  lemma {:induction false} WrongCodeKeepsCode(s: State, email: string, draw: nat, wrong: JsValue,
                                              token: string, t0: Cache.Time, now: Cache.Time, later: Cache.Time)
    requires draw < Otp.Draws && Registered(s, email)
    requires wrong != Str(Otp.GenerateOtp(draw))
    requires t0 <= now < t0 + OtpExpiry && t0 <= later < t0 + OtpExpiry
    ensures var s1 := RequestPasswordReset(s, email, draw, t0).state;
            var r := VerifyOtp(s1, email, wrong, token, now);
            && r == Refuse(OtpInvalid, s1)
            && VerifyOtp(r.state, email, Str(Otp.GenerateOtp(draw)), token, later).reply == OtpVerified
  {
    var code := Otp.GenerateOtp(draw);
    var s1 := RequestPasswordReset(s, email, draw, t0).state;
    assert |code| == 5;
    assert s1.users == s.users;
    assert Cache.GetOtp(s1.cache, email, now) == Some(code);
    assert Cache.GetOtp(s1.cache, email, later) == Some(code);
  }

  /** A code not verified within 300 seconds is refused as expired, right
      or wrong. */
  lemma CodeExpires(s: State, email: string, draw: nat, now: Cache.Time,
                    otp: JsValue, token: string, later: Cache.Time)
    requires draw < Otp.Draws && Registered(s, email)
    requires now + OtpExpiry <= later
    ensures var s' := RequestPasswordReset(s, email, draw, now).state;
            VerifyOtp(s', email, otp, token, later) == Refuse(OtpMissing, s')
  {
  }

  /** A reset token works once: replaying it fails, whenever it happens. */
  lemma ResetTokenIsSingleUse(s: State, email: string, token: JsValue, p1: string, p2: string,
                              hash: string -> string, now: Cache.Time, later: Cache.Time)
    requires ResetPassword(s, email, token, p1, hash, now).reply.status == Ok
    ensures var s' := ResetPassword(s, email, token, p1, hash, now).state;
            ResetPassword(s', email, token, p2, hash, later) == Refuse(TokenInvalid, s')
  {
    var s' := ResetPassword(s, email, token, p1, hash, now).state;
    Rows.SameKeysSameIndex(s.users, s'.users, Accounts.EmailOf, email);
  }

  /** A token not used within 900 seconds is refused, even the right one. */
  lemma ResetTokenExpires(s: State, email: string, otp: JsValue, token: string, now: Cache.Time,
                          newPassword: string, hash: string -> string, later: Cache.Time)
    requires VerifyOtp(s, email, otp, token, now).reply.status == Ok
    requires now + ResetExpiry <= later
    ensures var s' := VerifyOtp(s, email, otp, token, now).state;
            ResetPassword(s', email, Str(token), newPassword, hash, later) == Refuse(TokenInvalid, s')
  {
  }

  /** For an unregistered e-mail every step of the flow is refused with the
      same reply and changes nothing, whatever else is supplied. */
  lemma UnknownEmailIsInert(s: State, email: string, draw: nat, otp: JsValue, token: string,
                            resetToken: JsValue, newPassword: string, hash: string -> string, now: Cache.Time)
    requires draw < Otp.Draws && !Registered(s, email)
    ensures RequestPasswordReset(s, email, draw, now) == Refuse(UserNotFound, s)
    ensures VerifyOtp(s, email, otp, token, now) == Refuse(UserNotFound, s)
    ensures ResetPassword(s, email, resetToken, newPassword, hash, now) == Refuse(UserNotFound, s)
  {
  }

  /** The whole flow: request a code, verify it within 300 seconds, reset
      with the returned token within 900 seconds. Every step succeeds, the
      user's digest is the hash of the new password, and the new password
      logs in (an old one only if it hashes alike). */
  lemma {:induction false} EndToEnd(s: State, email: string, draw: nat, token: string, newPassword: string,
                                    other: string, hash: string -> string, sign: string -> string,
                                    t0: Cache.Time, t1: Cache.Time, t2: Cache.Time)
    requires draw < Otp.Draws && Registered(s, email)
    requires t0 <= t1 < t0 + OtpExpiry && t1 <= t2 < t1 + ResetExpiry
    requires newPassword != ""
    ensures var r1 := RequestPasswordReset(s, email, draw, t0);
            var r2 := VerifyOtp(r1.state, email, Str(Otp.GenerateOtp(draw)), token, t1);
            var r3 := ResetPassword(r2.state, email, Str(token), newPassword, hash, t2);
            && r1.reply == OtpSent && r2.reply == OtpVerified && r2.resetToken == Some(token)
            && r3.reply == PasswordReset
            && UserOf(r3.state, email).password == hash(newPassword)
            && Accounts.Login(r3.state.users, email, Str(newPassword), hash, sign).Accepted?
            && (Accounts.Login(r3.state.users, email, Str(other), hash, sign).Accepted? <==> hash(other) == hash(newPassword))
  {
    var r1 := RequestPasswordReset(s, email, draw, t0);
    var r2 := VerifyOtp(r1.state, email, Str(Otp.GenerateOtp(draw)), token, t1);
    assert r2.reply == OtpVerified;
    var r3 := ResetPassword(r2.state, email, Str(token), newPassword, hash, t2);
    assert r3.reply == PasswordReset;
    Rows.SameKeysSameIndex(s.users, r3.state.users, Accounts.EmailOf, email);
  }

  /** The code does not keep a code and a reset token mutually exclusive: a
      new request after a successful verification leaves both live. */
  lemma CodeAndTokenCanCoexist(s: State, email: string, otp: JsValue, token: string, draw: nat,
                               t1: Cache.Time, t2: Cache.Time)
    requires draw < Otp.Draws
    requires VerifyOtp(s, email, otp, token, t1).reply.status == Ok
    requires t1 <= t2 < t1 + ResetExpiry
    ensures var s1 := VerifyOtp(s, email, otp, token, t1).state;
            var s2 := RequestPasswordReset(s1, email, draw, t2).state;
            && Cache.GetOtp(s2.cache, email, t2) == Some(Otp.GenerateOtp(draw))
            && Cache.Get(s2.cache, Cache.ResetKey(email), t2) == Some(token)
  {
    Cache.KeysSeparate(email, email);
  }
}
