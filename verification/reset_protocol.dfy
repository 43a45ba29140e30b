/** Properties of the password-reset protocol that span several requests:
    the one-active-code invariant, supersession of earlier codes, the code
    lifetime boundary and single use. */
module ResetProtocol {
  import opened Wrappers
  import Otp
  import Accounts
  import Http
  import AuthRoutes

  /** Issuing keeps every user at no more than one valid code at the
      instant of issuance. */
  lemma ForgotPasswordKeepsOneActive(
    db: Accounts.Db, email: Option<string>, emailConfigured: bool, draws: Otp.OtpDraws, now: nat)
    requires Otp.AtMostOneActive(db.otps, now)
    ensures Otp.AtMostOneActive(AuthRoutes.ForgotPassword(db, email, emailConfigured, draws, now).db.otps, now)
  {
    var o := AuthRoutes.ForgotPassword(db, email, emailConfigured, draws, now);
    if o.db != db {
      var k := Accounts.FindUserByEmail(db.users, email.value);
      var user := db.users[k.value].ulid;
      var row := Otp.NewOtp(user, Otp.GenerateOtp(draws), now, Otp.DefaultExpiryMinutes);
      forall u
        ensures Otp.ActiveCount(o.db.otps, u, now) <= 1
      {
        if u != user {
          Otp.ActiveCountInvalidate(db.otps, user, u, now);
          Otp.ActiveCountAppend(Otp.InvalidateAllUserOtps(db.otps, user, now), [row], u, now);
        }
      }
    }
  }

  /** A successful reset consumes a valid code and adds none. */
  lemma ResetPasswordKeepsOneActive(db: Accounts.Db, form: AuthRoutes.ResetForm, emailValid: bool, now: nat)
    requires Otp.AtMostOneActive(db.otps, now)
    ensures Otp.AtMostOneActive(AuthRoutes.ResetPassword(db, form, emailValid, now).db.otps, now)
  {
    var o := AuthRoutes.ResetPassword(db, form, emailValid, now);
    if o.response.status == 200 {
      var k := Accounts.FindUserByEmail(db.users, form.email.value).value;
      var j := Otp.GetLatestValidOtp(db.otps, db.users[k].ulid, now).value;
      forall u
        ensures Otp.ActiveCount(o.db.otps, u, now) <= 1
      {
        Otp.ActiveCountUpdate(db.otps, j, Otp.MarkAsUsed(db.otps[j], now), u, now);
      }
    }
  }

  /** A consumed code cannot be used again: the same reset request, at the
      same or any later time, finds no valid code. */
  lemma ResetTwiceFails(db: Accounts.Db, form: AuthRoutes.ResetForm, emailValid: bool, now: nat, later: nat)
    requires Otp.AtMostOneActive(db.otps, now) && now <= later
    requires AuthRoutes.ResetPassword(db, form, emailValid, now).response.status == 200
    ensures AuthRoutes.ResetPassword(AuthRoutes.ResetPassword(db, form, emailValid, now).db, form, emailValid, later).response
            == Http.Error(400, AuthRoutes.NoValidOtpText)
  {
    var o := AuthRoutes.ResetPassword(db, form, emailValid, now);
    var k := Accounts.FindUserByEmail(db.users, form.email.value).value;
    var user := db.users[k].ulid;
    var j := Otp.GetLatestValidOtp(db.otps, user, now).value;
    // the email lookup still finds the same user
    Accounts.FindUserByEmailUpdate(db.users, k, o.db.users[k], form.email.value);
    assert o.db.users == db.users[k := o.db.users[k]];
    // the consumed row was the user's only valid code
    Otp.ActiveCountZero(db.otps, user, now);
    Otp.ActiveCountUpdate(db.otps, j, Otp.MarkAsUsed(db.otps[j], now), user, now);
    assert Otp.ActiveCount(o.db.otps, user, now) == 0;
    Otp.ActiveCountLater(o.db.otps, user, now, later);
    Otp.ActiveCountZero(o.db.otps, user, later);
    assert Otp.GetLatestValidOtp(o.db.otps, user, later).None?;
  }

  /** Asking twice: only the second code verifies; the first is reported
      as an invalid code. */
  lemma ReissueSupersedes(
    db: Accounts.Db, email: string, d1: Otp.OtpDraws, d2: Otp.OtpDraws, t1: nat, t2: nat)
    requires Accounts.FindUserByEmail(db.users, email).Some?
    requires t1 <= t2 && Otp.GenerateOtp(d1) != Otp.GenerateOtp(d2)
    ensures
      var o1 := AuthRoutes.ForgotPassword(db, Some(email), true, d1, t1);
      var o2 := AuthRoutes.ForgotPassword(o1.db, Some(email), true, d2, t2);
      && AuthRoutes.VerifyResetOtp(o2.db, Some(email), Some(Otp.GenerateOtp(d1)), true, t2).response
         == Http.Error(400, AuthRoutes.InvalidOtpText)
      && AuthRoutes.VerifyResetOtp(o2.db, Some(email), Some(Otp.GenerateOtp(d2)), true, t2).response.status == 200
  {
    var o1 := AuthRoutes.ForgotPassword(db, Some(email), true, d1, t1);
    assert o1.db.users == db.users;
  }

  /** A code issued at `t0` verifies strictly before `t0 + 15 min` and is
      indistinguishable from no code from that instant on. */
  lemma CodeLifetime(db: Accounts.Db, email: string, draws: Otp.OtpDraws, t0: nat, t: nat)
    requires Accounts.FindUserByEmail(db.users, email).Some?
    requires t0 <= t
    ensures
      var o := AuthRoutes.ForgotPassword(db, Some(email), true, draws, t0);
      var r := AuthRoutes.VerifyResetOtp(o.db, Some(email), Some(Otp.GenerateOtp(draws)), true, t).response;
      && (t < t0 + Otp.DefaultExpiryMinutes * Otp.SecondsPerMinute ==> r.status == 200)
      && (t >= t0 + Otp.DefaultExpiryMinutes * Otp.SecondsPerMinute ==> r == Http.Error(400, AuthRoutes.NoValidOtpText))
  {
    var o := AuthRoutes.ForgotPassword(db, Some(email), true, draws, t0);
    var k := Accounts.FindUserByEmail(db.users, email).value;
    var user := db.users[k].ulid;
    assert o.db.users == db.users;
    var otps := o.db.otps;
    assert otps == AuthRoutes.IssueOtp(db.otps, user, Otp.GenerateOtp(draws), t0);
    assert forall i :: 0 <= i < |db.otps| && otps[i].userId == user ==> otps[i].isUsed;
    var latest := Otp.GetLatestValidOtp(otps, user, t);
    if t < t0 + Otp.DefaultExpiryMinutes * Otp.SecondsPerMinute {
      assert Otp.Candidate(otps[|db.otps|], user, t);
      assert latest.Some? && latest.value == |db.otps|;
    } else {
      assert !Otp.Candidate(otps[|db.otps|], user, t);
      assert latest.None?;
    }
  }
}
