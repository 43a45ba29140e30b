/** The application wiring in app/__init__.py that belongs to the credential
    lifecycle: the revocation hook consulted on every protected request,
    one iteration of the background sweep and the hourly loop around it,
    and the start-up table creation with retries. */
module App {
  import opened Wrappers
  import Json
  import Http
  import Expiry
  import Blocklist
  import Otp
  import Accounts
  import AuthRoutes

  // ---------------------------------------------------------------------
  // Revocation hook
  // ---------------------------------------------------------------------

  /** `check_if_token_revoked`: the token's `jti` is looked up in the ledger. */
  function CheckIfTokenRevoked(ledger: Blocklist.Ledger, claims: AuthRoutes.TokenClaims): (revoked: bool)
    ensures revoked <==> exists t :: t in ledger && t.jti == claims.jti
  {
    Blocklist.IsJtiBlocklisted(ledger, claims.jti)
  }

  const RevokedText := "Token has been revoked"

  /** `jwt_required` as far as revocation goes: `Some(response)` when the
      request is refused by `revoked_token_callback`, `None` when the view
      runs. */
  function Authorize(ledger: Blocklist.Ledger, claims: AuthRoutes.TokenClaims): (refusal: Option<Http.Response>)
    ensures refusal.Some? <==> CheckIfTokenRevoked(ledger, claims)
    ensures refusal.Some? ==> refusal.value == Http.Response(401, Json.Object([("error", Json.Str(RevokedText))]))
  {
    if CheckIfTokenRevoked(ledger, claims) then Some(Http.Error(401, RevokedText)) else None
  }

  /** The logout endpoint as written, behind its `jwt_required` guard, on
      a host whose local clock is `utcOffset` seconds ahead of UTC. */
  function GuardedLogout(db: Accounts.Db, claims: AuthRoutes.TokenClaims, utcOffset: int, now: nat): (o: AuthRoutes.Outcome)
    requires claims.exp + utcOffset >= 0
    ensures Authorize(db.ledger, claims).Some? ==> o == AuthRoutes.Outcome(db, Http.Error(401, RevokedText))
    ensures Authorize(db.ledger, claims).None? ==> o == AuthRoutes.LogoutAsWritten(db, claims, utcOffset, now)
    // the guard already rejects a revoked token, so the duplicate-key path
    // of the view is never reached through the endpoint
    ensures o.response != Http.Error(400, "Logout failed")
    ensures o.response.status == 200 || o.db == db
  {
    match Authorize(db.ledger, claims)
    case Some(refusal) => AuthRoutes.Outcome(db, refusal)
    case None => AuthRoutes.LogoutAsWritten(db, claims, utcOffset, now)
  }

  /** The same endpoint with the corrected logout, which stores `exp` in
      UTC. */
  function GuardedLogoutCorrected(db: Accounts.Db, claims: AuthRoutes.TokenClaims, now: nat): (o: AuthRoutes.Outcome)
    ensures Authorize(db.ledger, claims).Some? ==> o == AuthRoutes.Outcome(db, Http.Error(401, RevokedText))
    ensures Authorize(db.ledger, claims).None? ==> o == AuthRoutes.Logout(db, claims, now)
    ensures o.response != Http.Error(400, "Logout failed")
    ensures o.response.status == 200 || o.db == db
  {
    match Authorize(db.ledger, claims)
    case Some(refusal) => AuthRoutes.Outcome(db, refusal)
    case None => AuthRoutes.Logout(db, claims, now)
  }

  /** After a successful logout the same token is refused everywhere, a
      second logout included, and that refusal changes nothing.  This holds
      whatever the host's time zone. */
  lemma LogoutThenRefused(db: Accounts.Db, claims: AuthRoutes.TokenClaims, utcOffset: int, now: nat, later: nat)
    requires claims.exp + utcOffset >= 0
    requires GuardedLogout(db, claims, utcOffset, now).response.status == 200
    ensures
      var db' := GuardedLogout(db, claims, utcOffset, now).db;
      && Authorize(db'.ledger, claims) == Some(Http.Error(401, RevokedText))
      && GuardedLogout(db', claims, utcOffset, later) == AuthRoutes.Outcome(db', Http.Error(401, RevokedText))
  {
  }

  // ---------------------------------------------------------------------
  // One sweep iteration
  // ---------------------------------------------------------------------

  /** Where the store raises during an iteration, if anywhere. */
  datatype SweepFault = NoFault | TokenSweepRaises | OtpSweepRaises

  datatype LogLine = TokensCleaned(count: nat) | OtpsCleaned(count: nat) | CleanupFailed

  /** `cleanup_expired_data`: the token sweep, then the OTP sweep, each
      committing on its own; an exception is logged and swallowed, and a
      failing token sweep skips the OTP sweep.  Counts are logged only
      when positive. */
  function CleanupExpiredData(db: Accounts.Db, now: nat, fault: SweepFault): (r: (Accounts.Db, seq<LogLine>))
    ensures r.0.users == db.users
    ensures fault == TokenSweepRaises ==> r == (db, [CleanupFailed])
    ensures fault != TokenSweepRaises ==> r.0.ledger == Blocklist.CleanupExpiredTokens(db.ledger, now).0
    ensures fault == NoFault ==> r.0.otps == Otp.CleanupExpiredOtps(db.otps, now).0
    ensures fault == OtpSweepRaises ==> r.0.otps == db.otps && |r.1| > 0 && r.1[|r.1| - 1] == CleanupFailed
    // a count is logged only when positive, and the token count comes first
    ensures forall i :: 0 <= i < |r.1| && r.1[i].TokensCleaned? ==> i == 0 && r.1[i].count > 0
    ensures forall i :: 0 <= i < |r.1| && r.1[i].OtpsCleaned? ==> fault == NoFault && r.1[i].count > 0
    ensures fault != TokenSweepRaises ==>
      ((exists i :: 0 <= i < |r.1| && r.1[i].TokensCleaned?) <==> Blocklist.CleanupExpiredTokens(db.ledger, now).1 > 0)
    ensures fault == NoFault ==>
      ((exists i :: 0 <= i < |r.1| && r.1[i].OtpsCleaned?) <==> Otp.CleanupExpiredOtps(db.otps, now).1 > 0)
  {
    if fault == TokenSweepRaises then (db, [CleanupFailed])
    else
      var (ledger, tokens) := Blocklist.CleanupExpiredTokens(db.ledger, now);
      var tokenLog := if tokens > 0 then [TokensCleaned(tokens)] else [];
      if fault == OtpSweepRaises then
        var log := tokenLog + [CleanupFailed];
        assert tokens > 0 ==> log[0].TokensCleaned?;
        (db.(ledger := ledger), log)
      else
        var (otps, codes) := Otp.CleanupExpiredOtps(db.otps, now);
        var otpLog := if codes > 0 then [OtpsCleaned(codes)] else [];
        var log := tokenLog + otpLog;
        assert forall i :: 0 <= i < |log| ==> log[i] in tokenLog || log[i] in otpLog;
        assert forall x :: x in otpLog ==> x == OtpsCleaned(codes) && codes > 0;
        assert forall x :: x in tokenLog ==> x.TokensCleaned?;
        assert fault == NoFault;
        assert forall i :: 0 <= i < |log| && log[i].OtpsCleaned? ==> log[i].count > 0;
        assert tokens > 0 ==> log[0].TokensCleaned?;
        assert codes > 0 ==> log[|log| - 1].OtpsCleaned?;
        (db.(ledger := ledger, otps := otps), log)
  }

  // ---------------------------------------------------------------------
  // The hourly loop
  // ---------------------------------------------------------------------

  const CleanupIntervalSeconds := 3600

  /** One iteration of `run_cleanup`: the instant its sweep reads the clock,
      and where, if anywhere, the store raises. */
  datatype Iteration = Iteration(at: nat, fault: SweepFault)

  /** When the last iteration ran, or `start` before the first one. */
  function LastAt(start: nat, its: seq<Iteration>): nat {
    if its == [] then start else its[|its| - 1].at
  }

  /** `run_cleanup` sleeps an hour before every sweep, and the sleep starts
      once the previous sweep has finished: each sweep runs at least an
      hour after the previous one (or after the loop started).  How much
      later depends on how long sweeps take and how long `sleep` oversleeps,
      so the instants are parameters. */
  predicate Schedule(its: seq<Iteration>) {
    forall i :: 0 < i < |its| ==> its[i - 1].at + CleanupIntervalSeconds <= its[i].at
  }

  predicate HourlySchedule(start: nat, its: seq<Iteration>) {
    && (|its| > 0 ==> start + CleanupIntervalSeconds <= its[0].at)
    && Schedule(its)
  }

  /** Sweeps never run earlier than an hour apart. */
  lemma {:induction false} ScheduleSpacing(start: nat, its: seq<Iteration>, i: nat, j: nat)
    requires HourlySchedule(start, its) && i <= j < |its|
    ensures its[i].at + CleanupIntervalSeconds * (j - i) <= its[j].at
    ensures start + CleanupIntervalSeconds * (j + 1) <= its[j].at
    decreases j
  {
    if j > 0 {
      ScheduleSpacing(start, its, if i < j then i else j - 1, j - 1);
    }
  }

  /** A loop whose sweeps take no time and whose sleeps are exact sweeps at
      `start + 3600 i`, which is one hourly schedule among many. */
  lemma ExactHoursSchedule(start: nat, faults: seq<SweepFault>)
    ensures HourlySchedule(start, seq(|faults|, i requires 0 <= i < |faults| =>
                                          Iteration(start + CleanupIntervalSeconds * (i + 1), faults[i])))
  {
  }

  /** The first `|its|` iterations of `run_cleanup`, each sweeping at its
      own instant.  The loop itself never ends; every finite prefix of it
      is modelled. */
  function RunCleanup(db: Accounts.Db, start: nat, its: seq<Iteration>): (r: (Accounts.Db, seq<LogLine>))
    requires HourlySchedule(start, its)
    ensures r.0.users == db.users
    // sweeps only delete, and never a row that is live at the last sweep
    ensures forall t :: t in r.0.ledger ==> t in db.ledger
    ensures forall t :: t in db.ledger && t.expiresAt >= LastAt(start, its) ==> t in r.0.ledger
    ensures forall x :: x in r.0.otps ==> x in db.otps
    ensures forall x :: x in db.otps && x.expiresAt >= LastAt(start, its) ==> x in r.0.otps
    // when the last iteration succeeds, nothing expired before it remains
    ensures |its| > 0 && its[|its| - 1].fault == NoFault ==>
      && (forall t :: t in r.0.ledger ==> t.expiresAt >= LastAt(start, its))
      && (forall x :: x in r.0.otps ==> x.expiresAt >= LastAt(start, its))
    ensures forall i :: 0 <= i < |r.1| && (r.1[i].TokensCleaned? || r.1[i].OtpsCleaned?) ==> r.1[i].count > 0
  {
    if its == [] then (db, [])
    else
      var init := its[..|its| - 1];
      assert HourlySchedule(start, init) && LastAt(start, init) <= its[|its| - 1].at by {
        assert forall i :: 0 <= i < |init| ==> init[i] == its[i];
      }
      var prev := RunCleanup(db, start, init);
      var last := its[|its| - 1];
      var step := CleanupExpiredData(prev.0, last.at, last.fault);
      (step.0, prev.1 + step.1)
  }

  /** Without faults, `k` iterations leave exactly what a single sweep at
      the last sweep instant would leave. */
  lemma {:induction false} RunCleanupWithoutFaults(db: Accounts.Db, start: nat, its: seq<Iteration>)
    requires HourlySchedule(start, its) && |its| > 0
    requires forall i :: 0 <= i < |its| ==> its[i].fault == NoFault
    ensures RunCleanup(db, start, its).0.ledger ==
            Expiry.Live(db.ledger, Blocklist.TokenExpiry, LastAt(start, its))
    ensures RunCleanup(db, start, its).0.otps ==
            Expiry.Live(db.otps, Otp.OtpExpiry, LastAt(start, its))
  {
    var k := |its|;
    var init := its[..k - 1];
    assert forall i :: 0 <= i < |init| ==> init[i] == its[i];
    if k > 1 {
      assert HourlySchedule(start, init);
      RunCleanupWithoutFaults(db, start, init);
      Expiry.LiveLater(db.ledger, Blocklist.TokenExpiry, LastAt(start, init), LastAt(start, its));
      Expiry.LiveLater(db.otps, Otp.OtpExpiry, LastAt(start, init), LastAt(start, its));
    } else {
      assert init == [];
    }
  }

  /** Revocation is not undone by the sweeper while the token is alive: a
      token logged out (with its expiry read in UTC) stays refused through
      every iteration that runs no later than its `exp`. */
  lemma RevocationOutlivesSweeps(
    db: Accounts.Db, claims: AuthRoutes.TokenClaims, now: nat, sweepAt: nat, fault: SweepFault)
    requires AuthRoutes.Logout(db, claims, now).response.status == 200
    requires sweepAt <= claims.exp
    ensures CheckIfTokenRevoked(CleanupExpiredData(AuthRoutes.Logout(db, claims, now).db, sweepAt, fault).0.ledger, claims)
  {
    var db' := AuthRoutes.Logout(db, claims, now).db;
    var row := db'.ledger[|db.ledger|];
    assert row in db'.ledger && row.jti == claims.jti;
    if fault != TokenSweepRaises {
      Blocklist.RevocationSurvivesSweep(db'.ledger, claims.jti, sweepAt);
    }
  }

  /** Finding: with `expires_at` read as local time on a host five hours
      behind UTC, a sweep one hour before the token's `exp` deletes its
      revocation, and the logged-out token is accepted again. */
  lemma LogoutAsWrittenRevocationLapses()
    ensures
      var claims := AuthRoutes.TokenClaims("jti-1", "access", 100000, "U1");
      var db := Accounts.Db([], [], []);
      var o := AuthRoutes.LogoutAsWritten(db, claims, -18000, 10000);
      var swept := CleanupExpiredData(o.db, 96400, NoFault).0;
      && o.response.status == 200
      && 96400 < claims.exp
      && Authorize(o.db.ledger, claims).Some?
      && Authorize(swept.ledger, claims).None?
  {
    var claims := AuthRoutes.TokenClaims("jti-1", "access", 100000, "U1");
    var db := Accounts.Db([], [], []);
    var o := AuthRoutes.LogoutAsWritten(db, claims, -18000, 10000);
    assert o.db.ledger == [Blocklist.RevokedToken("jti-1", "access", "U1", 10000, 82000)];
    Blocklist.RevocationPurgedAfterExpiry(o.db.ledger, 0, 96400);
  }

  // ---------------------------------------------------------------------
  // Start-up
  // ---------------------------------------------------------------------

  datatype RetryOutcome = TablesCreated | Raised | ReturnedFalse

  /** `create_tables_with_retry(max_retries, delay)`: `attemptSucceeds[i]`
      says whether `db.create_all()` succeeds on attempt `i`.  Sleeping is
      a no-op here; `slept` adds up the delays that would have been slept. */
  method CreateTablesWithRetry(maxRetries: int, delay: nat, attemptSucceeds: seq<bool>)
    returns (outcome: RetryOutcome, attempts: nat, slept: nat)
    requires maxRetries <= |attemptSucceeds|
    // never more than max_retries attempts
    ensures attempts <= if maxRetries > 0 then maxRetries else 0
    // returns True on the first success, after failing every earlier attempt
    ensures outcome == TablesCreated <==> exists i :: 0 <= i < maxRetries && attemptSucceeds[i]
    ensures outcome == TablesCreated ==>
      attempts > 0 && attemptSucceeds[attempts - 1] &&
      forall i :: 0 <= i < attempts - 1 ==> !attemptSucceeds[i]
    // re-raises once the last attempt failed
    ensures outcome == Raised <==>
      maxRetries > 0 && forall i :: 0 <= i < maxRetries ==> !attemptSucceeds[i]
    ensures outcome == Raised ==> attempts == maxRetries
    // an empty range of attempts falls through to `return False`
    ensures outcome == ReturnedFalse <==> maxRetries <= 0
    // one delay between consecutive attempts, none after the last
    ensures attempts > 0 ==> slept == (attempts - 1) * delay
    ensures attempts == 0 ==> slept == 0
  {
    var attempt := 0;
    slept := 0;
    while attempt < maxRetries
      invariant attempt == 0 || attempt < maxRetries
      invariant forall i :: 0 <= i < attempt ==> !attemptSucceeds[i]
      invariant slept == attempt * delay
      decreases maxRetries - attempt
    {
      if attemptSucceeds[attempt] {
        return TablesCreated, attempt + 1, slept;
      }
      if attempt < maxRetries - 1 {
        slept := slept + delay;
      } else {
        return Raised, attempt + 1, slept;
      }
      attempt := attempt + 1;
    }
    return ReturnedFalse, 0, 0;
  }
}
