/** The password-reset one-time codes (`PasswordResetOTP` in
    app/common/models.py).  A row is *valid* while it is unused and `now` is
    strictly before its expiry; the store answers queries over all rows. */
module Otp {
  import opened Wrappers
  import Expiry

  type UserId = string

  /** A decimal digit as drawn by `secrets.choice(string.digits)`. */
  type Digit = d: nat | d < 10

  const OtpLength := 6

  /** The six draws from the secure generator that make up one code. */
  type OtpDraws = s: seq<Digit> | |s| == OtpLength witness [0, 0, 0, 0, 0, 0]

  const DefaultExpiryMinutes := 15
  const SecondsPerMinute := 60

  datatype OtpRow = OtpRow(
    userId: UserId,
    code: string,
    createdAt: nat,
    expiresAt: nat,
    usedAt: Option<nat>,
    isUsed: bool)

  // ---------------------------------------------------------------------
  // Codes
  // ---------------------------------------------------------------------

  predicate IsDigitChar(c: char) {
    '0' <= c <= '9'
  }

  /** The shape every issued code has: six decimal digits. */
  predicate IsOtpCode(code: string) {
    |code| == OtpLength && forall i :: 0 <= i < |code| ==> IsDigitChar(code[i])
  }

  /** `generate_otp`: one digit character per draw. */
  function GenerateOtp(draws: OtpDraws): (code: string)
    ensures IsOtpCode(code)
  {
    seq(OtpLength, i requires 0 <= i < OtpLength => ('0' as int + draws[i]) as char)
  }

  /** Reads a code back as the digits it spells. */
  function DigitsOf(code: string): (draws: OtpDraws)
    requires IsOtpCode(code)
  {
    seq(OtpLength, i requires 0 <= i < OtpLength => (code[i] as int - '0' as int) as Digit)
  }

  /** Generation is a bijection between draw sequences and six-digit codes:
      the draws can be read back from the code ... */
  lemma GenerateOtpRoundTrip(draws: OtpDraws)
    ensures DigitsOf(GenerateOtp(draws)) == draws
  {
    var code := GenerateOtp(draws);
    assert forall i :: 0 <= i < OtpLength ==> DigitsOf(code)[i] == draws[i];
  }

  /** ... and every six-digit code is the code of some draws. */
  lemma EveryCodeIsGenerated(code: string)
    requires IsOtpCode(code)
    ensures GenerateOtp(DigitsOf(code)) == code
  {
    var g := GenerateOtp(DigitsOf(code));
    assert forall i :: 0 <= i < OtpLength ==> g[i] == code[i];
  }

  // ---------------------------------------------------------------------
  // One row
  // ---------------------------------------------------------------------

  /** `is_valid`: not used and not yet expired. */
  function IsValid(row: OtpRow, now: nat): (valid: bool)
    // a used code is never valid, and a code is already invalid at the
    // instant of its expiry
    ensures row.isUsed ==> !valid
    ensures now >= row.expiresAt ==> !valid
    ensures !row.isUsed && now < row.expiresAt ==> valid
  {
    !row.isUsed && now < row.expiresAt
  }

  /** A row is valid over an initial stretch of time only: once invalid it
      stays invalid. */
  lemma ValidityOnlyEnds(row: OtpRow, now: nat, later: nat)
    requires now <= later
    ensures IsValid(row, later) ==> IsValid(row, now)
    ensures !IsValid(row, now) ==> !IsValid(row, later)
  {
  }

  /** `PasswordResetOTP(user_ulid, expiry_minutes)` as committed at `now`. */
  function NewOtp(user: UserId, code: string, now: nat, expiryMinutes: nat): (row: OtpRow)
    ensures row.userId == user && row.code == code && row.createdAt == now
    ensures !row.isUsed && row.usedAt == None
    // the code is valid exactly for the `expiryMinutes` after its creation
    ensures forall t: nat :: IsValid(row, t) <==> t < now + expiryMinutes * SecondsPerMinute
  {
    OtpRow(user, code, now, now + expiryMinutes * SecondsPerMinute, None, false)
  }

  /** `mark_as_used`. */
  function MarkAsUsed(row: OtpRow, now: nat): (r: OtpRow)
    ensures r.isUsed && r.usedAt == Some(now)
    // a used code never validates again, whatever the time
    ensures forall t: nat :: !IsValid(r, t)
    // no other field changes
    ensures r.userId == row.userId && r.code == row.code
    ensures r.createdAt == row.createdAt && r.expiresAt == row.expiresAt
  {
    row.(isUsed := true, usedAt := Some(now))
  }

  /** Marking twice keeps the row used; the later stamp wins. */
  lemma MarkAsUsedTwice(row: OtpRow, t1: nat, t2: nat)
    ensures MarkAsUsed(MarkAsUsed(row, t1), t2) == MarkAsUsed(row, t2)
  {
  }

  // ---------------------------------------------------------------------
  // Queries over the table
  // ---------------------------------------------------------------------

  /** The filter of `get_latest_valid_otp`. */
  predicate Candidate(row: OtpRow, user: UserId, now: nat) {
    row.userId == user && !row.isUsed && row.expiresAt > now
  }

  /** `get_latest_valid_otp`: the position of a candidate row with the
      greatest `created_at`, or `None` when the user has no candidate.
      Among equal `created_at` the first in table order is taken. */
  function GetLatestValidOtp(otps: seq<OtpRow>, user: UserId, now: nat): (r: Option<nat>)
    ensures r.None? <==> forall i :: 0 <= i < |otps| ==> !Candidate(otps[i], user, now)
    ensures r.Some? ==> r.value < |otps| && Candidate(otps[r.value], user, now)
    ensures r.Some? ==> otps[r.value].userId == user && IsValid(otps[r.value], now)
    ensures r.Some? ==> forall i :: 0 <= i < |otps| && Candidate(otps[i], user, now) ==>
                          otps[i].createdAt <= otps[r.value].createdAt
  {
    if otps == [] then None
    else
      var rest := GetLatestValidOtp(otps[1..], user, now);
      assert forall i :: 1 <= i < |otps| ==> otps[i] == otps[1..][i - 1];
      if Candidate(otps[0], user, now) && (rest.None? || otps[rest.value + 1].createdAt <= otps[0].createdAt) then
        Some(0)
      else if rest.Some? then Some(rest.value + 1)
      else None
  }

  function InvalidateRow(row: OtpRow, user: UserId, now: nat): OtpRow {
    if row.userId == user && !row.isUsed then MarkAsUsed(row, now) else row
  }

  /** `invalidate_all_user_otps`: every unused row of `user` is marked used
      at `now`, expired or not. */
  function InvalidateAllUserOtps(otps: seq<OtpRow>, user: UserId, now: nat): (r: seq<OtpRow>)
    ensures |r| == |otps|
    // afterwards the user has no unused row at all
    ensures forall i :: 0 <= i < |r| && r[i].userId == user ==> r[i].isUsed
    // the unused rows of the user, and only those, are stamped now
    ensures forall i :: 0 <= i < |otps| && otps[i].userId == user && !otps[i].isUsed ==>
              r[i] == MarkAsUsed(otps[i], now)
    // rows of other users, and rows already used, are untouched
    ensures forall i :: 0 <= i < |otps| && (otps[i].userId != user || otps[i].isUsed) ==> r[i] == otps[i]
  {
    if otps == [] then []
    else
      var rest := InvalidateAllUserOtps(otps[1..], user, now);
      assert forall i :: 1 <= i < |otps| ==> otps[i] == otps[1..][i - 1];
      [InvalidateRow(otps[0], user, now)] + rest
  }

  function OtpExpiry(row: OtpRow): nat {
    row.expiresAt
  }

  /** `cleanup_expired_otps`: delete every row with `expires_at < now`,
      used or not, and return how many were deleted. */
  function CleanupExpiredOtps(otps: seq<OtpRow>, now: nat): (r: (seq<OtpRow>, nat))
    ensures forall row :: row in r.0 <==> row in otps && row.expiresAt >= now
    ensures r.1 == |otps| - |r.0|
    ensures multiset(r.0) + multiset(Expiry.Expired(otps, OtpExpiry, now)) == multiset(otps)
  {
    Expiry.Sweep(otps, OtpExpiry, now)
  }

  // ---------------------------------------------------------------------
  // At most one active code per user
  // ---------------------------------------------------------------------

  /** Number of valid rows of `user` at `now`. */
  function ActiveCount(otps: seq<OtpRow>, user: UserId, now: nat): nat {
    if otps == [] then 0
    else (if otps[0].userId == user && IsValid(otps[0], now) then 1 else 0) + ActiveCount(otps[1..], user, now)
  }

  /** The table invariant: no user ever has two valid codes at once. */
  ghost predicate AtMostOneActive(otps: seq<OtpRow>, now: nat) {
    forall u :: ActiveCount(otps, u, now) <= 1
  }

  lemma {:induction false} ActiveCountZero(otps: seq<OtpRow>, user: UserId, now: nat)
    ensures ActiveCount(otps, user, now) == 0 <==>
            forall i :: 0 <= i < |otps| ==> !(otps[i].userId == user && IsValid(otps[i], now))
  {
    if otps != [] {
      ActiveCountZero(otps[1..], user, now);
      assert forall i :: 1 <= i < |otps| ==> otps[i] == otps[1..][i - 1];
    }
  }

  lemma {:induction false} ActiveCountAppend(a: seq<OtpRow>, b: seq<OtpRow>, user: UserId, now: nat)
    ensures ActiveCount(a + b, user, now) == ActiveCount(a, user, now) + ActiveCount(b, user, now)
  {
    if a == [] {
      assert a + b == b;
    } else {
      assert (a + b)[1..] == a[1..] + b;
      ActiveCountAppend(a[1..], b, user, now);
    }
  }

  /** Time only takes validity away. */
  lemma {:induction false} ActiveCountLater(otps: seq<OtpRow>, user: UserId, now: nat, later: nat)
    requires now <= later
    ensures ActiveCount(otps, user, later) <= ActiveCount(otps, user, now)
  {
    if otps != [] {
      ActiveCountLater(otps[1..], user, now, later);
    }
  }

  lemma AtMostOneActiveLater(otps: seq<OtpRow>, now: nat, later: nat)
    requires AtMostOneActive(otps, now) && now <= later
    ensures AtMostOneActive(otps, later)
  {
    forall u ensures ActiveCount(otps, u, later) <= 1 {
      ActiveCountLater(otps, u, now, later);
    }
  }

  /** Replacing one row by a row that is not valid removes exactly that
      row's contribution. */
  lemma {:induction false} ActiveCountUpdate(otps: seq<OtpRow>, k: nat, row: OtpRow, user: UserId, now: nat)
    requires k < |otps| && !IsValid(row, now)
    ensures ActiveCount(otps[k := row], user, now) ==
            ActiveCount(otps, user, now) - (if otps[k].userId == user && IsValid(otps[k], now) then 1 else 0)
  {
    if k == 0 {
      assert otps[k := row][1..] == otps[1..];
    } else {
      assert otps[k := row][1..] == otps[1..][k - 1 := row];
      ActiveCountUpdate(otps[1..], k - 1, row, user, now);
    }
  }

  /** After invalidation the user has no valid row; every other user keeps
      exactly the valid rows they had. */
  lemma {:induction false} ActiveCountInvalidate(otps: seq<OtpRow>, user: UserId, other: UserId, now: nat)
    ensures ActiveCount(InvalidateAllUserOtps(otps, user, now), user, now) == 0
    ensures other != user ==>
            ActiveCount(InvalidateAllUserOtps(otps, user, now), other, now) == ActiveCount(otps, other, now)
  {
    if otps != [] {
      ActiveCountInvalidate(otps[1..], user, other, now);
      assert InvalidateAllUserOtps(otps, user, now)[1..] == InvalidateAllUserOtps(otps[1..], user, now);
    }
  }

  /** A sweep at `now` keeps every row that is valid at `now`. */
  lemma {:induction false} ActiveCountSweep(otps: seq<OtpRow>, user: UserId, swept: nat, now: nat)
    requires swept <= now
    ensures ActiveCount(Expiry.Live(otps, OtpExpiry, swept), user, now) == ActiveCount(otps, user, now)
  {
    if otps != [] {
      ActiveCountSweep(otps[1..], user, swept, now);
    }
  }

  lemma AtMostOneActiveAfterCleanup(otps: seq<OtpRow>, swept: nat, now: nat)
    requires AtMostOneActive(otps, now) && swept <= now
    ensures AtMostOneActive(CleanupExpiredOtps(otps, swept).0, now)
  {
    forall u ensures ActiveCount(CleanupExpiredOtps(otps, swept).0, u, now) <= 1 {
      ActiveCountSweep(otps, u, swept, now);
    }
  }
}
