/** The revocation ledger (`TokenBlocklist` in app/common/models.py): one
    row per revoked token, keyed by the token's unique `jti`. */
module Blocklist {
  import opened Wrappers
  import Expiry

  datatype RevokedToken = RevokedToken(
    jti: string,
    tokenType: string,
    userId: string,
    revokedAt: nat,
    expiresAt: nat)

  type Ledger = seq<RevokedToken>

  /** The store refuses an insert that violates a unique column. */
  datatype StoreError = IntegrityError

  function TokenExpiry(t: RevokedToken): nat {
    t.expiresAt
  }

  /** The unique index on `jti`. */
  predicate UniqueJtis(ledger: Ledger) {
    forall i, j :: 0 <= i < j < |ledger| ==> ledger[i].jti != ledger[j].jti
  }

  /** `is_jti_blocklisted`: the first row with this `jti`, if any, decides. */
  function IsJtiBlocklisted(ledger: Ledger, jti: string): (found: bool)
    ensures found <==> exists t :: t in ledger && t.jti == jti
  {
    if ledger == [] then false
    else
      assert forall t :: t in ledger <==> t == ledger[0] || t in ledger[1..];
      ledger[0].jti == jti || IsJtiBlocklisted(ledger[1..], jti)
  }

  /** `add_token_to_blocklist`: insert and commit one row stamped
      `revoked_at = now`; a `jti` already present violates the unique
      index and the insert is refused. */
  function AddTokenToBlocklist(
    ledger: Ledger, jti: string, tokenType: string, userId: string, expiresAt: nat, now: nat)
    : (r: Result<Ledger, StoreError>)
    ensures r.Failure? <==> IsJtiBlocklisted(ledger, jti)
    ensures r.Failure? ==> r.error == IntegrityError
    ensures r.Success? ==> IsJtiBlocklisted(r.value, jti)
    // the new row carries the token's own claims and the revocation instant
    ensures r.Success? ==> r.value == ledger + [RevokedToken(jti, tokenType, userId, now, expiresAt)]
    // revocation is one-way: nothing already revoked stops being revoked
    ensures r.Success? ==> forall j :: IsJtiBlocklisted(ledger, j) ==> IsJtiBlocklisted(r.value, j)
    ensures r.Success? && UniqueJtis(ledger) ==> UniqueJtis(r.value)
  {
    if IsJtiBlocklisted(ledger, jti) then Failure(IntegrityError)
    else
      var row := RevokedToken(jti, tokenType, userId, now, expiresAt);
      assert row in ledger + [row];
      assert forall t :: t in ledger ==> t in ledger + [row];
      assert forall i :: 0 <= i < |ledger| ==> ledger[i] in ledger;
      Success(ledger + [row])
  }

  /** `cleanup_expired_tokens`: delete every row with `expires_at < now`
      and return how many were deleted. */
  function CleanupExpiredTokens(ledger: Ledger, now: nat): (r: (Ledger, nat))
    ensures forall t :: t in r.0 <==> t in ledger && t.expiresAt >= now
    ensures r.1 == |ledger| - |r.0|
    ensures multiset(r.0) + multiset(Expiry.Expired(ledger, TokenExpiry, now)) == multiset(ledger)
    ensures UniqueJtis(ledger) ==> UniqueJtis(r.0)
  {
    var r := Expiry.Sweep(ledger, TokenExpiry, now);
    LiveKeepsUniqueJtis(ledger, now);
    r
  }

  lemma {:induction false} LiveKeepsUniqueJtis(ledger: Ledger, now: nat)
    ensures UniqueJtis(ledger) ==> UniqueJtis(Expiry.Live(ledger, TokenExpiry, now))
  {
    if ledger != [] && UniqueJtis(ledger) {
      var rest := ledger[1..];
      assert UniqueJtis(rest) by {
        forall i, j | 0 <= i < j < |rest|
          ensures rest[i].jti != rest[j].jti
        {
          assert rest[i] == ledger[i + 1] && rest[j] == ledger[j + 1];
        }
      }
      LiveKeepsUniqueJtis(rest, now);
      var kept := Expiry.Live(rest, TokenExpiry, now);
      forall t | t in kept
        ensures t.jti != ledger[0].jti
      {
        assert t in rest;
        var k :| 0 <= k < |rest| && rest[k] == t;
        assert ledger[k + 1] == t;
      }
    }
  }

  /** A revocation stays visible through every sweep that happens no later
      than the token's own expiry. */
  lemma RevocationSurvivesSweep(ledger: Ledger, jti: string, now: nat)
    requires exists t :: t in ledger && t.jti == jti && t.expiresAt >= now
    ensures IsJtiBlocklisted(CleanupExpiredTokens(ledger, now).0, jti)
  {
    var t :| t in ledger && t.jti == jti && t.expiresAt >= now;
    assert t in CleanupExpiredTokens(ledger, now).0;
  }

  /** A sweep after the (single) row of a `jti` expired forgets that `jti`. */
  lemma RevocationPurgedAfterExpiry(ledger: Ledger, i: nat, now: nat)
    requires UniqueJtis(ledger)
    requires i < |ledger| && ledger[i].expiresAt < now
    ensures !IsJtiBlocklisted(CleanupExpiredTokens(ledger, now).0, ledger[i].jti)
  {
    var kept := CleanupExpiredTokens(ledger, now).0;
    forall t | t in kept
      ensures t.jti != ledger[i].jti
    {
      var k :| 0 <= k < |ledger| && ledger[k] == t;
      assert k != i;
    }
  }
}
