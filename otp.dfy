/** The one-time-password table of OTP.schema.ts: six-digit codes, at most one
    pending code per (email, purpose), valid for five minutes, usable once.
    The clock is a parameter `now`, in milliseconds. */
module OtpStore {
  import opened Schemas
  import opened Decimal
  import opened Store

  /** Five minutes, in milliseconds. */
  const OtpLifetimeMs: int := 5 * 60 * 1000

  const OtpLow: nat := 100000
  const OtpHigh: nat := 999999

  /** The decimal spelling of a drawn number: six digits for every draw. */
  function OtpCode(n: nat): (code: string)
    requires OtpLow <= n <= OtpHigh
    ensures |code| == 6 && AllDigits(code) && Value(code) == n
  {
    assert Pow10(5) == 100000 && Pow10(6) == 1000000;
    ToDecimalLength(n, 6);
    ToDecimal(n)
  }

  /** `generateOTP`: floor(100000 + random * 900000), spelled in decimal; the
      random draw is a choice of any integer in the range. */
  method GenerateOtp() returns (code: string)
    ensures |code| == 6 && AllDigits(code) && OtpLow <= Value(code) <= OtpHigh
  {
    var n: nat :| OtpLow <= n <= OtpHigh;
    code := OtpCode(n);
  }

  /** An unused code for this email and purpose (what `createOTP` deletes). */
  predicate Pending(r: OtpRecord, email: string, purpose: OtpPurpose)
  {
    r.email == email && r.purpose == purpose && !r.isUsed
  }

  /** The table after `deleteMany({ email, purpose, isUsed: false })`. */
  function WithoutPending(otps: seq<OtpRecord>, email: string, purpose: OtpPurpose): (r: seq<OtpRecord>)
    ensures forall x :: x in r <==> x in otps && !Pending(x, email, purpose)
  {
    if otps == [] then []
    else
      var rest := WithoutPending(otps[1..], email, purpose);
      assert forall x :: x in otps <==> x == otps[0] || x in otps[1..];
      if Pending(otps[0], email, purpose) then rest else [otps[0]] + rest
  }

  /** The table after `createOTP` drew `code` at time `now`. */
  function AfterCreate(otps: seq<OtpRecord>, email: string, purpose: OtpPurpose, code: string, now: int): seq<OtpRecord>
  {
    WithoutPending(otps, email, purpose) + [OtpRecord(email, code, purpose, false, now + OtpLifetimeMs)]
  }

  /** `createOTP`: delete the pending codes of the pair, store a fresh one
      expiring five minutes from now, and return it. */
  method CreateOtp(db: Database, email: string, purpose: OtpPurpose, now: int) returns (code: string)
    modifies db`otps
    ensures |code| == 6 && AllDigits(code) && OtpLow <= Value(code) <= OtpHigh
    ensures db.otps == AfterCreate(old(db.otps), email, purpose, code, now)
  {
    db.otps := WithoutPending(db.otps, email, purpose);
    code := GenerateOtp();
    db.otps := db.otps + [OtpRecord(email, code, purpose, false, now + OtpLifetimeMs)];
  }

  /** A record `verifyOTP` accepts: same email, code and purpose, unused, and
      expiring strictly after `now`. */
  predicate Redeemable(r: OtpRecord, email: string, otp: string, purpose: OtpPurpose, now: int)
  {
    r.email == email && r.otp == otp && r.purpose == purpose && !r.isUsed && r.expiresAt > now
  }

  /** `findOne`: the position of the first accepted record. */
  function FirstRedeemable(otps: seq<OtpRecord>, email: string, otp: string, purpose: OtpPurpose, now: int): (r: Option<nat>)
    ensures r.Some? ==> r.value < |otps| && Redeemable(otps[r.value], email, otp, purpose, now)
    ensures r.Some? ==> forall k :: 0 <= k < r.value ==> !Redeemable(otps[k], email, otp, purpose, now)
    ensures r.None? <==> forall k :: 0 <= k < |otps| ==> !Redeemable(otps[k], email, otp, purpose, now)
  {
    if otps == [] then None
    else if Redeemable(otps[0], email, otp, purpose, now) then Some(0)
    else
      match FirstRedeemable(otps[1..], email, otp, purpose, now)
      case None => None
      case Some(k) => Some(k + 1)
  }

  /** The table after `verifyOTP`: the accepted record, if any, is marked used. */
  function AfterVerify(otps: seq<OtpRecord>, email: string, otp: string, purpose: OtpPurpose, now: int): seq<OtpRecord>
  {
    match FirstRedeemable(otps, email, otp, purpose, now)
    case None => otps
    case Some(k) => otps[k := otps[k].(isUsed := true)]
  }

  /** `verifyOTP`: find the first accepted record; mark it used and answer
      true, or answer false and change nothing. */
  method VerifyOtp(db: Database, email: string, otp: string, purpose: OtpPurpose, now: int) returns (ok: bool)
    modifies db`otps
    ensures ok <==> FirstRedeemable(old(db.otps), email, otp, purpose, now).Some?
    ensures db.otps == AfterVerify(old(db.otps), email, otp, purpose, now)
  {
    var i := 0;
    while i < |db.otps|
      invariant 0 <= i <= |db.otps|
      invariant forall k :: 0 <= k < i ==> !Redeemable(db.otps[k], email, otp, purpose, now)
    {
      if Redeemable(db.otps[i], email, otp, purpose, now) {
        assert FirstRedeemable(db.otps, email, otp, purpose, now) == Some(i) by {
          FirstRedeemableIs(db.otps, email, otp, purpose, now, i);
        }
        db.otps := db.otps[i := db.otps[i].(isUsed := true)];
        return true;
      }
      i := i + 1;
    }
    return false;
  }

  /** The first accepted record is the one every earlier record fails to be. */
  lemma {:induction false} FirstRedeemableIs(otps: seq<OtpRecord>, email: string, otp: string, purpose: OtpPurpose, now: int, i: nat)
    requires i < |otps| && Redeemable(otps[i], email, otp, purpose, now)
    requires forall k :: 0 <= k < i ==> !Redeemable(otps[k], email, otp, purpose, now)
    ensures FirstRedeemable(otps, email, otp, purpose, now) == Some(i)
  {
    if i > 0 {
      assert forall k :: 0 <= k < i - 1 ==> otps[1..][k] == otps[k + 1];
      FirstRedeemableIs(otps[1..], email, otp, purpose, now, i - 1);
    }
  }

  /** The table holds at most one pending code per (email, purpose). */
  predicate AtMostOnePending(otps: seq<OtpRecord>)
  {
    forall i, j :: 0 <= i < j < |otps| && !otps[i].isUsed && !otps[j].isUsed ==>
      otps[i].email != otps[j].email || otps[i].purpose != otps[j].purpose
  }

  /** After `createOTP` the pair has exactly one pending code, the new one; every
      record that was not a pending code of that pair is kept. */
  lemma CreateLeavesOnePending(otps: seq<OtpRecord>, email: string, purpose: OtpPurpose, code: string, now: int)
    ensures var after := AfterCreate(otps, email, purpose, code, now);
      && Pending(after[|after| - 1], email, purpose)
      && after[|after| - 1].otp == code && after[|after| - 1].expiresAt == now + OtpLifetimeMs
      && (forall k :: 0 <= k < |after| - 1 ==> !Pending(after[k], email, purpose))
      && (forall x :: x in otps && !Pending(x, email, purpose) ==> x in after)
  {
    var kept := WithoutPending(otps, email, purpose);
    var after := AfterCreate(otps, email, purpose, code, now);
    forall k | 0 <= k < |after| - 1
      ensures !Pending(after[k], email, purpose)
    {
      assert after[k] == kept[k];
      assert kept[k] in kept;
    }
  }

  /** Removing one pair's pending codes keeps the at-most-one rule. */
  lemma {:induction false} WithoutPendingKeepsRule(otps: seq<OtpRecord>, email: string, purpose: OtpPurpose)
    requires AtMostOnePending(otps)
    ensures AtMostOnePending(WithoutPending(otps, email, purpose))
  {
    if otps != [] {
      WithoutPendingKeepsRule(otps[1..], email, purpose);
      var rest := WithoutPending(otps[1..], email, purpose);
      if !Pending(otps[0], email, purpose) && !otps[0].isUsed {
        forall j | 0 <= j < |rest| && !rest[j].isUsed
          ensures otps[0].email != rest[j].email || otps[0].purpose != rest[j].purpose
        {
          assert rest[j] in rest;
          var m :| 0 <= m < |otps[1..]| && otps[1..][m] == rest[j];
          assert otps[m + 1] == rest[j];
        }
      }
    }
  }

  /** `createOTP` keeps the at-most-one rule. */
  lemma CreateKeepsRule(otps: seq<OtpRecord>, email: string, purpose: OtpPurpose, code: string, now: int)
    requires AtMostOnePending(otps)
    ensures AtMostOnePending(AfterCreate(otps, email, purpose, code, now))
  {
    WithoutPendingKeepsRule(otps, email, purpose);
    CreateLeavesOnePending(otps, email, purpose, code, now);
  }

  /** `verifyOTP` keeps the at-most-one rule (it only marks records used). */
  lemma VerifyKeepsRule(otps: seq<OtpRecord>, email: string, otp: string, purpose: OtpPurpose, now: int)
    requires AtMostOnePending(otps)
    ensures AtMostOnePending(AfterVerify(otps, email, otp, purpose, now))
  {
  }

  /** A code is good for one use: under the at-most-one rule, after a
      successful verification the same request is refused. */
  lemma SingleUse(otps: seq<OtpRecord>, email: string, otp: string, purpose: OtpPurpose, now: int, later: int)
    requires AtMostOnePending(otps)
    requires FirstRedeemable(otps, email, otp, purpose, now).Some?
    ensures FirstRedeemable(AfterVerify(otps, email, otp, purpose, now), email, otp, purpose, later).None?
  {
    var k := FirstRedeemable(otps, email, otp, purpose, now).value;
    var after := AfterVerify(otps, email, otp, purpose, now);
    forall m | 0 <= m < |after|
      ensures !Redeemable(after[m], email, otp, purpose, later)
    {
    }
  }

  /** A fresh code is accepted strictly before its expiry and refused from
      the moment it expires on. */
  lemma FreshCodeLifetime(otps: seq<OtpRecord>, email: string, purpose: OtpPurpose, code: string, now: int, t: int)
    ensures var after := AfterCreate(otps, email, purpose, code, now);
      && (t < now + OtpLifetimeMs ==> FirstRedeemable(after, email, code, purpose, t).Some?)
      && (t >= now + OtpLifetimeMs ==> FirstRedeemable(after, email, code, purpose, t).None?)
  {
    CreateLeavesOnePending(otps, email, purpose, code, now);
    var after := AfterCreate(otps, email, purpose, code, now);
    assert Redeemable(after[|after| - 1], email, code, purpose, t) <==> t < now + OtpLifetimeMs;
  }

  /** A refused verification changes nothing. */
  lemma FailedVerifyChangesNothing(otps: seq<OtpRecord>, email: string, otp: string, purpose: OtpPurpose, now: int)
    requires forall k :: 0 <= k < |otps| ==> !Redeemable(otps[k], email, otp, purpose, now)
    ensures AfterVerify(otps, email, otp, purpose, now) == otps
  {
  }
}
