/** The admin login part of the auth service over the store, statement by statement. */
module AdminLoginService {
  import opened Options
  import opened TtlStore
  import opened AdminLogin

  class AuthService {
    const redis: RedisService
    var sessions: seq<nat>

    constructor (redis: RedisService)
      ensures this.redis == redis && sessions == []
    {
      this.redis := redis;
      sessions := [];
    }

    method Login(id: string, user: nat, email: string, now: Instant) returns (answer: Answer)
      modifies redis
      ensures Outcome(redis.entries, answer)
           == Perform(redis.inMemory, old(redis.entries), Event(LoggingIn(id, user, email), now))
    {
      redis.Set(ChallengeKey(id), Challenge(user, email), TTL, now);
      return ChallengeIssued;
    }

    method SendOtp(email: string, id: Option<string>, code: string, delivered: bool, now: Instant)
      returns (answer: Answer)
      modifies redis
      ensures Outcome(redis.entries, answer)
           == Perform(redis.inMemory, old(redis.entries), Event(Sending(email, id, code, delivered), now))
    {
      if email == "" {
        return EmailRequired;
      }
      if id.Some? {
        var challenge := redis.Get(ChallengeKey(id.value), now);
        if challenge.None? {
          return ChallengeExpired;
        }
        if !challenge.value.Challenge? || challenge.value.email != email {
          return ChallengeMismatch;
        }
      }
      ghost var before := redis.entries;
      redis.Set(OtpKey(email), Code(code), TTL, now);
      if !delivered {
        redis.Del(OtpKey(email));
        assert redis.entries == before - {OtpKey(email)};
        return NotDelivered;
      }
      return CodeSent;
    }

    /** Removes the code, the challenge and its counter. */
    method Forget(email: string, id: string)
      modifies redis
      ensures redis.entries == old(redis.entries) - {OtpKey(email), ChallengeKey(id), AttemptsKey(id)}
    {
      redis.Del(OtpKey(email));
      redis.Del(ChallengeKey(id));
      redis.Del(AttemptsKey(id));
    }

    method VerifyAdminLoginOtp(email: string, otp: string, id: string, active: bool, now: Instant)
      returns (answer: Answer)
      modifies redis, `sessions
      ensures Outcome(redis.entries, answer)
           == Perform(redis.inMemory, old(redis.entries), Event(Answering(email, otp, id, active), now))
      ensures sessions == old(sessions) + if answer.Session? then [answer.user] else []
    {
      var challenge := redis.Get(ChallengeKey(id), now);
      if challenge.None? {
        return ChallengeExpired;
      }
      if !challenge.value.Challenge? || challenge.value.email != email {
        return ChallengeMismatch;
      }
      var stored := redis.Get(OtpKey(email), now);
      if stored != Some(Code(otp)) {
        ghost var read := redis.entries;
        var attempts := redis.Increment(AttemptsKey(id), TTL, now);
        if attempts >= MAX_ATTEMPTS {
          Forget(email, id);
          assert redis.entries == read - {OtpKey(email), ChallengeKey(id), AttemptsKey(id)};
          return TooManyAttempts;
        }
        return WrongCode;
      }
      if !active {
        return AccountNotActive;
      }
      Forget(email, id);
      sessions := sessions + [challenge.value.user];
      return Session(challenge.value.user);
    }

    method VerifyOtp(email: string, otp: string, now: Instant) returns (answer: Answer)
      modifies redis
      ensures Outcome(redis.entries, answer)
           == Perform(redis.inMemory, old(redis.entries), Event(Verifying(email, otp), now))
    {
      var stored := redis.Get(OtpKey(email), now);
      if stored != Some(Code(otp)) {
        return InvalidOtp;
      }
      redis.Del(OtpKey(email));
      return EmailVerified;
    }
  }
}
