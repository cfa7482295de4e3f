/** Whose session an answered challenge gives, which code it takes, and when the right answer is granted. */
module AdminLoginRuns {
  import opened Options
  import opened TtlStore
  import opened AdminLogin

  // ---------------------------------------------------------------- entries and their time

  /** What is written with a time to live can be read up to its last millisecond, and other keys are not affected. */
  lemma ReadableUntil(s: Store, key: Key, value: Value, ttlSeconds: nat, at: Instant, other: Key, now: Instant)
    ensures var after := Put(s, key, value, ttlSeconds, at);
            Lookup(after, other, now)
              == if other != key then Lookup(s, other, now)
                 else if ttlSeconds == 0 || now <= at + ttlSeconds * 1000 then Some(value) else None
  {
  }

  function Increments(inMemory: bool, s: Store, key: Key, ttlSeconds: nat, times: seq<Instant>): Store {
    if times == [] then s
    else
      var n := |times| - 1;
      Incremented(inMemory, Increments(inMemory, s, key, ttlSeconds, times[..n]), key, ttlSeconds, times[n])
  }

  /** Dropping an entry that has expired changes nothing that can be read then or later. */
  lemma PruningIsInvisible(s: Store, key: Key, now: Instant, other: Key, later: Instant)
    requires now <= later
    ensures Lookup(Pruned(s, key, now), other, later) == Lookup(s, other, later)
  {
  }

  /** The i-th increment finds the counter of those before it alive. */
  predicate InTime(inMemory: bool, ttlSeconds: nat, times: seq<Instant>, i: nat)
    requires 0 < i < |times|
  {
    times[i - 1] <= times[i] <= (if inMemory then times[i - 1] else times[0]) + ttlSeconds * 1000
  }

  /**
   * A counter incremented while it lives counts the increments. In memory it
   * lives until a time to live after the last one, on a server after the first.
   */
  lemma {:induction false} CountsWhileAlive(
    inMemory: bool, s: Store, key: Key, ttlSeconds: nat, times: seq<Instant>, now: Instant)
    requires key !in s && ttlSeconds > 0 && times != []
    requires forall i :: 0 < i < |times| ==> InTime(inMemory, ttlSeconds, times, i)
    ensures var last := (if inMemory then times[|times| - 1] else times[0]) + ttlSeconds * 1000;
            Lookup(Increments(inMemory, s, key, ttlSeconds, times), key, now)
              == if now <= last then Some(Counter(|times|)) else None
    decreases |times|
  {
    var n := |times| - 1;
    var init := times[..n];
    if n == 0 {
      assert init == [];
    } else {
      forall i | 0 < i < n ensures InTime(inMemory, ttlSeconds, init, i) {
        assert InTime(inMemory, ttlSeconds, times, i);
      }
      assert InTime(inMemory, ttlSeconds, times, n);
      CountsWhileAlive(inMemory, s, key, ttlSeconds, init, times[n]);
      CountsWhileAlive(inMemory, s, key, ttlSeconds, init, now);
      CountsOnce(inMemory, Increments(inMemory, s, key, ttlSeconds, init), key, ttlSeconds, n, times[n], now);
    }
  }

  lemma CountsOnce(
    inMemory: bool, s: Store, key: Key, ttlSeconds: nat, count: nat, at: Instant, now: Instant)
    requires ttlSeconds > 0 && count > 0 && Lookup(s, key, at) == Some(Counter(count))
    ensures Lookup(Incremented(inMemory, s, key, ttlSeconds, at), key, now)
         == if !inMemory && Lookup(s, key, now).None? then None
            else if inMemory && now > at + ttlSeconds * 1000 then None
            else Some(Counter(count + 1))
  {
  }

  // ---------------------------------------------------------------- runs

  function After(inMemory: bool, s: Store, events: seq<Event>): Store {
    if events == [] then s
    else Perform(inMemory, After(inMemory, s, events[..|events| - 1]), events[|events| - 1]).store
  }

  function AnswerAt(inMemory: bool, events: seq<Event>, i: nat): Answer
    requires i < |events|
  {
    Perform(inMemory, After(inMemory, map[], events[..i]), events[i]).answer
  }

  predicate LogsIn(e: Event, id: string) {
    e.call.LoggingIn? && e.call.id == id
  }

  /** The j-th event is the last login that issued the challenge. */
  predicate LastLogin(events: seq<Event>, id: string, j: nat) {
    j < |events| && LogsIn(events[j], id) && forall i :: j < i < |events| ==> !LogsIn(events[i], id)
  }

  predicate Delivers(inMemory: bool, events: seq<Event>, email: string, i: nat)
    requires i < |events|
  {
    events[i].call.Sending? && events[i].call.email == email && AnswerAt(inMemory, events, i) == CodeSent
  }

  /** The j-th event is the last one that delivered a code to the email. */
  predicate LastDelivery(inMemory: bool, events: seq<Event>, email: string, j: nat) {
    && j < |events| && Delivers(inMemory, events, email, j)
    && forall i :: j < i < |events| ==> !Delivers(inMemory, events, email, i)
  }

  ghost predicate ChallengeHasLogin(events: seq<Event>, s: Store, id: string) {
    ChallengeKey(id) in s ==>
      exists j: nat :: LastLogin(events, id, j)
                       && s[ChallengeKey(id)] == Entry(Challenge(events[j].call.user, events[j].call.email),
                                                       Some(events[j].at + 300 * 1000))
  }

  ghost predicate CodeHasDelivery(inMemory: bool, events: seq<Event>, s: Store, email: string) {
    OtpKey(email) in s ==>
      exists j: nat :: LastDelivery(inMemory, events, email, j)
                       && s[OtpKey(email)] == Entry(Code(events[j].call.code), Some(events[j].at + 300 * 1000))
  }

  lemma ChallengeStep(inMemory: bool, s: Store, e: Event, id: string)
    ensures var after := Perform(inMemory, s, e).store;
            if LogsIn(e, id) then ChallengeKey(id) in after
                 && after[ChallengeKey(id)] == Entry(Challenge(e.call.user, e.call.email), Some(e.at + 300 * 1000))
            else ChallengeKey(id) in after ==> ChallengeKey(id) in s && after[ChallengeKey(id)] == s[ChallengeKey(id)]
  {
  }

  lemma CodeStep(inMemory: bool, s: Store, e: Event, email: string)
    ensures var out := Perform(inMemory, s, e);
            if e.call.Sending? && e.call.email == email && out.answer == CodeSent
            then OtpKey(email) in out.store
                 && out.store[OtpKey(email)] == Entry(Code(e.call.code), Some(e.at + 300 * 1000))
            else OtpKey(email) in out.store ==> OtpKey(email) in s && out.store[OtpKey(email)] == s[OtpKey(email)]
  {
  }

  lemma {:induction false} RunChallenges(inMemory: bool, events: seq<Event>, id: string)
    ensures ChallengeHasLogin(events, After(inMemory, map[], events), id)
  {
    if events != [] {
      var n := |events| - 1;
      var init, s := events[..n], After(inMemory, map[], events[..n]);
      RunChallenges(inMemory, init, id);
      ChallengeStep(inMemory, s, events[n], id);
      if LogsIn(events[n], id) {
        assert LastLogin(events, id, n);
      } else if ChallengeKey(id) in After(inMemory, map[], events) {
        var j: nat :| LastLogin(init, id, j)
                      && s[ChallengeKey(id)] == Entry(Challenge(init[j].call.user, init[j].call.email),
                                                      Some(init[j].at + 300 * 1000));
        assert LastLogin(events, id, j) && init[j] == events[j];
      }
    }
  }

  lemma AnswerOfPrefix(inMemory: bool, events: seq<Event>, n: nat, i: nat)
    requires i < n <= |events|
    ensures AnswerAt(inMemory, events[..n], i) == AnswerAt(inMemory, events, i)
  {
    assert events[..n][..i] == events[..i];
  }

  lemma {:induction false} RunCodes(inMemory: bool, events: seq<Event>, email: string)
    ensures CodeHasDelivery(inMemory, events, After(inMemory, map[], events), email)
  {
    if events != [] {
      var n := |events| - 1;
      var init, s := events[..n], After(inMemory, map[], events[..n]);
      RunCodes(inMemory, init, email);
      CodeStep(inMemory, s, events[n], email);
      if Delivers(inMemory, events, email, n) {
        assert LastDelivery(inMemory, events, email, n);
      } else if OtpKey(email) in After(inMemory, map[], events) {
        var j: nat :| LastDelivery(inMemory, init, email, j)
                      && s[OtpKey(email)] == Entry(Code(init[j].call.code), Some(init[j].at + 300 * 1000));
        StaysLast(inMemory, events, email, n, j);
      }
    }
  }

  lemma StaysLast(inMemory: bool, events: seq<Event>, email: string, n: nat, j: nat)
    requires n + 1 == |events| && !Delivers(inMemory, events, email, n)
    requires LastDelivery(inMemory, events[..n], email, j)
    ensures LastDelivery(inMemory, events, email, j) && events[..n][j] == events[j]
  {
    forall i | 0 <= i < n ensures Delivers(inMemory, events[..n], email, i) == Delivers(inMemory, events, email, i) {
      AnswerOfPrefix(inMemory, events, n, i);
    }
  }

  // ---------------------------------------------------------------- what a session stands for

  lemma SessionNeeds(inMemory: bool, s: Store, e: Event)
    requires Perform(inMemory, s, e).answer.Session?
    ensures e.call.Answering? && e.call.active
    ensures var challenge, code := ChallengeKey(e.call.id), OtpKey(e.call.email);
            && challenge in s && !Expired(s[challenge], e.at)
            && s[challenge].value == Challenge(Perform(inMemory, s, e).answer.user, e.call.email)
            && code in s && !Expired(s[code], e.at) && s[code].value == Code(e.call.otp)
  {
  }

  /**
   * Over every run: a session is for the user of the last login that issued
   * its challenge, at most five minutes ago and with the email answered for;
   * and the answer was the code last delivered to that email, at most five
   * minutes ago too.
   */
  lemma SessionBelongsToLogin(inMemory: bool, events: seq<Event>, k: nat) returns (login: nat, delivery: nat)
    requires k < |events| && AnswerAt(inMemory, events, k).Session?
    ensures var e := events[k];
            && e.call.Answering? && e.call.active && LastLogin(events[..k], e.call.id, login)
            && events[login].call == LoggingIn(e.call.id, AnswerAt(inMemory, events, k).user, e.call.email)
            && e.at <= events[login].at + 300 * 1000
            && LastDelivery(inMemory, events[..k], e.call.email, delivery)
            && events[delivery].call.code == e.call.otp && e.at <= events[delivery].at + 300 * 1000
  {
    var e, before := events[k], events[..k];
    var s := After(inMemory, map[], before);
    SessionNeeds(inMemory, s, e);
    RunChallenges(inMemory, before, e.call.id);
    RunCodes(inMemory, before, e.call.email);
    login :| LastLogin(before, e.call.id, login)
             && s[ChallengeKey(e.call.id)] == Entry(Challenge(before[login].call.user, before[login].call.email),
                                                    Some(before[login].at + 300 * 1000));
    delivery :| LastDelivery(inMemory, before, e.call.email, delivery)
                && s[OtpKey(e.call.email)] == Entry(Code(before[delivery].call.code),
                                                    Some(before[delivery].at + 300 * 1000));
  }

  /** Likewise an email counts as verified only by the code last delivered to it, at most five minutes ago. */
  lemma VerifiedByLastCode(inMemory: bool, events: seq<Event>, k: nat) returns (delivery: nat)
    requires k < |events| && events[k].call.Verifying? && AnswerAt(inMemory, events, k) == EmailVerified
    ensures LastDelivery(inMemory, events[..k], events[k].call.email, delivery)
    ensures events[delivery].call.code == events[k].call.otp && events[k].at <= events[delivery].at + 300 * 1000
  {
    var e, before := events[k], events[..k];
    var s := After(inMemory, map[], before);
    RunCodes(inMemory, before, e.call.email);
    delivery :| LastDelivery(inMemory, before, e.call.email, delivery)
                && s[OtpKey(e.call.email)] == Entry(Code(before[delivery].call.code),
                                                    Some(before[delivery].at + 300 * 1000));
  }

  /**
   * A code is sent exactly when the email is given, the adapter delivers it,
   * and a challenge that is named is live and for that email.
   */
  lemma SentExactly(
    s: Store, email: string, id: Option<string>, code: string, delivered: bool, now: Instant)
    ensures var out := SendOtp(s, email, id, code, delivered, now);
            var known := if id.Some? then Lookup(s, ChallengeKey(id.value), now) else None;
            && (out.answer == CodeSent <==>
                  email != "" && delivered && (id.Some? ==> exists user :: known == Some(Challenge(user, email))))
            && (out.answer == NotDelivered <==>
                  email != "" && !delivered && (id.Some? ==> exists user :: known == Some(Challenge(user, email))))
            && (out.answer == ChallengeExpired <==> email != "" && id.Some? && known == None)
            && (out.answer == EmailRequired <==> email == "")
            && (out.answer == NotDelivered ==> OtpKey(email) !in out.store)
            && out.answer in {CodeSent, NotDelivered, ChallengeExpired, ChallengeMismatch, EmailRequired}
  {
    if id.Some? {
      var known := Lookup(s, ChallengeKey(id.value), now);
      if known.Some? && known.value.Challenge? && known.value.email == email {
        assert known == Some(Challenge(known.value.user, email));
      }
    }
  }

  /** Which answer a challenge gets, by the live challenge and the live code of the email. */
  lemma AnsweredExactly(
    inMemory: bool, s: Store, email: string, otp: string, id: string, active: bool, now: Instant, user: nat)
    ensures var answer := VerifyAdminLogin(inMemory, s, email, otp, id, active, now).answer;
            var challenge := Lookup(s, ChallengeKey(id), now);
            var right := Lookup(s, OtpKey(email), now) == Some(Code(otp));
            && (answer == Session(user) <==> challenge == Some(Challenge(user, email)) && right && active)
            && (challenge == None ==> answer == ChallengeExpired)
            && (challenge == Some(Challenge(user, email)) ==>
                  if right then answer == if active then Session(user) else AccountNotActive
                  else answer in {WrongCode, TooManyAttempts})
            && (challenge.Some? && (challenge.value.Challenge? ==> challenge.value.email != email) ==>
                  answer == ChallengeMismatch)
  {
  }

  // ---------------------------------------------------------------- the right answer

  /** A challenge that can still be answered, after at most so many wrong answers. */
  predicate Open(s: Store, id: string, user: nat, email: string, until: Instant, wrong: nat) {
    && ChallengeKey(id) in s && s[ChallengeKey(id)] == Entry(Challenge(user, email), Some(until))
    && (AttemptsKey(id) in s ==> s[AttemptsKey(id)].value.Counter? && s[AttemptsKey(id)].value.count <= wrong)
  }

  predicate Coded(s: Store, email: string, code: string, until: Instant) {
    OtpKey(email) in s && s[OtpKey(email)] == Entry(Code(code), Some(until))
  }

  /** Nobody logs in under the identifier or answers for the email. */
  predicate Waiting(e: Event, id: string, email: string) {
    !LogsIn(e, id) && !(e.call.Answering? && e.call.email == email)
  }

  /** An answer to the challenge with another code than this. */
  predicate WrongAnswer(e: Event, id: string, email: string, code: string) {
    e.call.Answering? && e.call.email == email && e.call.id == id && e.call.otp != code
  }

  /** Nothing is sent to the email, nobody answers for it, and the code is not used to verify it. */
  predicate Unused(e: Event, email: string, code: string) {
    && !(e.call.Sending? && e.call.email == email) && !(e.call.Answering? && e.call.email == email)
    && !(e.call.Verifying? && e.call.email == email && e.call.otp == code)
  }

  predicate Idle(e: Event, id: string, email: string, code: string) {
    !LogsIn(e, id) && Unused(e, email, code)
  }

  lemma WaitingKeepsOpen(
    inMemory: bool, s: Store, e: Event, id: string, user: nat, email: string, until: Instant, wrong: nat)
    requires Open(s, id, user, email, until, wrong) && e.at <= until && Waiting(e, id, email)
    ensures Open(Perform(inMemory, s, e).store, id, user, email, until, wrong)
  {
  }

  lemma UnusedKeepsCode(inMemory: bool, s: Store, e: Event, email: string, code: string, until: Instant)
    requires Coded(s, email, code, until) && e.at <= until && Unused(e, email, code)
    ensures Coded(Perform(inMemory, s, e).store, email, code, until)
  {
  }

  lemma WrongAnswerCounts(
    inMemory: bool, s: Store, e: Event, id: string, user: nat, email: string, code: string,
    until: Instant, expiry: Instant, wrong: nat)
    requires Open(s, id, user, email, until, wrong) && Coded(s, email, code, expiry)
    requires e.at <= until && e.at <= expiry && WrongAnswer(e, id, email, code) && wrong + 1 < 5
    ensures var out := Perform(inMemory, s, e);
            && out.answer == WrongCode
            && Open(out.store, id, user, email, until, wrong + 1) && Coded(out.store, email, code, expiry)
  {
  }

  lemma {:induction false} WaitingRunKeepsOpen(
    inMemory: bool, s: Store, events: seq<Event>, id: string, user: nat, email: string, until: Instant)
    requires Open(s, id, user, email, until, 0)
    requires forall i :: 0 <= i < |events| ==> events[i].at <= until && Waiting(events[i], id, email)
    ensures Open(After(inMemory, s, events), id, user, email, until, 0)
  {
    if events != [] {
      var n := |events| - 1;
      WaitingRunKeepsOpen(inMemory, s, events[..n], id, user, email, until);
      WaitingKeepsOpen(inMemory, After(inMemory, s, events[..n]), events[n], id, user, email, until, 0);
    }
  }

  function WrongOnes(events: seq<Event>, id: string, email: string, code: string): nat {
    if events == [] then 0
    else
      var n := |events| - 1;
      WrongOnes(events[..n], id, email, code) + if WrongAnswer(events[n], id, email, code) then 1 else 0
  }

  lemma {:induction false} AnswersKeepOpen(
    inMemory: bool, s: Store, events: seq<Event>, id: string, user: nat, email: string, code: string,
    until: Instant, expiry: Instant)
    requires Open(s, id, user, email, until, 0) && Coded(s, email, code, expiry)
    requires forall i :: 0 <= i < |events| ==>
               && events[i].at <= until && events[i].at <= expiry
               && (Idle(events[i], id, email, code) || WrongAnswer(events[i], id, email, code))
    requires WrongOnes(events, id, email, code) < 5
    ensures var after := After(inMemory, s, events);
            Open(after, id, user, email, until, WrongOnes(events, id, email, code)) && Coded(after, email, code, expiry)
  {
    if events != [] {
      var n := |events| - 1;
      AnswersKeepOpen(inMemory, s, events[..n], id, user, email, code, until, expiry);
      var before, wrong := After(inMemory, s, events[..n]), WrongOnes(events[..n], id, email, code);
      if WrongAnswer(events[n], id, email, code) {
        WrongAnswerCounts(inMemory, before, events[n], id, user, email, code, until, expiry, wrong);
      } else {
        WaitingKeepsOpen(inMemory, before, events[n], id, user, email, until, wrong);
        UnusedKeepsCode(inMemory, before, events[n], email, code, expiry);
      }
    }
  }

  lemma RightAnswer(
    inMemory: bool, s: Store, id: string, user: nat, email: string, code: string,
    until: Instant, expiry: Instant, wrong: nat, now: Instant)
    requires Open(s, id, user, email, until, wrong) && Coded(s, email, code, expiry)
    requires now <= until && now <= expiry
    ensures Perform(inMemory, s, Event(Answering(email, code, id, true), now)).answer == Session(user)
    ensures Perform(inMemory, s, Event(Answering(email, code, id, false), now)).answer == AccountNotActive
  {
  }

  lemma {:induction false} UnissuedAfter(inMemory: bool, events: seq<Event>, id: string)
    requires forall i :: 0 <= i < |events| ==> !LogsIn(events[i], id)
    ensures Unissued(After(inMemory, map[], events), id)
  {
    if events != [] {
      var n := |events| - 1;
      UnissuedAfter(inMemory, events[..n], id);
      StaysUnissued(inMemory, After(inMemory, map[], events[..n]), events[n], id);
    }
  }

  /**
   * Whatever came before: after a login under a new identifier, then a code
   * delivered to its email, and fewer than five wrong answers since, the code
   * answers the challenge within five minutes of both, with a session of that
   * very user if the account is active.
   */
  lemma RightAnswerGivesSession(
    inMemory: bool, before: seq<Event>, id: string, user: nat, email: string, loginAt: Instant,
    waiting: seq<Event>, challenge: Option<string>, code: string, sentAt: Instant, since: seq<Event>, now: Instant)
    requires forall i :: 0 <= i < |before| ==> !LogsIn(before[i], id)
    requires email != "" && (challenge.Some? ==> challenge.value == id)
    requires sentAt <= now && now <= loginAt + 300 * 1000 && now <= sentAt + 300 * 1000
    requires forall i :: 0 <= i < |waiting| ==> waiting[i].at <= now && Waiting(waiting[i], id, email)
    requires forall i :: 0 <= i < |since| ==>
               since[i].at <= now && (Idle(since[i], id, email, code) || WrongAnswer(since[i], id, email, code))
    requires WrongOnes(since, id, email, code) < 5
    ensures var s0 := After(inMemory, map[], before);
            var s1 := Perform(inMemory, s0, Event(LoggingIn(id, user, email), loginAt)).store;
            var s2 := After(inMemory, s1, waiting);
            var sent := Perform(inMemory, s2, Event(Sending(email, challenge, code, true), sentAt));
            var s3 := After(inMemory, sent.store, since);
            && sent.answer == CodeSent
            && Perform(inMemory, s3, Event(Answering(email, code, id, true), now)).answer == Session(user)
            && Perform(inMemory, s3, Event(Answering(email, code, id, false), now)).answer == AccountNotActive
  {
    var s0 := After(inMemory, map[], before);
    UnissuedAfter(inMemory, before, id);
    var s1 := Perform(inMemory, s0, Event(LoggingIn(id, user, email), loginAt)).store;
    var until, expiry := loginAt + 300 * 1000, sentAt + 300 * 1000;
    WaitingRunKeepsOpen(inMemory, s1, waiting, id, user, email, until);
    var s2 := After(inMemory, s1, waiting);
    var sending := Event(Sending(email, challenge, code, true), sentAt);
    WaitingKeepsOpen(inMemory, s2, sending, id, user, email, until, 0);
    CodeGoesOut(inMemory, s2, id, user, email, challenge, code, until, sentAt);
    var s3 := Perform(inMemory, s2, sending).store;
    AnswersKeepOpen(inMemory, s3, since, id, user, email, code, until, expiry);
    RightAnswer(inMemory, After(inMemory, s3, since), id, user, email, code, until, expiry,
                WrongOnes(since, id, email, code), now);
  }

  lemma {:induction false} UnusedRunKeepsCode(
    inMemory: bool, s: Store, events: seq<Event>, email: string, code: string, until: Instant)
    requires Coded(s, email, code, until)
    requires forall i :: 0 <= i < |events| ==> events[i].at <= until && Unused(events[i], email, code)
    ensures Coded(After(inMemory, s, events), email, code, until)
  {
    if events != [] {
      var n := |events| - 1;
      UnusedRunKeepsCode(inMemory, s, events[..n], email, code, until);
      UnusedKeepsCode(inMemory, After(inMemory, s, events[..n]), events[n], email, code, until);
    }
  }

  /** And in any state: a code delivered to an email and not used since verifies that email for five minutes. */
  lemma RightCodeVerifiesEmail(
    inMemory: bool, s: Store, email: string, code: string, sentAt: Instant, since: seq<Event>, now: Instant)
    requires email != "" && now <= sentAt + 300 * 1000
    requires forall i :: 0 <= i < |since| ==> since[i].at <= now && Unused(since[i], email, code)
    ensures var sent := Perform(inMemory, s, Event(Sending(email, None, code, true), sentAt));
            var after := After(inMemory, sent.store, since);
            && sent.answer == CodeSent
            && Perform(inMemory, after, Event(Verifying(email, code), now)).answer == EmailVerified
  {
    var sent := Perform(inMemory, s, Event(Sending(email, None, code, true), sentAt)).store;
    UnusedRunKeepsCode(inMemory, sent, since, email, code, sentAt + 300 * 1000);
  }

  lemma CodeGoesOut(
    inMemory: bool, s: Store, id: string, user: nat, email: string, challenge: Option<string>, code: string,
    until: Instant, at: Instant)
    requires Open(s, id, user, email, until, 0) && at <= until && email != ""
    requires challenge.Some? ==> challenge.value == id
    ensures var sent := Perform(inMemory, s, Event(Sending(email, challenge, code, true), at));
            sent.answer == CodeSent && Coded(sent.store, email, code, at + 300 * 1000)
  {
  }
}
