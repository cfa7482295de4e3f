/**
 * The second factor of an admin login: a challenge, a code sent by email, and
 * how often the challenge can be answered before it is used up or dies.
 */
module AdminLogin {
  import opened Options
  import opened TtlStore

  const TTL: nat := 300

  const MAX_ATTEMPTS: nat := 5

  datatype Answer =
    | ChallengeIssued | CodeSent | EmailVerified
    | Session(user: nat)
    | WrongCode | TooManyAttempts
    | ChallengeExpired | ChallengeMismatch | AccountNotActive | NotDelivered | InvalidOtp | EmailRequired

  datatype Outcome = Outcome(store: Store, answer: Answer)

  // ---------------------------------------------------------------- operations

  /** A correct password of an admin: `id` is a new random identifier. */
  function Login(s: Store, id: string, user: nat, email: string, now: Instant): Outcome {
    Outcome(Put(s, ChallengeKey(id), Challenge(user, email), TTL, now), ChallengeIssued)
  }

  /** `code` is the random code, `delivered` what the email adapter reports. */
  function SendOtp(s: Store, email: string, id: Option<string>, code: string, delivered: bool, now: Instant): Outcome {
    var known := if id.Some? then Lookup(s, ChallengeKey(id.value), now) else None;
    var pruned := if id.Some? then Pruned(s, ChallengeKey(id.value), now) else s;
    if email == "" then Outcome(s, EmailRequired)
    else if id.Some? && known.None? then Outcome(pruned, ChallengeExpired)
    else if id.Some? && (!known.value.Challenge? || known.value.email != email) then Outcome(pruned, ChallengeMismatch)
    else if delivered then Outcome(Put(pruned, OtpKey(email), Code(code), TTL, now), CodeSent)
    else Outcome(pruned - {OtpKey(email)}, NotDelivered)
  }

  /** `active` tells whether the account is still an active admin with this email. */
  function VerifyAdminLogin(
    inMemory: bool, s: Store, email: string, otp: string, id: string, active: bool, now: Instant): Outcome
  {
    var challengeKey, otpKey, attemptsKey := ChallengeKey(id), OtpKey(email), AttemptsKey(id);
    var known := Lookup(s, challengeKey, now);
    var seen := Pruned(s, challengeKey, now);
    if known.None? then Outcome(seen, ChallengeExpired)
    else if !known.value.Challenge? || known.value.email != email then Outcome(seen, ChallengeMismatch)
    else
      var stored := Lookup(seen, otpKey, now);
      var read := Pruned(seen, otpKey, now);
      if stored != Some(Code(otp)) then
        if NextCount(read, attemptsKey, now) >= MAX_ATTEMPTS
        then Outcome(read - {otpKey, challengeKey, attemptsKey}, TooManyAttempts)
        else Outcome(Incremented(inMemory, read, attemptsKey, TTL, now), WrongCode)
      else if !active then Outcome(read, AccountNotActive)
      else Outcome(read - {otpKey, challengeKey, attemptsKey}, Session(known.value.user))
  }

  /** The plain email check, which shares the code's key. */
  function VerifyOtp(s: Store, email: string, otp: string, now: Instant): Outcome {
    var read := Pruned(s, OtpKey(email), now);
    if Lookup(s, OtpKey(email), now) != Some(Code(otp)) then Outcome(read, InvalidOtp)
    else Outcome(read - {OtpKey(email)}, EmailVerified)
  }

  datatype Call =
    | LoggingIn(id: string, user: nat, email: string)
    | Sending(email: string, challenge: Option<string>, code: string, delivered: bool)
    | Answering(email: string, otp: string, id: string, active: bool)
    | Verifying(email: string, otp: string)

  datatype Event = Event(call: Call, at: Instant)

  function Perform(inMemory: bool, s: Store, e: Event): Outcome {
    match e.call
    case LoggingIn(id, user, email) => Login(s, id, user, email, e.at)
    case Sending(email, id, code, delivered) => SendOtp(s, email, id, code, delivered, e.at)
    case Answering(email, otp, id, active) => VerifyAdminLogin(inMemory, s, email, otp, id, active, e.at)
    case Verifying(email, otp) => VerifyOtp(s, email, otp, e.at)
  }

  // ---------------------------------------------------------------- what a challenge answers over a run

  predicate Answers(e: Event, id: string) {
    e.call.Answering? && e.call.id == id
  }

  function WrongAnswers(inMemory: bool, s: Store, events: seq<Event>, id: string): nat
    decreases |events|
  {
    if events == [] then 0
    else
      var out := Perform(inMemory, s, events[0]);
      (if Answers(events[0], id) && (out.answer == WrongCode || out.answer == TooManyAttempts) then 1 else 0)
      + WrongAnswers(inMemory, out.store, events[1..], id)
  }

  function Sessions(inMemory: bool, s: Store, events: seq<Event>, id: string): nat
    decreases |events|
  {
    if events == [] then 0
    else
      var out := Perform(inMemory, s, events[0]);
      (if Answers(events[0], id) && out.answer.Session? then 1 else 0)
      + Sessions(inMemory, out.store, events[1..], id)
  }

  /** Times never go back. */
  predicate Timed(events: seq<Event>, from: Instant) {
    && (forall i :: 0 <= i < |events| ==> events[i].at >= from)
    && forall i, j :: 0 <= i < j < |events| ==> events[i].at <= events[j].at
  }

  function Logins(events: seq<Event>, id: string): nat {
    if events == [] then 0
    else (if events[0].call.LoggingIn? && events[0].call.id == id then 1 else 0) + Logins(events[1..], id)
  }

  // ---------------------------------------------------------------- the life of a challenge

  predicate Unissued(s: Store, id: string) {
    ChallengeKey(id) !in s && AttemptsKey(id) !in s
  }

  /** A challenge with so many wrong answers; its counter does not expire before it does. */
  predicate Live(s: Store, id: string, now: Instant, wrong: nat) {
    && ChallengeKey(id) in s
    && s[ChallengeKey(id)].expiresAt.Some?
    && s[ChallengeKey(id)].expiresAt.value <= now + TTL * 1000
    && wrong < MAX_ATTEMPTS
    && (if wrong == 0 then AttemptsKey(id) !in s
        else && AttemptsKey(id) in s
             && s[AttemptsKey(id)].value == Counter(wrong)
             && s[AttemptsKey(id)].expiresAt.Some?
             && s[ChallengeKey(id)].expiresAt.value <= s[AttemptsKey(id)].expiresAt.value)
  }

  predicate Gone(s: Store, id: string) {
    ChallengeKey(id) !in s
  }

  /** Answering a live challenge. */
  lemma AnswerToLive(
    inMemory: bool, s: Store, email: string, otp: string, id: string, active: bool, now: Instant,
    since: Instant, wrong: nat)
    requires Live(s, id, since, wrong) && since <= now
    ensures var out := VerifyAdminLogin(inMemory, s, email, otp, id, active, now);
            match out.answer
            case WrongCode => wrong + 1 < MAX_ATTEMPTS && Live(out.store, id, now, wrong + 1)
            case TooManyAttempts => wrong + 1 == MAX_ATTEMPTS && Gone(out.store, id)
            case Session(_) => Gone(out.store, id)
            case _ => Gone(out.store, id) || Live(out.store, id, now, wrong)
  {
  }

  /** Everything else that may happen meanwhile. */
  lemma OthersKeepLive(inMemory: bool, s: Store, e: Event, id: string, since: Instant, wrong: nat)
    requires Live(s, id, since, wrong) && since <= e.at
    requires !Answers(e, id) && !(e.call.LoggingIn? && e.call.id == id)
    ensures var out := Perform(inMemory, s, e);
            Gone(out.store, id) || Live(out.store, id, e.at, wrong)
  {
  }

  lemma StaysGone(inMemory: bool, s: Store, e: Event, id: string)
    requires Gone(s, id) && !(e.call.LoggingIn? && e.call.id == id)
    ensures Gone(Perform(inMemory, s, e).store, id)
    ensures var answer := Perform(inMemory, s, e).answer;
            Answers(e, id) ==> answer == ChallengeExpired
  {
  }

  lemma StaysUnissued(inMemory: bool, s: Store, e: Event, id: string)
    requires Unissued(s, id) && !(e.call.LoggingIn? && e.call.id == id)
    ensures Unissued(Perform(inMemory, s, e).store, id)
  {
  }

  lemma {:induction false} GoneAnswersNothing(inMemory: bool, s: Store, events: seq<Event>, id: string)
    requires Gone(s, id) && Logins(events, id) == 0
    ensures WrongAnswers(inMemory, s, events, id) == 0 && Sessions(inMemory, s, events, id) == 0
    decreases |events|
  {
    if events != [] {
      StaysGone(inMemory, s, events[0], id);
      GoneAnswersNothing(inMemory, Perform(inMemory, s, events[0]).store, events[1..], id);
    }
  }

  lemma {:induction false} LiveAnswersFew(
    inMemory: bool, s: Store, events: seq<Event>, id: string, since: Instant, wrong: nat)
    requires Live(s, id, since, wrong) && Timed(events, since) && Logins(events, id) == 0
    ensures var (w, n) := (wrong + WrongAnswers(inMemory, s, events, id), Sessions(inMemory, s, events, id));
            n <= 1 && w + n <= MAX_ATTEMPTS
    decreases |events|
  {
    if events != [] {
      var e, rest := events[0], events[1..];
      var next := Perform(inMemory, s, e).store;
      assert Timed(rest, e.at);
      if Answers(e, id) {
        AnswerToLive(inMemory, s, e.call.email, e.call.otp, id, e.call.active, e.at, since, wrong);
      } else {
        OthersKeepLive(inMemory, s, e, id, since, wrong);
      }
      if Gone(next, id) {
        GoneAnswersNothing(inMemory, next, rest, id);
      } else {
        var more := if Answers(e, id) && Perform(inMemory, s, e).answer == WrongCode then 1 else 0;
        LiveAnswersFew(inMemory, next, rest, id, e.at, wrong + more);
      }
    }
  }

  lemma {:induction false} UnissuedAnswersFew(inMemory: bool, s: Store, events: seq<Event>, id: string, since: Instant)
    requires Unissued(s, id) && Timed(events, since) && Logins(events, id) <= 1
    ensures var (w, n) := (WrongAnswers(inMemory, s, events, id), Sessions(inMemory, s, events, id));
            n <= 1 && w + n <= MAX_ATTEMPTS
    decreases |events|
  {
    if events != [] {
      var e, rest := events[0], events[1..];
      var next := Perform(inMemory, s, e).store;
      assert Timed(rest, e.at);
      if e.call.LoggingIn? && e.call.id == id {
        LiveAnswersFew(inMemory, next, rest, id, e.at, 0);
      } else {
        StaysUnissued(inMemory, s, e, id);
        StaysGone(inMemory, s, e, id);
        UnissuedAnswersFew(inMemory, next, rest, id, e.at);
      }
    }
  }

  /**
   * Over every timed run, whatever else happens in it and with either store,
   * one challenge yields at most one session and takes at most five answers
   * that are wrong or right.
   */
  lemma ChallengeBounds(inMemory: bool, events: seq<Event>, id: string, from: Instant)
    requires Timed(events, from) && Logins(events, id) <= 1
    ensures Sessions(inMemory, map[], events, id) <= 1
    ensures WrongAnswers(inMemory, map[], events, id) + Sessions(inMemory, map[], events, id) <= 5
  {
    UnissuedAnswersFew(inMemory, map[], events, id, from);
  }

  /** A session is given only for the code last sent to the challenge's own email, and uses that code up. */
  lemma SessionUsesUpTheCode(
    inMemory: bool, s: Store, email: string, otp: string, id: string, active: bool, now: Instant)
    requires VerifyAdminLogin(inMemory, s, email, otp, id, active, now).answer.Session?
    ensures Lookup(s, OtpKey(email), now) == Some(Code(otp)) && active
    ensures var challenge := Lookup(s, ChallengeKey(id), now);
            challenge.Some? && challenge.value.Challenge? && challenge.value.email == email
    ensures var after := VerifyAdminLogin(inMemory, s, email, otp, id, active, now).store;
            forall later, other :: !VerifyAdminLogin(inMemory, after, email, otp, other, active, later).answer.Session?
  {
  }

  // ---------------------------------------------------------------- codes over a run

  /** The call used up a code sent to the email: it gave a session, or verified the email. */
  predicate UsesCode(e: Event, answer: Answer, email: string) {
    || (e.call.Answering? && e.call.email == email && answer.Session?)
    || (e.call.Verifying? && e.call.email == email && answer == EmailVerified)
  }

  function CodesUsed(inMemory: bool, s: Store, events: seq<Event>, email: string): nat
    decreases |events|
  {
    if events == [] then 0
    else
      var out := Perform(inMemory, s, events[0]);
      (if UsesCode(events[0], out.answer, email) then 1 else 0) + CodesUsed(inMemory, out.store, events[1..], email)
  }

  function CodesDelivered(inMemory: bool, s: Store, events: seq<Event>, email: string): nat
    decreases |events|
  {
    if events == [] then 0
    else
      var out := Perform(inMemory, s, events[0]);
      (if events[0].call.Sending? && events[0].call.email == email && out.answer == CodeSent then 1 else 0)
      + CodesDelivered(inMemory, out.store, events[1..], email)
  }

  function Held(s: Store, email: string): nat {
    if OtpKey(email) in s then 1 else 0
  }

  lemma StepUsesHeld(inMemory: bool, s: Store, e: Event, email: string)
    ensures var out := Perform(inMemory, s, e);
            Held(out.store, email) + (if UsesCode(e, out.answer, email) then 1 else 0)
            <= Held(s, email) + if e.call.Sending? && e.call.email == email && out.answer == CodeSent then 1 else 0
  {
  }

  lemma {:induction false} UsesAreHeldOrDelivered(inMemory: bool, s: Store, events: seq<Event>, email: string)
    ensures CodesUsed(inMemory, s, events, email) <= Held(s, email) + CodesDelivered(inMemory, s, events, email)
    decreases |events|
  {
    if events != [] {
      StepUsesHeld(inMemory, s, events[0], email);
      UsesAreHeldOrDelivered(inMemory, Perform(inMemory, s, events[0]).store, events[1..], email);
    }
  }

  /** Over every run, sessions and email checks for an email are at most the codes delivered to it. */
  lemma EveryUseHasItsCode(inMemory: bool, events: seq<Event>, email: string)
    ensures CodesUsed(inMemory, map[], events, email) <= CodesDelivered(inMemory, map[], events, email)
  {
    UsesAreHeldOrDelivered(inMemory, map[], events, email);
  }
}
