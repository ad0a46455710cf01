/** The exchange of src/lsp_client.rs with a language server, as a state machine over single steps.
    Section 5 of the JSON-RPC 2.0 specification: a response carries the id of its request, and no method. */
module LspSession {
  import opened Prelude

  /** The `id` member of a message. */
  datatype Id = Absent | Integer(value: int) | Other

  datatype Message = Message(hasMethod: bool, id: Id, body: string)

  datatype FrameError = Payload(text: string) | Fatal(text: string) | Timeout(text: string)

  type Frame = Result<Message, FrameError>

  /** What a read loop does with a frame whose payload cannot be parsed. */
  datatype Policy = Skip | FailFast

  const TWO_TO_THE_63: int := 0x8000_0000_0000_0000
  const TWO_TO_THE_64: int := 0x1_0000_0000_0000_0000

  /** `Value::as_i64` of the id member. */
  function AsI64(id: Id): Option<int> {
    if id.Integer? && -TWO_TO_THE_63 <= id.value < TWO_TO_THE_63 then Some(id.value) else None
  }

  predicate IsResponseTo(m: Message, target: int) {
    !m.hasMethod && AsI64(m.id) == Some(target)
  }

  predicate Answers(f: Frame, target: int) {
    f.Ok? && IsResponseTo(f.value, target)
  }

  /** The read loop goes on after this frame. */
  predicate Passed(f: Frame, target: int, policy: Policy) {
    if f.Ok? then !IsResponseTo(f.value, target) else f.error.Payload? && policy == Skip
  }

  lemma ResponseHasIdAndNoMethod(m: Message, target: int)
    requires -TWO_TO_THE_63 <= target < TWO_TO_THE_63
    ensures IsResponseTo(m, target) <==> !m.hasMethod && m.id == Integer(target)
  {
  }

  /** The id of the n-th request: an `AtomicI64` that starts at 1 and wraps around. */
  function NthId(n: nat): (id: int)
    ensures -TWO_TO_THE_63 <= id < TWO_TO_THE_63
  {
    (1 + n + TWO_TO_THE_63) % TWO_TO_THE_64 - TWO_TO_THE_63
  }

  /** The first id is 1; behind the largest comes the smallest. */
  lemma IdsStartAtOne(n: nat)
    ensures n < TWO_TO_THE_63 - 1 ==> NthId(n) == n + 1
    ensures NthId(TWO_TO_THE_63 - 1) == -TWO_TO_THE_63
  {
  }

  /** Ids repeat only after all 2^64 of them have been used. */
  lemma IdsAreFresh(m: nat, n: nat)
    requires m < n < m + TWO_TO_THE_64
    ensures NthId(m) != NthId(n)
  {
    var a, b := 1 + m + TWO_TO_THE_63, 1 + n + TWO_TO_THE_63;
    assert a == TWO_TO_THE_64 * (a / TWO_TO_THE_64) + a % TWO_TO_THE_64;
    assert b == TWO_TO_THE_64 * (b / TWO_TO_THE_64) + b % TWO_TO_THE_64;
  }

  // ----- The state machine -----

  /** A request in flight: the how-manieth it is, and how many frames had arrived when it was sent. */
  datatype Request = Request(serial: nat, policy: Policy, sentAt: nat)

  /** A request and the index of the frame returned for it. */
  datatype Answer = Answer(request: Request, at: nat)

  /** `log` is every frame that ever arrived; those from index `taken` on are still queued. */
  datatype Session = Session(log: seq<Frame>, taken: nat, issued: nat, waiting: Option<Request>, answers: seq<Answer>)

  datatype Event =
    | Arrive(frame: Frame)    // the reader thread delivers whatever the server sent
    | Send(policy: Policy)    // take an id, drain the queue, write the request
    | Notify                  // drain the queue, write a notification
    | Take                    // one turn of the read loop
    | GiveUp                  // the deadline passed, nothing came, or the request could not be written

  const Start: Session := Session([], 0, 0, None, [])

  function Target(r: Request): int {
    NthId(r.serial)
  }

  function TakeNext(s: Session): Session
    requires s.waiting.Some? && s.taken < |s.log|
  {
    var r := s.waiting.value;
    var f := s.log[s.taken];
    var t := s.(taken := s.taken + 1);
    if Answers(f, Target(r)) then t.(waiting := None, answers := s.answers + [Answer(r, s.taken)])
    else if Passed(f, Target(r), r.policy) then t
    else t.(waiting := None)
  }

  /** One step; a step the client cannot make in this state changes nothing. The client is used by one
      thread at a time, so it sends only when it waits for nothing. */
  function Step(s: Session, e: Event): Session {
    match e
    case Arrive(f) => s.(log := s.log + [f])
    case Send(policy) =>
      if s.waiting.Some? then s
      else s.(taken := |s.log|, issued := s.issued + 1, waiting := Some(Request(s.issued, policy, |s.log|)))
    case Notify => if s.waiting.Some? then s else s.(taken := |s.log|)
    case Take => if s.waiting.Some? && s.taken < |s.log| then TakeNext(s) else s
    case GiveUp => s.(waiting := None)
  }

  function Run(s: Session, events: seq<Event>): Session {
    if events == [] then s else Step(Run(s, events[..|events| - 1]), events[|events| - 1])
  }

  lemma RunMore(s: Session, events: seq<Event>, e: Event)
    ensures Run(s, events + [e]) == Step(Run(s, events), e)
  {
    assert (events + [e])[..|events|] == events;
  }

  // ----- What every run keeps -----

  /** Every frame in the range was passed over on the way to this request's answer. */
  predicate AllPassed(log: seq<Frame>, lo: nat, hi: nat, r: Request) {
    lo <= hi <= |log| && forall k :: lo <= k < hi ==> Passed(log[k], Target(r), r.policy)
  }

  /** The answer is the first frame since its request was sent that does not make the loop go on, and it
      is a response with the request's own id. */
  predicate IsFirstAnswer(log: seq<Frame>, a: Answer) {
    && a.at < |log| && Answers(log[a.at], Target(a.request))
    && AllPassed(log, a.request.sentAt, a.at, a.request)
  }

  /** Exchanges do not overlap: each request was sent after the frame that answered the one before. */
  predicate InOrder(answers: seq<Answer>) {
    forall i, j :: 0 <= i < j < |answers| ==>
      answers[i].request.serial < answers[j].request.serial && answers[i].at < answers[j].request.sentAt
  }

  predicate Good(s: Session) {
    && s.taken <= |s.log|
    && InOrder(s.answers)
    && (forall a :: a in s.answers ==>
          IsFirstAnswer(s.log, a) && a.at < s.taken && a.request.serial < s.issued
          && (s.waiting.Some? ==> a.request.serial < s.waiting.value.serial && a.at < s.waiting.value.sentAt))
    && (s.waiting.Some? ==>
          s.waiting.value.serial < s.issued
          && AllPassed(s.log, s.waiting.value.sentAt, s.taken, s.waiting.value))
  }

  lemma ArrivingKeepsGood(s: Session, f: Frame)
    requires Good(s)
    ensures Good(Step(s, Arrive(f)))
  {
    hide Passed, Answers;
    forall a | a in s.answers
      ensures IsFirstAnswer(s.log + [f], a)
    {
      assert IsFirstAnswer(s.log, a);
    }
  }

  lemma TakingKeepsGood(s: Session)
    requires Good(s) && s.waiting.Some? && s.taken < |s.log|
    ensures Good(TakeNext(s))
  {
    var r := s.waiting.value;
    var a := Answer(r, s.taken);
    hide Passed, Answers;
    assert Answers(s.log[s.taken], Target(r)) ==> IsFirstAnswer(s.log, a);
  }

  /** Every step keeps it, whatever frame the server sends. */
  lemma StepKeepsGood(s: Session, e: Event)
    requires Good(s)
    ensures Good(Step(s, e))
  {
    match e
    case Arrive(f) => ArrivingKeepsGood(s, f);
    case Take =>
      if s.waiting.Some? && s.taken < |s.log| {
        TakingKeepsGood(s);
      }
    case _ =>
  }

  /** In every run, every answer is the first response to its own request since that was sent. */
  lemma {:induction false} EveryRunIsGood(events: seq<Event>)
    ensures Good(Run(Start, events))
  {
    if events != [] {
      EveryRunIsGood(events[..|events| - 1]);
      StepKeepsGood(Run(Start, events[..|events| - 1]), events[|events| - 1]);
    }
  }

  /** No run returns the late answer to one request as the answer to another, and no frame answers two. */
  lemma LateAnswersAreNeverTaken(events: seq<Event>, i: nat, n: nat)
    requires var s := Run(Start, events); s.issued <= TWO_TO_THE_64 && i < |s.answers| && n < s.issued
    ensures var s := Run(Start, events); var a := s.answers[i];
            && a.at < |s.log| && s.log[a.at].Ok?
            && (s.log[a.at].value.id == Integer(NthId(n)) ==> n == a.request.serial)
            && forall j :: 0 <= j < |s.answers| && j != i ==> s.answers[j].at != a.at
  {
    var s := Run(Start, events);
    EveryRunIsGood(events);
    var a := s.answers[i];
    assert a in s.answers;
    assert IsFirstAnswer(s.log, a);
    if n < a.request.serial {
      IdsAreFresh(n, a.request.serial);
    } else if a.request.serial < n {
      IdsAreFresh(a.request.serial, n);
    }
    forall j | 0 <= j < |s.answers| && j != i
      ensures s.answers[j].at != a.at
    {
      assert s.answers[j] in s.answers;
      assert IsFirstAnswer(s.log, s.answers[j]);
    }
  }

  /** In every run an answer is a message without a method that carries the id of its request, and every frame
      that arrived between the request and it has a method, or another id, or no readable payload where these
      are skipped. */
  lemma AnswersByTheirFields(events: seq<Event>, a: Answer)
    requires a in Run(Start, events).answers
    ensures var log, id := Run(Start, events).log, Integer(NthId(a.request.serial));
            && a.request.sentAt <= a.at < |log|
            && log[a.at].Ok? && !log[a.at].value.hasMethod && log[a.at].value.id == id
            && forall k :: a.request.sentAt <= k < a.at ==>
                 if log[k].Ok? then log[k].value.hasMethod || log[k].value.id != id
                 else log[k].error.Payload? && a.request.policy == Skip
  {
    EveryRunIsGood(events);
    var log, target := Run(Start, events).log, Target(a.request);
    assert IsFirstAnswer(log, a);
    hide NthId, IsResponseTo;
    ResponseHasIdAndNoMethod(log[a.at].value, target);
    forall k | a.request.sentAt <= k < a.at
      ensures if log[k].Ok? then log[k].value.hasMethod || log[k].value.id != Integer(target)
              else log[k].error.Payload? && a.request.policy == Skip
    {
      assert Passed(log[k], target, a.request.policy);
      if log[k].Ok? {
        ResponseHasIdAndNoMethod(log[k].value, target);
      }
    }
  }

  // ----- What the read loop finds -----

  function Takes(n: nat): seq<Event> {
    seq(n, _ => Take)
  }

  lemma {:induction false} PassingFrames(s: Session, n: nat)
    requires s.waiting.Some? && AllPassed(s.log, s.taken, s.taken + n, s.waiting.value)
    ensures Run(s, Takes(n)) == s.(taken := s.taken + n)
  {
    if n > 0 {
      PassingFrames(s, n - 1);
      assert Takes(n)[..n - 1] == Takes(n - 1);
      var t := s.(taken := s.taken + n - 1);
      assert Passed(s.log[t.taken], Target(s.waiting.value), s.waiting.value.policy);
    }
  }

  /** The loop stops at the first frame it does not pass over. It returns that frame when it is the
      answer, and fails otherwise. */
  lemma StopsAtFirst(s: Session, n: nat)
    requires s.waiting.Some? && s.taken + n < |s.log|
    requires AllPassed(s.log, s.taken, s.taken + n, s.waiting.value)
    requires !Passed(s.log[s.taken + n], Target(s.waiting.value), s.waiting.value.policy)
    ensures var t := Run(s, Takes(n + 1)); var r := s.waiting.value; var at := s.taken + n;
            && t.waiting == None && t.taken == at + 1
            && t.answers == s.answers + (if Answers(s.log[at], Target(r)) then [Answer(r, at)] else [])
  {
    PassingFrames(s, n);
    assert Takes(n + 1)[..n] == Takes(n);
    hide Passed, Answers;
  }
}
