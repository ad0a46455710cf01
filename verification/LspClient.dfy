/** The client object of src/lsp_client.rs: its request counter, its frame queue and its read loop. */
module LspClient {
  import opened Prelude
  import opened LspSession

  datatype ReadFailure = Expired | Broken(error: FrameError)

  /** What the world does before one turn of a read loop: frames reach the queue, the deadline passes, the
      reader thread ends. */
  datatype Turn = Turn(arriving: seq<Frame>, expired: bool, closed: bool)

  function Arrivals(frames: seq<Frame>): seq<Event> {
    seq(|frames|, k requires 0 <= k < |frames| => Arrive(frames[k]))
  }

  lemma {:induction false} ArrivalsRun(s: Session, frames: seq<Frame>)
    ensures Run(s, Arrivals(frames)) == s.(log := s.log + frames)
  {
    if frames == [] {
      assert s.log + frames == s.log;
    } else {
      var front, last := frames[..|frames| - 1], frames[|frames| - 1];
      ArrivalsRun(s, front);
      assert Arrivals(frames)[..|frames| - 1] == Arrivals(front);
      assert s.log + front + [last] == s.log + frames;
    }
  }

  lemma {:induction false} RunConcat(s: Session, a: seq<Event>, b: seq<Event>)
    ensures Run(s, a + b) == Run(Run(s, a), b)
  {
    if b == [] {
      assert a + b == a;
    } else {
      RunConcat(s, a, b[..|b| - 1]);
      assert (a + b)[..|a + b| - 1] == a + b[..|b| - 1];
    }
  }

  /** The deadline passes after `j` turns. */
  predicate Expires(turns: seq<Turn>, j: nat) {
    j <= |turns| && (j == |turns| || turns[j].expired)
  }

  /** The error ends a read: it was on the queue and the policy does not absorb it, or nothing came. */
  predicate Ends(s: Session, e: FrameError, policy: Policy, turns: seq<Turn>) {
    || (0 < s.taken <= |s.log| && s.log[s.taken - 1] == Err(e) && (e.Payload? ==> policy == FailFast))
    || (s.taken == |s.log| && exists turn :: turn in turns && e == Silence(turn.closed))
  }

  /** What a read sees when nothing is queued. */
  function Silence(closed: bool): FrameError {
    if closed then Fatal("eof_before_header") else Timeout("lsp_timeout")
  }

  class Client {
    var requestId: int
    var frames: seq<Frame>
    ghost var history: seq<Event>

    ghost function Past(): Session
      reads this
    {
      Run(Start, history)
    }

    /** The object is where the state machine is after the events of its history. */
    ghost predicate Valid()
      reads this
    {
      && requestId == NthId(Past().issued)
      && Good(Past())
      && frames == Past().log[Past().taken..]
    }

    constructor ()
      ensures Valid() && history == [] && frames == []
    {
      requestId := 1;
      frames := [];
      history := [];
      EveryRunIsGood([]);
    }

    method NextId() returns (id: int)
      modifies this`requestId
      ensures id == old(requestId)
      ensures forall n: nat :: old(requestId) == NthId(n) ==> requestId == NthId(n + 1)
    {
      id := requestId;
      requestId := if requestId == TWO_TO_THE_63 - 1 then -TWO_TO_THE_63 else requestId + 1;
    }

    method DrainPending()
      modifies this`frames
      ensures frames == []
    {
      while frames != [] {
        frames := frames[1..];
      }
    }

    /** The reader thread puts frames on the queue. */
    method Receive(arriving: seq<Frame>)
      requires Valid()
      modifies this`frames, this`history
      ensures Valid() && history == old(history) + Arrivals(arriving)
      ensures Past() == old(Past()).(log := old(Past()).log + arriving)
      ensures frames == old(frames) + arriving
    {
      ghost var s := Past();
      RunConcat(Start, history, Arrivals(arriving));
      ArrivalsRun(s, arriving);
      EveryRunIsGood(history + Arrivals(arriving));
      assert (s.log + arriving)[s.taken..] == s.log[s.taken..] + arriving;
      frames := frames + arriving;
      history := history + Arrivals(arriving);
    }

    /** One queued frame, or the reason why there is none. */
    method NextFrame(closed: bool) returns (f: Frame)
      modifies this`frames
      ensures old(frames) != [] ==> f == old(frames)[0] && frames == old(frames)[1..]
      ensures old(frames) == [] ==> f == Err(Silence(closed)) && frames == []
    {
      if frames != [] {
        f := frames[0];
        frames := frames[1..];
      } else {
        f := Err(Silence(closed));
      }
    }

    /** Takes an id and sends a request with it. */
    method SendRequest(policy: Policy) returns (id: int)
      requires Valid() && Past().waiting == None
      modifies this
      ensures Valid() && history == old(history) + [Send(policy)] && frames == []
      ensures Past().waiting == Some(Request(old(Past().issued), policy, |Past().log|)) && id == NthId(old(Past().issued))
    {
      RunMore(Start, history, Send(policy));
      StepKeepsGood(Past(), Send(policy));
      id := NextId();
      DrainPending();
      history := history + [Send(policy)];
    }

    method SendNotification()
      requires Valid() && Past().waiting == None
      modifies this`frames, this`history
      ensures Valid() && history == old(history) + [Notify] && frames == [] && Past().waiting == None
    {
      RunMore(Start, history, Notify);
      StepKeepsGood(Past(), Notify);
      DrainPending();
      history := history + [Notify];
    }

    /** The queue gives up its first frame. */
    twostate lemma TookOne()
      requires old(Valid()) && old(Past().waiting.Some? && Past().taken < |Past().log|)
      requires requestId == old(requestId) && frames == old(frames)[1..] && history == old(history) + [Take]
      ensures Valid() && Past() == TakeNext(old(Past()))
    {
      RunMore(Start, old(history), Take);
      StepKeepsGood(old(Past()), Take);
    }

    twostate lemma GaveUp()
      requires old(Valid()) && requestId == old(requestId) && frames == old(frames) && history == old(history) + [GiveUp]
      ensures Valid() && Past() == old(Past()).(waiting := None)
    {
      RunMore(Start, old(history), GiveUp);
      StepKeepsGood(old(Past()), GiveUp);
    }

    /** One turn of the read loop: None to go on. */
    method ReadOnce(targetId: int, policy: Policy, closed: bool) returns (r: Option<Result<Message, ReadFailure>>)
      requires Valid() && Past().waiting.Some?
      requires Past().waiting.value.policy == policy && targetId == Target(Past().waiting.value)
      modifies this`frames, this`history
      ensures Valid() && old(history) <= history
      ensures Past().log == old(Past().log) && Past().issued == old(Past().issued)
      ensures r == None ==> Past() == old(Past()).(taken := old(Past()).taken + 1)
      ensures Past().taken == old(Past()).taken + if old(frames) == [] then 0 else 1
      ensures r.Some? ==> Past().waiting == None
      ensures r.Some? && r.value.Ok? ==> !r.value.value.hasMethod && r.value.value.id == Integer(targetId)
      ensures r == None && old(frames)[0].Ok? ==>
        old(frames)[0].value.hasMethod || old(frames)[0].value.id != Integer(targetId)
      ensures r.Some? && r.value.Ok? ==>
        && old(frames) != [] && old(frames)[0] == Ok(r.value.value)
        && Past().answers == old(Past().answers) + [Answer(old(Past().waiting).value, old(Past().taken))]
      ensures r.Some? && r.value.Err? ==>
        && Past().answers == old(Past().answers)
        && (if old(frames) == [] then r.value.error == Broken(Silence(closed))
            else exists e :: old(frames)[0] == Err(e) && r.value.error == Broken(e) && (e.Payload? ==> policy == FailFast))
    {
      label before:
      var f := NextFrame(closed);
      if old(frames) == [] {
        history := history + [GiveUp];
        GaveUp@before();
      } else {
        assert f == Past().log[Past().taken];
        history := history + [Take];
        TookOne@before();
      }
      match f
      case Err(e) => r := if e.Payload? && policy == Skip then None else Some(Err(Broken(e)));
      case Ok(m) => r := if IsResponseTo(m, targetId) then Some(Ok(m)) else None;
    }

    /** Reads until a response to the request in flight, one turn of the world per frame. It fails only on a
        frame that ends the read, on silence, or after passing over one frame in every turn until the deadline. */
    method ReadResponse(targetId: int, policy: Policy, turns: seq<Turn>) returns (r: Result<Message, ReadFailure>)
      requires Valid() && Past().waiting.Some?
      requires Past().waiting.value.policy == policy && targetId == Target(Past().waiting.value)
      modifies this`frames, this`history
      ensures Valid() && old(history) <= history && Past().waiting == None
      ensures r.Err? ==> Past().answers == old(Past().answers)
      ensures r.Ok? ==>
        && |Past().answers| == |old(Past().answers)| + 1
        && var a := Past().answers[|Past().answers| - 1];
        && Past().answers == old(Past().answers) + [a]
        && a.request == old(Past().waiting).value && a.at < |Past().log| && Past().log[a.at] == Ok(r.value)
      ensures r.Ok? ==> !r.value.hasMethod && r.value.id == Integer(targetId)
      ensures r == Err(Expired) ==> exists j ::
        && Expires(turns, j) && Past().taken == old(Past().taken) + j
        && AllPassed(Past().log, old(Past().taken), Past().taken, old(Past().waiting).value)
      ensures r.Err? && r.error.Broken? ==> Ends(Past(), r.error.error, policy, turns)
    {
      hide Run, Passed, Answers, IsFirstAnswer, InOrder, TakeNext;
      ghost var request, first := Past().waiting.value, Past().taken;
      for k := 0 to |turns|
        invariant Valid() && old(history) <= history
        invariant Past().waiting == Some(request) && Past().answers == old(Past().answers)
        invariant first <= Past().taken && request.sentAt <= first
        invariant Past().taken == first + k
      {
        Receive(turns[k].arriving);
        if turns[k].expired {
          break;
        }
        assert turns[k] in turns;
        var turn := ReadOnce(targetId, policy, turns[k].closed);
        if turn.Some? {
          return turn.value;
        }
      }
      assert Expires(turns, Past().taken - first);
      label late:
      history := history + [GiveUp];
      GaveUp@late();
      r := Err(Expired);
    }
  }
}
