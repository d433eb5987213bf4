/**
 The reading page's session protocol: a generation counter decides, when the reply to a creation
 request arrives at last, whether the page still wants that session.
 */
module SessionKeeper {
  import opened Prelude

  /**
   `held` and `generation` are the page's two references and `pending` its requests under way, each
   known by the generation it was sent in. On the server's side sessions are numbered in the order
   they were created, `closes` lists the close requests as they were sent, and `unheard` holds the
   sessions whose creation was never answered.
   */
  datatype State = State(
    held: Option<nat>, generation: nat, pending: set<nat>, created: nat, closes: seq<nat>, unheard: set<nat>)

  datatype Action =
    | Start
    | End
    | Created(request: nat)
    | Failed(request: nat)
    | Unanswered(request: nat)

  const INITIAL := State(None, 0, {}, 0, [], {})

  function Released(s: State): State {
    if s.held.Some? then s.(held := None, closes := s.closes + [s.held.value]) else s
  }

  /** A reply nobody waits for cannot happen and changes nothing. */
  function Step(s: State, action: Action): State {
    match action
    case Start => var r := Released(s); r.(generation := s.generation + 1, pending := s.pending + {s.generation + 1})
    case End => Released(s).(generation := s.generation + 1)
    case Created(request) =>
      if request !in s.pending then s
      else
        var r := s.(created := s.created + 1, pending := s.pending - {request});
        if s.generation != request then r.(closes := s.closes + [s.created]) else r.(held := Some(s.created))
    case Failed(request) => s.(pending := s.pending - {request})
    case Unanswered(request) =>
      if request !in s.pending then s
      else s.(created := s.created + 1, pending := s.pending - {request}, unheard := s.unheard + {s.created})
  }

  function Run(s: State, actions: seq<Action>): State {
    if actions == [] then s else Step(Run(s, actions[..|actions| - 1]), actions[|actions| - 1])
  }

  /** How often closing a session was asked for. */
  function Closings(s: State, session: nat): nat {
    multiset(s.closes)[session]
  }

  /** The page has heard of the session and does not hold it any more. */
  predicate IsDone(s: State, session: nat) {
    session < s.created && s.held != Some(session) && session !in s.unheard
  }

  /**
   Every session created is the held one, never closed, or another, closed exactly once, or one the
   page never heard of, which it cannot close.
   */
  ghost predicate NoLeak(s: State) {
    && (s.held.Some? ==> s.held.value < s.created && s.held.value !in s.unheard)
    && (forall session | session in s.unheard :: session < s.created)
    && forall session: nat :: Closings(s, session) == if IsDone(s, session) then 1 else 0
  }

  /** The reply the page waits for finds it holding nothing. */
  ghost predicate Waiting(s: State) {
    (forall g | g in s.pending :: g <= s.generation) && (s.generation in s.pending ==> s.held == None)
  }

  lemma OneMoreClose(closes: seq<nat>, session: nat, other: nat)
    ensures multiset(closes + [session])[other] == multiset(closes)[other] + (if other == session then 1 else 0)
  {
  }

  lemma ReleasedKeeps(s: State)
    requires NoLeak(s)
    ensures NoLeak(Released(s)) && Released(s).held == None
  {
    if s.held.Some? {
      forall session: nat
        ensures Closings(Released(s), session) == Closings(s, session) + (if session == s.held.value then 1 else 0)
      {
        OneMoreClose(s.closes, s.held.value, session);
      }
    }
  }

  lemma SameSessions(s: State, r: State)
    requires NoLeak(s) && s.held == r.held && s.created == r.created && s.closes == r.closes && s.unheard == r.unheard
    ensures NoLeak(r)
  {
    assert forall session: nat :: Closings(r, session) == Closings(s, session);
  }

  /** One more session exists: held, never heard of, or closed at once. */
  lemma NewSession(s: State, r: State, closed: bool)
    requires NoLeak(s) && r.created == s.created + 1
    requires r.closes == if closed then s.closes + [s.created] else s.closes
    requires closed ==> r.held == s.held && r.unheard == s.unheard
    requires !closed ==>
      || (r.held == Some(s.created) && r.unheard == s.unheard && s.held == None)
      || (r.held == s.held && r.unheard == s.unheard + {s.created})
    ensures NoLeak(r)
  {
    forall session: nat
      ensures Closings(r, session) == Closings(s, session) + (if closed && session == s.created then 1 else 0)
    {
      OneMoreClose(s.closes, s.created, session);
    }
  }

  lemma StepKeeps(s: State, action: Action)
    requires NoLeak(s) && Waiting(s)
    ensures NoLeak(Step(s, action)) && Waiting(Step(s, action))
  {
    ReleasedKeeps(s);
    var r := Step(s, action);
    match action
    case Start | End => SameSessions(Released(s), r);
    case Failed(_) => SameSessions(s, r);
    case Unanswered(request) =>
      if request in s.pending {
        NewSession(s, r, false);
      }
    case Created(request) =>
      if request in s.pending {
        NewSession(s, r, s.generation != request);
      }
  }

  /** In every interleaving of starts, ends and replies no session leaks and none is closed twice. */
  lemma {:induction false} NeverLeaks(actions: seq<Action>)
    ensures NoLeak(Run(INITIAL, actions)) && Waiting(Run(INITIAL, actions))
    decreases |actions|
  {
    if actions != [] {
      NeverLeaks(actions[..|actions| - 1]);
      StepKeeps(Run(INITIAL, actions[..|actions| - 1]), actions[|actions| - 1]);
    }
  }

  lemma {:induction false} RunConcat(s: State, a: seq<Action>, b: seq<Action>)
    ensures Run(s, a + b) == Run(Run(s, a), b)
    decreases |b|
  {
    if b == [] {
      assert a + b == a;
    } else {
      RunConcat(s, a, b[..|b| - 1]);
      assert (a + b)[..|a + b| - 1] == a + b[..|b| - 1];
    }
  }

  /** Replies alone, however many and however late. */
  ghost predicate OnlyReplies(actions: seq<Action>) {
    forall i | 0 <= i < |actions| :: actions[i].Created? || actions[i].Failed? || actions[i].Unanswered?
  }

  /** The page wants no session any more. */
  ghost predicate Left(s: State) {
    s.held == None && forall g | g in s.pending :: g < s.generation
  }

  lemma {:induction false} LeftStays(s: State, replies: seq<Action>)
    requires Left(s) && OnlyReplies(replies)
    ensures Left(Run(s, replies))
    decreases |replies|
  {
    if replies != [] {
      LeftStays(s, replies[..|replies| - 1]);
    }
  }

  /**
   After the last end, whatever replies are still to come: every session ever created, before or
   after, is closed exactly once, and none is open, exactly for those the page heard of.
   */
  lemma NothingOpenAfterEnd(before: seq<Action>, replies: seq<Action>)
    requires OnlyReplies(replies)
    ensures var s := Run(INITIAL, before + [End] + replies);
            && s.held == None
            && forall session: nat | session < s.created ::
                 Closings(s, session) == if session in s.unheard then 0 else 1
  {
    NeverLeaks(before);
    var s := Run(INITIAL, before);
    assert (before + [End])[..|before|] == before;
    assert Left(Run(INITIAL, before + [End]));
    RunConcat(INITIAL, before + [End], replies);
    LeftStays(Run(INITIAL, before + [End]), replies);
    NeverLeaks(before + [End] + replies);
  }

  /**
   After the last start, once its own reply has come, the page holds the session of that reply and
   no other, in whatever order earlier requests are answered.
   */
  lemma LatestStartHolds(before: seq<Action>, early: seq<Action>, late: seq<Action>)
    requires OnlyReplies(early) && OnlyReplies(late)
    requires var g := Run(INITIAL, before).generation + 1;
             Created(g) !in early && Failed(g) !in early && Unanswered(g) !in early
    ensures var g := Run(INITIAL, before).generation + 1;
            var asked := before + [Start] + early;
            Run(INITIAL, asked + [Created(g)] + late).held == Some(Run(INITIAL, asked).created)
  {
    var g := Run(INITIAL, before).generation + 1;
    NeverLeaks(before);
    assert (before + [Start])[..|before|] == before;
    var started := Run(INITIAL, before + [Start]);
    RunConcat(INITIAL, before + [Start], early);
    StillAsked(started, early);
    var asked := before + [Start] + early;
    assert (asked + [Created(g)])[..|asked|] == asked;
    RunConcat(INITIAL, asked + [Created(g)], late);
    StillHeld(Run(INITIAL, asked + [Created(g)]), late);
  }

  lemma {:induction false} StillAsked(s: State, replies: seq<Action>)
    requires OnlyReplies(replies) && s.generation in s.pending
    requires Created(s.generation) !in replies && Failed(s.generation) !in replies &&
        Unanswered(s.generation) !in replies
    ensures Run(s, replies).generation == s.generation && s.generation in Run(s, replies).pending
    decreases |replies|
  {
    if replies != [] {
      StillAsked(s, replies[..|replies| - 1]);
      assert replies[|replies| - 1] in replies;
    }
  }

  lemma {:induction false} StillHeld(s: State, replies: seq<Action>)
    requires OnlyReplies(replies) && s.generation !in s.pending
    ensures var r := Run(s, replies); r.held == s.held && r.generation == s.generation && r.generation !in r.pending
    decreases |replies|
  {
    if replies != [] {
      StillHeld(s, replies[..|replies| - 1]);
    }
  }

  // ----- the page -----

  class LecturePage {
    var sessionKey: Option<nat>
    var sessionGeneration: nat
    var pending: set<nat>
    var created: nat
    var closes: seq<nat>
    var unheard: set<nat>

    function Abstract(): State
      reads this
    {
      State(sessionKey, sessionGeneration, pending, created, closes, unheard)
    }

    constructor ()
      ensures Abstract() == INITIAL
    {
      sessionKey, sessionGeneration, pending, created, closes, unheard := None, 0, {}, 0, [], {};
    }

    method CloseSession(key: nat)
      modifies this`closes
      ensures closes == old(closes) + [key]
    {
      closes := closes + [key];
    }

    method EndSession()
      modifies this
      ensures Abstract() == Step(old(Abstract()), End)
    {
      sessionGeneration := sessionGeneration + 1;
      if sessionKey == None {
        return;
      }
      var active := sessionKey.value;
      sessionKey := None;
      CloseSession(active);
    }

    /** startSession up to its await; the generation stays in the closure of the continuation. */
    method StartSession() returns (generation: nat)
      modifies this
      ensures Abstract() == Step(old(Abstract()), Start) && generation == sessionGeneration
    {
      generation := sessionGeneration + 1;
      sessionGeneration := generation;
      if sessionKey.Some? {
        var active := sessionKey.value;
        sessionKey := None;
        CloseSession(active);
      }
      pending := pending + {generation};
    }

    /** The continuation of startSession after a session was created. */
    method SessionCreated(generation: nat)
      requires generation in pending
      modifies this
      ensures Abstract() == Step(old(Abstract()), Created(generation))
    {
      var session := created;
      created := created + 1;
      pending := pending - {generation};
      if sessionGeneration != generation {
        CloseSession(session);
        return;
      }
      sessionKey := Some(session);
    }

    /** The continuation after the request failed. */
    method CreationFailed(generation: nat)
      modifies this`pending
      ensures Abstract() == Step(old(Abstract()), Failed(generation))
    {
      pending := pending - {generation};
    }
  }
}
