/** Sessions, their clients and their presence refreshers, as a state machine. Every step is one
    section of the source under the manager's mutex, so a run is any interleaving of the callers.
    A refresher is a goroutine with a cancellable token; it is live until its token is cancelled. */
module Presence {
  import opened Text

  datatype Entry = Entry(client: nat, token: Option<nat>)

  datatype Refresher = Refresher(session: string, client: nat, interval: int)

  /** The registered entries, the live refreshers by token, and the next unused token and client. */
  datatype State = State(clients: map<string, Entry>, live: map<nat, Refresher>, nextToken: nat, nextClient: nat)

  /** `Connect` says whether building a client would succeed. `Start` and `Stop` are what the
      client events do, with the client that raised the event, which the source does not look at when
      it stops; a start also carries the settings it read before taking the lock. */
  datatype Step =
    | Connect(session: string, succeeds: bool)
    | Disconnect(session: string)
    | Start(session: string, client: nat, should: bool, interval: int)
    | Stop(session: string, client: nat)

  const INIT := State(map[], map[], 0, 0)

  function Cancel(live: map<nat, Refresher>, token: Option<nat>): map<nat, Refresher>
  {
    if token.Some? then live - {token.value} else live
  }

  function Next(s: State, step: Step): State
  {
    match step
    case Connect(session, succeeds) =>
      if session in s.clients || !succeeds then s
      else s.(clients := s.clients[session := Entry(s.nextClient, None)], nextClient := s.nextClient + 1)
    case Disconnect(session) =>
      s.(clients := s.clients - {session})
    case Start(session, client, should, interval) =>
      if !should || session !in s.clients then s
      else
        var ent := s.clients[session];
        State(s.clients[session := ent.(token := Some(s.nextToken))],
              Cancel(s.live, ent.token)[s.nextToken := Refresher(session, client, interval)],
              s.nextToken + 1, s.nextClient)
    case Stop(session, _) =>
      if session !in s.clients then s
      else
        var ent := s.clients[session];
        s.(clients := s.clients[session := ent.(token := None)], live := Cancel(s.live, ent.token))
  }

  /** What a Connect returns: the registered client, a new one, or nothing if it failed. */
  function Connected(s: State, session: string, succeeds: bool): Option<nat>
  {
    if session in s.clients then Some(s.clients[session].client)
    else if succeeds then Some(s.nextClient)
    else None
  }

  function Run(steps: seq<Step>): State
  {
    if |steps| == 0 then INIT else Next(Run(steps[..|steps| - 1]), steps[|steps| - 1])
  }

  lemma RunAppend(steps: seq<Step>, step: Step)
    ensures Run(steps + [step]) == Next(Run(steps), step)
  {
    assert (steps + [step])[..|steps|] == steps;
  }

  // ---- what every step keeps

  /** Every held token is live and belongs to the session that holds it; tokens and clients are
      numbered below the next ones; no client is registered twice. */
  ghost predicate Inv(s: State)
  {
    && (forall x :: x in s.clients && s.clients[x].token.Some? ==>
          var t := s.clients[x].token.value; t in s.live && s.live[t].session == x)
    && (forall t :: t in s.live ==> t < s.nextToken)
    && (forall x :: x in s.clients ==> s.clients[x].client < s.nextClient)
    && (forall x, y :: x in s.clients && y in s.clients && s.clients[x].client == s.clients[y].client ==> x == y)
  }

  lemma NextKeepsInv(s: State, step: Step)
    requires Inv(s)
    ensures Inv(Next(s, step))
  {
  }

  lemma {:induction false} RunKeepsInv(steps: seq<Step>)
    ensures Inv(Run(steps))
  {
    if |steps| > 0 {
      RunKeepsInv(steps[..|steps| - 1]);
      NextKeepsInv(Run(steps[..|steps| - 1]), steps[|steps| - 1]);
    }
  }

  /** No token is held by two entries. */
  lemma TokensHeldOnce(steps: seq<Step>, x: string, y: string)
    requires var c := Run(steps).clients;
             x in c && y in c && c[x].token.Some? && c[x].token == c[y].token
    ensures x == y
  {
    RunKeepsInv(steps);
  }

  /** A step of one session touches no other session: neither its entry nor its refreshers. */
  lemma OtherSessionsUntouched(s: State, step: Step, other: string)
    requires Inv(s) && other != step.session
    ensures other in Next(s, step).clients <==> other in s.clients
    ensures other in s.clients ==> Next(s, step).clients[other] == s.clients[other]
    ensures LiveOf(Next(s, step), other) == LiveOf(s, other)
  {
  }

  // ---- refreshers

  ghost function LiveOf(s: State, session: string): set<nat>
  {
    set t | t in s.live && s.live[t].session == session
  }

  function Held(s: State, session: string): nat
  {
    if session in s.clients && s.clients[session].token.Some? then 1 else 0
  }

  /** How many Disconnects of the run removed an entry that still held a token. */
  function Leaks(steps: seq<Step>, session: string): nat
  {
    if |steps| == 0 then 0
    else
      var before, last := steps[..|steps| - 1], steps[|steps| - 1];
      Leaks(before, session) + if last == Disconnect(session) then Held(Run(before), session) else 0
  }

  lemma RemoveOne(a: set<nat>, t: nat)
    ensures |a - {t}| == |a| - if t in a then 1 else 0
  {
    if t in a {
      assert a == (a - {t}) + {t};
    } else {
      assert a - {t} == a;
    }
  }

  /** The refreshers of a session that are left when the token its entry holds is cancelled. */
  ghost function Kept(s: State, session: string): set<nat>
    requires session in s.clients
  {
    set t | t in Cancel(s.live, s.clients[session].token) && s.live[t].session == session
  }

  lemma CancelHeld(s: State, session: string)
    requires Inv(s) && session in s.clients
    ensures Kept(s, session) <= LiveOf(s, session) && |Kept(s, session)| == |LiveOf(s, session)| - Held(s, session)
  {
    var token := s.clients[session].token;
    if token.Some? {
      assert Kept(s, session) == LiveOf(s, session) - {token.value};
      RemoveOne(LiveOf(s, session), token.value);
      assert token.value in LiveOf(s, session);
    } else {
      assert Kept(s, session) == LiveOf(s, session);
    }
  }

  lemma StopCount(s: State, session: string, client: nat)
    requires Inv(s) && session in s.clients
    ensures |LiveOf(Next(s, Stop(session, client)), session)| == |LiveOf(s, session)| - Held(s, session)
  {
    CancelHeld(s, session);
    assert LiveOf(Next(s, Stop(session, client)), session) == Kept(s, session);
  }

  lemma StartCount(s: State, session: string, client: nat, interval: int)
    requires Inv(s) && session in s.clients
    ensures |LiveOf(Next(s, Start(session, client, true, interval)), session)|
         == |LiveOf(s, session)| - Held(s, session) + 1
  {
    CancelHeld(s, session);
    assert LiveOf(Next(s, Start(session, client, true, interval)), session) == Kept(s, session) + {s.nextToken};
    assert s.nextToken !in Kept(s, session);
  }

  /** How one step changes the number of live refreshers of a session. */
  lemma LiveCountStep(s: State, step: Step, session: string)
    requires Inv(s)
    ensures |LiveOf(Next(s, step), session)| - Held(Next(s, step), session)
         == |LiveOf(s, session)| - Held(s, session) + if step == Disconnect(session) then Held(s, session) else 0
  {
    if step.session != session {
      OtherSessionsUntouched(s, step, session);
    } else {
      match step
      case Connect(_, _) =>
        assert LiveOf(Next(s, step), session) == LiveOf(s, session);
      case Disconnect(_) =>
        assert LiveOf(Next(s, step), session) == LiveOf(s, session);
      case Start(_, client, should, interval) =>
        if should && session in s.clients {
          StartCount(s, session, client, interval);
        }
      case Stop(_, client) =>
        if session in s.clients {
          StopCount(s, session, client);
        }
    }
  }

  /** Conservation, over every run: the live refreshers of a session are the one its entry holds, if
      any, and one for each Disconnect that removed an entry still holding one. */
  lemma {:induction false} RefreshersAreConserved(steps: seq<Step>, session: string)
    ensures |LiveOf(Run(steps), session)| == Held(Run(steps), session) + Leaks(steps, session)
  {
    if |steps| == 0 {
      assert LiveOf(INIT, session) == {};
    } else {
      var before, last := steps[..|steps| - 1], steps[|steps| - 1];
      RefreshersAreConserved(before, session);
      RunKeepsInv(before);
      LiveCountStep(Run(before), last, session);
    }
  }

  /** A Disconnect leaves the session without refreshers exactly when its entry held none and none
      leaked before. */
  lemma DisconnectCleansUp(steps: seq<Step>, session: string)
    ensures LiveOf(Run(steps + [Disconnect(session)]), session) == {} <==>
            Held(Run(steps), session) == 0 && Leaks(steps, session) == 0
  {
    var all := steps + [Disconnect(session)];
    assert all[..|all| - 1] == steps;
    RefreshersAreConserved(all, session);
  }

  /** Stopping before disconnecting never leaks. */
  lemma StopThenDisconnect(steps: seq<Step>, session: string, client: nat)
    ensures Leaks(steps + [Stop(session, client)] + [Disconnect(session)], session) == Leaks(steps, session)
  {
    var stopped := steps + [Stop(session, client)];
    assert stopped[..|stopped| - 1] == steps;
    assert (stopped + [Disconnect(session)])[..|stopped|] == stopped;
  }

  /** The shortest leak: a session that is reloaded while online has two live refreshers, one of
      which nothing can cancel any more. */
  lemma ReloadWhileOnlineLeaks(session: string, interval: int)
    ensures var reload := [Connect(session, true), Start(session, 0, true, interval), Disconnect(session),
                           Connect(session, true), Start(session, 1, true, interval)];
            && LiveOf(Run(reload), session) == {0, 1}
            && session in Run(reload).clients && Run(reload).clients[session].token == Some(1)
  {
    var r := [Connect(session, true), Start(session, 0, true, interval), Disconnect(session),
              Connect(session, true), Start(session, 1, true, interval)];
    assert r[..4][..3] == r[..3] && r[..3][..2] == r[..2] && r[..2][..1] == r[..1] && r[..1][..0] == [];
    assert Run(r[..1]) == Next(INIT, r[0]);
    assert Run(r[..2]) == Next(Run(r[..1]), r[1]);
    assert Run(r[..3]) == Next(Run(r[..2]), r[2]);
    assert Run(r[..4]) == Next(Run(r[..3]), r[3]);
    assert Run(r) == Next(Run(r[..4]), r[4]);
  }

  /** A token that is no longer live never becomes live again. */
  lemma {:induction false} CancelledStaysCancelled(steps: seq<Step>, more: seq<Step>, token: nat)
    requires token < Run(steps).nextToken && token !in Run(steps).live
    ensures token < Run(steps + more).nextToken && token !in Run(steps + more).live
  {
    if |more| == 0 {
      assert steps + more == steps;
    } else {
      var init, last := more[..|more| - 1], more[|more| - 1];
      CancelledStaysCancelled(steps, init, token);
      assert steps + more == (steps + init) + [last];
      RunAppend(steps + init, last);
    }
  }

  /** A live refresher that no entry holds. */
  ghost predicate Leaked(s: State, token: nat)
  {
    token in s.live && forall x :: x in s.clients ==> s.clients[x].token != Some(token)
  }

  lemma LeakedStep(s: State, step: Step, token: nat)
    requires Inv(s) && Leaked(s, token)
    ensures Leaked(Next(s, step), token)
  {
  }

  /** A refresher whose entry was removed with its token is live for ever. */
  lemma {:induction false} LeakedStaysLive(steps: seq<Step>, more: seq<Step>, token: nat)
    requires Leaked(Run(steps), token)
    ensures Leaked(Run(steps + more), token)
  {
    if |more| == 0 {
      assert steps + more == steps;
    } else {
      var init, last := more[..|more| - 1], more[|more| - 1];
      LeakedStaysLive(steps, init, token);
      RunKeepsInv(steps + init);
      assert steps + more == (steps + init) + [last];
      RunAppend(steps + init, last);
      LeakedStep(Run(steps + init), last, token);
    }
  }

  lemma StartedWith(s: State, session: string, client: nat, should: bool, interval: int)
    requires session in s.clients
    ensures var s' := Next(s, Start(session, client, should, interval));
            && (s'.nextToken > s.nextToken <==> should)
            && (should ==> s.nextToken in s'.live && s'.live[s.nextToken].interval == interval)
  {
  }

  /** Every live refresher was started: by a Start of its session that said it should run, for its
      client and with its interval. */
  lemma {:induction false} LiveWasStarted(steps: seq<Step>, token: nat) returns (k: nat)
    requires token in Run(steps).live
    ensures k < |steps|
    ensures var r := Run(steps).live[token]; steps[k] == Start(r.session, r.client, true, r.interval)
  {
    var before := steps[..|steps| - 1];
    RunKeepsInv(before);
    if token in Run(before).live {
      k := LiveWasStarted(before, token);
    } else {
      k := |steps| - 1;
    }
  }

  /** A Connect fails exactly if the session is not registered and no client can be built, and then
      changes nothing; otherwise the client it returns is the registered one, and a new one has no
      refresher. */
  lemma ConnectExactly(s: State, session: string, succeeds: bool)
    ensures var s', client := Next(s, Connect(session, succeeds)), Connected(s, session, succeeds);
            && (client.None? <==> session !in s.clients && !succeeds)
            && (client.None? ==> s' == s)
            && (client.Some? ==> session in s'.clients && s'.clients[session].client == client.value)
            && (session in s.clients ==> s' == s)
            && (client.Some? && session !in s.clients ==> s'.clients[session].token == None && s'.live == s.live)
  {
  }

  // ---- whom a refresher serves

  /** What last happened to the refresher of a registered client, and whose event it was. */
  datatype Event = NoEvent | Started(client: nat) | Stopped(client: nat)

  function NextEvent(s: State, event: Event, step: Step, session: string): Event
  {
    if step.session != session then event
    else
      match step
      case Connect(_, _) => if session in s.clients then event else NoEvent
      case Disconnect(_) => NoEvent
      case Start(_, client, should, _) => if should && session in s.clients then Started(client) else event
      case Stop(_, client) => if session in s.clients then Stopped(client) else event
  }

  function LastEvent(steps: seq<Step>, session: string): Event
  {
    if |steps| == 0 then NoEvent
    else
      var before := steps[..|steps| - 1];
      NextEvent(Run(before), LastEvent(before, session), steps[|steps| - 1], session)
  }

  /** A registered client has a refresher exactly if the event is a start, and the refresher serves
      the client of the event. */
  ghost predicate DecidedBy(s: State, session: string, event: Event)
  {
    session in s.clients ==>
      var token := s.clients[session].token;
      && (token.Some? <==> event.Started?)
      && (token.Some? ==> token.value in s.live && s.live[token.value].client == event.client)
  }

  lemma EventStep(s: State, event: Event, step: Step, session: string)
    requires Inv(s) && DecidedBy(s, session, event)
    ensures DecidedBy(Next(s, step), session, NextEvent(s, event, step, session))
  {
    if step.session != session {
      OtherSessionsUntouched(s, step, session);
    }
  }

  /** In every run, the last event decides whether there is a refresher, and whom it serves. */
  lemma {:induction false} LastEventDecides(steps: seq<Step>, session: string)
    ensures DecidedBy(Run(steps), session, LastEvent(steps, session))
  {
    if |steps| > 0 {
      var before := steps[..|steps| - 1];
      LastEventDecides(before, session);
      RunKeepsInv(before);
      EventStep(Run(before), LastEvent(before, session), steps[|steps| - 1], session);
    }
  }

  /** The refresher that the entry holds serves the client of the entry. */
  predicate ServesRegistered(s: State, session: string)
    requires session in s.clients && s.clients[session].token.Some? && s.clients[session].token.value in s.live
  {
    s.live[s.clients[session].token.value].client == s.clients[session].client
  }

  /** In every run, a held refresher serves the registered client exactly when the event that started
      it came from that client; the source does not compare the two. */
  lemma HeldServesRegistered(steps: seq<Step>, session: string)
    requires Held(Run(steps), session) == 1
    ensures Run(steps).clients[session].token.value in Run(steps).live
    ensures ServesRegistered(Run(steps), session) <==>
            LastEvent(steps, session) == Started(Run(steps).clients[session].client)
  {
    LastEventDecides(steps, session);
  }

  /** The entry's refresher is gone although its own client did not stop it and the session is still
      registered. */
  ghost predicate LostToOther(before: seq<Step>, last: Step, session: string)
  {
    && Held(Run(before), session) == 1
    && session in Run(before + [last]).clients && Held(Run(before + [last]), session) == 0
    && last != Stop(session, Run(before).clients[session].client)
  }

  /** After any run, a registered client loses its refresher to another client's event exactly when
      the last event was a start and a stop of a different client follows. */
  lemma LostToOtherExactly(before: seq<Step>, last: Step, session: string)
    requires session in Run(before).clients
    ensures LostToOther(before, last, session) <==>
            && LastEvent(before, session).Started? && last.Stop? && last.session == session
            && last.client != Run(before).clients[session].client
  {
    LastEventDecides(before, session);
    RunAppend(before, last);
  }

  /** A late Connected event of a replaced client: the new entry's refresher serves the old client. */
  lemma LateEventServesOldClient(session: string, interval: int)
    ensures var late := [Connect(session, true), Disconnect(session), Connect(session, true),
                         Start(session, 0, true, interval)];
            && Held(Run(late), session) == 1 && Run(late).clients[session] == Entry(1, Some(0))
            && 0 in Run(late).live && Run(late).live[0].client == 0
  {
    var r := [Connect(session, true), Disconnect(session), Connect(session, true), Start(session, 0, true, interval)];
    assert r[..3][..2] == r[..2] && r[..2][..1] == r[..1] && r[..1][..0] == [];
    assert Run(r[..1]) == Next(INIT, r[0]);
    assert Run(r[..2]) == Next(Run(r[..1]), r[1]);
    assert Run(r[..3]) == Next(Run(r[..2]), r[2]);
    assert Run(r) == Next(Run(r[..3]), r[3]);
  }

  /** A late Disconnected event of a replaced client: the new client stays registered, with no
      refresher left. */
  lemma LateEventStopsNewClient(session: string, interval: int)
    ensures var online := [Connect(session, true), Disconnect(session), Connect(session, true),
                           Start(session, 1, true, interval)];
            var late := online + [Stop(session, 0)];
            && Run(online).clients == map[session := Entry(1, Some(0))]
            && Run(late).clients == map[session := Entry(1, None)] && Run(late).live == map[]
  {
    var r := [Connect(session, true), Disconnect(session), Connect(session, true), Start(session, 1, true, interval)];
    assert r[..3][..2] == r[..2] && r[..2][..1] == r[..1] && r[..1][..0] == [];
    assert Run(r[..1]) == Next(INIT, r[0]);
    assert Run(r[..2]) == Next(Run(r[..1]), r[1]);
    assert Run(r[..3]) == Next(Run(r[..2]), r[2]);
    assert Run(r) == Next(Run(r[..3]), r[3]);
    RunAppend(r, Stop(session, 0));
  }

  // ---- one client per session

  ghost predicate NoDisconnect(steps: seq<Step>, session: string)
  {
    forall k :: 0 <= k < |steps| ==> steps[k] != Disconnect(session)
  }

  /** A registered client stays registered until its session is disconnected. */
  lemma {:induction false} ClientStays(steps: seq<Step>, more: seq<Step>, session: string)
    requires session in Run(steps).clients && NoDisconnect(more, session)
    ensures session in Run(steps + more).clients
    ensures Run(steps + more).clients[session].client == Run(steps).clients[session].client
  {
    if |more| == 0 {
      assert steps + more == steps;
    } else {
      var init, last := more[..|more| - 1], more[|more| - 1];
      ClientStays(steps, init, session);
      assert steps + more == (steps + init) + [last];
      RunAppend(steps + init, last);
    }
  }

  /** A session that is not registered gets, if any, a client numbered from here on. */
  lemma {:induction false} ClientIsNew(steps: seq<Step>, more: seq<Step>, session: string)
    requires session !in Run(steps).clients
    ensures Run(steps).nextClient <= Run(steps + more).nextClient
    ensures session in Run(steps + more).clients ==> Run(steps).nextClient <= Run(steps + more).clients[session].client
  {
    if |more| == 0 {
      assert steps + more == steps;
    } else {
      var init, last := more[..|more| - 1], more[|more| - 1];
      ClientIsNew(steps, init, session);
      assert steps + more == (steps + init) + [last];
      RunAppend(steps + init, last);
    }
  }

  /** In every run, two successful Connects of a session return the same client exactly when no
      Disconnect of the session lies between them. */
  lemma OneClientBetweenDisconnects(before: seq<Step>, ok: bool, between: seq<Step>, ok': bool, session: string)
    requires Connected(Run(before), session, ok).Some?
    requires Connected(Run(before + [Connect(session, ok)] + between), session, ok').Some?
    ensures Connected(Run(before), session, ok)
            == Connected(Run(before + [Connect(session, ok)] + between), session, ok')
            <==> NoDisconnect(between, session)
  {
    var first := before + [Connect(session, ok)];
    RunAppend(before, Connect(session, ok));
    RunKeepsInv(before);
    if NoDisconnect(between, session) {
      ClientStays(first, between, session);
    } else {
      NewClientAfterDisconnect(first, between, session);
    }
  }

  lemma NewClientAfterDisconnect(steps: seq<Step>, between: seq<Step>, session: string)
    requires !NoDisconnect(between, session)
    ensures Run(steps).nextClient <= Run(steps + between).nextClient
    ensures session in Run(steps + between).clients ==>
              Run(steps).nextClient <= Run(steps + between).clients[session].client
  {
    var k :| 0 <= k < |between| && between[k] == Disconnect(session);
    assert between == between[..k] + [Disconnect(session)] + between[k + 1..];
    NewClientAfter(steps, between[..k], between[k + 1..], between, session);
  }

  lemma NewClientAfter(steps: seq<Step>, a: seq<Step>, b: seq<Step>, between: seq<Step>, session: string)
    requires between == a + [Disconnect(session)] + b
    ensures Run(steps).nextClient <= Run(steps + between).nextClient
    ensures session in Run(steps + between).clients ==>
              Run(steps).nextClient <= Run(steps + between).clients[session].client
  {
    var upTo := steps + a;
    ClientsOnlyGrow(steps, a);
    RunAppend(upTo, Disconnect(session));
    ClientIsNew(upTo + [Disconnect(session)], b, session);
    assert steps + between == (upTo + [Disconnect(session)]) + b;
  }

  lemma {:induction false} ClientsOnlyGrow(steps: seq<Step>, more: seq<Step>)
    ensures Run(steps).nextClient <= Run(steps + more).nextClient
  {
    if |more| == 0 {
      assert steps + more == steps;
    } else {
      var init, last := more[..|more| - 1], more[|more| - 1];
      ClientsOnlyGrow(steps, init);
      assert steps + more == (steps + init) + [last];
      RunAppend(steps + init, last);
    }
  }

  predicate NotRegistered(s: State, client: Option<nat>)
  {
    client.Some? ==> forall x :: x in s.clients ==> s.clients[x].client != client.value
  }

  /** A reload whose sections are interleaved with any other steps returns, if any, a client that was
      not registered when its Disconnect ran. */
  lemma ReloadReturnsNewClient(before: seq<Step>, between: seq<Step>, ok: bool, session: string)
    ensures NotRegistered(Run(before), Connected(Run(before + [Disconnect(session)] + between), session, ok))
  {
    RunKeepsInv(before);
    RunAppend(before, Disconnect(session));
    ClientIsNew(before + [Disconnect(session)], between, session);
  }
}
