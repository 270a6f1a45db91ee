/** The client manager: an object whose methods are the sections of the source under its mutex. Its
    methods are proved against the state machine of Presence and the loads of Overrides. */
module Sessions {
  import opened Text
  import opened PhoneNumbers
  import opened Overrides
  import Presence

  /** A registered client and the cancel function of its refresher, if one was started. */
  class ClientEntry {
    const client: nat
    var presenceCancel: Option<nat>

    constructor (client: nat)
      ensures this.client == client && presenceCancel == None
    {
      this.client := client;
      presenceCancel := None;
    }
  }

  /** What a start read before taking the lock: the loads of its session so far and the settings of
      the manager. */
  datatype Settings = Settings(history: seq<Config>, online: Online)

  /** Settings of a session that were in effect at some time up to now. */
  ghost predicate WereRead(history: map<string, seq<Config>>, session: string, read: Settings)
  {
    read.history <= LoadsOf(history, session) && (read.online.enabled ==> read.online.every > 0)
  }

  ghost function LoadsOf(history: map<string, seq<Config>>, session: string): seq<Config>
  {
    if session in history then history[session] else []
  }

  ghost function LoadedSoFar(history: map<string, seq<Config>>, session: string, loads: seq<Config>)
    : map<string, seq<Config>>
  {
    if loads == [] then history else history[session := LoadsOf(history, session) + loads]
  }

  lemma AllLoaded(history: map<string, seq<Config>>, session: string, loads: seq<Config>)
    ensures LoadsOf(LoadedSoFar(history, session, loads), session) == LoadsOf(history, session) + loads
  {
  }

  lemma OneMoreLoaded(history: map<string, seq<Config>>, session: string, loads: seq<Config>, cfg: Config)
    ensures var h := LoadedSoFar(history, session, loads);
            LoadedSoFar(history, session, loads + [cfg]) == h[session := LoadsOf(h, session) + [cfg]]
  {
    var before, h := LoadsOf(history, session), LoadedSoFar(history, session, loads);
    assert before + (loads + [cfg]) == before + loads + [cfg];
    assert LoadsOf(h, session) == before + loads;
    assert h[session := before + loads + [cfg]] == history[session := before + loads + [cfg]];
  }

  /** The refresher was switched on, and its interval chosen, by the settings its start read. */
  ghost predicate ChosenBy(env: Env, refresher: Presence.Refresher, read: Settings)
  {
    var ov := AfterLoads(env, read.history);
    ShouldRun(read.online, ov) && refresher.interval == Interval(read.online, ov)
  }

  /** So was every live refresher. */
  ghost predicate Explained(env: Env, live: map<nat, Presence.Refresher>, readBy: map<nat, Settings>,
                            history: map<string, seq<Config>>)
  {
    forall t :: t in live ==>
      t in readBy && WereRead(history, live[t].session, readBy[t]) && ChosenBy(env, live[t], readBy[t])
  }

  lemma LoadKeepsExplained(env: Env, live: map<nat, Presence.Refresher>, readBy: map<nat, Settings>,
                           history: map<string, seq<Config>>, session: string, cfg: Config)
    requires Explained(env, live, readBy, history)
    ensures Explained(env, live, readBy, history[session := LoadsOf(history, session) + [cfg]])
  {
    var history' := history[session := LoadsOf(history, session) + [cfg]];
    assert forall x :: LoadsOf(history, x) <= LoadsOf(history', x);
  }

  lemma StartKeepsExplained(env: Env, live: map<nat, Presence.Refresher>, readBy: map<nat, Settings>,
                            history: map<string, seq<Config>>, held: Option<nat>, token: nat,
                            refresher: Presence.Refresher, read: Settings)
    requires Explained(env, live, readBy, history)
    requires WereRead(history, refresher.session, read) && ChosenBy(env, refresher, read)
    ensures Explained(env, Presence.Cancel(live, held)[token := refresher], readBy[token := read], history)
  {
  }

  function RecordOf(overrides: map<string, Overrides>, session: string): Overrides
  {
    if session in overrides then overrides[session] else NO_OVERRIDES
  }

  /** Every record is what the loads of its session make of it. */
  ghost predicate Follow(env: Env, overrides: map<string, Overrides>, history: map<string, seq<Config>>)
  {
    forall x :: RecordOf(overrides, x) == AfterLoads(env, LoadsOf(history, x))
  }

  lemma LoadKeepsFollowing(env: Env, overrides: map<string, Overrides>, history: map<string, seq<Config>>,
                           session: string, cfg: Config)
    requires Follow(env, overrides, history)
    ensures Follow(env, overrides[session := Loaded(RecordOf(overrides, session), env, cfg)],
                   history[session := LoadsOf(history, session) + [cfg]])
  {
    var overrides' := overrides[session := Loaded(RecordOf(overrides, session), env, cfg)];
    var history' := history[session := LoadsOf(history, session) + [cfg]];
    OneMoreLoad(env, LoadsOf(history, session), cfg);
    forall x ensures RecordOf(overrides', x) == AfterLoads(env, LoadsOf(history', x)) {
      assert RecordOf(overrides, x) == AfterLoads(env, LoadsOf(history, x));
    }
  }

  /** The lifecycle events of a client that the manager reacts to. */
  datatype Lifecycle = OnConnected | OnDisconnected | OnLoggedOut | OnStreamReplaced

  /** A section under the manager's mutex. */
  datatype Section =
    | Connecting(session: string, succeeds: bool, fetched: Option<Config>)
    | Disconnecting(session: string)
    | Happening(session: string, client: nat, event: Lifecycle)

  class ClientManager {
    var clients: map<string, ClientEntry>
    var overrides: map<string, Overrides>
    var online: Online
    const defaults: Defaults
    const env: Env
    const redisURL: string
    var nextClient: nat
    var nextToken: nat
    // the running refresher goroutines
    ghost var live: map<nat, Presence.Refresher>
    // the configurations loaded so far, by session
    ghost var history: map<string, seq<Config>>
    // the settings that the starts read, by token
    ghost var readBy: map<nat, Settings>
    // the sections run so far
    ghost var steps: seq<Presence.Step>

    constructor (defaults: Defaults, env: Env, redisURL: string)
      ensures Valid() && View() == Presence.INIT && online == Online(false, 0) && history == map[] && steps == []
      ensures this.defaults == defaults && this.env == env && this.redisURL == redisURL
    {
      clients, overrides, online := map[], map[], Online(false, 0);
      this.defaults, this.env, this.redisURL := defaults, env, redisURL;
      nextClient, nextToken, live, history, readBy, steps := 0, 0, map[], map[], map[], [];
    }

    /** No entry is registered for two sessions. */
    ghost predicate Distinct()
      reads this`clients
    {
      forall x, y :: x in clients && y in clients && clients[x] == clients[y] ==> x == y
    }

    /** The override records are what the loads so far make them. */
    ghost predicate FollowsLoads()
      reads this`overrides, this`history
    {
      Follow(env, overrides, history)
    }

    /** The object is in the state that its run of sections leads to. */
    ghost predicate Valid()
      reads this, clients.Values
    {
      Consistent() && View() == Presence.Run(steps)
    }

    ghost predicate Consistent()
      reads this`clients, this`overrides, this`history, this`online, this`live, this`readBy
    {
      Distinct() && FollowsLoads() && (online.enabled ==> online.every > 0) && IntervalsKnown()
    }

    ghost predicate IntervalsKnown()
      reads this`live, this`readBy, this`history
    {
      Explained(env, live, readBy, history)
    }

    /** Records that a section ran. */
    ghost method Did(step: Presence.Step)
      requires Consistent() && View() == Presence.Next(Presence.Run(steps), step)
      modifies this`steps
      ensures Valid() && steps == old(steps) + [step] && View() == old(View())
    {
      Presence.RunAppend(steps, step);
      steps := steps + [step];
    }

    ghost function HistoryOf(session: string): seq<Config>
      reads this`history
    {
      LoadsOf(history, session)
    }

    ghost function View(): Presence.State
      reads this`clients, this`live, this`nextToken, this`nextClient, clients.Values
    {
      Presence.State(map x | x in clients :: Presence.Entry(clients[x].client, clients[x].presenceCancel),
                     live, nextToken, nextClient)
    }

    function OverridesOf(session: string): Overrides
      reads this`overrides
    {
      RecordOf(overrides, session)
    }

    method EnableAlwaysOnline(interval: int)
      requires Valid()
      modifies this`online
      ensures Valid()
      ensures online == Online(true, if interval > 0 then interval else 60 * SECOND)
    {
      var every := interval;
      if every <= 0 {
        every := 60 * SECOND;
      }
      online := Online(true, every);
    }

    /** There is a configuration store and a phone to look up. */
    predicate CanLoad(session: string) { Trim(redisURL) != "" && Digits(session) != "" }

    /** A load takes effect if, besides, there is a stored configuration. */
    predicate Loads(session: string, fetched: Option<Config>) { CanLoad(session) && fetched.Some? }

    /** What keeps a load from taking effect: a blank address of the store, a session name without a
        digit, nothing stored. */
    lemma LoadsExactly(session: string, fetched: Option<Config>)
      ensures !Loads(session, fetched) <==>
              AllSpace(redisURL) || (forall k :: 0 <= k < |session| ==> !('0' <= session[k] <= '9')) || fetched == None
    {
      TrimsToNothing(redisURL);
      NoDigitsExactly(session);
    }

    /** `fetched` is the stored configuration, None if it cannot be read. */
    method LoadSessionOverrides(session: string, fetched: Option<Config>)
      requires FollowsLoads()
      modifies this`overrides, this`history
      ensures FollowsLoads() && (old(IntervalsKnown()) ==> IntervalsKnown())
      ensures history == if Loads(session, fetched)
                         then old(history)[session := old(HistoryOf(session)) + [fetched.value]] else old(history)
    {
      if Trim(redisURL) == "" {
        return;
      }
      var phone := DigitsOnly(session);
      if phone == "" {
        return;
      }
      if fetched.None? {
        return;
      }
      var ov := LoadInto(OverridesOf(session), env, fetched.value);
      LoadKeepsFollowing(env, overrides, history, session, fetched.value);
      if IntervalsKnown() {
        LoadKeepsExplained(env, live, readBy, history, session, fetched.value);
      }
      overrides := overrides[session := ov];
      history := history[session := HistoryOf(session) + [fetched.value]];
    }

    /** Loads of one session, one after the other. */
    method LoadAll(session: string, fetched: seq<Config>)
      requires Valid()
      modifies this`overrides, this`history
      ensures Valid()
      ensures HistoryOf(session) == old(HistoryOf(session)) + if CanLoad(session) then fetched else []
      ensures history == LoadedSoFar(old(history), session, if CanLoad(session) then fetched else [])
    {
      ghost var h, can := history, CanLoad(session);
      for i := 0 to |fetched|
        invariant FollowsLoads() && IntervalsKnown()
        invariant history == LoadedSoFar(h, session, if can then fetched[..i] else [])
      {
        OneMoreLoaded(h, session, fetched[..i], fetched[i]);
        assert fetched[..i + 1] == fetched[..i] + [fetched[i]];
        LoadSessionOverrides(session, Some(fetched[i]));
      }
      assert fetched[..|fetched|] == fetched;
      AllLoaded(h, session, if CanLoad(session) then fetched else []);
    }

    /** The end of the section that connects: a new client is registered. */
    method Register(session: string) returns (client: nat)
      requires Distinct() && session !in clients
      modifies this`clients, this`nextClient
      ensures Distinct() && client == old(nextClient) && fresh(clients.Values - old(clients.Values))
      ensures View() == Presence.Next(old(View()), Presence.Connect(session, true))
      ensures session in clients && clients == old(clients)[session := clients[session]]
    {
      client := nextClient;
      nextClient := nextClient + 1;
      var entry := new ClientEntry(client);
      clients := clients[session := entry];
      assert View().clients == old(View()).clients[session := Presence.Entry(client, None)];
    }

    /** A client that could be built: its overrides are loaded, then it is registered. */
    method NewClient(session: string, fetched: Option<Config>) returns (client: nat)
      requires Consistent() && session !in clients
      modifies this`clients, this`overrides, this`history, this`nextClient
      ensures Consistent() && client == old(nextClient) && fresh(clients.Values - old(clients.Values))
      ensures View() == Presence.Next(old(View()), Presence.Connect(session, true))
      ensures history == if Loads(session, fetched)
                         then old(history)[session := old(HistoryOf(session)) + [fetched.value]] else old(history)
      ensures session in clients && clients == old(clients)[session := clients[session]]
    {
      LoadSessionOverrides(session, fetched);
      client := Register(session);
    }

    /** `succeeds` says whether the directory, the store, the device and, for an unpaired session, the
        QR channel could be set up. */
    method Connect(session: string, succeeds: bool, fetched: Option<Config>) returns (client: Option<nat>)
      requires Valid()
      modifies this`clients, this`overrides, this`history, this`nextClient, this`steps
      ensures Valid()
      ensures View() == Presence.Next(old(View()), Presence.Connect(session, succeeds))
      ensures steps == old(steps) + [Presence.Connect(session, succeeds)]
      ensures client == Presence.Connected(old(View()), session, succeeds)
      ensures history == if session !in old(clients) && succeeds && Loads(session, fetched)
                         then old(history)[session := old(HistoryOf(session)) + [fetched.value]] else old(history)
      ensures forall x :: x in old(clients) ==> x in clients && clients[x] == old(clients)[x]
      ensures fresh(clients.Values - old(clients.Values))
    {
      if session in clients {
        client := Some(clients[session].client);
      } else if !succeeds {
        client := None;
      } else {
        var cli := NewClient(session, fetched);
        client := Some(cli);
      }
      Did(Presence.Connect(session, succeeds));
    }

    method Disconnect(session: string)
      requires Valid()
      modifies this`clients, this`steps
      ensures Valid()
      ensures View() == Presence.Next(old(View()), Presence.Disconnect(session))
      ensures steps == old(steps) + [Presence.Disconnect(session)]
      ensures clients == old(clients) - {session} && clients.Values <= old(clients.Values)
    {
      if session in clients {
        clients := clients - {session};
      }
      Did(Presence.Disconnect(session));
    }

    /** Whether a refresher should run and how often: read before the lock is taken. */
    method OnlineSettings(session: string) returns (should: bool, interval: int)
      ensures should == ShouldRun(online, OverridesOf(session)) && interval == Interval(online, OverridesOf(session))
    {
      should, interval := online.enabled, online.every;
      if session in overrides {
        var ov := overrides[session];
        if ov.alwaysOnline.Some? {
          should := ov.alwaysOnline.value;
        }
        if ov.alwaysOnlineEvery.Some? && ov.alwaysOnlineEvery.value > 0 {
          interval := ov.alwaysOnlineEvery.value;
        }
      }
    }

    /** The previous refresher of the entry is cancelled, a new one started. */
    method ReplaceRefresher(session: string, client: nat, interval: int, ghost read: Settings)
      requires Distinct() && IntervalsKnown() && session in clients
      requires WereRead(history, session, read) && ChosenBy(env, Presence.Refresher(session, client, interval), read)
      modifies this`nextToken, this`live, this`readBy, clients.Values
      ensures IntervalsKnown()
      ensures View() == Presence.Next(old(View()), Presence.Start(session, client, true, interval))
    {
      var ent := clients[session];
      var token := nextToken;
      ghost var refresher := Presence.Refresher(session, client, interval);
      StartKeepsExplained(env, live, readBy, history, ent.presenceCancel, token, refresher, read);
      live := Presence.Cancel(live, ent.presenceCancel)[token := refresher];
      readBy := readBy[token := read];
      nextToken := nextToken + 1;
      ent.presenceCancel := Some(token);
      assert View().clients == old(View()).clients[session := Presence.Entry(ent.client, Some(token))];
    }

    /** The section under the lock. */
    method StartRefresher(session: string, client: nat, should: bool, interval: int, ghost read: Settings)
      requires Valid() && WereRead(history, session, read)
      requires should == ShouldRun(read.online, AfterLoads(env, read.history))
      requires interval == Interval(read.online, AfterLoads(env, read.history))
      modifies this`nextToken, this`live, this`readBy, this`steps, clients.Values
      ensures Valid() && clients == old(clients)
      ensures View() == Presence.Next(old(View()), Presence.Start(session, client, should, interval))
      ensures steps == old(steps) + [Presence.Start(session, client, should, interval)]
    {
      if should && session in clients {
        ReplaceRefresher(session, client, interval, read);
      }
      Did(Presence.Start(session, client, should, interval));
    }

    /** The start that a connected client causes, with the settings in effect. */
    ghost function StartStep(session: string, client: nat): Presence.Step
      reads this`overrides, this`online
    {
      Presence.Start(session, client, ShouldRun(online, OverridesOf(session)), Interval(online, OverridesOf(session)))
    }

    /** The refresher that a connected client starts is given an interval it cannot tick with exactly
        when the loads so far switched it on without one. */
    method MaybeStartAlwaysOnline(session: string, client: nat)
      requires Valid()
      modifies this`nextToken, this`live, this`readBy, this`steps, clients.Values
      ensures Valid() && clients == old(clients)
      ensures View() == Presence.Next(old(View()), StartStep(session, client))
      ensures steps == old(steps) + [StartStep(session, client)]
      ensures session in clients ==>
                ((nextToken > old(nextToken) && View().live[old(nextToken)].interval <= 0)
                 <==> StartsWithoutInterval(env, HistoryOf(session), online))
    {
      var should, interval := OnlineSettings(session);
      if session in clients {
        Presence.StartedWith(View(), session, client, should, interval);
      }
      StartRefresher(session, client, should, interval, Settings(HistoryOf(session), online));
    }

    /** The source does not know whose event stops the refresher. */
    method StopAlwaysOnline(session: string, ghost client: nat)
      requires Valid()
      modifies this`live, this`steps, clients.Values
      ensures Valid() && clients == old(clients)
      ensures View() == Presence.Next(old(View()), Presence.Stop(session, client))
      ensures steps == old(steps) + [Presence.Stop(session, client)]
    {
      if session in clients {
        var ent := clients[session];
        if ent.presenceCancel.Some? {
          live := live - {ent.presenceCancel.value};
          ent.presenceCancel := None;
        }
        assert View().clients == old(View()).clients[session := Presence.Entry(ent.client, None)];
      }
      Did(Presence.Stop(session, client));
    }

    /** The lifecycle arms of the event handler that was registered for `client`. */
    method HandleLifecycle(session: string, client: nat, event: Lifecycle)
      requires Valid()
      modifies this`nextToken, this`live, this`readBy, this`steps, clients.Values
      ensures Valid() && clients == old(clients)
      ensures var step := if event.OnConnected? then StartStep(session, client) else Presence.Stop(session, client);
              View() == Presence.Next(old(View()), step) && steps == old(steps) + [step]
    {
      match event
      case OnConnected => MaybeStartAlwaysOnline(session, client);
      case OnDisconnected => StopAlwaysOnline(session, client);
      case OnLoggedOut => StopAlwaysOnline(session, client);
      case OnStreamReplaced => StopAlwaysOnline(session, client);
    }

    /** One section that some other caller runs. */
    method Perform(other: Section) returns (ghost step: Presence.Step)
      requires Valid()
      modifies this`clients, this`overrides, this`history, this`nextClient, this`steps
      modifies this`nextToken, this`live, this`readBy, clients.Values
      ensures Valid() && fresh(clients.Values - old(clients.Values))
      ensures steps == old(steps) + [step]
    {
      match other
      case Connecting(session, succeeds, fetched) =>
        step := Presence.Connect(session, succeeds);
        var client := Connect(session, succeeds, fetched);
      case Disconnecting(session) =>
        step := Presence.Disconnect(session);
        Disconnect(session);
      case Happening(session, client, event) =>
        step := if event.OnConnected? then StartStep(session, client) else Presence.Stop(session, client);
        HandleLifecycle(session, client, event);
    }

    method PerformAll(others: seq<Section>) returns (ghost ran: seq<Presence.Step>)
      requires Valid()
      modifies this`clients, this`overrides, this`history, this`nextClient, this`steps
      modifies this`nextToken, this`live, this`readBy, clients.Values
      ensures Valid() && fresh(clients.Values - old(clients.Values))
      ensures |ran| == |others| && steps == old(steps) + ran
      ensures others == [] ==> history == old(history)
    {
      ran := [];
      for i := 0 to |others|
        invariant Valid() && fresh(clients.Values - old(clients.Values))
        invariant |ran| == i && steps == old(steps) + ran
        invariant i == 0 ==> history == old(history)
      {
        ghost var step := Perform(others[i]);
        assert old(steps) + ran + [step] == old(steps) + (ran + [step]);
        ran := ran + [step];
      }
    }

    /** The three sections of a reload. Other callers run the sections `waiting` after the check and
        `between` before the new client is registered. */
    method Reload(session: string, succeeds: bool, fetched: Option<Config>,
                  waiting: seq<Section>, between: seq<Section>)
      returns (client: Option<nat>, found: bool, ghost ranFirst: seq<Presence.Step>, ghost ranNext: seq<Presence.Step>)
      requires Valid()
      modifies this`clients, this`overrides, this`history, this`nextClient, this`steps
      modifies this`nextToken, this`live, this`readBy, clients.Values
      ensures Valid()
      ensures found <==> session in old(clients)
      ensures !found ==> client == None && View() == old(View()) && steps == old(steps) && history == old(history)
      ensures found ==> |ranFirst| == |waiting| && |ranNext| == |between|
      ensures found ==>
                var first := old(steps) + ranFirst;
                var next := first + [Presence.Disconnect(session)] + ranNext;
                && steps == next + [Presence.Connect(session, succeeds)]
                && client == Presence.Connected(Presence.Run(next), session, succeeds)
                && Presence.NotRegistered(Presence.Run(first), client)
      ensures found && waiting == between == [] ==>
                history == if succeeds && Loads(session, fetched)
                           then old(history)[session := old(HistoryOf(session)) + [fetched.value]]
                           else old(history)
    {
      ranFirst, ranNext := [], [];
      if session !in clients {
        return None, false, [], [];
      }
      found := true;
      ranFirst := PerformAll(waiting);
      Disconnect(session);
      ranNext := PerformAll(between);
      Presence.ReloadReturnsNewClient(old(steps) + ranFirst, ranNext, succeeds, session);
      client := Connect(session, succeeds, fetched);
    }

    /** What holds of every run holds of the object: its live refreshers are accounted for, a held one
        is live and its session's own, and no client is registered twice. */
    lemma RefreshersAreConserved(session: string)
      requires Valid()
      ensures |Presence.LiveOf(View(), session)| == Presence.Held(View(), session) + Presence.Leaks(steps, session)
      ensures Presence.Inv(View())
    {
      Presence.RefreshersAreConserved(steps, session);
      Presence.RunKeepsInv(steps);
    }

    /** In every valid state the interval of a live refresher, leaked or held, is positive exactly when
        the manager's was at its start, or a load that counted then gave a positive 64-bit duration. */
    lemma LiveIntervalPositive(token: nat)
      requires Valid() && token in live
      ensures token in readBy && WereRead(history, live[token].session, readBy[token])
      ensures var read := readBy[token]; var every := Latest(read.history, CarriedEvery);
              live[token].interval > 0 <==>
              read.online.every > 0 || (!env.alwaysOnline && every.Some? && every.value > 0)
    {
      IntervalPositive(env, readBy[token].history, readBy[token].online);
    }

    /** The interval of a live refresher, and that it runs at all, is what the loads it read say, and
        the manager's settings where they say nothing. */
    lemma LiveSettings(token: nat)
      requires Valid() && token in live
      ensures token in readBy && WereRead(history, live[token].session, readBy[token])
      ensures var read := readBy[token];
              var flag := Latest(read.history, (c: Config) => c.alwaysOnline);
              var every := Latest(read.history, CarriedEvery);
              && (if !env.alwaysOnline && flag.Some? then flag.value else read.online.enabled)
              && live[token].interval == if !env.alwaysOnline && every.Some? && every.value > 0 then every.value
                                         else read.online.every
    {
      SettingsFollowLoads(env, readBy[token].history, readBy[token].online);
    }

    /** So no refresher is ever live without an interval if the manager was enabled at every start, or
        the variable is set. */
    lemma EnabledManagerTicks(token: nat)
      requires Valid() && token in live && token in readBy && (readBy[token].online.enabled || env.alwaysOnline)
      ensures live[token].interval > 0
    {
      EnvironmentWins(env, readBy[token].history, defaults, readBy[token].online);
      LiveIntervalPositive(token);
    }

    // ---- settings in effect, in terms of the configurations loaded so far

    method GetRejectCalls(session: string) returns (b: bool)
      requires Valid()
      ensures b == if env.rejectCalls || |HistoryOf(session)| == 0 then defaults.rejectCalls
                   else Trim(HistoryOf(session)[|HistoryOf(session)| - 1].rejectCalls) != ""
      ensures b == Effective(AfterLoads(env, HistoryOf(session)).rejectCalls, defaults.rejectCalls)
    {
      LoadsFollowLatest(env, HistoryOf(session));
      if session in overrides && overrides[session].rejectCalls.Some? {
        return overrides[session].rejectCalls.value;
      }
      return defaults.rejectCalls;
    }

    method GetRejectMsg(session: string) returns (msg: string)
      requires Valid()
      ensures msg == if env.rejectMsg then defaults.rejectMsg
                     else Effective(Latest(HistoryOf(session), CarriedMsg), defaults.rejectMsg)
      ensures msg == Effective(AfterLoads(env, HistoryOf(session)).rejectMsg, defaults.rejectMsg)
    {
      LoadsFollowLatest(env, HistoryOf(session));
      if session in overrides && overrides[session].rejectMsg.Some? {
        return overrides[session].rejectMsg.value;
      }
      return defaults.rejectMsg;
    }

    method GetAutoMarkRead(session: string) returns (b: bool)
      requires Valid()
      ensures b == if env.markRead then defaults.autoMarkRead
                   else Effective(Latest(HistoryOf(session), (c: Config) => c.readOnReceipt), defaults.autoMarkRead)
    {
      LoadsFollowLatest(env, HistoryOf(session));
      if session in overrides && overrides[session].autoMarkRead.Some? {
        return overrides[session].autoMarkRead.value;
      }
      return defaults.autoMarkRead;
    }

    method GetIgnoreStatusBroadcast(session: string) returns (b: bool)
      requires Valid()
      ensures b == if env.ignoreStatus then defaults.ignoreStatusBroadcast
                   else Effective(Latest(HistoryOf(session), (c: Config) => c.ignoreStatuses),
                                  defaults.ignoreStatusBroadcast)
    {
      LoadsFollowLatest(env, HistoryOf(session));
      if session in overrides && overrides[session].ignoreStatusBroadcast.Some? {
        return overrides[session].ignoreStatusBroadcast.value;
      }
      return defaults.ignoreStatusBroadcast;
    }

    method GetIgnoreNewsletters(session: string) returns (b: bool)
      requires Valid()
      ensures b == if env.ignoreNews then defaults.ignoreNewsletters
                   else Effective(Latest(HistoryOf(session), (c: Config) => c.ignoreNewsletters),
                                  defaults.ignoreNewsletters)
    {
      LoadsFollowLatest(env, HistoryOf(session));
      if session in overrides && overrides[session].ignoreNewsletters.Some? {
        return overrides[session].ignoreNewsletters.value;
      }
      return defaults.ignoreNewsletters;
    }
  }
}
