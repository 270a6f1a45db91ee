/** Where `Send` sends to: the existence check, the resolver, and the local fallback. */
module Destination {
  import opened Text
  import opened PhoneNumbers
  import opened Jid
  import opened Resolver

  datatype Destination = To(jid: JID) | NotRegistered | Invalid

  /** Groups, broadcast lists and LIDs are never checked. */
  predicate CheckApplies(rawTo: string, checkEnabled: bool)
  {
    checkEnabled && !Contains(rawTo, "@g.us") && !Contains(rawTo, "@broadcast") && !Contains(rawTo, "@lid")
  }

  /** `toUserJID`: an address (the user server if it names none), or the digits of a number. */
  function ToUserJID(to: string): Option<JID>
  {
    var t := Trim(to);
    if t == "" then None
    else if '@' in t then
      var parsed := ParseJID(t);
      if parsed.Some? && parsed.value.server == "" then Some(JID(parsed.value.user, USER_SERVER)) else parsed
    else if Digits(t) == "" then None
    else Some(JID(Digits(t), USER_SERVER))
  }

  /** `toJID`: an address as it stands, or a number. */
  function ToJID(to: string): Option<JID>
  {
    var t := Trim(to);
    if t == "" then None else if '@' in t then ParseJID(t) else ToUserJID(t)
  }

  /** The local normalisation: an address is read as it stands, anything else as phone digits with
      the ninth digit toggled. */
  function Fallback(rawTo: string): Destination
  {
    if '@' in rawTo then
      var parsed := ParseJID(rawTo);
      if parsed.Some? then To(parsed.value) else Invalid
    else
      var digits := PhoneNumberToJIDDigits(rawTo);
      if digits == "" then Invalid else To(JID(digits, USER_SERVER))
  }

  /** The branch of `Send` that computes the fallback, with the trimming and digit filtering that
      its helpers repeat. */
  lemma FallbackFromHelpers(to: string)
    ensures var rawTo := Trim(to);
            var parsed := if '@' in rawTo then ToJID(rawTo) else ToUserJID(PhoneNumberToJIDDigits(rawTo));
            Fallback(rawTo) == if parsed.Some? then To(parsed.value) else Invalid
  {
    var rawTo := Trim(to);
    var left, right := TrimSplits(to);
    TrimOfTrimmed(rawTo);
    JIDDigitsAreDigits(rawTo);
    TrimOfTrimmed(PhoneNumberToJIDDigits(rawTo));
  }

  /** A plain number of digits becomes that user on the user server, however often it is trimmed. */
  lemma NumberToUser(d: string)
    requires AllDigits(d) && d != ""
    ensures ToUserJID(d) == ToJID(d) == Some(JID(d, USER_SERVER))
    ensures ToJID(Print(JID(d, USER_SERVER))) == Some(JID(d, USER_SERVER))
  {
    DigitsOfDigits(d);
    TrimOfTrimmed(d);
    PlainUserParses(d, USER_SERVER);
  }

  /** An address without a server means the user server to one helper and no server to the other. */
  lemma MissingServer(d: string)
    requires AllDigits(d) && d != ""
    ensures ToUserJID(d + "@") == Some(JID(d, USER_SERVER)) && ToJID(d + "@") == Some(JID(d, ""))
  {
    var s := d + "@";
    assert s[0] == d[0] && s[|d|] == '@';
    TrimOfTrimmed(s);
    ParseOfPrint(JID(d, ""));
    assert Print(JID(d, "")) == s;
  }

  lemma PlainUserParses(d: string, server: string)
    requires AllDigits(d) && d != "" && server != "" && Trimmed(server) && '@' !in server
    ensures ToJID(Print(JID(d, server))) == Some(JID(d, server))
  {
    var s := d + "@" + server;
    assert s[0] == d[0] && s[|s| - 1] == server[|server| - 1] && s[|d|] == '@';
    TrimOfTrimmed(s);
    ParseOfPrint(JID(d, server));
  }

  function AfterFind(rawTo: string, found: Option<JID>): Destination
  {
    if found.Some? then To(found.value) else Fallback(rawTo)
  }

  /** The destination, given the two clocks of the check and of the resolver. A check that found an
      account settles it; a check that could not be completed is as good as none. */
  ghost function Chosen(cache: Cache, key: string, rawTo: string, checkEnabled: bool, oracle: Oracle,
                        checkClock: Clock, resolveClock: Clock): Destination
  {
    if !CheckApplies(rawTo, checkEnabled) then AfterFind(rawTo, Find(cache, key, oracle, resolveClock))
    else
      var verdict := Check(cache, key, oracle, checkClock);
      if verdict == Missing then NotRegistered
      else if verdict.Exists? && verdict.jid != EMPTY then To(verdict.jid)
      else AfterFind(rawTo, Find(After(cache, key, oracle, checkClock), key, oracle, resolveClock))
  }

  /** The lookups that choosing a destination performs. */
  ghost function Lookups(cache: Cache, key: string, rawTo: string, checkEnabled: bool, oracle: Oracle,
                         checkClock: Clock, resolveClock: Clock): seq<Call>
  {
    if !CheckApplies(rawTo, checkEnabled) then [Resolve(rawTo, resolveClock)]
    else
      var verdict := Check(cache, key, oracle, checkClock);
      if verdict == Missing || (verdict.Exists? && verdict.jid != EMPTY) then [CheckExists(rawTo, checkClock)]
      else [CheckExists(rawTo, checkClock), Resolve(rawTo, resolveClock)]
  }

  function RunFrom(e164: string -> string, cache: Cache, calls: seq<Call>, oracle: Oracle): Cache
    decreases |calls|
  {
    if |calls| == 0 then cache
    else RunFrom(e164, After(cache, Key(e164, calls[0].phone), oracle, calls[0].clock), calls[1..], oracle)
  }

  lemma RunFromOneOrTwo(e164: string -> string, cache: Cache, first: Call, second: Call, oracle: Oracle)
    ensures var next := After(cache, Key(e164, first.phone), oracle, first.clock);
            && RunFrom(e164, cache, [first], oracle) == next
            && RunFrom(e164, cache, [first, second], oracle)
               == After(next, Key(e164, second.phone), oracle, second.clock)
  {
    var next := After(cache, Key(e164, first.phone), oracle, first.clock);
    assert [first][1..] == [] && [first, second][1..] == [second] && [second][1..] == [];
    assert RunFrom(e164, next, [second], oracle) == After(next, Key(e164, second.phone), oracle, second.clock);
  }

  method ChooseDestination(resolver: Resolver, to: string, checkEnabled: bool, oracle: Oracle,
                           checkClock: Clock, resolveClock: Clock) returns (destination: Destination)
    modifies resolver`pnCache
    ensures var rawTo := Trim(to);
            var key := Key(resolver.e164, rawTo);
            && destination == Chosen(old(resolver.pnCache), key, rawTo, checkEnabled, oracle, checkClock, resolveClock)
            && resolver.pnCache == RunFrom(resolver.e164, old(resolver.pnCache),
                 Lookups(old(resolver.pnCache), key, rawTo, checkEnabled, oracle, checkClock, resolveClock), oracle)
  {
    var rawTo := Trim(to);
    var jid := EMPTY;
    ghost var check, resolve := CheckExists(rawTo, checkClock), Resolve(rawTo, resolveClock);
    RunFromOneOrTwo(resolver.e164, resolver.pnCache, check, resolve, oracle);
    RunFromOneOrTwo(resolver.e164, resolver.pnCache, resolve, resolve, oracle);
    var shouldCheck := checkEnabled;
    if Contains(rawTo, "@g.us") || Contains(rawTo, "@broadcast") || Contains(rawTo, "@lid") {
      shouldCheck := false;
    }
    if shouldCheck {
      var verdict := resolver.CheckUserExists(rawTo, oracle, checkClock);
      if verdict.Unknown? {
      } else if verdict.Missing? {
        return NotRegistered;
      } else {
        jid := verdict.jid;
      }
    }
    if jid == EMPTY {
      var resolved, ok := resolver.ResolvePNtoJID(rawTo, oracle, resolveClock);
      if ok {
        jid := resolved;
      } else {
        var digits := PhoneNumberToJIDDigits(rawTo);
        var parsed := if '@' in rawTo then ToJID(rawTo) else ToUserJID(digits);
        FallbackFromHelpers(to);
        if parsed.None? {
          return Invalid;
        }
        jid := parsed.value;
      }
    }
    return To(jid);
  }

  lemma JIDDigitsAreDigits(value: string)
    ensures AllDigits(PhoneNumberToJIDDigits(value))
    ensures Digits(PhoneNumberToJIDDigits(value)) == PhoneNumberToJIDDigits(value)
  {
    var input := Trim(value);
    var i := IndexAny(input, "@:");
    NinthDigitKeepsDigits(Digits(if i >= 0 then input[..i] else input), true);
    DigitsOfDigits(PhoneNumberToJIDDigits(value));
  }

  // ---- promises

  lemma {:induction false} RunAppend(e164: string -> string, calls: seq<Call>, more: seq<Call>, oracle: Oracle)
    ensures Run(e164, calls + more, oracle) == RunFrom(e164, Run(e164, calls, oracle), more, oracle)
    decreases |more|
  {
    if |more| == 0 {
      assert calls + more == calls;
    } else {
      assert calls + more == (calls + [more[0]]) + more[1..];
      RunAppend(e164, calls + [more[0]], more[1..], oracle);
      assert (calls + [more[0]])[..|calls|] == calls;
    }
  }

  /** Sending only ever extends the run of lookups, so what holds of the cache after every run of
      lookups holds after every mixture of sends and lookups. */
  lemma SendsAreLookups(e164: string -> string, calls: seq<Call>, rawTo: string, checkEnabled: bool, oracle: Oracle,
                        checkClock: Clock, resolveClock: Clock)
    ensures var cache, key := Run(e164, calls, oracle), Key(e164, rawTo);
            var lookups := Lookups(cache, key, rawTo, checkEnabled, oracle, checkClock, resolveClock);
            RunFrom(e164, cache, lookups, oracle) == Run(e164, calls + lookups, oracle)
  {
    var cache, key := Run(e164, calls, oracle), Key(e164, rawTo);
    RunAppend(e164, calls, Lookups(cache, key, rawTo, checkEnabled, oracle, checkClock, resolveClock), oracle);
  }

  /** A send stops before sending, with a failed status, exactly when the check applies, nothing
      usable is cached, and every candidate was answered without an acceptable account. */
  lemma RejectionIsJustified(cache: Cache, key: string, rawTo: string, checkEnabled: bool, oracle: Oracle,
                             checkClock: Clock, resolveClock: Clock)
    ensures Chosen(cache, key, rawTo, checkEnabled, oracle, checkClock, resolveClock) == NotRegistered <==>
            && checkEnabled && !Contains(rawTo, "@g.us") && !Contains(rawTo, "@broadcast") && !Contains(rawTo, "@lid")
            && Lookup(cache, key, checkClock(0)).None?
            && AllAnswered(CandidatesBR(key), oracle, checkClock)
            && NoneAcceptable(CandidatesBR(key), oracle, checkClock, 0)
  {
    VerdictsAreJustified(cache, key, oracle, checkClock);
  }

  predicate UserOrNone(found: Option<JID>)
  {
    found.Some? ==> found.value.server == USER_SERVER && found.value.user != ""
  }

  /** What a lookup finds after any run is a user account. */
  lemma FoundIsUser(e164: string -> string, calls: seq<Call>, oracle: Oracle, call: Call)
    requires UsersWithoutAt(oracle)
    ensures UserOrNone(Find(Run(e164, calls, oracle), Key(e164, call.phone), oracle, call.clock))
  {
    var cache, key := Run(e164, calls, oracle), Key(e164, call.phone);
    if Lookup(cache, key, call.clock(0)).Some? {
      var i := EntriesComeFromCalls(e164, calls, oracle, key);
      var candidate := HitWasGiven(e164, calls[i], oracle);
      ParseOfPrint(Uncached(e164, calls[i], oracle).value.jid);
    } else if Uncached(e164, call, oracle).Some? {
      var candidate := HitWasGiven(e164, call, oracle);
    }
  }

  /** Sent to a user, refused, or without a usable digit. */
  ghost predicate ToUser(rawTo: string, chosen: Destination)
  {
    && (chosen.To? ==> chosen.jid.server == USER_SERVER && chosen.jid.user != "")
    && (chosen.Invalid? ==> PhoneNumberToJIDDigits(rawTo) == "")
  }

  lemma AfterFindToUser(rawTo: string, found: Option<JID>)
    requires '@' !in rawTo && UserOrNone(found)
    ensures ToUser(rawTo, AfterFind(rawTo, found))
  {
  }

  lemma ChosenToUser(cache: Cache, key: string, rawTo: string, checkEnabled: bool, oracle: Oracle,
                     checkClock: Clock, resolveClock: Clock)
    requires '@' !in rawTo && UserOrNone(Find(cache, key, oracle, checkClock))
    requires UserOrNone(Find(cache, key, oracle, resolveClock))
    requires UserOrNone(Find(After(cache, key, oracle, checkClock), key, oracle, resolveClock))
    ensures ToUser(rawTo, Chosen(cache, key, rawTo, checkEnabled, oracle, checkClock, resolveClock))
  {
    AfterFindToUser(rawTo, Find(cache, key, oracle, resolveClock));
    AfterFindToUser(rawTo, Find(After(cache, key, oracle, checkClock), key, oracle, resolveClock));
  }

  /** After any run, a recipient given as a phone number (no `@`) is sent to a user account with a
      nonempty user, refused as not registered, or, when it has no digit before its first `:`,
      invalid. */
  lemma PhonesGoToUsers(e164: string -> string, calls: seq<Call>, rawTo: string, checkEnabled: bool, oracle: Oracle,
                        checkClock: Clock, resolveClock: Clock)
    requires UsersWithoutAt(oracle) && '@' !in rawTo
    ensures var cache := Run(e164, calls, oracle);
            var chosen := Chosen(cache, Key(e164, rawTo), rawTo, checkEnabled, oracle, checkClock, resolveClock);
            ToUser(rawTo, chosen)
  {
    var cache, key := Run(e164, calls, oracle), Key(e164, rawTo);
    var first, second := CheckExists(rawTo, checkClock), Resolve(rawTo, resolveClock);
    FoundIsUser(e164, calls, oracle, first);
    FoundIsUser(e164, calls, oracle, second);
    FoundIsUser(e164, calls + [first], oracle, second);
    assert (calls + [first])[..|calls|] == calls;
    ChosenToUser(cache, key, rawTo, checkEnabled, oracle, checkClock, resolveClock);
  }

  /** With an oracle that does not change, the cache never decides a destination: after any run it is
      the one chosen with an empty cache. */
  lemma ConstantOracleHidesCacheFromSend(e164: string -> string, calls: seq<Call>, rawTo: string, checkEnabled: bool,
                                         oracle: Oracle, checkClock: Clock, resolveClock: Clock)
    requires Constant(oracle) && UsersWithoutAt(oracle)
    ensures var key := Key(e164, rawTo);
            Chosen(Run(e164, calls, oracle), key, rawTo, checkEnabled, oracle, checkClock, resolveClock)
            == Chosen(map[], key, rawTo, checkEnabled, oracle, checkClock, resolveClock)
  {
    var first, second := CheckExists(rawTo, checkClock), Resolve(rawTo, resolveClock);
    ConstantOracleHidesCache(e164, calls, oracle, first);
    ConstantOracleHidesCache(e164, calls, oracle, second);
    ConstantOracleHidesCache(e164, calls + [first], oracle, second);
    ConstantOracleHidesCache(e164, [first], oracle, second);
    assert (calls + [first])[..|calls|] == calls;
    assert [first][..0] == [];
    assert Run(e164, [], oracle) == map[];
  }

  /** A check that could not be completed does not block the send: the destination is the one chosen
      with the check switched off. */
  lemma FailedCheckIsNoCheck(cache: Cache, key: string, rawTo: string, oracle: Oracle, checkClock: Clock,
                             resolveClock: Clock)
    requires Check(cache, key, oracle, checkClock) == Unknown
    ensures Chosen(cache, key, rawTo, true, oracle, checkClock, resolveClock)
         == Chosen(cache, key, rawTo, false, oracle, checkClock, resolveClock)
  {
    VerdictsAreJustified(cache, key, oracle, checkClock);
    SearchFindsFirst(CandidatesBR(key), oracle, checkClock, 0);
  }

  /** With an oracle that does not change, the check only ever rejects: after any run, a message that
      is sent goes where it would go with the check switched off. */
  lemma CheckOnlyRejects(e164: string -> string, calls: seq<Call>, rawTo: string, oracle: Oracle,
                         checkClock: Clock, resolveClock: Clock)
    requires Constant(oracle) && UsersWithoutAt(oracle)
    ensures var cache, key := Run(e164, calls, oracle), Key(e164, rawTo);
            var checked := Chosen(cache, key, rawTo, true, oracle, checkClock, resolveClock);
            checked == NotRegistered || checked == Chosen(cache, key, rawTo, false, oracle, checkClock, resolveClock)
  {
    var cache, key := Run(e164, calls, oracle), Key(e164, rawTo);
    var first, second := CheckExists(rawTo, checkClock), Resolve(rawTo, resolveClock);
    FoundIsUser(e164, calls, oracle, first);
    ConstantOracleHidesCache(e164, calls, oracle, first);
    ConstantOracleHidesCache(e164, calls, oracle, second);
    ConstantSearch(CandidatesBR(key), oracle, checkClock, resolveClock, 0);
    if Check(cache, key, oracle, checkClock) == Unknown {
      FailedCheckIsNoCheck(cache, key, rawTo, oracle, checkClock, resolveClock);
    }
  }

  /** Groups, broadcast lists and LIDs are never refused: for them the check might as well be off. */
  lemma NeverRefused(cache: Cache, key: string, rawTo: string, checkEnabled: bool, oracle: Oracle,
                     checkClock: Clock, resolveClock: Clock)
    requires Contains(rawTo, "@g.us") || Contains(rawTo, "@broadcast") || Contains(rawTo, "@lid")
    ensures var chosen := Chosen(cache, key, rawTo, checkEnabled, oracle, checkClock, resolveClock);
            && chosen != NotRegistered
            && chosen == Chosen(cache, key, rawTo, false, oracle, checkClock, resolveClock)
  {
  }

  /** An account that is there is used: with nothing in the cache, if the number itself is answered
      with an account, the message goes to that account, checked or not. */
  lemma AccountIsUsed(e164: string -> string, cache: Cache, rawTo: string, checkEnabled: bool, oracle: Oracle,
                      checkClock: Clock, resolveClock: Clock)
    requires var number := if e164(rawTo) != "" then e164(rawTo) else rawTo;
             && number !in cache && Registered(oracle(number, checkClock(1)))
             && oracle(number, resolveClock(1)) == oracle(number, checkClock(1))
    ensures var number := if e164(rawTo) != "" then e164(rawTo) else rawTo;
            Chosen(cache, Key(e164, rawTo), rawTo, checkEnabled, oracle, checkClock, resolveClock)
            == To(oracle(number, checkClock(1)).jid)
  {
    NormalFormIsAskedFirst(e164, cache, rawTo, oracle, checkClock);
    NormalFormIsAskedFirst(e164, cache, rawTo, oracle, resolveClock);
  }

  /** A phone for which nothing is found goes to its digits, up to the first colon and with the ninth
      digit toggled, on the user server; without a digit there it is invalid. */
  lemma UnresolvedPhone(cache: Cache, key: string, user: string, suffix: string, oracle: Oracle,
                        checkClock: Clock, resolveClock: Clock)
    requires ':' !in user && '@' !in user && '@' !in suffix && (suffix == "" || suffix[0] == ':')
    requires Find(cache, key, oracle, resolveClock).None?
    ensures var digits := NinthDigit(Digits(user), true);
            Chosen(cache, key, user + suffix, false, oracle, checkClock, resolveClock)
            == if digits == "" then Invalid else To(JID(digits, "s.whatsapp.net"))
  {
    assert '@' !in user + suffix;
    JIDDigitsOfFormattedNumber(user, suffix);
  }

  /** A plain address for which nothing is found is kept as it is written. */
  lemma UnresolvedAddress(cache: Cache, key: string, user: string, server: string, oracle: Oracle,
                          checkClock: Clock, resolveClock: Clock)
    requires user != "" && Plain(JID(user, server)) && Find(cache, key, oracle, resolveClock).None?
    ensures Chosen(cache, key, user + "@" + server, false, oracle, checkClock, resolveClock) == To(JID(user, server))
  {
    var rawTo := user + "@" + server;
    assert rawTo[|user|] == '@';
    WrittenAddress(user, server);
  }
}
