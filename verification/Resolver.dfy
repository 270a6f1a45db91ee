/** Looking up phone numbers on WhatsApp, with a 24-hour cache. The server is an oracle that answers
    a candidate at a time; a call's clock gives the time at its cache check (0) and at each of its
    queries (1, 2, ...). */
module Resolver {
  import opened Text
  import opened PhoneNumbers
  import opened Jid

  datatype Answer = Unreachable | Empty | Info(isIn: bool, jid: JID)

  type Oracle = (string, nat) -> Answer

  type Clock = nat -> nat

  const DAY := 24 * 60 * 60

  datatype CacheItem = CacheItem(val: string, exp: nat)

  type Cache = map<string, CacheItem>

  /** An answer, and when it was given. */
  datatype Hit = Hit(jid: JID, at: nat)

  datatype Verdict = Exists(jid: JID) | Missing | Unknown

  predicate Acceptable(a: Answer) { a.Info? && a.isIn && a.jid.server == USER_SERVER && a.jid.user != "" }

  /** Neither a network error nor an empty response. */
  predicate Answered(a: Answer) { a.Info? }

  // ---- specification

  /** The uncached search: the first candidate from i on with an acceptable account. */
  function Search(candidates: seq<string>, oracle: Oracle, clock: Clock, i: nat): Option<Hit>
    decreases |candidates| - i
  {
    if i >= |candidates| then None
    else if Acceptable(oracle(candidates[i], clock(i + 1))) then
      Some(Hit(oracle(candidates[i], clock(i + 1)).jid, clock(i + 1)))
    else Search(candidates, oracle, clock, i + 1)
  }

  /** What `normalizeE164Local` returns, "" standing for a number the library cannot parse. */
  function Key(e164: string -> string, phone: string): string
  {
    if e164(phone) == "" then phone else e164(phone)
  }

  function Lookup(cache: Cache, key: string, now: nat): Option<JID>
  {
    if key in cache && now < cache[key].exp then ParseJID(cache[key].val) else None
  }

  function Find(cache: Cache, key: string, oracle: Oracle, clock: Clock): Option<JID>
  {
    var cached := Lookup(cache, key, clock(0));
    if cached.Some? then cached
    else
      var hit := Search(CandidatesBR(key), oracle, clock, 0);
      if hit.Some? then Some(hit.value.jid) else None
  }

  /** The cache after a lookup: a new entry if the search was needed and found something. */
  function After(cache: Cache, key: string, oracle: Oracle, clock: Clock): Cache
  {
    var hit := Search(CandidatesBR(key), oracle, clock, 0);
    if Lookup(cache, key, clock(0)).None? && hit.Some? then
      cache[key := CacheItem(Print(hit.value.jid), hit.value.at + DAY)]
    else cache
  }

  ghost predicate AllAnswered(candidates: seq<string>, oracle: Oracle, clock: Clock)
  {
    forall i :: 0 <= i < |candidates| ==> Answered(oracle(candidates[i], clock(i + 1)))
  }

  lemma OneMoreAnswer(candidates: seq<string>, oracle: Oracle, clock: Clock, i: nat)
    requires i < |candidates|
    ensures AllAnswered(candidates[..i + 1], oracle, clock) <==>
            AllAnswered(candidates[..i], oracle, clock) && Answered(oracle(candidates[i], clock(i + 1)))
  {
    assert candidates[..i + 1] == candidates[..i] + [candidates[i]];
  }

  /** What a lookup that has to search finds and leaves in the cache. */
  lemma SearchDecides(cache: Cache, key: string, oracle: Oracle, clock: Clock, hit: Option<Hit>)
    requires Lookup(cache, key, clock(0)).None? && hit == Search(CandidatesBR(key), oracle, clock, 0)
    ensures Find(cache, key, oracle, clock) == if hit.Some? then Some(hit.value.jid) else None
    ensures After(cache, key, oracle, clock)
         == if hit.Some? then cache[key := CacheItem(Print(hit.value.jid), hit.value.at + DAY)] else cache
  {
  }

  ghost function Check(cache: Cache, key: string, oracle: Oracle, clock: Clock): Verdict
  {
    var found := Find(cache, key, oracle, clock);
    if found.Some? then Exists(found.value)
    else if AllAnswered(CandidatesBR(key), oracle, clock) then Missing
    else Unknown
  }

  /** The k-th candidate is the first acceptable one from i on, and `hit` is its answer. */
  ghost predicate FirstAcceptable(candidates: seq<string>, oracle: Oracle, clock: Clock, i: nat, k: nat, hit: Hit)
  {
    && i <= k < |candidates| && hit.at == clock(k + 1)
    && Acceptable(oracle(candidates[k], hit.at)) && oracle(candidates[k], hit.at).jid == hit.jid
    && forall p :: i <= p < k ==> !Acceptable(oracle(candidates[p], clock(p + 1)))
  }

  ghost predicate NoneAcceptable(candidates: seq<string>, oracle: Oracle, clock: Clock, i: nat)
  {
    forall k :: i <= k < |candidates| ==> !Acceptable(oracle(candidates[k], clock(k + 1)))
  }

  /** The search returns the answer of the first acceptable candidate, if there is one. */
  lemma SearchFindsFirst(candidates: seq<string>, oracle: Oracle, clock: Clock, i: nat)
    ensures var hit := Search(candidates, oracle, clock, i);
            && (hit.None? <==> NoneAcceptable(candidates, oracle, clock, i))
            && (hit.Some? ==> exists k: nat :: FirstAcceptable(candidates, oracle, clock, i, k, hit.value))
    decreases |candidates| - i
  {
    if i < |candidates| {
      var hit := Search(candidates, oracle, clock, i);
      if Acceptable(oracle(candidates[i], clock(i + 1))) {
        assert FirstAcceptable(candidates, oracle, clock, i, i, hit.value);
      } else {
        SearchFindsFirst(candidates, oracle, clock, i + 1);
        if hit.Some? {
          var k: nat :| FirstAcceptable(candidates, oracle, clock, i + 1, k, hit.value);
          assert FirstAcceptable(candidates, oracle, clock, i, k, hit.value);
        }
      }
    }
  }

  // ---- the two lookups of the source

  class Resolver {
    var pnCache: Cache
    const e164: string -> string

    constructor (e164: string -> string)
      ensures this.e164 == e164 && pnCache == map[]
    {
      this.e164 := e164;
      pnCache := map[];
    }

    method ResolvePNtoJID(phone: string, oracle: Oracle, clock: Clock) returns (jid: JID, ok: bool)
      modifies this`pnCache
      ensures var found := Find(old(pnCache), Key(e164, phone), oracle, clock);
              ok == found.Some? && jid == if ok then found.value else EMPTY
      ensures pnCache == After(old(pnCache), Key(e164, phone), oracle, clock)
    {
      var number := e164(phone);
      if number == "" {
        number := phone;
      }
      if number in pnCache && clock(0) < pnCache[number].exp {
        var parsed := ParseJID(pnCache[number].val);
        if parsed.Some? {
          return parsed.value, true;
        }
      }
      var candidates := ComputeCandidatesBR(number);
      ghost var hit := Search(candidates, oracle, clock, 0);
      SearchDecides(pnCache, number, oracle, clock, hit);
      for i := 0 to |candidates|
        invariant pnCache == old(pnCache)
        invariant hit == Search(candidates, oracle, clock, i)
      {
        var answer := oracle(candidates[i], clock(i + 1));
        if answer.Unreachable? || answer.Empty? {
          continue;
        }
        if answer.isIn && answer.jid.server == USER_SERVER && answer.jid.user != "" {
          pnCache := pnCache[number := CacheItem(Print(answer.jid), clock(i + 1) + DAY)];
          return answer.jid, true;
        }
      }
      return EMPTY, false;
    }

    method CheckUserExists(phone: string, oracle: Oracle, clock: Clock) returns (verdict: Verdict)
      modifies this`pnCache
      ensures verdict == Check(old(pnCache), Key(e164, phone), oracle, clock)
      ensures pnCache == After(old(pnCache), Key(e164, phone), oracle, clock)
    {
      var number := e164(phone);
      var cacheKey := number;
      if number == "" {
        number := phone;
        cacheKey := phone;
      }
      if cacheKey in pnCache && clock(0) < pnCache[cacheKey].exp {
        var parsed := ParseJID(pnCache[cacheKey].val);
        if parsed.Some? {
          return Exists(parsed.value);
        }
      }
      var candidates := ComputeCandidatesBR(number);
      ghost var hit := Search(candidates, oracle, clock, 0);
      SearchDecides(pnCache, cacheKey, oracle, clock, hit);
      var failed := false; // lastErr != nil
      for i := 0 to |candidates|
        invariant pnCache == old(pnCache)
        invariant hit == Search(candidates, oracle, clock, i)
        invariant failed <==> !AllAnswered(candidates[..i], oracle, clock)
      {
        var answer := oracle(candidates[i], clock(i + 1));
        OneMoreAnswer(candidates, oracle, clock, i);
        if answer.Unreachable? {
          failed := true;
          continue;
        }
        if answer.Empty? {
          failed := true;
          continue;
        }
        if !answer.isIn {
          continue;
        }
        if answer.jid.server == USER_SERVER && answer.jid.user != "" {
          pnCache := pnCache[cacheKey := CacheItem(Print(answer.jid), clock(i + 1) + DAY)];
          return Exists(answer.jid);
        }
      }
      assert candidates[..|candidates|] == candidates;
      if failed {
        return Unknown;
      }
      return Missing;
    }
  }

  // ---- verdicts

  /** "Not registered" is justified: it is returned exactly when nothing usable is cached, every
      candidate got a nonempty answer, and none of the answers was an acceptable account. An error
      is returned when one candidate (not necessarily every one) could not be asked. */
  lemma VerdictsAreJustified(cache: Cache, key: string, oracle: Oracle, clock: Clock)
    ensures var candidates, verdict := CandidatesBR(key), Check(cache, key, oracle, clock);
            var nothing := Lookup(cache, key, clock(0)).None? && NoneAcceptable(candidates, oracle, clock, 0);
            && (verdict == Missing <==> nothing && AllAnswered(candidates, oracle, clock))
            && (verdict == Unknown <==> nothing && !AllAnswered(candidates, oracle, clock))
            && (verdict.Exists? ==> Find(cache, key, oracle, clock) == Some(verdict.jid))
  {
    SearchFindsFirst(CandidatesBR(key), oracle, clock, 0);
  }

  /** One failure is enough for an error: the first candidate cannot be asked, the second is
      answered as not registered. */
  lemma OneFailureIsAnError(key: string)
    requires key == "+5511987654321"
    ensures var oracle: Oracle := (candidate, at) => if candidate == key then Unreachable else Info(false, EMPTY);
            var clock: Clock := i => i;
            && Check(map[], key, oracle, clock) == Unknown
            && |CandidatesBR(key)| == 2 && Answered(oracle(CandidatesBR(key)[1], clock(2)))
  {
    var oracle: Oracle := (candidate, at) => if candidate == key then Unreachable else Info(false, EMPTY);
    var clock: Clock := i => i;
    var candidates := CandidatesBR(key);
    assert |key| == 14 && key[5] == '9' && "+55" <= key;
    assert !Answered(oracle(candidates[0], clock(1)));
    CandidatesShape(key);
    VerdictsAreJustified(map[], key, oracle, clock);
  }

  // ---- runs

  /** One call of either lookup; the two change the cache in the same way. */
  datatype Call = Resolve(phone: string, clock: Clock) | CheckExists(phone: string, clock: Clock)

  /** The cache after a run of calls, starting from an empty one. */
  function Run(e164: string -> string, calls: seq<Call>, oracle: Oracle): Cache
  {
    if |calls| == 0 then map[]
    else
      var last := calls[|calls| - 1];
      After(Run(e164, calls[..|calls| - 1], oracle), Key(e164, last.phone), oracle, last.clock)
  }

  /** Time does not run backwards, within a call and from one call to the next (a call reads its
      clock at most three times). */
  ghost predicate WellTimed(calls: seq<Call>)
  {
    && (forall i :: 0 <= i < |calls| ==> OrderedClock(calls[i].clock))
    && (forall i, j :: 0 <= i < j < |calls| ==> calls[i].clock(2) <= calls[j].clock(0))
  }

  predicate OrderedClock(clock: Clock) { clock(0) <= clock(1) <= clock(2) }

  /** The user of an acceptable account has no `@`. */
  ghost predicate UsersWithoutAt(oracle: Oracle)
  {
    forall c, t :: Acceptable(oracle(c, t)) ==> '@' !in oracle(c, t).jid.user
  }

  /** What the uncached search found in one call. */
  function Uncached(e164: string -> string, call: Call, oracle: Oracle): Option<Hit>
  {
    Search(CandidatesBR(Key(e164, call.phone)), oracle, call.clock, 0)
  }

  /** The entry under `key` is what the i-th call searched and found for that key. */
  ghost predicate CameFrom(e164: string -> string, calls: seq<Call>, oracle: Oracle, key: string, item: CacheItem,
                           i: nat)
  {
    && i < |calls| && Key(e164, calls[i].phone) == key
    && var hit := Uncached(e164, calls[i], oracle);
       hit.Some? && item == CacheItem(Print(hit.value.jid), hit.value.at + DAY)
  }

  /** In every run, every cache entry is the uncached result of some earlier call with its key, and
      expires 24 hours after that answer. */
  lemma {:induction false} EntriesComeFromCalls(e164: string -> string, calls: seq<Call>, oracle: Oracle, key: string)
    returns (i: nat)
    requires key in Run(e164, calls, oracle)
    ensures CameFrom(e164, calls, oracle, key, Run(e164, calls, oracle)[key], i)
  {
    var n := |calls| - 1;
    var before, last := Run(e164, calls[..n], oracle), calls[n];
    var lastKey := Key(e164, last.phone);
    if lastKey == key && Lookup(before, key, last.clock(0)).None? && Uncached(e164, last, oracle).Some? {
      i := n;
    } else {
      i := EntriesComeFromCalls(e164, calls[..n], oracle, key);
      assert calls[..n][i] == calls[i];
    }
  }

  /** The oracle gave `val`, for this candidate and at this time, as an acceptable account. */
  ghost predicate GivenFor(oracle: Oracle, candidate: string, at: nat, val: string)
  {
    Acceptable(oracle(candidate, at)) && val == Print(oracle(candidate, at).jid)
  }

  lemma HitWasGiven(e164: string -> string, call: Call, oracle: Oracle) returns (candidate: string)
    requires Uncached(e164, call, oracle).Some?
    ensures var hit := Uncached(e164, call, oracle).value;
            && candidate in CandidatesBR(Key(e164, call.phone))
            && Acceptable(oracle(candidate, hit.at)) && oracle(candidate, hit.at).jid == hit.jid
            && (OrderedClock(call.clock) ==> call.clock(0) <= hit.at <= call.clock(2))
  {
    var candidates, hit := CandidatesBR(Key(e164, call.phone)), Uncached(e164, call, oracle).value;
    SearchFindsFirst(candidates, oracle, call.clock, 0);
    var k: nat :| FirstAcceptable(candidates, oracle, call.clock, 0, k, hit);
    candidate := candidates[k];
  }

  /** So every entry is an acceptable account that the oracle gave for a candidate of its key, at a
      time exactly 24 hours before it expires. */
  lemma EntriesAreAcceptable(e164: string -> string, calls: seq<Call>, oracle: Oracle, key: string)
    returns (candidate: string)
    requires key in Run(e164, calls, oracle)
    ensures candidate in CandidatesBR(key)
    ensures var item := Run(e164, calls, oracle)[key];
            item.exp >= DAY && GivenFor(oracle, candidate, item.exp - DAY, item.val)
  {
    var item := Run(e164, calls, oracle)[key];
    var i := EntriesComeFromCalls(e164, calls, oracle, key);
    candidate := EntryWasGiven(e164, calls, oracle, key, item, i);
  }

  lemma EntryWasGiven(e164: string -> string, calls: seq<Call>, oracle: Oracle, key: string, item: CacheItem, i: nat)
    returns (candidate: string)
    requires CameFrom(e164, calls, oracle, key, item, i)
    ensures candidate in CandidatesBR(key) && item.exp >= DAY && GivenFor(oracle, candidate, item.exp - DAY, item.val)
  {
    candidate := HitWasGiven(e164, calls[i], oracle);
  }

  /** The cached lookups refine the uncached search: after any run, a call finds what the uncached
      search finds now, or what it found in an earlier call with the same key (as printed and read
      again: the very address unless its user has an `@`), by an answer less than 24 hours old, and
      not from the future if time does not run backwards. */
  lemma CacheRefinesSearch(e164: string -> string, calls: seq<Call>, oracle: Oracle, call: Call) returns (i: nat)
    ensures i <= |calls|
    ensures var key, all := Key(e164, call.phone), calls + [call];
            var found, hit := Find(Run(e164, calls, oracle), key, oracle, call.clock), Uncached(e164, all[i], oracle);
            && Key(e164, all[i].phone) == key
            && (found.Some? <==> hit.Some?)
            && (i == |calls| && hit.Some? ==> found.value == hit.value.jid)
            && (i < |calls| ==> hit.Some? && call.clock(0) < hit.value.at + DAY
                                && found == ParseJID(Print(hit.value.jid)))
            && (hit.Some? && '@' !in hit.value.jid.user ==> found.value == hit.value.jid)
            && (i < |calls| && WellTimed(all) ==> hit.value.at <= call.clock(0))
  {
    var cache, key, all := Run(e164, calls, oracle), Key(e164, call.phone), calls + [call];
    if Lookup(cache, key, call.clock(0)).None? {
      i := |calls|;
    } else {
      i := EntriesComeFromCalls(e164, calls, oracle, key);
      assert all[i] == calls[i] && all[|calls|] == call;
      var candidate := HitWasGiven(e164, calls[i], oracle);
      if '@' !in Uncached(e164, calls[i], oracle).value.jid.user {
        ParseOfPrint(Uncached(e164, calls[i], oracle).value.jid);
      }
    }
  }

  /** The oracle's answers do not change with time. */
  ghost predicate Constant(oracle: Oracle) { forall c, t, t' :: oracle(c, t) == oracle(c, t') }

  lemma ConstantSearch(candidates: seq<string>, oracle: Oracle, clock: Clock, clock': Clock, i: nat)
    requires Constant(oracle)
    ensures var a, b := Search(candidates, oracle, clock, i), Search(candidates, oracle, clock', i);
            (a.Some? <==> b.Some?) && (a.Some? ==> a.value.jid == b.value.jid)
    decreases |candidates| - i
  {
    if i < |candidates| {
      assert oracle(candidates[i], clock(i + 1)) == oracle(candidates[i], clock'(i + 1));
      if !Acceptable(oracle(candidates[i], clock(i + 1))) {
        ConstantSearch(candidates, oracle, clock, clock', i + 1);
      }
    }
  }

  /** When the oracle does not change, a run of calls makes the cache visible exactly when an entry is
      served and the account found has an `@` in its user. */
  lemma ConstantOracleShowsCacheExactly(e164: string -> string, calls: seq<Call>, oracle: Oracle, call: Call)
    requires Constant(oracle)
    ensures var cache, key := Run(e164, calls, oracle), Key(e164, call.phone);
            var served := Lookup(cache, key, call.clock(0)).Some?;
            && (served ==> Uncached(e164, call, oracle).Some?)
            && (Find(cache, key, oracle, call.clock) == Find(map[], key, oracle, call.clock)
                <==> !served || '@' !in Uncached(e164, call, oracle).value.jid.user)
  {
    var cache, key := Run(e164, calls, oracle), Key(e164, call.phone);
    if Lookup(cache, key, call.clock(0)).Some? {
      var i := EntriesComeFromCalls(e164, calls, oracle, key);
      var hit := Uncached(e164, calls[i], oracle).value;
      var candidate := HitWasGiven(e164, calls[i], oracle);
      ConstantSearch(CandidatesBR(key), oracle, calls[i].clock, call.clock, 0);
      ParsesToItselfExactly(hit.jid);
      if '@' !in hit.jid.user {
        ParseOfPrint(hit.jid);
      }
    }
  }

  /** Such a run: after one call, the account `a@b` of the user server is found as `a` of the server `b`. */
  lemma AtSignShowsCache(e164: string -> string, phone: string, a: string, b: string)
    requires a != "" && Plain(JID(a, b))
    ensures var account := JID(a + "@" + b, USER_SERVER);
            var oracle: Oracle, clock: Clock := (candidate, at) => Info(true, account), i => 0;
            var key := Key(e164, phone);
            && Find(map[], key, oracle, clock) == Some(account)
            && Find(Run(e164, [Resolve(phone, clock)], oracle), key, oracle, clock) == Some(JID(a, b))
  {
    var account := JID(a + "@" + b, USER_SERVER);
    var oracle: Oracle, clock: Clock := (candidate, at) => Info(true, account), i => 0;
    var key := Key(e164, phone);
    CandidatesShape(key);
    assert Search(CandidatesBR(key), oracle, clock, 0) == Some(Hit(account, 0));
    var calls := [Resolve(phone, clock)];
    assert calls[..0] == [];
    assert Run(e164, [], oracle) == map[];
    assert Run(e164, calls, oracle) == After(map[], key, oracle, clock);
    ParsesToFirstTwo(a, b, USER_SERVER);
  }

  /** When the oracle does not change, no run of calls makes the cache visible: both lookups return
      what they return with an empty cache. */
  lemma ConstantOracleHidesCache(e164: string -> string, calls: seq<Call>, oracle: Oracle, call: Call)
    requires Constant(oracle) && UsersWithoutAt(oracle)
    ensures var cache, key := Run(e164, calls, oracle), Key(e164, call.phone);
            && Find(cache, key, oracle, call.clock) == Find(map[], key, oracle, call.clock)
            && Check(cache, key, oracle, call.clock) == Check(map[], key, oracle, call.clock)
  {
    var cache, key := Run(e164, calls, oracle), Key(e164, call.phone);
    if Lookup(cache, key, call.clock(0)).Some? {
      var i := EntriesComeFromCalls(e164, calls, oracle, key);
      var hit := Uncached(e164, calls[i], oracle).value;
      var candidate := HitWasGiven(e164, calls[i], oracle);
      ParseOfPrint(hit.jid);
      ConstantSearch(CandidatesBR(key), oracle, calls[i].clock, call.clock, 0);
    }
  }

  // ---- what is asked for, and how long it is kept

  /** The number that is asked for: the normal form, or the phone itself if there is none. Only the
      answers for its candidates matter, so a phone with a normal form is never asked for as it was
      written. */
  lemma OnlyNormalFormIsAsked(e164: string -> string, cache: Cache, phone: string, oracle: Oracle, oracle': Oracle,
                              clock: Clock)
    requires forall c, t :: c in CandidatesBR(if e164(phone) != "" then e164(phone) else phone) ==>
               oracle(c, t) == oracle'(c, t)
    ensures var key := Key(e164, phone);
            && Find(cache, key, oracle, clock) == Find(cache, key, oracle', clock)
            && Check(cache, key, oracle, clock) == Check(cache, key, oracle', clock)
            && After(cache, key, oracle, clock) == After(cache, key, oracle', clock)
  {
    SameSearch(CandidatesBR(Key(e164, phone)), oracle, oracle', clock, 0);
    var candidates := CandidatesBR(Key(e164, phone));
    assert forall i :: 0 <= i < |candidates| ==> candidates[i] in candidates;
  }

  lemma SameSearch(candidates: seq<string>, oracle: Oracle, oracle': Oracle, clock: Clock, i: nat)
    requires forall c, t :: c in candidates ==> oracle(c, t) == oracle'(c, t)
    ensures Search(candidates, oracle, clock, i) == Search(candidates, oracle', clock, i)
    decreases |candidates| - i
  {
    if i < |candidates| {
      assert candidates[i] in candidates;
      SameSearch(candidates, oracle, oracle', clock, i + 1);
    }
  }

  /** An account: on WhatsApp, on the user server, with a user. */
  predicate Registered(a: Answer) { a.Info? && a.isIn && a.jid.server == "s.whatsapp.net" && a.jid.user != "" }

  /** With nothing in the cache, the normal form itself is asked for first: if it is an account, both
      lookups find it and keep it under the normal form for 86,400 seconds. */
  lemma NormalFormIsAskedFirst(e164: string -> string, cache: Cache, phone: string, oracle: Oracle, clock: Clock)
    requires var number := if e164(phone) != "" then e164(phone) else phone;
             number !in cache && Registered(oracle(number, clock(1)))
    ensures var number, key := if e164(phone) != "" then e164(phone) else phone, Key(e164, phone);
            var account := oracle(number, clock(1)).jid;
            && Find(cache, key, oracle, clock) == Some(account)
            && Check(cache, key, oracle, clock) == Exists(account)
            && After(cache, key, oracle, clock) == cache[number := CacheItem(Print(account), clock(1) + 86_400)]
  {
    CandidatesShape(Key(e164, phone));
  }

  /** With nothing in the cache, an account is found exactly if one of the answers is one, and then
      it is the first; a phone is missing if all candidates were answered, and none with an account. */
  lemma FoundExactly(e164: string -> string, cache: Cache, phone: string, oracle: Oracle, clock: Clock)
    requires Key(e164, phone) !in cache
    ensures var number, key := if e164(phone) != "" then e164(phone) else phone, Key(e164, phone);
            var c, found := CandidatesBR(number), Find(cache, key, oracle, clock);
            && (found.Some? <==> exists k :: 0 <= k < |c| && Registered(oracle(c[k], clock(k + 1))))
            && (forall k :: 0 <= k < |c| && Registered(oracle(c[k], clock(k + 1)))
                  && (forall p :: 0 <= p < k ==> !Registered(oracle(c[p], clock(p + 1))))
                  ==> found == Some(oracle(c[k], clock(k + 1)).jid))
            && (Check(cache, key, oracle, clock) == Missing <==>
                  forall k :: 0 <= k < |c| ==>
                    oracle(c[k], clock(k + 1)).Info? && !Registered(oracle(c[k], clock(k + 1))))
  {
    var key := Key(e164, phone);
    var c := CandidatesBR(key);
    CandidatesShape(key);
    assert forall a: Answer :: Registered(a) <==> Acceptable(a);
    SearchFindsFirst(c, oracle, clock, 0);
    VerdictsAreJustified(cache, key, oracle, clock);
    var found := Find(cache, key, oracle, clock);
    if Search(c, oracle, clock, 0).Some? {
      var k: nat :| FirstAcceptable(c, oracle, clock, 0, k, Search(c, oracle, clock, 0).value);
      assert Registered(oracle(c[k], clock(k + 1)));
    }
  }

  /** Two phones with the same normal form are one: they find the same, and each finds what the other
      left in the cache. */
  lemma SameNormalForm(e164: string -> string, cache: Cache, phone: string, phone': string, oracle: Oracle,
                       clock: Clock)
    requires e164(phone) == e164(phone') != ""
    ensures Find(cache, Key(e164, phone), oracle, clock) == Find(cache, Key(e164, phone'), oracle, clock)
    ensures Check(cache, Key(e164, phone), oracle, clock) == Check(cache, Key(e164, phone'), oracle, clock)
    ensures After(cache, Key(e164, phone), oracle, clock) == After(cache, Key(e164, phone'), oracle, clock)
  {
  }

  /** An account that a call found and stored, with a plain user, is found again without asking for
      86,400 seconds after the answer, by every phone with the same normal form; from then on it is
      asked for again. */
  lemma FoundForADay(e164: string -> string, cache: Cache, phone: string, phone': string, oracle: Oracle,
                     oracle': Oracle, clock: Clock, later: Clock)
    requires e164(phone) == e164(phone') != "" && Lookup(cache, Key(e164, phone), clock(0)).None?
    requires var hit := Search(CandidatesBR(e164(phone)), oracle, clock, 0); hit.Some? && Plain(hit.value.jid)
    ensures var hit := Search(CandidatesBR(e164(phone)), oracle, clock, 0).value;
            var cache', key := After(cache, Key(e164, phone), oracle, clock), Key(e164, phone');
            if later(0) < hit.at + 86_400 then
              Find(cache', key, oracle', later) == Some(hit.jid) && After(cache', key, oracle', later) == cache'
            else
              var again := Search(CandidatesBR(e164(phone)), oracle', later, 0);
              Find(cache', key, oracle', later) == if again.Some? then Some(again.value.jid) else None
  {
    ParseOfPrint(Search(CandidatesBR(e164(phone)), oracle, clock, 0).value.jid);
  }

  /** Normalising matters: `11 98765-4321` finds the account of its other spelling only because its
      normal form is asked for. */
  lemma NationalFormatIsFound(e164: string -> string, phone: string, number: string, other: string)
    requires phone == "11 98765-4321" && number == "+5511987654321" && other == "+551187654321"
    requires e164(phone) == number
    ensures var account := JID("551187654321", USER_SERVER);
            var oracle: Oracle :=
              (candidate, at) => if candidate == other then Info(true, account) else Info(false, EMPTY);
            Find(map[], Key(e164, phone), oracle, i => i) == Some(account)
  {
    var account := JID("551187654321", USER_SERVER);
    var oracle: Oracle := (candidate, at) => if candidate == other then Info(true, account) else Info(false, EMPTY);
    var clock: Clock := i => i;
    var area, local := "11", "987654321";
    assert number == "+55" + area + local && other == "+55" + area + local[1..];
    SecondCandidate(area, local);
    var c := CandidatesBR(number);
    assert c == [number, other];
    FoundExactly(e164, map[], phone, oracle, clock);
    assert Registered(oracle(c[1], clock(2))) && !Registered(oracle(c[0], clock(1)));
    assert Find(map[], Key(e164, phone), oracle, clock) == Some(account);
    assert Find(map[], Key(e164, phone), oracle, i => i) == Find(map[], Key(e164, phone), oracle, clock);
  }
}
