/** Resolving LID addresses through a 30-minute cache, and replying to rejected calls. The stores of
    the sessions are an oracle; the cache is shared by all of them. A call's clock gives the time at
    its cache check (0) and at each of its store lookups (1, 2, ...). */
module CallReply {
  import opened Text
  import opened PhoneNumbers
  import Jid

  /** An address and its device; device 0 is the whole account. */
  datatype Address = Address(user: string, server: string, device: nat)

  /** What a session's store answers for a LID at a time; None is an error. */
  type LidStore = (string, Address, nat) -> Option<Address>

  type Clock = nat -> nat

  const NOWHERE := Address("", "", 0)

  const LID_TTL := 30 * 60

  const ATTEMPTS := 3

  datatype LidEntry = LidEntry(val: Address, expiry: nat)

  type LidMap = map<string, LidEntry>

  datatype Hit = Hit(to: Address, at: nat, lookups: nat)

  /** One call of `resolveLIDToAD`; `ready` says that the client has a store. */
  datatype Call = ResolveLID(session: string, ready: bool, lid: Address, attempts: nat, clock: Clock)

  predicate IsLid(a: Address) { a.server == Jid.LID_SERVER }

  predicate Usable(a: Option<Address>) { a.Some? && !IsLid(a.value) && a.value.user != "" && a.value.server != "" }

  // ---- printed addresses

  function Decimal(n: nat): string
  {
    if n < 10 then [('0' as int + n) as char] else Decimal(n / 10) + [('0' as int + n % 10) as char]
  }

  /** The user and the device, if it is not 0. */
  function Account(a: Address): string { if a.device == 0 then a.user else a.user + ":" + Decimal(a.device) }

  function Print(a: Address): string { if Account(a) == "" then a.server else Account(a) + "@" + a.server }

  lemma {:induction false} DecimalInjective(n: nat, m: nat)
    requires Decimal(n) == Decimal(m)
    ensures n == m
  {
    assert |Decimal(n / 10)| > 0 && |Decimal(m / 10)| > 0;
    if n >= 10 && m >= 10 {
      var p, q := Decimal(n / 10), Decimal(m / 10);
      assert p == Decimal(n)[..|Decimal(n)| - 1] == Decimal(m)[..|Decimal(m)| - 1] == q;
      assert Decimal(n)[|p|] == Decimal(m)[|q|];
      DecimalInjective(n / 10, m / 10);
    }
  }

  lemma AccountHasColon(a: Address)
    ensures ':' in Account(a) <==> a.device != 0 || ':' in a.user
  {
    if a.device != 0 {
      assert Account(a)[|a.user|] == ':';
    }
  }

  lemma AccountInjective(a: Address, b: Address)
    requires ':' !in a.user && ':' !in b.user && Account(a) == Account(b)
    ensures a.user == b.user && a.device == b.device
  {
    AccountHasColon(a);
    AccountHasColon(b);
    if a.device != 0 {
      assert Account(a) == a.user + [':'] + Decimal(a.device) && Account(b) == b.user + [':'] + Decimal(b.device);
      SplitAppend(a.user, Decimal(a.device), ':');
      SplitAppend(b.user, Decimal(b.device), ':');
      SplitOfPlain(a.user, ':');
      SplitOfPlain(b.user, ':');
      assert ([a.user] + Split(Decimal(a.device), ':'))[0] == ([b.user] + Split(Decimal(b.device), ':'))[0];
      assert Decimal(a.device) == Account(a)[|a.user| + 1..] == Account(b)[|b.user| + 1..] == Decimal(b.device);
      DecimalInjective(a.device, b.device);
    }
  }

  /** On one server, addresses whose user texts have no colon are printed differently. */
  lemma PrintInjective(a: Address, b: Address)
    requires a.server == b.server && ':' !in a.user && ':' !in b.user && Print(a) == Print(b)
    ensures a == b
  {
    if Account(a) != "" && Account(b) != "" {
      assert |Account(a)| == |Account(b)|;
      assert Account(a) == Print(a)[..|Account(a)|] && Account(b) == Print(b)[..|Account(b)|];
    }
    AccountInjective(a, b);
  }

  // ---- specification

  /** The retries from the i-th on: the first usable answer. */
  function Attempt(call: Call, store: LidStore, i: nat): Option<Hit>
    decreases call.attempts - i
  {
    if i >= call.attempts then None
    else
      var at := call.clock(i + 1);
      var answer := store(call.session, call.lid, at);
      if Usable(answer) then Some(Hit(answer.value, at, i + 1)) else Attempt(call, store, i + 1)
  }

  function Lookup(cache: LidMap, key: string, now: nat): Option<Address>
  {
    if key in cache && now < cache[key].expiry && cache[key].val.user != "" && cache[key].val.server != "" then
      Some(cache[key].val)
    else None
  }

  /** The retries are needed: there is a store and nothing to serve from the cache. */
  predicate Asks(cache: LidMap, call: Call)
  {
    call.ready && Lookup(cache, Print(call.lid), call.clock(0)).None?
  }

  function Resolution(cache: LidMap, call: Call, store: LidStore): Option<Address>
  {
    if !call.ready then None
    else if !Asks(cache, call) then Lookup(cache, Print(call.lid), call.clock(0))
    else if Attempt(call, store, 0).Some? then Some(Attempt(call, store, 0).value.to)
    else None
  }

  /** What a call that asked its store leaves in the cache. */
  function StoreAnswer(cache: LidMap, call: Call, store: LidStore): LidMap
  {
    var hit := Attempt(call, store, 0);
    if hit.Some? then cache[Print(call.lid) := LidEntry(hit.value.to, hit.value.at + LID_TTL)] else cache
  }

  /** The cache after a call during whose retries other handlers stored the entries `others`. */
  function After(cache: LidMap, others: LidMap, call: Call, store: LidStore): LidMap
  {
    if Asks(cache, call) then StoreAnswer(cache + others, call, store) else cache
  }

  /** How often the store is asked. */
  function LookupCount(cache: LidMap, call: Call, store: LidStore): nat
  {
    if !Asks(cache, call) then 0
    else if Attempt(call, store, 0).Some? then Attempt(call, store, 0).value.lookups
    else call.attempts
  }

  // ---- the cache and the retry loop of the source

  /** Every entry is a resolved address: not on the lid server, with a user and a server. */
  ghost predicate AllUsable(cache: LidMap) { forall key :: key in cache ==> Usable(Some(cache[key].val)) }

  class LidCache {
    var entries: LidMap

    ghost predicate Valid()
      reads this
    {
      AllUsable(entries)
    }

    constructor ()
      ensures Valid() && entries == map[]
    {
      entries := map[];
    }

    method Get(key: string, now: nat) returns (val: Address, ok: bool)
      ensures var found := Lookup(entries, key, now); ok == found.Some? && val == if ok then found.value else NOWHERE
    {
      if key in entries {
        var e := entries[key];
        if now < e.expiry && e.val.user != "" && e.val.server != "" {
          return e.val, true;
        }
      }
      return NOWHERE, false;
    }

    method Put(key: string, val: Address, now: nat)
      modifies this
      ensures old(Valid()) && Usable(Some(val)) ==> Valid()
      ensures entries == old(entries)[key := LidEntry(val, now + 1_800)]
    {
      entries := entries[key := LidEntry(val, now + LID_TTL)];
    }

    /** The lock is not held during the retries: `others` is what other handlers store meanwhile. */
    method ResolveLIDToAD(call: Call, others: LidMap, store: LidStore) returns (to: Address, ok: bool, lookups: nat)
      requires Valid() && AllUsable(others)
      modifies this
      ensures Valid() && (ok ==> Usable(Some(to)))
      ensures var found := Resolution(old(entries), call, store);
              ok == found.Some? && to == if ok then found.value else NOWHERE
      ensures entries == After(old(entries), others, call, store)
      ensures lookups == LookupCount(old(entries), call, store)
    {
      lookups := 0;
      if !call.ready {
        return NOWHERE, false, 0;
      }
      var key := Print(call.lid);
      var cached, hit := Get(key, call.clock(0));
      if hit {
        return cached, true, 0;
      }
      entries := entries + others;
      for i := 0 to call.attempts
        invariant Valid() && entries == old(entries) + others && lookups == i
        invariant Attempt(call, store, 0) == Attempt(call, store, i)
      {
        var answer := store(call.session, call.lid, call.clock(i + 1));
        lookups := lookups + 1;
        if answer.Some? {
          var ad := answer.value;
          if !IsLid(ad) && ad.user != "" && ad.server != "" {
            Put(key, ad, call.clock(i + 1));
            return ad, true, lookups;
          }
        }
      }
      return NOWHERE, false, lookups;
    }
  }

  lemma AttemptFindsUsable(call: Call, store: LidStore, i: nat)
    ensures var hit := Attempt(call, store, i);
            && (hit.None? <==>
                  forall k :: i < k <= call.attempts ==> !Usable(store(call.session, call.lid, call.clock(k))))
            && (hit.Some? ==>
                  && i < hit.value.lookups <= call.attempts && hit.value.at == call.clock(hit.value.lookups)
                  && var answer := store(call.session, call.lid, hit.value.at);
                     Usable(answer) && answer.value == hit.value.to)
    decreases call.attempts - i
  {
    if i < call.attempts && !Usable(store(call.session, call.lid, call.clock(i + 1))) {
      AttemptFindsUsable(call, store, i + 1);
    }
  }

  /** The store is asked at most `attempts` times, and not at all while an entry is served. */
  lemma FewLookups(cache: LidMap, call: Call, store: LidStore)
    ensures LookupCount(cache, call, store) <= call.attempts
    ensures LookupCount(cache, call, store) > 0 ==> call.ready && Lookup(cache, Print(call.lid), call.clock(0)).None?
    ensures Asks(cache, call) && call.attempts > 0 ==> LookupCount(cache, call, store) > 0
  {
    AttemptFindsUsable(call, store, 0);
  }

  // ---- what a resolution finds

  /** The k-th lookup is the first to give an address with a user, off the lid server. */
  ghost predicate FirstUsable(call: Call, store: LidStore, k: nat)
  {
    && 1 <= k <= call.attempts && Resolved(store(call.session, call.lid, call.clock(k)))
    && forall p :: 1 <= p < k ==> !Resolved(store(call.session, call.lid, call.clock(p)))
  }

  predicate Resolved(answer: Option<Address>)
  {
    answer.Some? && answer.value.server != "lid" && answer.value.server != "" && answer.value.user != ""
  }

  ghost predicate NoneUsable(call: Call, store: LidStore)
  {
    forall k :: 1 <= k <= call.attempts ==> !Resolved(store(call.session, call.lid, call.clock(k)))
  }

  /** An entry that is still to be served. */
  predicate LiveEntry(cache: LidMap, key: string, now: nat)
  {
    key in cache && now < cache[key].expiry && cache[key].val.user != "" && cache[key].val.server != ""
  }

  lemma AttemptIsFirst(call: Call, store: LidStore, i: nat, k: nat)
    requires FirstUsable(call, store, k) && i < k
    ensures Attempt(call, store, i)
         == Some(Hit(store(call.session, call.lid, call.clock(k)).value, call.clock(k), k))
    decreases k - i
  {
    if i + 1 < k {
      AttemptIsFirst(call, store, i + 1, k);
    }
  }

  /** Exactly when a resolution finds something: there is a store, and a live entry or a usable answer
      within the attempts. What it finds is the entry, or else the first usable answer, after which
      the store is asked no more. */
  lemma ResolvedExactly(cache: LidMap, call: Call, store: LidStore)
    ensures var live := LiveEntry(cache, Print(call.lid), call.clock(0));
            && (Resolution(cache, call, store).Some? <==> call.ready && (live || !NoneUsable(call, store)))
            && (call.ready && live ==>
                  && Resolution(cache, call, store) == Some(cache[Print(call.lid)].val)
                  && LookupCount(cache, call, store) == 0)
            && (call.ready && !live ==> forall k: nat :: FirstUsable(call, store, k) ==>
                  && Resolution(cache, call, store) == Some(store(call.session, call.lid, call.clock(k)).value)
                  && LookupCount(cache, call, store) == k)
            && (call.ready && !live && NoneUsable(call, store) ==> LookupCount(cache, call, store) == call.attempts)
  {
    AttemptFindsUsable(call, store, 0);
    assert forall a :: Resolved(a) <==> Usable(a);
    forall k: nat | FirstUsable(call, store, k)
      ensures Attempt(call, store, 0)
           == Some(Hit(store(call.session, call.lid, call.clock(k)).value, call.clock(k), k))
    {
      AttemptIsFirst(call, store, 0, k);
    }
  }

  /** An answer that a call stored is served for 1,800 seconds, to every session and without asking;
      from then on the stores are asked again. */
  lemma ServedForHalfAnHour(cache: LidMap, others: LidMap, call: Call, store: LidStore, k: nat,
                            later: Call, store': LidStore)
    requires call.ready && !LiveEntry(cache, Print(call.lid), call.clock(0)) && FirstUsable(call, store, k)
    requires later.ready && Print(later.lid) == Print(call.lid)
    ensures var cache', answer := After(cache, others, call, store), store(call.session, call.lid, call.clock(k)).value;
            if later.clock(0) < call.clock(k) + 1_800 then
              Resolution(cache', later, store') == Some(answer) && LookupCount(cache', later, store') == 0
            else Asks(cache', later)
  {
    AttemptIsFirst(call, store, 0, k);
  }

  // ---- runs

  /** The shared cache, and the calls that are asking their stores, numbered as they began. */
  datatype State = State(cache: LidMap, asking: map<nat, Call>, next: nat)

  /** The two sections of a call under the cache's lock: `Begin` checks the cache, `End` stores what
      the call's own store answered in between. Any steps of other calls may lie between the two.
      Callers pass LIDs only. */
  datatype Step = Begin(call: Call) | End(id: nat)

  function Next(s: State, step: Step, store: LidStore): State
  {
    match step
    case Begin(call) =>
      if IsLid(call.lid) && Asks(s.cache, call) then s.(asking := s.asking[s.next := call], next := s.next + 1) else s
    case End(id) =>
      if id in s.asking then s.(cache := StoreAnswer(s.cache, s.asking[id], store), asking := s.asking - {id}) else s
  }

  function Run(steps: seq<Step>, store: LidStore): State
  {
    if |steps| == 0 then State(map[], map[], 0)
    else Next(Run(steps[..|steps| - 1], store), steps[|steps| - 1], store)
  }

  lemma RunAppend(steps: seq<Step>, step: Step, store: LidStore)
    ensures Run(steps + [step], store) == Next(Run(steps, store), step, store)
  {
    assert (steps + [step])[..|steps|] == steps;
  }

  lemma {:induction false} AskingAreLids(steps: seq<Step>, store: LidStore)
    ensures forall id :: id in Run(steps, store).asking ==>
              id < Run(steps, store).next && IsLid(Run(steps, store).asking[id].lid)
  {
    if |steps| > 0 {
      AskingAreLids(steps[..|steps| - 1], store);
    }
  }

  ghost predicate NotEnded(steps: seq<Step>, id: nat)
  {
    forall k :: 0 <= k < |steps| ==> steps[k] != End(id)
  }

  /** Whatever other calls do, a call goes on asking, and no key leaves the cache. */
  lemma {:induction false} OthersOnlyAdd(steps: seq<Step>, between: seq<Step>, store: LidStore, id: nat)
    requires id in Run(steps, store).asking && id < Run(steps, store).next && NotEnded(between, id)
    ensures var s, s' := Run(steps, store), Run(steps + between, store);
            && id in s'.asking && s'.asking[id] == s.asking[id] && id < s'.next
            && s.cache.Keys <= s'.cache.Keys
  {
    if |between| == 0 {
      assert steps + between == steps;
    } else {
      var init, last := between[..|between| - 1], between[|between| - 1];
      OthersOnlyAdd(steps, init, store, id);
      assert steps + between == (steps + init) + [last];
      RunAppend(steps + init, last, store);
    }
  }

  /** A call of `ResolveLIDToAD` is its two steps, whatever steps lie between them: the cache it
      leaves is the one its contract gives for the entries present when it stores its answer. */
  lemma CallIsItsSteps(steps: seq<Step>, between: seq<Step>, call: Call, store: LidStore)
    requires IsLid(call.lid) && Asks(Run(steps, store).cache, call) && NotEnded(between, Run(steps, store).next)
    ensures var id, asked := Run(steps, store).next, steps + [Begin(call)] + between;
            Run(asked + [End(id)], store).cache
            == After(Run(steps, store).cache, Run(asked, store).cache, call, store)
  {
    var id, asked := Run(steps, store).next, steps + [Begin(call)] + between;
    RunAppend(steps, Begin(call), store);
    OthersOnlyAdd(steps + [Begin(call)], between, store, id);
    RunAppend(asked, End(id), store);
    assert Run(steps, store).cache + Run(asked, store).cache == Run(asked, store).cache;
  }

  /** The entry is what a session's store answered for a LID with this key, 30 minutes before the
      entry expires. */
  ghost predicate GivenFor(store: LidStore, session: string, lid: Address, key: string, entry: LidEntry)
  {
    && IsLid(lid) && Print(lid) == key && Usable(Some(entry.val))
    && entry.expiry >= LID_TTL && store(session, lid, entry.expiry - LID_TTL) == Some(entry.val)
  }

  /** Over every run, overlapping calls included, each entry is such an answer. */
  lemma {:induction false} EntriesAreAnswers(steps: seq<Step>, store: LidStore, key: string)
    returns (session: string, lid: Address)
    requires key in Run(steps, store).cache
    ensures GivenFor(store, session, lid, key, Run(steps, store).cache[key])
  {
    var init, last := steps[..|steps| - 1], steps[|steps| - 1];
    var s := Run(init, store);
    if last.End? && last.id in s.asking && Print(s.asking[last.id].lid) == key
       && Attempt(s.asking[last.id], store, 0).Some? {
      AskingAreLids(init, store);
      AttemptFindsUsable(s.asking[last.id], store, 0);
      session, lid := s.asking[last.id].session, s.asking[last.id].lid;
    } else {
      session, lid := EntriesAreAnswers(init, store, key);
    }
  }

  /** Over every run, only resolved addresses are cached: not on the lid server, with a user and a
      server. */
  lemma CacheHoldsNoLid(steps: seq<Step>, store: LidStore, key: string)
    requires key in Run(steps, store).cache
    ensures Usable(Some(Run(steps, store).cache[key].val))
  {
    var session, lid := EntriesAreAnswers(steps, store, key);
  }

  /** Every answer that the run stored was given no later than `now`. */
  ghost predicate StoredBy(steps: seq<Step>, store: LidStore, now: nat)
  {
    |steps| > 0 ==>
      var init, last := steps[..|steps| - 1], steps[|steps| - 1];
      && StoredBy(init, store, now)
      && (last.End? && last.id in Run(init, store).asking ==>
            var hit := Attempt(Run(init, store).asking[last.id], store, 0); hit.Some? ==> hit.value.at <= now)
  }

  lemma {:induction false} NoEntryFromTheFuture(steps: seq<Step>, store: LidStore, now: nat, key: string)
    requires StoredBy(steps, store, now) && key in Run(steps, store).cache
    ensures Run(steps, store).cache[key].expiry <= now + LID_TTL
  {
    var init := steps[..|steps| - 1];
    if key in Run(init, store).cache {
      NoEntryFromTheFuture(init, store, now, key);
    }
  }

  /** A call's own clock does not run backwards. */
  ghost predicate OrderedClock(call: Call) { forall k :: 0 < k <= call.attempts ==> call.clock(0) <= call.clock(k) }

  /** Some session's store gave `to` at time `at` for `lid`, which is printed like `asked`, and is
      `asked` itself unless a user text has a colon. */
  ghost predicate Gave(store: LidStore, session: string, lid: Address, asked: Address, at: nat, to: Address)
  {
    && IsLid(lid) && Print(lid) == Print(asked) && (':' !in lid.user && ':' !in asked.user ==> lid == asked)
    && store(session, lid, at) == Some(to)
  }

  /** After any run, a resolved address is not on the lid server; a store gave it for this LID, just
      now or less than 30 minutes before. Just now means the asking session's own store; a cached
      answer can be another session's. */
  lemma ResolutionIsRecent(steps: seq<Step>, store: LidStore, call: Call)
    returns (session: string, lid: Address, at: nat)
    requires IsLid(call.lid) && OrderedClock(call)
    requires Resolution(Run(steps, store).cache, call, store).Some?
    ensures var asks, now := Asks(Run(steps, store).cache, call), call.clock(0);
            var to := Resolution(Run(steps, store).cache, call, store).value;
            && Usable(Some(to)) && Gave(store, session, lid, call.lid, at, to) && now < at + LID_TTL
            && (asks ==> session == call.session && lid == call.lid && at >= now)
            && (!asks && StoredBy(steps, store, now) ==> at <= now)
  {
    var key := Print(call.lid);
    if Asks(Run(steps, store).cache, call) {
      AttemptFindsUsable(call, store, 0);
      session, lid, at := call.session, call.lid, Attempt(call, store, 0).value.at;
    } else {
      session, lid := EntriesAreAnswers(steps, store, key);
      at := Run(steps, store).cache[key].expiry - LID_TTL;
      if ':' !in lid.user && ':' !in call.lid.user {
        PrintInjective(lid, call.lid);
      }
      if StoredBy(steps, store, call.clock(0)) {
        NoEntryFromTheFuture(steps, store, call.clock(0), key);
      }
    }
  }

  // ---- rejected calls

  datatype Reply = NotRejected | NoMessage | Unresolved | SendTo(to: Address, text: string)

  /** A device written into the user text is stripped, and the device reset with it. */
  function WithoutDevice(a: Address): Address
  {
    if ':' in a.user then Address(Split(a.user, ':')[0], a.server, 0) else a
  }

  function ReplyCall(session: string, ready: bool, creator: Address, clock: Clock): Call
  {
    ResolveLID(session, ready, WithoutDevice(creator), ATTEMPTS, clock)
  }

  function ReplyFor(cache: LidMap, session: string, rejects: bool, message: string, ready: bool, creator: Address,
                    clock: Clock, store: LidStore): Reply
  {
    if !rejects then NotRejected
    else if Trim(message) == "" then NoMessage
    else if !IsLid(creator) then SendTo(WithoutDevice(creator), Trim(message))
    else
      var resolved := Resolution(cache, ReplyCall(session, ready, creator, clock), store);
      if resolved.Some? then SendTo(resolved.value, Trim(message)) else Unresolved
  }

  function AfterReply(cache: LidMap, others: LidMap, session: string, rejects: bool, message: string, ready: bool,
                      creator: Address, clock: Clock, store: LidStore): LidMap
  {
    if rejects && Trim(message) != "" && IsLid(creator) then
      After(cache, others, ReplyCall(session, ready, creator, clock), store)
    else cache
  }

  /** The part of the handler that follows the rejection of a call. */
  method ReplyToCall(lids: LidCache, others: LidMap, session: string, message: string, ready: bool, creator: Address,
                     clock: Clock, store: LidStore) returns (reply: Reply)
    requires lids.Valid() && AllUsable(others)
    modifies lids
    ensures lids.Valid() && (reply.SendTo? ==> !IsLid(reply.to))
    ensures reply == ReplyFor(old(lids.entries), session, true, message, ready, creator, clock, store)
    ensures lids.entries == AfterReply(old(lids.entries), others, session, true, message, ready, creator, clock, store)
  {
    var text := Trim(message);
    if text == "" {
      return NoMessage;
    }
    var to := creator;
    var shouldSend := true;
    if ':' in to.user {
      var parts := Split(to.user, ':');
      to := Address(parts[0], to.server, 0);
    }
    if IsLid(to) {
      var resolved, ok, lookups := lids.ResolveLIDToAD(ResolveLID(session, ready, to, ATTEMPTS, clock), others, store);
      if ok {
        to := resolved;
      } else {
        shouldSend := false;
      }
    }
    if shouldSend {
      return SendTo(to, text);
    }
    return Unresolved;
  }

  /** Some session's store gave `to` for the LID less than 30 minutes before `now`, or since. */
  ghost predicate GaveRecently(store: LidStore, asked: Address, now: nat, to: Address)
  {
    exists session, lid, at: nat :: Gave(store, session, lid, asked, at, to) && now < at + LID_TTL
  }

  /** No call reply goes to an unresolved LID: after any run of the cache's sections, a reply is sent
      only if calls are rejected, its text is trimmed and nonblank, and its destination is not on
      the lid server. It is the caller's own address, or one with a user and a server that a store
      gave for the caller's LID less than 30 minutes before the call. */
  lemma NoReplyToLid(steps: seq<Step>, store: LidStore, session: string, rejects: bool, message: string, ready: bool,
                     creator: Address, clock: Clock)
    ensures var reply := ReplyFor(Run(steps, store).cache, session, rejects, message, ready, creator, clock, store);
            reply.SendTo? ==>
              && rejects && reply.to.server != "lid"
              && reply.text != "" && reply.text == Trim(message) && Trimmed(reply.text)
              && (!IsLid(creator) ==> reply.to == WithoutDevice(creator))
              && (IsLid(creator) ==> Usable(Some(reply.to)))
              && (IsLid(creator) && OrderedClock(ReplyCall(session, ready, creator, clock)) ==>
                    GaveRecently(store, WithoutDevice(creator), clock(0), reply.to))
  {
    var left, right := TrimSplits(message);
    var call := ReplyCall(session, ready, creator, clock);
    if IsLid(creator) && Resolution(Run(steps, store).cache, call, store).Some? {
      if Asks(Run(steps, store).cache, call) {
        AttemptFindsUsable(call, store, 0);
      } else {
        CacheHoldsNoLid(steps, store, Print(call.lid));
      }
      if OrderedClock(call) {
        var s, lid, at := ResolutionIsRecent(steps, store, call);
      }
    }
  }

  /** The kinds of reply, each with its exact condition. */
  lemma ReplyExactly(cache: LidMap, session: string, rejects: bool, message: string, ready: bool, creator: Address,
                     clock: Clock, store: LidStore)
    ensures var reply := ReplyFor(cache, session, rejects, message, ready, creator, clock, store);
            var live := LiveEntry(cache, Print(WithoutDevice(creator)), clock(0));
            && (reply.NotRejected? <==> !rejects)
            && (reply.NoMessage? <==> rejects && AllSpace(message))
            && (reply.Unresolved? <==> rejects && !AllSpace(message) && creator.server == "lid"
                                       && !(ready && (live || AnswersWithinThree(store, session, creator, clock))))
  {
    var call := ReplyCall(session, ready, creator, clock);
    TrimsToNothing(message);
    ResolvedExactly(cache, call, store);
  }

  /** One of three lookups for the caller gives a usable address. */
  ghost predicate AnswersWithinThree(store: LidStore, session: string, creator: Address, clock: Clock)
  {
    exists k :: 1 <= k <= 3 && Resolved(store(session, WithoutDevice(creator), clock(k)))
  }

  /** A LID caller is answered: at the address of a live entry, or else at the first usable address
      that three lookups give. */
  lemma LidCallerIsAnswered(cache: LidMap, session: string, message: string, creator: Address, clock: Clock,
                            store: LidStore, k: nat)
    requires creator.server == "lid" && !AllSpace(message) && 1 <= k <= 3
    requires Resolved(store(session, WithoutDevice(creator), clock(k)))
    requires forall p :: 1 <= p < k ==> !Resolved(store(session, WithoutDevice(creator), clock(p)))
    ensures var key := Print(WithoutDevice(creator));
            ReplyFor(cache, session, true, message, true, creator, clock, store)
            == SendTo(if LiveEntry(cache, key, clock(0)) then cache[key].val
                      else store(session, WithoutDevice(creator), clock(k)).value, Trim(message))
  {
    var call := ReplyCall(session, true, creator, clock);
    assert FirstUsable(call, store, k);
    ResolvedExactly(cache, call, store);
    TrimsToNothing(message);
  }

  /** The user text is kept up to its first colon. */
  lemma StrippedUser(user: string, rest: string, server: string, device: nat)
    requires ':' !in user
    ensures WithoutDevice(Address(user + ":" + rest, server, device)) == Address(user, server, 0)
    ensures WithoutDevice(Address(user, server, device)) == Address(user, server, device)
  {
    assert user + ":" + rest == user + [':'] + rest;
    assert (user + ":" + rest)[|user|] == ':';
    SplitAppend(user, rest, ':');
    SplitOfPlain(user, ':');
  }

  /** The printed device suffix of a caller off the lid server is stripped exactly when it stands in
      the user text: the reply to a caller with a device number and a plain user text is addressed to
      that device. */
  lemma DeviceSuffixKept(cache: LidMap, session: string, message: string, ready: bool, creator: Address,
                         clock: Clock, store: LidStore)
    requires !IsLid(creator) && Trim(message) != ""
    ensures var reply := ReplyFor(cache, session, true, message, ready, creator, clock, store);
            && reply.SendTo?
            && (':' in Account(reply.to) <==> ':' in Account(creator) && ':' !in creator.user)
            && (':' in Account(reply.to) ==> reply.to == creator)
  {
    AccountHasColon(creator);
    AccountHasColon(WithoutDevice(creator));
  }

  /** Such a caller: a companion device. */
  lemma CompanionIsAddressedOnItsDevice(cache: LidMap, session: string, message: string, ready: bool, creator: Address,
                                        clock: Clock, store: LidStore)
    requires creator == Address("1234567890", "s.whatsapp.net", 10) && Trim(message) != ""
    ensures ReplyFor(cache, session, true, message, ready, creator, clock, store) == SendTo(creator, Trim(message))
    ensures Account(creator) == "1234567890:10"
  {
    assert Decimal(1) == "1" && Decimal(10) == "10";
    assert ':' !in creator.user;
  }

  // ---- display names

  predicate IsGroup(a: Address) { HasSuffix(a.server, "g.us") }

  method DisplayMaybeResolve(lids: LidCache, others: LidMap, session: string, ready: bool, a: Address,
                             clock: Clock, store: LidStore) returns (shown: string)
    requires lids.Valid() && AllUsable(others)
    modifies lids
    ensures lids.Valid()
    ensures var resolved := Resolution(old(lids.entries), ResolveLID(session, ready, a, 3, clock), store);
            shown == if HasSuffix(a.server, "g.us") then a.user
                     else if a.server != "lid" then Digits(Split(a.user, ':')[0])
                     else if resolved.Some? then Digits(resolved.value.user)
                     else a.user + "@lid"
    ensures lids.entries ==
            if a.server == "lid" then After(old(lids.entries), others, ResolveLID(session, ready, a, 3, clock), store)
            else old(lids.entries)
  {
    if IsGroup(a) {
      assert !IsLid(a);
      return a.user;
    }
    if !IsLid(a) {
      var user := a.user;
      var i := IndexAny(user, ":");
      FirstPart(user, i);
      if i >= 0 {
        user := user[..i];
      }
      shown := DigitsOnly(user);
      return;
    }
    var resolved, ok, lookups := lids.ResolveLIDToAD(ResolveLID(session, ready, a, ATTEMPTS, clock), others, store);
    if ok {
      shown := DigitsOnly(resolved.user);
      return;
    }
    return a.user + "@lid";
  }

  lemma FirstPart(user: string, i: int)
    requires i == IndexAny(user, ":")
    ensures Split(user, ':')[0] == if i >= 0 then user[..i] else user
  {
    if i >= 0 {
      assert user == user[..i] + [':'] + user[i + 1..];
      SplitAppend(user[..i], user[i + 1..], ':');
      SplitOfPlain(user[..i], ':');
    } else {
      SplitOfPlain(user, ':');
    }
  }
}
