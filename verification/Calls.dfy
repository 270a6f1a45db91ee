/** Rejecting calls: the settings of the manager and the reply through the LID cache, together. */
module Calls {
  import opened Text
  import opened Overrides
  import opened Sessions
  import opened CallReply

  /** Whether calls are rejected after these loads. */
  ghost function RejectsAfter(history: seq<Config>, env: Env, defaults: Defaults): bool
  {
    Effective(AfterLoads(env, history).rejectCalls, defaults.rejectCalls)
  }

  /** The reject text in effect after these loads. */
  ghost function MessageAfter(history: seq<Config>, env: Env, defaults: Defaults): string
  {
    Effective(AfterLoads(env, history).rejectMsg, defaults.rejectMsg)
  }

  lemma RejectionFollowsLoads(history: seq<Config>, env: Env, defaults: Defaults)
    ensures RejectsAfter(history, env, defaults) ==
            if env.rejectCalls || |history| == 0 then defaults.rejectCalls
            else Trim(history[|history| - 1].rejectCalls) != ""
    ensures MessageAfter(history, env, defaults) ==
            if env.rejectMsg then defaults.rejectMsg else Effective(Latest(history, CarriedMsg), defaults.rejectMsg)
  {
    LoadsFollowLatest(env, history);
  }

  /** With both reject variables unset and something loaded, a call is rejected exactly when the
      latest load had a text; its message is then the latest loaded text, whatever was loaded since. */
  lemma MessageIsLoadedText(history: seq<Config>, more: seq<Config>, env: Env, defaults: Defaults)
    requires !env.rejectCalls && !env.rejectMsg && |history| > 0
    ensures RejectsAfter(history, env, defaults) <==> Trim(history[|history| - 1].rejectCalls) != ""
    ensures var message := MessageAfter(history + more, env, defaults);
            RejectsAfter(history, env, defaults) ==>
              && Trim(message) == message != "" && Latest(history + more, CarriedMsg) == Some(message)
              && (more == [] ==> message == Trim(history[|history| - 1].rejectCalls))
  {
    RejectionFollowsLoads(history, env, defaults);
    if RejectsAfter(history, env, defaults) {
      var all := history + more;
      var i := MessageAcrossLoads(env, history, more, defaults);
      LatestMeaning(all, CarriedMsg);
      var left, right := TrimSplits(all[i].rejectCalls);
      TrimOfTrimmed(Trim(all[i].rejectCalls));
    }
  }

  /** The reply is rejected, and worded, by the loads: `before` the call and `more` during it. */
  ghost predicate WordedByLoads(before: seq<Config>, more: seq<Config>, env: Env, reply: Reply)
  {
    !env.rejectCalls && !env.rejectMsg && |before| > 0 ==>
      && (reply.NotRejected? <==> Trim(before[|before| - 1].rejectCalls) == "")
      && !reply.NoMessage?
      && (reply.SendTo? ==> Latest(before + more, CarriedMsg) == Some(reply.text))
      && (reply.SendTo? && more == [] ==> reply.text == Trim(before[|before| - 1].rejectCalls))
  }

  lemma ReplyIsWordedByLoads(before: seq<Config>, more: seq<Config>, env: Env, defaults: Defaults, cache: LidMap,
                             session: string, ready: bool, creator: Address, clock: Clock, store: LidStore)
    ensures WordedByLoads(before, more, env,
                          ReplyFor(cache, session, RejectsAfter(before, env, defaults),
                                   MessageAfter(before + more, env, defaults), ready, creator, clock, store))
  {
    if !env.rejectCalls && !env.rejectMsg && |before| > 0 {
      MessageIsLoadedText(before, more, env, defaults);
    }
  }

  /** The part that follows the rejection: the second read of the settings, after `loads` that other
      handlers perform meanwhile, and the reply. */
  method AnswerRejectedCall(manager: ClientManager, loads: seq<Config>, lids: LidCache, others: LidMap,
                            session: string, ready: bool, creator: Address, clock: Clock, store: LidStore)
    returns (reply: Reply)
    requires manager.Valid() && lids.Valid() && AllUsable(others)
    modifies lids, manager`overrides, manager`history
    ensures manager.Valid() && lids.Valid() && (reply.SendTo? ==> !IsLid(reply.to))
    ensures manager.HistoryOf(session)
         == old(manager.HistoryOf(session)) + if manager.CanLoad(session) then loads else []
    ensures var message := MessageAfter(manager.HistoryOf(session), manager.env, manager.defaults);
            && reply == ReplyFor(old(lids.entries), session, true, message, ready, creator, clock, store)
            && lids.entries == AfterReply(old(lids.entries), others, session, true, message, ready, creator,
                                          clock, store)
  {
    manager.LoadAll(session, loads);
    var message := manager.GetRejectMsg(session);
    reply := ReplyToCall(lids, others, session, message, ready, creator, clock, store);
  }

  /** The whole handler. `loads` is what other handlers load for the session between the two reads
      of the settings, while the call is being rejected; `others` is what they store in the cache. */
  method HandleCallRejection(manager: ClientManager, loads: seq<Config>, lids: LidCache, others: LidMap,
                             session: string, ready: bool, creator: Address, clock: Clock, store: LidStore)
    returns (reply: Reply)
    requires manager.Valid() && lids.Valid() && AllUsable(others)
    modifies lids, manager`overrides, manager`history
    ensures manager.Valid() && lids.Valid() && (reply.SendTo? ==> !IsLid(reply.to))
    ensures var before, after := old(manager.HistoryOf(session)), manager.HistoryOf(session);
            var rejects := RejectsAfter(before, manager.env, manager.defaults);
            var message := MessageAfter(after, manager.env, manager.defaults);
            && after == before + (if rejects && manager.CanLoad(session) then loads else [])
            && reply == ReplyFor(old(lids.entries), session, rejects, message, ready, creator, clock, store)
            && lids.entries == AfterReply(old(lids.entries), others, session, rejects, message, ready, creator,
                                          clock, store)
    ensures var before := old(manager.HistoryOf(session));
            var rejects := RejectsAfter(before, manager.env, manager.defaults);
            WordedByLoads(before, if rejects && manager.CanLoad(session) then loads else [], manager.env, reply)
  {
    ghost var before := manager.HistoryOf(session);
    var rejects := manager.GetRejectCalls(session);
    ghost var more := if rejects && manager.CanLoad(session) then loads else [];
    ReplyIsWordedByLoads(before, more, manager.env, manager.defaults, lids.entries, session, ready, creator,
                         clock, store);
    if !rejects {
      return NotRejected;
    }
    reply := AnswerRejectedCall(manager, loads, lids, others, session, ready, creator, clock, store);
  }
}
