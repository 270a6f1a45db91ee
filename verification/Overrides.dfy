/** Per-session settings loaded from the shared configuration, and the settings in effect. Which
    environment variables are set is fixed for a run of the program. */
module Overrides {
  import opened Text

  /** The variables REJECT_CALLS, REJECT_CALLS_MESSAGE, MARK_READ_ON_MESSAGE,
      IGNORE_STATUS_BROADCAST, IGNORE_NEWSLETTERS and ALWAYS_ONLINE: true if set. */
  datatype Env = Env(rejectCalls: bool, rejectMsg: bool, markRead: bool,
                     ignoreStatus: bool, ignoreNews: bool, alwaysOnline: bool)

  /** A fetched configuration; a missing field is None. */
  datatype Config = Config(rejectCalls: string, readOnReceipt: Option<bool>,
                           ignoreStatuses: Option<bool>, ignoreNewsletters: Option<bool>,
                           alwaysOnline: Option<bool>, everySeconds: Option<int>)

  datatype Overrides = Overrides(rejectCalls: Option<bool>, rejectMsg: Option<string>, autoMarkRead: Option<bool>,
                                 ignoreStatusBroadcast: Option<bool>, ignoreNewsletters: Option<bool>,
                                 alwaysOnline: Option<bool>, alwaysOnlineEvery: Option<int>)

  const NO_OVERRIDES := Overrides(None, None, None, None, None, None, None)

  const SECOND := 1_000_000_000

  /** A product of 64-bit integers, with wrap-around. */
  function Wrap64(x: int): (r: int)
    ensures -0x8000_0000_0000_0000 <= r < 0x8000_0000_0000_0000
    ensures exists k :: x == r + k * 0x1_0000_0000_0000_0000
  {
    assert x == x % 0x1_0000_0000_0000_0000 + (x / 0x1_0000_0000_0000_0000) * 0x1_0000_0000_0000_0000;
    assert x == x % 0x1_0000_0000_0000_0000 - 0x1_0000_0000_0000_0000
                + (x / 0x1_0000_0000_0000_0000 + 1) * 0x1_0000_0000_0000_0000;
    var u := x % 0x1_0000_0000_0000_0000;
    if u < 0x8000_0000_0000_0000 then u else u - 0x1_0000_0000_0000_0000
  }

  /** Seconds as a duration in nanoseconds. */
  function Duration(seconds: int): int { Wrap64(seconds * SECOND) }

  // ---- one load

  function Update<T>(envSet: bool, before: Option<T>, carried: Option<T>): Option<T>
  {
    if !envSet && carried.Some? then carried else before
  }

  function CarriedMsg(cfg: Config): Option<string>
  {
    if Trim(cfg.rejectCalls) != "" then Some(Trim(cfg.rejectCalls)) else None
  }

  function CarriedEvery(cfg: Config): Option<int>
  {
    if cfg.everySeconds.Some? && cfg.everySeconds.value > 0 then Some(Duration(cfg.everySeconds.value)) else None
  }

  /** The record after one load: each field is overwritten if its variable is not set and the
      configuration carries it; a blank reject text switches rejection off but keeps the message. */
  method LoadInto(before: Overrides, env: Env, cfg: Config) returns (ov: Overrides)
    ensures ov == Loaded(before, env, cfg)
  {
    ov := before;
    if !env.rejectCalls {
      ov := ov.(rejectCalls := Some(Trim(cfg.rejectCalls) != ""));
    }
    if !env.rejectMsg {
      var val := Trim(cfg.rejectCalls);
      if val != "" {
        ov := ov.(rejectMsg := Some(val));
      }
    }
    if !env.markRead && cfg.readOnReceipt.Some? {
      ov := ov.(autoMarkRead := cfg.readOnReceipt);
    }
    if !env.ignoreStatus && cfg.ignoreStatuses.Some? {
      ov := ov.(ignoreStatusBroadcast := cfg.ignoreStatuses);
    }
    if !env.ignoreNews && cfg.ignoreNewsletters.Some? {
      ov := ov.(ignoreNewsletters := cfg.ignoreNewsletters);
    }
    if !env.alwaysOnline {
      if cfg.alwaysOnline.Some? {
        ov := ov.(alwaysOnline := cfg.alwaysOnline);
      }
      if cfg.everySeconds.Some? && cfg.everySeconds.value > 0 {
        ov := ov.(alwaysOnlineEvery := Some(Duration(cfg.everySeconds.value)));
      }
    }
  }

  function Loaded(ov: Overrides, env: Env, cfg: Config): Overrides
  {
    Overrides(Update(env.rejectCalls, ov.rejectCalls, Some(Trim(cfg.rejectCalls) != "")),
              Update(env.rejectMsg, ov.rejectMsg, CarriedMsg(cfg)),
              Update(env.markRead, ov.autoMarkRead, cfg.readOnReceipt),
              Update(env.ignoreStatus, ov.ignoreStatusBroadcast, cfg.ignoreStatuses),
              Update(env.ignoreNews, ov.ignoreNewsletters, cfg.ignoreNewsletters),
              Update(env.alwaysOnline, ov.alwaysOnline, cfg.alwaysOnline),
              Update(env.alwaysOnline, ov.alwaysOnlineEvery, CarriedEvery(cfg)))
  }

  // ---- any number of loads

  /** The record after a history of loads. */
  function AfterLoads(env: Env, history: seq<Config>): Overrides
  {
    if |history| == 0 then NO_OVERRIDES
    else Loaded(AfterLoads(env, history[..|history| - 1]), env, history[|history| - 1])
  }

  lemma OneMoreLoad(env: Env, history: seq<Config>, cfg: Config)
    ensures AfterLoads(env, history + [cfg]) == Loaded(AfterLoads(env, history), env, cfg)
  {
    assert (history + [cfg])[..|history|] == history;
  }

  /** What the latest load that carries a field says about it. */
  function Latest<T>(history: seq<Config>, field: Config -> Option<T>): Option<T>
  {
    if |history| == 0 then None
    else if field(history[|history| - 1]).Some? then field(history[|history| - 1])
    else Latest(history[..|history| - 1], field)
  }

  /** The i-th load carries the field, and no later one does. */
  ghost predicate LastCarrier<T>(history: seq<Config>, field: Config -> Option<T>, i: nat)
  {
    i < |history| && field(history[i]).Some? && forall k :: i < k < |history| ==> field(history[k]).None?
  }

  /** `Latest` in words: the value of the last load that carries the field. */
  lemma {:induction false} LatestMeaning<T>(history: seq<Config>, field: Config -> Option<T>)
    ensures Latest(history, field).None? <==> forall i :: 0 <= i < |history| ==> field(history[i]).None?
    ensures forall i: nat :: LastCarrier(history, field, i) ==> Latest(history, field) == field(history[i])
  {
    if |history| > 0 {
      var n := |history| - 1;
      LatestMeaning(history[..n], field);
      forall i: nat | LastCarrier(history, field, i) ensures Latest(history, field) == field(history[i]) {
        if i < n {
          assert LastCarrier(history[..n], field, i);
        }
      }
    }
  }

  /** After any history of loads with a fixed environment, a field whose variable is set is never
      overridden; any other follows the latest load that carried it. */
  lemma {:induction false} LoadsFollowLatest(env: Env, history: seq<Config>)
    ensures var ov := AfterLoads(env, history);
            && ov.rejectCalls == (if env.rejectCalls then None
                                  else Latest(history, (c: Config) => Some(Trim(c.rejectCalls) != "")))
            && ov.rejectMsg == (if env.rejectMsg then None else Latest(history, CarriedMsg))
            && ov.autoMarkRead == (if env.markRead then None else Latest(history, (c: Config) => c.readOnReceipt))
            && ov.ignoreStatusBroadcast == (if env.ignoreStatus then None
                                            else Latest(history, (c: Config) => c.ignoreStatuses))
            && ov.ignoreNewsletters == (if env.ignoreNews then None
                                        else Latest(history, (c: Config) => c.ignoreNewsletters))
            && ov.alwaysOnline == (if env.alwaysOnline then None else Latest(history, (c: Config) => c.alwaysOnline))
            && ov.alwaysOnlineEvery == (if env.alwaysOnline then None else Latest(history, CarriedEvery))
  {
    if |history| > 0 {
      LoadsFollowLatest(env, history[..|history| - 1]);
    }
  }

  // ---- the settings in effect

  /** The manager's own settings. */
  datatype Defaults = Defaults(rejectCalls: bool, rejectMsg: string, autoMarkRead: bool,
                               ignoreStatusBroadcast: bool, ignoreNewsletters: bool)

  /** The always-online settings of the manager: switched on or not, and the interval. */
  datatype Online = Online(enabled: bool, every: int)

  function Effective<T>(loaded: Option<T>, fallback: T): T
  {
    if loaded.Some? then loaded.value else fallback
  }

  function ShouldRun(online: Online, ov: Overrides): bool { Effective(ov.alwaysOnline, online.enabled) }

  function Interval(online: Online, ov: Overrides): int
  {
    if ov.alwaysOnlineEvery.Some? && ov.alwaysOnlineEvery.value > 0 then ov.alwaysOnlineEvery.value else online.every
  }

  /** With both reject variables unset, calls are rejected by override exactly when the latest load
      carried a reject text, and the reply is then that very text; a load without one stops the
      rejection whatever was loaded before. */
  lemma RejectionUsesItsOwnMessage(env: Env, history: seq<Config>, defaults: Defaults)
    requires !env.rejectCalls && !env.rejectMsg && |history| > 0
    ensures var ov, last := AfterLoads(env, history), history[|history| - 1];
            && ov.rejectCalls == Some(Trim(last.rejectCalls) != "")
            && (Effective(ov.rejectCalls, defaults.rejectCalls) ==>
                  Effective(ov.rejectMsg, defaults.rejectMsg) == Trim(last.rejectCalls) != "")
  {
    LoadsFollowLatest(env, history);
  }

  lemma {:induction false} LastCarrierExists<T>(history: seq<Config>, field: Config -> Option<T>, k: nat)
    returns (i: nat)
    requires k < |history| && field(history[k]).Some?
    ensures LastCarrier(history, field, i) && k <= i
  {
    var n := |history| - 1;
    if field(history[n]).Some? {
      i := n;
    } else {
      i := LastCarrierExists(history[..n], field, k);
    }
  }

  /** The two settings are read at two moments. Loads that come in between never leave a rejected
      call with a blank message: it is the text of the latest load that carried one. */
  lemma MessageAcrossLoads(env: Env, history: seq<Config>, more: seq<Config>, defaults: Defaults) returns (i: nat)
    requires !env.rejectCalls && !env.rejectMsg && |history| > 0
    requires Effective(AfterLoads(env, history).rejectCalls, defaults.rejectCalls)
    ensures |history| - 1 <= i && LastCarrier(history + more, CarriedMsg, i)
    ensures Effective(AfterLoads(env, history + more).rejectMsg, defaults.rejectMsg)
         == Trim((history + more)[i].rejectCalls) != ""
  {
    LoadsFollowLatest(env, history);
    LoadsFollowLatest(env, history + more);
    i := LastCarrierExists(history + more, CarriedMsg, |history| - 1);
    LatestMeaning(history + more, CarriedMsg);
  }

  /** Variables that are set keep the manager's values through every history. */
  lemma EnvironmentWins(env: Env, history: seq<Config>, defaults: Defaults, online: Online)
    ensures var ov := AfterLoads(env, history);
            && (env.rejectCalls ==> Effective(ov.rejectCalls, defaults.rejectCalls) == defaults.rejectCalls)
            && (env.rejectMsg ==> Effective(ov.rejectMsg, defaults.rejectMsg) == defaults.rejectMsg)
            && (env.markRead ==> Effective(ov.autoMarkRead, defaults.autoMarkRead) == defaults.autoMarkRead)
            && (env.ignoreStatus ==>
                  Effective(ov.ignoreStatusBroadcast, defaults.ignoreStatusBroadcast) == defaults.ignoreStatusBroadcast)
            && (env.ignoreNews ==>
                  Effective(ov.ignoreNewsletters, defaults.ignoreNewsletters) == defaults.ignoreNewsletters)
            && (env.alwaysOnline ==> ShouldRun(online, ov) == online.enabled && Interval(online, ov) == online.every)
  {
    LoadsFollowLatest(env, history);
  }

  /** The interval is positive exactly when the manager's is or an effective load, the latest one
      with a positive number of seconds, gave a duration that is positive in 64 bits. */
  lemma IntervalPositive(env: Env, history: seq<Config>, online: Online)
    ensures var every := Latest(history, CarriedEvery);
            Interval(online, AfterLoads(env, history)) > 0 <==>
            online.every > 0 || (!env.alwaysOnline && every.Some? && every.value > 0)
  {
    LoadsFollowLatest(env, history);
  }

  /** Whether a refresher runs and how often, after any history: the variable keeps the manager's
      settings; otherwise the latest loaded flag and the latest loaded duration, if it is positive, go
      before the manager's. */
  lemma SettingsFollowLoads(env: Env, history: seq<Config>, online: Online)
    ensures var ov := AfterLoads(env, history);
            var flag, every := Latest(history, (c: Config) => c.alwaysOnline), Latest(history, CarriedEvery);
            && ShouldRun(online, ov) == (if !env.alwaysOnline && flag.Some? then flag.value else online.enabled)
            && Interval(online, ov) == (if !env.alwaysOnline && every.Some? && every.value > 0 then every.value
                                        else online.every)
  {
    LoadsFollowLatest(env, history);
  }

  /** On the loads themselves: the last positive number of seconds is the interval, in nanoseconds, and
      the last flag decides, whatever the manager's settings are. */
  lemma LastLoadDecides(env: Env, history: seq<Config>, online: Online, i: nat, j: nat)
    requires !env.alwaysOnline
    requires i < |history| && history[i].everySeconds.Some? && 0 < history[i].everySeconds.value <= 9_223_372_036
    requires forall k :: i < k < |history| ==> history[k].everySeconds.None? || history[k].everySeconds.value <= 0
    requires j < |history| && history[j].alwaysOnline.Some?
    requires forall k :: j < k < |history| ==> history[k].alwaysOnline.None?
    ensures Interval(online, AfterLoads(env, history)) == history[i].everySeconds.value * 1_000_000_000
    ensures ShouldRun(online, AfterLoads(env, history)) == history[j].alwaysOnline.value
  {
    var flag := (c: Config) => c.alwaysOnline;
    SettingsFollowLoads(env, history, online);
    LoadsFollowLatest(env, history);
    LatestMeaning(history, CarriedEvery);
    LatestMeaning(history, flag);
    assert LastCarrier(history, CarriedEvery, i);
    assert LastCarrier(history, flag, j);
    DurationExact(history[i].everySeconds.value);
  }

  /** A refresher that is started must have a positive interval (its ticker panics otherwise). That
      fails exactly when a load switched it on while the manager was not enabled and no effective
      load gave a positive duration. */
  predicate StartsWithoutInterval(env: Env, history: seq<Config>, online: Online)
  {
    var ov := AfterLoads(env, history);
    ShouldRun(online, ov) && Interval(online, ov) <= 0
  }

  lemma StartsWithoutIntervalExactly(env: Env, history: seq<Config>, online: Online)
    requires online.enabled ==> online.every > 0
    ensures StartsWithoutInterval(env, history, online) <==>
            && online.every <= 0 && !env.alwaysOnline
            && Latest(history, (c: Config) => c.alwaysOnline) == Some(true)
            && !(Latest(history, CarriedEvery).Some? && Latest(history, CarriedEvery).value > 0)
  {
    LoadsFollowLatest(env, history);
  }

  /** The smallest such run: one load that only switches the refresher on. */
  lemma OneLoadStartsWithoutInterval(env: Env)
    requires !env.alwaysOnline
    ensures StartsWithoutInterval(env, [Config("", None, None, None, Some(true), None)], Online(false, 0))
  {
    var cfg := Config("", None, None, None, Some(true), None);
    assert [cfg][..0] == [];
    assert AfterLoads(env, [cfg]) == Loaded(NO_OVERRIDES, env, cfg);
  }

  /** In general it is that product modulo 2^64, read as a signed number. */
  lemma DurationWraps(seconds: int)
    ensures -0x8000_0000_0000_0000 <= Duration(seconds) < 0x8000_0000_0000_0000
    ensures exists k :: seconds * 1_000_000_000 == Duration(seconds) + k * 0x1_0000_0000_0000_0000
  {
    var r := Wrap64(seconds * SECOND);
  }

  /** Within 64 bits (up to about 292 years) a duration is the product it stands for. */
  lemma DurationExact(seconds: int)
    requires 0 < seconds <= 9_223_372_036
    ensures Duration(seconds) == seconds * 1_000_000_000 > 0
  {
  }
}
