/** Per-topic logging switches of ts/utils/logger.ts: `LogManager` and the
    `enabled` flag of the loggers it hands out.

    A logger is identified by its topic (the manager keeps at most one per
    topic), so the cache of loggers is a map from topic to the logger's flag.
    The source's `enabledTopics` and `disabledTopics` maps only ever hold `true`
    and are only asked `has`, so they are sets here. */
module Logging {

  datatype LogManager = LogManager(
    loggers: map<string, bool>,   // `topics`: topic -> that logger's `enabled`
    omni: bool,
    enabledTopics: set<string>,
    disabledTopics: set<string>)

  /** `new LogManager()`: no loggers, every topic off. */
  function NewLogManager(): (m: LogManager)
    ensures m.loggers == map[] && Coherent(m)
    ensures forall t :: !IsTopicEnabled(m, t)
  {
    LogManager(map[], false, {}, {})
  }

  /** `isTopicEnabled(topic)`: an explicit disable wins; otherwise the topic is
      on when everything is on or it was enabled by name. */
  function IsTopicEnabled(m: LogManager, topic: string): (r: bool)
    ensures topic in m.disabledTopics ==> !r
    ensures topic !in m.disabledTopics && m.omni ==> r
    ensures topic !in m.disabledTopics && topic in m.enabledTopics ==> r
    ensures !m.omni && topic !in m.enabledTopics ==> !r
  {
    topic !in m.disabledTopics && (m.omni || topic in m.enabledTopics)
  }

  /** Every cached logger's flag agrees with `isTopicEnabled` of its topic. */
  predicate Coherent(m: LogManager)
  {
    forall t :: t in m.loggers ==> m.loggers[t] == IsTopicEnabled(m, t)
  }

  /** `LoggerImpl.isEnabled` of the logger cached for `topic`. */
  function IsEnabled(m: LogManager, topic: string): (r: bool)
    requires topic in m.loggers
    ensures Coherent(m) ==> (r <==> IsTopicEnabled(m, topic))
  {
    m.loggers[topic]
  }

  /** `enableTopic(topic)`: the topic becomes enabled by name and stops being
      disabled; its logger, if any, is switched on. No other topic changes. */
  function EnableTopic(m: LogManager, topic: string): (r: LogManager)
    ensures IsTopicEnabled(r, topic)
    ensures forall t :: t != topic ==> (IsTopicEnabled(r, t) <==> IsTopicEnabled(m, t))
    ensures r.loggers.Keys == m.loggers.Keys && r.omni == m.omni
    ensures topic in r.loggers ==> r.loggers[topic]
    ensures forall t :: t in m.loggers && t != topic ==> r.loggers[t] == m.loggers[t]
    ensures Coherent(m) ==> Coherent(r)
  {
    var loggers := if topic in m.loggers then m.loggers[topic := true] else m.loggers;
    LogManager(loggers, m.omni, m.enabledTopics + {topic}, m.disabledTopics - {topic})
  }

  /** `disableTopic(topic)`: the topic becomes disabled, whatever else holds;
      it stays in the enabled set, which an explicit disable overrides. Its
      logger, if any, is switched off. No other topic changes. */
  function DisableTopic(m: LogManager, topic: string): (r: LogManager)
    ensures !IsTopicEnabled(r, topic)
    ensures forall t :: t != topic ==> (IsTopicEnabled(r, t) <==> IsTopicEnabled(m, t))
    ensures r.enabledTopics == m.enabledTopics
    ensures r.loggers.Keys == m.loggers.Keys && r.omni == m.omni
    ensures topic in r.loggers ==> !r.loggers[topic]
    ensures forall t :: t in m.loggers && t != topic ==> r.loggers[t] == m.loggers[t]
    ensures Coherent(m) ==> Coherent(r)
  {
    var loggers := if topic in m.loggers then m.loggers[topic := false] else m.loggers;
    LogManager(loggers, m.omni, m.enabledTopics, m.disabledTopics + {topic})
  }

  /** Sets every cached logger's flag to `on`. */
  function SetAll(loggers: map<string, bool>, on: bool): (r: map<string, bool>)
    ensures r.Keys == loggers.Keys
    ensures forall t :: t in r ==> r[t] == on
  {
    map t | t in loggers :: on
  }

  /** `enableAllTopics()`: every topic on, per-topic overrides forgotten, every
      logger switched on. */
  function EnableAllTopics(m: LogManager): (r: LogManager)
    ensures forall t :: IsTopicEnabled(r, t)
    ensures r.enabledTopics == {} && r.disabledTopics == {}
    ensures r.loggers.Keys == m.loggers.Keys && forall t :: t in r.loggers ==> r.loggers[t]
    ensures Coherent(r)
  {
    LogManager(SetAll(m.loggers, true), true, {}, {})
  }

  /** `disableAllTopics()`: every topic off, per-topic overrides forgotten,
      every logger switched off. */
  function DisableAllTopics(m: LogManager): (r: LogManager)
    ensures forall t :: !IsTopicEnabled(r, t)
    ensures r.enabledTopics == {} && r.disabledTopics == {}
    ensures r.loggers.Keys == m.loggers.Keys && forall t :: t in r.loggers ==> !r.loggers[t]
    ensures Coherent(r)
  {
    LogManager(SetAll(m.loggers, false), false, {}, {})
  }

  /** `getLogger(topic)`: the cached logger if there is one, and otherwise a new
      one, cached, whose flag is `isTopicEnabled(topic)`. The topic switches
      are not touched. */
  function GetLogger(m: LogManager, topic: string): (r: LogManager)
    ensures topic in r.loggers
    ensures r.loggers.Keys == m.loggers.Keys + {topic}
    ensures forall t :: t in m.loggers ==> r.loggers[t] == m.loggers[t]
    ensures topic !in m.loggers ==> r.loggers[topic] == IsTopicEnabled(m, topic)
    ensures r.omni == m.omni && r.enabledTopics == m.enabledTopics && r.disabledTopics == m.disabledTopics
    ensures Coherent(m) ==> Coherent(r)
  {
    if topic in m.loggers then m
    else m.(loggers := m.loggers[topic := IsTopicEnabled(m, topic)])
  }

  /** Asking twice for the same topic's logger changes nothing the second time. */
  lemma GetLoggerIdempotent(m: LogManager, topic: string)
    ensures GetLogger(GetLogger(m, topic), topic) == GetLogger(m, topic)
  {
  }

  /** A call on a `LogManager`. */
  datatype Call =
    | Enable(topic: string)
    | Disable(topic: string)
    | EnableAll
    | DisableAll
    | Get(topic: string)

  function Apply(m: LogManager, c: Call): LogManager
  {
    match c
    case Enable(t) => EnableTopic(m, t)
    case Disable(t) => DisableTopic(m, t)
    case EnableAll => EnableAllTopics(m)
    case DisableAll => DisableAllTopics(m)
    case Get(t) => GetLogger(m, t)
  }

  /** The manager after a sequence of calls. */
  function ApplyAll(m: LogManager, calls: seq<Call>): LogManager
    decreases |calls|
  {
    if |calls| == 0 then m else ApplyAll(Apply(m, calls[0]), calls[1..])
  }

  /** Whatever calls are made on a fresh manager, every logger it has handed
      out reports exactly `isTopicEnabled` of its topic. */
  lemma {:induction false} LoggersTrackTopics(calls: seq<Call>)
    ensures Coherent(ApplyAll(NewLogManager(), calls))
  {
    ApplyAllKeepsCoherence(NewLogManager(), calls);
  }

  lemma {:induction false} ApplyAllKeepsCoherence(m: LogManager, calls: seq<Call>)
    requires Coherent(m)
    ensures Coherent(ApplyAll(m, calls))
    decreases |calls|
  {
    if |calls| > 0 {
      ApplyAllKeepsCoherence(Apply(m, calls[0]), calls[1..]);
    }
  }
}
