/** The values the evaluation engine works on. */
module Domain {
  import opened Bytes
  import opened Int64
  import opened Options

  type Key = ByteString

  /** A json.RawMessage; None is nil. */
  type RawMessage = Option<ByteString>

  /** A decoded JSON value. The engine only distinguishes booleans from everything else. */
  datatype Value = Nil | Boolean(b: bool) | Other(json: ByteString)

  datatype FlagType = FlagTypeBoolean | FlagTypeString | FlagTypeNumber | FlagTypeJSON | FlagTypeAB
                    | FlagTypeUnknown(name: ByteString)

  /** MatchUnset is the empty string, which validation accepts. */
  datatype MatchType = MatchAll | MatchAny | MatchUnset | MatchUnknown(name: ByteString)

  datatype Condition = Condition(attribute: ByteString, operator: ByteString, values: seq<ByteString>)

  datatype Variant = Variant(key: Key, value: RawMessage, weight: int64)

  datatype TargetingRule = TargetingRule(
    id: ByteString, priority: int, conditions: seq<Condition>, segmentKeys: seq<Key>,
    percentage: int, value: RawMessage, matchType: MatchType)

  /** expiresAt is in nanoseconds since the zero time, which is 0. */
  datatype Flag = Flag(
    flagType: FlagType, defaultValue: RawMessage, expiresAt: Option<int>,
    prerequisites: seq<Key>, mutualExclusionGroup: ByteString)

  datatype FlagState = FlagState(
    flagID: ByteString, envID: ByteString, enabled: bool, defaultValue: RawMessage,
    rules: seq<TargetingRule>, percentageRollout: int, variants: seq<Variant>)

  datatype Segment = Segment(matchType: MatchType, rules: seq<Condition>)

  datatype Ruleset = Ruleset(flags: map<Key, Flag>, states: map<Key, FlagState>, segments: map<Key, Segment>)

  datatype EvalContext = EvalContext(key: Key, attributes: map<ByteString, Value>)

  datatype Reason = ReasonTargeted | ReasonRollout | ReasonFallthrough | ReasonVariant
                  | ReasonNotFound | ReasonDisabled | ReasonPrerequisiteFailed | ReasonMutuallyExcluded

  datatype EvalResult = EvalResult(flagKey: Key, value: Value, reason: Reason, variantKey: Key)

  /** A result that names no variant. */
  function Result(flagKey: Key, value: Value, reason: Reason): EvalResult {
    EvalResult(flagKey, value, reason, [])
  }

  /**
   What the engine takes from its surroundings: the clock reading shared by one top-level evaluation,
   the test of a single condition, the JSON decoder, and the library sort. sort.Slice is not stable, so
   all that is assumed of it (in Rules.SortsByPriority) is that it permutes the rules into priority order.
   */
  datatype Runtime = Runtime(
    now: int,
    matchCondition: (Condition, EvalContext) -> bool,
    decodeJSON: ByteString -> Option<Value>,
    sortRules: seq<TargetingRule> -> seq<TargetingRule>)

  /** nil and undecodable messages both become nil. */
  function ParseJSONValue(rt: Runtime, raw: RawMessage): (v: Value)
    ensures v == Nil || (raw.Some? && rt.decodeJSON(raw.value) == Some(v))
    ensures forall json, w | raw == Some(json) && rt.decodeJSON(json) == Some(w) :: v == w
  {
    match raw
    case None => Nil
    case Some(json) =>
      match rt.decodeJSON(json)
      case None => Nil
      case Some(v) => v
  }
}
