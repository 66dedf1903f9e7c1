/** The data model shared by the parser, the rule engine and the simulation:
    values held in memories and contexts, rules, log entries and the parsed
    definition of a monad. */
module Values {
  import opened Wrappers

  /** A monad's state: a symbol, or `None`. */
  type State = Option<string>

  /** A relative grid position `(dx, dy)`. */
  type Offset = (int, int)

  /** The Python values the interpreter itself creates or inspects: integers
      and texts from memory literals, tick numbers, and the neighbour map the
      simulation puts into a context. Any other value (a float from the
      driver, a value an action computes) is `Other`, known by its `repr`. */
  datatype Value =
    | IntV(i: int)
    | TextV(s: string)
    | NeighborsV(states: map<Offset, State>)
    | OtherV(repr: string)

  /** A monad's memory; a later assignment to a key replaces the earlier one. */
  type Memory = map<string, Value>

  /** The read-only variables a condition or action sees. */
  type Context = map<string, Value>

  datatype RuleType = FieldType | TickType

  /** A rule: a field rule with its condition or a tick rule with its trigger,
      each with the text of its action. */
  datatype Rule =
    | FieldRule(condition: string, action: string)
    | TickRule(trigger: string, action: string)
  {
    function Kind(): RuleType {
      if FieldRule? then FieldType else TickType
    }

    /** The condition of a field rule or the trigger of a tick rule. */
    function Guard(): string {
      if FieldRule? then condition else trigger
    }
  }

  /** A state change made by a rule's action. `tick` is the context's `t`
      entry, or -1 when the context has none. */
  datatype TraceEntry = TraceEntry(tick: Value, ruleType: RuleType, condition: string,
                                   prevState: State, newState: State)

  /** A rule installed at run time, with the raw text it was parsed from. */
  datatype Mutation = Mutation(tick: int, ruleType: RuleType, source: string, rule: string)

  /** The result of parsing a definition. */
  datatype MonadDefinition = MonadDefinition(name: string, state: State, memory: Memory,
                                             rules: seq<Rule>, metaRules: seq<string>)
}
