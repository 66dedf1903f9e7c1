/** `Monad`: a running instance of a definition, its rule engine, the run-time
    rule installer used by meta-rules, and its adequacy score.

    Conditions, actions and meta-scripts are Python code run by `eval` and
    `exec`; here they are the three functions of an `Engine`, chosen by the
    caller. What the interpreter itself decides (which rules run, in which
    order, under which condition text, what is logged and what survives an
    exception) is modelled exactly. */
module MonadRuntime {
  import opened Wrappers
  import opened Text
  import opened Patterns
  import opened Values

  /** What running one action did before it finished or raised: the last
      value it passed to the `state` setter, if it called it; the memory
      after its writes through `memory.<key> = ...`; and whether it raised. */
  datatype ActionOutcome = ActionOutcome(setState: Option<State>, memory: Memory, failed: bool)

  /** What running one meta-script did: the last value passed to the `state`
      setter, if any; the memory after its writes; and the texts it passed to
      `add_rule`, in order. An exception leaves the effects made before it,
      so a failing script is described the same way. */
  datatype MetaOutcome = MetaOutcome(setState: Option<State>, memory: Memory, added: seq<string>)

  /** The Python code runner: `eval` of a condition over a context (`None`
      when it raises; otherwise its truth value), `exec` of an action with the
      monad's memory and a context, and `exec` of a meta-script with the
      monad's memory. */
  datatype Engine = Engine(
    eval: (string, Context) -> Option<bool>,
    exec: (string, Memory, Context) -> ActionOutcome,
    meta: (string, Memory) -> MetaOutcome)

  datatype Monad = Monad(
    name: string,
    state: State,
    memory: Memory,
    rules: seq<Rule>,
    metaRules: seq<string>,
    ruleHistory: seq<string>,
    lastTriggered: seq<(RuleType, string)>,
    traceLog: seq<TraceEntry>,
    ruleMutations: seq<Mutation>)

  // ---------------------------------------------------------------------------
  // Bookkeeping invariant

  /** The rules installed at run time are the last ones of the rule list,
      one per mutation entry, and each mutation entry records the text of the
      matching history entry, the rule's type, tick -1 and source "meta". */
  predicate WellFormed(m: Monad) {
    |m.ruleMutations| == |m.ruleHistory| <= |m.rules|
    && forall i :: 0 <= i < |m.ruleMutations| ==>
         m.ruleMutations[i] == Mutation(-1, m.rules[|m.rules| - |m.ruleMutations| + i].Kind(), "meta", m.ruleHistory[i])
  }

  /** `Monad.__init__`: a copy of the definition with every log empty. */
  function NewMonad(d: MonadDefinition): (m: Monad)
    ensures m.name == d.name && m.state == d.state && m.memory == d.memory
    ensures m.rules == d.rules && m.metaRules == d.metaRules
    ensures m.ruleHistory == [] && m.lastTriggered == [] && m.traceLog == [] && m.ruleMutations == []
    ensures WellFormed(m)
  {
    Monad(d.name, d.state, d.memory, d.rules, d.metaRules, [], [], [], [])
  }

  /** The parts of a monad that running rules never touches. */
  predicate SameProgram(m: Monad, r: Monad) {
    r.name == m.name && r.rules == m.rules && r.metaRules == m.metaRules
    && r.ruleHistory == m.ruleHistory && r.ruleMutations == m.ruleMutations
  }

  // ---------------------------------------------------------------------------
  // Running rules

  /** The condition text a rule is run under: its condition or trigger, or
      `"True"` when that is empty. */
  function ConditionOf(r: Rule): (c: string)
    ensures c != []
    ensures r.Guard() != [] ==> c == r.Guard()
  {
    if r.Guard() != [] then r.Guard() else "True"
  }

  /** The outcome of evaluating a condition. `True` is a Python keyword, so
      that text is true whatever the context holds. */
  function Test(e: Engine, cond: string, ctx: Context): Option<bool> {
    if cond == "True" then Some(true) else e.eval(cond, ctx)
  }

  predicate Fires(e: Engine, r: Rule, ctx: Context) {
    Test(e, ConditionOf(r), ctx) == Some(true)
  }

  /** A rule with an empty condition or trigger runs under `"True"` and so
      fires in every context, whatever the evaluator. */
  lemma EmptyGuardFires(e: Engine, r: Rule, ctx: Context)
    requires r.Guard() == []
    ensures ConditionOf(r) == "True" && Fires(e, r, ctx)
  {
  }

  /** The tick a trace entry records: the context's `t`, or -1. */
  function TickOf(ctx: Context): Value {
    if "t" in ctx then ctx["t"] else IntV(-1)
  }

  /** One rule whose type was selected. When its condition holds, the action
      runs with the `state` setter and the memory proxy, unless the context
      has entries of those names, which shadow them. An action that raises
      keeps the changes it made but leaves no log entry; one that completes
      is recorded in `lastTriggered`, and in the trace if the state moved. */
  function ApplyRule(e: Engine, m: Monad, r: Rule, ctx: Context): (m': Monad)
    ensures SameProgram(m, m')
    ensures !Fires(e, r, ctx) ==> m' == m
    ensures var out := e.exec(r.action, m.memory, ctx);
            Fires(e, r, ctx) ==>
              && m'.state == (if out.setState.Some? && "state" !in ctx then out.setState.value else m.state)
              && m'.memory == (if "memory" !in ctx then out.memory else m.memory)
    ensures var out := e.exec(r.action, m.memory, ctx);
            Fires(e, r, ctx) && out.failed ==> m'.traceLog == m.traceLog && m'.lastTriggered == m.lastTriggered
    ensures var out := e.exec(r.action, m.memory, ctx);
            Fires(e, r, ctx) && !out.failed ==>
              && m'.lastTriggered == m.lastTriggered + [(r.Kind(), ConditionOf(r))]
              && m'.traceLog == m.traceLog + (if m'.state != m.state
                                              then [TraceEntry(TickOf(ctx), r.Kind(), ConditionOf(r), m.state, m'.state)]
                                              else [])
  {
    var cond := ConditionOf(r);
    if Test(e, cond, ctx) != Some(true) then m
    else
      var out := e.exec(r.action, m.memory, ctx);
      var state := if out.setState.Some? && "state" !in ctx then out.setState.value else m.state;
      var memory := if "memory" !in ctx then out.memory else m.memory;
      if out.failed then m.(state := state, memory := memory)
      else
        var entry := TraceEntry(TickOf(ctx), r.Kind(), cond, m.state, state);
        m.(state := state, memory := memory,
           traceLog := if state != m.state then m.traceLog + [entry] else m.traceLog,
           lastTriggered := m.lastTriggered + [(r.Kind(), cond)])
  }

  /** The rules of `kind`, in list order. */
  function OfKind(rs: seq<Rule>, kind: RuleType): (r: seq<Rule>)
    ensures |r| <= |rs|
    ensures forall i :: 0 <= i < |r| ==> r[i].Kind() == kind && r[i] in rs
    ensures forall x :: x in rs && x.Kind() == kind ==> x in r
  {
    if rs == [] then []
    else (if rs[0].Kind() == kind then [rs[0]] else []) + OfKind(rs[1..], kind)
  }

  /** Filtering distributes over concatenation: the rules of `kind` keep
      their relative order. */
  lemma {:induction false} OfKindAppend(a: seq<Rule>, b: seq<Rule>, kind: RuleType)
    ensures OfKind(a + b, kind) == OfKind(a, kind) + OfKind(b, kind)
    decreases |a|
  {
    if a == [] {
      assert a + b == b;
    } else {
      assert (a + b)[1..] == a[1..] + b;
      OfKindAppend(a[1..], b, kind);
    }
  }

  /** One rule is kept exactly when it has the kind asked for. */
  lemma OfKindSingle(x: Rule, kind: RuleType)
    ensures OfKind([x], kind) == if x.Kind() == kind then [x] else []
  {
    assert [x][1..] == [];
  }

  /** `(kind, cond)` is the entry some rule of `rs` of that kind leaves when
      it fires. */
  predicate FiredBy(e: Engine, entry: (RuleType, string), rs: seq<Rule>, ctx: Context) {
    exists x :: x in rs && x.Kind() == entry.0 && Fires(e, x, ctx) && entry.1 == ConditionOf(x)
  }

  /** A trace entry that a rule of `rs` of type `kind` could have written in
      context `ctx`: the tick of the context, a real change of state, and the
      condition of a rule of that type that fired. */
  predicate TracedBy(e: Engine, t: TraceEntry, rs: seq<Rule>, kind: RuleType, ctx: Context) {
    t.ruleType == kind && t.tick == TickOf(ctx) && t.prevState != t.newState
    && FiredBy(e, (kind, t.condition), rs, ctx)
  }

  lemma FiredByTail(e: Engine, entry: (RuleType, string), rs: seq<Rule>, ctx: Context)
    requires rs != [] && FiredBy(e, entry, rs[1..], ctx)
    ensures FiredBy(e, entry, rs, ctx)
  {
    var x :| x in rs[1..] && x.Kind() == entry.0 && Fires(e, x, ctx) && entry.1 == ConditionOf(x);
    assert x in rs;
  }

  /** The loop of `evaluate_rules` over `rs`: rules of other types are
      skipped, the rest applied in order. The logs only grow, by at most one
      `lastTriggered` entry per rule of the type and at most one trace entry
      per `lastTriggered` entry. */
  function RunRules(e: Engine, m: Monad, rs: seq<Rule>, kind: RuleType, ctx: Context): (m': Monad)
    ensures SameProgram(m, m')
    ensures m.traceLog <= m'.traceLog && m.lastTriggered <= m'.lastTriggered
    ensures |m'.traceLog| - |m.traceLog| <= |m'.lastTriggered| - |m.lastTriggered| <= |OfKind(rs, kind)|
    decreases |rs|
  {
    if rs == [] then m
    else
      var m1 := if rs[0].Kind() == kind then ApplyRule(e, m, rs[0], ctx) else m;
      assert OfKind(rs, kind) == (if rs[0].Kind() == kind then [rs[0]] else []) + OfKind(rs[1..], kind);
      RunRules(e, m1, rs[1..], kind, ctx)
  }

  /** Every entry a run adds to `lastTriggered` names the type and the
      condition of a rule of `rs` of that type that fired. */
  lemma {:induction false} RunRulesProvenance(e: Engine, m: Monad, rs: seq<Rule>, kind: RuleType, ctx: Context, m': Monad)
    requires m' == RunRules(e, m, rs, kind, ctx)
    ensures forall i :: |m.lastTriggered| <= i < |m'.lastTriggered| ==>
              m'.lastTriggered[i].0 == kind && FiredBy(e, m'.lastTriggered[i], rs, ctx)
    decreases |rs|
  {
    if rs != [] {
      var m1 := if rs[0].Kind() == kind then ApplyRule(e, m, rs[0], ctx) else m;
      assert m' == RunRules(e, m1, rs[1..], kind, ctx);
      RunRulesProvenance(e, m1, rs[1..], kind, ctx, m');
      assert rs[0] in rs;
      forall i | |m.lastTriggered| <= i < |m'.lastTriggered|
        ensures m'.lastTriggered[i].0 == kind && FiredBy(e, m'.lastTriggered[i], rs, ctx)
      {
        if i < |m1.lastTriggered| {
          assert m1.lastTriggered[i] == (rs[0].Kind(), ConditionOf(rs[0]));
        } else {
          FiredByTail(e, m'.lastTriggered[i], rs, ctx);
        }
      }
    }
  }

  /** The trace entry the first rule of `rs` leaves, if any, is traced by
      `rs`. */
  lemma ApplyRuleTracedBy(e: Engine, m: Monad, rs: seq<Rule>, kind: RuleType, ctx: Context)
    requires rs != [] && rs[0].Kind() == kind
    ensures var m1 := ApplyRule(e, m, rs[0], ctx);
            forall i :: |m.traceLog| <= i < |m1.traceLog| ==> TracedBy(e, m1.traceLog[i], rs, kind, ctx)
  {
    var m1 := ApplyRule(e, m, rs[0], ctx);
    assert rs[0] in rs;
    forall i | |m.traceLog| <= i < |m1.traceLog|
      ensures TracedBy(e, m1.traceLog[i], rs, kind, ctx)
    {
      assert m1.traceLog[i].condition == ConditionOf(rs[0]);
    }
  }

  /** Every entry a run adds to the trace is a real change of state,
      stamped with the context's tick, by a rule of `rs` of the type that
      fired. */
  lemma {:induction false} RunRulesTraceProvenance(e: Engine, m: Monad, rs: seq<Rule>, kind: RuleType, ctx: Context, m': Monad)
    requires m' == RunRules(e, m, rs, kind, ctx)
    ensures forall i :: |m.traceLog| <= i < |m'.traceLog| ==> TracedBy(e, m'.traceLog[i], rs, kind, ctx)
    decreases |rs|
  {
    if rs != [] {
      var m1 := if rs[0].Kind() == kind then ApplyRule(e, m, rs[0], ctx) else m;
      assert m' == RunRules(e, m1, rs[1..], kind, ctx);
      RunRulesTraceProvenance(e, m1, rs[1..], kind, ctx, m');
      assert rs[0] in rs;
      if rs[0].Kind() == kind {
        ApplyRuleTracedBy(e, m, rs, kind, ctx);
      }
      forall i | |m.traceLog| <= i < |m'.traceLog|
        ensures TracedBy(e, m'.traceLog[i], rs, kind, ctx)
      {
        if |m1.traceLog| <= i {
          FiredByTail(e, (kind, m'.traceLog[i].condition), rs, ctx);
        }
      }
    }
  }

  /** `evaluate_rules`: the monad's rules of `kind`, in list order, each under
      its condition; the rule list itself is never changed. */
  function EvaluateRules(e: Engine, m: Monad, kind: RuleType, ctx: Context): (m': Monad)
    ensures SameProgram(m, m')
    ensures WellFormed(m) ==> WellFormed(m')
    ensures m.traceLog <= m'.traceLog && m.lastTriggered <= m'.lastTriggered
    ensures |m'.traceLog| - |m.traceLog| <= |m'.lastTriggered| - |m.lastTriggered| <= |OfKind(m.rules, kind)|
    ensures forall i :: |m.lastTriggered| <= i < |m'.lastTriggered| ==>
              m'.lastTriggered[i].0 == kind && FiredBy(e, m'.lastTriggered[i], m.rules, ctx)
    ensures forall i :: |m.traceLog| <= i < |m'.traceLog| ==> TracedBy(e, m'.traceLog[i], m.rules, kind, ctx)
  {
    var m' := RunRules(e, m, m.rules, kind, ctx);
    RunRulesProvenance(e, m, m.rules, kind, ctx, m');
    RunRulesTraceProvenance(e, m, m.rules, kind, ctx, m');
    m'
  }

  /** The rules applied one after the other, whatever their type. */
  function ApplyAll(e: Engine, m: Monad, rs: seq<Rule>, ctx: Context): Monad
    decreases |rs|
  {
    if rs == [] then m else ApplyAll(e, ApplyRule(e, m, rs[0], ctx), rs[1..], ctx)
  }

  /** Type filtering: evaluating the rules of `kind` is applying, in order,
      exactly the rules of that type and no other. */
  lemma {:induction false} RunRulesFiltered(e: Engine, m: Monad, rs: seq<Rule>, kind: RuleType, ctx: Context)
    ensures RunRules(e, m, rs, kind, ctx) == ApplyAll(e, m, OfKind(rs, kind), ctx)
    decreases |rs|
  {
    if rs != [] {
      var m1 := if rs[0].Kind() == kind then ApplyRule(e, m, rs[0], ctx) else m;
      RunRulesFiltered(e, m1, rs[1..], kind, ctx);
      if rs[0].Kind() == kind {
        assert OfKind(rs, kind) == [rs[0]] + OfKind(rs[1..], kind);
        assert OfKind(rs, kind)[1..] == OfKind(rs[1..], kind);
      } else {
        assert OfKind(rs, kind) == OfKind(rs[1..], kind);
      }
    }
  }

  lemma EvaluateRulesFiltered(e: Engine, m: Monad, kind: RuleType, ctx: Context)
    ensures EvaluateRules(e, m, kind, ctx) == ApplyAll(e, m, OfKind(m.rules, kind), ctx)
  {
    RunRulesFiltered(e, m, m.rules, kind, ctx);
  }

  /** The entries a run leaves in `lastTriggered` when no action raises: one
      per rule of the type that fires, in list order. */
  function Fired(e: Engine, rs: seq<Rule>, ctx: Context): seq<(RuleType, string)>
    decreases |rs|
  {
    if rs == [] then []
    else (if Fires(e, rs[0], ctx) then [(rs[0].Kind(), ConditionOf(rs[0]))] else []) + Fired(e, rs[1..], ctx)
  }

  /** No action of `e` ever raises. */
  ghost predicate NeverFails(e: Engine) {
    forall a, mem, ctx :: !e.exec(a, mem, ctx).failed
  }

  /** The state changes of a run form a chain from `s0` to `s1`. */
  predicate Chain(s0: State, entries: seq<TraceEntry>, s1: State)
    decreases |entries|
  {
    if entries == [] then s0 == s1
    else entries[0].prevState == s0 && Chain(entries[0].newState, entries[1..], s1)
  }

  lemma {:induction false} ChainAppend(a: State, x: seq<TraceEntry>, b: State, y: seq<TraceEntry>, c: State)
    requires Chain(a, x, b) && Chain(b, y, c)
    ensures Chain(a, x + y, c)
    decreases |x|
  {
    if x != [] {
      ChainAppend(x[0].newState, x[1..], b, y, c);
      assert (x + y)[1..] == x[1..] + y;
    } else {
      assert x + y == y;
    }
  }

  /** One rule, when no action raises, is recorded exactly when it fires. */
  lemma ApplyRuleRecorded(e: Engine, m: Monad, r: Rule, ctx: Context)
    requires NeverFails(e)
    ensures ApplyRule(e, m, r, ctx).lastTriggered
            == m.lastTriggered + (if Fires(e, r, ctx) then [(r.Kind(), ConditionOf(r))] else [])
  {
    assert !e.exec(r.action, m.memory, ctx).failed;
  }

  /** One rule, when no action raises, leaves a trace entry exactly when it
      changes the state, linking the old state to the new one. */
  lemma ApplyRuleTraced(e: Engine, m: Monad, r: Rule, ctx: Context)
    requires NeverFails(e)
    ensures var m1 := ApplyRule(e, m, r, ctx);
            m.traceLog <= m1.traceLog && Chain(m.state, m1.traceLog[|m.traceLog|..], m1.state)
  {
    var m1 := ApplyRule(e, m, r, ctx);
    var d := m1.traceLog[|m.traceLog|..];
    assert !e.exec(r.action, m.memory, ctx).failed;
    if m1.state != m.state {
      assert d == [d[0]];
      assert Chain(d[0].newState, d[1..], m1.state);
    } else {
      assert d == [];
    }
  }

  /** The firing rules of the type among `rs`, peeled off at the front. */
  lemma FiredOfKindCons(e: Engine, rs: seq<Rule>, kind: RuleType, ctx: Context)
    requires rs != []
    ensures Fired(e, OfKind(rs, kind), ctx)
            == (if rs[0].Kind() == kind && Fires(e, rs[0], ctx) then [(rs[0].Kind(), ConditionOf(rs[0]))] else [])
               + Fired(e, OfKind(rs[1..], kind), ctx)
  {
    var ks := OfKind(rs, kind);
    if rs[0].Kind() == kind {
      assert ks == [rs[0]] + OfKind(rs[1..], kind);
      assert ks[0] == rs[0] && ks[1..] == OfKind(rs[1..], kind);
    } else {
      assert ks == OfKind(rs[1..], kind);
    }
  }

  /** When no action raises, `lastTriggered` gains exactly one entry per
      firing rule of the type, in list order. */
  lemma {:induction false} RunRulesFiredExactly(e: Engine, m: Monad, rs: seq<Rule>, kind: RuleType, ctx: Context, m': Monad)
    requires NeverFails(e)
    requires m' == RunRules(e, m, rs, kind, ctx)
    ensures m'.lastTriggered == m.lastTriggered + Fired(e, OfKind(rs, kind), ctx)
    decreases |rs|
  {
    if rs != [] {
      var m1 := if rs[0].Kind() == kind then ApplyRule(e, m, rs[0], ctx) else m;
      assert m' == RunRules(e, m1, rs[1..], kind, ctx);
      RunRulesFiredExactly(e, m1, rs[1..], kind, ctx, m');
      var first := if rs[0].Kind() == kind && Fires(e, rs[0], ctx) then [(rs[0].Kind(), ConditionOf(rs[0]))] else [];
      if rs[0].Kind() == kind {
        ApplyRuleRecorded(e, m, rs[0], ctx);
      }
      assert m1.lastTriggered == m.lastTriggered + first;
      FiredOfKindCons(e, rs, kind, ctx);
      AppendAssoc(m.lastTriggered, first, Fired(e, OfKind(rs[1..], kind), ctx));
    }
  }

  /** When no action raises, the trace records every state change: the new
      entries lead, one after the other, from the old state to the new. */
  lemma {:induction false} RunRulesTraceChain(e: Engine, m: Monad, rs: seq<Rule>, kind: RuleType, ctx: Context, m': Monad)
    requires NeverFails(e)
    requires m' == RunRules(e, m, rs, kind, ctx)
    ensures Chain(m.state, m'.traceLog[|m.traceLog|..], m'.state)
    decreases |rs|
  {
    if rs == [] {
      assert m'.traceLog[|m.traceLog|..] == [];
    } else {
      var m1 := if rs[0].Kind() == kind then ApplyRule(e, m, rs[0], ctx) else m;
      assert m' == RunRules(e, m1, rs[1..], kind, ctx);
      RunRulesTraceChain(e, m1, rs[1..], kind, ctx, m');
      if rs[0].Kind() == kind {
        ApplyRuleTraced(e, m, rs[0], ctx);
      } else {
        assert m1.traceLog[|m.traceLog|..] == [];
      }
      var d1 := m1.traceLog[|m.traceLog|..];
      var d2 := m'.traceLog[|m1.traceLog|..];
      SuffixSplit(m.traceLog, m1.traceLog, m'.traceLog);
      ChainAppend(m.state, d1, m1.state, d2, m'.state);
    }
  }

  /** `evaluate_field`: the field rules under the cell's context. */
  function EvaluateField(e: Engine, m: Monad, ctx: Context): (m': Monad)
    ensures SameProgram(m, m') && (WellFormed(m) ==> WellFormed(m'))
    ensures m.traceLog <= m'.traceLog && m.lastTriggered <= m'.lastTriggered
    ensures forall i :: |m.lastTriggered| <= i < |m'.lastTriggered| ==>
              m'.lastTriggered[i].0 == FieldType && FiredBy(e, m'.lastTriggered[i], m.rules, ctx)
    ensures forall i :: |m.traceLog| <= i < |m'.traceLog| ==> TracedBy(e, m'.traceLog[i], m.rules, FieldType, ctx)
  {
    EvaluateRules(e, m, FieldType, ctx)
  }

  /** `evaluate_tick`: the tick rules under a context holding only `t`; every
      trace entry it writes carries that tick. */
  function EvaluateTick(e: Engine, m: Monad, t: Value): (m': Monad)
    ensures SameProgram(m, m') && (WellFormed(m) ==> WellFormed(m'))
    ensures m.traceLog <= m'.traceLog && m.lastTriggered <= m'.lastTriggered
    ensures forall i :: |m.lastTriggered| <= i < |m'.lastTriggered| ==>
              m'.lastTriggered[i].0 == TickType && FiredBy(e, m'.lastTriggered[i], m.rules, map["t" := t])
    ensures forall i :: |m.traceLog| <= i < |m'.traceLog| ==>
              m'.traceLog[i].tick == t && TracedBy(e, m'.traceLog[i], m.rules, TickType, map["t" := t])
  {
    EvaluateRules(e, m, TickType, map["t" := t])
  }

  // ---------------------------------------------------------------------------
  // Installing rules at run time

  /** The rule a single-rule snippet describes under the pattern `pat`. */
  function SnippetRule(kind: RuleType, h: Hit): Rule {
    var guard := Strip(h.group1, Space);
    var action := Strip(h.group2, Space);
    if kind == FieldType then FieldRule(guard, action) else TickRule(guard, action)
  }

  /** The one rule `add_rule` reads from `block`, if any: a text mentioning
      `on field` is read only as a field rule, and only otherwise is `on tick`
      tried. */
  function ParseSnippet(block: string): (r: Option<Rule>)
    ensures Contains(block, "on field", 0) ==> (r.Some? <==> SearchIn(FieldSnippet, block).Some?)
    ensures Contains(block, "on field", 0) && r.Some? ==> r.value.FieldRule?
    ensures !Contains(block, "on field", 0) ==>
              (r.Some? <==> Contains(block, "on tick", 0) && SearchIn(TickSnippet, block).Some?)
    ensures !Contains(block, "on field", 0) && r.Some? ==> r.value.TickRule?
    ensures Contains(block, "on field", 0) && r.Some? ==>
              r.value == SnippetRule(FieldType, SearchIn(FieldSnippet, block).value)
    ensures !Contains(block, "on field", 0) && r.Some? ==>
              r.value == SnippetRule(TickType, SearchIn(TickSnippet, block).value)
  {
    if Contains(block, "on field", 0) then
      match SearchIn(FieldSnippet, block)
      case Some(h) => Some(SnippetRule(FieldType, h))
      case None => None
    else if Contains(block, "on tick", 0) then
      match SearchIn(TickSnippet, block)
      case Some(h) => Some(SnippetRule(TickType, h))
      case None => None
    else None
  }

  /** The snippet text `<kw>(<c>) {<a>}`. */
  function SnippetText(kw: string, c: string, a: string): string {
    kw + "(" + c + ") {" + a + "}"
  }

  /** A snippet `on field(<c>) {<a>}` after text without `on field` is read
      as the field rule with the stripped condition and action. */
  lemma FieldSnippetRoundTrip(pre: string, c: string, a: string, rest: string)
    requires !Contains(pre, "on field", 0)
    requires c != [] && ')' !in c && '}' !in a
    ensures ParseSnippet(pre + SnippetText("on field", c, a) + rest) == Some(FieldRule(Strip(c, Space), Strip(a, Space)))
  {
    var block := pre + SnippetText("on field", c, a) + rest;
    var h := FieldSnippetFound(pre, c, a, rest);
    assert OccursAt(block, "on field", |pre|);
    assert ParseSnippet(block) == Some(SnippetRule(FieldType, h));
  }

  lemma FieldSnippetFound(pre: string, c: string, a: string, rest: string) returns (h: Hit)
    requires !Contains(pre, "on field", 0)
    requires c != [] && ')' !in c && '}' !in a
    ensures SearchIn(FieldSnippet, pre + SnippetText("on field", c, a) + rest) == Some(h)
    ensures h == Hit(|pre|, |pre| + |SnippetText("on field", c, a)|, c, a)
  {
    h := SnippetBlockAt(pre, "on field", c, a, rest, false);
    SnippetSearched(FieldSnippet, pre, SnippetText("on field", c, a), rest, h);
  }

  /** A snippet `on tick(<c>) {<a>}`, in a text without `on field` and after
      text without `on tick`, is read as the tick rule with the stripped
      trigger and action; the trigger may be empty. */
  lemma TickSnippetRoundTrip(pre: string, c: string, a: string, rest: string)
    requires !Contains(pre + SnippetText("on tick", c, a) + rest, "on field", 0)
    requires !Contains(pre, "on tick", 0)
    requires ')' !in c && '}' !in a
    ensures ParseSnippet(pre + SnippetText("on tick", c, a) + rest) == Some(TickRule(Strip(c, Space), Strip(a, Space)))
  {
    var block := pre + SnippetText("on tick", c, a) + rest;
    var h := TickSnippetFound(pre, c, a, rest);
    assert OccursAt(block, "on tick", |pre|);
    assert ParseSnippet(block) == Some(SnippetRule(TickType, h));
  }

  lemma TickSnippetFound(pre: string, c: string, a: string, rest: string) returns (h: Hit)
    requires !Contains(pre, "on tick", 0)
    requires ')' !in c && '}' !in a
    ensures SearchIn(TickSnippet, pre + SnippetText("on tick", c, a) + rest) == Some(h)
    ensures h == Hit(|pre|, |pre| + |SnippetText("on tick", c, a)|, c, a)
  {
    h := SnippetBlockAt(pre, "on tick", c, a, rest, true);
    SnippetSearched(TickSnippet, pre, SnippetText("on tick", c, a), rest, h);
  }

  /** A snippet found at the first occurrence of its keyword is the one the
      search reports. */
  lemma SnippetSearched(pat: Pattern, pre: string, t: string, rest: string, h: Hit)
    requires pat == FieldSnippet || pat == TickSnippet
    requires !Contains(pre, Keyword(pat), 0) && OccursAt(t, Keyword(pat), 0)
    requires RuleBlockAt(pre + t + rest, |pre|, Keyword(pat), false, pat == TickSnippet) == Some(h)
    ensures SearchIn(pat, pre + t + rest) == Some(h)
  {
    MatchAtRuleBlock(pre + t + rest, |pre|);
    FoundAfter(pat, pre, t, rest);
  }

  lemma SnippetBlockAt(pre: string, kw: string, c: string, a: string, rest: string, emptyGuard: bool)
    returns (h: Hit)
    requires ')' !in c && '}' !in a && (emptyGuard || c != [])
    ensures h == Hit(|pre|, |pre| + |SnippetText(kw, c, a)|, c, a)
    ensures RuleBlockAt(pre + SnippetText(kw, c, a) + rest, |pre|, kw, false, emptyGuard) == Some(h)
    ensures OccursAt(SnippetText(kw, c, a), kw, 0)
  {
    var q, cl, o, e := SnippetShapeIn(pre, kw, c, a, rest, emptyGuard);
    RuleBlockAtComplete(pre + SnippetText(kw, c, a) + rest, |pre|, kw, false, emptyGuard, q, cl, o, e);
    h := Hit(|pre|, e + 1, c, a);
  }

  lemma SnippetShapeIn(pre: string, kw: string, c: string, a: string, rest: string, emptyGuard: bool)
    returns (q: nat, cl: nat, o: nat, e: nat)
    requires ')' !in c && '}' !in a && (emptyGuard || c != [])
    ensures var block := pre + SnippetText(kw, c, a) + rest;
            && RuleBlockShape(block, |pre|, kw, false, emptyGuard, q, cl, o, e)
            && block[q + 1..cl] == c && block[o + 1..e] == a && e + 1 == |pre| + |SnippetText(kw, c, a)|
            && OccursAt(SnippetText(kw, c, a), kw, 0)
  {
    var t := SnippetText(kw, c, a);
    var block := pre + t + rest;
    SnippetTextShape(kw, c, a);
    var p := |pre|;
    q, cl := p + |kw|, p + |kw| + 1 + |c|;
    o, e := cl + 2, p + |t| - 1;
    assert forall i :: p <= i < p + |t| ==> block[i] == t[i - p];
    assert block[p..p + |kw|] == t[..|kw|];
    assert block[q + 1..cl] == t[|kw| + 1..|kw| + 1 + |c|];
    assert block[o + 1..e] == t[|kw| + |c| + 4..|t| - 1];
  }

  lemma SnippetTextShape(kw: string, c: string, a: string)
    requires ')' !in c && '}' !in a
    ensures var t := SnippetText(kw, c, a);
            var k := |kw|;
            && |t| == k + |c| + |a| + 5 && t[..k] == kw
            && t[k] == '(' && t[k + 1..k + 1 + |c|] == c && t[k + 1 + |c|] == ')'
            && (forall i :: k < i < k + 1 + |c| ==> t[i] != ')')
            && t[k + 2 + |c|] == ' ' && t[k + 3 + |c|] == '{'
            && t[k + |c| + 4..|t| - 1] == a && t[|t| - 1] == '}'
            && (forall i :: k + |c| + 3 < i < |t| - 1 ==> t[i] != '}')
  {
    var t := SnippetText(kw, c, a);
    var k := |kw|;
    assert t == kw + "(" + c + ")" + " " + "{" + a + "}";
    assert forall i :: k < i < k + 1 + |c| ==> t[i] == c[i - k - 1];
    assert forall i :: k + |c| + 3 < i < |t| - 1 ==> t[i] == a[i - k - |c| - 4];
    assert t[k + 1..k + 1 + |c|] == c;
    assert t[k + |c| + 4..|t| - 1] == a;
  }

  /** `add_rule`: appends the rule the snippet describes, together with its
      history and mutation entries; a snippet that does not match changes
      nothing. */
  function AddRule(m: Monad, block: string): (m': Monad)
    ensures m'.name == m.name && m'.state == m.state && m'.memory == m.memory && m'.metaRules == m.metaRules
    ensures m'.traceLog == m.traceLog && m'.lastTriggered == m.lastTriggered
    ensures ParseSnippet(block).None? ==> m' == m
    ensures ParseSnippet(block).Some? ==>
              var rule := ParseSnippet(block).value;
              && m'.rules == m.rules + [rule]
              && m'.ruleHistory == m.ruleHistory + [block]
              && m'.ruleMutations == m.ruleMutations + [Mutation(-1, rule.Kind(), "meta", block)]
    ensures WellFormed(m) ==> WellFormed(m')
  {
    match ParseSnippet(block)
    case None => m
    case Some(rule) =>
      Install(m, rule, block)
  }

  /** Appending a rule with its history and mutation entries. */
  function Install(m: Monad, rule: Rule, block: string): (m': Monad)
    ensures m'.name == m.name && m'.state == m.state && m'.memory == m.memory && m'.metaRules == m.metaRules
    ensures m'.traceLog == m.traceLog && m'.lastTriggered == m.lastTriggered
    ensures m'.rules == m.rules + [rule] && m'.ruleHistory == m.ruleHistory + [block]
    ensures m'.ruleMutations == m.ruleMutations + [Mutation(-1, rule.Kind(), "meta", block)]
    ensures WellFormed(m) ==> WellFormed(m')
  {
    var m' := m.(rules := m.rules + [rule], ruleHistory := m.ruleHistory + [block],
                 ruleMutations := m.ruleMutations + [Mutation(-1, rule.Kind(), "meta", block)]);
    assert WellFormed(m) ==> WellFormed(m') by {
      if WellFormed(m) {
        var k := |m'.ruleMutations|;
        forall i | 0 <= i < k
          ensures m'.ruleMutations[i] == Mutation(-1, m'.rules[|m'.rules| - k + i].Kind(), "meta", m'.ruleHistory[i])
        {
          if i < k - 1 {
            assert m'.rules[|m'.rules| - k + i] == m.rules[|m.rules| - (k - 1) + i];
          }
        }
      }
    }
    m'
  }

  /** Adding the snippets one after the other. */
  function AddAll(m: Monad, blocks: seq<string>): (m': Monad)
    ensures m'.name == m.name && m'.state == m.state && m'.memory == m.memory && m'.metaRules == m.metaRules
    ensures m'.traceLog == m.traceLog && m'.lastTriggered == m.lastTriggered
    ensures m.rules <= m'.rules && m.ruleHistory <= m'.ruleHistory && m.ruleMutations <= m'.ruleMutations
    ensures |m'.rules| - |m.rules| <= |blocks|
    ensures WellFormed(m) ==> WellFormed(m')
    decreases |blocks|
  {
    if blocks == [] then m else AddAll(AddRule(m, blocks[0]), blocks[1..])
  }

  lemma SuffixSplit<T>(a: seq<T>, b: seq<T>, c: seq<T>)
    requires a <= b && b <= c
    ensures c[|a|..] == b[|a|..] + c[|b|..]
  {
  }

  lemma AppendAssoc<T>(a: seq<T>, b: seq<T>, c: seq<T>)
    ensures a + b + c == a + (b + c)
  {
  }

  lemma PrefixTrans<T>(a: seq<T>, b: seq<T>, c: seq<T>)
    requires a <= b && b <= c
    ensures a <= c
  {
  }

  /** The meta-scripts run in order: each may set the state, write the memory
      and install rules. State changes made here are never traced, and no
      installed rule runs during this call. */
  function RunMeta(e: Engine, m: Monad, scripts: seq<string>): (m': Monad)
    ensures m'.name == m.name && m'.metaRules == m.metaRules
    ensures m'.traceLog == m.traceLog && m'.lastTriggered == m.lastTriggered
    ensures m.rules <= m'.rules && m.ruleHistory <= m'.ruleHistory && m.ruleMutations <= m'.ruleMutations
    ensures WellFormed(m) ==> WellFormed(m')
    decreases |scripts|
  {
    if scripts == [] then m
    else
      var out := e.meta(scripts[0], m.memory);
      var state := if out.setState.Some? then out.setState.value else m.state;
      var m0 := m.(state := state, memory := out.memory);
      assert WellFormed(m) ==> WellFormed(m0);
      var m1 := AddAll(m0, out.added);
      var m' := RunMeta(e, m1, scripts[1..]);
      PrefixTrans(m.rules, m1.rules, m'.rules);
      PrefixTrans(m.ruleHistory, m1.ruleHistory, m'.ruleHistory);
      PrefixTrans(m.ruleMutations, m1.ruleMutations, m'.ruleMutations);
      m'
  }

  /** `apply_meta_rules`. */
  function ApplyMetaRules(e: Engine, m: Monad): (m': Monad)
    ensures m'.name == m.name && m'.metaRules == m.metaRules
    ensures m'.traceLog == m.traceLog && m'.lastTriggered == m.lastTriggered
    ensures m.rules <= m'.rules && m.ruleHistory <= m'.ruleHistory && m.ruleMutations <= m'.ruleMutations
    ensures WellFormed(m) ==> WellFormed(m')
  {
    RunMeta(e, m, m.metaRules)
  }

  // ---------------------------------------------------------------------------
  // Adequacy

  predicate GoalState(s: State) {
    s == Some("goal") || s == Some("glow")
  }

  /** The score in thousandths: 400 for a goal state, plus 300 less 10 per
      trace entry and 300 less 10 per rule, each part at least 0, and at most
      1000 in all. */
  function Score(goal: bool, traceLen: nat, ruleCount: nat): nat {
    var s := (if goal then 400 else 0)
             + (if 300 - 10 * traceLen > 0 then 300 - 10 * traceLen else 0)
             + (if 300 - 10 * ruleCount > 0 then 300 - 10 * ruleCount else 0);
    if s < 1000 then s else 1000
  }

  /** `adequacy_score`, in thousandths. */
  function Adequacy(m: Monad): (score: nat)
    ensures score <= 1000
    ensures GoalState(m.state) ==> score >= 400
    ensures !GoalState(m.state) ==> score <= 600
    ensures score == 1000 <==> GoalState(m.state) && m.traceLog == [] && m.rules == []
    ensures |m.traceLog| >= 30 && |m.rules| >= 30 ==> score == (if GoalState(m.state) then 400 else 0)
  {
    Score(GoalState(m.state), |m.traceLog|, |m.rules|)
  }

  /** More trace entries or more rules never raise the score. */
  lemma ScoreAntitone(goal: bool, t1: nat, t2: nat, r1: nat, r2: nat)
    requires t1 <= t2 && r1 <= r2
    ensures Score(goal, t2, r2) <= Score(goal, t1, r1)
  {
  }

  /** A goal state never lowers the score. */
  lemma ScoreGoalMonotone(t: nat, r: nat)
    ensures Score(false, t, r) <= Score(true, t, r)
  {
  }
}
