/** `Simulation`: a rectangular grid of monads over a `Field`, stepped cell by
    cell in row-major order. */
module Simulation {
  import opened Wrappers
  import opened Values
  import opened FieldStore
  import opened MonadRuntime

  /** Rows of cells; `grid[y][x]` is the cell at column `x` of row `y`. */
  type Grid = seq<seq<Option<Monad>>>

  datatype Sim = Sim(width: nat, height: nat, grid: Grid, field: Field, tickCount: int)

  /** `grid` has `height` rows of `width` cells. */
  predicate Shape(g: Grid, w: nat, h: nat) {
    |g| == h && forall y :: 0 <= y < h ==> |g[y]| == w
  }

  predicate Valid(s: Sim) {
    Shape(s.grid, s.width, s.height)
  }

  /** `Simulation.__init__`: every cell empty, no field values, tick 0. */
  function NewSimulation(w: nat, h: nat): (s: Sim)
    ensures Valid(s) && s.width == w && s.height == h
    ensures forall y, x :: 0 <= y < h && 0 <= x < w ==> s.grid[y][x].None?
    ensures s.field.values == map[] && s.tickCount == 0
  {
    Sim(w, h, seq(h, _ => seq(w, _ => None)), EmptyField, 0)
  }

  // ---------------------------------------------------------------------------
  // Placing monads and field values

  /** Python's reading of an index into a list of length `n`: a negative
      index counts from the end; anything outside `[-n, n)` is an
      `IndexError`. */
  function PyIndex(i: int, n: nat): (r: Option<nat>)
    ensures r.Some? <==> 0 <= i + n && i < n
    ensures r.Some? ==> r.value < n && r.value % n == i % n
  {
    if 0 <= i < n then Some(i)
    else if 0 <= i + n && i < 0 then Some(i + n)
    else None
  }

  datatype SimError = IndexError

  /** `place_monad`: `grid[y][x] = monad`, with Python's indexing (negative
      coordinates count from the far edge; others fail). */
  function PlaceMonad(s: Sim, x: int, y: int, m: Monad): (r: Result<Sim, SimError>)
    requires Valid(s)
    ensures r.Success? <==> 0 <= x + s.width && x < s.width && 0 <= y + s.height && y < s.height
    ensures r.Success? ==>
              var cx := PyIndex(x, s.width).value;
              var cy := PyIndex(y, s.height).value;
              Valid(r.value) && r.value.width == s.width && r.value.height == s.height
              && r.value.field == s.field && r.value.tickCount == s.tickCount
              && r.value.grid[cy][cx] == Some(m)
              && forall j, i :: 0 <= j < s.height && 0 <= i < s.width && (i, j) != (cx, cy) ==>
                   r.value.grid[j][i] == s.grid[j][i]
  {
    match (PyIndex(x, s.width), PyIndex(y, s.height))
    case (Some(cx), Some(cy)) => Success(s.(grid := s.grid[cy := s.grid[cy][cx := Some(m)]]))
    case _ => Failure(IndexError)
  }

  /** `set_field_value`: the field's `set_value`; the grid is untouched. */
  function SetFieldValue(s: Sim, x: int, y: int, name: string, v: Value): (r: Sim)
    ensures r.grid == s.grid && r.width == s.width && r.height == s.height && r.tickCount == s.tickCount
    ensures r.field.values.Keys == s.field.values.Keys + {(x, y)}
    ensures name in GetContext(r.field, x, y) && GetContext(r.field, x, y)[name] == v
    ensures forall c :: c in s.field.values && c != (x, y) ==> r.field.values[c] == s.field.values[c]
  {
    s.(field := SetValue(s.field, x, y, name, v))
  }

  // ---------------------------------------------------------------------------
  // Neighbours

  /** The eight offsets in the order `get_neighbors` visits them: `dx`
      outer, `dy` inner, `(0, 0)` skipped. */
  const Offsets: seq<Offset> := [(-1, -1), (-1, 0), (-1, 1), (0, -1), (0, 1), (1, -1), (1, 0), (1, 1)]

  /** The positions around a cell: one step in either or both directions. */
  predicate InRing(d: Offset) {
    -1 <= d.0 <= 1 && -1 <= d.1 <= 1 && d != (0, 0)
  }

  /** The offsets visited are exactly the surrounding positions, each once. */
  lemma OffsetsAreTheRing()
    ensures forall d :: d in Offsets <==> InRing(d)
    ensures forall i, j :: 0 <= i < j < |Offsets| ==> Offsets[i] != Offsets[j]
  {
    forall d: Offset | InRing(d) ensures d in Offsets {
      if d.0 == -1 {
        assert d == Offsets[0] || d == Offsets[1] || d == Offsets[2];
      } else if d.0 == 0 {
        assert d == Offsets[3] || d == Offsets[4];
      } else {
        assert d == Offsets[5] || d == Offsets[6] || d == Offsets[7];
      }
    }
  }

  /** The cell at `(x, y)`, or nothing outside the grid. */
  function CellIn(g: Grid, w: nat, h: nat, x: int, y: int): Option<Monad>
    requires Shape(g, w, h)
  {
    if 0 <= x < w && 0 <= y < h then g[y][x] else None
  }

  /** The states of the occupied cells at the offsets `ds` from `(x, y)`,
      keyed by offset. */
  function NeighborsFrom(g: Grid, w: nat, h: nat, x: int, y: int, ds: seq<Offset>): (r: map<Offset, State>)
    requires Shape(g, w, h)
  {
    if ds == [] then map[]
    else
      var rest := NeighborsFrom(g, w, h, x, y, ds[1..]);
      var d := ds[0];
      match CellIn(g, w, h, x + d.0, y + d.1)
      case None => rest
      case Some(n) => rest[d := n.state]
  }

  lemma {:induction false} NeighborsFromSpec(g: Grid, w: nat, h: nat, x: int, y: int, ds: seq<Offset>)
    requires Shape(g, w, h)
    ensures var r := NeighborsFrom(g, w, h, x, y, ds);
            (forall d :: d in r <==> d in ds && CellIn(g, w, h, x + d.0, y + d.1).Some?)
            && (forall d :: d in r ==> r[d] == CellIn(g, w, h, x + d.0, y + d.1).value.state)
  {
    if ds != [] {
      NeighborsFromSpec(g, w, h, x, y, ds[1..]);
      var d := ds[0];
      assert forall d' :: d' in ds <==> d' == d || d' in ds[1..] by {
        assert ds == [d] + ds[1..];
      }
    }
  }

  /** One entry at most per offset visited. */
  lemma {:induction false} NeighborsFromCount(g: Grid, w: nat, h: nat, x: int, y: int, ds: seq<Offset>)
    requires Shape(g, w, h)
    ensures |NeighborsFrom(g, w, h, x, y, ds)| <= |ds|
  {
    if ds != [] {
      NeighborsFromCount(g, w, h, x, y, ds[1..]);
    }
  }

  /** `get_neighbors` on the grid `g`: for each of the eight surrounding
      positions that lies inside the grid and holds a monad, that monad's
      state, keyed by `(dx, dy)`. */
  function NeighborsIn(g: Grid, w: nat, h: nat, x: int, y: int): (r: map<Offset, State>)
    requires Shape(g, w, h)
  {
    NeighborsFrom(g, w, h, x, y, Offsets)
  }

  lemma NeighborsInSpec(g: Grid, w: nat, h: nat, x: int, y: int)
    requires Shape(g, w, h)
    ensures var r := NeighborsIn(g, w, h, x, y);
            (forall d :: d in r <==> InRing(d) && CellIn(g, w, h, x + d.0, y + d.1).Some?)
            && (forall d :: d in r ==> r[d] == CellIn(g, w, h, x + d.0, y + d.1).value.state)
            && |r| <= 8
  {
    OffsetsAreTheRing();
    NeighborsFromCount(g, w, h, x, y, Offsets);
    NeighborsFromSpec(g, w, h, x, y, Offsets);
  }

  lemma SubsetCard<T>(a: set<T>, b: set<T>)
    requires a <= b
    ensures |a| <= |b|
    decreases b
  {
    if a != {} {
      var z :| z in a;
      SubsetCard(a - {z}, b - {z});
    }
  }

  /** A cell in a corner of the grid has at most three neighbours. */
  lemma CornerNeighbors(g: Grid, w: nat, h: nat, x: int, y: int)
    requires Shape(g, w, h)
    requires (x == 0 || x == w - 1) && (y == 0 || y == h - 1)
    ensures |NeighborsIn(g, w, h, x, y)| <= 3
  {
    var r := NeighborsIn(g, w, h, x, y);
    NeighborsInSpec(g, w, h, x, y);
    var sx := if x == 0 then 1 else -1;
    var sy := if y == 0 then 1 else -1;
    var corner := {(sx, 0), (0, sy), (sx, sy)};
    forall d | d in r ensures d in corner {
      assert CellIn(g, w, h, x + d.0, y + d.1).Some?;
      InsideNearCorner(d, x, y, w, h);
    }
    SubsetCard(r.Keys, corner);
    ThreeSet((sx, 0), (0, sy), (sx, sy));
  }

  lemma ThreeSet<T>(a: T, b: T, c: T)
    ensures |{a, b, c}| <= 3
  {
    assert {a, b, c} == {a} + {b} + {c};
  }

  /** The surrounding positions of a corner cell that lie inside the grid
      point away from the corner. */
  lemma InsideNearCorner(d: Offset, x: int, y: int, w: nat, h: nat)
    requires InRing(d) && 0 <= x + d.0 < w && 0 <= y + d.1 < h
    requires (x == 0 || x == w - 1) && (y == 0 || y == h - 1)
    ensures var sx := if x == 0 then 1 else -1;
            var sy := if y == 0 then 1 else -1;
            d in {(sx, 0), (0, sy), (sx, sy)}
  {
  }

  // ---------------------------------------------------------------------------
  // One step

  /** The context a cell's field rules see: the values stored for the cell
      with `neighbors` added (replacing any value of that name). */
  function CellContext(stored: Context, g: Grid, w: nat, h: nat, x: int, y: int): Context
    requires Shape(g, w, h)
  {
    stored["neighbors" := NeighborsV(NeighborsIn(g, w, h, x, y))]
  }

  /** Where `entry` (a `lastTriggered` record) can come from: a rule of `rs`
      of the recorded type with the recorded condition. */
  predicate FromRules(entry: (RuleType, string), rs: seq<Rule>) {
    exists x :: x in rs && x.Kind() == entry.0 && entry.1 == ConditionOf(x)
  }

  /** What one visit does to a monad, and what it leaves alone: only the
      rule lists and the logs grow, every rule the visit runs was installed
      before it (rules that meta rules install wait for the next step), and
      the bookkeeping invariant is kept. */
  predicate Visited(m: Monad, m': Monad) {
    m'.name == m.name && m'.metaRules == m.metaRules
    && m.rules <= m'.rules && m.ruleHistory <= m'.ruleHistory && m.ruleMutations <= m'.ruleMutations
    && m.traceLog <= m'.traceLog && m.lastTriggered <= m'.lastTriggered
    && (WellFormed(m) ==> WellFormed(m'))
    && (forall i :: |m.lastTriggered| <= i < |m'.lastTriggered| ==> FromRules(m'.lastTriggered[i], m.rules))
    && (forall i :: |m.traceLog| <= i < |m'.traceLog| ==>
          FromRules((m'.traceLog[i].ruleType, m'.traceLog[i].condition), m.rules))
  }

  lemma FiredFromRules(e: Engine, entry: (RuleType, string), rs: seq<Rule>, ctx: Context)
    requires FiredBy(e, entry, rs, ctx)
    ensures FromRules(entry, rs)
  {
  }

  /** The body of `step` for one occupied cell: field rules under `ctx`, then
      tick rules at `tick`, then meta rules. */
  function Advance(e: Engine, m: Monad, ctx: Context, tick: int): (m': Monad)
    ensures Visited(m, m')
  {
    var m1 := EvaluateField(e, m, ctx);
    var m2 := EvaluateTick(e, m1, IntV(tick));
    var m3 := ApplyMetaRules(e, m2);
    forall i | |m.lastTriggered| <= i < |m3.lastTriggered|
      ensures FromRules(m3.lastTriggered[i], m.rules)
    {
      if i < |m1.lastTriggered| {
        FiredFromRules(e, m1.lastTriggered[i], m.rules, ctx);
      } else {
        FiredFromRules(e, m2.lastTriggered[i], m1.rules, map["t" := IntV(tick)]);
      }
    }
    forall i | |m.traceLog| <= i < |m3.traceLog|
      ensures FromRules((m3.traceLog[i].ruleType, m3.traceLog[i].condition), m.rules)
    {
      var t := m3.traceLog[i];
      if i < |m1.traceLog| {
        assert TracedBy(e, t, m.rules, FieldType, ctx);
        FiredFromRules(e, (FieldType, t.condition), m.rules, ctx);
      } else {
        assert TracedBy(e, t, m1.rules, TickType, map["t" := IntV(tick)]);
        FiredFromRules(e, (TickType, t.condition), m1.rules, map["t" := IntV(tick)]);
      }
    }
    PrefixTrans(m.traceLog, m1.traceLog, m2.traceLog);
    PrefixTrans(m.lastTriggered, m1.lastTriggered, m2.lastTriggered);
    m3
  }

  /** What a visit does to an occupied cell's monad, given the cell's
      context and the tick. */
  type CellUpdate = (Monad, Context, int) -> Monad

  /** The update `step` applies with the engine `e`. */
  function Updater(e: Engine): CellUpdate {
    (m: Monad, ctx: Context, tick: int) => Advance(e, m, ctx, tick)
  }

  /** The cell's next monad when the grid, as it then reads, is `g`. */
  function Next(u: CellUpdate, s: Sim, g: Grid, x: nat, y: nat): Option<Monad>
    requires Valid(s) && Shape(g, s.width, s.height) && x < s.width && y < s.height
  {
    match s.grid[y][x]
    case None => None
    case Some(m) => Some(u(m, CellContext(GetContext(s.field, x, y), g, s.width, s.height, x, y), s.tickCount))
  }

  /** One iteration of `step`'s inner loop: an occupied cell reads its
      context (writing `neighbors` into the stored values when the field has
      an entry for the cell) and advances; an empty cell is skipped. */
  function VisitCell(u: CellUpdate, s: Sim, x: nat, y: nat): (r: Sim)
    requires Valid(s) && x < s.width && y < s.height
    ensures Valid(r) && r.width == s.width && r.height == s.height && r.tickCount == s.tickCount
    ensures r.field.values.Keys == s.field.values.Keys
  {
    if s.grid[y][x].None? then s
    else
      s.(grid := SetCell(s.grid, s.width, s.height, x, y, Next(u, s, s.grid, x, y)),
         field := StoreContext(s.field, x, y, CellContext(GetContext(s.field, x, y), s.grid, s.width, s.height, x, y)))
  }

  /** A visit changes the visited cell to its next monad and, when the
      cell is occupied and stored, its stored values to the context it
      read; nothing else changes. */
  lemma VisitCellEffect(u: CellUpdate, s: Sim, x: nat, y: nat)
    requires Valid(s) && x < s.width && y < s.height
    ensures var r := VisitCell(u, s, x, y);
            && r.grid[y][x] == Next(u, s, s.grid, x, y)
            && (forall j, i :: 0 <= j < s.height && 0 <= i < s.width && (i, j) != (x, y) ==> r.grid[j][i] == s.grid[j][i])
            && (forall c :: c in s.field.values && c != (x, y) ==> r.field.values[c] == s.field.values[c])
            && ((x, y) in s.field.values ==>
                  r.field.values[(x, y)] == if s.grid[y][x].Some? then CellContext(GetContext(s.field, x, y), s.grid, s.width, s.height, x, y)
                                            else s.field.values[(x, y)])
  {
  }

  /** `g` with the cell at `(x, y)` replaced by `c`. */
  function SetCell(g: Grid, w: nat, h: nat, x: nat, y: nat, c: Option<Monad>): (g': Grid)
    requires Shape(g, w, h) && x < w && y < h
    ensures Shape(g', w, h) && g'[y][x] == c
    ensures forall j, i :: 0 <= j < h && 0 <= i < w && (i, j) != (x, y) ==> g'[j][i] == g[j][i]
  {
    g[y := g[y][x := c]]
  }

  /** The context dictionary of `(x, y)` is shared with the field when the
      field has an entry there, so writing `neighbors` into the context
      writes it into the field; otherwise the field is unchanged. */
  function StoreContext(f: Field, x: int, y: int, ctx: Context): (f': Field)
    ensures f'.values.Keys == f.values.Keys
    ensures forall c :: c in f.values && c != (x, y) ==> f'.values[c] == f.values[c]
    ensures (x, y) in f.values ==> f'.values[(x, y)] == ctx
  {
    if (x, y) in f.values then Field(f.values[(x, y) := ctx]) else f
  }

  /** Row-major order: `(i, j)` comes before `(x, y)`. */
  predicate Before(i: int, j: int, x: int, y: int) {
    j < y || (j == y && i < x)
  }

  /** The loops of `step` from `(x, y)` on. */
  function Sweep(u: CellUpdate, s: Sim, x: nat, y: nat): (r: Sim)
    requires Valid(s) && x <= s.width && y <= s.height
    ensures Valid(r) && r.width == s.width && r.height == s.height && r.tickCount == s.tickCount
    ensures r.field.values.Keys == s.field.values.Keys
    decreases s.height - y, s.width - x
  {
    if y == s.height then s
    else if x == s.width then Sweep(u, s, 0, y + 1)
    else Sweep(u, VisitCell(u, s, x, y), x + 1, y)
  }

  /** `step`: visit every cell in row-major order, then advance the tick. */
  function Step(e: Engine, s: Sim): (r: Sim)
    requires Valid(s)
    ensures Valid(r) && r.width == s.width && r.height == s.height
    ensures r.tickCount == s.tickCount + 1
    ensures r.field.values.Keys == s.field.values.Keys
  {
    Sweep(Updater(e), s, 0, 0).(tickCount := s.tickCount + 1)
  }

  /** The grid as a cell at `(x, y)` sees it during a sweep that started
      from `orig` and ends at `fin`: the cells before it already hold their
      final monads, the others still their original ones. */
  function Mixed(orig: Grid, fin: Grid, w: nat, h: nat, x: int, y: int): (g: Grid)
    requires Shape(orig, w, h) && Shape(fin, w, h)
    ensures Shape(g, w, h)
  {
    seq(h, j requires 0 <= j < h => seq(w, i requires 0 <= i < w => if Before(i, j, x, y) then fin[j][i] else orig[j][i]))
  }

  /** Each cell of the mixed grid comes from `fin` before `(x, y)` and
      from `orig` from there on. */
  lemma MixedAt(orig: Grid, fin: Grid, w: nat, h: nat, x: int, y: int)
    requires Shape(orig, w, h) && Shape(fin, w, h)
    ensures var g := Mixed(orig, fin, w, h, x, y);
            forall j, i :: 0 <= j < h && 0 <= i < w ==> g[j][i] == if Before(i, j, x, y) then fin[j][i] else orig[j][i]
  {
  }

  lemma GridExt(a: Grid, b: Grid, w: nat, h: nat)
    requires Shape(a, w, h) && Shape(b, w, h)
    requires forall j, i :: 0 <= j < h && 0 <= i < w ==> a[j][i] == b[j][i]
    ensures a == b
  {
    forall j | 0 <= j < h ensures a[j] == b[j] {
      assert forall i :: 0 <= i < w ==> a[j][i] == b[j][i];
    }
  }

  /** Agreement of two grids off the cells before `(x, y)` makes no
      difference to what the cell at `(x, y)` sees. */
  lemma MixedAgree(a: Grid, b: Grid, fin: Grid, w: nat, h: nat, x: int, y: int)
    requires Shape(a, w, h) && Shape(b, w, h) && Shape(fin, w, h)
    requires forall j, i :: 0 <= j < h && 0 <= i < w && !Before(i, j, x, y) ==> a[j][i] == b[j][i]
    ensures Mixed(a, fin, w, h, x, y) == Mixed(b, fin, w, h, x, y)
  {
    MixedAt(a, fin, w, h, x, y);
    MixedAt(b, fin, w, h, x, y);
    GridExt(Mixed(a, fin, w, h, x, y), Mixed(b, fin, w, h, x, y), w, h);
  }

  /** A cell's next monad depends on the simulation only through the
      cell's own monad, its stored values and the tick. */
  lemma NextFrame(u: CellUpdate, s: Sim, s': Sim, g: Grid, x: nat, y: nat)
    requires Valid(s) && Valid(s') && s'.width == s.width && s'.height == s.height
    requires Shape(g, s.width, s.height) && x < s.width && y < s.height
    requires s'.grid[y][x] == s.grid[y][x] && s'.tickCount == s.tickCount
    requires GetContext(s'.field, x, y) == GetContext(s.field, x, y)
    ensures Next(u, s', g, x, y) == Next(u, s, g, x, y)
  {
  }

  /** The sweep from `(x, y)` leaves the cells before `(x, y)` alone. */
  lemma {:induction false} SweepKeeps(u: CellUpdate, s: Sim, x: nat, y: nat)
    requires Valid(s) && x <= s.width && y <= s.height
    ensures forall j, i :: 0 <= j < s.height && 0 <= i < s.width && Before(i, j, x, y) ==>
              Sweep(u, s, x, y).grid[j][i] == s.grid[j][i]
    decreases s.height - y, s.width - x, 1
  {
    if y == s.height {
      assert Sweep(u, s, x, y) == s;
    } else if x == s.width {
      KeepsRow(u, s, y);
    } else {
      KeepsVisit(u, s, x, y);
    }
  }

  lemma {:induction false} KeepsRow(u: CellUpdate, s: Sim, y: nat)
    requires Valid(s) && y < s.height
    ensures forall j, i :: 0 <= j < s.height && 0 <= i < s.width && Before(i, j, s.width, y) ==>
              Sweep(u, s, s.width, y).grid[j][i] == s.grid[j][i]
    decreases s.height - y, 0, 0
  {
    SweepKeeps(u, s, 0, y + 1);
    RowEnd(u, s, y);
  }

  lemma {:induction false} KeepsVisit(u: CellUpdate, s: Sim, x: nat, y: nat)
    requires Valid(s) && x < s.width && y < s.height
    ensures forall j, i :: 0 <= j < s.height && 0 <= i < s.width && Before(i, j, x, y) ==>
              Sweep(u, s, x, y).grid[j][i] == s.grid[j][i]
    decreases s.height - y, s.width - x, 0
  {
    SweepKeeps(u, VisitCell(u, s, x, y), x + 1, y);
    KeepsStep(u, s, x, y);
  }

  lemma KeepsStep(u: CellUpdate, s: Sim, x: nat, y: nat)
    requires Valid(s) && x < s.width && y < s.height
    requires var s1 := VisitCell(u, s, x, y);
             forall j, i :: 0 <= j < s.height && 0 <= i < s.width && Before(i, j, x + 1, y) ==>
               Sweep(u, s1, x + 1, y).grid[j][i] == s1.grid[j][i]
    ensures forall j, i :: 0 <= j < s.height && 0 <= i < s.width && Before(i, j, x, y) ==>
              Sweep(u, s, x, y).grid[j][i] == s.grid[j][i]
  {
    var s1 := VisitCell(u, s, x, y);
    assert Sweep(u, s, x, y) == Sweep(u, s1, x + 1, y);
    VisitCellEffect(u, s, x, y);
  }

  /** Every cell from `(x, y)` on ends with the monad its visit computes,
      and the visit reads the grid with every cell before it already in its
      final form and every cell after it still in its original one. */
  lemma {:induction false} SweepCell(u: CellUpdate, s: Sim, x: nat, y: nat, i: nat, j: nat)
    requires Valid(s) && x <= s.width && y <= s.height
    requires i < s.width && j < s.height && !Before(i, j, x, y)
    ensures var fin := Sweep(u, s, x, y).grid;
            fin[j][i] == Next(u, s, Mixed(s.grid, fin, s.width, s.height, i, j), i, j)
    decreases s.height - y, s.width - x, 1
  {
    if x == s.width {
      SweepCellRow(u, s, y, i, j);
    } else if (i, j) == (x, y) {
      SweepCellHere(u, s, x, y);
    } else {
      SweepCellVisit(u, s, x, y, i, j);
    }
  }

  /** The end of a row moves the sweep to the start of the next one. */
  lemma {:induction false} SweepCellRow(u: CellUpdate, s: Sim, y: nat, i: nat, j: nat)
    requires Valid(s) && y < s.height
    requires i < s.width && j < s.height && !Before(i, j, s.width, y)
    ensures var fin := Sweep(u, s, s.width, y).grid;
            fin[j][i] == Next(u, s, Mixed(s.grid, fin, s.width, s.height, i, j), i, j)
    decreases s.height - y, 0, 0
  {
    SweepCell(u, s, 0, y + 1, i, j);
    RowEnd(u, s, y);
  }

  /** A cell after `(x, y)` is settled by the sweep that follows the visit. */
  lemma {:induction false} SweepCellVisit(u: CellUpdate, s: Sim, x: nat, y: nat, i: nat, j: nat)
    requires Valid(s) && x < s.width && y < s.height
    requires i < s.width && j < s.height && Before(x, y, i, j)
    ensures var fin := Sweep(u, s, x, y).grid;
            fin[j][i] == Next(u, s, Mixed(s.grid, fin, s.width, s.height, i, j), i, j)
    decreases s.height - y, s.width - x, 0
  {
    var s1 := VisitCell(u, s, x, y);
    var fin := Sweep(u, s1, x + 1, y).grid;
    SweepCell(u, s1, x + 1, y, i, j);
    SweepCellLater(u, s, s1, x, y, fin, i, j);
  }

  lemma SweepCellHere(u: CellUpdate, s: Sim, x: nat, y: nat)
    requires Valid(s) && x < s.width && y < s.height
    ensures var fin := Sweep(u, s, x, y).grid;
            fin[y][x] == Next(u, s, Mixed(s.grid, fin, s.width, s.height, x, y), x, y)
  {
    var s1 := VisitCell(u, s, x, y);
    assert Sweep(u, s, x, y) == Sweep(u, s1, x + 1, y);
    SweepKeeps(u, s1, x + 1, y);
    VisitedCellFinal(u, s, x, y, Sweep(u, s1, x + 1, y).grid);
  }

  lemma SweepCellLater(u: CellUpdate, s: Sim, s1: Sim, x: nat, y: nat, fin: Grid, i: nat, j: nat)
    requires Valid(s) && x < s.width && y < s.height
    requires i < s.width && j < s.height && Before(x, y, i, j)
    requires s1 == VisitCell(u, s, x, y) && fin == Sweep(u, s1, x + 1, y).grid
    requires fin[j][i] == Next(u, s1, Mixed(s1.grid, fin, s1.width, s1.height, i, j), i, j)
    ensures Sweep(u, s, x, y).grid == fin
    ensures fin[j][i] == Next(u, s, Mixed(s.grid, fin, s.width, s.height, i, j), i, j)
  {
    assert Sweep(u, s, x, y) == Sweep(u, s1, x + 1, y);
    VisitCellEffect(u, s, x, y);
    assert GetContext(s1.field, i, j) == GetContext(s.field, i, j);
    LaterCellFinal(u, s, s1, x, y, fin, i, j);
  }

  /** The visited cell keeps what its visit wrote, and the visit read the
      grid as the sweep had left it. */
  lemma VisitedCellFinal(u: CellUpdate, s: Sim, x: nat, y: nat, fin: Grid)
    requires Valid(s) && x < s.width && y < s.height && Shape(fin, s.width, s.height)
    requires var s1 := VisitCell(u, s, x, y);
             forall j, i :: 0 <= j < s.height && 0 <= i < s.width && Before(i, j, x + 1, y) ==> fin[j][i] == s1.grid[j][i]
    ensures fin[y][x] == Next(u, s, Mixed(s.grid, fin, s.width, s.height, x, y), x, y)
  {
    var w, h := s.width, s.height;
    var s1 := VisitCell(u, s, x, y);
    VisitCellEffect(u, s, x, y);
    assert forall j, i :: 0 <= j < h && 0 <= i < w && Before(i, j, x, y) ==> fin[j][i] == s.grid[j][i] by {
      assert forall j, i :: Before(i, j, x, y) ==> Before(i, j, x + 1, y) && (i, j) != (x, y);
    }
    MixedAt(s.grid, fin, w, h, x, y);
    GridExt(Mixed(s.grid, fin, w, h, x, y), s.grid, w, h);
    assert fin[y][x] == s1.grid[y][x];
  }

  /** A cell after the visited one sees the same when the sweep goes on
      from the next cell. */
  lemma LaterCellFinal(u: CellUpdate, s: Sim, s1: Sim, x: nat, y: nat, fin: Grid, i: nat, j: nat)
    requires Valid(s) && Valid(s1) && s1.width == s.width && s1.height == s.height && s1.tickCount == s.tickCount
    requires Shape(fin, s.width, s.height) && i < s.width && j < s.height && Before(x, y, i, j)
    requires forall j', i' :: 0 <= j' < s.height && 0 <= i' < s.width && (i', j') != (x, y) ==> s1.grid[j'][i'] == s.grid[j'][i']
    requires GetContext(s1.field, i, j) == GetContext(s.field, i, j)
    requires fin[j][i] == Next(u, s1, Mixed(s1.grid, fin, s.width, s.height, i, j), i, j)
    ensures fin[j][i] == Next(u, s, Mixed(s.grid, fin, s.width, s.height, i, j), i, j)
  {
    MixedAgree(s1.grid, s.grid, fin, s.width, s.height, i, j);
    NextFrame(u, s, s1, Mixed(s.grid, fin, s.width, s.height, i, j), i, j);
  }

  /** What the sweep from `(x, y)` leaves at the stored coordinate `c`: an
      occupied grid cell at or after `(x, y)` holds the context its visit
      built (the stored values plus `neighbors` as the visit read them);
      anything else keeps its values. */
  function FieldAfter(s: Sim, fin: Grid, x: nat, y: nat, c: Coord): Context
    requires Valid(s) && Shape(fin, s.width, s.height) && c in s.field.values
  {
    if 0 <= c.0 < s.width && 0 <= c.1 < s.height && !Before(c.0, c.1, x, y) && s.grid[c.1][c.0].Some?
    then CellContext(s.field.values[c], Mixed(s.grid, fin, s.width, s.height, c.0, c.1), s.width, s.height, c.0, c.1)
    else s.field.values[c]
  }

  lemma {:induction false} SweepFieldAt(u: CellUpdate, s: Sim, x: nat, y: nat, c: Coord)
    requires Valid(s) && x <= s.width && y <= s.height && c in s.field.values
    ensures var F := Sweep(u, s, x, y);
            F.field.values[c] == FieldAfter(s, F.grid, x, y, c)
    decreases s.height - y, s.width - x, 1
  {
    if y == s.height {
      assert Sweep(u, s, x, y) == s;
    } else if x == s.width {
      SweepFieldRow(u, s, y, c);
    } else {
      SweepFieldVisit(u, s, x, y, c);
    }
  }

  lemma {:induction false} SweepFieldRow(u: CellUpdate, s: Sim, y: nat, c: Coord)
    requires Valid(s) && y < s.height && c in s.field.values
    ensures var F := Sweep(u, s, s.width, y);
            F.field.values[c] == FieldAfter(s, F.grid, s.width, y, c)
    decreases s.height - y, 0, 0
  {
    SweepFieldAt(u, s, 0, y + 1, c);
    RowEnd(u, s, y);
    FieldAfterRow(s, Sweep(u, s, 0, y + 1).grid, y, c);
  }

  /** The sweep at the end of a row goes on from the start of the next. */
  lemma RowEnd(u: CellUpdate, s: Sim, y: nat)
    requires Valid(s) && y < s.height
    ensures Sweep(u, s, s.width, y) == Sweep(u, s, 0, y + 1)
  {
  }

  /** The end of a row and the start of the next are the same point of
      the sweep. */
  lemma FieldAfterRow(s: Sim, fin: Grid, y: nat, c: Coord)
    requires Valid(s) && Shape(fin, s.width, s.height) && c in s.field.values
    ensures FieldAfter(s, fin, s.width, y, c) == FieldAfter(s, fin, 0, y + 1, c)
  {
  }

  lemma {:induction false} SweepFieldVisit(u: CellUpdate, s: Sim, x: nat, y: nat, c: Coord)
    requires Valid(s) && x < s.width && y < s.height && c in s.field.values
    ensures var F := Sweep(u, s, x, y);
            F.field.values[c] == FieldAfter(s, F.grid, x, y, c)
    decreases s.height - y, s.width - x, 0
  {
    SweepFieldAt(u, VisitCell(u, s, x, y), x + 1, y, c);
    if c == (x, y) {
      SweepFieldHere(u, s, x, y);
    } else {
      SweepFieldLater(u, s, x, y, c);
    }
  }

  /** The visited coordinate's stored values after its visit. */
  lemma SweepFieldHere(u: CellUpdate, s: Sim, x: nat, y: nat)
    requires Valid(s) && x < s.width && y < s.height && (x, y) in s.field.values
    requires var s1 := VisitCell(u, s, x, y);
             var F := Sweep(u, s1, x + 1, y);
             F.field.values[(x, y)] == FieldAfter(s1, F.grid, x + 1, y, (x, y))
    ensures var F := Sweep(u, s, x, y);
            F.field.values[(x, y)] == FieldAfter(s, F.grid, x, y, (x, y))
  {
    var s1 := VisitCell(u, s, x, y);
    var F := Sweep(u, s1, x + 1, y);
    assert Sweep(u, s, x, y) == F;
    SweepKeeps(u, s1, x + 1, y);
    VisitedFieldFinal(u, s, x, y, F.grid);
  }

  /** Any other stored coordinate's values across one visit. */
  lemma SweepFieldLater(u: CellUpdate, s: Sim, x: nat, y: nat, c: Coord)
    requires Valid(s) && x < s.width && y < s.height && c in s.field.values && c != (x, y)
    requires var s1 := VisitCell(u, s, x, y);
             var F := Sweep(u, s1, x + 1, y);
             F.field.values[c] == FieldAfter(s1, F.grid, x + 1, y, c)
    ensures var F := Sweep(u, s, x, y);
            F.field.values[c] == FieldAfter(s, F.grid, x, y, c)
  {
    var s1 := VisitCell(u, s, x, y);
    var F := Sweep(u, s1, x + 1, y);
    assert Sweep(u, s, x, y) == F;
    VisitCellEffect(u, s, x, y);
    LaterFieldFinal(s, s1, x, y, F.grid, c);
  }

  /** The visited cell's stored values keep what its visit wrote. */
  lemma VisitedFieldFinal(u: CellUpdate, s: Sim, x: nat, y: nat, fin: Grid)
    requires Valid(s) && x < s.width && y < s.height && Shape(fin, s.width, s.height) && (x, y) in s.field.values
    requires var s1 := VisitCell(u, s, x, y);
             forall j, i :: 0 <= j < s.height && 0 <= i < s.width && Before(i, j, x + 1, y) ==> fin[j][i] == s1.grid[j][i]
    ensures FieldAfter(VisitCell(u, s, x, y), fin, x + 1, y, (x, y)) == FieldAfter(s, fin, x, y, (x, y))
  {
    var w, h := s.width, s.height;
    VisitCellEffect(u, s, x, y);
    assert forall j, i :: 0 <= j < h && 0 <= i < w && Before(i, j, x, y) ==> fin[j][i] == s.grid[j][i] by {
      assert forall j, i :: Before(i, j, x, y) ==> Before(i, j, x + 1, y) && (i, j) != (x, y);
    }
    MixedAt(s.grid, fin, w, h, x, y);
    GridExt(Mixed(s.grid, fin, w, h, x, y), s.grid, w, h);
  }

  /** Any other stored coordinate ends the same whether the sweep is
      counted from the visited cell or from the next one. */
  lemma LaterFieldFinal(s: Sim, s1: Sim, x: nat, y: nat, fin: Grid, c: Coord)
    requires Valid(s) && Valid(s1) && s1.width == s.width && s1.height == s.height
    requires x < s.width && y < s.height && Shape(fin, s.width, s.height) && c in s.field.values && c != (x, y)
    requires forall j', i' :: 0 <= j' < s.height && 0 <= i' < s.width && (i', j') != (x, y) ==> s1.grid[j'][i'] == s.grid[j'][i']
    requires s1.field.values.Keys == s.field.values.Keys && s1.field.values[c] == s.field.values[c]
    ensures FieldAfter(s1, fin, x + 1, y, c) == FieldAfter(s, fin, x, y, c)
  {
    var (i, j) := c;
    var w, h := s.width, s.height;
    if 0 <= i < w && 0 <= j < h && !Before(i, j, x, y) {
      assert s1.grid[j][i] == s.grid[j][i];
      if s.grid[j][i].Some? {
        MixedAgree(s1.grid, s.grid, fin, w, h, i, j);
      }
    }
  }

  /** `step`, cell by cell: each occupied cell gets the monad its visit
      computes, reading the grid with the cells before it (in row-major
      order) already stepped and the cells after it not yet; an empty cell
      stays empty. */
  lemma StepCells(e: Engine, s: Sim)
    requires Valid(s)
    ensures var F := Step(e, s);
            forall j, i :: 0 <= j < s.height && 0 <= i < s.width ==>
              F.grid[j][i] == Next(Updater(e), s, Mixed(s.grid, F.grid, s.width, s.height, i, j), i, j)
  {
    forall j, i | 0 <= j < s.height && 0 <= i < s.width
      ensures Step(e, s).grid[j][i] == Next(Updater(e), s, Mixed(s.grid, Step(e, s).grid, s.width, s.height, i, j), i, j)
    {
      SweepCell(Updater(e), s, 0, 0, i, j);
    }
  }

  /** `step`, for the stored values: every stored coordinate of an occupied
      cell ends with the context its visit built, which adds `neighbors` as
      the visit read them; every other coordinate keeps its values. */
  lemma StepField(e: Engine, s: Sim)
    requires Valid(s)
    ensures var F := Step(e, s);
            forall c :: c in s.field.values ==>
              F.field.values[c] == if 0 <= c.0 < s.width && 0 <= c.1 < s.height && s.grid[c.1][c.0].Some?
                                   then CellContext(s.field.values[c], Mixed(s.grid, F.grid, s.width, s.height, c.0, c.1), s.width, s.height, c.0, c.1)
                                   else s.field.values[c]
  {
    forall c | c in s.field.values
      ensures Step(e, s).field.values[c] == FieldAfter(s, Step(e, s).grid, 0, 0, c)
    {
      SweepFieldAt(Updater(e), s, 0, 0, c);
    }
  }

  /** What a step does to each monad: an occupied cell stays occupied by a
      monad with the same name and meta rules, whose rule lists and logs
      only grew, which keeps the bookkeeping invariant, and whose new log
      entries all come from rules it had before the step. */
  lemma StepMonads(e: Engine, s: Sim)
    requires Valid(s)
    ensures var F := Step(e, s);
            forall j, i :: 0 <= j < s.height && 0 <= i < s.width ==>
              && (F.grid[j][i].Some? <==> s.grid[j][i].Some?)
              && (s.grid[j][i].Some? ==> Visited(s.grid[j][i].value, F.grid[j][i].value))
  {
    StepCells(e, s);
  }

  /** A step over a grid with no monads changes nothing but the tick. */
  lemma StepEmpty(e: Engine, s: Sim)
    requires Valid(s)
    requires forall j, i :: 0 <= j < s.height && 0 <= i < s.width ==> s.grid[j][i].None?
    ensures Step(e, s) == s.(tickCount := s.tickCount + 1)
  {
    var F := Step(e, s);
    StepCells(e, s);
    GridExt(F.grid, s.grid, s.width, s.height);
    StepField(e, s);
    assert F.field.values == s.field.values;
  }

  // ---------------------------------------------------------------------------
  // Rendering

  /** `render_states`: the state of each cell's monad, `None` for an empty
      cell (as in the source, an empty cell and a monad without a state
      render alike). */
  function RenderStates(s: Sim): (r: seq<seq<State>>)
    requires Valid(s)
    ensures |r| == s.height && forall j :: 0 <= j < s.height ==> |r[j]| == s.width
    ensures forall j, i :: 0 <= j < s.height && 0 <= i < s.width ==> r[j][i] == Rendered(s.grid[j][i])
  {
    seq(s.height, j requires 0 <= j < s.height =>
      seq(s.width, i requires 0 <= i < s.width => Rendered(s.grid[j][i])))
  }

  /** One cell as rendered. */
  function Rendered(c: Option<Monad>): State {
    if c.Some? then c.value.state else None
  }

  /** The rendering of a new simulation is all `None`. */
  lemma RenderNew(w: nat, h: nat)
    ensures var r := RenderStates(NewSimulation(w, h));
            forall j, i :: 0 <= j < h && 0 <= i < w ==> r[j][i] == None
  {
  }

  /** After a successful `place_monad`, the rendering shows the placed
      monad's state at the (Python-indexed) target and is unchanged
      elsewhere. */
  lemma RenderAfterPlace(s: Sim, x: int, y: int, m: Monad)
    requires Valid(s) && PlaceMonad(s, x, y, m).Success?
    ensures var r := RenderStates(PlaceMonad(s, x, y, m).value);
            var r0 := RenderStates(s);
            var cx := PyIndex(x, s.width).value;
            var cy := PyIndex(y, s.height).value;
            && r[cy][cx] == m.state
            && forall j, i :: 0 <= j < s.height && 0 <= i < s.width && (i, j) != (cx, cy) ==> r[j][i] == r0[j][i]
  {
  }

  /** The neighbourhood a cell reads agrees with the rendering: a
      surrounding position inside the grid either is a key whose state is
      the rendered one, or is not a key and renders as `None`. */
  lemma NeighborRendered(s: Sim, x: int, y: int, d: Offset)
    requires Valid(s) && InRing(d) && 0 <= x + d.0 < s.width && 0 <= y + d.1 < s.height
    ensures var n := NeighborsIn(s.grid, s.width, s.height, x, y);
            var r := RenderStates(s);
            if d in n then n[d] == r[y + d.1][x + d.0] else r[y + d.1][x + d.0] == None
  {
    NeighborAt(s.grid, s.width, s.height, x, y, d);
  }

  /** One surrounding position inside the grid, as `get_neighbors` reads
      it. */
  lemma NeighborAt(g: Grid, w: nat, h: nat, x: int, y: int, d: Offset)
    requires Shape(g, w, h) && InRing(d) && 0 <= x + d.0 < w && 0 <= y + d.1 < h
    ensures var n := NeighborsIn(g, w, h, x, y);
            && (d in n <==> g[y + d.1][x + d.0].Some?)
            && (d in n ==> n[d] == g[y + d.1][x + d.0].value.state)
  {
    NeighborsInSpec(g, w, h, x, y);
    assert CellIn(g, w, h, x + d.0, y + d.1) == g[y + d.1][x + d.0];
  }
}
