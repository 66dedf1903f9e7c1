/** The regular expressions of the interpreter as explicit scanners.

    Each pattern is matched at one position by `MatchAt`, which follows the
    backtracking semantics of Python's `re` for that pattern: every greedy
    class used here is followed by a character the class excludes, and every
    lazy `*?` stops at the first character that lets the rest match, so each
    pattern has at most one match per start position. `Search` is
    `re.search` (leftmost match) and `FindAll` is `re.finditer`
    (non-overlapping matches, left to right). */
module Patterns {
  import opened Wrappers
  import opened Text

  /** One match: the span `[start, end)` of the subject and the captured
      groups; `group2` is empty for patterns with a single group. */
  datatype Hit = Hit(start: nat, end: nat, group1: string, group2: string)

  datatype Pattern =
      /** `monad `, then a captured maximal run of word characters. */
    | MonadName
      /** `state:`, optional whitespace, then a non-empty text without `'`
          in single quotes (captured without the quotes). */
    | StateLiteral
      /** `memory:`, optional whitespace, then a captured `{ ... }` whose
          inside holds no `}`. */
    | MemoryLiteral
      /** `on field`, optional whitespace, `(`, a captured non-empty
          condition without `)`, `)`, optional whitespace, `{`, then a
          captured action up to the first `}`. */
    | FieldBlock
      /** As `FieldBlock` with `on tick`, and the trigger may be empty. */
    | TickBlock
      /** `rule-modifier {`, then a captured script up to a `}` that ends the
          subject or is followed only by a final newline. */
    | RuleModifier
      /** `on field(`, a captured non-empty condition without `)`, `) {`
          with exactly one space, then a captured action up to the first
          `}`. */
    | FieldSnippet
      /** As `FieldSnippet` with `on tick(`, and the trigger may be empty. */
    | TickSnippet

  /** The index of the `}` that `\}$` can match: the last character, or the
      one before a final newline (Python's `$` also matches there). */
  function TrailingBrace(s: string): (r: Option<nat>)
    ensures r.Some? ==> r.value < |s| && s[r.value] == '}'
    ensures r.Some? ==> r.value + 1 == |s| || (r.value + 2 == |s| && s[|s| - 1] == '\n')
    ensures r.None? ==> forall k :: 0 <= k < |s| && s[k] == '}' ==>
                          k + 1 != |s| && !(k + 2 == |s| && s[|s| - 1] == '\n')
  {
    if |s| >= 1 && s[|s| - 1] == '}' then Some(|s| - 1)
    else if |s| >= 2 && s[|s| - 2] == '}' && s[|s| - 1] == '\n' then Some(|s| - 2)
    else None
  }

  /** The four rule-block patterns share one shape: keyword, parenthesised
      text without `)`, then an action up to the first `}`. `loose` allows
      whitespace before `(` and between `)` and `{` (the definition parser);
      otherwise there is none before `(` and exactly one space after `)`
      (the single-rule parser). */
  function RuleBlockAt(s: string, p: nat, keyword: string, loose: bool, emptyGuard: bool): (r: Option<Hit>)
    ensures r.Some? ==> r.value.start == p && p < r.value.end <= |s|
    ensures r.Some? ==> ')' !in r.value.group1 && '}' !in r.value.group2
    ensures r.Some? && !emptyGuard ==> r.value.group1 != []
  {
    if !OccursAt(s, keyword, p) then None
    else
      var q := if loose then SkipSpace(s, p + |keyword|) else p + |keyword|;
      if !(q < |s| && s[q] == '(') then None
      else match FindFrom(s, ")", q + 1)
        case None => None
        case Some(c) =>
          FirstFreeOf(s, ')', q + 1, c);
          AfterClose(s, p, q, c, loose, emptyGuard)
  }

  /** A rule block once `(` at `q` and the first `)` after it, at `c`, are
      found: the guard must be nonempty unless `emptyGuard`, then the gap,
      the `{` and the action follow. */
  function AfterClose(s: string, p: nat, q: nat, c: nat, loose: bool, emptyGuard: bool): (r: Option<Hit>)
    requires p <= q < c < |s| && ')' !in s[q + 1..c]
    ensures r.Some? ==> r.value.start == p && p < r.value.end <= |s|
    ensures r.Some? ==> r.value.group1 == s[q + 1..c] && '}' !in r.value.group2
  {
    if c == q + 1 && !emptyGuard then None
    else match Gap(s, c, loose)
      case None => None
      case Some(o) => ActionFrom(s, p, q, c, o)
  }

  /** Where `{` must stand after the `)` at `c`: after any whitespace when
      `loose`, otherwise after exactly one space. */
  function Gap(s: string, c: nat, loose: bool): (o: Option<nat>)
    requires c < |s|
    ensures o.Some? ==> c < o.value <= |s|
  {
    if loose then Some(SkipSpace(s, c + 1))
    else if c + 1 < |s| && s[c + 1] == ' ' then Some(c + 2)
    else None
  }

  /** The rest of a rule block once its parenthesised part `s[q..c]` is
      found: `{` at `o`, then the action up to the first `}`. */
  function ActionFrom(s: string, p: nat, q: nat, c: nat, o: nat): (r: Option<Hit>)
    requires p <= q < c < o && c < |s| && ')' !in s[q + 1..c]
    ensures r.Some? ==> r.value.start == p && p < r.value.end <= |s|
    ensures r.Some? ==> r.value.group1 == s[q + 1..c] && '}' !in r.value.group2
  {
    if !(o < |s| && s[o] == '{') then None
    else match FindFrom(s, "}", o + 1)
      case None => None
      case Some(e) =>
        FirstFreeOf(s, '}', o + 1, e);
        Some(Hit(p, e + 1, s[q + 1..c], s[o + 1..e]))
  }

  function NameAt(s: string, p: nat): (r: Option<Hit>)
    ensures r.Some? ==> r.value.start == p && p < r.value.end <= |s|
    ensures r.Some? ==> r.value.group1 != [] && forall i :: 0 <= i < |r.value.group1| ==> IsWordChar(r.value.group1[i])
  {
    if OccursAt(s, "monad ", p) && p + 6 < |s| && IsWordChar(s[p + 6]) then
      var e := WordEnd(s, p + 6);
      Some(Hit(p, e, s[p + 6..e], ""))
    else None
  }

  function StateAt(s: string, p: nat): (r: Option<Hit>)
    ensures r.Some? ==> r.value.start == p && p < r.value.end <= |s|
    ensures r.Some? ==> r.value.group1 != [] && '\'' !in r.value.group1
  {
    if !OccursAt(s, "state:", p) then None
    else
      var q := SkipSpace(s, p + 6);
      if !(q < |s| && s[q] == '\'') then None
      else match FindFrom(s, "'", q + 1)
        case None => None
        case Some(c) =>
          if c == q + 1 then None
          else
            FirstFreeOf(s, '\'', q + 1, c);
            Some(Hit(p, c + 1, s[q + 1..c], ""))
  }

  function MemoryAt(s: string, p: nat): (r: Option<Hit>)
    ensures r.Some? ==> r.value.start == p && p < r.value.end <= |s|
    ensures r.Some? ==> var g := r.value.group1;
              |g| >= 2 && g[0] == '{' && g[|g| - 1] == '}' && forall j :: 0 < j < |g| - 1 ==> g[j] != '}'
  {
    if !OccursAt(s, "memory:", p) then None
    else
      var q := SkipSpace(s, p + 7);
      if !(q < |s| && s[q] == '{') then None
      else match FindFrom(s, "}", q + 1)
        case None => None
        case Some(c) =>
          FirstFreeOf(s, '}', q + 1, c);
          assert s[c..c + 1] == [s[c]];
          assert forall j :: q < j < c ==> s[j] != '}' by {
            forall j | q < j < c ensures s[j] != '}' {
              assert s[j] == s[q + 1..c][j - q - 1];
            }
          }
          Some(Hit(p, c + 1, s[q..c + 1], ""))
  }

  function ModifierAt(s: string, p: nat): (r: Option<Hit>)
    ensures r.Some? ==> r.value.start == p && p < r.value.end <= |s|
    ensures r.Some? ==> r.value.end == |s| || (r.value.end + 1 == |s| && s[|s| - 1] == '\n')
  {
    match TrailingBrace(s)
    case Some(k) =>
      if OccursAt(s, "rule-modifier {", p) && p + 15 <= k then Some(Hit(p, k + 1, s[p + 15..k], ""))
      else None
    case None => None
  }

  /** The match of `pat` starting exactly at position `p` of `s`, if any. */
  function MatchAt(pat: Pattern, s: string, p: nat): (r: Option<Hit>)
    ensures r.Some? ==> r.value.start == p && p < r.value.end <= |s|
  {
    match pat
    case MonadName => NameAt(s, p)
    case StateLiteral => StateAt(s, p)
    case MemoryLiteral => MemoryAt(s, p)
    case FieldBlock => RuleBlockAt(s, p, "on field", true, false)
    case TickBlock => RuleBlockAt(s, p, "on tick", true, true)
    case FieldSnippet => RuleBlockAt(s, p, "on field", false, false)
    case TickSnippet => RuleBlockAt(s, p, "on tick", false, true)
    case RuleModifier => ModifierAt(s, p)
  }

  /** The four rule-block patterns are `RuleBlockAt` with their settings. */
  lemma MatchAtRuleBlock(s: string, p: nat)
    ensures MatchAt(FieldBlock, s, p) == RuleBlockAt(s, p, "on field", true, false)
    ensures MatchAt(TickBlock, s, p) == RuleBlockAt(s, p, "on tick", true, true)
    ensures MatchAt(FieldSnippet, s, p) == RuleBlockAt(s, p, "on field", false, false)
    ensures MatchAt(TickSnippet, s, p) == RuleBlockAt(s, p, "on tick", false, true)
  {
  }

  /** A scanner: the match starting at each position of a subject of
      length `n`, if any. */
  type Matcher = nat -> Option<Hit>

  /** Every match the scanner reports starts where it was asked to and ends
      further on, within the subject. */
  ghost predicate Anchored(at: Matcher, n: nat) {
    forall p: nat :: at(p).Some? ==> at(p).value.start == p && p < at(p).value.end <= n
  }

  /** The scanner of `pat` over `s`. */
  function Scanner(pat: Pattern, s: string): (at: Matcher)
    ensures Anchored(at, |s|)
    ensures forall p: nat :: at(p) == MatchAt(pat, s, p)
  {
    (p: nat) => MatchAt(pat, s, p)
  }

  /** Python's `re.search`, from position `from`: the leftmost match. */
  function Search(at: Matcher, n: nat, from: nat): (r: Option<Hit>)
    requires Anchored(at, n)
    ensures r.Some? ==> from <= r.value.start && at(r.value.start) == r
    ensures r.Some? ==> forall j: nat :: from <= j < r.value.start ==> at(j).None?
    ensures r.None? ==> forall j: nat :: from <= j ==> at(j).None?
    decreases n - from
  {
    if from >= n then None
    else match at(from)
      case Some(h) => Some(h)
      case None => Search(at, n, from + 1)
  }

  /** Position `j` lies inside one of the hits. */
  predicate Covered(hits: seq<Hit>, j: nat) {
    exists i :: 0 <= i < |hits| && hits[i].start <= j < hits[i].end
  }

  /** What `FindAll` promises about its hits from `from` on. */
  ghost predicate ScanOf(at: Matcher, n: nat, from: nat, r: seq<Hit>) {
    && (forall i :: 0 <= i < |r| ==> at(r[i].start) == Some(r[i]))
    && (forall i :: 0 <= i < |r| ==> from <= r[i].start && r[i].end <= n)
    && (forall i :: 0 < i < |r| ==> r[i - 1].end <= r[i].start)
    && (forall j: nat :: from <= j && at(j).Some? ==> Covered(r, j))
  }

  /** Prepending the leftmost match to the scan that resumes after it gives
      the scan from `from`. */
  lemma ScanCons(at: Matcher, n: nat, from: nat, h: Hit, rest: seq<Hit>)
    requires from <= h.start < h.end <= n && at(h.start) == Some(h)
    requires forall j: nat :: from <= j < h.start ==> at(j).None?
    requires ScanOf(at, n, h.end, rest)
    ensures ScanOf(at, n, from, [h] + rest)
  {
    ConsHits(at, n, from, h, rest);
    ConsOrdered(h, rest);
    ConsCovers(at, from, h, rest);
  }

  lemma ConsHits(at: Matcher, n: nat, from: nat, h: Hit, rest: seq<Hit>)
    requires from <= h.start < h.end <= n && at(h.start) == Some(h)
    requires forall i :: 0 <= i < |rest| ==> at(rest[i].start) == Some(rest[i])
    requires forall i :: 0 <= i < |rest| ==> h.end <= rest[i].start && rest[i].end <= n
    ensures var r := [h] + rest;
            forall i :: 0 <= i < |r| ==> at(r[i].start) == Some(r[i]) && from <= r[i].start && r[i].end <= n
  {
    var r := [h] + rest;
    forall i | 0 <= i < |r|
      ensures at(r[i].start) == Some(r[i]) && from <= r[i].start && r[i].end <= n
    {
      if i > 0 {
        assert r[i] == rest[i - 1];
      }
    }
  }

  lemma ConsOrdered(h: Hit, rest: seq<Hit>)
    requires forall i :: 0 <= i < |rest| ==> h.end <= rest[i].start
    requires forall i :: 0 < i < |rest| ==> rest[i - 1].end <= rest[i].start
    ensures var r := [h] + rest;
            forall i :: 0 < i < |r| ==> r[i - 1].end <= r[i].start
  {
    var r := [h] + rest;
    forall i | 0 < i < |r|
      ensures r[i - 1].end <= r[i].start
    {
      assert r[i] == rest[i - 1];
      if i > 1 {
        assert r[i - 1] == rest[i - 2];
      }
    }
  }

  lemma ConsCovers(at: Matcher, from: nat, h: Hit, rest: seq<Hit>)
    requires from <= h.start && at(h.start) == Some(h)
    requires forall j: nat :: from <= j < h.start ==> at(j).None?
    requires forall j: nat :: h.end <= j && at(j).Some? ==> Covered(rest, j)
    ensures forall j: nat :: from <= j && at(j).Some? ==> Covered([h] + rest, j)
  {
    forall j: nat | from <= j && at(j).Some?
      ensures Covered([h] + rest, j)
    {
      CoveredCons(h, rest, j);
    }
  }

  lemma CoveredCons(h: Hit, rest: seq<Hit>, j: nat)
    requires h.start <= j < h.end || Covered(rest, j)
    ensures Covered([h] + rest, j)
  {
    var r := [h] + rest;
    if h.start <= j < h.end {
      assert r[0].start <= j < r[0].end;
    } else {
      var i :| 0 <= i < |rest| && rest[i].start <= j < rest[i].end;
      assert r[i + 1] == rest[i];
    }
  }

  /** Python's `re.finditer`, from position `from`: the matches in increasing
      order, each one starting where the scan resumed after the previous
      one, and every position where the pattern matches lies inside one of
      them. */
  function FindAll(at: Matcher, n: nat, from: nat): (r: seq<Hit>)
    requires Anchored(at, n)
    ensures ScanOf(at, n, from, r)
    decreases n - from
  {
    match Search(at, n, from)
    case None => []
    case Some(h) =>
      var rest := FindAll(at, n, h.end);
      ScanCons(at, n, from, h, rest);
      [h] + rest
  }

  /** A snippet accepted by `add_rule` is read the same way by the definition
      parser: at any position where the single-rule pattern matches, the
      definition's block pattern matches with the same span and groups. */
  lemma SnippetIsBlock(s: string, p: nat)
    ensures MatchAt(FieldSnippet, s, p).Some? ==> MatchAt(FieldBlock, s, p) == MatchAt(FieldSnippet, s, p)
    ensures MatchAt(TickSnippet, s, p).Some? ==> MatchAt(TickBlock, s, p) == MatchAt(TickSnippet, s, p)
  {
    SnippetIsBlockFor(s, p, "on field", false);
    SnippetIsBlockFor(s, p, "on tick", true);
  }

  lemma SnippetIsBlockFor(s: string, p: nat, keyword: string, emptyGuard: bool)
    ensures RuleBlockAt(s, p, keyword, false, emptyGuard).Some? ==>
              RuleBlockAt(s, p, keyword, true, emptyGuard) == RuleBlockAt(s, p, keyword, false, emptyGuard)
  {
    if RuleBlockAt(s, p, keyword, false, emptyGuard).Some? {
      var q := p + |keyword|;
      assert OccursAt(s, keyword, p) && q < |s| && s[q] == '(';
      var c := FindFrom(s, ")", q + 1).value;
      Unfold(s, p, keyword, false, emptyGuard, q, c);
      assert SkipSpace(s, q) == q by {
        assert !IsSpace('(');
      }
      Unfold(s, p, keyword, true, emptyGuard, q, c);
      LooseGap(s, p, q, c, emptyGuard);
    }
  }

  /** A rule block whose `(` is at `q` and whose first `)` after it is at
      `c` is read by `AfterClose`. */
  lemma Unfold(s: string, p: nat, keyword: string, loose: bool, emptyGuard: bool, q: nat, c: nat)
    requires OccursAt(s, keyword, p)
    requires q == if loose then SkipSpace(s, p + |keyword|) else p + |keyword|
    requires q < |s| && s[q] == '(' && FindFrom(s, ")", q + 1) == Some(c)
    ensures q < c < |s| && ')' !in s[q + 1..c]
    ensures RuleBlockAt(s, p, keyword, loose, emptyGuard) == AfterClose(s, p, q, c, loose, emptyGuard)
  {
    assert FirstOccurrence(s, [')'], q + 1, c);
    FirstFreeOf(s, ')', q + 1, c);
  }

  /** When one space and then `{` follow the `)`, skipping any whitespace
      finds the same `{` as skipping exactly one space. */
  lemma LooseGap(s: string, p: nat, q: nat, c: nat, emptyGuard: bool)
    requires p <= q < c < |s| && ')' !in s[q + 1..c]
    requires AfterClose(s, p, q, c, false, emptyGuard).Some?
    ensures AfterClose(s, p, q, c, true, emptyGuard) == AfterClose(s, p, q, c, false, emptyGuard)
  {
    assert c + 2 < |s| && s[c + 1] == ' ' && s[c + 2] == '{';
    assert SkipSpace(s, c + 1) == c + 2 by {
      assert IsSpace(' ') && !IsSpace('{');
      assert SkipChars(s, Space, c + 2) == c + 2;
    }
    assert Gap(s, c, true) == Gap(s, c, false);
  }

  // ---------------------------------------------------------------------------
  // Each scanner against its regular expression: a hit is reported at `p`
  // exactly when the expression matches there, with the groups captured as
  // the slices the expression delimits.

  /** `monad (\w+)` matches at `p` and ends at `e`: the word run is maximal
      because a greedy `\w+` takes every word character it can. */
  ghost predicate NameShape(s: string, p: nat, e: nat) {
    && OccursAt(s, "monad ", p) && p + 6 < e <= |s|
    && (forall i :: p + 6 <= i < e ==> IsWordChar(s[i]))
    && (e == |s| || !IsWordChar(s[e]))
  }

  ghost predicate NameMatch(s: string, p: nat, h: Hit) {
    NameShape(s, p, h.end) && h == Hit(p, h.end, s[p + 6..h.end], "")
  }

  lemma NameAtExact(s: string, p: nat, h: Hit)
    ensures NameAt(s, p) == Some(h) <==> NameMatch(s, p, h)
  {
    if NameShape(s, p, h.end) {
      WordEndAt(s, p + 6, h.end);
    }
  }

  /** `state:\s*'([^']+)'` matches at `p` with its opening quote at `q` and
      its closing quote at `c`. */
  ghost predicate StateShape(s: string, p: nat, q: nat, c: nat) {
    && OccursAt(s, "state:", p) && p + 6 <= q && q + 1 < c < |s|
    && (forall i :: p + 6 <= i < q ==> IsSpace(s[i]))
    && s[q] == '\'' && (forall i :: q < i < c ==> s[i] != '\'') && s[c] == '\''
  }

  ghost predicate StateMatch(s: string, p: nat, h: Hit) {
    exists q: nat, c: nat :: StateShape(s, p, q, c) && h == Hit(p, c + 1, s[q + 1..c], "")
  }

  lemma StateAtExact(s: string, p: nat, h: Hit)
    ensures StateAt(s, p) == Some(h) <==> StateMatch(s, p, h)
  {
    if StateAt(s, p) == Some(h) {
      var q := SkipSpace(s, p + 6);
      var c := FindFrom(s, "'", q + 1).value;
      assert "'" == ['\''];
      NoCharBetween(s, '\'', q + 1, c);
      assert StateShape(s, p, q, c);
    }
    if StateMatch(s, p, h) {
      var q: nat, c: nat :| StateShape(s, p, q, c) && h == Hit(p, c + 1, s[q + 1..c], "");
      StateAtComplete(s, p, q, c);
    }
  }

  lemma StateAtComplete(s: string, p: nat, q: nat, c: nat)
    requires StateShape(s, p, q, c)
    ensures StateAt(s, p) == Some(Hit(p, c + 1, s[q + 1..c], ""))
  {
    SkipCharsAt(s, Space, p + 6, q);
    CharBetween(s, '\'', q + 1, c);
    FindCharAt(s, '\'', q + 1, c);
    assert "'" == ['\''];
    StateAtUnfold(s, p, q, c);
  }

  /** `StateAt` once the quote after the spaces and the next quote are
      known. */
  lemma StateAtUnfold(s: string, p: nat, q: nat, c: nat)
    requires OccursAt(s, "state:", p) && p + 6 <= |s| && q == SkipSpace(s, p + 6)
    requires q + 1 < c && q < |s| && s[q] == '\'' && FindFrom(s, "'", q + 1) == Some(c)
    ensures StateAt(s, p) == Some(Hit(p, c + 1, s[q + 1..c], ""))
  {
  }

  /** `memory:\s*(\{[^}]*\})` matches at `p` with its braces at `q` and
      `c`. */
  ghost predicate MemoryShape(s: string, p: nat, q: nat, c: nat) {
    && OccursAt(s, "memory:", p) && p + 7 <= q < c < |s|
    && (forall i :: p + 7 <= i < q ==> IsSpace(s[i]))
    && s[q] == '{' && (forall i :: q < i < c ==> s[i] != '}') && s[c] == '}'
  }

  ghost predicate MemoryMatch(s: string, p: nat, h: Hit) {
    exists q: nat, c: nat :: MemoryShape(s, p, q, c) && h == Hit(p, c + 1, s[q..c + 1], "")
  }

  lemma MemoryAtExact(s: string, p: nat, h: Hit)
    ensures MemoryAt(s, p) == Some(h) <==> MemoryMatch(s, p, h)
  {
    if MemoryAt(s, p) == Some(h) {
      var q := SkipSpace(s, p + 7);
      var c := FindFrom(s, "}", q + 1).value;
      assert "}" == ['}'];
      NoCharBetween(s, '}', q + 1, c);
      assert MemoryShape(s, p, q, c);
    }
    if MemoryMatch(s, p, h) {
      var q: nat, c: nat :| MemoryShape(s, p, q, c) && h == Hit(p, c + 1, s[q..c + 1], "");
      MemoryAtComplete(s, p, q, c);
    }
  }

  lemma MemoryAtComplete(s: string, p: nat, q: nat, c: nat)
    requires MemoryShape(s, p, q, c)
    ensures MemoryAt(s, p) == Some(Hit(p, c + 1, s[q..c + 1], ""))
  {
    assert OccursAt(s, "memory:", p);
    SkipCharsAt(s, Space, p + 7, q);
    assert SkipSpace(s, p + 7) == q;
    assert q < |s| && s[q] == '{';
    CharBetween(s, '}', q + 1, c);
    FindCharAt(s, '}', q + 1, c);
    assert "}" == ['}'];
    assert FindFrom(s, "}", q + 1) == Some(c);
  }

  /** `rule-modifier \{([\s\S]*?)\}$` matches at `p` with its final brace at
      `k`: the lazy group stops at the first `}` after which `$` holds, and
      `$` holds only at the end or before a final newline. */
  ghost predicate ModifierShape(s: string, p: nat, k: nat) {
    && OccursAt(s, "rule-modifier {", p) && p + 15 <= k < |s| && s[k] == '}'
    && (k + 1 == |s| || (k + 2 == |s| && s[k + 1] == '\n'))
  }

  ghost predicate ModifierMatch(s: string, p: nat, h: Hit) {
    0 < h.end && ModifierShape(s, p, h.end - 1) && h == Hit(p, h.end, s[p + 15..h.end - 1], "")
  }

  lemma ModifierAtExact(s: string, p: nat, h: Hit)
    ensures ModifierAt(s, p) == Some(h) <==> ModifierMatch(s, p, h)
  {
  }

  /** A rule-block expression matches at `p` with `(` at `q`, `)` at `c`,
      `{` at `o` and `}` at `e`. When `loose`, whitespace may stand before
      `(` and between `)` and `{`; otherwise `(` follows the keyword and
      exactly one space follows `)`. */
  ghost predicate RuleBlockShape(s: string, p: nat, keyword: string, loose: bool, emptyGuard: bool,
                                 q: nat, c: nat, o: nat, e: nat)
  {
    && OccursAt(s, keyword, p) && p + |keyword| <= q < c < o < e < |s|
    && (if loose then forall i :: p + |keyword| <= i < q ==> IsSpace(s[i]) else q == p + |keyword|)
    && s[q] == '(' && (forall i :: q < i < c ==> s[i] != ')') && s[c] == ')'
    && (emptyGuard || q + 1 < c)
    && (if loose then forall i :: c < i < o ==> IsSpace(s[i]) else o == c + 2 && s[c + 1] == ' ')
    && s[o] == '{' && (forall i :: o < i < e ==> s[i] != '}') && s[e] == '}'
  }

  ghost predicate RuleBlockMatch(s: string, p: nat, keyword: string, loose: bool, emptyGuard: bool, h: Hit) {
    exists q: nat, c: nat, o: nat, e: nat ::
      RuleBlockShape(s, p, keyword, loose, emptyGuard, q, c, o, e)
      && h == Hit(p, e + 1, s[q + 1..c], s[o + 1..e])
  }

  lemma RuleBlockAtExact(s: string, p: nat, keyword: string, loose: bool, emptyGuard: bool, h: Hit)
    ensures RuleBlockAt(s, p, keyword, loose, emptyGuard) == Some(h) <==>
              RuleBlockMatch(s, p, keyword, loose, emptyGuard, h)
  {
    if RuleBlockAt(s, p, keyword, loose, emptyGuard) == Some(h) {
      RuleBlockAtSound(s, p, keyword, loose, emptyGuard);
    }
    if RuleBlockMatch(s, p, keyword, loose, emptyGuard, h) {
      var q: nat, c: nat, o: nat, e: nat :|
        RuleBlockShape(s, p, keyword, loose, emptyGuard, q, c, o, e)
        && h == Hit(p, e + 1, s[q + 1..c], s[o + 1..e]);
      RuleBlockAtComplete(s, p, keyword, loose, emptyGuard, q, c, o, e);
    }
  }

  lemma RuleBlockAtSound(s: string, p: nat, keyword: string, loose: bool, emptyGuard: bool)
    requires RuleBlockAt(s, p, keyword, loose, emptyGuard).Some?
    ensures RuleBlockMatch(s, p, keyword, loose, emptyGuard, RuleBlockAt(s, p, keyword, loose, emptyGuard).value)
  {
    var q, c := GuardSound(s, p, keyword, loose, emptyGuard);
    var o, e := AfterCloseSound(s, p, q, c, loose, emptyGuard);
    assert RuleBlockShape(s, p, keyword, loose, emptyGuard, q, c, o, e);
  }

  /** The parenthesised part of a found rule block: `(` at `q`, the first
      `)` after it at `c`. */
  lemma GuardSound(s: string, p: nat, keyword: string, loose: bool, emptyGuard: bool) returns (q: nat, c: nat)
    requires RuleBlockAt(s, p, keyword, loose, emptyGuard).Some?
    ensures OccursAt(s, keyword, p) && p + |keyword| <= q < c < |s|
    ensures loose ==> forall i :: p + |keyword| <= i < q ==> IsSpace(s[i])
    ensures !loose ==> q == p + |keyword|
    ensures s[q] == '(' && (forall i :: q < i < c ==> s[i] != ')') && s[c] == ')'
    ensures ')' !in s[q + 1..c]
    ensures RuleBlockAt(s, p, keyword, loose, emptyGuard) == AfterClose(s, p, q, c, loose, emptyGuard)
  {
    assert OccursAt(s, keyword, p);
    q := if loose then SkipSpace(s, p + |keyword|) else p + |keyword|;
    assert q < |s| && s[q] == '(';
    c := FindFrom(s, ")", q + 1).value;
    Unfold(s, p, keyword, loose, emptyGuard, q, c);
    CloseParenAt(s, q + 1, c);
  }

  /** The `)` that `find` reports is the first one from `from` on. */
  lemma CloseParenAt(s: string, from: nat, c: nat)
    requires FindFrom(s, ")", from) == Some(c)
    ensures from <= c < |s| && s[c] == ')'
    ensures forall i :: from <= i < c ==> s[i] != ')'
  {
    assert ")" == [')'];
    NoCharBetween(s, ')', from, c);
  }

  /** The rest of a found rule block: `{` at `o` after the gap, the first
      `}` after it at `e`. */
  lemma AfterCloseSound(s: string, p: nat, q: nat, c: nat, loose: bool, emptyGuard: bool) returns (o: nat, e: nat)
    requires p <= q < c < |s| && ')' !in s[q + 1..c]
    requires AfterClose(s, p, q, c, loose, emptyGuard).Some?
    ensures emptyGuard || q + 1 < c
    ensures c < o < e < |s|
    ensures if loose then forall i :: c < i < o ==> IsSpace(s[i]) else o == c + 2 && s[c + 1] == ' '
    ensures s[o] == '{' && (forall i :: o < i < e ==> s[i] != '}') && s[e] == '}'
    ensures AfterClose(s, p, q, c, loose, emptyGuard) == Some(Hit(p, e + 1, s[q + 1..c], s[o + 1..e]))
  {
    o := Gap(s, c, loose).value;
    GapSound(s, c, loose);
    e := ActionFromSound(s, p, q, c, o);
  }

  lemma RuleBlockAtComplete(s: string, p: nat, keyword: string, loose: bool, emptyGuard: bool,
                            q: nat, c: nat, o: nat, e: nat)
    requires RuleBlockShape(s, p, keyword, loose, emptyGuard, q, c, o, e)
    ensures RuleBlockAt(s, p, keyword, loose, emptyGuard) == Some(Hit(p, e + 1, s[q + 1..c], s[o + 1..e]))
  {
    GuardComplete(s, p, keyword, loose, emptyGuard, q, c);
    AfterCloseComplete(s, p, q, c, loose, emptyGuard, o, e);
  }

  lemma GuardComplete(s: string, p: nat, keyword: string, loose: bool, emptyGuard: bool, q: nat, c: nat)
    requires OccursAt(s, keyword, p) && p + |keyword| <= q < c < |s|
    requires loose ==> forall i :: p + |keyword| <= i < q ==> IsSpace(s[i])
    requires !loose ==> q == p + |keyword|
    requires s[q] == '(' && (forall i :: q < i < c ==> s[i] != ')') && s[c] == ')'
    ensures ')' !in s[q + 1..c]
    ensures RuleBlockAt(s, p, keyword, loose, emptyGuard) == AfterClose(s, p, q, c, loose, emptyGuard)
  {
    if loose {
      SkipCharsAt(s, Space, p + |keyword|, q);
    }
    assert q == if loose then SkipSpace(s, p + |keyword|) else p + |keyword|;
    CharBetween(s, ')', q + 1, c);
    FindCharAt(s, ')', q + 1, c);
    assert ")" == [')'];
    assert FindFrom(s, ")", q + 1) == Some(c);
    Unfold(s, p, keyword, loose, emptyGuard, q, c);
  }

  lemma AfterCloseComplete(s: string, p: nat, q: nat, c: nat, loose: bool, emptyGuard: bool, o: nat, e: nat)
    requires p <= q < c < o < e < |s| && ')' !in s[q + 1..c]
    requires emptyGuard || q + 1 < c
    requires loose ==> forall i :: c < i < o ==> IsSpace(s[i])
    requires !loose ==> o == c + 2 && s[c + 1] == ' '
    requires s[o] == '{' && (forall i :: o < i < e ==> s[i] != '}') && s[e] == '}'
    ensures AfterClose(s, p, q, c, loose, emptyGuard) == Some(Hit(p, e + 1, s[q + 1..c], s[o + 1..e]))
  {
    GapAt(s, c, loose, o);
    ActionFromAt(s, p, q, c, o, e);
  }

  /** What a found gap says about the text after `)`. */
  lemma GapSound(s: string, c: nat, loose: bool)
    requires c < |s| && Gap(s, c, loose).Some?
    ensures var o := Gap(s, c, loose).value;
            if loose then (forall i :: c < i < o ==> IsSpace(s[i])) && (o == |s| || !IsSpace(s[o]))
            else o == c + 2 && s[c + 1] == ' '
  {
  }

  lemma GapAt(s: string, c: nat, loose: bool, o: nat)
    requires c < o < |s| && s[o] == '{'
    requires loose ==> forall i :: c < i < o ==> IsSpace(s[i])
    requires !loose ==> o == c + 2 && s[c + 1] == ' '
    ensures Gap(s, c, loose) == Some(o)
  {
    if loose {
      SkipCharsAt(s, Space, c + 1, o);
    }
  }

  /** The action of a found rule block runs from the `{` at `o` to the first
      `}` after it, returned as `e`. */
  lemma ActionFromSound(s: string, p: nat, q: nat, c: nat, o: nat) returns (e: nat)
    requires p <= q < c < o && c < |s| && ')' !in s[q + 1..c]
    requires ActionFrom(s, p, q, c, o).Some?
    ensures o < e < |s| && s[o] == '{' && s[e] == '}' && forall i :: o < i < e ==> s[i] != '}'
    ensures ActionFrom(s, p, q, c, o) == Some(Hit(p, e + 1, s[q + 1..c], s[o + 1..e]))
  {
    e := FindFrom(s, "}", o + 1).value;
    assert "}" == ['}'];
    NoCharBetween(s, '}', o + 1, e);
  }

  lemma ActionFromAt(s: string, p: nat, q: nat, c: nat, o: nat, e: nat)
    requires p <= q < c < o < e < |s| && ')' !in s[q + 1..c]
    requires s[o] == '{' && s[e] == '}' && forall i :: o < i < e ==> s[i] != '}'
    ensures ActionFrom(s, p, q, c, o) == Some(Hit(p, e + 1, s[q + 1..c], s[o + 1..e]))
  {
    CharBetween(s, '}', o + 1, e);
    FindCharAt(s, '}', o + 1, e);
    assert "}" == ['}'];
    assert FindFrom(s, "}", o + 1) == Some(e);
  }

  /** `re.search(pat, s)`. */
  function SearchIn(pat: Pattern, s: string): Option<Hit> {
    Search(Scanner(pat, s), |s|, 0)
  }

  /** `re.search` reports the match at `p` when nothing matches before it. */
  lemma SearchFinds(pat: Pattern, s: string, p: nat)
    requires MatchAt(pat, s, p).Some?
    requires forall j: nat :: j < p ==> MatchAt(pat, s, j).None?
    ensures SearchIn(pat, s) == MatchAt(pat, s, p)
  {
    var at := Scanner(pat, s);
    var r := Search(at, |s|, 0);
    assert at(p).Some?;
    assert r.Some?;
    assert r.value.start == p;
  }

  /** The literal text each pattern starts with. */
  function Keyword(pat: Pattern): string {
    match pat
    case MonadName => "monad "
    case StateLiteral => "state:"
    case MemoryLiteral => "memory:"
    case FieldBlock => "on field"
    case TickBlock => "on tick"
    case RuleModifier => "rule-modifier {"
    case FieldSnippet => "on field"
    case TickSnippet => "on tick"
  }

  /** No keyword overlaps itself, so a keyword placed after a text that
      lacks it is the first one found. */
  lemma KeywordBorderFree(pat: Pattern)
    ensures NoBorder(Keyword(pat))
  {
  }

  /** A pattern matches only where its keyword occurs. */
  lemma MatchNeedsKeyword(pat: Pattern, s: string, p: nat)
    ensures MatchAt(pat, s, p).Some? ==> OccursAt(s, Keyword(pat), p)
  {
  }

  /** `re.search` reports the match at the first occurrence of the
      pattern's keyword when there is one there. */
  lemma SearchAtKeyword(pat: Pattern, s: string, p: nat)
    requires FindFrom(s, Keyword(pat), 0) == Some(p)
    requires MatchAt(pat, s, p).Some?
    ensures SearchIn(pat, s) == MatchAt(pat, s, p)
  {
    forall j: nat | j < p ensures MatchAt(pat, s, j).None? {
      MatchNeedsKeyword(pat, s, j);
    }
    SearchFinds(pat, s, p);
  }

  /** A pattern whose keyword starts `t` and does not occur in `pre` is
      found by `re.search` in `pre + t + rest` at `|pre|`, when it matches
      there. */
  lemma FoundAfter(pat: Pattern, pre: string, t: string, rest: string)
    requires !Contains(pre, Keyword(pat), 0) && OccursAt(t, Keyword(pat), 0)
    requires MatchAt(pat, pre + t + rest, |pre|).Some?
    ensures SearchIn(pat, pre + t + rest) == MatchAt(pat, pre + t + rest, |pre|)
  {
    var kw := Keyword(pat);
    KeywordBorderFree(pat);
    assert pre + t + rest == pre + (t + rest);
    assert (t + rest)[..|kw|] == t[..|kw|];
    FindAfter(pre, kw, t + rest);
    SearchAtKeyword(pat, pre + t + rest, |pre|);
  }

  /** `re.search` finds nothing when the pattern matches nowhere. */
  lemma NothingMatches(pat: Pattern, s: string)
    requires forall j: nat :: MatchAt(pat, s, j).None?
    ensures SearchIn(pat, s).None?
  {
    var r := SearchIn(pat, s);
    assert r.Some? ==> MatchAt(pat, s, r.value.start) == r;
  }

  /** Without its keyword a pattern is neither searched nor iterated to any
      match. */
  lemma KeywordAbsent(pat: Pattern, s: string)
    requires !Contains(s, Keyword(pat), 0)
    ensures SearchIn(pat, s).None? && FindAllIn(pat, s) == []
  {
    forall j: nat ensures MatchAt(pat, s, j).None? {
      MatchNeedsKeyword(pat, s, j);
    }
    NothingMatches(pat, s);
    FirstHit(FindAllIn(pat, s));
  }

  lemma FirstHit(r: seq<Hit>)
    ensures |r| > 0 ==> r[0] in r
  {
  }

  /** `re.finditer(pat, s)`. */
  function FindAllIn(pat: Pattern, s: string): (r: seq<Hit>)
    ensures forall i :: 0 <= i < |r| ==> MatchAt(pat, s, r[i].start) == Some(r[i])
    ensures forall i :: 0 < i < |r| ==> r[i - 1].end <= r[i].start
    ensures forall j: nat :: MatchAt(pat, s, j).Some? ==> Covered(r, j)
  {
    FindAll(Scanner(pat, s), |s|, 0)
  }
}
