/** `parse_mpl_code`: from source text to a `MonadDefinition`.

    The front end finds `monad `, the first `{` after it, and the `}` at
    which the brace depth counted from that `{` first returns to zero; the
    text strictly between them is the body. The body is then searched,
    independently, for the initial state, the memory literal, the field and
    tick rules and the trailing rule-modifier script. */
module Parser {
  import opened Wrappers
  import opened Text
  import opened Patterns
  import opened Values

  /** The source raises one `ValueError("Invalid monad definition")` for
      every way of failing. */
  datatype ParseError = InvalidMonadDefinition

  /** The located definition block. */
  datatype Block = Block(start: nat, braceStart: nat, close: nat, name: string, body: string)

  // ---------------------------------------------------------------------------
  // Brace matching

  /** Opening minus closing braces in `s`. */
  function Net(s: string): int {
    Count(s, '{') - Count(s, '}')
  }

  /** `i` is where the depth counted from the `{` at `bs` first returns to
      zero: `code[i]` closes it and every earlier prefix is still open. */
  ghost predicate ClosesAt(code: string, bs: nat, i: nat) {
    bs < i < |code| && code[i] == '}' && Net(code[bs..i + 1]) == 0
    && forall k :: bs < k <= i ==> Net(code[bs..k]) > 0
  }

  /** A brace-balanced text: as many `{` as `}`, and no prefix with more `}`
      than `{`. */
  ghost predicate Balanced(b: string) {
    Count(b, '{') == Count(b, '}')
    && forall k :: 0 <= k <= |b| ==> Count(b[..k], '}') <= Count(b[..k], '{')
  }

  lemma NetStep(code: string, bs: nat, i: nat)
    requires bs <= i < |code|
    ensures Net(code[bs..i + 1]) == Net(code[bs..i]) + (if code[i] == '{' then 1 else if code[i] == '}' then -1 else 0)
  {
    assert code[bs..i + 1][..i - bs] == code[bs..i];
  }

  /** The counting loop, from index `i` with `count` the depth so far. As in
      the source, the name test (`named`) is made each time the depth drops
      to zero, and a failed test lets the loop run on. */
  function ScanClose(code: string, bs: nat, i: nat, count: int, named: bool): (r: Option<nat>)
    requires bs < |code| && code[bs] == '{'
    requires bs <= i <= |code|
    requires count == Net(code[bs..i])
    requires named ==> forall k :: bs < k <= i ==> Net(code[bs..k]) > 0
    ensures !named ==> r.None?
    ensures named && r.Some? ==> ClosesAt(code, bs, r.value)
    ensures named && r.None? ==> forall j :: !ClosesAt(code, bs, j)
    decreases |code| - i
  {
    if i == |code| then None
    else
      NetStep(code, bs, i);
      if code[i] == '{' then ScanClose(code, bs, i + 1, count + 1, named)
      else if code[i] == '}' then
        if count - 1 == 0 && named then Some(i)
        else ScanClose(code, bs, i + 1, count - 1, named)
      else ScanClose(code, bs, i + 1, count, named)
  }

  /** The text between an opening brace and the brace that closes it is
      balanced. */
  lemma {:induction false} ClosedBodyBalanced(code: string, bs: nat, i: nat)
    requires bs < |code| && code[bs] == '{'
    requires ClosesAt(code, bs, i)
    ensures Balanced(code[bs + 1..i])
  {
    var b := code[bs + 1..i];
    forall k | 0 <= k <= |b| ensures Net(code[bs..bs + 1 + k]) == 1 + Net(b[..k]) {
      assert code[bs..bs + 1 + k] == [code[bs]] + b[..k];
      CountAppend([code[bs]], b[..k], '{');
      CountAppend([code[bs]], b[..k], '}');
    }
    forall k | 0 <= k <= |b| ensures Count(b[..k], '}') <= Count(b[..k], '{') {
      assert Net(code[bs..bs + 1 + k]) > 0;
    }
    NetStep(code, bs, i);
    assert b[..|b|] == b;
  }

  /** The definition block of `code`, or the error the source raises. */
  function MonadBlock(code: string): (r: Result<Block, ParseError>)
    ensures r.Success? ==>
              var b := r.value;
              && FirstOccurrence(code, "monad ", 0, b.start)
              && FirstOccurrence(code, "{", b.start, b.braceStart)
              && ClosesAt(code, b.braceStart, b.close)
              && b.body == code[b.braceStart + 1..b.close]
              && Balanced(b.body)
              && SearchIn(MonadName, code[b.start..b.braceStart]).Some?
              && b.name == SearchIn(MonadName, code[b.start..b.braceStart]).value.group1
              && b.name != [] && forall k :: 0 <= k < |b.name| ==> IsWordChar(b.name[k])
  {
    match FindFrom(code, "monad ", 0)
    case None => Failure(InvalidMonadDefinition)
    case Some(start) =>
      match FindFrom(code, "{", start)
      case None => Failure(InvalidMonadDefinition)
      case Some(bs) =>
        assert code[bs..bs + 1] == "{";
        BlockAt(code, start, bs)
  }

  /** The block whose brace is the `{` at `bs`, with the name searched for
      in `code[start..bs]`. */
  function BlockAt(code: string, start: nat, bs: nat): (r: Result<Block, ParseError>)
    requires start <= bs < |code| && code[bs] == '{'
    ensures r.Success? ==>
              var b := r.value;
              && b.start == start && b.braceStart == bs
              && ClosesAt(code, bs, b.close)
              && b.body == code[bs + 1..b.close]
              && Balanced(b.body)
              && SearchIn(MonadName, code[start..bs]).Some?
              && b.name == SearchIn(MonadName, code[start..bs]).value.group1
              && b.name != [] && forall k :: 0 <= k < |b.name| ==> IsWordChar(b.name[k])
  {
    var nameHit := SearchIn(MonadName, code[start..bs]);
    match ScanClose(code, bs, bs, 0, nameHit.Some?)
    case None => Failure(InvalidMonadDefinition)
    case Some(i) =>
      ClosedBodyBalanced(code, bs, i);
      Success(Block(start, bs, i, nameHit.value.group1, code[bs + 1..i]))
  }

  /** From an opening brace followed by a balanced text, the depth first
      returns to zero at the `}` right after that text. */
  lemma BalancedCloses(code: string, bs: nat, b: string)
    requires bs + |b| + 1 < |code| && code[bs] == '{' && code[bs + 1 + |b|] == '}'
    requires code[bs + 1..bs + 1 + |b|] == b
    requires Balanced(b)
    ensures ClosesAt(code, bs, bs + 1 + |b|)
  {
    var i := bs + 1 + |b|;
    forall k | bs < k <= i ensures Net(code[bs..k]) > 0 {
      var j := k - bs - 1;
      assert code[bs..k] == [code[bs]] + b[..j];
      CountAppend([code[bs]], b[..j], '{');
      CountAppend([code[bs]], b[..j], '}');
    }
    assert code[bs..i + 1] == [code[bs]] + b + [code[i]];
    CountAppend([code[bs]] + b, [code[i]], '{');
    CountAppend([code[bs]] + b, [code[i]], '}');
    CountAppend([code[bs]], b, '{');
    CountAppend([code[bs]], b, '}');
  }

  /** The depth first returns to zero at one index only. */
  lemma ClosesAtUnique(code: string, bs: nat, i: nat, j: nat)
    requires ClosesAt(code, bs, i) && ClosesAt(code, bs, j)
    ensures i == j
  {
  }

  /** The front end's outcome once `monad ` and the `{` after it are found:
      exactly what the counting loop from that brace yields. */
  lemma BlockByScan(code: string, start: nat, bs: nat)
    requires FindFrom(code, "monad ", 0) == Some(start)
    requires FindFrom(code, "{", start) == Some(bs)
    ensures bs < |code| && code[bs] == '{'
    ensures var nameHit := SearchIn(MonadName, code[start..bs]);
            match ScanClose(code, bs, bs, 0, nameHit.Some?)
            case None => MonadBlock(code).Failure?
            case Some(i) =>
              MonadBlock(code) == Success(Block(start, bs, i, nameHit.value.group1, code[bs + 1..i]))
  {
    assert code[bs..bs + 1] == "{";
    assert MonadBlock(code) == BlockAt(code, start, bs);
  }

  lemma FirstOccurrenceUnique(s: string, pat: string, from: nat, a: nat, b: nat)
    requires FirstOccurrence(s, pat, from, a) && FirstOccurrence(s, pat, from, b)
    ensures a == b
  {
  }

  /** The three ways the front end fails, and nothing else: no `monad `; no
      `{` after it; or, from that `{`, no closing brace or no `monad <word>`
      before the brace. */
  lemma MonadBlockCases(code: string)
    ensures !Contains(code, "monad ", 0) ==> MonadBlock(code).Failure?
    ensures forall start: nat :: FirstOccurrence(code, "monad ", 0, start) && !Contains(code, "{", start) ==>
              MonadBlock(code).Failure?
    ensures forall start: nat, bs: nat :: FirstOccurrence(code, "monad ", 0, start) && FirstOccurrence(code, "{", start, bs) ==>
              (MonadBlock(code).Success? <==>
                 SearchIn(MonadName, code[start..bs]).Some? && exists i :: ClosesAt(code, bs, i))
  {
    match FindFrom(code, "monad ", 0)
    case None =>
    case Some(start) =>
      forall start': nat | FirstOccurrence(code, "monad ", 0, start') ensures start' == start {
        FirstOccurrenceUnique(code, "monad ", 0, start, start');
      }
      match FindFrom(code, "{", start)
      case None =>
      case Some(bs) =>
        forall bs': nat | FirstOccurrence(code, "{", start, bs') ensures bs' == bs {
          FirstOccurrenceUnique(code, "{", start, bs, bs');
        }
        assert code[bs..bs + 1] == "{";
        var named := SearchIn(MonadName, code[start..bs]).Some?;
        var scan := ScanClose(code, bs, bs, 0, named);
        if named && scan.Some? {
          assert ClosesAt(code, bs, scan.value);
        }
  }

  // ---------------------------------------------------------------------------
  // Body extraction

  /** The initial state: the first quoted `state:` literal, if any. */
  function ParseState(body: string): (r: State)
    ensures r.Some? ==> r.value != [] && '\'' !in r.value
    ensures r.Some? <==> SearchIn(StateLiteral, body).Some?
    ensures r.Some? ==> r.value == SearchIn(StateLiteral, body).value.group1
  {
    match SearchIn(StateLiteral, body)
    case None => None
    case Some(h) => Some(h.group1)
  }

  /** Each part of the body is empty when the body lacks its keyword. */
  lemma AbsentParts(body: string)
    ensures !Contains(body, "state:", 0) ==> ParseState(body).None?
    ensures !Contains(body, "memory:", 0) ==> ParseMemory(body) == map[]
    ensures !Contains(body, "on field", 0) ==> RulesOfKind(FieldType, body) == []
    ensures !Contains(body, "on tick", 0) ==> RulesOfKind(TickType, body) == []
    ensures !Contains(body, "rule-modifier {", 0) ==> MetaRules(body) == []
  {
    NoStateWithout(body);
    NoMemoryWithout(body);
    NoRulesWithout(FieldType, body);
    NoRulesWithout(TickType, body);
    NoMetaWithout(body);
  }

  lemma NoStateWithout(body: string)
    ensures !Contains(body, "state:", 0) ==> ParseState(body).None?
  {
    if !Contains(body, "state:", 0) {
      KeywordAbsent(StateLiteral, body);
    }
  }

  lemma NoMemoryWithout(body: string)
    ensures !Contains(body, "memory:", 0) ==> ParseMemory(body) == map[]
  {
    if !Contains(body, "memory:", 0) {
      KeywordAbsent(MemoryLiteral, body);
    }
  }

  lemma NoRulesWithout(kind: RuleType, body: string)
    ensures kind == FieldType && !Contains(body, "on field", 0) ==> RulesOfKind(kind, body) == []
    ensures kind == TickType && !Contains(body, "on tick", 0) ==> RulesOfKind(kind, body) == []
  {
    if kind == FieldType && !Contains(body, "on field", 0) {
      KeywordAbsent(FieldBlock, body);
    }
    if kind == TickType && !Contains(body, "on tick", 0) {
      KeywordAbsent(TickBlock, body);
    }
  }

  lemma NoMetaWithout(body: string)
    ensures !Contains(body, "rule-modifier {", 0) ==> MetaRules(body) == []
  {
    if !Contains(body, "rule-modifier {", 0) {
      KeywordAbsent(RuleModifier, body);
    }
  }

  /** The text `state:<sp>'<v>'`. */
  function StateText(sp: string, v: string): string {
    "state:" + sp + "'" + v + "'"
  }

  /** A body holding `state: '<v>'` after text without `state:` has initial
      state `v`. */
  lemma StateRoundTrip(pre: string, sp: string, v: string, rest: string)
    requires !Contains(pre, "state:", 0)
    requires forall i :: 0 <= i < |sp| ==> IsSpace(sp[i])
    requires v != [] && '\'' !in v
    ensures ParseState(pre + StateText(sp, v) + rest) == Some(v)
  {
    var body := pre + StateText(sp, v) + rest;
    var q, c := StateShapeIn(pre, sp, v, rest);
    StateAtComplete(body, |pre|, q, c);
    FoundAfter(StateLiteral, pre, StateText(sp, v), rest);
  }

  lemma StateShapeIn(pre: string, sp: string, v: string, rest: string) returns (q: nat, c: nat)
    requires forall i :: 0 <= i < |sp| ==> IsSpace(sp[i])
    requires v != [] && '\'' !in v
    ensures var body := pre + StateText(sp, v) + rest;
            StateShape(body, |pre|, q, c) && body[q + 1..c] == v
            && OccursAt(StateText(sp, v), "state:", 0)
  {
    var t := StateText(sp, v);
    var body := pre + t + rest;
    StateTextShape(sp, v);
    var p := |pre|;
    q, c := p + 6 + |sp|, p + |t| - 1;
    assert forall i :: p <= i < p + |t| ==> body[i] == t[i - p];
    assert StateShape(body, p, q, c);
    assert body[q + 1..c] == t[7 + |sp|..|t| - 1];
  }

  lemma StateTextShape(sp: string, v: string)
    requires forall i :: 0 <= i < |sp| ==> IsSpace(sp[i])
    requires v != [] && '\'' !in v
    ensures var t := StateText(sp, v);
            && |t| == 8 + |sp| + |v| && t[..6] == "state:"
            && (forall i :: 6 <= i < 6 + |sp| ==> IsSpace(t[i]))
            && t[6 + |sp|] == '\'' && t[|t| - 1] == '\''
            && (forall i :: 7 + |sp| <= i < |t| - 1 ==> t[i] != '\'')
            && t[7 + |sp|..|t| - 1] == v
  {
    var t := StateText(sp, v);
    assert forall i :: 6 <= i < 6 + |sp| ==> t[i] == sp[i - 6];
    assert forall i :: 7 + |sp| <= i < |t| - 1 ==> t[i] == v[i - 7 - |sp|];
    assert t[7 + |sp|..|t| - 1] == v;
  }

  /** One `key: value` piece of the memory literal: `None` when it holds no
      `:`; otherwise the text before the first `:` stripped of whitespace and
      then of quotes, and the rest stripped of whitespace, read as an integer
      when it is one. */
  function MemoryEntry(piece: string): (r: Option<(string, Value)>)
    ensures r.Some? <==> ':' in piece
    ensures r.Some? ==> var key := r.value.0;
              key == [] || (!InClass(key[0], Quote) && !InClass(key[|key| - 1], Quote))
    ensures r.Some? && r.value.1.TextV? ==> forall c :: c in r.value.1.s ==> c in piece
    ensures r.Some? ==> r.value.1.IntV? || r.value.1.TextV?
  {
    match FindFrom(piece, ":", 0)
    case None =>
      assert ':' !in piece by {
        forall j | 0 <= j < |piece| ensures piece[j] != ':' {
          assert !OccursAt(piece, ":", j);
          assert piece[j..j + 1] == [piece[j]];
        }
      }
      None
    case Some(k) =>
      assert piece[k..k + 1] == [piece[k]];
      var key := Strip(Strip(piece[..k], Space), Quote);
      var text := Strip(piece[k + 1..], Space);
      assert forall c :: c in text ==> c in piece by {
        forall c | c in text ensures c in piece {
          assert c in piece[k + 1..];
          var j :| 0 <= j < |piece[k + 1..]| && piece[k + 1..][j] == c;
          assert piece[k + 1 + j] == c;
        }
      }
      Some((key, match ParseInt(text) case Some(n) => IntV(n) case None => TextV(text)))
  }

  /** The entry of a piece whose first `:` is at `k`: the key is the text
      before it stripped of whitespace and then of quotes, the value the text
      after it stripped of whitespace, an integer when it reads as one. */
  lemma MemoryEntryAt(piece: string, k: nat)
    requires k < |piece| && piece[k] == ':' && ':' !in piece[..k]
    ensures var text := Strip(piece[k + 1..], Space);
            MemoryEntry(piece) == Some((Strip(Strip(piece[..k], Space), Quote),
                                        if ParseInt(text).Some? then IntV(ParseInt(text).value) else TextV(text)))
  {
    FindCharAt(piece, ':', 0, k);
    assert ":" == [':'];
  }

  /** Text that `strip` of `cs` leaves unchanged at both ends: non-empty and
      neither starting nor ending with a character of `cs`. */
  predicate Solid(t: string, cs: CharClass) {
    t != [] && Unpadded(t, cs)
  }

  predicate Blank(w: string) {
    forall i :: 0 <= i < |w| ==> IsSpace(w[i])
  }

  /** A piece `<key> : <n>`, with any whitespace around the key and the
      number, reads back as the entry `key: n`. */
  lemma MemoryEntryInt(w1: string, key: string, w2: string, w3: string, n: int, w4: string)
    requires Solid(key, Space) && Solid(key, Quote) && ':' !in key
    requires Blank(w1) && Blank(w2) && Blank(w3) && Blank(w4)
    ensures MemoryEntry(w1 + key + w2 + ":" + w3 + ShowInt(n) + w4) == Some((key, IntV(n)))
  {
    ShowIntSolid(n);
    ParseIntShowInt(n);
    MemoryEntryParts(w1, key, w2, w3, ShowInt(n), w4);
  }

  /** A piece `<key> : <text>` whose text is not an integer reads back as the
      entry `key: "text"`. */
  lemma MemoryEntryText(w1: string, key: string, w2: string, w3: string, text: string, w4: string)
    requires Solid(key, Space) && Solid(key, Quote) && ':' !in key
    requires Solid(text, Space) && ParseInt(text).None?
    requires Blank(w1) && Blank(w2) && Blank(w3) && Blank(w4)
    ensures MemoryEntry(w1 + key + w2 + ":" + w3 + text + w4) == Some((key, TextV(text)))
  {
    MemoryEntryParts(w1, key, w2, w3, text, w4);
  }

  /** The decimal text of an integer is not padded with whitespace. */
  lemma ShowIntSolid(n: int)
    ensures Solid(ShowInt(n), Space) && ':' !in ShowInt(n)
  {
    ShowIntChars(n);
    assert ShowInt(n)[0] in ShowInt(n);
  }

  lemma MemoryEntryParts(w1: string, key: string, w2: string, w3: string, text: string, w4: string)
    requires Solid(key, Space) && Solid(key, Quote) && ':' !in key
    requires Solid(text, Space)
    requires Blank(w1) && Blank(w2) && Blank(w3) && Blank(w4)
    ensures MemoryEntry(w1 + key + w2 + ":" + w3 + text + w4) ==
              Some((key, match ParseInt(text) case Some(n) => IntV(n) case None => TextV(text)))
  {
    var left := w1 + key + w2;
    var right := w3 + text + w4;
    var piece := left + ":" + right;
    assert w1 + key + w2 + ":" + w3 + text + w4 == piece;
    assert ':' !in left;
    assert piece[|left|] == ':' && piece[..|left|] == left && piece[|left| + 1..] == right;
    FindCharAt(piece, ':', 0, |left|);
    StripPadded(w1, key, w2, Space);
    assert [] + key + [] == key;
    StripPadded([], key, [], Quote);
    StripPadded(w3, text, w4, Space);
  }

  /** The memory built from the entries in order: a later entry with the
      same key overwrites an earlier one; `None` entries are skipped. */
  function EntriesToMemory(entries: seq<Option<(string, Value)>>): (m: Memory)
    ensures forall k :: k in m ==> exists i :: 0 <= i < |entries| && entries[i].Some? && entries[i].value.0 == k
    ensures forall i :: 0 <= i < |entries| && entries[i].Some? ==> entries[i].value.0 in m
    ensures forall k :: k in m ==> exists i :: 0 <= i < |entries| && entries[i] == Some((k, m[k]))
  {
    if |entries| == 0 then map[]
    else
      var init := entries[..|entries| - 1];
      var m := EntriesToMemory(init);
      assert forall i :: 0 <= i < |init| ==> init[i] == entries[i];
      match entries[|entries| - 1]
      case None => m
      case Some(entry) => m[entry.0 := entry.1]
  }

  /** The index of the last entry whose key is `k`, or -1. */
  function LastKeyIndex(entries: seq<Option<(string, Value)>>, k: string): (r: int)
    ensures -1 <= r < |entries|
    ensures r >= 0 ==> entries[r].Some? && entries[r].value.0 == k
    ensures forall j :: r < j < |entries| && entries[j].Some? ==> entries[j].value.0 != k
  {
    if |entries| == 0 then -1
    else if entries[|entries| - 1].Some? && entries[|entries| - 1].value.0 == k then |entries| - 1
    else LastKeyIndex(entries[..|entries| - 1], k)
  }

  /** A key is in the memory exactly when some entry has it, and its value
      is the value of the last such entry. */
  lemma {:induction false} LastEntryWins(entries: seq<Option<(string, Value)>>, k: string)
    ensures k in EntriesToMemory(entries) <==> LastKeyIndex(entries, k) >= 0
    ensures k in EntriesToMemory(entries) ==>
              EntriesToMemory(entries)[k] == entries[LastKeyIndex(entries, k)].value.1
  {
    if |entries| > 0 {
      var init := entries[..|entries| - 1];
      LastEntryWins(init, k);
      var e := entries[|entries| - 1];
      if !(e.Some? && e.value.0 == k) {
        assert LastKeyIndex(entries, k) == LastKeyIndex(init, k);
        if LastKeyIndex(init, k) >= 0 {
          assert entries[LastKeyIndex(init, k)] == init[LastKeyIndex(init, k)];
        }
      }
    }
  }

  /** The memory literal, read by the manual fallback: quotes `'` become
      `"`, the braces are stripped, the text is split at commas, and each
      piece is read by `MemoryEntry`. */
  function ParseMemory(body: string): (m: Memory)
    ensures SearchIn(MemoryLiteral, body).None? ==> m == map[]
    ensures forall k :: k in m ==> m[k].IntV? || m[k].TextV?
    ensures forall k :: k in m && m[k].TextV? ==> '\'' !in m[k].s
  {
    match SearchIn(MemoryLiteral, body)
    case None => map[]
    case Some(h) =>
      var literal := ReplaceChar(h.group1, '\'', '"');
      var inner := Strip(literal, Brace);
      var pieces := SplitOn(inner, ',');
      var entries := MemoryEntries(h.group1);
      var m := EntriesToMemory(entries);
      assert forall k :: k in m ==> (m[k].IntV? || m[k].TextV?) && (m[k].TextV? ==> '\'' !in m[k].s) by {
        forall k | k in m ensures (m[k].IntV? || m[k].TextV?) && (m[k].TextV? ==> '\'' !in m[k].s) {
          var i :| 0 <= i < |entries| && entries[i] == Some((k, m[k]));
          assert '\'' !in inner;
          assert '\'' !in pieces[i];
        }
      }
      m
  }

  /** The pieces of a memory literal: quotes `'` become `"`, the braces
      are stripped and the text is split at commas. */
  function MemoryPieces(literal: string): seq<string> {
    SplitOn(Strip(ReplaceChar(literal, '\'', '"'), Brace), ',')
  }

  /** The entry each piece of a memory literal yields, in order. */
  function MemoryEntries(literal: string): (entries: seq<Option<(string, Value)>>)
    ensures |entries| == |MemoryPieces(literal)|
    ensures forall i :: 0 <= i < |entries| ==> entries[i] == MemoryEntry(MemoryPieces(literal)[i])
  {
    var pieces := MemoryPieces(literal);
    seq(|pieces|, i requires 0 <= i < |pieces| => MemoryEntry(pieces[i]))
  }

  /** Some piece yields an entry with key `k`. */
  predicate Yields(pieces: seq<string>, k: string) {
    exists i :: 0 <= i < |pieces| && MemoryEntry(pieces[i]).Some? && MemoryEntry(pieces[i]).value.0 == k
  }

  /** The last piece yielding key `k` yields `(k, v)`. */
  predicate LastYields(pieces: seq<string>, k: string, v: Value) {
    exists i :: 0 <= i < |pieces| && MemoryEntry(pieces[i]) == Some((k, v))
      && forall j :: i < j < |pieces| && MemoryEntry(pieces[j]).Some? ==> MemoryEntry(pieces[j]).value.0 != k
  }

  /** The memory read from a literal: a key is present exactly when some
      piece yields it, and then holds the value of the last such piece. */
  lemma ParseMemoryPieces(body: string, k: string)
    requires SearchIn(MemoryLiteral, body).Some?
    ensures var pieces := MemoryPieces(SearchIn(MemoryLiteral, body).value.group1);
            && (k in ParseMemory(body) <==> Yields(pieces, k))
            && (k in ParseMemory(body) ==> LastYields(pieces, k, ParseMemory(body)[k]))
  {
    var lit := SearchIn(MemoryLiteral, body).value.group1;
    assert ParseMemory(body) == EntriesToMemory(MemoryEntries(lit));
    PiecesLastWins(lit, k);
  }

  lemma PiecesLastWins(lit: string, k: string)
    ensures var m := EntriesToMemory(MemoryEntries(lit));
            && (k in m <==> Yields(MemoryPieces(lit), k))
            && (k in m ==> LastYields(MemoryPieces(lit), k, m[k]))
  {
    var entries := MemoryEntries(lit);
    var pieces := MemoryPieces(lit);
    LastEntryWins(entries, k);
    var r := LastKeyIndex(entries, k);
    if r >= 0 {
      assert MemoryEntry(pieces[r]) == entries[r];
      forall j | r < j < |pieces| && MemoryEntry(pieces[j]).Some? ensures MemoryEntry(pieces[j]).value.0 != k {
        assert entries[j] == MemoryEntry(pieces[j]);
      }
      assert Yields(pieces, k);
      assert LastYields(pieces, k, entries[r].value.1);
    }
    if Yields(pieces, k) {
      var i :| 0 <= i < |pieces| && MemoryEntry(pieces[i]).Some? && MemoryEntry(pieces[i]).value.0 == k;
      assert entries[i] == MemoryEntry(pieces[i]);
    }
  }

  /** The text `memory:<sp>{<key>: <n>}`. */
  function MemoryText(sp: string, key: string, n: int): string {
    "memory:" + sp + "{" + key + ": " + ShowInt(n) + "}"
  }

  /** A non-empty run of word characters, as names and keys are usually
      written. */
  predicate IsWord(w: string) {
    w != [] && forall i :: 0 <= i < |w| ==> IsWordChar(w[i])
  }

  /** A body holding a one-entry memory literal `{<key>: <n>}` after text
      without `memory:` has exactly that memory. */
  lemma MemoryRoundTrip(pre: string, sp: string, key: string, n: int, rest: string)
    requires !Contains(pre, "memory:", 0)
    requires Blank(sp) && IsWord(key)
    ensures ParseMemory(pre + MemoryText(sp, key, n) + rest) == map[key := IntV(n)]
  {
    var body := pre + MemoryText(sp, key, n) + rest;
    var q, c := MemoryShapeIn(pre, sp, key, n, rest);
    MemoryAtComplete(body, |pre|, q, c);
    FoundAfter(MemoryLiteral, pre, MemoryText(sp, key, n), rest);
    MemoryLiteralReads(key, n);
  }

  /** The text `{<key>: <n>}`. */
  function EntryLiteral(key: string, n: int): string {
    "{" + key + ": " + ShowInt(n) + "}"
  }

  lemma MemoryShapeIn(pre: string, sp: string, key: string, n: int, rest: string) returns (q: nat, c: nat)
    requires Blank(sp) && IsWord(key)
    ensures var body := pre + MemoryText(sp, key, n) + rest;
            MemoryShape(body, |pre|, q, c) && body[q..c + 1] == EntryLiteral(key, n)
            && OccursAt(MemoryText(sp, key, n), "memory:", 0)
  {
    var t := MemoryText(sp, key, n);
    var body := pre + t + rest;
    MemoryTextShape(sp, key, n);
    var p := |pre|;
    q, c := p + 7 + |sp|, p + |t| - 1;
    Embedded(pre, t, rest);
    assert body[p..p + 7] == t[0..7];
    assert OccursAt(body, "memory:", p);
    assert forall i :: p + 7 <= i < q ==> IsSpace(body[i]);
    assert body[q] == '{' && body[c] == '}';
    assert forall i :: q < i < c ==> body[i] != '}';
    assert body[q..c + 1] == t[7 + |sp|..|t|];
  }

  lemma MemoryTextShape(sp: string, key: string, n: int)
    requires Blank(sp) && IsWord(key)
    ensures var t := MemoryText(sp, key, n);
            && |t| > 8 + |sp| && t[..7] == "memory:"
            && (forall i :: 7 <= i < 7 + |sp| ==> IsSpace(t[i]))
            && t[7 + |sp|] == '{' && t[|t| - 1] == '}'
            && (forall i :: 7 + |sp| < i < |t| - 1 ==> t[i] != '}')
            && t[7 + |sp|..] == EntryLiteral(key, n)
  {
    var e := EntryLiteral(key, n);
    assert MemoryText(sp, key, n) == "memory:" + sp + e;
    EntryLiteralShape(key, n);
    PrefixedShape(sp, e);
  }

  /** `memory:<sp><e>` for an `e` that runs from `{` to its first `}`. */
  lemma PrefixedShape(sp: string, e: string)
    requires Blank(sp) && |e| >= 2 && e[0] == '{' && e[|e| - 1] == '}'
    requires forall i :: 0 < i < |e| - 1 ==> e[i] != '}'
    ensures var t := "memory:" + sp + e;
            && |t| > 8 + |sp| && t[..7] == "memory:"
            && (forall i :: 7 <= i < 7 + |sp| ==> IsSpace(t[i]))
            && t[7 + |sp|] == '{' && t[|t| - 1] == '}'
            && (forall i :: 7 + |sp| < i < |t| - 1 ==> t[i] != '}')
            && t[7 + |sp|..] == e
  {
    var t := "memory:" + sp + e;
    Embedded("memory:", sp, e);
    assert t[7 + |sp|..] == e;
    SuffixIndex(t, 7 + |sp|, e);
  }

  lemma SuffixIndex(t: string, k: nat, e: string)
    requires k <= |t| && t[k..] == e
    ensures forall i :: k <= i < |t| ==> t[i] == e[i - k]
  {
    forall i | k <= i < |t| ensures t[i] == e[i - k] {
      assert t[k..][i - k] == t[i];
    }
  }

  lemma EntryLiteralShape(key: string, n: int)
    requires IsWord(key)
    ensures var e := EntryLiteral(key, n);
            e[0] == '{' && e[|e| - 1] == '}' && forall i :: 0 < i < |e| - 1 ==> e[i] != '}'
  {
    var e := EntryLiteral(key, n);
    var d := ShowInt(n);
    ShowIntChars(n);
    assert forall i :: 1 <= i < 1 + |key| ==> e[i] == key[i - 1];
    assert forall i :: 3 + |key| <= i < |e| - 1 ==> e[i] == d[i - 3 - |key|] && e[i] in d;
  }

  /** The fallback reading of `{<key>: <n>}` is the one-entry memory. */
  lemma MemoryLiteralReads(key: string, n: int)
    requires IsWord(key)
    ensures var literal := ReplaceChar(EntryLiteral(key, n), '\'', '"');
            var pieces := SplitOn(Strip(literal, Brace), ',');
            EntriesToMemory(seq(|pieces|, i requires 0 <= i < |pieces| => MemoryEntry(pieces[i])))
              == map[key := IntV(n)]
  {
    var inner := key + ": " + ShowInt(n);
    LiteralInner(key, n);
    SplitWithout(inner, ',');
    var pieces := SplitOn(Strip(ReplaceChar(EntryLiteral(key, n), '\'', '"'), Brace), ',');
    assert pieces == [inner];
    InnerEntry(key, n);
    var entries := seq(|pieces|, i requires 0 <= i < |pieces| => MemoryEntry(pieces[i]));
    assert entries == [Some((key, IntV(n)))];
    SingleEntry(key, IntV(n));
  }

  lemma SingleEntry(key: string, v: Value)
    ensures EntriesToMemory([Some((key, v))]) == map[key := v]
  {
    assert [Some((key, v))][..0] == [];
  }

  /** What word characters are not. */
  lemma WordPlain(key: string)
    requires IsWord(key)
    ensures Solid(key, Space) && Solid(key, Quote)
    ensures ':' !in key && ',' !in key && '}' !in key && '{' !in key && '\'' !in key
  {
    assert IsWordChar(key[0]) && IsWordChar(key[|key| - 1]);
  }

  lemma LiteralInner(key: string, n: int)
    requires IsWord(key)
    ensures var inner := key + ": " + ShowInt(n);
            Strip(ReplaceChar(EntryLiteral(key, n), '\'', '"'), Brace) == inner && ',' !in inner
  {
    var e := EntryLiteral(key, n);
    var inner := key + ": " + ShowInt(n);
    InnerPlain(key, n);
    assert e == "{" + inner + "}";
    assert '\'' !in e by {
      assert forall c :: c in e ==> c == '{' || c == '}' || c in inner;
    }
    ReplaceAbsent(e, '\'', '"');
    StripPadded("{", inner, "}", Brace);
  }

  /** The inside of `{<key>: <n>}` holds neither quote nor comma, and starts
      and ends with no brace. */
  lemma InnerPlain(key: string, n: int)
    requires IsWord(key)
    ensures var inner := key + ": " + ShowInt(n);
            '\'' !in inner && ',' !in inner && Solid(inner, Brace)
  {
    var inner := key + ": " + ShowInt(n);
    WordPlain(key);
    ShowIntChars(n);
    assert forall c :: c in inner ==> c in key || c in ": " || c in ShowInt(n);
    assert inner[0] == key[0] && inner[|inner| - 1] == ShowInt(n)[|ShowInt(n)| - 1];
  }

  lemma InnerEntry(key: string, n: int)
    requires IsWord(key)
    ensures MemoryEntry(key + ": " + ShowInt(n)) == Some((key, IntV(n)))
  {
    WordPlain(key);
    assert key + ": " + ShowInt(n) == [] + key + [] + ":" + " " + ShowInt(n) + [];
    assert Blank([]) && Blank(" ");
    MemoryEntryInt([], key, [], " ", n, []);
  }

  /** A rule of `kind` from one block match: both groups are stripped. */
  function RuleOf(kind: RuleType, h: Hit): Rule {
    var guard := Strip(h.group1, Space);
    var action := Strip(h.group2, Space);
    if kind == FieldType then FieldRule(guard, action) else TickRule(guard, action)
  }

  function BlockPattern(kind: RuleType): Pattern {
    if kind == FieldType then FieldBlock else TickBlock
  }

  /** Rules whose guards and actions hold no `)` and no `}`. */
  predicate CleanRules(rules: seq<Rule>) {
    forall i :: 0 <= i < |rules| ==> ')' !in rules[i].Guard() && '}' !in rules[i].action
  }

  /** A rule read from a block match has the kind asked for, and neither its
      guard holds `)` nor its action `}`. */
  lemma RuleOfBlock(kind: RuleType, s: string, h: Hit)
    requires MatchAt(BlockPattern(kind), s, h.start) == Some(h)
    ensures var r := RuleOf(kind, h); r.Kind() == kind && ')' !in r.Guard() && '}' !in r.action
  {
    assert ')' !in h.group1 && '}' !in h.group2;
  }

  /** The rules of one kind, one per match of its block pattern in the body,
      in body order. */
  function RulesOfKind(kind: RuleType, body: string): (rs: seq<Rule>)
    ensures |rs| == |FindAllIn(BlockPattern(kind), body)|
    ensures forall i :: 0 <= i < |rs| ==> rs[i] == RuleOf(kind, FindAllIn(BlockPattern(kind), body)[i])
    ensures forall i :: 0 <= i < |rs| ==> rs[i].Kind() == kind
    ensures CleanRules(rs)
  {
    var hits := FindAllIn(BlockPattern(kind), body);
    var rs := seq(|hits|, i requires 0 <= i < |hits| => RuleOf(kind, hits[i]));
    assert forall i :: 0 <= i < |rs| ==> rs[i].Kind() == kind && ')' !in rs[i].Guard() && '}' !in rs[i].action by {
      forall i | 0 <= i < |rs| ensures rs[i].Kind() == kind && ')' !in rs[i].Guard() && '}' !in rs[i].action {
        RuleOfBlock(kind, body, hits[i]);
      }
    }
    rs
  }

  /** The trailing rule-modifier script, when the body ends with one. */
  function MetaRules(body: string): (r: seq<string>)
    ensures |r| <= 1
    ensures |r| == 1 <==> SearchIn(RuleModifier, body).Some?
  {
    match SearchIn(RuleModifier, body)
    case None => []
    case Some(h) => [Strip(h.group1, Space)]
  }

  /** A body that ends with `rule-modifier {<script>}`, possibly followed by
      one newline, after text without `rule-modifier {`, has the stripped
      script as its one meta-rule. */
  lemma MetaRulesRoundTrip(pre: string, script: string, nl: string)
    requires !Contains(pre, "rule-modifier {", 0)
    requires nl == "" || nl == "\n"
    ensures MetaRules(pre + ModifierText(script) + nl) == [Strip(script, Space)]
  {
    var body := pre + ModifierText(script) + nl;
    var k := ModifierShapeIn(pre, script, nl);
    var h := Hit(|pre|, k + 1, script, "");
    ModifierAtExact(body, |pre|, h);
    assert MatchAt(RuleModifier, body, |pre|) == Some(h);
    FoundAfter(RuleModifier, pre, ModifierText(script), nl);
    assert SearchIn(RuleModifier, body) == Some(h);
  }

  /** The text `rule-modifier {<script>}`. */
  function ModifierText(script: string): string {
    "rule-modifier {" + script + "}"
  }

  lemma ModifierShapeIn(pre: string, script: string, nl: string) returns (k: nat)
    requires nl == "" || nl == "\n"
    ensures var body := pre + ModifierText(script) + nl;
            ModifierShape(body, |pre|, k) && body[|pre| + 15..k] == script
            && OccursAt(ModifierText(script), "rule-modifier {", 0)
  {
    var t := ModifierText(script);
    var body := pre + t + nl;
    var p := |pre|;
    k := p + |t| - 1;
    assert forall i :: p <= i < p + |t| ==> body[i] == t[i - p];
    assert t[..15] == "rule-modifier {" && t[|t| - 1] == '}';
    assert body[p..p + 15] == t[..15];
    assert body[p + 15..k] == t[15..|t| - 1] == script;
  }

  /** `MetaRules` without the regular expression: the script runs from the
      first `rule-modifier {` to the brace that ends the body (or precedes
      its final newline), and there is none when either is missing or the
      brace comes first. */
  lemma MetaRulesByFind(body: string)
    ensures MetaRules(body) ==
              match (FindFrom(body, "rule-modifier {", 0), TrailingBrace(body))
              case (Some(p), Some(k)) => if p + 15 <= k then [Strip(body[p + 15..k], Space)] else []
              case _ => []
  {
    var kw := "rule-modifier {";
    assert Keyword(RuleModifier) == kw;
    forall j: nat ensures MatchAt(RuleModifier, body, j).Some? ==>
                            OccursAt(body, kw, j) && FindFrom(body, kw, 0).Some? && FindFrom(body, kw, 0).value <= j {
      MatchNeedsKeyword(RuleModifier, body, j);
    }
    match FindFrom(body, kw, 0)
    case None =>
      NothingMatches(RuleModifier, body);
    case Some(p) =>
      if ModifierAt(body, p).Some? {
        SearchAtKeyword(RuleModifier, body, p);
      } else {
        NothingMatches(RuleModifier, body);
      }
  }

  /** No field rule follows a tick rule. */
  predicate FieldRulesFirst(rules: seq<Rule>) {
    forall i, j :: 0 <= i < j < |rules| && rules[i].TickRule? ==> rules[j].TickRule?
  }

  lemma FieldThenTick(fields: seq<Rule>, ticks: seq<Rule>)
    requires forall i :: 0 <= i < |fields| ==> fields[i].Kind() == FieldType
    requires forall i :: 0 <= i < |ticks| ==> ticks[i].Kind() == TickType
    requires CleanRules(fields) && CleanRules(ticks)
    ensures FieldRulesFirst(fields + ticks) && CleanRules(fields + ticks)
  {
    var rules := fields + ticks;
    forall i | 0 <= i < |rules| ensures rules[i].TickRule? <==> i >= |fields| {
      if i < |fields| {
        assert rules[i] == fields[i];
      } else {
        assert rules[i] == ticks[i - |fields|];
      }
    }
    forall i | 0 <= i < |rules| ensures ')' !in rules[i].Guard() && '}' !in rules[i].action {
      if i < |fields| {
        assert rules[i] == fields[i];
      } else {
        assert rules[i] == ticks[i - |fields|];
      }
    }
  }

  /** `parse_mpl_code`. */
  function ParseMplCode(code: string): (r: Result<MonadDefinition, ParseError>)
    ensures r.Failure? <==> MonadBlock(code).Failure?
    ensures r.Success? ==> r.value.name == MonadBlock(code).value.name
    ensures r.Success? ==> FieldRulesFirst(r.value.rules)
    ensures r.Success? ==> CleanRules(r.value.rules)
    ensures r.Success? ==> |r.value.metaRules| <= 1
    ensures r.Success? ==> forall k :: k in r.value.memory && r.value.memory[k].TextV? ==> '\'' !in r.value.memory[k].s
  {
    match MonadBlock(code)
    case Failure(e) => Failure(e)
    case Success(b) =>
      var fields := RulesOfKind(FieldType, b.body);
      var ticks := RulesOfKind(TickType, b.body);
      FieldThenTick(fields, ticks);
      var rules := fields + ticks;
      Success(MonadDefinition(b.name, ParseState(b.body), ParseMemory(b.body), rules, MetaRules(b.body)))
  }

  /** The text `monad <name> {<b>}`. */
  function DefinitionText(name: string, b: string): string {
    "monad " + name + " {" + b + "}"
  }

  /** A definition `monad <name> {<b>}` with a balanced body, after text
      without `monad `, parses to the name and the parts read from `b`:
      field rules in body order, then tick rules in body order. */
  lemma DefinitionRoundTrip(pre: string, name: string, b: string, post: string)
    requires !Contains(pre, "monad ", 0)
    requires IsWord(name) && Balanced(b)
    ensures ParseMplCode(pre + DefinitionText(name, b) + post) ==
              Success(MonadDefinition(name, ParseState(b), ParseMemory(b),
                                      RulesOfKind(FieldType, b) + RulesOfKind(TickType, b), MetaRules(b)))
  {
    var code := pre + DefinitionText(name, b) + post;
    var start, bs := DefinitionFound(pre, name, b, post);
    assert code[bs..bs + 1] == "{";
    assert MonadBlock(code) == BlockAt(code, start, bs);
    DefinitionName(name);
    BalancedCloses(code, bs, b);
    var i := bs + 1 + |b|;
    BlockAtCloses(code, start, bs, i, name);
    var blk := Block(start, bs, i, name, code[bs + 1..i]);
    assert blk.body == b;
    ParseOfBlock(code, blk);
  }

  lemma ParseOfBlock(code: string, blk: Block)
    requires MonadBlock(code) == Success(blk)
    ensures ParseMplCode(code) ==
              Success(MonadDefinition(blk.name, ParseState(blk.body), ParseMemory(blk.body),
                                      RulesOfKind(FieldType, blk.body) + RulesOfKind(TickType, blk.body),
                                      MetaRules(blk.body)))
  {
  }

  /** The block found from a named brace is the one up to the brace that
      closes it. */
  lemma BlockAtCloses(code: string, start: nat, bs: nat, i: nat, name: string)
    requires start <= bs < |code| && code[bs] == '{'
    requires SearchIn(MonadName, code[start..bs]) == Some(Hit(0, 6 + |name|, name, ""))
    requires ClosesAt(code, bs, i)
    ensures BlockAt(code, start, bs) == Success(Block(start, bs, i, name, code[bs + 1..i]))
  {
    var scan := ScanClose(code, bs, bs, 0, true);
    assert scan.Some?;
    ClosesAtUnique(code, bs, scan.value, i);
  }

  /** Where the front end finds `monad ` and the `{` in such a text, and the
      slices around them. */
  lemma DefinitionFound(pre: string, name: string, b: string, post: string) returns (start: nat, bs: nat)
    requires !Contains(pre, "monad ", 0)
    requires IsWord(name)
    ensures var code := pre + DefinitionText(name, b) + post;
            && start == |pre| && bs == |pre| + 7 + |name| && bs + |b| + 1 < |code|
            && FindFrom(code, "monad ", 0) == Some(start)
            && FindFrom(code, "{", start) == Some(bs)
            && code[start..bs] == "monad " + name + " "
            && code[bs] == '{' && code[bs + 1..bs + 1 + |b|] == b && code[bs + 1 + |b|] == '}'
  {
    var t := DefinitionText(name, b);
    var code := pre + t + post;
    start, bs := |pre|, |pre| + 7 + |name|;
    assert forall k :: start <= k < start + |t| ==> code[k] == t[k - start];
    DefinitionTextShape(name, b);
    assert code[start..bs] == t[..7 + |name|];
    assert code[bs + 1..bs + 1 + |b|] == t[8 + |name|..|t| - 1];
    assert code == pre + (t + post);
    assert (t + post)[..6] == "monad ";
    FindAfter(pre, "monad ", t + post);
    WordPlain(name);
    assert '{' !in code[start..bs];
    FindCharAt(code, '{', start, bs);
  }

  lemma DefinitionTextShape(name: string, b: string)
    ensures var t := DefinitionText(name, b);
            && |t| == 9 + |name| + |b|
            && t[..7 + |name|] == "monad " + name + " " && t[7 + |name|] == '{'
            && t[8 + |name|..|t| - 1] == b && t[|t| - 1] == '}'
  {
    var t := DefinitionText(name, b);
    assert t == "monad " + name + " " + "{" + b + "}";
  }

  /** `monad (\w+)` reads the name back out of `monad <name> `. */
  lemma DefinitionName(name: string)
    requires IsWord(name)
    ensures SearchIn(MonadName, "monad " + name + " ") == Some(Hit(0, 6 + |name|, name, ""))
  {
    var seg := "monad " + name + " ";
    assert seg[..6] == "monad ";
    assert forall k :: 6 <= k < 6 + |name| ==> seg[k] == name[k - 6];
    assert seg[6 + |name|] == ' ';
    assert seg[6..6 + |name|] == name;
    assert NameShape(seg, 0, 6 + |name|);
    NameAtExact(seg, 0, Hit(0, 6 + |name|, name, ""));
    SearchFinds(MonadName, seg, 0);
  }
}
