/** `extract_monad_body`: the stand-alone copy of the definition front end,
    which reports failure as `(None, None)` instead of raising. */
module TestParse {
  import opened Wrappers
  import opened Text
  import opened Patterns
  import opened Parser

  /** The counting loop of `extract_monad_body`, from the opening brace at
      `bs`: the index where the depth first returns to zero, provided a
      `monad <word>` name precedes the brace. */
  method MatchBrace(code: string, start: nat, bs: nat) returns (close: Option<nat>)
    requires start <= bs < |code| && code[bs] == '{'
    ensures close.Some? ==> SearchIn(MonadName, code[start..bs]).Some? && ClosesAt(code, bs, close.value)
    ensures close.None? && SearchIn(MonadName, code[start..bs]).Some? ==> forall j :: !ClosesAt(code, bs, j)
  {
    ghost var named := SearchIn(MonadName, code[start..bs]).Some?;
    var count := 0;
    var i := bs;
    while i < |code|
      invariant bs <= i <= |code|
      invariant count == Net(code[bs..i])
      invariant named ==> forall k :: bs < k <= i ==> Net(code[bs..k]) > 0
      decreases |code| - i
    {
      NetStep(code, bs, i);
      if code[i] == '{' {
        count := count + 1;
      } else if code[i] == '}' {
        count := count - 1;
        if count == 0 {
          var nameMatch := SearchIn(MonadName, code[start..bs]);
          if nameMatch.Some? {
            return Some(i);
          }
        }
      }
      if named {
        StillOpen(code, bs, i);
      }
      i := i + 1;
    }
    return None;
  }

  /** The depth stays above zero one character further. */
  lemma StillOpen(code: string, bs: nat, i: nat)
    requires bs <= i < |code|
    requires forall k :: bs < k <= i ==> Net(code[bs..k]) > 0
    requires Net(code[bs..i + 1]) > 0
    ensures forall k :: bs < k <= i + 1 ==> Net(code[bs..k]) > 0
  {
  }

  /** Returns the name and body of the definition block, or `(None, None)`.
      It agrees with the interpreter's front end on every input: it succeeds
      exactly when `parse_mpl_code` does, with the same name and body. */
  method ExtractMonadBody(code: string) returns (name: Option<string>, body: Option<string>)
    ensures name.Some? <==> body.Some?
    ensures name.Some? <==> MonadBlock(code).Success?
    ensures name.Some? ==> name.value == MonadBlock(code).value.name && body.value == MonadBlock(code).value.body
    ensures !Contains(code, "monad ", 0) ==> name.None?
  {
    var found := FindFrom(code, "monad ", 0);
    if found.None? {
      assert MonadBlock(code).Failure?;
      return None, None;
    }
    var start := found.value;
    var open := FindFrom(code, "{", start);
    if open.None? {
      assert MonadBlock(code).Failure?;
      return None, None;
    }
    var bs := open.value;
    BlockByScan(code, start, bs);
    var close := MatchBrace(code, start, bs);
    ghost var named := SearchIn(MonadName, code[start..bs]).Some?;
    ghost var scan := ScanClose(code, bs, bs, 0, named);
    if close.None? {
      return None, None;
    }
    ClosesAtUnique(code, bs, close.value, scan.value);
    var nameMatch := SearchIn(MonadName, code[start..bs]);
    return Some(nameMatch.value.group1), Some(code[bs + 1..close.value]);
  }
}
