/** The handful of Python `str` operations the interpreter relies on, written
    over `seq<char>`: `find`, `in`, `strip`, `split`, `replace`, `int(...)`,
    and the character classes `\s` and `\w` of Python's regular expressions. */
module Text {
  import opened Wrappers

  /** The characters for which Python's `str.isspace` holds; CPython's `\s`
      in a `str` pattern and argument-less `strip()` both use this class. */
  predicate IsSpace(c: char) {
    ('\t' <= c <= '\r') || ('\U{1C}' <= c <= ' ') || c == '\U{85}' || c == '\U{A0}'
    || c == '\U{1680}' || ('\U{2000}' <= c <= '\U{200A}') || c == '\U{2028}' || c == '\U{2029}'
    || c == '\U{202F}' || c == '\U{205F}' || c == '\U{3000}'
  }

  /** The character sets the interpreter skips or strips: whitespace, the
      two quote characters, and the two curly braces. */
  datatype CharClass = Space | Quote | Brace

  predicate InClass(c: char, k: CharClass) {
    match k
    case Space => IsSpace(c)
    case Quote => c == '"' || c == '\''
    case Brace => c == '{' || c == '}'
  }

  /** `\w` restricted to ASCII: letters, digits and underscore. */
  predicate IsWordChar(c: char) {
    ('a' <= c <= 'z') || ('A' <= c <= 'Z') || ('0' <= c <= '9') || c == '_'
  }

  predicate IsDigit(c: char) {
    '0' <= c <= '9'
  }

  /** `pat` occurs in `s` starting at index `k`. */
  predicate OccursAt(s: string, pat: string, k: int) {
    0 <= k && k + |pat| <= |s| && s[k..k + |pat|] == pat
  }

  /** `k` is the lowest index at or after `from` where `pat` occurs. */
  predicate FirstOccurrence(s: string, pat: string, from: nat, k: nat) {
    from <= k && OccursAt(s, pat, k) && forall j :: from <= j < k ==> !OccursAt(s, pat, j)
  }

  /** Python's `pat in s[from:]`. */
  predicate Contains(s: string, pat: string, from: nat) {
    exists k :: from <= k <= |s| && OccursAt(s, pat, k)
  }

  /** Python's `s.find(pat, from)`, with `None` for the result `-1`. */
  function FindFrom(s: string, pat: string, from: nat): (r: Option<nat>)
    ensures r.Some? ==> FirstOccurrence(s, pat, from, r.value)
    ensures r.None? <==> !Contains(s, pat, from)
    decreases |s| - from
  {
    if from + |pat| > |s| then None
    else if s[from..from + |pat|] == pat then Some(from)
    else FindFrom(s, pat, from + 1)
  }

  /** Before the first occurrence `k` of a character, the slice holds none. */
  lemma FirstFreeOf(s: string, ch: char, from: nat, k: nat)
    requires FirstOccurrence(s, [ch], from, k)
    ensures ch !in s[from..k]
  {
    forall j | from <= j < k ensures s[j] != ch {
      assert !OccursAt(s, [ch], j);
      assert s[j..j + 1] == [s[j]];
    }
  }

  /** A character `find` does not find from `from` on is absent there. */
  lemma AbsentChar(s: string, ch: char, from: nat)
    requires from <= |s| && FindFrom(s, [ch], from).None?
    ensures ch !in s[from..]
  {
    forall j | from <= j < |s| ensures s[j] != ch {
      assert !OccursAt(s, [ch], j);
      assert s[j..j + 1] == [s[j]];
    }
  }

  /** The first index at or after `p` holding no character of class `cs`
      (or `|s|`): where a greedy `[cs]*` starting at `p` stops. */
  function SkipChars(s: string, cs: CharClass, p: nat): (q: nat)
    requires p <= |s|
    ensures p <= q <= |s|
    ensures forall i :: p <= i < q ==> InClass(s[i], cs)
    ensures q == |s| || !InClass(s[q], cs)
    decreases |s| - p
  {
    if p < |s| && InClass(s[p], cs) then SkipChars(s, cs, p + 1) else p
  }

  /** Where a greedy `\s*` starting at `p` stops. */
  function SkipSpace(s: string, p: nat): (q: nat)
    requires p <= |s|
    ensures p <= q <= |s|
    ensures forall i :: p <= i < q ==> IsSpace(s[i])
    ensures q == |s| || !IsSpace(s[q])
  {
    SkipChars(s, Space, p)
  }

  /** The lowest index `b` in `[a, q]` such that `s[b..q]` holds only
      characters of `cs`: where trailing characters of `cs` begin. */
  function SkipCharsBack(s: string, cs: CharClass, a: nat, q: nat): (b: nat)
    requires a <= q <= |s|
    ensures a <= b <= q
    ensures forall i :: b <= i < q ==> InClass(s[i], cs)
    ensures b == a || !InClass(s[b - 1], cs)
    decreases q
  {
    if q > a && InClass(s[q - 1], cs) then SkipCharsBack(s, cs, a, q - 1) else q
  }

  /** The end of the maximal run of word characters starting at `p`: where a
      greedy `\w+` starting at `p` stops. */
  function WordEnd(s: string, p: nat): (q: nat)
    requires p <= |s|
    ensures p <= q <= |s|
    ensures forall i :: p <= i < q ==> IsWordChar(s[i])
    ensures q == |s| || !IsWordChar(s[q])
    decreases |s| - p
  {
    if p < |s| && IsWordChar(s[p]) then WordEnd(s, p + 1) else p
  }

  /** Python's `s.strip(cs)`; `Strip(s, Space)` is `s.strip()`. The
      result is the slice of `s` left after cutting characters of `cs` off
      both ends: it neither starts nor ends with one, and everything cut off
      was one. */
  function Strip(s: string, cs: CharClass): (r: string)
    ensures var a := SkipChars(s, cs, 0);
              a + |r| <= |s| && r == s[a..a + |r|]
              && (forall i :: 0 <= i < a ==> InClass(s[i], cs))
              && (forall i :: a + |r| <= i < |s| ==> InClass(s[i], cs))
    ensures r == [] || (!InClass(r[0], cs) && !InClass(r[|r| - 1], cs))
    ensures forall c :: c in r ==> c in s
  {
    var a := SkipChars(s, cs, 0);
    var b := SkipCharsBack(s, cs, a, |s|);
    assert b > a ==> !InClass(s[b - 1], cs);
    s[a..b]
  }

  /** A text that neither starts nor ends with a character of `cs`. */
  predicate Unpadded(t: string, cs: CharClass) {
    t == [] || (!InClass(t[0], cs) && !InClass(t[|t| - 1], cs))
  }

  /** No proper suffix of `kw` starts the way `kw` does, judged by its first
      two characters: two occurrences of `kw` never overlap. */
  predicate NoBorder(kw: string) {
    |kw| > 1 && forall d :: 0 < d < |kw| ==> kw[d] != kw[0] || (d + 1 < |kw| && kw[d + 1] != kw[1])
  }

  /** When `tail` starts with `kw` and `pre` does not contain it, `find`
      locates `kw` in `pre + tail` at `|pre|`: no occurrence can straddle the
      seam. */
  lemma FindAfter(pre: string, kw: string, tail: string)
    requires NoBorder(kw) && !Contains(pre, kw, 0) && OccursAt(tail, kw, 0)
    ensures FindFrom(pre + tail, kw, 0) == Some(|pre|)
  {
    var s := pre + tail;
    assert s[|pre|..|pre| + |kw|] == tail[..|kw|];
    forall j | 0 <= j < |pre| ensures !OccursAt(s, kw, j) {
      NotBefore(pre, kw, tail, j);
    }
    FindFirst(s, kw, |pre|);
  }

  lemma NotBefore(pre: string, kw: string, tail: string, j: nat)
    requires NoBorder(kw) && !Contains(pre, kw, 0) && OccursAt(tail, kw, 0)
    requires j < |pre|
    ensures !OccursAt(pre + tail, kw, j)
  {
    var s := pre + tail;
    var d := |pre| - j;
    if d < |kw| {
      assert kw[d] != kw[0] || (d + 1 < |kw| && kw[d + 1] != kw[1]);
      assert s[|pre|] == tail[0] == kw[0];
      assert s[j..j + |kw|][d] == s[|pre|];
      assert d + 1 < |kw| ==> s[|pre| + 1] == tail[1] == kw[1] && s[j..j + |kw|][d + 1] == s[|pre| + 1];
    } else {
      assert s[j..j + |kw|] == pre[j..j + |kw|];
      assert !OccursAt(pre, kw, j);
    }
  }

  /** `find` from 0 returns the first occurrence, wherever that is. */
  lemma FindFirst(s: string, kw: string, k: nat)
    requires OccursAt(s, kw, k) && forall j :: 0 <= j < k ==> !OccursAt(s, kw, j)
    ensures FindFrom(s, kw, 0) == Some(k)
  {
    var r := FindFrom(s, kw, 0);
    assert r.Some?;
    assert r.value <= k;
  }

  /** The characters and slices of `t` inside `pre + t + rest`. */
  lemma Embedded(pre: string, t: string, rest: string)
    ensures forall i :: |pre| <= i < |pre| + |t| ==> (pre + t + rest)[i] == t[i - |pre|]
    ensures forall a, b :: 0 <= a <= b <= |t| ==> (pre + t + rest)[|pre| + a..|pre| + b] == t[a..b]
  {
    var s := pre + t + rest;
    forall a, b | 0 <= a <= b <= |t| ensures s[|pre| + a..|pre| + b] == t[a..b] {
      assert forall i :: 0 <= i < b - a ==> s[|pre| + a..|pre| + b][i] == t[a..b][i];
    }
  }

  /** A greedy run of `cs` from `p` stops at the first index outside the
      class, whichever index that is. */
  lemma SkipCharsAt(s: string, cs: CharClass, p: nat, q: nat)
    requires p <= q <= |s|
    requires forall i :: p <= i < q ==> InClass(s[i], cs)
    requires q == |s| || !InClass(s[q], cs)
    ensures SkipChars(s, cs, p) == q
  {
    var r := SkipChars(s, cs, p);
    assert r < |s| ==> !InClass(s[r], cs);
    assert r >= q;
    assert r <= q;
  }

  /** The run of word characters from `p` ends at the first index that
      holds none. */
  lemma WordEndAt(s: string, p: nat, q: nat)
    requires p <= q <= |s|
    requires forall i :: p <= i < q ==> IsWordChar(s[i])
    requires q == |s| || !IsWordChar(s[q])
    ensures WordEnd(s, p) == q
  {
    var r := WordEnd(s, p);
    assert r < |s| ==> !IsWordChar(s[r]);
    assert r >= q;
    assert r <= q;
  }

  /** What `find` of a character reports: the character at the index
      returned and at no index between `from` and it. */
  lemma NoCharBetween(s: string, ch: char, from: nat, k: nat)
    requires FindFrom(s, [ch], from) == Some(k)
    ensures from <= k < |s| && s[k] == ch
    ensures forall i :: from <= i < k ==> s[i] != ch
  {
    assert s[k..k + 1] == [s[k]];
    FirstFreeOf(s, ch, from, k);
    forall i | from <= i < k ensures s[i] != ch {
      assert s[i] == s[from..k][i - from];
    }
  }

  /** A slice none of whose positions holds `ch` does not contain it. */
  lemma CharBetween(s: string, ch: char, from: nat, k: nat)
    requires from <= k <= |s| && forall i :: from <= i < k ==> s[i] != ch
    ensures ch !in s[from..k]
  {
  }

  /** `find` of a character returns its first index at or after `from`. */
  lemma FindCharAt(s: string, ch: char, from: nat, k: nat)
    requires from <= k < |s| && s[k] == ch && ch !in s[from..k]
    ensures FindFrom(s, [ch], from) == Some(k)
  {
    assert s[k..k + 1] == [ch];
    assert OccursAt(s, [ch], k);
    forall j | from <= j < k ensures !OccursAt(s, [ch], j) {
      assert s[j] == s[from..k][j - from];
      assert s[j..j + 1][0] == s[j];
    }
  }

  /** Stripping `cs` off `s` leaves exactly `s[a..e]` when everything
      outside that window is of class `cs` and its two ends are not. */
  lemma StripWindow(s: string, cs: CharClass, a: nat, e: nat)
    requires a < e <= |s|
    requires forall i :: 0 <= i < a ==> InClass(s[i], cs)
    requires forall i :: e <= i < |s| ==> InClass(s[i], cs)
    requires !InClass(s[a], cs) && !InClass(s[e - 1], cs)
    ensures Strip(s, cs) == s[a..e]
  {
    SkipCharsAt(s, cs, 0, a);
    var r := Strip(s, cs);
    assert forall j :: 0 <= j < |r| ==> r[j] == s[a + j];
    assert |r| == e - a;
  }

  /** Stripping the characters of `cs` off `w + t + w'`, where `w` and `w'`
      consist of such characters and `t` does not start or end with one,
      gives back `t`. */
  lemma StripPadded(w: string, t: string, w': string, cs: CharClass)
    requires t != [] && Unpadded(t, cs)
    requires forall i :: 0 <= i < |w| ==> InClass(w[i], cs)
    requires forall i :: 0 <= i < |w'| ==> InClass(w'[i], cs)
    ensures Strip(w + t + w', cs) == t
  {
    var s := w + t + w';
    var e := |w| + |t|;
    assert s[|w|] == t[0] && s[e - 1] == t[|t| - 1];
    assert forall i :: 0 <= i < |w| ==> s[i] == w[i];
    assert forall i :: e <= i < |s| ==> s[i] == w'[i - e];
    StripWindow(s, cs, |w|, e);
    assert s[|w|..e] == t;
  }

  /** Python's `s.split(sep)` for a one-character separator. */
  function SplitOn(s: string, sep: char): (r: seq<string>)
    ensures |r| >= 1
    ensures forall i :: 0 <= i < |r| ==> sep !in r[i]
    ensures forall i, c :: 0 <= i < |r| && c in r[i] ==> c in s
    ensures Join(r, sep) == s
    decreases |s|
  {
    match FindFrom(s, [sep], 0)
    case None =>
      AbsentChar(s, sep, 0);
      assert s[0..] == s;
      [s]
    case Some(k) =>
      FirstFreeOf(s, sep, 0, k);
      assert s[k..k + 1] == [sep];
      var rest := SplitOn(s[k + 1..], sep);
      assert s == s[..k] + [sep] + s[k + 1..];
      [s[..k]] + rest
  }

  /** Splitting a text without the separator gives the text alone. */
  lemma SplitWithout(s: string, sep: char)
    requires sep !in s
    ensures SplitOn(s, sep) == [s]
  {
    forall k | 0 <= k <= |s| ensures !OccursAt(s, [sep], k) {
      if k < |s| {
        assert s[k..k + 1] == [s[k]];
      }
    }
  }

  /** Python's `sep.join(parts)`. */
  function Join(parts: seq<string>, sep: char): string
    requires |parts| >= 1
  {
    if |parts| == 1 then parts[0] else parts[0] + [sep] + Join(parts[1..], sep)
  }

  /** Python's `s.replace(a, b)` for single characters. */
  function ReplaceChar(s: string, a: char, b: char): (r: string)
    ensures |r| == |s|
    ensures a != b ==> a !in r
    ensures forall i :: 0 <= i < |s| ==> r[i] == (if s[i] == a then b else s[i])
  {
    seq(|s|, i requires 0 <= i < |s| => if s[i] == a then b else s[i])
  }

  /** Replacing a character the text lacks changes nothing. */
  lemma ReplaceAbsent(s: string, a: char, b: char)
    requires a !in s
    ensures ReplaceChar(s, a, b) == s
  {
  }

  /** The number of occurrences of `c` in `s`. */
  function Count(s: string, c: char): nat {
    if |s| == 0 then 0
    else Count(s[..|s| - 1], c) + (if s[|s| - 1] == c then 1 else 0)
  }

  lemma {:induction false} CountAppend(a: string, b: string, c: char)
    ensures Count(a + b, c) == Count(a, c) + Count(b, c)
    decreases |b|
  {
    if |b| == 0 {
      assert a + b == a;
    } else {
      var b' := b[..|b| - 1];
      assert (a + b)[..|a + b| - 1] == a + b';
      CountAppend(a, b', c);
    }
  }

  // ---------------------------------------------------------------------------
  // Integers: `int(value)` on an already stripped string, and its inverse.

  predicate AllDigits(s: string) {
    forall i :: 0 <= i < |s| ==> IsDigit(s[i])
  }

  function DigitValue(c: char): nat
    requires IsDigit(c)
  {
    (c as int - '0' as int) as nat
  }

  /** The decimal value of a digit string, most significant digit first. */
  function DigitsValue(s: string): nat
    requires AllDigits(s)
  {
    if |s| == 0 then 0 else DigitsValue(s[..|s| - 1]) * 10 + DigitValue(s[|s| - 1])
  }

  /** Python's `int(s)` for an optional sign followed by ASCII decimal digits;
      `None` stands for the `ValueError` it raises on anything else. */
  function ParseInt(s: string): (r: Option<int>)
    ensures r.Some? ==> |s| > 0 && (IsDigit(s[0]) || s[0] == '-' || s[0] == '+')
    ensures r.Some? ==> forall i :: 1 <= i < |s| ==> IsDigit(s[i])
  {
    if |s| > 1 && (s[0] == '-' || s[0] == '+') && AllDigits(s[1..]) then
      var n: int := DigitsValue(s[1..]);
      Some(if s[0] == '-' then -n else n)
    else if |s| > 0 && AllDigits(s) then Some(DigitsValue(s))
    else None
  }

  function DigitChar(d: nat): (c: char)
    requires d < 10
    ensures IsDigit(c) && DigitValue(c) == d
  {
    ('0' as int + d) as char
  }

  /** Python's `str(n)` for a natural number. */
  function ShowNat(n: nat): (r: string)
    ensures |r| > 0 && AllDigits(r)
  {
    if n < 10 then [DigitChar(n)] else ShowNat(n / 10) + [DigitChar(n % 10)]
  }

  /** Python's `str(n)`. */
  function ShowInt(n: int): string {
    if n < 0 then "-" + ShowNat(-n) else ShowNat(n)
  }

  lemma {:induction false} DigitsValueShowNat(n: nat)
    ensures DigitsValue(ShowNat(n)) == n
  {
    if n >= 10 {
      var s := ShowNat(n);
      assert s[..|s| - 1] == ShowNat(n / 10);
      DigitsValueShowNat(n / 10);
    }
  }

  /** The decimal text of an integer holds digits and at most a minus sign. */
  lemma ShowIntChars(n: int)
    ensures forall c :: c in ShowInt(n) ==> IsDigit(c) || c == '-'
    ensures |ShowInt(n)| > 0 && IsDigit(ShowInt(n)[|ShowInt(n)| - 1])
  {
    var t := ShowInt(n);
    if n < 0 {
      var d := ShowNat(-n);
      assert t == "-" + d;
      assert t[|t| - 1] == d[|d| - 1];
      forall c | c in t ensures IsDigit(c) || c == '-' {
        var i :| 0 <= i < |t| && t[i] == c;
        assert i > 0 ==> t[i] == d[i - 1];
      }
    }
  }

  /** `int(str(n)) == n`: the decimal text of any integer reads back as it. */
  lemma ParseIntShowInt(n: int)
    ensures ParseInt(ShowInt(n)) == Some(n)
  {
    if n < 0 {
      var s := ShowInt(n);
      assert s[1..] == ShowNat(-n);
      DigitsValueShowNat(-n);
    } else {
      DigitsValueShowNat(n);
    }
  }
}
