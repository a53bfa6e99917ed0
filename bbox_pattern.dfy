/** Reading a bounding box out of a subtrahend's filename
    (src/index.js:28-32 and 176-182): the leftmost match of
    `\[num,num,num,num\]`, where `num` is `-?[0-9]+.?[0-9]*`, found the way a
    backtracking regular-expression matcher finds it.

    The `.` in `num` is not escaped, so it accepts any character but a line
    terminator. Every function below takes `anyChar`: `true` is the pattern
    as written, `false` the pattern with the dot escaped. */
module BboxPattern {
  import opened Wrappers
  import opened Bbox

  predicate IsDigit(c: char) {
    '0' <= c <= '9'
  }

  /** `s[a..b]` is all digits. */
  predicate Digits(s: string, a: nat, b: nat) {
    a <= b <= |s| && forall t :: a <= t < b ==> IsDigit(s[t])
  }

  /** The characters the pattern's `.` accepts. */
  predicate DotAccepts(anyChar: bool, c: char) {
    if anyChar then c != '\n' && c != '\r' && c != '\U{2028}' && c != '\U{2029}'
    else c == '.'
  }

  /** Length of the run of digits that starts at `i`. */
  function DigitRun(s: string, i: nat): (n: nat)
    requires i <= |s|
    ensures Digits(s, i, i + n)
    ensures i + n == |s| || !IsDigit(s[i + n])
    decreases |s| - i
  {
    if i < |s| && IsDigit(s[i]) then 1 + DigitRun(s, i + 1) else 0
  }

  // ---------------------------------------------------------------------
  // The matcher. Each `...Ends` function lists where a piece of the
  // pattern can end, in the order a backtracking matcher tries them.

  /** Ends of the greedy `[0-9]*` starting at `q`: the longest run first,
      the empty run last. */
  function StarEnds(s: string, q: nat): (r: seq<nat>)
    requires q <= |s|
    ensures forall k :: 0 <= k < |r| ==> q <= r[k] <= |s|
    decreases |s| - q
  {
    if q < |s| && IsDigit(s[q]) then StarEnds(s, q + 1) + [q] else [q]
  }

  /** Every end of `[0-9]*` closes a stretch of digits. */
  lemma {:induction false} StarEndsDigits(s: string, q: nat, x: nat)
    requires q <= |s| && x in StarEnds(s, q)
    ensures q <= x && Digits(s, q, x)
    decreases |s| - q
  {
    if q < |s| && IsDigit(s[q]) {
      InAppend(x, StarEnds(s, q + 1), [q]);
      if x != q {
        StarEndsDigits(s, q + 1, x);
      }
    }
  }

  /** Ends of the greedy `.?[0-9]*` starting at `p`. */
  function DotStarEnds(s: string, p: nat, anyChar: bool): (r: seq<nat>)
    requires p <= |s|
    ensures forall k :: 0 <= k < |r| ==> p <= r[k] <= |s|
  {
    (if p < |s| && DotAccepts(anyChar, s[p]) then StarEnds(s, p + 1) else []) + StarEnds(s, p)
  }

  /** Every end of `.?[0-9]*` closes digits, or an accepted character and digits. */
  lemma DotStarEndsShape(s: string, p: nat, x: nat, anyChar: bool)
    requires p <= |s| && x in DotStarEnds(s, p, anyChar)
    ensures Digits(s, p, x) || (p < |s| && DotAccepts(anyChar, s[p]) && Digits(s, p + 1, x))
  {
    if p < |s| && DotAccepts(anyChar, s[p]) && x in StarEnds(s, p + 1) {
      StarEndsDigits(s, p + 1, x);
    } else {
      StarEndsDigits(s, p, x);
    }
  }

  /** The sequences of `xss` one after another. */
  function Flatten(xss: seq<seq<nat>>): (r: seq<nat>)
  {
    if xss == [] then [] else xss[0] + Flatten(xss[1..])
  }

  /** What `[0-9]+` followed by `.?[0-9]*` tries from `j`, when the digit run
      there has length `len`: the piece at index `k` follows the digit run of
      length `len - k`, so the longest run is tried first. */
  function PlusPieces(s: string, j: nat, len: nat, anyChar: bool): (r: seq<seq<nat>>)
    requires j + len <= |s|
    ensures |r| == len
    ensures forall k :: 0 <= k < len ==> r[k] == DotStarEnds(s, j + len - k, anyChar)
  {
    seq(len, k requires 0 <= k < len => DotStarEnds(s, j + len - k, anyChar))
  }

  /** Ends of `[0-9]+.?[0-9]*` starting at `j`, when the digit run there has
      length `len`. */
  function PlusEnds(s: string, j: nat, len: nat, anyChar: bool): (r: seq<nat>)
    requires j + len <= |s|
    ensures forall k :: 0 <= k < |r| ==> j < r[k] <= |s|
  {
    var pieces := PlusPieces(s, j, len, anyChar);
    assert forall k :: 0 <= k < |Flatten(pieces)| ==> j < Flatten(pieces)[k] <= |s| by {
      forall k | 0 <= k < |Flatten(pieces)|
        ensures j < Flatten(pieces)[k] <= |s|
      {
        PlusPiecesBounds(s, j, len, Flatten(pieces)[k], anyChar);
      }
    }
    Flatten(pieces)
  }

  /** Every end in the pieces lies past the first digit. */
  lemma PlusPiecesBounds(s: string, j: nat, len: nat, x: nat, anyChar: bool)
    requires j + len <= |s| && x in Flatten(PlusPieces(s, j, len, anyChar))
    ensures j < x <= |s|
  {
    var pieces := PlusPieces(s, j, len, anyChar);
    var i := FlattenMember(pieces, x);
    assert pieces[i] == DotStarEnds(s, j + len - i, anyChar);
  }

  /** Ends of `num` = `-?[0-9]+.?[0-9]*` starting at `p`. */
  function NumEnds(s: string, p: nat, anyChar: bool): (r: seq<nat>)
    requires p <= |s|
    ensures forall k :: 0 <= k < |r| ==> p < r[k] <= |s|
  {
    var j := if p < |s| && s[p] == '-' then p + 1 else p;
    PlusEnds(s, j, DigitRun(s, j), anyChar)
  }

  /** Number ends, each at least two past the one before (a separator and a
      non-empty number lie between). */
  predicate Spaced(ends: seq<nat>) {
    forall k :: 0 < k < |ends| ==> ends[k - 1] + 1 < ends[k]
  }

  /** The match of `num(,num){n-1}\]` starting at `p`, as the list of the
      positions where its numbers end (each followed by `,`, the last by
      `]`), or `None` when every choice fails. */
  function Groups(s: string, p: nat, n: nat, anyChar: bool): (r: Option<seq<nat>>)
    requires p <= |s| && n >= 1
    ensures r.Some? ==> |r.value| == n && p < r.value[0] && r.value[n - 1] < |s| && Spaced(r.value)
    decreases n, 1, 0
  {
    TryEnds(s, p, NumEnds(s, p, anyChar), n, anyChar)
  }

  /** Try the ends of the first number in order; the first one after which
      the rest of the pattern matches wins. */
  function TryEnds(s: string, p: nat, ends: seq<nat>, n: nat, anyChar: bool): (r: Option<seq<nat>>)
    requires n >= 1 && forall k :: 0 <= k < |ends| ==> p < ends[k] <= |s|
    ensures r.Some? ==> |r.value| == n && p < r.value[0] && r.value[n - 1] < |s| && Spaced(r.value)
    decreases n, 0, |ends|
  {
    if ends == [] then None
    else
      var first := After(s, ends[0], n, anyChar);
      if first.Some? then first else TryEnds(s, p, ends[1..], n, anyChar)
  }

  /** The rest of the pattern after a number that ends at `e`: `]` when it
      was the last of the `n` numbers, otherwise `,` and `n - 1` numbers. */
  function After(s: string, e: nat, n: nat, anyChar: bool): (r: Option<seq<nat>>)
    requires n >= 1 && e <= |s|
    ensures r.Some? ==> |r.value| == n && r.value[0] == e && r.value[n - 1] < |s| && Spaced(r.value)
    decreases n, 0, 0
  {
    if e == |s| then None
    else if n == 1 then (if s[e] == ']' then Some([e]) else None)
    else if s[e] != ',' then None
    else
      var rest := Groups(s, e + 1, n - 1, anyChar);
      if rest.Some? then Some([e] + rest.value) else None
  }

  /** The match starting at `i`, if there is one. */
  function MatchAt(s: string, i: nat, anyChar: bool): (r: Option<seq<nat>>)
    requires i < |s|
    ensures r.Some? ==> |r.value| == 4 && i + 1 < r.value[0] && r.value[3] < |s| && Spaced(r.value)
  {
    if s[i] == '[' then Groups(s, i + 1, 4, anyChar) else None
  }

  /** `bboxRegex.exec(filename)`: the leftmost match at or after `i`, as its
      start and the ends of its four numbers. */
  function ExecFrom(s: string, i: nat, anyChar: bool): (r: Option<(nat, seq<nat>)>)
    ensures r.Some? ==> i <= r.value.0 < |s| && MatchAt(s, r.value.0, anyChar) == Some(r.value.1)
    decreases |s| - i
  {
    if i >= |s| then None
    else
      var m := MatchAt(s, i, anyChar);
      if m.Some? then Some((i, m.value)) else ExecFrom(s, i + 1, anyChar)
  }

  function Exec(s: string, anyChar: bool): (r: Option<(nat, seq<nat>)>)
    ensures r.Some? ==> r.value.0 < |s| && MatchAt(s, r.value.0, anyChar) == Some(r.value.1)
    ensures r.Some? ==> |r.value.1| == 4 && r.value.0 + 1 < r.value.1[0] &&
                        r.value.1[0] + 1 < r.value.1[1] && r.value.1[1] + 1 < r.value.1[2] &&
                        r.value.1[2] + 1 < r.value.1[3] && r.value.1[3] < |s|
  {
    ExecFrom(s, 0, anyChar)
  }

  // ---------------------------------------------------------------------
  // What the pattern means, stated without the matcher

  /** `s[j..x]` is matched as a whole by `[0-9]+.?[0-9]*`: digits, except
      possibly one character after the first that the dot accepts. */
  ghost predicate UnsignedAt(s: string, j: nat, x: nat, anyChar: bool) {
    j < x <= |s| &&
    (Digits(s, j, x) ||
     exists k :: j < k < x && DotAccepts(anyChar, s[k]) && Digits(s, j, k) && Digits(s, k + 1, x))
  }

  /** `s[p..x]` is matched as a whole by `num` = `-?[0-9]+.?[0-9]*`. */
  ghost predicate NumAt(s: string, p: nat, x: nat, anyChar: bool) {
    if p < |s| && s[p] == '-' then UnsignedAt(s, p + 1, x, anyChar) else UnsignedAt(s, p, x, anyChar)
  }

  /** From `p` on, `s` reads `num,num,...,num]`, the numbers ending at the
      positions `ends`. */
  ghost predicate Separated(s: string, p: nat, ends: seq<nat>, anyChar: bool)
    decreases |ends|
  {
    |ends| >= 1 && p < ends[0] < |s| && NumAt(s, p, ends[0], anyChar) &&
    if |ends| == 1 then s[ends[0]] == ']'
    else s[ends[0]] == ',' && Separated(s, ends[0] + 1, ends[1..], anyChar)
  }

  /** A match of `\[num,num,num,num\]` starts at `i`. */
  ghost predicate MatchesAt(s: string, i: nat, ends: seq<nat>, anyChar: bool) {
    i < |s| && s[i] == '[' && |ends| == 4 && Separated(s, i + 1, ends, anyChar)
  }

  // ---------------------------------------------------------------------
  // The matcher finds exactly the leftmost match

  /** A run of digits cannot extend past the first non-digit. */
  lemma {:induction false} DigitRunMaximal(s: string, q: nat, x: nat)
    requires Digits(s, q, x)
    ensures x - q <= DigitRun(s, q)
    decreases x - q
  {
    if q < x {
      DigitRunMaximal(s, q + 1, x);
    }
  }

  /** Every all-digit stretch from `q` is an end of `[0-9]*`. */
  lemma {:induction false} StarEndsComplete(s: string, q: nat, x: nat)
    requires Digits(s, q, x)
    ensures x in StarEnds(s, q)
    decreases x - q
  {
    if x > q {
      StarEndsComplete(s, q + 1, x);
      InAppend(x, StarEnds(s, q + 1), [q]);
    }
  }

  lemma DigitsJoin(s: string, a: nat, b: nat, c: nat)
    requires Digits(s, a, b) && Digits(s, b, c)
    ensures Digits(s, a, c)
  {
  }

  lemma DigitsShorter(s: string, a: nat, b: nat, c: nat)
    requires Digits(s, a, c) && a <= b <= c
    ensures Digits(s, a, b)
  {
  }

  /** `.?[0-9]*` can end after digits alone. */
  lemma DotStarEndsHasDigits(s: string, p: nat, x: nat, anyChar: bool)
    requires Digits(s, p, x)
    ensures x in DotStarEnds(s, p, anyChar)
  {
    StarEndsComplete(s, p, x);
    var dotted := if p < |s| && DotAccepts(anyChar, s[p]) then StarEnds(s, p + 1) else [];
    assert DotStarEnds(s, p, anyChar) == dotted + StarEnds(s, p);
  }

  /** `.?[0-9]*` can end after an accepted character and digits. */
  lemma DotStarEndsHasDot(s: string, p: nat, x: nat, anyChar: bool)
    requires p < |s| && DotAccepts(anyChar, s[p]) && Digits(s, p + 1, x)
    ensures x in DotStarEnds(s, p, anyChar)
  {
    StarEndsComplete(s, p + 1, x);
    assert DotStarEnds(s, p, anyChar) == StarEnds(s, p + 1) + StarEnds(s, p);
  }

  /** An element of a flattened sequence comes from one of its pieces. */
  lemma {:induction false} FlattenMember(xss: seq<seq<nat>>, x: nat) returns (i: nat)
    requires x in Flatten(xss)
    ensures i < |xss| && x in xss[i]
  {
    InAppend(x, xss[0], Flatten(xss[1..]));
    if x in xss[0] {
      i := 0;
    } else {
      var i' := FlattenMember(xss[1..], x);
      i := i' + 1;
    }
  }

  /** Every element of every piece is in the flattened sequence. */
  lemma {:induction false} FlattenHas(xss: seq<seq<nat>>, i: nat, x: nat)
    requires i < |xss| && x in xss[i]
    ensures x in Flatten(xss)
  {
    InAppend(x, xss[0], Flatten(xss[1..]));
    if i > 0 {
      FlattenHas(xss[1..], i - 1, x);
    }
  }

  lemma InAppend(x: nat, a: seq<nat>, b: seq<nat>)
    ensures x in a + b <==> x in a || x in b
  {
  }

  /** Every end of `[0-9]+.?[0-9]*` closes a whole unsigned number. */
  lemma PlusEndsSound(s: string, j: nat, len: nat, x: nat, anyChar: bool)
    requires Digits(s, j, j + len) && x in PlusEnds(s, j, len, anyChar)
    ensures UnsignedAt(s, j, x, anyChar)
  {
    var pieces := PlusPieces(s, j, len, anyChar);
    var i := FlattenMember(pieces, x);
    var run := len - i;
    assert x in DotStarEnds(s, j + run, anyChar) by {
      assert pieces[i] == DotStarEnds(s, j + run, anyChar);
    }
    DigitsShorter(s, j, j + run, j + len);
    UnsignedAfterRun(s, j, j + run, x, anyChar);
  }

  /** A non-empty run of digits followed by what `.?[0-9]*` accepts. */
  lemma UnsignedAfterRun(s: string, j: nat, m: nat, x: nat, anyChar: bool)
    requires j < m && Digits(s, j, m) && x in DotStarEnds(s, m, anyChar)
    ensures UnsignedAt(s, j, x, anyChar)
  {
    DotStarEndsShape(s, m, x, anyChar);
    if Digits(s, m, x) {
      DigitsJoin(s, j, m, x);
    } else {
      assert j < m < x && DotAccepts(anyChar, s[m]) && Digits(s, j, m) && Digits(s, m + 1, x);
    }
  }

  /** Every digit run of length `L` up to `len`, followed by what
      `.?[0-9]*` accepts, is among the ends of `[0-9]+.?[0-9]*`. */
  lemma PlusEndsContains(s: string, j: nat, len: nat, L: nat, x: nat, anyChar: bool)
    requires j + len <= |s| && 1 <= L <= len && x in DotStarEnds(s, j + L, anyChar)
    ensures x in PlusEnds(s, j, len, anyChar)
  {
    var pieces := PlusPieces(s, j, len, anyChar);
    assert pieces[len - L] == DotStarEnds(s, j + L, anyChar);
    FlattenHas(pieces, len - L, x);
  }

  /** Every end the matcher lists for `num` closes a whole number. */
  lemma NumEndsSound(s: string, p: nat, x: nat, anyChar: bool)
    requires p <= |s| && x in NumEnds(s, p, anyChar)
    ensures NumAt(s, p, x, anyChar)
  {
    var j := if p < |s| && s[p] == '-' then p + 1 else p;
    assert x in PlusEnds(s, j, DigitRun(s, j), anyChar);
    PlusEndsSound(s, j, DigitRun(s, j), x, anyChar);
  }

  /** A digit run starting at `j` is among the ends the matcher lists for
      `[0-9]+.?[0-9]*`. */
  lemma DigitsEndComplete(s: string, j: nat, x: nat, anyChar: bool)
    requires j < x && Digits(s, j, x)
    ensures x in PlusEnds(s, j, DigitRun(s, j), anyChar)
  {
    DigitRunMaximal(s, j, x);
    DotStarEndsHasDigits(s, x, x, anyChar);
    PlusEndsContains(s, j, DigitRun(s, j), x - j, x, anyChar);
  }

  /** Digits, an accepted character at `k` and digits are among the ends the
      matcher lists for `[0-9]+.?[0-9]*`. */
  lemma DotEndComplete(s: string, j: nat, k: nat, x: nat, anyChar: bool)
    requires j < k < x && Digits(s, j, k) && Digits(s, k + 1, x) && DotAccepts(anyChar, s[k])
    ensures x in PlusEnds(s, j, DigitRun(s, j), anyChar)
  {
    DigitRunMaximal(s, j, k);
    DotStarEndsHasDot(s, k, x, anyChar);
    PlusEndsContains(s, j, DigitRun(s, j), k - j, x, anyChar);
  }

  /** Every whole unsigned number starting at `j` is among the ends the
      matcher lists for `[0-9]+.?[0-9]*`. */
  lemma UnsignedEndsComplete(s: string, j: nat, x: nat, anyChar: bool)
    requires j <= |s| && UnsignedAt(s, j, x, anyChar)
    ensures x in PlusEnds(s, j, DigitRun(s, j), anyChar)
  {
    if Digits(s, j, x) {
      DigitsEndComplete(s, j, x, anyChar);
    } else {
      var k :| j < k < x && DotAccepts(anyChar, s[k]) && Digits(s, j, k) && Digits(s, k + 1, x);
      DotEndComplete(s, j, k, x, anyChar);
    }
  }

  /** Every whole number starting at `p` is among the ends the matcher lists. */
  lemma NumEndsComplete(s: string, p: nat, x: nat, anyChar: bool)
    requires p <= |s| && NumAt(s, p, x, anyChar)
    ensures x in NumEnds(s, p, anyChar)
  {
    var j := if p < |s| && s[p] == '-' then p + 1 else p;
    UnsignedEndsComplete(s, j, x, anyChar);
  }

  /** Whatever the matcher returns from `p` is a well-formed run of numbers. */
  lemma {:induction false} GroupsSound(s: string, p: nat, n: nat, anyChar: bool)
    requires p <= |s| && n >= 1 && Groups(s, p, n, anyChar).Some?
    ensures Separated(s, p, Groups(s, p, n, anyChar).value, anyChar)
    decreases n, 1
  {
    var ends := NumEnds(s, p, anyChar);
    forall k | 0 <= k < |ends| ensures NumAt(s, p, ends[k], anyChar) {
      NumEndsSound(s, p, ends[k], anyChar);
    }
    TryEndsSound(s, p, ends, n, anyChar);
  }

  /** The same for the search over a list of number ends. */
  lemma {:induction false} TryEndsSound(s: string, p: nat, ends: seq<nat>, n: nat, anyChar: bool)
    requires n >= 1 && forall k :: 0 <= k < |ends| ==> p < ends[k] <= |s| && NumAt(s, p, ends[k], anyChar)
    requires TryEnds(s, p, ends, n, anyChar).Some?
    ensures Separated(s, p, TryEnds(s, p, ends, n, anyChar).value, anyChar)
    decreases n, 0, |ends|
  {
    if After(s, ends[0], n, anyChar).Some? {
      AfterSound(s, p, ends[0], n, anyChar);
    } else {
      TryEndsSound(s, p, ends[1..], n, anyChar);
    }
  }

  /** A number from `p` to `e` followed by what `After` accepts is a
      well-formed run of numbers. */
  lemma {:induction false} AfterSound(s: string, p: nat, e: nat, n: nat, anyChar: bool)
    requires n >= 1 && p < e <= |s| && NumAt(s, p, e, anyChar) && After(s, e, n, anyChar).Some?
    ensures Separated(s, p, After(s, e, n, anyChar).value, anyChar)
    decreases n, 0, 0
  {
    if n > 1 {
      var rest := Groups(s, e + 1, n - 1, anyChar);
      GroupsSound(s, e + 1, n - 1, anyChar);
      assert After(s, e, n, anyChar).value[1..] == rest.value;
    }
  }

  /** If some listed end can be followed by the rest of the pattern, the
      search finds a match. */
  lemma {:induction false} TryEndsComplete(s: string, p: nat, ends: seq<nat>, n: nat, idx: nat, anyChar: bool)
    requires n >= 1 && forall k :: 0 <= k < |ends| ==> p < ends[k] <= |s|
    requires idx < |ends| && After(s, ends[idx], n, anyChar).Some?
    ensures TryEnds(s, p, ends, n, anyChar).Some?
    decreases idx
  {
    if idx > 0 && After(s, ends[0], n, anyChar).None? {
      TryEndsComplete(s, p, ends[1..], n, idx - 1, anyChar);
    }
  }

  /** If `s` reads as numbers and `]` from `p`, the matcher finds a match
      there (possibly with other number boundaries). */
  lemma {:induction false} GroupsComplete(s: string, p: nat, ends: seq<nat>, anyChar: bool)
    requires p <= |s| && Separated(s, p, ends, anyChar)
    ensures Groups(s, p, |ends|, anyChar).Some?
    decreases |ends|, 1
  {
    var e := ends[0];
    NumEndsComplete(s, p, e, anyChar);
    var cands := NumEnds(s, p, anyChar);
    var idx :| 0 <= idx < |cands| && cands[idx] == e;
    AfterComplete(s, p, ends, anyChar);
    TryEndsComplete(s, p, cands, |ends|, idx, anyChar);
  }

  /** The rest of a parse after its first number is found. */
  lemma {:induction false} AfterComplete(s: string, p: nat, ends: seq<nat>, anyChar: bool)
    requires p <= |s| && Separated(s, p, ends, anyChar)
    ensures After(s, ends[0], |ends|, anyChar).Some?
    decreases |ends|, 0
  {
    if |ends| > 1 {
      GroupsComplete(s, ends[0] + 1, ends[1..], anyChar);
    }
  }


  /** At one start position the matcher succeeds exactly when the pattern
      matches there, and what it returns is a match. */
  lemma MatchAtExact(s: string, i: nat, anyChar: bool)
    requires i < |s|
    ensures MatchAt(s, i, anyChar).Some? ==> MatchesAt(s, i, MatchAt(s, i, anyChar).value, anyChar)
    ensures MatchAt(s, i, anyChar).None? ==> forall ends :: !MatchesAt(s, i, ends, anyChar)
  {
    if s[i] == '[' {
      if MatchAt(s, i, anyChar).Some? {
        GroupsSound(s, i + 1, 4, anyChar);
      }
      forall ends | MatchesAt(s, i, ends, anyChar)
        ensures MatchAt(s, i, anyChar).Some?
      {
        GroupsComplete(s, i + 1, ends, anyChar);
      }
    }
  }

  lemma {:induction false} ExecFromExact(s: string, i: nat, anyChar: bool)
    ensures ExecFrom(s, i, anyChar).Some? ==>
              MatchesAt(s, ExecFrom(s, i, anyChar).value.0, ExecFrom(s, i, anyChar).value.1, anyChar) &&
              forall j: nat, ends :: i <= j < ExecFrom(s, i, anyChar).value.0 ==> !MatchesAt(s, j, ends, anyChar)
    ensures ExecFrom(s, i, anyChar).None? ==>
              forall j: nat, ends :: i <= j ==> !MatchesAt(s, j, ends, anyChar)
    decreases |s| - i
  {
    if i >= |s| {
      NoMatchPastEnd(s, i, anyChar);
    } else {
      MatchAtExact(s, i, anyChar);
      if MatchAt(s, i, anyChar).None? {
        ExecFromExact(s, i + 1, anyChar);
        var r := ExecFrom(s, i + 1, anyChar);
        NoMatchExtends(s, i, if r.Some? then r.value.0 else |s|, anyChar);
        if r.None? {
          NoMatchPastEnd(s, |s|, anyChar);
        }
      }
    }
  }

  /** No match starts at or past the end of the text. */
  lemma NoMatchPastEnd(s: string, i: nat, anyChar: bool)
    requires |s| <= i
    ensures forall j: nat, ends :: i <= j ==> !MatchesAt(s, j, ends, anyChar)
  {
  }

  /** A failed attempt at `i` extends a match-free stretch that starts right after it. */
  lemma NoMatchExtends(s: string, i: nat, hi: nat, anyChar: bool)
    requires forall ends :: !MatchesAt(s, i, ends, anyChar)
    requires forall j: nat, ends :: i + 1 <= j < hi ==> !MatchesAt(s, j, ends, anyChar)
    ensures forall j: nat, ends :: i <= j < hi ==> !MatchesAt(s, j, ends, anyChar)
  {
    forall j: nat, ends | i <= j < hi
      ensures !MatchesAt(s, j, ends, anyChar)
    {
      if j == i {
        assert !MatchesAt(s, i, ends, anyChar);
      } else {
        assert i + 1 <= j < hi;
      }
    }
  }

  /** `bboxRegex.exec` returns the leftmost match of the pattern, and returns
      null exactly when the filename contains no match at all. */
  lemma ExecFindsLeftmostMatch(s: string, anyChar: bool)
    ensures Exec(s, anyChar).Some? ==>
              MatchesAt(s, Exec(s, anyChar).value.0, Exec(s, anyChar).value.1, anyChar) &&
              forall j: nat, ends :: j < Exec(s, anyChar).value.0 ==> !MatchesAt(s, j, ends, anyChar)
    ensures Exec(s, anyChar).None? <==> forall j: nat, ends :: !MatchesAt(s, j, ends, anyChar)
  {
    ExecFromExact(s, 0, anyChar);
  }

  // ---------------------------------------------------------------------
  // At the leftmost start the matcher takes the greatest ends

  /** Each end that is tried after a smaller one was already tried before
      that smaller one: among the ends that work, the greatest comes first. */
  predicate LargerFirst(xs: seq<nat>) {
    forall a, b :: 0 <= a < b < |xs| && xs[a] < xs[b] ==> xs[b] in xs[..a]
  }

  /** No end in `xs` lies past `bound`. */
  predicate AllAtMost(xs: seq<nat>, bound: nat) {
    forall k :: 0 <= k < |xs| ==> xs[k] <= bound
  }

  /** `a` is at most `b` in lexicographic order. */
  predicate LexAtMost(a: seq<nat>, b: seq<nat>)
    decreases |a|
  {
    a == [] || (b != [] && (a[0] < b[0] || (a[0] == b[0] && LexAtMost(a[1..], b[1..]))))
  }

  /** Lexicographic order on lists of one length is antisymmetric, so a
      greatest match is unique. */
  lemma {:induction false} LexAtMostAntisymmetric(a: seq<nat>, b: seq<nat>)
    requires |a| == |b| && LexAtMost(a, b) && LexAtMost(b, a)
    ensures a == b
    decreases |a|
  {
    if a != [] {
      LexAtMostAntisymmetric(a[1..], b[1..]);
      assert a == [a[0]] + a[1..] && b == [b[0]] + b[1..];
    }
  }

  /** Greedy `[0-9]*` tries the longest run first and then one digit fewer
      at a time, down to the empty run. */
  lemma {:induction false} StarEndsLongestFirst(s: string, q: nat)
    requires q <= |s|
    ensures |StarEnds(s, q)| == DigitRun(s, q) + 1
    ensures forall k :: 0 <= k < |StarEnds(s, q)| ==> StarEnds(s, q)[k] == q + DigitRun(s, q) - k
    decreases |s| - q
  {
    if q < |s| && IsDigit(s[q]) {
      StarEndsLongestFirst(s, q + 1);
    }
  }

  lemma StarEndsLargerFirst(s: string, q: nat)
    requires q <= |s|
    ensures LargerFirst(StarEnds(s, q))
  {
    StarEndsLongestFirst(s, q);
  }

  /** An end of `[0-9]*` from `q` is any position up to the end of the run. */
  lemma StarEndsHas(s: string, q: nat, v: nat)
    requires q <= |s| && q <= v <= q + DigitRun(s, q)
    ensures v in StarEnds(s, q)
  {
    StarEndsLongestFirst(s, q);
    assert StarEnds(s, q)[q + DigitRun(s, q) - v] == v;
  }

  /** Two lists each trying larger ends first still do so one after the
      other, when every end of the second that beats one of the first was
      already tried in the first. */
  lemma LargerFirstAppend(xs: seq<nat>, ys: seq<nat>)
    requires LargerFirst(xs) && LargerFirst(ys)
    requires forall a, b :: 0 <= a < |xs| && 0 <= b < |ys| && xs[a] < ys[b] ==> ys[b] in xs
    ensures LargerFirst(xs + ys)
  {
    var zs := xs + ys;
    forall a, b | 0 <= a < b < |zs| && zs[a] < zs[b]
      ensures zs[b] in zs[..a]
    {
      if b < |xs| {
        AppendBothFirst(xs, ys, a, b);
      } else if a < |xs| {
        AppendAcross(xs, ys, a, b - |xs|);
      } else {
        AppendBothSecond(xs, ys, a - |xs|, b - |xs|);
      }
    }
  }

  lemma AppendBothFirst(xs: seq<nat>, ys: seq<nat>, a: nat, b: nat)
    requires LargerFirst(xs) && a < b < |xs| && xs[a] < xs[b]
    ensures (xs + ys)[b] in (xs + ys)[..a]
  {
    assert xs[b] in xs[..a];
    assert (xs + ys)[..a] == xs[..a];
  }

  lemma AppendAcross(xs: seq<nat>, ys: seq<nat>, a: nat, b: nat)
    requires LargerFirst(xs) && a < |xs| && b < |ys| && xs[a] < ys[b] && ys[b] in xs
    ensures (xs + ys)[|xs| + b] in (xs + ys)[..a]
  {
    var v := ys[b];
    var c :| 0 <= c < |xs| && xs[c] == v;
    assert (xs + ys)[..a] == xs[..a];
    if c < a {
      assert xs[..a][c] == v;
    } else {
      assert xs[c] in xs[..a];
    }
  }

  lemma AppendBothSecond(xs: seq<nat>, ys: seq<nat>, a: nat, b: nat)
    requires LargerFirst(ys) && a < b < |ys| && ys[a] < ys[b]
    ensures (xs + ys)[|xs| + b] in (xs + ys)[..|xs| + a]
  {
    assert ys[b] in ys[..a];
    var c :| 0 <= c < a && ys[..a][c] == ys[b];
    assert (xs + ys)[..|xs| + a][|xs| + c] == ys[c];
  }

  /** Every position from `p` up to the end of the digit run at `p` is an
      end of `.?[0-9]*`. */
  lemma DotStarEndsHasRun(s: string, p: nat, v: nat, anyChar: bool)
    requires p <= |s| && p <= v <= p + DigitRun(s, p)
    ensures v in DotStarEnds(s, p, anyChar)
  {
    var dotted := if p < |s| && DotAccepts(anyChar, s[p]) then StarEnds(s, p + 1) else [];
    assert DotStarEnds(s, p, anyChar) == dotted + StarEnds(s, p);
    StarEndsHas(s, p, v);
  }

  /** When a digit stands at `p`, no end of `.?[0-9]*` lies past the digit
      run there. */
  lemma DotStarEndsWithinRun(s: string, p: nat, anyChar: bool)
    requires p < |s| && IsDigit(s[p])
    ensures AllAtMost(DotStarEnds(s, p, anyChar), p + DigitRun(s, p))
  {
    StarEndsLongestFirst(s, p);
    StarEndsLongestFirst(s, p + 1);
  }

  /** Greedy `.?[0-9]*` tries the ends that take the optional character
      before those that do not, each group longest first. */
  lemma DotStarEndsLargerFirst(s: string, p: nat, anyChar: bool)
    requires p <= |s|
    ensures LargerFirst(DotStarEnds(s, p, anyChar))
  {
    var dotted := if p < |s| && DotAccepts(anyChar, s[p]) then StarEnds(s, p + 1) else [];
    var plain := StarEnds(s, p);
    assert DotStarEnds(s, p, anyChar) == dotted + plain;
    StarEndsLongestFirst(s, p);
    StarEndsLargerFirst(s, p);
    if p < |s| {
      StarEndsLongestFirst(s, p + 1);
      StarEndsLargerFirst(s, p + 1);
    }
    forall a, b | 0 <= a < |dotted| && 0 <= b < |plain| && dotted[a] < plain[b]
      ensures plain[b] in dotted
    {
      var v := plain[b];
      assert dotted[p + 1 + DigitRun(s, p + 1) - v] == v;
    }
    LargerFirstAppend(dotted, plain);
  }

  /** A digit run from `j` seen from a position inside it. */
  lemma {:induction false} DigitRunSuffix(s: string, j: nat, m: nat)
    requires j + m <= |s| && m <= DigitRun(s, j)
    ensures DigitRun(s, j + m) == DigitRun(s, j) - m
    decreases m
  {
    if m > 0 {
      DigitRunSuffix(s, j + 1, m - 1);
    }
  }

  /** Greedy `[0-9]+.?[0-9]*` tries larger ends first; below the full run
      its ends stay within the run. */
  lemma {:induction false} PlusEndsLargerFirst(s: string, j: nat, len: nat, anyChar: bool)
    requires j + len <= |s| && len <= DigitRun(s, j)
    ensures LargerFirst(PlusEnds(s, j, len, anyChar))
    ensures len < DigitRun(s, j) ==> AllAtMost(PlusEnds(s, j, len, anyChar), j + DigitRun(s, j))
    decreases len
  {
    if len > 0 {
      PlusEndsLargerFirst(s, j, len - 1, anyChar);
      PlusEndsStep(s, j, len, anyChar);
    } else {
      assert PlusPieces(s, j, len, anyChar) == [];
    }
  }

  /** The ends for a run of length `len` are those of `.?[0-9]*` after it,
      then those for the run one digit shorter. */
  lemma PlusEndsUnfold(s: string, j: nat, len: nat, anyChar: bool)
    requires j + len <= |s| && 1 <= len
    ensures PlusEnds(s, j, len, anyChar) == DotStarEnds(s, j + len, anyChar) + PlusEnds(s, j, len - 1, anyChar)
  {
    assert PlusPieces(s, j, len, anyChar)[1..] == PlusPieces(s, j, len - 1, anyChar);
  }

  /** One digit more keeps larger ends first, and below the full run keeps
      the ends within the run. */
  lemma PlusEndsStep(s: string, j: nat, len: nat, anyChar: bool)
    requires j + len <= |s| && 1 <= len <= DigitRun(s, j)
    requires LargerFirst(PlusEnds(s, j, len - 1, anyChar))
    requires AllAtMost(PlusEnds(s, j, len - 1, anyChar), j + DigitRun(s, j))
    ensures LargerFirst(PlusEnds(s, j, len, anyChar))
    ensures len < DigitRun(s, j) ==> AllAtMost(PlusEnds(s, j, len, anyChar), j + DigitRun(s, j))
  {
    PlusEndsUnfold(s, j, len, anyChar);
    DotStarEndsLargerFirst(s, j + len, anyChar);
    PlusEndsJoin(s, j, len, anyChar);
    LargerFirstAppend(DotStarEnds(s, j + len, anyChar), PlusEnds(s, j, len - 1, anyChar));
    if len < DigitRun(s, j) {
      PlusEndsBelowFull(s, j, len, anyChar);
    }
  }

  /** Below the full run, an end that beats one tried for the run of
      length `len` was already tried for it. */
  lemma PlusEndsJoin(s: string, j: nat, len: nat, anyChar: bool)
    requires j + len <= |s| && 1 <= len <= DigitRun(s, j)
    requires AllAtMost(PlusEnds(s, j, len - 1, anyChar), j + DigitRun(s, j))
    ensures var first, rest := DotStarEnds(s, j + len, anyChar), PlusEnds(s, j, len - 1, anyChar);
            forall a, b :: 0 <= a < |first| && 0 <= b < |rest| && first[a] < rest[b] ==> rest[b] in first
  {
    var first, rest := DotStarEnds(s, j + len, anyChar), PlusEnds(s, j, len - 1, anyChar);
    DigitRunSuffix(s, j, len);
    forall a, b | 0 <= a < |first| && 0 <= b < |rest| && first[a] < rest[b]
      ensures rest[b] in first
    {
      assert rest[b] <= j + DigitRun(s, j);
      DotStarEndsHasRun(s, j + len, rest[b], anyChar);
    }
  }

  /** Below the full run, every end tried lies within the run. */
  lemma PlusEndsBelowFull(s: string, j: nat, len: nat, anyChar: bool)
    requires j + len <= |s| && 1 <= len < DigitRun(s, j)
    requires AllAtMost(PlusEnds(s, j, len - 1, anyChar), j + DigitRun(s, j))
    ensures AllAtMost(PlusEnds(s, j, len, anyChar), j + DigitRun(s, j))
  {
    PlusEndsUnfold(s, j, len, anyChar);
    DigitRunSuffix(s, j, len);
    assert IsDigit(s[j + len]);
    DotStarEndsWithinRun(s, j + len, anyChar);
  }

  /** Greedy `num` tries larger ends first. */
  lemma NumEndsLargerFirst(s: string, p: nat, anyChar: bool)
    requires p <= |s|
    ensures LargerFirst(NumEnds(s, p, anyChar))
  {
    var j := if p < |s| && s[p] == '-' then p + 1 else p;
    PlusEndsLargerFirst(s, j, DigitRun(s, j), anyChar);
  }

  /** The search over a list of ends returns what follows the first end in
      the list for which the rest of the pattern matches. */
  lemma {:induction false} TryEndsFirst(s: string, p: nat, xs: seq<nat>, n: nat, anyChar: bool) returns (c: nat)
    requires n >= 1 && forall k :: 0 <= k < |xs| ==> p < xs[k] <= |s|
    requires TryEnds(s, p, xs, n, anyChar).Some?
    ensures c < |xs| && TryEnds(s, p, xs, n, anyChar) == After(s, xs[c], n, anyChar)
    ensures forall k :: 0 <= k < c ==> After(s, xs[k], n, anyChar).None?
    decreases |xs|
  {
    if After(s, xs[0], n, anyChar).Some? {
      c := 0;
    } else {
      var c' := TryEndsFirst(s, p, xs[1..], n, anyChar);
      c := c' + 1;
      forall k | 0 < k < c ensures After(s, xs[k], n, anyChar).None? {
        assert xs[k] == xs[1..][k - 1];
      }
    }
  }

  /** From `p`, the matcher returns the lexicographically greatest list of
      number ends among all ways `s` reads as `num(,num){n-1}]` there. */
  lemma {:induction false} GroupsGreatest(s: string, p: nat, n: nat, other: seq<nat>, anyChar: bool)
    requires p <= |s| && n >= 1 && |other| == n && Separated(s, p, other, anyChar)
    requires Groups(s, p, n, anyChar).Some?
    ensures LexAtMost(other, Groups(s, p, n, anyChar).value)
    decreases n, 1
  {
    var xs := NumEnds(s, p, anyChar);
    var e := other[0];
    NumEndsComplete(s, p, e, anyChar);
    AfterComplete(s, p, other, anyChar);
    NumEndsLargerFirst(s, p, anyChar);
    var c := FirstWorkingIsGreatest(s, p, xs, n, e, anyChar);
    var found := Groups(s, p, n, anyChar).value;
    if e == xs[c] {
      assert found == After(s, e, n, anyChar).value;
      AfterGreatest(s, p, other, anyChar);
    } else {
      assert other[0] < found[0];
    }
  }

  /** When larger ends are tried first, the end the search settles on is at
      least every end after which the rest of the pattern matches. */
  lemma FirstWorkingIsGreatest(s: string, p: nat, xs: seq<nat>, n: nat, e: nat, anyChar: bool) returns (c: nat)
    requires n >= 1 && forall k :: 0 <= k < |xs| ==> p < xs[k] <= |s|
    requires TryEnds(s, p, xs, n, anyChar).Some? && LargerFirst(xs)
    requires e in xs && e <= |s| && After(s, e, n, anyChar).Some?
    ensures c < |xs| && TryEnds(s, p, xs, n, anyChar) == After(s, xs[c], n, anyChar)
    ensures e <= xs[c] && TryEnds(s, p, xs, n, anyChar).value[0] == xs[c]
  {
    c := TryEndsFirst(s, p, xs, n, anyChar);
  }

  /** After a parse's first number, the rest the matcher finds is at least
      the parse's own rest. */
  lemma {:induction false} AfterGreatest(s: string, p: nat, other: seq<nat>, anyChar: bool)
    requires p <= |s| && Separated(s, p, other, anyChar)
    ensures After(s, other[0], |other|, anyChar).Some?
    ensures LexAtMost(other, After(s, other[0], |other|, anyChar).value)
    decreases |other|, 0
  {
    AfterComplete(s, p, other, anyChar);
    var r := After(s, other[0], |other|, anyChar).value;
    if |other| > 1 {
      GroupsGreatest(s, other[0] + 1, |other| - 1, other[1..], anyChar);
      assert r[1..] == Groups(s, other[0] + 1, |other| - 1, anyChar).value;
    } else {
      assert other[1..] == [] && r[1..] == [];
    }
  }

  /** At a start where the pattern matches, the matcher returns the match
      whose number ends are lexicographically greatest: each number as long
      as the rest of the pattern allows, the first number first. */
  lemma MatchAtGreatest(s: string, i: nat, ends: seq<nat>, anyChar: bool)
    requires MatchesAt(s, i, ends, anyChar)
    ensures MatchAt(s, i, anyChar).Some? && LexAtMost(ends, MatchAt(s, i, anyChar).value)
  {
    MatchAtExact(s, i, anyChar);
    GroupsGreatest(s, i + 1, 4, ends, anyChar);
  }

  /** `bboxRegex.exec` returns, at the leftmost start, the greatest match
      there; with `ExecFindsLeftmostMatch` and `LexAtMostAntisymmetric` this
      fixes its result. */
  lemma ExecPicksGreatestEnds(s: string, anyChar: bool)
    ensures Exec(s, anyChar).Some? ==>
              forall ends :: MatchesAt(s, Exec(s, anyChar).value.0, ends, anyChar) ==>
                LexAtMost(ends, Exec(s, anyChar).value.1)
  {
    if Exec(s, anyChar).Some? {
      var (i, found) := Exec(s, anyChar).value;
      forall ends | MatchesAt(s, i, ends, anyChar) ensures LexAtMost(ends, found) {
        MatchAtGreatest(s, i, ends, anyChar);
      }
    }
  }

  // ---------------------------------------------------------------------
  // Numbers

  function DigitValue(c: char): nat {
    if IsDigit(c) then c as int - '0' as int else 0
  }

  /** The value of the decimal digits `s[a..b]`. */
  function DigitsValue(s: string, a: nat, b: nat): nat
    requires a <= b <= |s|
    decreases b - a
  {
    if a == b then 0 else 10 * DigitsValue(s, a, b - 1) + DigitValue(s[b - 1])
  }

  function Pow10(k: nat): (r: real)
    ensures r >= 1.0
  {
    if k == 0 then 1.0 else 10.0 * Pow10(k - 1)
  }

  function Signed(negative: bool, v: real): real {
    if negative then -v else v
  }

  /** The value of a decimal `-?[0-9]+(\.[0-9]*)?`, read up to the first
      character that does not fit. */
  function DecimalValue(t: string): real {
    var neg := |t| > 0 && t[0] == '-';
    var j := if neg then 1 else 0;
    var k := j + DigitRun(t, j);
    var f := if k < |t| && t[k] == '.' then k + 1 else k;
    var fl := DigitRun(t, f);
    Signed(neg, DigitsValue(t, j, k) as real + DigitsValue(t, f, f + fl) as real / Pow10(fl))
  }

  // ---------------------------------------------------------------------
  // JSON.parse on the matched text

  predicate IsJsonSpace(c: char) {
    c == ' ' || c == '\t' || c == '\n' || c == '\r'
  }

  /** Every character of `t` is JSON whitespace. */
  predicate AllJsonSpace(t: string) {
    forall k :: 0 <= k < |t| ==> IsJsonSpace(t[k])
  }

  /** `t` without leading and trailing JSON whitespace. */
  function TrimJson(t: string): (r: string)
    ensures |r| <= |t|
    ensures r == [] || (!IsJsonSpace(r[0]) && !IsJsonSpace(r[|r| - 1]))
    ensures AllJsonSpace(t) ==> r == []
    decreases |t|
  {
    if |t| > 0 && IsJsonSpace(t[0]) then TrimJson(t[1..])
    else if |t| > 0 && IsJsonSpace(t[|t| - 1]) then TrimJson(t[..|t| - 1])
    else t
  }

  /** Whitespace before a text does not change what trimming leaves. */
  lemma {:induction false} TrimJsonIgnoresLeading(pre: string, t: string)
    requires AllJsonSpace(pre)
    ensures TrimJson(pre + t) == TrimJson(t)
    decreases |pre|
  {
    if pre != [] {
      assert (pre + t)[0] == pre[0];
      assert (pre + t)[1..] == pre[1..] + t;
      TrimJsonIgnoresLeading(pre[1..], t);
    } else {
      assert pre + t == t;
    }
  }

  /** Whitespace after a text does not change what trimming leaves. */
  lemma {:induction false} TrimJsonIgnoresTrailing(t: string, post: string)
    requires AllJsonSpace(post)
    ensures TrimJson(t + post) == TrimJson(t)
    decreases |t| + |post|
  {
    var whole := t + post;
    if post == [] {
      assert whole == t;
    } else if t == [] {
      assert whole == post;
    } else if IsJsonSpace(t[0]) {
      assert whole[0] == t[0];
      assert whole[1..] == t[1..] + post;
      TrimJsonIgnoresTrailing(t[1..], post);
    } else {
      assert whole[0] == t[0];
      assert whole[|whole| - 1] == post[|post| - 1];
      assert whole[..|whole| - 1] == t + post[..|post| - 1];
      TrimJsonIgnoresTrailing(t, post[..|post| - 1]);
    }
  }

  /** Whitespace around a text does not change what trimming leaves. */
  lemma TrimJsonIgnoresPadding(pre: string, t: string, post: string)
    requires AllJsonSpace(pre) && AllJsonSpace(post)
    ensures TrimJson(pre + t + post) == TrimJson(t)
  {
    assert pre + t + post == pre + (t + post);
    TrimJsonIgnoresLeading(pre, t + post);
    TrimJsonIgnoresTrailing(t, post);
  }

  /** The pieces joined back together, `sep` between each two. */
  function Join(parts: seq<string>, sep: char): string
    requires |parts| >= 1
    decreases |parts|
  {
    if |parts| == 1 then parts[0] else parts[0] + [sep] + Join(parts[1..], sep)
  }

  /** `t.split(sep)`: the pieces of `t` between occurrences of `sep`. */
  function SplitOn(t: string, sep: char): (parts: seq<string>)
    ensures |parts| >= 1
    decreases |t|
  {
    if t == [] then [[]]
    else
      var rest := SplitOn(t[1..], sep);
      if t[0] == sep then [[]] + rest else [[t[0]] + rest[0]] + rest[1..]
  }

  /** The pieces join back to `t`, and none of them holds `sep`. */
  lemma {:induction false} SplitOnJoinsBack(t: string, sep: char)
    ensures Join(SplitOn(t, sep), sep) == t
    ensures forall k :: 0 <= k < |SplitOn(t, sep)| ==> sep !in SplitOn(t, sep)[k]
    decreases |t|
  {
    if t != [] {
      SplitOnJoinsBack(t[1..], sep);
      var rest := SplitOn(t[1..], sep);
      var parts := SplitOn(t, sep);
      assert t == [t[0]] + t[1..];
      if t[0] == sep {
        assert parts == [[]] + rest && parts[1..] == rest;
        assert forall k :: 1 <= k < |parts| ==> parts[k] == rest[k - 1];
      } else {
        assert parts == [[t[0]] + rest[0]] + rest[1..] && parts[1..] == rest[1..];
        if |rest| > 1 {
          assert Join(rest, sep) == rest[0] + [sep] + Join(rest[1..], sep);
          assert ([t[0]] + rest[0]) + [sep] + Join(rest[1..], sep) ==
                 [t[0]] + (rest[0] + [sep] + Join(rest[1..], sep));
        }
        assert forall k :: 1 <= k < |parts| ==> parts[k] == rest[k];
      }
    }
  }

  /** Splitting the joined pieces gives the pieces back, when none of them
      holds the separator. */
  lemma {:induction false} SplitOnJoin(parts: seq<string>, sep: char)
    requires |parts| >= 1 && forall k :: 0 <= k < |parts| ==> sep !in parts[k]
    ensures SplitOn(Join(parts, sep), sep) == parts
    decreases |parts|
  {
    if |parts| == 1 {
      SplitOnPlain(parts[0], sep);
    } else {
      SplitOnJoin(parts[1..], sep);
      SplitOnPiece(parts[0], Join(parts[1..], sep), sep);
      assert [parts[0]] + parts[1..] == parts;
    }
  }

  /** Text without the separator is a single piece. */
  lemma {:induction false} SplitOnPlain(x: string, sep: char)
    requires sep !in x
    ensures SplitOn(x, sep) == [x]
    decreases |x|
  {
    if x != [] {
      SplitOnPlain(x[1..], sep);
      assert [x[0]] + x[1..] == x;
    }
  }

  /** A piece without the separator, then the separator, then the rest. */
  lemma {:induction false} SplitOnPiece(x: string, y: string, sep: char)
    requires sep !in x
    ensures SplitOn(x + [sep] + y, sep) == [x] + SplitOn(y, sep)
    decreases |x|
  {
    var t := x + [sep] + y;
    if x == [] {
      assert t == [sep] + y && t[1..] == y;
    } else {
      assert t[1..] == x[1..] + [sep] + y;
      SplitOnPiece(x[1..], y, sep);
      assert [x[0]] + x[1..] == x;
    }
  }

  // The grammar of a JSON number (section 6 of RFC 8259), stated by where
  // its parts end, and the value it denotes.

  /** Where the digits of an exponent that starts at `e` begin. */
  function ExponentDigitsStart(t: string, e: nat): nat
    requires e < |t|
  {
    if e + 1 < |t| && (t[e + 1] == '+' || t[e + 1] == '-') then e + 2 else e + 1
  }

  /** `t[e..]` is empty or an exponent `[eE][+-]?[0-9]+`. */
  predicate ExponentAt(t: string, e: nat)
    requires e <= |t|
  {
    e == |t| ||
    ((t[e] == 'e' || t[e] == 'E') && ExponentDigitsStart(t, e) < |t| && Digits(t, ExponentDigitsStart(t, e), |t|))
  }

  /** The power of ten an exponent denotes; 0 for no exponent. */
  function ExponentValue(t: string, e: nat): int
    requires e <= |t|
  {
    if e == |t| then 0
    else
      var d := ExponentDigitsStart(t, e);
      if d == e + 2 && t[e + 1] == '-' then -(DigitsValue(t, d, |t|) as int) else DigitsValue(t, d, |t|)
  }

  /** `t` is a JSON number whose integer part ends at `k` and whose
      fraction ends at `e`: an optional `-`; `0` or digits not starting with
      `0`; nothing, or `.` and one or more digits; then an exponent or
      nothing. */
  predicate JsonNumberAt(t: string, k: nat, e: nat) {
    var j := if |t| > 0 && t[0] == '-' then 1 else 0;
    j < k <= e <= |t| && Digits(t, j, k) && (t[j] == '0' ==> k == j + 1) &&
    (e == k || (t[k] == '.' && k + 1 < e && Digits(t, k + 1, e))) &&
    ExponentAt(t, e)
  }

  /** The number a JSON number split at `k` and `e` denotes: integer part
      plus fraction, times ten to the exponent, with its sign. */
  function JsonValueAt(t: string, k: nat, e: nat): real
    requires JsonNumberAt(t, k, e)
  {
    var j := if |t| > 0 && t[0] == '-' then 1 else 0;
    if e > k then Scaled(j == 1, DigitsValue(t, j, k), DigitsValue(t, k + 1, e), e - k - 1, ExponentValue(t, e))
    else Scaled(j == 1, DigitsValue(t, j, k), 0, 0, ExponentValue(t, e))
  }

  /** The number `whole.frac` (with `fracDigits` fraction digits) times
      ten to the `x`, with its sign. */
  function Scaled(negative: bool, whole: nat, frac: nat, fracDigits: nat, x: int): real {
    var mantissa := whole as real + frac as real / Pow10(fracDigits);
    Signed(negative, if x >= 0 then mantissa * Pow10(x) else mantissa / Pow10(-x))
  }

  /** A digit run that stops before a non-digit is the whole run. */
  lemma DigitRunExact(t: string, a: nat, b: nat)
    requires Digits(t, a, b) && (b == |t| || !IsDigit(t[b]))
    ensures DigitRun(t, a) == b - a
  {
    DigitRunMaximal(t, a, b);
  }

  /** The exponent reader agrees with the grammar and its value. */
  lemma JsonExponentValue(t: string, e: nat)
    requires e <= |t| && ExponentAt(t, e)
    ensures JsonExponent(t, e) == Some(ExponentValue(t, e))
  {
    if e < |t| {
      DigitRunExact(t, ExponentDigitsStart(t, e), |t|);
    }
  }

  /** `t` is a JSON number. */
  ghost predicate JsonNumberSyntax(t: string) {
    exists k, e :: JsonNumberAt(t, k, e)
  }

  /** JSON.parse accepts a number exactly when the grammar splits it, and
      then yields the value of that split. */
  lemma JsonNumberGrammar(t: string)
    ensures JsonNumber(t).Some? <==> JsonNumberSyntax(t)
    ensures forall k, e :: JsonNumberAt(t, k, e) ==> JsonNumber(t) == Some(JsonValueAt(t, k, e))
  {
    var j := if |t| > 0 && t[0] == '-' then 1 else 0;
    var k0 := j + DigitRun(t, j);
    var hasFraction := k0 < |t| && t[k0] == '.';
    var fl := if hasFraction then DigitRun(t, k0 + 1) else 0;
    var e0 := if hasFraction then k0 + 1 + fl else k0;
    if JsonNumber(t).Some? {
      assert JsonExponent(t, e0).Some?;
      assert JsonNumberAt(t, k0, e0);
    }
    forall k, e | JsonNumberAt(t, k, e)
      ensures JsonNumber(t) == Some(JsonValueAt(t, k, e))
    {
      JsonNumberAtIsRead(t, k, e);
    }
  }

  /** A grammatical split is the one JSON.parse reads, with its value. */
  lemma JsonNumberAtIsRead(t: string, k: nat, e: nat)
    requires JsonNumberAt(t, k, e)
    ensures JsonNumber(t) == Some(JsonValueAt(t, k, e))
  {
    JsonNumberReads(t, k, e);
  }

  /** The reader's positions are those of the split. */
  lemma JsonNumberPositions(t: string, k: nat, e: nat)
    requires JsonNumberAt(t, k, e)
    ensures var j := if |t| > 0 && t[0] == '-' then 1 else 0;
            j + DigitRun(t, j) == k &&
            (e > k ==> k < |t| && t[k] == '.' && DigitRun(t, k + 1) == e - k - 1) &&
            (e == k ==> !(k < |t| && t[k] == '.'))
  {
    var j := if |t| > 0 && t[0] == '-' then 1 else 0;
    DigitRunExact(t, j, k);
    if e > k {
      DigitRunExact(t, k + 1, e);
    }
  }

  lemma JsonNumberReads(t: string, k: nat, e: nat)
    requires JsonNumberAt(t, k, e)
    ensures var j := if |t| > 0 && t[0] == '-' then 1 else 0;
            JsonNumber(t) == Some(Scaled(j == 1, DigitsValue(t, j, k), if e > k then DigitsValue(t, k + 1, e) else 0,
                                         if e > k then e - k - 1 else 0, ExponentValue(t, e)))
  {
    JsonNumberPositions(t, k, e);
    JsonExponentValue(t, e);
  }

  /** The exponent `([eE][+-]?[0-9]+)?` that must fill `t` from `e` on. */
  function JsonExponent(t: string, e: nat): (r: Option<int>)
    requires e <= |t|
    ensures e == |t| ==> r == Some(0)
    ensures r.Some? <==>
              e == |t| ||
              ((t[e] == 'e' || t[e] == 'E') &&
               var d := if e + 1 < |t| && (t[e + 1] == '+' || t[e + 1] == '-') then e + 2 else e + 1;
               d < |t| && Digits(t, d, |t|))
  {
    if e == |t| then Some(0)
    else if t[e] != 'e' && t[e] != 'E' then None
    else
      var signed := e + 1 < |t| && (t[e + 1] == '+' || t[e + 1] == '-');
      var d := if signed then e + 2 else e + 1;
      var n := DigitRun(t, d);
      if n == 0 || d + n != |t| then None
      else Some(if signed && t[e + 1] == '-' then -(DigitsValue(t, d, d + n) as int) else DigitsValue(t, d, d + n))
  }

  /** The value of a whole JSON number literal
      `-?(0|[1-9][0-9]*)(\.[0-9]+)?([eE][+-]?[0-9]+)?`, or `None`. */
  function JsonNumber(t: string): (r: Option<real>)
    ensures r.Some? ==>
              var j := if |t| > 0 && t[0] == '-' then 1 else 0;
              j < |t| && IsDigit(t[j]) && (t[j] == '0' ==> j + 1 == |t| || !IsDigit(t[j + 1]))
  {
    var neg := |t| > 0 && t[0] == '-';
    var j := if neg then 1 else 0;
    var k := j + DigitRun(t, j);
    var hasFraction := k < |t| && t[k] == '.';
    var fl := if hasFraction then DigitRun(t, k + 1) else 0;
    var e := if hasFraction then k + 1 + fl else k;
    if k == j || (k > j + 1 && t[j] == '0') || (hasFraction && fl == 0) then None
    else
      match JsonExponent(t, e)
      case None => None
      case Some(x) =>
        Some(Scaled(neg, DigitsValue(t, j, k), if hasFraction then DigitsValue(t, k + 1, e) else 0, fl, x))
  }

  /** Where JSON.parse accepts a number written without an exponent, its
      value is the decimal the corrected reader computes. */
  lemma JsonNumberIsDecimal(t: string)
    requires JsonNumber(t).Some?
    requires forall k :: 0 <= k < |t| ==> t[k] != 'e' && t[k] != 'E'
    ensures JsonNumber(t) == Some(DecimalValue(t))
  {
    var neg := |t| > 0 && t[0] == '-';
    var j := if neg then 1 else 0;
    var k := j + DigitRun(t, j);
    var hasFraction := k < |t| && t[k] == '.';
    var fl := if hasFraction then DigitRun(t, k + 1) else 0;
    var e := if hasFraction then k + 1 + fl else k;
    assert e == |t|;
    if !hasFraction {
      assert DigitRun(t, k) == 0;
    }
  }

  /** Each piece read by `parse`: the values in order, or `None` when some
      piece cannot be read. */
  function ParseEach(parts: seq<string>, parse: string -> Option<real>): (r: Option<seq<real>>)
    ensures r.Some? ==> |r.value| == |parts| &&
                        forall k :: 0 <= k < |parts| ==> parse(parts[k]) == Some(r.value[k])
    ensures r.None? <==> exists k :: 0 <= k < |parts| && parse(parts[k]).None?
  {
    if parts == [] then Some([])
    else
      var head := parse(parts[0]);
      var tail := ParseEach(parts[1..], parse);
      if head.None? then None
      else if tail.None? then
        assert exists k :: 0 <= k < |parts| && parse(parts[k]).None? by {
          var k :| 0 <= k < |parts[1..]| && parse(parts[1..][k]).None?;
          assert parts[1..][k] == parts[k + 1];
        }
        None
      else
        assert forall k :: 1 <= k < |parts| ==> parts[k] == parts[1..][k - 1];
        Some([head.value] + tail.value)
  }

  /** One array element: a JSON number between optional whitespace. */
  function ElementValue(t: string): (r: Option<real>)
    ensures AllJsonSpace(t) ==> r.None?
  {
    JsonNumber(TrimJson(t))
  }

  /** JSON.parse ignores the whitespace around an array element. */
  lemma ElementValueIgnoresPadding(pre: string, t: string, post: string)
    requires AllJsonSpace(pre) && AllJsonSpace(post)
    ensures ElementValue(pre + t + post) == ElementValue(t)
  {
    TrimJsonIgnoresPadding(pre, t, post);
  }

  /** Each piece as a JSON number between optional whitespace: the values
      in order, or `None` when some piece is not a number. */
  function ReadNumbers(parts: seq<string>): (r: Option<seq<real>>)
    ensures r.Some? ==> |r.value| == |parts| &&
                        forall k :: 0 <= k < |parts| ==> JsonNumber(TrimJson(parts[k])) == Some(r.value[k])
    ensures r.None? <==> exists k :: 0 <= k < |parts| && JsonNumber(TrimJson(parts[k])).None?
  {
    ParseEach(parts, ElementValue)
  }

  /** `JSON.parse(text)` for a text that opens with `[` and closes with `]`:
      the array's numbers, or `None` where JSON.parse throws. Elements other
      than numbers cannot occur in a text the pattern matches, since every
      element there starts with a digit or `-`. */
  function ReadNumberArray(text: string): (r: Option<seq<real>>)
    ensures r.Some? ==> |text| >= 2 && text[0] == '[' && text[|text| - 1] == ']'
    ensures r.Some? && r.value != [] ==>
              var parts := SplitOn(text[1..|text| - 1], ',');
              |r.value| == |parts| &&
              forall k :: 0 <= k < |parts| ==> JsonNumber(TrimJson(parts[k])) == Some(r.value[k])
    ensures r.Some? && r.value == [] ==> TrimJson(text[1..|text| - 1]) == []
  {
    if |text| < 2 || text[0] != '[' || text[|text| - 1] != ']' then None
    else
      var parts := SplitOn(text[1..|text| - 1], ',');
      if |parts| == 1 && TrimJson(parts[0]) == [] then
        SplitOnJoinsBack(text[1..|text| - 1], ',');
        Some([])
      else ReadNumbers(parts)
  }

  /** Splitting around one separator adds the pieces on both sides. */
  lemma {:induction false} SplitOnAround(x: string, y: string, sep: char)
    ensures |SplitOn(x + [sep] + y, sep)| == |SplitOn(x, sep)| + |SplitOn(y, sep)|
    decreases |x|
  {
    if x == [] {
      assert x + [sep] + y == [sep] + y;
      assert ([sep] + y)[1..] == y;
    } else {
      assert (x + [sep] + y)[1..] == x[1..] + [sep] + y;
      SplitOnAround(x[1..], y, sep);
    }
  }

  /** Text from `a` to `b` with a comma at each of the positions `commas`
      splits into more pieces than there are commas. */
  lemma {:induction false} SplitCount(s: string, a: nat, b: nat, commas: seq<nat>)
    requires a <= b <= |s|
    requires forall k :: 0 <= k < |commas| ==> a <= commas[k] < b && s[commas[k]] == ','
    requires forall k, l :: 0 <= k < l < |commas| ==> commas[k] < commas[l]
    ensures |SplitOn(s[a..b], ',')| >= |commas| + 1
    decreases |commas|
  {
    if commas != [] {
      var c := commas[0];
      assert s[a..b] == s[a..c] + [','] + s[c + 1..b];
      SplitOnAround(s[a..c], s[c + 1..b], ',');
      SplitCount(s, c + 1, b, commas[1..]);
    }
  }

  /** JSON.parse of a matched text, when it succeeds, yields at least the
      four numbers that the destructuring `[xmin, ymin, xmax, ymax]` reads. */
  lemma MatchedTextHasFourNumbers(s: string, i: nat, ends: seq<nat>, anyChar: bool)
    requires |ends| == 4 && i < ends[0] < ends[1] < ends[2] < ends[3] < |s|
    requires MatchesAt(s, i, ends, anyChar) && ReadNumberArray(s[i..ends[3] + 1]).Some?
    ensures |ReadNumberArray(s[i..ends[3] + 1]).value| >= 4
  {
    SeparatedCommas(s, i + 1, ends, anyChar);
    MatchedTextSplitsInFour(s, i, ends);
    ReadNumberArrayCount(s[i..ends[3] + 1]);
  }

  /** Between the brackets, commas after the first three numbers leave at
      least four comma-separated pieces. */
  lemma MatchedTextSplitsInFour(s: string, i: nat, ends: seq<nat>)
    requires |ends| == 4 && i < ends[0] < ends[1] < ends[2] < ends[3] < |s|
    requires s[ends[0]] == ',' && s[ends[1]] == ',' && s[ends[2]] == ','
    ensures var text := s[i..ends[3] + 1]; |SplitOn(text[1..|text| - 1], ',')| >= 4
  {
    InsideBrackets(s, i, ends[3]);
    SplitCount(s, i + 1, ends[3], ends[..3]);
  }

  /** The text between the brackets of `s[i..e + 1]`. */
  lemma InsideBrackets(s: string, i: nat, e: nat)
    requires i < e < |s|
    ensures var text := s[i..e + 1]; text[1..|text| - 1] == s[i + 1..e]
  {
    var text := s[i..e + 1];
    var inner, want := text[1..|text| - 1], s[i + 1..e];
    forall k | 0 <= k < |inner| ensures inner[k] == want[k] {
      assert text[1 + k] == s[i + 1 + k];
    }
  }

  /** A parsed array has one value per piece, unless it is the empty array. */
  lemma ReadNumberArrayCount(text: string)
    requires ReadNumberArray(text).Some?
    ensures var parts := SplitOn(text[1..|text| - 1], ',');
            |parts| >= 2 ==> |ReadNumberArray(text).value| == |parts|
  {
  }

  /** Every number of a match but the last is followed by a comma. */
  lemma {:induction false} SeparatedCommas(s: string, p: nat, ends: seq<nat>, anyChar: bool)
    requires Separated(s, p, ends, anyChar)
    ensures forall k :: 0 <= k < |ends| - 1 ==> ends[k] < |s| && s[ends[k]] == ','
    decreases |ends|
  {
    if |ends| > 1 {
      SeparatedCommas(s, ends[0] + 1, ends[1..], anyChar);
      forall k | 1 <= k < |ends| - 1 ensures ends[k] < |s| && s[ends[k]] == ',' {
        assert ends[k] == ends[1..][k - 1];
      }
    }
  }


  // ---------------------------------------------------------------------
  // The box a filename declares

  /** What `isBboxPresentWithOverlap` finds in a filename as written: no
      literal, a box, or a literal that JSON.parse rejects (it then throws). */
  datatype Literal = NoLiteral | Declared(box: Box) | Malformed(text: string)

  /** A match starts at `i` and none starts earlier. */
  ghost predicate LeftmostMatch(s: string, i: nat, ends: seq<nat>, anyChar: bool) {
    MatchesAt(s, i, ends, anyChar) && forall j: nat, e :: j < i ==> !MatchesAt(s, j, e, anyChar)
  }

  /** Four number ends in order after `i`, inside `s`. */
  predicate Shaped(s: string, i: nat, ends: seq<nat>) {
    |ends| == 4 && i < ends[0] && ends[0] < ends[1] && ends[1] < ends[2] && ends[2] < ends[3] && ends[3] < |s|
  }

  /** The four numbers of the match at `i`, each read as a decimal. */
  function DecimalBox(s: string, i: nat, ends: seq<nat>): Box
    requires Shaped(s, i, ends)
  {
    Box(DecimalValue(s[i + 1..ends[0]]), DecimalValue(s[ends[0] + 1..ends[1]]),
        DecimalValue(s[ends[1] + 1..ends[2]]), DecimalValue(s[ends[2] + 1..ends[3]]))
  }

  /** The text of the match at `i`, from `[` to `]`. */
  function MatchText(s: string, i: nat, ends: seq<nat>): string
    requires Shaped(s, i, ends)
  {
    s[i..ends[3] + 1]
  }

  /** The match at `i` passed to JSON.parse: its first four values, or the
      text JSON.parse rejects. */
  function ReadMatch(fn: string, i: nat, ends: seq<nat>): (r: Literal)
    requires Shaped(fn, i, ends) && MatchesAt(fn, i, ends, true)
    ensures r.Malformed? ==> r.text == MatchText(fn, i, ends) && ReadNumberArray(r.text).None?
    ensures r.Declared? ==>
              var xs := ReadNumberArray(MatchText(fn, i, ends));
              xs.Some? && |xs.value| >= 4 && r.box == Box(xs.value[0], xs.value[1], xs.value[2], xs.value[3])
    ensures !r.NoLiteral?
  {
    var text := MatchText(fn, i, ends);
    match ReadNumberArray(text)
    case None => Malformed(text)
    case Some(xs) =>
      MatchedTextHasFourNumbers(fn, i, ends, true);
      Declared(Box(xs[0], xs[1], xs[2], xs[3]))
  }

  /** The filename's box as the source reads it: the leftmost match of the
      pattern with its unescaped dot, passed to JSON.parse, whose first four
      values are the box. */
  function ReadLiteralAsWritten(fn: string): (r: Literal)
    ensures r.NoLiteral? <==> forall i: nat, ends :: !MatchesAt(fn, i, ends, true)
  {
    ExecFindsLeftmostMatch(fn, true);
    match Exec(fn, true)
    case None => NoLiteral
    case Some((i, ends)) => ReadMatch(fn, i, ends)
  }

  /** A literal, accepted or rejected, is the leftmost match of the pattern
      as written, the one the backtracking matcher picks there: JSON.parse
      rejects its text, or its first four values are the box. */
  lemma ReadLiteralAsWrittenFindsLeftmost(fn: string)
    ensures ReadLiteralAsWritten(fn).Malformed? ==>
              exists i: nat, ends :: LeftmostMatch(fn, i, ends, true) && Shaped(fn, i, ends) &&
                MatchAt(fn, i, true) == Some(ends) &&
                ReadLiteralAsWritten(fn).text == MatchText(fn, i, ends) &&
                ReadNumberArray(MatchText(fn, i, ends)).None?
    ensures ReadLiteralAsWritten(fn).Declared? ==>
              exists i: nat, ends :: LeftmostMatch(fn, i, ends, true) && Shaped(fn, i, ends) &&
                MatchAt(fn, i, true) == Some(ends) &&
                var xs := ReadNumberArray(MatchText(fn, i, ends));
                xs.Some? && |xs.value| >= 4 &&
                ReadLiteralAsWritten(fn).box == Box(xs.value[0], xs.value[1], xs.value[2], xs.value[3])
  {
    ExecFindsLeftmostMatch(fn, true);
    if Exec(fn, true).Some? {
      var (i, ends) := Exec(fn, true).value;
      assert LeftmostMatch(fn, i, ends, true) && Shaped(fn, i, ends) && MatchAt(fn, i, true) == Some(ends);
    }
  }

  /** The filename's box with the dot escaped, each number of the leftmost
      match read as the decimal it is: a literal is never rejected. */
  function ReadLiteral(fn: string): (r: Option<Box>)
    ensures r.None? <==> forall i: nat, ends :: !MatchesAt(fn, i, ends, false)
  {
    ExecFindsLeftmostMatch(fn, false);
    match Exec(fn, false)
    case None => None
    case Some((i, ends)) => Some(DecimalBox(fn, i, ends))
  }

  /** The corrected box is the leftmost match's four numbers, read as decimals. */
  lemma ReadLiteralFindsLeftmost(fn: string)
    ensures ReadLiteral(fn).Some? ==>
              exists i: nat, ends :: LeftmostMatch(fn, i, ends, false) && Shaped(fn, i, ends) &&
                ReadLiteral(fn).value == DecimalBox(fn, i, ends)
  {
    ExecFindsLeftmostMatch(fn, false);
    if Exec(fn, false).Some? {
      var (i, ends) := Exec(fn, false).value;
      assert LeftmostMatch(fn, i, ends, false) && Shaped(fn, i, ends);
    }
  }

  /** A number the escaped pattern matches is matched by the pattern as
      written, whose dot accepts `.` too. */
  lemma EscapedUnsignedIsUnsigned(s: string, j: nat, x: nat)
    requires UnsignedAt(s, j, x, false)
    ensures UnsignedAt(s, j, x, true)
  {
    if !Digits(s, j, x) {
      var k :| j < k < x && DotAccepts(false, s[k]) && Digits(s, j, k) && Digits(s, k + 1, x);
      assert DotAccepts(true, s[k]);
    }
  }

  lemma {:induction false} EscapedSeparated(s: string, p: nat, ends: seq<nat>)
    requires Separated(s, p, ends, false)
    ensures Separated(s, p, ends, true)
    decreases |ends|
  {
    EscapedUnsignedIsUnsigned(s, if s[p] == '-' then p + 1 else p, ends[0]);
    if |ends| > 1 {
      EscapedSeparated(s, ends[0] + 1, ends[1..]);
    }
  }

  /** Every match of the escaped pattern is a match of the pattern as written. */
  lemma EscapedMatchIsMatch(s: string, i: nat, ends: seq<nat>)
    requires MatchesAt(s, i, ends, false)
    ensures MatchesAt(s, i, ends, true)
  {
    EscapedSeparated(s, i + 1, ends);
  }

  /** A filename in which the pattern as written finds no literal declares
      no box to the corrected reader either. */
  lemma NoLiteralEitherWay(fn: string)
    requires ReadLiteralAsWritten(fn).NoLiteral?
    ensures ReadLiteral(fn).None?
  {
    forall i: nat, ends ensures !MatchesAt(fn, i, ends, false) {
      if MatchesAt(fn, i, ends, false) {
        EscapedMatchIsMatch(fn, i, ends);
      }
    }
  }

  // ---------------------------------------------------------------------
  // A letter where the dot stands

  const LetterLiteral: string := "[1a,2,3,4]"

  lemma LetterLiteralMatches()
    ensures MatchesAt(LetterLiteral, 0, [3, 5, 7, 9], true)
  {
    var fn := LetterLiteral;
    assert UnsignedAt(fn, 1, 3, true) by {
      assert DotAccepts(true, fn[2]) && Digits(fn, 1, 2) && Digits(fn, 3, 3);
    }
    assert Separated(fn, 8, [9], true) by {
      assert Digits(fn, 8, 9);
    }
    assert Separated(fn, 6, [7, 9], true) by {
      assert [7, 9][1..] == [9];
      assert Digits(fn, 6, 7);
    }
    assert Separated(fn, 4, [5, 7, 9], true) by {
      assert [5, 7, 9][1..] == [7, 9];
      assert Digits(fn, 4, 5);
    }
    assert [3, 5, 7, 9][1..] == [5, 7, 9];
  }

  /** A match closes with `]` where its last number ends. */
  lemma {:induction false} SeparatedCloses(s: string, p: nat, ends: seq<nat>, anyChar: bool)
    requires Separated(s, p, ends, anyChar)
    ensures ends[|ends| - 1] < |s| && s[ends[|ends| - 1]] == ']'
    decreases |ends|
  {
    if |ends| > 1 {
      SeparatedCloses(s, ends[0] + 1, ends[1..], anyChar);
    }
  }

  lemma LetterLiteralOnlyMatch(i: nat, ends: seq<nat>)
    requires MatchesAt(LetterLiteral, i, ends, true)
    ensures i == 0 && ends[3] == 9
  {
    SeparatedCloses(LetterLiteral, i + 1, ends, true);
  }

  lemma LetterLiteralFirstNumber()
    ensures TrimJson(SplitOn(LetterLiteral[1..9], ',')[0]) == "1a"
    ensures JsonNumber("1a") == None
  {
    assert LetterLiteral[1..9] == "1a,2,3,4";
    assert SplitOn(",2,3,4", ',')[0] == [];
    assert SplitOn("a,2,3,4", ',')[0] == "a" by {
      assert "a,2,3,4"[1..] == ",2,3,4";
    }
    assert SplitOn("1a,2,3,4", ',')[0] == "1a" by {
      assert "1a,2,3,4"[1..] == "a,2,3,4";
    }
    assert TrimJson("1a") == "1a";
    assert DigitRun("1a", 0) == 1;
  }

  lemma LetterLiteralRejectedByJson()
    ensures ReadNumberArray(LetterLiteral) == None
  {
    var fn := LetterLiteral;
    LetterLiteralFirstNumber();
    assert fn[1..|fn| - 1] == fn[1..9];
    var parts := SplitOn(fn[1..9], ',');
    assert ReadNumbers(parts) == None;
  }

  lemma LetterLiteralFound()
    ensures Exec(LetterLiteral, true).Some?
    ensures Exec(LetterLiteral, true).value.0 == 0 && Exec(LetterLiteral, true).value.1[3] == 9
  {
    LetterLiteralMatches();
    ExecFindsLeftmostMatch(LetterLiteral, true);
    var (i, ends) := Exec(LetterLiteral, true).value;
    LetterLiteralOnlyMatch(i, ends);
  }

  /** The unescaped dot lets a letter into the match; JSON.parse then
      rejects the text, and the run aborts. */
  lemma AsWrittenRejectsLetterLiteral()
    ensures ReadLiteralAsWritten(LetterLiteral) == Malformed(LetterLiteral)
  {
    LetterLiteralFound();
    LetterLiteralRejectedByJson();
    assert MatchText(LetterLiteral, 0, Exec(LetterLiteral, true).value.1) == LetterLiteral;
  }

  lemma LetterLiteralNoDecimalPast(x: nat)
    requires x >= 3
    ensures !UnsignedAt(LetterLiteral, 1, x, false)
  {
    var fn := LetterLiteral;
    assert !IsDigit(fn[2]);
    assert forall k :: 0 <= k < |fn| ==> fn[k] != '.';
  }

  lemma LetterLiteralNoDecimalMatchAt(i: nat, ends: seq<nat>)
    ensures !MatchesAt(LetterLiteral, i, ends, false)
  {
    var fn := LetterLiteral;
    if i == 0 && |ends| == 4 {
      if ends[0] >= 3 {
        LetterLiteralNoDecimalPast(ends[0]);
        assert !NumAt(fn, 1, ends[0], false);
      } else {
        assert ends[0] <= 1 || fn[ends[0]] == '1' || fn[ends[0]] == 'a';
      }
    } else if i != 0 {
      assert i >= |fn| || fn[i] != '[';
    }
  }

  /** With the dot escaped the same filename holds no literal at all, so
      the file is kept and the run goes on. */
  lemma CorrectedIgnoresLetterLiteral()
    ensures ReadLiteral(LetterLiteral) == None
  {
    LetterLiteralHasNoDecimalMatch();
  }

  lemma LetterLiteralHasNoDecimalMatch()
    ensures forall i: nat, ends :: !MatchesAt(LetterLiteral, i, ends, false)
  {
    forall i: nat, ends ensures !MatchesAt(LetterLiteral, i, ends, false) {
      LetterLiteralNoDecimalMatchAt(i, ends);
    }
  }

  // ---------------------------------------------------------------------
  // The greedy choice decides between a box and an abort

  /** Two matches start at 0: one ends at the first `]`, the other, which
      the backtracking matcher takes, at the second. */
  const GreedyLiteral: string := "[1,2,3,4]5]"

  lemma GreedyLiteralMatches()
    ensures MatchesAt(GreedyLiteral, 0, [2, 4, 6, 10], true)
  {
    var fn := GreedyLiteral;
    assert UnsignedAt(fn, 7, 10, true) by {
      assert DotAccepts(true, fn[8]) && Digits(fn, 7, 8) && Digits(fn, 9, 10);
    }
    assert Separated(fn, 7, [10], true);
    assert Separated(fn, 5, [6, 10], true) by {
      assert [6, 10][1..] == [10];
      assert Digits(fn, 5, 6);
    }
    assert Separated(fn, 3, [4, 6, 10], true) by {
      assert [4, 6, 10][1..] == [6, 10];
      assert Digits(fn, 3, 4);
    }
    assert Digits(fn, 1, 2);
    assert [2, 4, 6, 10][1..] == [4, 6, 10];
  }

  /** The only match at 0 that is at least `[2, 4, 6, 10]` is that one. */
  lemma GreedyLiteralGreatest(ends: seq<nat>)
    requires MatchesAt(GreedyLiteral, 0, ends, true) && Spaced(ends)
    requires LexAtMost([2, 4, 6, 10], ends)
    ensures ends == [2, 4, 6, 10]
  {
    var fn := GreedyLiteral;
    SeparatedCommas(fn, 1, ends, true);
    SeparatedCloses(fn, 1, ends, true);
    assert forall k :: 0 <= k < |fn| && fn[k] == ',' ==> k == 2 || k == 4 || k == 6;
    assert forall k :: 0 <= k < |fn| && fn[k] == ']' ==> k == 8 || k == 10;
    assert ends[0] + 1 < ends[1] && ends[1] + 1 < ends[2] && ends[2] + 1 < ends[3];
    assert fn[ends[0]] == ',' && fn[ends[1]] == ',' && fn[ends[2]] == ',' && fn[ends[3]] == ']';
    assert ends[0] == 2 && ends[1] == 4 && ends[2] == 6;
    assert LexAtMost([2, 4, 6, 10][1..], ends[1..]);
    assert LexAtMost([2, 4, 6, 10][2..], ends[2..]) by {
      assert [2, 4, 6, 10][1..][1..] == [2, 4, 6, 10][2..] && ends[1..][1..] == ends[2..];
    }
    assert LexAtMost([2, 4, 6, 10][3..], ends[3..]) by {
      assert [2, 4, 6, 10][2..][1..] == [2, 4, 6, 10][3..] && ends[2..][1..] == ends[3..];
    }
    assert ends == [ends[0], ends[1], ends[2], ends[3]];
  }

  /** `exec` takes the longer match, up to the second `]`. */
  lemma GreedyLiteralFound()
    ensures Exec(GreedyLiteral, true) == Some((0, [2, 4, 6, 10]))
  {
    var fn := GreedyLiteral;
    GreedyLiteralMatches();
    MatchAtGreatest(fn, 0, [2, 4, 6, 10], true);
    var found := MatchAt(fn, 0, true).value;
    MatchAtExact(fn, 0, true);
    GreedyLiteralGreatest(found);
  }

  /** The text between the brackets splits into `1`, `2`, `3` and `4]5`. */
  lemma GreedyLiteralPieces()
    ensures SplitOn(GreedyLiteral[1..|GreedyLiteral| - 1], ',') == ["1", "2", "3", "4]5"]
  {
    var parts := ["1", "2", "3", "4]5"];
    assert Join(parts[3..], ',') == "4]5";
    assert Join(parts[2..], ',') == "3,4]5";
    assert Join(parts[1..], ',') == "2,3,4]5";
    assert GreedyLiteral[1..|GreedyLiteral| - 1] == Join(parts, ',');
    SplitOnJoin(parts, ',');
  }

  lemma FourBracketFiveIsNoNumber()
    ensures JsonNumber(TrimJson("4]5")) == None
  {
    assert TrimJson("4]5") == "4]5";
    assert DigitRun("4]5", 1) == 0;
    assert DigitRun("4]5", 0) == 1;
  }

  /** JSON.parse rejects the longer text, at its element `4]5`. */
  lemma GreedyLiteralJson()
    ensures ReadNumberArray(GreedyLiteral) == None
  {
    GreedyLiteralPieces();
    FourBracketFiveIsNoNumber();
    var parts := SplitOn(GreedyLiteral[1..|GreedyLiteral| - 1], ',');
    assert JsonNumber(TrimJson(parts[3])) == None;
  }

  /** The backtracking order decides the outcome: the pattern as written
      matches the whole filename, not just `[1,2,3,4]`, and JSON.parse
      rejects that text, so the filter throws. */
  lemma GreedyLiteralRejected()
    ensures ReadLiteralAsWritten(GreedyLiteral) == Malformed(GreedyLiteral)
  {
    GreedyLiteralFound();
    GreedyLiteralJson();
    assert MatchText(GreedyLiteral, 0, [2, 4, 6, 10]) == GreedyLiteral;
  }
}
