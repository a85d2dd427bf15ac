/**
 The natural sort key of main.py: `re.split('(\d+)', s)` cuts a file name into
 alternating non-digit and digit runs, digit runs become integers and text runs
 are lower-cased, and Python's list comparison of the resulting keys decides the
 page order (`files.sort(key=natural_sort_key)`).
 */
module NaturalSort {
  import opened Text

  /** End of the run of digits (`digits`) or of non-digits (`!digits`) that starts at `i`. */
  function RunEnd(s: string, i: nat, digits: bool): (j: nat)
    requires i <= |s|
    ensures i <= j <= |s|
    decreases |s| - i
  {
    if i == |s| || IsDigit(s[i]) != digits then i else RunEnd(s, i + 1, digits)
  }

  /** Every character of the run is of the run's kind, and the one after it is not. */
  lemma {:induction false} RunEndSpec(s: string, i: nat, digits: bool)
    requires i <= |s|
    ensures forall k :: i <= k < RunEnd(s, i, digits) ==> IsDigit(s[k]) == digits
    ensures RunEnd(s, i, digits) < |s| ==> IsDigit(s[RunEnd(s, i, digits)]) != digits
    decreases |s| - i
  {
    if i < |s| && IsDigit(s[i]) == digits {
      RunEndSpec(s, i + 1, digits);
    }
  }

  /** A run is determined by where its kind changes. */
  lemma RunEndIs(s: string, i: nat, digits: bool, j: nat)
    requires i <= j <= |s|
    requires forall k :: i <= k < j ==> IsDigit(s[k]) == digits
    requires j < |s| ==> IsDigit(s[j]) != digits
    ensures RunEnd(s, i, digits) == j
  {
    RunEndSpec(s, i, digits);
  }

  /**
   The list `re.split('(\d+)', s)` returns, which always alternates text and
   digits and starts and ends with text: `[t0, d0, t1, d1, ..., tn]` is
   `Run(t0, d0, Run(t1, d1, ... Last(tn)))`.
   */
  datatype Pieces = Last(text: string) | Run(text: string, digits: string, rest: Pieces)

  /** `''.join(pieces)`. */
  function Flatten(ps: Pieces): string {
    match ps
    case Last(t) => t
    case Run(t, d, rest) => t + d + Flatten(rest)
  }

  /** Text pieces hold no digit, digit pieces are non-empty digit runs, and every
      text piece between two digit runs is non-empty; only the leading text piece
      (when `first`) and the trailing one may be empty. */
  ghost predicate Valid(ps: Pieces, first: bool) {
    match ps
    case Last(t) => NoDigits(t)
    case Run(t, d, rest) => NoDigits(t) && IsDigits(d) && (first || |t| > 0) && Valid(rest, false)
  }

  /** The split of `s[i..]`: a text run, then (unless the text run reaches the end)
      a digit run and the split of what follows. */
  function SplitAt(s: string, i: nat): Pieces
    requires i <= |s|
    decreases |s| - i
  {
    var m := RunEnd(s, i, false);
    if m == |s| then Last(s[i..])
    else
      var e := RunEnd(s, m, true);
      Run(s[i..m], s[m..e], SplitAt(s, e))
  }


  lemma SplitAtLast(s: string, i: nat)
    requires i <= |s| && RunEnd(s, i, false) == |s|
    ensures SplitAt(s, i) == Last(s[i..])
  {
  }

  lemma SplitAtRun(s: string, i: nat, m: nat, e: nat, t: string, d: string, rest: Pieces)
    requires i <= |s| && m == RunEnd(s, i, false) < |s| && e == RunEnd(s, m, true)
    requires s[i..m] == t && s[m..e] == d && rest == SplitAt(s, e)
    ensures SplitAt(s, i) == Run(t, d, rest)
  {
  }

  lemma {:induction false} SplitAtValid(s: string, i: nat)
    requires i <= |s|
    ensures Valid(SplitAt(s, i), i < |s| && IsDigit(s[i]))
    decreases |s| - i
  {
    var m := RunEnd(s, i, false);
    RunEndSpec(s, i, false);
    if m < |s| {
      var e := RunEnd(s, m, true);
      RunEndSpec(s, m, true);
      SplitAtValid(s, e);
      assert NoDigits(s[i..m]) by {
        forall k | 0 <= k < m - i ensures !IsDigit(s[i..m][k]) { assert s[i..m][k] == s[i + k]; }
      }
      assert IsDigits(s[m..e]) by {
        forall k | 0 <= k < e - m ensures IsDigit(s[m..e][k]) { assert s[m..e][k] == s[m + k]; }
      }
    } else {
      assert NoDigits(s[i..]) by {
        forall k | 0 <= k < |s| - i ensures !IsDigit(s[i..][k]) { assert s[i..][k] == s[i + k]; }
      }
    }
  }

  lemma SliceThree(s: string, i: nat, m: nat, e: nat)
    requires i <= m <= e <= |s|
    ensures s[i..m] + s[m..e] + s[e..] == s[i..]
  {
  }

  lemma {:induction false} SplitAtFlatten(s: string, i: nat)
    requires i <= |s|
    ensures Flatten(SplitAt(s, i)) == s[i..]
    decreases |s| - i
  {
    var m := RunEnd(s, i, false);
    if m < |s| {
      var e := RunEnd(s, m, true);
      SplitAtRun(s, i, m, e, s[i..m], s[m..e], SplitAt(s, e));
      SplitAtFlatten(s, e);
      SliceThree(s, i, m, e);
    } else {
      SplitAtLast(s, i);
    }
  }

  /** `re.split('(\d+)', s)`: the pieces join back to `s` and alternate as `re.split` promises. */
  function Split(s: string): (ps: Pieces)
    ensures Flatten(ps) == s
    ensures Valid(ps, true)
  {
    SplitAtFlatten(s, 0);
    SplitAtValid(s, 0);
    SplitAt(s, 0)
  }

  /** How the run scanner reads `s[i..] == a + b + rest` when `rest` does not
      start with a digit. */
  lemma RunsOf(s: string, i: nat, m: nat, e: nat, a: string, b: string, rest: string)
    requires i <= |s| && s[i..] == a + b + rest && m == i + |a| && e == m + |b|
    requires NoDigits(a) && IsDigits(b)
    requires |rest| > 0 ==> !IsDigit(rest[0])
    ensures m == RunEnd(s, i, false) < |s| && e == RunEnd(s, m, true)
    ensures s[i..m] == a && s[m..e] == b && s[e..] == rest
  {
    RunsOfEnds(s, i, m, e, a, b, rest);
    var u := s[i..];
    assert u[..|a|] == a && u[|a|..|a| + |b|] == b && u[|a| + |b|..] == rest;
  }

  lemma RunsOfEnds(s: string, i: nat, m: nat, e: nat, a: string, b: string, rest: string)
    requires i <= |s| && s[i..] == a + b + rest && m == i + |a| && e == m + |b|
    requires NoDigits(a) && IsDigits(b)
    requires |rest| > 0 ==> !IsDigit(rest[0])
    ensures m == RunEnd(s, i, false) < |s| && e == RunEnd(s, m, true)
  {
    var u := s[i..];
    forall k | i <= k < m ensures !IsDigit(s[k]) {
      assert s[k] == u[k - i] == a[k - i];
    }
    forall k | m <= k < e ensures IsDigit(s[k]) {
      assert s[k] == u[k - i] == b[k - m];
    }
    assert s[m] == u[|a|] == b[0];
    if e < |s| {
      assert s[e] == u[e - i] == rest[0];
    }
    RunEndIs(s, i, false, m);
    RunEndIs(s, m, true, e);
  }

  lemma LastCase(s: string, i: nat, t: string)
    requires i <= |s| && NoDigits(t) && t == s[i..]
    ensures SplitAt(s, i) == Last(t)
  {
    forall k | i <= k < |s| ensures !IsDigit(s[k]) {
      assert s[k] == t[k - i];
    }
    RunEndIs(s, i, false, |s|);
  }

  lemma RunCase(s: string, i: nat, m: nat, e: nat, t: string, d: string, rest: Pieces)
    requires i <= |s| && NoDigits(t) && IsDigits(d) && Valid(rest, false)
    requires t + d + Flatten(rest) == s[i..] && m == i + |t| && e == m + |d|
    ensures m == RunEnd(s, i, false) < |s| && e == RunEnd(s, m, true)
    ensures s[i..m] == t && s[m..e] == d && Flatten(rest) == s[e..]
  {
    var r := Flatten(rest);
    if |r| > 0 {
      match rest
      case Last(_) =>
      case Run(t', _, _) => assert r[0] == t'[0];
    }
    RunsOf(s, i, m, e, t, d, r);
  }

  lemma {:induction false} SplitAtUnique(ps: Pieces, s: string, i: nat, first: bool)
    requires i <= |s| && Valid(ps, first) && Flatten(ps) == s[i..]
    ensures ps == SplitAt(s, i)
    decreases ps
  {
    match ps
    case Last(t) =>
      LastCase(s, i, t);
    case Run(t, d, rest) =>
      var m := i + |t|;
      var e := m + |d|;
      RunCase(s, i, m, e, t, d, rest);
      SplitAtUnique(rest, s, e, false);
      SplitAtRun(s, i, m, e, t, d, rest);
  }

  /** The alternating decomposition of a name is unique: any list of pieces that
      alternates as `re.split` does and joins back to `s` is `re.split`'s result. */
  lemma SplitUnique(ps: Pieces, s: string)
    requires Valid(ps, true) && Flatten(ps) == s
    ensures ps == Split(s)
  {
    SplitAtUnique(ps, s, 0, true);
  }

  /** One element of the key: an `int` or a lower-cased `str`. */
  datatype Token = Text(text: string) | Num(value: nat)

  /** `int(text) if text.isdigit() else text.lower()`. */
  function TokenOf(piece: string): Token {
    if IsDigits(piece) then Num(DigitsValue(piece)) else Text(Lower(piece))
  }

  /** The list comprehension of `natural_sort_key`, piece by piece in order. */
  function KeyOf(ps: Pieces): (k: seq<Token>)
    ensures |k| % 2 == 1
  {
    match ps
    case Last(t) => [TokenOf(t)]
    case Run(t, d, rest) => [TokenOf(t), TokenOf(d)] + KeyOf(rest)
  }

  /** On a valid split, text pieces give lower-cased, digit-free strings and digit
      pieces give integers. */
  lemma {:induction false} KeyOfAt(ps: Pieces, first: bool, i: nat)
    requires Valid(ps, first) && i < |KeyOf(ps)|
    ensures KeyOf(ps)[i].Text? <==> i % 2 == 0
    ensures KeyOf(ps)[i].Text? ==> Lower(KeyOf(ps)[i].text) == KeyOf(ps)[i].text && NoDigits(KeyOf(ps)[i].text)
    decreases ps
  {
    match ps
    case Last(t) =>
      TextToken(t);
    case Run(t, d, rest) =>
      if i >= 2 {
        assert KeyOf(ps)[i] == KeyOf(rest)[i - 2];
        KeyOfAt(rest, false, i - 2);
      } else if i == 0 {
        TextToken(t);
      }
  }

  /** A text piece becomes its lower-cased form, which holds no digit either. */
  lemma TextToken(t: string)
    requires NoDigits(t)
    ensures TokenOf(t) == Text(Lower(t))
    ensures Lower(Lower(t)) == Lower(t) && NoDigits(Lower(t))
  {
    if |t| > 0 { assert !IsDigit(t[0]); }
    LowerIdempotent(t);
    LowerKeepsDigits(t);
  }

  /** `natural_sort_key(s)`: an odd number of tokens; lower-cased, digit-free text at
      even positions and integers at odd positions. */
  function Key(s: string): (k: seq<Token>)
    ensures |k| % 2 == 1
    ensures forall i :: 0 <= i < |k| ==> (k[i].Text? <==> i % 2 == 0)
    ensures forall i :: 0 <= i < |k| && k[i].Text? ==> Lower(k[i].text) == k[i].text && NoDigits(k[i].text)
  {
    forall i | 0 <= i < |KeyOf(Split(s))|
      ensures KeyOf(Split(s))[i].Text? <==> i % 2 == 0
      ensures KeyOf(Split(s))[i].Text? ==> Lower(KeyOf(Split(s))[i].text) == KeyOf(Split(s))[i].text && NoDigits(KeyOf(Split(s))[i].text)
    {
      KeyOfAt(Split(s), true, i);
    }
    KeyOf(Split(s))
  }

  /** Every piece lower-cased. */
  function LowerPieces(ps: Pieces): Pieces {
    match ps
    case Last(t) => Last(Lower(t))
    case Run(t, d, rest) => Run(Lower(t), Lower(d), LowerPieces(rest))
  }

  lemma {:induction false} LowerPiecesFlatten(ps: Pieces)
    ensures Flatten(LowerPieces(ps)) == Lower(Flatten(ps))
  {
    match ps
    case Last(_) =>
    case Run(t, d, rest) =>
      LowerPiecesFlatten(rest);
      LowerAppend(t + d, Flatten(rest));
      LowerAppend(t, d);
  }

  lemma {:induction false} LowerPiecesValid(ps: Pieces, first: bool)
    requires Valid(ps, first)
    ensures Valid(LowerPieces(ps), first)
  {
    match ps
    case Last(t) =>
      LowerKeepsDigits(t);
    case Run(t, d, rest) =>
      LowerKeepsDigits(t);
      LowerKeepsDigits(d);
      LowerPiecesValid(rest, false);
  }

  lemma {:induction false} LowerPiecesKey(ps: Pieces, first: bool)
    requires Valid(ps, first)
    ensures KeyOf(LowerPieces(ps)) == KeyOf(ps)
  {
    match ps
    case Last(t) =>
      TextToken(t);
      TextToken(Lower(t));
    case Run(t, d, rest) =>
      TextToken(t);
      TextToken(Lower(t));
      LowerKeepsDigits(d);
      LowerPiecesKey(rest, false);
  }

  /** The key ignores case: a name and its lower-cased form have the same key, so
      names that differ only in the case of their letters sort as equals. */
  lemma KeyCaseInsensitive(s: string)
    ensures Key(Lower(s)) == Key(s)
  {
    var ps := Split(s);
    LowerPiecesFlatten(ps);
    LowerPiecesValid(ps, true);
    SplitUnique(LowerPieces(ps), Lower(s));
    LowerPiecesKey(ps, true);
  }

  /** The outcome of Python's `<`: a boolean, or a TypeError for `str < int`. */
  datatype Comparison = Returned(less: bool) | TypeError

  /** `k` is the first position at which `a` and `b` differ. */
  ghost predicate FirstDiff<T>(a: seq<T>, b: seq<T>, k: int) {
    0 <= k < |a| && k < |b| && a[..k] == b[..k] && a[k] != b[k]
  }

  /** `a` and `b` agree on every common position: one is a prefix of the other. */
  ghost predicate SharedPrefix<T>(a: seq<T>, b: seq<T>) {
    forall i :: 0 <= i < |a| && i < |b| ==> a[i] == b[i]
  }

  lemma FirstDiffHead<T>(a: seq<T>, b: seq<T>)
    requires |a| > 0 && |b| > 0 && a[0] != b[0]
    ensures FirstDiff(a, b, 0) && !SharedPrefix(a, b)
    ensures forall k :: FirstDiff(a, b, k) ==> k == 0
  {
    assert forall k :: 0 < k <= |a| ==> a[..k][0] == a[0];
  }

  lemma FirstDiffTail<T>(a: seq<T>, b: seq<T>)
    requires |a| > 0 && |b| > 0 && a[0] == b[0]
    ensures forall k :: FirstDiff(a, b, k) ==> k > 0 && FirstDiff(a[1..], b[1..], k - 1)
    ensures forall k :: FirstDiff(a[1..], b[1..], k) ==> FirstDiff(a, b, k + 1)
    ensures SharedPrefix(a, b) <==> SharedPrefix(a[1..], b[1..])
  {
    forall k | FirstDiff(a, b, k) ensures k > 0 && FirstDiff(a[1..], b[1..], k - 1) {
      assert a[1..][..k - 1] == a[..k][1..] && b[1..][..k - 1] == b[..k][1..];
    }
    forall k | FirstDiff(a[1..], b[1..], k) ensures FirstDiff(a, b, k + 1) {
      assert a[..k + 1] == [a[0]] + a[1..][..k] && b[..k + 1] == [b[0]] + b[1..][..k];
    }
    if SharedPrefix(a[1..], b[1..]) {
      forall i | 0 < i < |a| && i < |b| ensures a[i] == b[i] {
        assert a[1..][i - 1] == a[i] && b[1..][i - 1] == b[i];
      }
    }
  }

  /** Two sequences either share a prefix or have a first difference, so the two
      ensures of `StrLessSpec` and of `KeyLessSpec` between them fix the result. */
  lemma {:induction false} FirstDiffOrShared<T>(a: seq<T>, b: seq<T>)
    ensures SharedPrefix(a, b) || exists k :: FirstDiff(a, b, k)
  {
    if |a| > 0 && |b| > 0 {
      if a[0] != b[0] {
        FirstDiffHead(a, b);
      } else {
        FirstDiffOrShared(a[1..], b[1..]);
        FirstDiffTail(a, b);
      }
    }
  }

  /** Python `str < str`, one character at a time. */
  function StrLess(a: string, b: string): bool {
    if |a| == 0 || |b| == 0 then |a| < |b|
    else if a[0] != b[0] then a[0] < b[0]
    else StrLess(a[1..], b[1..])
  }

  /** Python's definition of `str < str`: at the first position where the strings
      differ the smaller code point wins; when one is a prefix of the other, the
      shorter is less. */
  lemma {:induction false} StrLessSpec(a: string, b: string)
    ensures forall k :: FirstDiff(a, b, k) ==> (StrLess(a, b) <==> a[k] < b[k])
    ensures SharedPrefix(a, b) ==> (StrLess(a, b) <==> |a| < |b|)
  {
    if |a| > 0 && |b| > 0 {
      if a[0] != b[0] {
        FirstDiffHead(a, b);
      } else {
        FirstDiffTail(a, b);
        StrLessSpec(a[1..], b[1..]);
      }
    }
  }

  /** Python `<` on two key elements: comparing a `str` with an `int` raises. */
  function TokenLess(x: Token, y: Token): (r: Comparison)
    ensures r.TypeError? <==> x.Text? != y.Text?
    ensures x.Num? && y.Num? ==> r == Returned(x.value < y.value)
    ensures x.Text? && y.Text? ==> r == Returned(StrLess(x.text, y.text))
  {
    match (x, y)
    case (Text(a), Text(b)) => Returned(StrLess(a, b))
    case (Num(m), Num(n)) => Returned(m < n)
    case _ => TypeError
  }

  /** Python `list < list`, one element at a time. */
  function KeyLess(a: seq<Token>, b: seq<Token>): Comparison {
    if |a| == 0 || |b| == 0 then Returned(|a| < |b|)
    else if a[0] != b[0] then TokenLess(a[0], b[0])
    else KeyLess(a[1..], b[1..])
  }

  /** Python's definition of `list < list`: the first unequal pair of elements
      decides, and comparing them may raise; when one list is a prefix of the
      other, the shorter is less. */
  lemma {:induction false} KeyLessSpec(a: seq<Token>, b: seq<Token>)
    ensures forall k :: FirstDiff(a, b, k) ==> KeyLess(a, b) == TokenLess(a[k], b[k])
    ensures SharedPrefix(a, b) ==> KeyLess(a, b) == Returned(|a| < |b|)
  {
    if |a| > 0 && |b| > 0 {
      if a[0] != b[0] {
        FirstDiffHead(a, b);
      } else {
        FirstDiffTail(a, b);
        KeyLessSpec(a[1..], b[1..]);
      }
    }
  }

  /** Two keys hold tokens of the same kind at every common position. */
  ghost predicate Kinded(a: seq<Token>, b: seq<Token>) {
    forall i :: 0 <= i < |a| && i < |b| ==> a[i].Text? == b[i].Text?
  }

  lemma KeysKinded(s: string, t: string)
    ensures Kinded(Key(s), Key(t))
  {
  }

  lemma {:induction false} KindedTail(a: seq<Token>, b: seq<Token>)
    requires |a| > 0 && |b| > 0 && Kinded(a, b)
    ensures Kinded(a[1..], b[1..])
  {
    forall i | 0 <= i < |a| - 1 && i < |b| - 1 ensures a[1..][i].Text? == b[1..][i].Text? {
      assert a[1..][i] == a[i + 1] && b[1..][i] == b[i + 1];
    }
  }

  /** Keys of the same shape never make `<` raise. */
  lemma {:induction false} KindedComparable(a: seq<Token>, b: seq<Token>)
    requires Kinded(a, b)
    ensures KeyLess(a, b).Returned?
  {
    if |a| > 0 && |b| > 0 && a[0] == b[0] {
      KindedTail(a, b);
      KindedComparable(a[1..], b[1..]);
    }
  }

  /** Sorting file names by `natural_sort_key` never raises a TypeError. */
  lemma KeysComparable(s: string, t: string)
    ensures KeyLess(Key(s), Key(t)).Returned?
  {
    KeysKinded(s, t);
    KindedComparable(Key(s), Key(t));
  }

  lemma {:induction false} StrLessIrreflexive(a: string)
    ensures !StrLess(a, a)
  {
    if |a| > 0 {
      StrLessIrreflexive(a[1..]);
    }
  }

  lemma {:induction false} StrLessTransitive(a: string, b: string, c: string)
    requires StrLess(a, b) && StrLess(b, c)
    ensures StrLess(a, c)
  {
    if |a| > 0 && |b| > 0 && |c| > 0 && a[0] == b[0] && b[0] == c[0] {
      StrLessTransitive(a[1..], b[1..], c[1..]);
    }
  }

  lemma {:induction false} StrLessTotal(a: string, b: string)
    requires a != b
    ensures StrLess(a, b) || StrLess(b, a)
  {
    if |a| > 0 && |b| > 0 && a[0] == b[0] {
      assert a == [a[0]] + a[1..] && b == [b[0]] + b[1..];
      StrLessTotal(a[1..], b[1..]);
    }
  }

  lemma {:induction false} KeyLessIrreflexive(a: seq<Token>)
    ensures KeyLess(a, a) == Returned(false)
  {
    if |a| > 0 {
      KeyLessIrreflexive(a[1..]);
    }
  }

  lemma {:induction false} KeyLessTransitive(a: seq<Token>, b: seq<Token>, c: seq<Token>)
    requires KeyLess(a, b) == Returned(true) && KeyLess(b, c) == Returned(true)
    ensures KeyLess(a, c) == Returned(true)
  {
    if |a| > 0 && |b| > 0 && |c| > 0 {
      if a[0] == b[0] && b[0] == c[0] {
        KeyLessTransitive(a[1..], b[1..], c[1..]);
      } else if a[0] == b[0] || b[0] == c[0] {
        // the one unequal pair decides both comparisons involving `a` and `c`
      } else {
        match (a[0], b[0], c[0])
        case (Text(x), Text(y), Text(z)) =>
          StrLessTransitive(x, y, z);
          StrLessIrreflexive(x);
        case (Num(_), Num(_), Num(_)) =>
        case _ =>
      }
    }
  }

  lemma {:induction false} KeyLessTotal(a: seq<Token>, b: seq<Token>)
    requires Kinded(a, b) && a != b
    ensures KeyLess(a, b) == Returned(true) || KeyLess(b, a) == Returned(true)
  {
    if |a| > 0 && |b| > 0 {
      if a[0] == b[0] {
        assert a == [a[0]] + a[1..] && b == [b[0]] + b[1..];
        KindedTail(a, b);
        KindedTail(b, a);
        KeyLessTotal(a[1..], b[1..]);
      } else {
        match (a[0], b[0])
        case (Text(x), Text(y)) => StrLessTotal(x, y);
        case (Num(_), Num(_)) =>
      }
    }
  }

  /** `x` sorts strictly before `y`: `natural_sort_key(x) < natural_sort_key(y)`. */
  predicate Before(x: string, y: string) {
    KeyLess(Key(x), Key(y)) == Returned(true)
  }

  /** `Before` is a strict weak order on names: irreflexive, transitive, and any
      two names with different keys are ordered one way or the other. */
  lemma BeforeIsStrictOrder(x: string, y: string, z: string)
    ensures !Before(x, x)
    ensures Before(x, y) && Before(y, z) ==> Before(x, z)
    ensures Key(x) != Key(y) ==> Before(x, y) || Before(y, x)
    ensures Key(x) == Key(y) ==> !Before(x, y)
  {
    KeyLessIrreflexive(Key(x));
    if Before(x, y) && Before(y, z) {
      KeyLessTransitive(Key(x), Key(y), Key(z));
    }
    if Key(x) != Key(y) {
      KeysKinded(x, y);
      KeyLessTotal(Key(x), Key(y));
    }
  }

  /** Irreflexive and transitive: what a sort needs of its `<`. */
  ghost predicate StrictOrder<T(!new)>(lt: (T, T) -> bool) {
    && (forall x :: !lt(x, x))
    && (forall x, y, z :: lt(x, y) && lt(y, z) ==> lt(x, z))
  }

  lemma BeforeStrictOrder()
    ensures StrictOrder(Before)
  {
    forall x ensures !Before(x, x) {
      BeforeIsStrictOrder(x, x, x);
    }
    forall x, y, z | Before(x, y) && Before(y, z) ensures Before(x, z) {
      BeforeIsStrictOrder(x, y, z);
    }
  }

  /** Non-decreasing under `lt`: no later element is strictly less than an earlier one. */
  ghost predicate SortedBy<T>(s: seq<T>, lt: (T, T) -> bool) {
    forall i, j :: 0 <= i < j < |s| ==> !lt(s[j], s[i])
  }

  /** Inserts `x` behind every element that is not greater than it, so that
      equal elements keep their input order. */
  function InsertBy<T>(x: T, s: seq<T>, lt: (T, T) -> bool): (r: seq<T>)
    ensures multiset(r) == multiset(s) + multiset{x}
  {
    if |s| == 0 then [x]
    else if lt(x, s[0]) then [x] + s
    else
      assert s == [s[0]] + s[1..];
      [s[0]] + InsertBy(x, s[1..], lt)
  }

  /** Putting in front an element that nothing in a sorted list is less than keeps it sorted. */
  lemma PrependSorted<T>(y: T, t: seq<T>, lt: (T, T) -> bool)
    requires SortedBy(t, lt)
    requires forall j :: 0 <= j < |t| ==> !lt(t[j], y)
    ensures SortedBy([y] + t, lt)
  {
    var r := [y] + t;
    forall i, j | 0 <= i < j < |r| ensures !lt(r[j], r[i]) {
      assert r[j] == t[j - 1];
      if i > 0 { assert r[i] == t[i - 1]; }
    }
  }

  lemma {:induction false} InsertBySorted<T(!new)>(x: T, s: seq<T>, lt: (T, T) -> bool)
    requires StrictOrder(lt) && SortedBy(s, lt)
    ensures SortedBy(InsertBy(x, s, lt), lt)
  {
    if |s| == 0 {
    } else if lt(x, s[0]) {
      assert forall k :: 0 <= k < |s| ==> !lt(s[k], s[0]);
      PrependSorted(x, s, lt);
    } else {
      var t := InsertBy(x, s[1..], lt);
      InsertBySorted(x, s[1..], lt);
      forall j | 0 <= j < |t| ensures !lt(t[j], s[0]) {
        assert t[j] in multiset(t);
        if t[j] != x {
          assert t[j] in s[1..];
        }
      }
      PrependSorted(s[0], t, lt);
    }
  }

  /** A stable insertion sort under `lt`, the comparison `list.sort` uses. */
  function SortBy<T>(s: seq<T>, lt: (T, T) -> bool): (r: seq<T>)
    ensures multiset(r) == multiset(s)
  {
    if |s| == 0 then []
    else
      assert s == s[..|s| - 1] + [s[|s| - 1]];
      InsertBy(s[|s| - 1], SortBy(s[..|s| - 1], lt), lt)
  }

  lemma {:induction false} SortBySorted<T(!new)>(s: seq<T>, lt: (T, T) -> bool)
    requires StrictOrder(lt)
    ensures SortedBy(SortBy(s, lt), lt)
  {
    if |s| > 0 {
      SortBySorted(s[..|s| - 1], lt);
      InsertBySorted(s[|s| - 1], SortBy(s[..|s| - 1], lt), lt);
    }
  }

  /** `files.sort(key=natural_sort_key)`: the names, permuted so that no name
      sorts strictly before one that precedes it. */
  function SortByKey(s: seq<string>): (r: seq<string>)
    ensures multiset(r) == multiset(s)
    ensures SortedBy(r, Before)
  {
    BeforeStrictOrder();
    SortBySorted(s, Before);
    SortBy(s, Before)
  }
}
