/** The few Python built-ins the services rely on, with the semantics
    CPython gives them: exception classes, truthiness of optional values,
    `str.strip()`, `str.join`, the `in` test on strings, `str(int)`,
    `zip`, and the index bookkeeping of a filtering comprehension. */
module Python {
  import opened Wrappers

  /** The exception classes the modelled code can raise.  `ExternalError`
      stands for whatever an external library or service raises. */
  datatype PyError = KeyError | TypeError | IndexError | ValueError | ExternalError

  function Min(a: int, b: int): int {
    if a <= b then a else b
  }

  // ---------------------------------------------------------------------
  // Truthiness

  /** `if text:` for a value that is a `str` or `None`. */
  predicate StrTruthy(s: Option<string>) {
    s.Some? && s.value != ""
  }

  /** `if n:` for a value that is an `int` or `None`. */
  predicate IntTruthy(n: Option<int>) {
    n.Some? && n.value != 0
  }

  // ---------------------------------------------------------------------
  // str.strip()

  /** `c.isspace()`: the characters CPython treats as whitespace. */
  predicate IsSpace(c: char) {
    || '\t' <= c <= '\r'
    || '\U{1C}' <= c <= ' '
    || c == '\U{85}' || c == '\U{A0}' || c == '\U{1680}'
    || '\U{2000}' <= c <= '\U{200A}'
    || c == '\U{2028}' || c == '\U{2029}' || c == '\U{202F}'
    || c == '\U{205F}' || c == '\U{3000}'
  }

  /** Every character of `s[lo:hi]` is whitespace. */
  ghost predicate SpaceBetween(s: string, lo: int, hi: int)
    requires 0 <= lo && hi <= |s|
  {
    forall k :: lo <= k < hi ==> IsSpace(s[k])
  }

  /** The first position at or after `i` that holds no whitespace
      (`|s|` if there is none): where `s.strip()` starts its result. */
  function LeftEdge(s: string, i: nat): (a: nat)
    requires i <= |s|
    ensures i <= a <= |s|
    ensures SpaceBetween(s, i, a)
    ensures a < |s| ==> !IsSpace(s[a])
    decreases |s| - i
  {
    if i == |s| || !IsSpace(s[i]) then i else LeftEdge(s, i + 1)
  }

  /** Scanning back from `j` but not past `a`, the end of the last
      non-whitespace character: where `s.strip()` ends its result. */
  function RightEdge(s: string, a: nat, j: nat): (b: nat)
    requires a <= j <= |s|
    ensures a <= b <= j
    ensures SpaceBetween(s, b, j)
    ensures b > a ==> !IsSpace(s[b - 1])
    decreases j
  {
    if j == a || !IsSpace(s[j - 1]) then j else RightEdge(s, a, j - 1)
  }

  /** `r` is what is left of `s` once `a` leading and `|s| - a - |r|`
      trailing whitespace characters are cut off. */
  ghost predicate StripsTo(s: string, a: int, r: string) {
    && 0 <= a && a + |r| <= |s|
    && SpaceBetween(s, 0, a)
    && s[a..a + |r|] == r
    && SpaceBetween(s, a + |r|, |s|)
  }

  /** `s.strip()`: `s` without its leading and trailing whitespace. */
  function Strip(s: string): (r: string)
    ensures |r| <= |s|
    ensures exists a :: StripsTo(s, a, r)
    ensures r == "" <==> SpaceBetween(s, 0, |s|)
    ensures r != "" ==> !IsSpace(r[0]) && !IsSpace(r[|r| - 1])
  {
    var a := LeftEdge(s, 0);
    var b := RightEdge(s, a, |s|);
    assert StripsTo(s, a, s[a..b]);
    s[a..b]
  }

  lemma StripIdempotent(s: string)
    ensures Strip(Strip(s)) == Strip(s)
  {
  }

  // ---------------------------------------------------------------------
  // `key in s` on strings

  lemma SliceOfSlice<T>(s: seq<T>, lo: int, hi: int, a: int, b: int)
    requires 0 <= lo <= hi <= |s| && 0 <= a <= b <= hi - lo
    ensures s[lo..hi][a..b] == s[lo + a..lo + b]
  {
    var x, y := s[lo..hi][a..b], s[lo + a..lo + b];
    assert |x| == |y|;
    forall k | 0 <= k < |x|
      ensures x[k] == y[k]
    {
      assert x[k] == s[lo..hi][a + k] == s[lo + a + k];
    }
  }

  /** `key` sits at position `i` of `s`. */
  predicate OccursAt(key: string, s: string, i: int) {
    0 <= i && i + |key| <= |s| && s[i..i + |key|] == key
  }

  /** `key in s` for two strings: `key` is a contiguous substring of `s`. */
  predicate Occurs(key: string, s: string) {
    exists i | 0 <= i <= |s| :: OccursAt(key, s, i)
  }

  // ---------------------------------------------------------------------
  // sep.join(xs)

  /** `sep.join(xs)` */
  function Join(sep: string, xs: seq<string>): string
    decreases |xs|
  {
    if |xs| == 0 then ""
    else if |xs| == 1 then xs[0]
    else xs[0] + sep + Join(sep, xs[1..])
  }

  /** `"".join` of a non-empty list is its head followed by the join of
      the rest. */
  lemma JoinEmptyCons(w: string, rest: seq<string>)
    ensures Join("", [w] + rest) == w + Join("", rest)
  {
    if rest == [] {
      assert [w] + rest == [w];
    } else {
      assert ([w] + rest)[1..] == rest;
    }
  }

  /** Where the `i`-th piece starts in `sep.join(xs)`. */
  function PieceStart(sep: string, xs: seq<string>, i: nat): nat
    requires i <= |xs|
    decreases i
  {
    if i == 0 then 0 else PieceStart(sep, xs, i - 1) + |xs[i - 1]| + |sep|
  }

  lemma PieceStartShift(sep: string, xs: seq<string>, i: nat)
    requires 0 < i <= |xs|
    ensures PieceStart(sep, xs, i) == |xs[0]| + |sep| + PieceStart(sep, xs[1..], i - 1)
    decreases i
  {
    if i > 1 {
      PieceStartShift(sep, xs, i - 1);
    }
  }

  /** The join ends where its last piece ends. */
  lemma {:induction false} JoinLength(sep: string, xs: seq<string>)
    requires |xs| > 0
    ensures |Join(sep, xs)| == PieceStart(sep, xs, |xs| - 1) + |xs[|xs| - 1]|
    decreases |xs|
  {
    if |xs| > 1 {
      JoinLength(sep, xs[1..]);
      PieceStartShift(sep, xs, |xs| - 1);
    }
  }

  lemma {:induction false} JoinPiece(sep: string, xs: seq<string>, i: nat)
    requires i < |xs|
    ensures PieceStart(sep, xs, i) + |xs[i]| <= |Join(sep, xs)|
    ensures Join(sep, xs)[PieceStart(sep, xs, i)..PieceStart(sep, xs, i) + |xs[i]|] == xs[i]
    decreases |xs|
  {
    if i > 0 {
      var tail := xs[1..];
      JoinPiece(sep, tail, i - 1);
      PieceStartShift(sep, xs, i);
      var off := |xs[0]| + |sep|;
      var p := PieceStart(sep, tail, i - 1);
      assert Join(sep, xs) == xs[0] + sep + Join(sep, tail);
      assert Join(sep, xs)[off + p..off + p + |xs[i]|] == Join(sep, tail)[p..p + |xs[i]|];
    }
  }

  lemma {:induction false} JoinSeparator(sep: string, xs: seq<string>, i: nat)
    requires i + 1 < |xs|
    ensures PieceStart(sep, xs, i) + |xs[i]| + |sep| <= |Join(sep, xs)|
    ensures Join(sep, xs)[PieceStart(sep, xs, i) + |xs[i]|..PieceStart(sep, xs, i) + |xs[i]| + |sep|] == sep
    decreases |xs|
  {
    var tail := xs[1..];
    assert Join(sep, xs) == xs[0] + sep + Join(sep, tail);
    if i > 0 {
      JoinSeparator(sep, tail, i - 1);
      PieceStartShift(sep, xs, i);
      var off := |xs[0]| + |sep|;
      var p := PieceStart(sep, tail, i - 1) + |tail[i - 1]|;
      assert Join(sep, xs)[off + p..off + p + |sep|] == Join(sep, tail)[p..p + |sep|];
    }
  }

  // ---------------------------------------------------------------------
  // str(n) for an int

  predicate IsDigit(c: char) {
    '0' <= c <= '9'
  }

  function DigitChar(d: nat): (c: char)
    requires d < 10
    ensures IsDigit(c) && c as int - '0' as int == d
  {
    "0123456789"[d]
  }

  /** The value of a string of decimal digits. */
  function DecimalValue(s: string): nat
    requires forall i :: 0 <= i < |s| ==> IsDigit(s[i])
    decreases |s|
  {
    if s == "" then 0
    else
      var last := s[|s| - 1];
      assert IsDigit(last);
      DecimalValue(s[..|s| - 1]) * 10 + (last as int - '0' as int)
  }

  /** `str(n)` for a non-negative int: the shortest decimal spelling,
      which reads back as `n`. */
  function NatToString(n: nat): (s: string)
    ensures |s| > 0 && forall i :: 0 <= i < |s| ==> IsDigit(s[i])
    ensures |s| > 1 ==> s[0] != '0'
    ensures DecimalValue(s) == n
    decreases n
  {
    if n < 10 then [DigitChar(n)]
    else
      var s := NatToString(n / 10) + [DigitChar(n % 10)];
      assert s[..|s| - 1] == NatToString(n / 10);
      s
  }

  /** `str(n)` for any int: a minus sign in front of negative values. */
  function IntToString(n: int): (s: string)
    ensures n >= 0 ==> s == NatToString(n)
    ensures n < 0 ==> s == "-" + NatToString(-n)
  {
    if n < 0 then "-" + NatToString(-n) else NatToString(n)
  }

  // ---------------------------------------------------------------------
  // range(start, stop, step) for a positive step

  /** ceil(n / d) */
  function CeilDiv(n: nat, d: nat): nat
    requires d > 0
  {
    (n + d - 1) / d
  }

  lemma MulAtLeast(d: nat, m: int)
    requires d > 0 && m >= 1
    ensures d * m >= d
  {
  }

  lemma MulMono(d: nat, x: int, y: int)
    requires d > 0 && x > y
    ensures d * x >= d * y + d
  {
    var m := x - y;
    assert d * x == d * y + d * m;
    MulAtLeast(d, m);
  }

  /** Quotient and remainder are unique. */
  lemma DivModUnique(a: int, d: nat, q: int, r: int)
    requires d > 0 && 0 <= r < d && a == d * q + r
    ensures a / d == q && a % d == r
  {
    var q' := a / d;
    if q' > q {
      MulMono(d, q', q);
    } else if q' < q {
      MulMono(d, q, q');
    }
  }

  lemma CeilDivStep(n: nat, d: nat)
    requires d > 0 && n > d
    ensures CeilDiv(n, d) == 1 + CeilDiv(n - d, d)
  {
    var x := n - 1;
    DivModUnique(x + d, d, x / d + 1, x % d);
  }

  lemma CeilDivOne(n: nat, d: nat)
    requires 0 < n <= d
    ensures CeilDiv(n, d) == 1
  {
  }

  lemma CeilDivPeel(n: nat, d: nat)
    requires d > 0 && n > 0
    ensures CeilDiv(n, d) == 1 + (if n > d then CeilDiv(n - d, d) else 0)
  {
    if n > d {
      CeilDivStep(n, d);
    } else {
      CeilDivOne(n, d);
    }
  }

  lemma ModStep(x: int, d: nat)
    requires d > 0
    ensures (x + d) % d == x % d
  {
    DivModUnique(x + d, d, x / d + 1, x % d);
  }

  /** Two values with the same remainder are at least `d` apart. */
  lemma SameRemainderGap(x: int, y: int, d: nat)
    requires d > 0 && x < y && x % d == y % d
    ensures y >= x + d
  {
    if y < x + d {
      var q, r, t := x / d, x % d, y - x;
      assert x == d * q + r;
      if r + t < d {
        DivModUnique(y, d, q, r + t);
      } else {
        assert y == d * (q + 1) + (r + t - d);
        DivModUnique(y, d, q + 1, r + t - d);
      }
    }
  }

  /** `list(range(start, stop, step))` for `step > 0`. */
  function Range(start: nat, stop: nat, step: nat): (r: seq<nat>)
    requires step > 0
    ensures start >= stop ==> r == []
    ensures start < stop ==> |r| == CeilDiv(stop - start, step) && r[0] == start
    ensures forall j :: 0 <= j < |r| ==> start <= r[j] < stop && r[j] % step == start % step
    ensures forall j :: 0 < j < |r| ==> r[j] == r[j - 1] + step
    ensures forall j1, j2 :: 0 <= j1 < j2 < |r| ==> r[j1] < r[j2]
    decreases stop - start
  {
    if start >= stop then []
    else
      var rest := Range(start + step, stop, step);
      ModStep(start, step);
      CeilDivPeel(stop - start, step);
      [start] + rest
  }

  /** Every value in `[start, stop)` congruent to `start` is visited. */
  lemma {:induction false} RangeComplete(start: nat, stop: nat, step: nat, x: nat)
    requires step > 0 && start <= x < stop && x % step == start % step
    ensures x in Range(start, stop, step)
    decreases x - start
  {
    if x > start {
      SameRemainderGap(start, x, step);
      ModStep(start, step);
      RangeComplete(start + step, stop, step, x);
    }
  }

  // ---------------------------------------------------------------------
  // zip(a, b)

  /** `list(zip(a, b))`: pairs up equal positions and stops at the
      shorter input. */
  function Zip<A, B>(a: seq<A>, b: seq<B>): (r: seq<(A, B)>)
    ensures |r| == Min(|a|, |b|)
    ensures forall i :: 0 <= i < |r| ==> r[i] == (a[i], b[i])
    decreases |a|
  {
    if a == [] || b == [] then []
    else [(a[0], b[0])] + Zip(a[1..], b[1..])
  }

  // ---------------------------------------------------------------------
  // The positions a filtering comprehension keeps

  /** The positions `i >= k` of `s` with `keep(s[i])`, ascending: what
      `[x for x in s[k:] if keep(x)]` picks, as indices into `s`. */
  function KeptFrom<T>(s: seq<T>, keep: T -> bool, k: nat): (ks: seq<nat>)
    requires k <= |s|
    ensures forall j :: 0 <= j < |ks| ==> k <= ks[j] < |s| && keep(s[ks[j]])
    ensures forall j1, j2 :: 0 <= j1 < j2 < |ks| ==> ks[j1] < ks[j2]
    ensures |ks| <= |s| - k
    decreases |s| - k
  {
    if k == |s| then []
    else (if keep(s[k]) then [k] else []) + KeptFrom(s, keep, k + 1)
  }

  /** Every position `i >= k` whose element is kept is listed. */
  lemma {:induction false} KeptComplete<T>(s: seq<T>, keep: T -> bool, k: nat, i: nat)
    requires k <= i < |s| && keep(s[i])
    ensures i in KeptFrom(s, keep, k)
    decreases i - k
  {
    if k < i {
      KeptComplete(s, keep, k + 1, i);
    }
  }

  /** Nothing is dropped exactly when every element is kept. */
  lemma {:induction false} KeptAll<T>(s: seq<T>, keep: T -> bool, k: nat)
    requires k <= |s|
    ensures |KeptFrom(s, keep, k)| == |s| - k <==> forall i :: k <= i < |s| ==> keep(s[i])
    decreases |s| - k
  {
    if k < |s| {
      KeptAll(s, keep, k + 1);
      var rest := KeptFrom(s, keep, k + 1);
      if keep(s[k]) {
        assert KeptFrom(s, keep, k) == [k] + rest;
        if forall i :: k + 1 <= i < |s| ==> keep(s[i]) {
          forall i | k <= i < |s|
            ensures keep(s[i])
          {
          }
        }
      } else {
        assert KeptFrom(s, keep, k) == rest;
        assert |rest| <= |s| - (k + 1);
      }
    }
  }
}
