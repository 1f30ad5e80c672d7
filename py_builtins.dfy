/** The few Python built-ins the document handler and the chat bot rely on,
    written out with the semantics CPython gives them: `min`, slicing, `[x] * n`,
    `str.isspace`, `str.strip`, `sep.join`, `os.path.basename`, `len(range(...))`
    and decimal formatting of an `int`. Python's `str` is a sequence of code
    points, so `string` (a `seq<char>` of Unicode scalar values) models it. */
module PyBuiltins {

  datatype Option<T> = None | Some(value: T)

  /** The only exception the modelled code can raise on its own. */
  datatype PyError = IndexError

  /** A Python computation that either returns a value or raises. */
  datatype Result<T> = Ok(value: T) | Raised(error: PyError)

  function Min(a: int, b: int): int
  {
    if a <= b then a else b
  }

  /** `len(range(0, n, d))`: the number of multiples of `d` below `n`, that is ceil(n / d). */
  function CeilDiv(n: nat, d: nat): nat
    requires d > 0
  {
    (n + d - 1) / d
  }

  /** The two facts that pin CeilDiv down: d * (c - 1) < n <= d * c for c = CeilDiv(n, d), n > 0. */
  lemma CeilDivBounds(n: nat, d: nat)
    requires d > 0
    ensures n == 0 ==> CeilDiv(n, d) == 0
    ensures n > 0 ==> CeilDiv(n, d) >= 1 && (CeilDiv(n, d) - 1) * d < n <= CeilDiv(n, d) * d
  {
    var c := CeilDiv(n, d);
    var r := (n + d - 1) % d;
    assert n + d - 1 == c * d + r;
    assert 0 <= r < d;
    if n > 0 {
      assert c * d >= n;
      assert (c - 1) * d == c * d - d;
    }
  }

  lemma MulNonneg(a: int, b: int)
    requires a >= 0 && b >= 0
    ensures a * b >= 0
  {
  }

  lemma MulAtLeast(k: int, d: int)
    requires k >= 1 && d > 0
    ensures k * d >= d
  {
    assert k * d == (k - 1) * d + d;
    assert (k - 1) * d >= 0;
  }

  /** Euclidean division has one quotient and one remainder. */
  lemma DivUnique(a: int, d: int, q: int, r: int)
    requires d > 0 && 0 <= r < d && a == q * d + r
    ensures a / d == q
  {
    var q', r' := a / d, a % d;
    assert a == q' * d + r';
    assert (q' - q) * d == r - r';
    if q' > q {
      MulAtLeast(q' - q, d);
    } else if q > q' {
      MulAtLeast(q - q', d);
    }
  }

  /** The converse of CeilDivBounds: those bounds determine CeilDiv. */
  lemma CeilDivUnique(n: nat, d: nat, c: nat)
    requires d > 0 && (c - 1) * d < n <= c * d
    ensures CeilDiv(n, d) == c
  {
    assert (c - 1) * d == c * d - d;
    DivUnique(n + d - 1, d, c, n + d - 1 - c * d);
  }

  /** Taking one step off a length of more than one step takes one off the count. */
  lemma CeilDivStep(m: nat, d: nat)
    requires d > 0 && m > d
    ensures CeilDiv(m, d) == CeilDiv(m - d, d) + 1
  {
    var c := CeilDiv(m - d, d);
    CeilDivBounds(m - d, d);
    assert (c + 1 - 1) * d == c * d;
    assert (c - 1) * d == c * d - d;
    assert (c + 1) * d == c * d + d;
    CeilDivUnique(m, d, c + 1);
  }

  /** Python's `s[lo:hi]` for non-negative bounds: both ends are clipped to `len(s)`
      and an empty range gives the empty string. */
  function PySlice<T>(s: seq<T>, lo: nat, hi: nat): seq<T>
  {
    var a := Min(lo, |s|);
    var b := Min(hi, |s|);
    if b <= a then [] else s[a..b]
  }

  /** Python's `xs[i]`: a negative index counts from the end; out of range raises IndexError. */
  function PyIndex<T>(xs: seq<T>, i: int): Result<T>
  {
    if 0 <= i < |xs| then Ok(xs[i])
    else if -|xs| <= i < 0 then Ok(xs[|xs| + i])
    else Raised(IndexError)
  }

  /** `[x] * n` */
  function Repeat<T>(x: T, n: nat): seq<T>
  {
    seq(n, _ => x)
  }

  /** `str.isspace()` for one character: the code points CPython classifies as whitespace
      (bidirectional class WS, B or S, or general category Zs). */
  predicate IsSpace(c: char)
  {
    ('\U{0009}' <= c <= '\U{000D}') || ('\U{001C}' <= c <= '\U{0020}') ||
    c == '\U{0085}' || c == '\U{00A0}' || c == '\U{1680}' ||
    ('\U{2000}' <= c <= '\U{200A}') || c == '\U{2028}' || c == '\U{2029}' ||
    c == '\U{202F}' || c == '\U{205F}' || c == '\U{3000}'
  }

  predicate AllSpace(s: string)
  {
    forall i :: 0 <= i < |s| ==> IsSpace(s[i])
  }

  /** Neither end of `s` is whitespace. */
  predicate IsStripped(s: string)
  {
    s != [] ==> !IsSpace(s[0]) && !IsSpace(s[|s| - 1])
  }

  /** The first position at or after `k` that is not whitespace (or `|s|`): where
      `s.lstrip()` begins once the scan has reached `k`. */
  function LeadingEnd(s: string, k: nat): (n: nat)
    requires k <= |s|
    ensures k <= n <= |s|
    ensures forall m :: k <= m < n ==> IsSpace(s[m])
    ensures n < |s| ==> !IsSpace(s[n])
    decreases |s| - k
  {
    if k < |s| && IsSpace(s[k]) then LeadingEnd(s, k + 1) else k
  }

  /** The position after the last non-whitespace character of `s[lo..k]` (or `lo`):
      where `rstrip` ends once its scan from the back has reached `k`. */
  function TrailingStart(s: string, lo: nat, k: nat): (n: nat)
    requires lo <= k <= |s|
    ensures lo <= n <= k
    ensures forall m :: n <= m < k ==> IsSpace(s[m])
    ensures n > lo ==> !IsSpace(s[n - 1])
    decreases k
  {
    if k > lo && IsSpace(s[k - 1]) then TrailingStart(s, lo, k - 1) else k
  }

  /** `s` is `r` with whitespace-only text in front of and behind it. */
  ghost predicate IsStripOf(r: string, s: string)
  {
    exists i, j :: 0 <= i <= j <= |s| && s[i..j] == r && AllSpace(s[..i]) && AllSpace(s[j..])
  }

  /** `s.strip()`: drop the leading whitespace, then the trailing whitespace of the rest. */
  function Strip(s: string): (r: string)
    ensures IsStripped(r)
    ensures IsStripOf(r, s)
  {
    var i := LeadingEnd(s, 0);
    var j := TrailingStart(s, i, |s|);
    assert AllSpace(s[..i]) && AllSpace(s[j..]);
    s[i..j]
  }

  lemma SpaceBefore(s: string, a: nat, k: nat)
    requires a <= |s| && AllSpace(s[..a]) && k < a
    ensures IsSpace(s[k])
  {
    assert s[..a][k] == s[k];
  }

  lemma SpaceAfter(s: string, b: nat, k: nat)
    requires b <= k < |s| && AllSpace(s[b..])
    ensures IsSpace(s[k])
  {
    assert s[b..][k - b] == s[k];
  }

  /** Two stripped cores of the same text that both start at a non-space character
      start at the same place and end at the same place. */
  lemma SameCore(s: string, i: nat, j: nat, i': nat, j': nat)
    requires i < j <= |s| && i' < j' <= |s|
    requires AllSpace(s[..i]) && AllSpace(s[j..]) && AllSpace(s[..i']) && AllSpace(s[j'..])
    requires !IsSpace(s[i]) && !IsSpace(s[j - 1]) && !IsSpace(s[i']) && !IsSpace(s[j' - 1])
    ensures i == i' && j == j'
  {
    if i < i' { SpaceBefore(s, i', i); }
    if i' < i { SpaceBefore(s, i, i'); }
  }

  /** Text that is whitespace on both sides of an empty core is all whitespace. */
  lemma EmptyCore(s: string, i: nat, j: nat, k: nat)
    requires i == j <= |s| && AllSpace(s[..i]) && AllSpace(s[j..]) && k < |s|
    ensures IsSpace(s[k])
  {
    if k < i { SpaceBefore(s, i, k); } else { SpaceAfter(s, j, k); }
  }

  /** Two stripped cores of `s`, each with only whitespace around it, are the same text. */
  lemma CoresAgree(s: string, i: nat, j: nat, i': nat, j': nat)
    requires i <= j <= |s| && i' <= j' <= |s|
    requires AllSpace(s[..i]) && AllSpace(s[j..]) && AllSpace(s[..i']) && AllSpace(s[j'..])
    requires IsStripped(s[i..j]) && IsStripped(s[i'..j'])
    ensures s[i..j] == s[i'..j']
  {
    if i < j && i' < j' {
      assert s[i..j][0] == s[i] && s[i..j][j - i - 1] == s[j - 1];
      assert s[i'..j'][0] == s[i'] && s[i'..j'][j' - i' - 1] == s[j' - 1];
      SameCore(s, i, j, i', j');
    } else if i < j {
      assert s[i..j][0] == s[i];
      EmptyCore(s, i', j', i);
    } else if i' < j' {
      assert s[i'..j'][0] == s[i'];
      EmptyCore(s, i, j, i');
    }
  }

  /** str.strip() is the only stripped core of `s`: any stripped `r` that `s` surrounds
      with whitespace alone is `Strip(s)`. */
  lemma StripUnique(r: string, s: string)
    requires IsStripped(r) && IsStripOf(r, s)
    ensures r == Strip(s)
  {
    var i', j' := StripBounds(s);
    var i, j :| 0 <= i <= j <= |s| && s[i..j] == r && AllSpace(s[..i]) && AllSpace(s[j..]);
    CoresAgree(s, i, j, i', j');
  }

  /** Where `Strip(s)` sits in `s`. */
  lemma StripBounds(s: string) returns (i: nat, j: nat)
    ensures i <= j <= |s| && s[i..j] == Strip(s)
    ensures AllSpace(s[..i]) && AllSpace(s[j..]) && IsStripped(s[i..j])
  {
    i := LeadingEnd(s, 0);
    j := TrailingStart(s, i, |s|);
    assert AllSpace(s[..i]) && AllSpace(s[j..]);
  }

  /** Stripping twice is stripping once. */
  lemma StripIdempotent(s: string)
    ensures Strip(Strip(s)) == Strip(s)
  {
    var r := Strip(s);
    assert IsStripOf(r, r) by {
      assert r[0..|r|] == r && r[..0] == [] && r[|r|..] == [];
    }
    StripUnique(r, r);
  }

  /** `"".join(xs)` */
  function Concat(xs: seq<string>): string
  {
    if xs == [] then [] else xs[0] + Concat(xs[1..])
  }

  lemma {:induction false} ConcatAppend(xs: seq<string>, ys: seq<string>)
    ensures Concat(xs + ys) == Concat(xs) + Concat(ys)
  {
    if xs != [] {
      assert (xs + ys)[1..] == xs[1..] + ys;
      ConcatAppend(xs[1..], ys);
    } else {
      assert xs + ys == ys;
    }
  }

  /** `sep.join(xs)` */
  function JoinWith(sep: string, xs: seq<string>): string
  {
    if xs == [] then []
    else if |xs| == 1 then xs[0]
    else xs[0] + sep + JoinWith(sep, xs[1..])
  }

  /** The position just after the last '/' before position `k` of `p` (0 if none). */
  function ComponentStart(p: string, k: nat): (n: nat)
    requires k <= |p|
    ensures n <= k
    ensures forall m :: n <= m < k ==> p[m] != '/'
    ensures n > 0 ==> p[n - 1] == '/'
    decreases k
  {
    if k > 0 && p[k - 1] != '/' then ComponentStart(p, k - 1) else k
  }

  /** `os.path.basename(p)` on POSIX: everything after the last '/'. */
  function Basename(p: string): string
  {
    p[ComponentStart(p, |p|)..]
  }

  /** The base name is the longest suffix of the path without a '/': it has none, and
      the character in front of it, if any, is one. */
  lemma BasenameIsLastComponent(p: string)
    ensures '/' !in Basename(p)
    ensures |Basename(p)| <= |p| && Basename(p) == p[|p| - |Basename(p)|..]
    ensures |Basename(p)| < |p| ==> p[|p| - |Basename(p)| - 1] == '/'
  {
    var n := ComponentStart(p, |p|);
    var b := Basename(p);
    assert |p| - |b| == n;
    forall m | 0 <= m < |b| ensures b[m] != '/' {
      assert b[m] == p[n + m];
    }
  }

  function DigitChar(d: nat): char
    requires d < 10
  {
    "0123456789"[d]
  }

  function NatToDecimal(n: nat): string
    decreases n
  {
    if n < 10 then [DigitChar(n)] else NatToDecimal(n / 10) + [DigitChar(n % 10)]
  }

  /** `f"{n}"` for an `int`. */
  function IntToDecimal(n: int): string
  {
    if n < 0 then "-" + NatToDecimal(-n) else NatToDecimal(n)
  }
}
