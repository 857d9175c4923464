/**
 * The JavaScript string built-ins that the pipeline relies on, stated over
 * `seq<char>`: whitespace as `trim`/`trimEnd` and the regular-expression
 * class `\s` see it, `indexOf`, `includes`, ASCII case folding, decimal
 * digits and the decimal rendering of a non-negative integer.
 */
module Text {
  import opened Wrappers

  /** The WhiteSpace and LineTerminator characters of ECMAScript (the set used by `trim` and by `\s`). */
  predicate IsWs(c: char) {
    || c == ' ' || c == '\t' || c == '\n' || c == '\r'
    || c == '\U{000B}' || c == '\U{000C}' || c == '\U{00A0}' || c == '\U{1680}'
    || ('\U{2000}' <= c <= '\U{200A}')
    || c == '\U{2028}' || c == '\U{2029}' || c == '\U{202F}' || c == '\U{205F}'
    || c == '\U{3000}' || c == '\U{FEFF}'
  }

  predicate IsDigit(c: char) {
    '0' <= c <= '9'
  }

  /** The character classes the scanners run over: `\s`, `\d` and `[\d.]`. */
  datatype CharClass = Space | Digit | DigitOrDot

  predicate InClass(cls: CharClass, c: char) {
    match cls
    case Space => IsWs(c)
    case Digit => IsDigit(c)
    case DigitOrDot => IsDigit(c) || c == '.'
  }

  /** The end of the longest run of characters of class `cls` that starts at index `k`. */
  function SpanEnd(s: string, k: nat, cls: CharClass): (r: nat)
    requires k <= |s|
    decreases |s| - k
    ensures k <= r <= |s|
  {
    if k < |s| && InClass(cls, s[k]) then SpanEnd(s, k + 1, cls) else k
  }

  /** Every character of the run is in the class, and the one after it is not. */
  lemma {:induction false} SpanEndSpec(s: string, k: nat, cls: CharClass)
    requires k <= |s|
    decreases |s| - k
    ensures forall j :: k <= j < SpanEnd(s, k, cls) ==> InClass(cls, s[j])
    ensures SpanEnd(s, k, cls) < |s| ==> !InClass(cls, s[SpanEnd(s, k, cls)])
  {
    if k < |s| && InClass(cls, s[k]) {
      SpanEndSpec(s, k + 1, cls);
    }
  }

  /** `SpanEnd` is determined by where the first character outside the class stands. */
  lemma {:induction false} SpanEndIs(s: string, k: nat, cls: CharClass, r: nat)
    requires k <= r <= |s|
    requires forall j :: k <= j < r ==> InClass(cls, s[j])
    requires r < |s| ==> !InClass(cls, s[r])
    decreases r - k
    ensures SpanEnd(s, k, cls) == r
  {
    if k < r {
      SpanEndIs(s, k + 1, cls, r);
    }
  }

  /** The length of `s[..n]` once its trailing whitespace is dropped. */
  function TrimEndLength(s: string, n: nat): (r: nat)
    requires n <= |s|
    ensures r <= n
  {
    if n > 0 && IsWs(s[n - 1]) then TrimEndLength(s, n - 1) else n
  }

  /** What `TrimEndLength` drops is whitespace, and what it keeps ends in a non-space. */
  lemma {:induction false} TrimEndLengthSpec(s: string, n: nat)
    requires n <= |s|
    ensures forall k :: TrimEndLength(s, n) <= k < n ==> IsWs(s[k])
    ensures TrimEndLength(s, n) > 0 ==> !IsWs(s[TrimEndLength(s, n) - 1])
  {
    if n > 0 && IsWs(s[n - 1]) {
      TrimEndLengthSpec(s, n - 1);
    }
  }

  /** `TrimEndLength` is determined by where the last non-space stands. */
  lemma {:induction false} TrimEndLengthIs(s: string, n: nat, r: nat)
    requires r <= n <= |s|
    requires r > 0 ==> !IsWs(s[r - 1])
    requires forall k :: r <= k < n ==> IsWs(s[k])
    decreases n
    ensures TrimEndLength(s, n) == r
  {
    if r < n {
      TrimEndLengthIs(s, n - 1, r);
    }
  }

  /** `s.trimEnd()`: the longest prefix of `s` that does not end in whitespace. */
  function TrimEnd(s: string): (r: string)
    ensures |r| <= |s| && r == s[..|r|]
    ensures r != [] ==> !IsWs(r[|r| - 1])
    ensures forall k :: |r| <= k < |s| ==> IsWs(s[k])
  {
    var n := TrimEndLength(s, |s|);
    TrimEndLengthSpec(s, |s|);
    s[..n]
  }

  /** `s.trimStart()`: the longest suffix of `s` that does not start with whitespace. */
  function TrimStart(s: string): (r: string)
    ensures |r| <= |s| && r == s[|s| - |r|..]
    ensures r != [] ==> !IsWs(r[0])
    ensures forall k :: 0 <= k < |s| - |r| ==> IsWs(s[k])
  {
    var n := SpanEnd(s, 0, Space);
    SpanEndSpec(s, 0, Space);
    s[n..]
  }

  /** `s.trim()`. */
  function Trim(s: string): string {
    TrimStart(TrimEnd(s))
  }

  /** The prefix `s[..n]` is the result of `trimEnd` exactly when it ends in a non-space and only spaces follow. */
  lemma TrimEndIs(s: string, n: nat)
    requires n <= |s|
    requires n > 0 ==> !IsWs(s[n - 1])
    requires forall k :: n <= k < |s| ==> IsWs(s[k])
    ensures TrimEnd(s) == s[..n]
  {
    TrimEndLengthIs(s, |s|, n);
  }

  /** The suffix `s[n..]` is the result of `trimStart` exactly when it starts with a non-space and only spaces precede. */
  lemma TrimStartIs(s: string, n: nat)
    requires n <= |s|
    requires n < |s| ==> !IsWs(s[n])
    requires forall k :: 0 <= k < n ==> IsWs(s[k])
    ensures TrimStart(s) == s[n..]
  {
    SpanEndIs(s, 0, Space, n);
  }

  predicate AllWs(w: string) {
    forall k :: 0 <= k < |w| ==> IsWs(w[k])
  }

  /** Appending whitespace does not change what `trimEnd` keeps. */
  lemma TrimEndAppendWs(a: string, w: string)
    requires AllWs(w)
    ensures TrimEnd(a + w) == TrimEnd(a)
  {
    var r := TrimEnd(a);
    assert (a + w)[..|r|] == r;
    TrimEndIs(a + w, |r|);
  }

  /** A prefix that ends in a non-space is never trimmed away. */
  lemma TrimEndAfterSolid(a: string, b: string)
    requires a != [] && !IsWs(a[|a| - 1])
    ensures TrimEnd(a + b) == a + TrimEnd(b)
  {
    var r := TrimEnd(b);
    var n := |a| + |r|;
    assert (a + b)[..n] == a + r;
    forall k | n <= k < |a + b| ensures IsWs((a + b)[k]) {
      assert (a + b)[k] == b[k - |a|];
    }
    TrimEndIs(a + b, n);
  }

  /** `trimEnd` is idempotent. */
  lemma TrimEndTwice(s: string)
    ensures TrimEnd(TrimEnd(s)) == TrimEnd(s)
  {
    var r := TrimEnd(s);
    TrimEndIs(r, |r|);
  }

  /** `haystack` holds `pat` starting at index `k`. */
  predicate OccursAt(haystack: string, pat: string, k: int) {
    0 <= k && k + |pat| <= |haystack| && forall j :: 0 <= j < |pat| ==> haystack[k + j] == pat[j]
  }

  /** `s.indexOf(pat, from)`, with `-1` as `None`: the first occurrence at or after `from`. */
  function IndexOf(s: string, pat: string, from: nat): (r: Option<nat>)
    decreases |s| - from
    ensures r.Some? ==> from <= r.value && OccursAt(s, pat, r.value)
    ensures r.Some? ==> forall k :: from <= k < r.value ==> !OccursAt(s, pat, k)
    ensures r.None? ==> forall k :: from <= k ==> !OccursAt(s, pat, k)
  {
    if from + |pat| > |s| then None
    else if OccursAt(s, pat, from) then Some(from)
    else IndexOf(s, pat, from + 1)
  }

  /** `s.includes(pat)`. */
  predicate Contains(s: string, pat: string) {
    IndexOf(s, pat, 0).Some?
  }

  /** Any occurrence of `pat` makes `Contains` true. */
  lemma ContainsAt(s: string, pat: string, k: nat)
    requires OccursAt(s, pat, k)
    ensures Contains(s, pat)
  {
  }

  /** A text that holds `pat` still holds it inside a longer text. */
  lemma ContainsInfix(a: string, b: string, c: string, pat: string)
    requires Contains(b, pat)
    ensures Contains(a + b + c, pat)
  {
    var k := IndexOf(b, pat, 0).value;
    var t := a + b + c;
    forall j | 0 <= j < |pat| ensures t[|a| + k + j] == pat[j] {
      assert t[|a| + k + j] == b[k + j];
    }
    ContainsAt(t, pat, |a| + k);
  }

  /** What a suffix of `s` holds, `s` holds. */
  lemma ContainsInSuffix(s: string, k: nat, pat: string)
    requires k <= |s| && Contains(s[k..], pat)
    ensures Contains(s, pat)
  {
    ContainsInfix(s[..k], s[k..], [], pat);
    assert s[..k] + s[k..] + [] == s;
  }

  /** What the trimmed text of `s` holds, `s` holds. */
  lemma ContainsInTrimmed(s: string, pat: string)
    requires Contains(Trim(s), pat)
    ensures Contains(s, pat)
  {
    var n, z := |TrimEnd(s)|, Trim(s);
    assert z == s[n - |z|..n];
    ContainsInfix(s[..n - |z|], z, s[n..], pat);
    assert s[..n - |z|] + z + s[n..] == s;
  }

  /** An occurrence with none before it is what `indexOf` finds. */
  lemma IndexOfIs(s: string, pat: string, m: nat)
    requires OccursAt(s, pat, m)
    requires forall k :: 0 <= k < m ==> !OccursAt(s, pat, k)
    ensures IndexOf(s, pat, 0) == Some(m)
  {
  }

  /** Two texts with a common prefix agree on every occurrence that lies inside it. */
  lemma OccursInSharedPrefix(s: string, t: string, pat: string, p: nat, k: nat)
    requires p <= |s| && p <= |t| && s[..p] == t[..p]
    requires k + |pat| <= p
    ensures OccursAt(s, pat, k) <==> OccursAt(t, pat, k)
  {
    forall j | 0 <= j < |pat| ensures s[k + j] == pat[j] <==> t[k + j] == pat[j] {
      assert s[..p][k + j] == t[..p][k + j];
    }
  }

  /** The first occurrence inside a common prefix is the first occurrence in both texts. */
  lemma IndexOfSharedPrefix(s: string, t: string, pat: string, p: nat)
    requires p <= |s| && p <= |t| && s[..p] == t[..p]
    requires IndexOf(s, pat, 0).Some? && IndexOf(s, pat, 0).value + |pat| <= p
    ensures IndexOf(t, pat, 0) == IndexOf(s, pat, 0)
  {
    var m := IndexOf(s, pat, 0).value;
    OccursInSharedPrefix(s, t, pat, p, m);
    forall k | 0 <= k < m ensures !OccursAt(t, pat, k) {
      OccursInSharedPrefix(s, t, pat, p, k);
    }
    IndexOfIs(t, pat, m);
  }

  /** Leading whitespace is all `trimStart` removes when a non-space follows it. */
  lemma TrimStartAppendSolid(u: string, v: string)
    requires v != [] && !IsWs(v[0])
    ensures TrimStart(u + v) == TrimStart(u) + v
  {
    var n := |u| - |TrimStart(u)|;
    assert (u + v)[n..] == TrimStart(u) + v;
    forall k | 0 <= k < n ensures IsWs((u + v)[k]) {
    }
    TrimStartIs(u + v, n);
  }

  /** Trailing whitespace does not change what `trim` keeps. */
  lemma TrimAppendWs(a: string, w: string)
    requires AllWs(w)
    ensures Trim(a + w) == Trim(a)
  {
    TrimEndAppendWs(a, w);
  }

  /** Trailing whitespace after a non-space is all `trim` removes at the end. */
  lemma TrimSolidThenWs(y: string, w: string)
    requires y != [] && !IsWs(y[|y| - 1]) && AllWs(w)
    ensures Trim(y + w) == TrimStart(y)
  {
    TrimEndIs(y, |y|);
    TrimEndAppendWs(y, w);
  }

  /** `s.trimEnd()` is some leading whitespace followed by `s.trim()`. */
  lemma TrimEndIsLeadThenTrim(s: string)
    ensures var x := TrimEnd(s); x[..|x| - |Trim(s)|] + Trim(s) == x
  {
    var x := TrimEnd(s);
    var z := TrimStart(x);
    assert x[|x| - |z|..] == z;
  }

  /**
   * Whatever text precedes it, the trimmed text of `s` survives at the end
   * of `trim(a + s.trimEnd() + w)` for trailing whitespace `w`.
   */
  lemma TrimKeepsTrimmedTail(a: string, s: string, w: string)
    requires AllWs(w) && Trim(s) != []
    ensures Trim(a + TrimEnd(s) + w) == TrimStart(a + TrimEnd(s)[..|TrimEnd(s)| - |Trim(s)|]) + Trim(s)
  {
    var x := TrimEnd(s);
    var z := Trim(s);
    var l := |x| - |z|;
    TrimEndIsLeadThenTrim(s);
    assert x != [] && !IsWs(x[|x| - 1]) && !IsWs(z[0]);
    var y := a + x;
    assert y[|y| - 1] == x[|x| - 1];
    TrimSolidThenWs(y, w);
    assert y == (a + x[..l]) + z;
    TrimStartAppendSolid(a + x[..l], z);
  }

  /** ASCII upper-casing: the case folding of a JavaScript regular expression without the `u` flag, for ASCII patterns. */
  function Upper(c: char): char {
    if 'a' <= c <= 'z' then (c as int - 32) as char else c
  }

  /** ASCII lower-casing. */
  function Lower(c: char): char {
    if 'A' <= c <= 'Z' then (c as int + 32) as char else c
  }

  function ToLower(s: string): (r: string)
    ensures |r| == |s| && forall k :: 0 <= k < |s| ==> r[k] == Lower(s[k])
  {
    seq(|s|, k requires 0 <= k < |s| => Lower(s[k]))
  }

  /** `lit` occurs at index `k` of `s` under case-insensitive comparison. */
  predicate StartsWithCI(s: string, k: nat, lit: string) {
    k + |lit| <= |s| && forall j :: 0 <= j < |lit| ==> Upper(s[k + j]) == Upper(lit[j])
  }

  function DigitValue(c: char): nat
    requires IsDigit(c)
  {
    c as int - '0' as int
  }

  function DigitChar(d: nat): (c: char)
    requires d < 10
    ensures IsDigit(c) && DigitValue(c) == d
  {
    ('0' as int + d) as char
  }

  predicate AllDigits(s: string) {
    forall k :: 0 <= k < |s| ==> IsDigit(s[k])
  }

  /** `parseInt(s, 10)` of a string of decimal digits. */
  function ParseNat(s: string): nat
    requires AllDigits(s)
  {
    if s == [] then 0 else 10 * ParseNat(s[..|s| - 1]) + DigitValue(s[|s| - 1])
  }

  /** `parseInt` of the digits `s[k..e]`, read in place. */
  function DigitsValue(s: string, k: nat, e: nat): nat
    requires k <= e <= |s|
    requires forall j :: k <= j < e ==> IsDigit(s[j])
    decreases e
  {
    if e == k then 0 else 10 * DigitsValue(s, k, e - 1) + DigitValue(s[e - 1])
  }

  /** Reading digits in place agrees with reading the digit string they spell. */
  lemma {:induction false} DigitsValueOf(s: string, k: nat, w: string)
    requires AllDigits(w) && OccursAt(s, w, k)
    ensures forall j :: k <= j < k + |w| ==> IsDigit(s[j])
    ensures DigitsValue(s, k, k + |w|) == ParseNat(w)
  {
    forall j | k <= j < k + |w| ensures s[j] == w[j - k] {
      assert s[k + (j - k)] == w[j - k];
    }
    if w != [] {
      var v := w[..|w| - 1];
      assert forall i :: 0 <= i < |v| ==> v[i] == w[i];
      DigitsValueOf(s, k, v);
    }
  }

  /** The decimal rendering `${n}` of a non-negative integer. */
  function Show(n: nat): (r: string)
    ensures r != [] && AllDigits(r)
  {
    if n < 10 then [DigitChar(n)] else Show(n / 10) + [DigitChar(n % 10)]
  }

  /** Reading back the rendering of `n` gives `n`. */
  lemma {:induction false} ParseShow(n: nat)
    ensures ParseNat(Show(n)) == n
  {
    if n >= 10 {
      var s := Show(n);
      assert s[..|s| - 1] == Show(n / 10);
      ParseShow(n / 10);
    }
  }

  /** The leftmost index at or after `from` where `at` matches, with what it yields there. */
  function FirstMatch<T>(s: string, at: (string, nat) -> Option<T>, from: nat): (r: Option<(nat, T)>)
    decreases |s| + 1 - from
    ensures r.Some? ==> from <= r.value.0 <= |s| && at(s, r.value.0) == Some(r.value.1)
    ensures r.Some? ==> forall j: nat :: from <= j < r.value.0 ==> at(s, j).None?
    ensures r.None? ==> forall j: nat :: from <= j <= |s| ==> at(s, j).None?
  {
    if from > |s| then None
    else match at(s, from)
      case Some(v) => Some((from, v))
      case None => FirstMatch(s, at, from + 1)
  }

  /** A match at `p` with none before it is the leftmost match. */
  lemma FirstMatchAt<T>(s: string, at: (string, nat) -> Option<T>, p: nat, v: T)
    requires p <= |s| && at(s, p) == Some(v)
    requires forall j: nat :: j < p ==> at(s, j).None?
    ensures FirstMatch(s, at, 0) == Some((p, v))
  {
  }

  /** What a successful match yields, or `default` (the `|| 0` and `: 0` fallbacks after a failed match). */
  function ValueOr<T>(m: Option<(nat, T)>, default: T): T {
    match m
    case Some((_, v)) => v
    case None => default
  }
}
