/**
 * The plate descriptor `Metadata/slice_info.config` (lib/gcode-parser.ts,
 * `parseSliceInfo` and `updateSliceInfo`): reading the filament usage from
 * the first `used_g="…"` and `used_m="…"` attributes, and rewriting those
 * two values to a total printed with two decimals. The attributes are
 * matched case-sensitively.
 */
module SliceInfo {
  import opened Wrappers
  import opened Text
  import opened Numbers

  /** Grams of filament. */
  const UsedG: string := "used_g"
  /** Metres of filament. */
  const UsedM: string := "used_m"

  /** Filament usage as the descriptor states it; an absent attribute reads as 0. */
  datatype Usage = Usage(usedG: real, usedM: real)

  /** The literal `name="` that opens an attribute. */
  function Opening(name: string): string {
    name + "=\""
  }

  /** The opening starts with `u` and holds no other `u`: two occurrences of it never overlap. */
  predicate StartsWithLoneU(name: string) {
    var p := Opening(name);
    p[0] == 'u' && forall k :: 1 <= k < |p| ==> p[k] != 'u'
  }

  /** No character of `v` is `u`. */
  predicate NoU(v: string) {
    forall k :: 0 <= k < |v| ==> v[k] != 'u'
  }

  /**
   * `name="([\d.]+)"` tried at `i`: where the captured value starts and where
   * it ends (the index of the closing quote).
   */
  function AttrAt(s: string, name: string, i: nat): (r: Option<(nat, nat)>)
    ensures r.Some? ==> OccursAt(s, Opening(name), i)
    ensures r.Some? ==> r.value.0 == i + |Opening(name)| < r.value.1 < |s| && s[r.value.1] == '"'
  {
    if OccursAt(s, Opening(name), i) then
      var c := i + |Opening(name)|;
      var e := SpanEnd(s, c, DigitOrDot);
      if c < e < |s| && s[e] == '"' then Some((c, e)) else None
    else None
  }

  function AttrMatcher(name: string): (string, nat) -> Option<(nat, nat)> {
    (t: string, j: nat) => AttrAt(t, name, j)
  }

  /** `s.match(/name="([\d.]+)"/)`: the leftmost match, with the bounds of its value. */
  function FindAttr(s: string, name: string): Option<(nat, (nat, nat))> {
    FirstMatch(s, AttrMatcher(name), 0)
  }

  /** The captured value of the first match, if there is one. */
  function Capture(s: string, name: string): (r: Option<string>)
    ensures r.Some? ==> r.value != [] && AllNumChars(r.value)
  {
    match FindAttr(s, name)
    case Some((_, (c, e))) =>
      AttrSpec(s, name, FindAttr(s, name).value.0);
      Some(s[c..e])
    case None => None
  }

  /** `parseFloat` of the first captured value, or 0 when the attribute is absent. */
  function AttrValue(s: string, name: string): real {
    match Capture(s, name)
    case Some(t) => DecimalValue(t)
    case None => 0.0
  }

  /** `parseSliceInfo`: the two usage figures, each defaulting to 0 on its own. */
  function ParseSliceInfo(xml: string): (r: Usage)
    ensures r.usedG >= 0.0 && r.usedM >= 0.0
    ensures Capture(xml, UsedG).None? ==> r.usedG == 0.0
    ensures Capture(xml, UsedM).None? ==> r.usedM == 0.0
  {
    Usage(AttrValue(xml, UsedG), AttrValue(xml, UsedM))
  }

  /**
   * `s.replace(/name="[\d.]+"/, 'name="' + v + '"')`: the first match, if
   * any, gives way to `name="v"`; the result is `s` with only the captured
   * value exchanged for `v`.
   */
  function ReplaceAttr(s: string, name: string, v: string): (r: string)
    ensures FindAttr(s, name).None? ==> r == s
    ensures FindAttr(s, name).Some? ==>
      var (c, e) := FindAttr(s, name).value.1;
      r == s[..c] + v + s[e..]
  {
    match FindAttr(s, name)
    case None => s
    case Some((i, (c, e))) =>
      ReplaceIsSplice(s, name, i, v);
      s[..i] + Opening(name) + v + "\"" + s[e + 1..]
  }

  /** `updateSliceInfo`: the first `used_g` and then the first `used_m` value rewritten with `toFixed(2)`. */
  function UpdateSliceInfo(xml: string, totalUsedG: real, totalUsedM: real): (r: string)
    ensures FindAttr(xml, UsedG).None? && FindAttr(xml, UsedM).None? ==> r == xml
  {
    ReplaceAttr(ReplaceAttr(xml, UsedG, Fixed2(totalUsedG)), UsedM, Fixed2(totalUsedM))
  }

  // ---------------------------------------------------------------------
  // Facts about single matches

  /** `Capture` is the text between the bounds `FindAttr` reports. */
  lemma CaptureIs(s: string, name: string, j: nat, c: nat, e: nat)
    requires FindAttr(s, name) == Some((j, (c, e)))
    ensures c <= e <= |s| && Capture(s, name) == Some(s[c..e])
  {
  }

  /** The value of a match consists of digits and dots. */
  lemma AttrSpec(s: string, name: string, i: nat)
    requires AttrAt(s, name, i).Some?
    ensures var (c, e) := AttrAt(s, name, i).value; AllNumChars(s[c..e])
  {
    var c := i + |Opening(name)|;
    SpanEndSpec(s, c, DigitOrDot);
  }

  /** Replacing the whole match by `name="v"` exchanges only the value. */
  lemma ReplaceIsSplice(s: string, name: string, i: nat, v: string)
    requires AttrAt(s, name, i).Some?
    ensures var (c, e) := AttrAt(s, name, i).value;
      s[..i] + Opening(name) + v + "\"" + s[e + 1..] == s[..c] + v + s[e..]
  {
    var (c, e) := AttrAt(s, name, i).value;
    var p := Opening(name);
    assert s[..c] == s[..i] + p by {
      forall k | 0 <= k < |p| ensures s[..c][i + k] == p[k] {
        assert s[i + k] == p[k];
      }
    }
    assert s[e..] == "\"" + s[e + 1..];
  }

  lemma FindAttrIs(s: string, name: string, i: nat)
    requires i <= |s| && AttrAt(s, name, i).Some?
    requires forall j :: 0 <= j < i ==> AttrAt(s, name, j).None?
    ensures FindAttr(s, name) == Some((i, AttrAt(s, name, i).value))
  {
    assert AttrMatcher(name)(s, i) == AttrAt(s, name, i);
    forall j: nat | j < i ensures AttrMatcher(name)(s, j).None? {
      assert AttrMatcher(name)(s, j) == AttrAt(s, name, j);
    }
  }

  lemma FindAttrNone(s: string, name: string)
    requires forall j :: 0 <= j <= |s| ==> AttrAt(s, name, j).None?
    ensures FindAttr(s, name).None?
  {
    forall j: nat | j <= |s| ensures AttrMatcher(name)(s, j).None? {
      assert AttrMatcher(name)(s, j) == AttrAt(s, name, j);
    }
  }

  lemma FindAttrSpec(s: string, name: string)
    ensures FindAttr(s, name).Some? ==>
      var (i, ce) := FindAttr(s, name).value;
      i <= |s| && AttrAt(s, name, i) == Some(ce) && forall j :: 0 <= j < i ==> AttrAt(s, name, j).None?
    ensures FindAttr(s, name).None? ==> forall j :: 0 <= j <= |s| ==> AttrAt(s, name, j).None?
  {
    var r := FindAttr(s, name);
    if r.Some? {
      var i := r.value.0;
      assert AttrMatcher(name)(s, i) == AttrAt(s, name, i);
      forall j | 0 <= j < i ensures AttrAt(s, name, j).None? {
        assert AttrMatcher(name)(s, j) == AttrAt(s, name, j);
      }
    } else {
      forall j | 0 <= j <= |s| ensures AttrAt(s, name, j).None? {
        assert AttrMatcher(name)(s, j) == AttrAt(s, name, j);
      }
    }
  }

  /** No match starts where the character is not `u`. */
  lemma NoMatchWithoutU(s: string, name: string, j: nat)
    requires StartsWithLoneU(name)
    requires j < |s| ==> s[j] != 'u'
    ensures AttrAt(s, name, j).None?
  {
    if j + |Opening(name)| <= |s| {
      assert s[j + 0] != Opening(name)[0];
    }
  }

  /** Two distinct names of one length never match at the same index. */
  lemma NoTwoNamesAt(s: string, n1: string, n2: string, i: nat)
    requires |n1| == |n2| && n1 != n2
    requires OccursAt(s, Opening(n1), i)
    ensures AttrAt(s, n2, i).None?
  {
    var k :| 0 <= k < |n1| && n1[k] != n2[k];
    assert Opening(n1)[k] == n1[k] && Opening(n2)[k] == n2[k];
    assert s[i + k] == Opening(n1)[k];
    assert s[i + k] != Opening(n2)[k];
  }

  // ---------------------------------------------------------------------
  // How matches move when text changes

  /** The class run from `k` is the same in two texts that agree up to a character outside the class. */
  lemma {:induction false} SpanEndLocal(s: string, t: string, k: nat, q: nat, cls: CharClass)
    requires k <= q < |s| && q < |t|
    requires forall x :: k <= x <= q ==> s[x] == t[x]
    requires !InClass(cls, s[q])
    decreases q - k
    ensures SpanEnd(s, k, cls) == SpanEnd(t, k, cls) <= q
  {
    if InClass(cls, s[k]) {
      SpanEndLocal(s, t, k + 1, q, cls);
    }
  }

  /** `t[b..]` repeats `s[a..]`. */
  predicate SameSuffix(s: string, a: nat, t: string, b: nat) {
    a <= |s| && b <= |t| && |s| - a == |t| - b &&
    forall x :: a <= x < |s| ==> s[x] == t[x - a + b]
  }

  /** A class run inside a repeated suffix moves with the suffix. */
  lemma {:induction false} SpanEndShift(s: string, a: nat, t: string, b: nat, k: nat, cls: CharClass)
    requires SameSuffix(s, a, t, b) && a <= k <= |s|
    decreases |s| - k
    ensures SpanEnd(t, k - a + b, cls) == SpanEnd(s, k, cls) - a + b
  {
    if k < |s| {
      assert s[k] == t[k - a + b];
      if InClass(cls, s[k]) {
        SpanEndShift(s, a, t, b, k + 1, cls);
      }
    }
  }

  /**
   * A match that starts before a `u` at `q` ends before it, and it is the
   * same in any text that agrees up to `q`.
   */
  lemma AttrAtBefore(s: string, t: string, name: string, j: nat, q: nat)
    requires StartsWithLoneU(name)
    requires j < q < |s| && q < |t| && s[q] == 'u'
    requires forall x :: j <= x <= q ==> s[x] == t[x]
    ensures AttrAt(s, name, j) == AttrAt(t, name, j)
    ensures AttrAt(s, name, j).Some? ==> AttrAt(s, name, j).value.1 < q
  {
    var p := Opening(name);
    if |p| > q - j {
      assert p[q - j] != 'u';
      if j + |p| <= |s| {
        assert s[j + (q - j)] != p[q - j];
      }
      if j + |p| <= |t| {
        assert t[j + (q - j)] != p[q - j];
      }
    } else {
      assert OccursAt(s, p, j) <==> OccursAt(t, p, j) by {
        forall k | 0 <= k < |p| ensures s[j + k] == p[k] <==> t[j + k] == p[k] {
        }
      }
      if OccursAt(s, p, j) {
        SpanEndLocal(s, t, j + |p|, q, DigitOrDot);
      }
    }
  }

  /** A match inside a repeated suffix moves with the suffix. */
  lemma AttrAtShift(s: string, a: nat, t: string, b: nat, name: string, j: nat)
    requires SameSuffix(s, a, t, b) && a <= j
    ensures AttrAt(s, name, j).None? <==> AttrAt(t, name, j - a + b).None?
    ensures AttrAt(s, name, j).Some? ==>
      var (c, e) := AttrAt(s, name, j).value;
      AttrAt(t, name, j - a + b) == Some((c - a + b, e - a + b))
  {
    var p := Opening(name);
    var j' := j - a + b;
    assert OccursAt(s, p, j) <==> OccursAt(t, p, j') by {
      if j + |p| <= |s| {
        forall k | 0 <= k < |p| ensures s[j + k] == p[k] <==> t[j' + k] == p[k] {
          assert s[j + k] == t[(j + k) - a + b];
        }
      }
    }
    if OccursAt(s, p, j) {
      var c := j + |p|;
      SpanEndShift(s, a, t, b, c, DigitOrDot);
      var e := SpanEnd(s, c, DigitOrDot);
      if e < |s| {
        assert s[e] == t[e - a + b];
      }
    }
  }

  /** The characters of `s[..c] + v + s[e..]`, region by region. */
  lemma SpliceChars(s: string, c: nat, v: string, e: nat)
    requires c <= e <= |s|
    ensures var t := s[..c] + v + s[e..];
      && |t| == c + |v| + (|s| - e)
      && (forall x :: 0 <= x < c ==> t[x] == s[x])
      && (forall x :: c <= x < c + |v| ==> t[x] == v[x - c])
      && SameSuffix(s, e, t, c + |v|)
  {
  }

  // ---------------------------------------------------------------------
  // What a replacement does to the first matches

  /**
   * After the first value of `name` is replaced by a non-empty run of digits
   * and dots, the first match of `name` is at the same index and captures
   * exactly the new value.
   */
  lemma CaptureAfterReplaceSelf(s: string, name: string, v: string)
    requires StartsWithLoneU(name)
    requires FindAttr(s, name).Some?
    requires v != [] && AllNumChars(v)
    ensures Capture(ReplaceAttr(s, name, v), name) == Some(v)
  {
    var (i, (c, e)) := FindAttr(s, name).value;
    var t := s[..c] + v + s[e..];
    SelfFirstMatch(s, name, v, i, c, e);
    CaptureIs(t, name, i, c, c + |v|);
    assert t[c..c + |v|] == v;
  }

  /** After the splice the first match is at the same index and spans exactly `v`. */
  lemma SelfFirstMatch(s: string, name: string, v: string, i: nat, c: nat, e: nat)
    requires StartsWithLoneU(name)
    requires FindAttr(s, name) == Some((i, (c, e)))
    requires v != [] && AllNumChars(v)
    ensures c <= e <= |s|
    ensures FindAttr(s[..c] + v + s[e..], name) == Some((i, (c, c + |v|)))
  {
    FindAttrSpec(s, name);
    var t := s[..c] + v + s[e..];
    SpliceChars(s, c, v, e);
    var p := Opening(name);
    assert s[i] == 'u' by { assert s[i + 0] == p[0]; }
    forall j | 0 <= j < i ensures AttrAt(t, name, j).None? {
      AttrAtBefore(s, t, name, j, i);
    }
    assert OccursAt(t, p, i) by {
      forall k | 0 <= k < |p| ensures t[i + k] == p[k] {
        assert s[i + k] == p[k];
      }
    }
    assert t[c + |v|] == s[e];
    SpanEndIs(t, c, DigitOrDot, c + |v|);
    FindAttrIs(t, name, i);
  }

  /** No match starts anywhere in `[lo, hi]` when no character there is `u`. */
  lemma NoMatchInRun(s: string, name: string, lo: nat, hi: nat)
    requires StartsWithLoneU(name)
    requires forall j :: lo <= j <= hi && j < |s| ==> s[j] != 'u'
    ensures forall j :: lo <= j <= hi ==> AttrAt(s, name, j).None?
  {
    forall j | lo <= j <= hi ensures AttrAt(s, name, j).None? {
      NoMatchWithoutU(s, name, j);
    }
  }

  /**
   * Where the matches of `n2` are once the value of a match of `n1` at `i`
   * has been exchanged for `v`: before `i` they are unchanged, from `i` to the
   * end of the old and of the new value there are none, and after that the
   * text is the old one shifted.
   */
  lemma OtherMatchesAround(s: string, n1: string, n2: string, v: string, i: nat, c: nat, e: nat)
    requires StartsWithLoneU(n1) && StartsWithLoneU(n2)
    requires |n1| == |n2| && n1 != n2
    requires NoU(v)
    requires AttrAt(s, n1, i) == Some((c, e))
    ensures var t := s[..c] + v + s[e..];
      && (forall j :: 0 <= j < i ==> AttrAt(t, n2, j) == AttrAt(s, n2, j))
      && (forall j :: 0 <= j < i && AttrAt(s, n2, j).Some? ==> AttrAt(s, n2, j).value.1 < i)
      && i <= |s| && i <= |t| && s[..i] == t[..i]
      && (forall j :: i <= j <= e ==> AttrAt(s, n2, j).None?)
      && (forall j :: i <= j <= c + |v| ==> AttrAt(t, n2, j).None?)
      && SameSuffix(s, e, t, c + |v|)
  {
    var t := s[..c] + v + s[e..];
    SpliceChars(s, c, v, e);
    AttrSpec(s, n1, i);
    var p := Opening(n1);
    assert s[i] == 'u' by { assert s[i + 0] == p[0]; }
    forall j | 0 <= j < i
      ensures AttrAt(t, n2, j) == AttrAt(s, n2, j)
      ensures AttrAt(s, n2, j).Some? ==> AttrAt(s, n2, j).value.1 < i
    {
      AttrAtBefore(s, t, n2, j, i);
    }
    assert OccursAt(t, p, i) by {
      forall k | 0 <= k < |p| ensures t[i + k] == p[k] {
        assert s[i + k] == p[k];
      }
    }
    NoTwoNamesAt(s, n1, n2, i);
    NoTwoNamesAt(t, n1, n2, i);
    forall j | i < j <= e && j < |s| ensures s[j] != 'u' {
      if j < c {
        assert s[i + (j - i)] == p[j - i];
      } else if j < e {
        assert IsNumChar(s[c..e][j - c]);
      }
    }
    NoMatchInRun(s, n2, i + 1, e);
    forall j | i < j <= c + |v| && j < |t| ensures t[j] != 'u' {
      if j < c {
        assert s[i + (j - i)] == p[j - i];
      } else if j < c + |v| {
        assert t[j] == v[j - c];
      } else {
        assert t[j] == s[e];
      }
    }
    NoMatchInRun(t, n2, i + 1, c + |v|);
  }

  /** How two texts relate around a splice: see `OtherMatchesAround`. */
  predicate SpliceMatches(s: string, t: string, name: string, i: nat, e: nat, b: nat) {
    && i <= e && i <= b
    && (forall j :: 0 <= j < i ==> AttrAt(t, name, j) == AttrAt(s, name, j))
    && (forall j :: 0 <= j < i && AttrAt(s, name, j).Some? ==> AttrAt(s, name, j).value.1 < i)
    && i <= |s| && i <= |t| && s[..i] == t[..i]
    && (forall j :: i <= j <= e ==> AttrAt(s, name, j).None?)
    && (forall j :: i <= j <= b ==> AttrAt(t, name, j).None?)
    && SameSuffix(s, e, t, b)
  }

  lemma NoCaptureAcrossSplice(s: string, t: string, name: string, i: nat, e: nat, b: nat)
    requires SpliceMatches(s, t, name, i, e, b)
    requires FindAttr(s, name).None?
    ensures FindAttr(t, name).None?
  {
    FindAttrSpec(s, name);
    forall j' | 0 <= j' <= |t| ensures AttrAt(t, name, j').None? {
      if j' > b {
        AttrAtShift(s, e, t, b, name, j' - b + e);
      }
    }
    FindAttrNone(t, name);
  }

  lemma EarlyCaptureAcrossSplice(s: string, t: string, name: string, i: nat, e: nat, b: nat)
    requires SpliceMatches(s, t, name, i, e, b)
    requires FindAttr(s, name).Some? && FindAttr(s, name).value.0 < i
    ensures Capture(t, name) == Capture(s, name)
  {
    FindAttrSpec(s, name);
    var (j0, (c0, e0)) := FindAttr(s, name).value;
    FindAttrIs(t, name, j0);
    CaptureIs(t, name, j0, c0, e0);
    CaptureIs(s, name, j0, c0, e0);
    assert t[c0..e0] == t[..i][c0..e0] == s[..i][c0..e0] == s[c0..e0];
  }

  /** A first match after the splice moves with the text behind it. */
  lemma LateFirstMatch(s: string, t: string, name: string, i: nat, e: nat, b: nat, j0: nat, c0: nat, e0: nat)
    requires SpliceMatches(s, t, name, i, e, b)
    requires FindAttr(s, name) == Some((j0, (c0, e0))) && j0 >= i
    ensures e < j0 && j0 < c0 <= e0 < |s|
    ensures FindAttr(t, name) == Some((j0 - e + b, (c0 - e + b, e0 - e + b)))
  {
    FindAttrSpec(s, name);
    var j1 := j0 - e + b;
    AttrAtShift(s, e, t, b, name, j0);
    forall j' | 0 <= j' < j1 ensures AttrAt(t, name, j').None? {
      if j' > b {
        AttrAtShift(s, e, t, b, name, j' - b + e);
      }
    }
    FindAttrIs(t, name, j1);
  }

  /** Two first matches whose values sit in a repeated suffix capture the same text. */
  lemma ShiftedCapture(s: string, t: string, name: string, e: nat, b: nat, j0: nat, c0: nat, e0: nat)
    requires SameSuffix(s, e, t, b) && e <= c0
    requires FindAttr(s, name) == Some((j0, (c0, e0)))
    requires FindAttr(t, name) == Some((j0 - e + b, (c0 - e + b, e0 - e + b)))
    ensures Capture(t, name) == Capture(s, name)
  {
    CaptureIs(t, name, j0 - e + b, c0 - e + b, e0 - e + b);
    CaptureIs(s, name, j0, c0, e0);
    assert t[c0 - e + b..e0 - e + b] == s[c0..e0] by {
      forall x | c0 <= x < e0 ensures t[x - e + b] == s[x] { }
    }
  }

  lemma LateCaptureAcrossSplice(s: string, t: string, name: string, i: nat, e: nat, b: nat)
    requires SpliceMatches(s, t, name, i, e, b)
    requires FindAttr(s, name).Some? && FindAttr(s, name).value.0 >= i
    ensures Capture(t, name) == Capture(s, name)
  {
    var (j0, (c0, e0)) := FindAttr(s, name).value;
    LateFirstMatch(s, t, name, i, e, b, j0, c0, e0);
    ShiftedCapture(s, t, name, e, b, j0, c0, e0);
  }

  /**
   * Replacing the first value of one attribute leaves the first value of a
   * different attribute, of the same name length, as it was, absent or not.
   */
  lemma CaptureAfterReplaceOther(s: string, n1: string, n2: string, v: string)
    requires StartsWithLoneU(n1) && StartsWithLoneU(n2)
    requires |n1| == |n2| && n1 != n2
    requires NoU(v)
    ensures Capture(ReplaceAttr(s, n1, v), n2) == Capture(s, n2)
  {
    if FindAttr(s, n1).Some? {
      FindAttrSpec(s, n1);
      var (i, (c, e)) := FindAttr(s, n1).value;
      OtherMatchesAround(s, n1, n2, v, i, c, e);
      var t := ReplaceAttr(s, n1, v);
      assert t == s[..c] + v + s[e..];
      assert SpliceMatches(s, t, n2, i, e, c + |v|);
      FindAttrSpec(s, n2);
      if FindAttr(s, n2).None? {
        NoCaptureAcrossSplice(s, t, n2, i, e, c + |v|);
      } else if FindAttr(s, n2).value.0 < i {
        EarlyCaptureAcrossSplice(s, t, n2, i, e, c + |v|);
      } else {
        LateCaptureAcrossSplice(s, t, n2, i, e, c + |v|);
      }
    }
  }

  /** Putting back the value that is already there changes nothing. */
  lemma ReplaceWithSame(s: string, name: string, v: string)
    requires Capture(s, name) == Some(v)
    ensures ReplaceAttr(s, name, v) == s
  {
    var (c, e) := FindAttr(s, name).value.1;
    assert s[..c] + s[c..e] + s[e..] == s;
  }

  // ---------------------------------------------------------------------
  // The descriptor's properties

  lemma UsedNamesLoneU()
    ensures StartsWithLoneU(UsedG) && StartsWithLoneU(UsedM)
    ensures |UsedG| == |UsedM| && UsedG != UsedM
  {
    assert Opening(UsedG) == ['u', 's', 'e', 'd', '_', 'g', '=', '"'];
    assert Opening(UsedM) == ['u', 's', 'e', 'd', '_', 'm', '=', '"'];
    assert UsedG[5] != UsedM[5];
  }

  /** A `toFixed(2)` rendering holds no `u`. */
  lemma Fixed2NoU(x: real)
    ensures NoU(Fixed2(x))
  {
    var r := Fixed2(x);
    if x >= 0.0 {
      assert AllNumChars(r);
    } else {
      assert AllNumChars(Fixed2(-x));
      assert r == "-" + Fixed2(-x);
      forall k | 0 <= k < |r| ensures r[k] != 'u' {
        if k > 0 {
          assert r[k] == Fixed2(-x)[k - 1];
        }
      }
    }
  }

  /**
   * `updateSliceInfo` touches the first `used_g` value and the first
   * `used_m` value and nothing else: the result is the input with those
   * values exchanged, and an attribute that is absent stays absent.
   */
  lemma UpdateTouchesOnlyValues(xml: string, g: real, m: real)
    ensures var x1 := ReplaceAttr(xml, UsedG, Fixed2(g));
      && Capture(x1, UsedM) == Capture(xml, UsedM)
      && (Capture(xml, UsedG).None? ==> x1 == xml)
      && (Capture(x1, UsedM).None? ==> UpdateSliceInfo(xml, g, m) == x1)
    ensures Capture(xml, UsedG).None? && Capture(xml, UsedM).None? ==> UpdateSliceInfo(xml, g, m) == xml
  {
    UsedNamesLoneU();
    Fixed2NoU(g);
    CaptureAfterReplaceOther(xml, UsedG, UsedM, Fixed2(g));
  }

  /**
   * Reading back a rewritten descriptor: each attribute that was present
   * reads as its total rounded to hundredths, each absent one as 0.
   */
  lemma ParseAfterUpdate(xml: string, g: real, m: real)
    requires g >= 0.0 && m >= 0.0
    ensures ParseSliceInfo(UpdateSliceInfo(xml, g, m)) ==
      Usage(if Capture(xml, UsedG).Some? then Rounded2(g) else 0.0,
            if Capture(xml, UsedM).Some? then Rounded2(m) else 0.0)
  {
    UsedNamesLoneU();
    Fixed2NoU(g);
    Fixed2NoU(m);
    var x1 := ReplaceAttr(xml, UsedG, Fixed2(g));
    var x2 := ReplaceAttr(x1, UsedM, Fixed2(m));
    CaptureAfterReplaceOther(xml, UsedG, UsedM, Fixed2(g));
    CaptureAfterReplaceOther(x1, UsedM, UsedG, Fixed2(m));
    if Capture(xml, UsedG).Some? {
      CaptureAfterReplaceSelf(xml, UsedG, Fixed2(g));
      Fixed2RoundTrip(g);
    }
    if Capture(x1, UsedM).Some? {
      CaptureAfterReplaceSelf(x1, UsedM, Fixed2(m));
      Fixed2RoundTrip(m);
    }
  }

  /** Rewriting a descriptor twice with the same non-negative totals is rewriting it once. */
  lemma UpdateIdempotent(xml: string, g: real, m: real)
    requires g >= 0.0 && m >= 0.0
    ensures UpdateSliceInfo(UpdateSliceInfo(xml, g, m), g, m) == UpdateSliceInfo(xml, g, m)
  {
    UsedNamesLoneU();
    Fixed2NoU(g);
    Fixed2NoU(m);
    var x1 := ReplaceAttr(xml, UsedG, Fixed2(g));
    var x2 := ReplaceAttr(x1, UsedM, Fixed2(m));
    CaptureAfterReplaceOther(xml, UsedG, UsedM, Fixed2(g));
    CaptureAfterReplaceOther(x1, UsedM, UsedG, Fixed2(m));
    if Capture(xml, UsedG).Some? {
      CaptureAfterReplaceSelf(xml, UsedG, Fixed2(g));
    }
    if Capture(x1, UsedM).Some? {
      CaptureAfterReplaceSelf(x1, UsedM, Fixed2(m));
    }
    // In `x2` each attribute already holds its new value, or is absent.
    var y1 := ReplaceAttr(x2, UsedG, Fixed2(g));
    if Capture(x2, UsedG).Some? {
      ReplaceWithSame(x2, UsedG, Fixed2(g));
    }
    assert y1 == x2;
    if Capture(x2, UsedM).Some? {
      ReplaceWithSame(x2, UsedM, Fixed2(m));
    }
  }

  /** A descriptor without the `used_g="` text reads 0 grams; likewise for metres. */
  lemma ParseAbsent(xml: string)
    ensures !Contains(xml, Opening(UsedG)) ==> ParseSliceInfo(xml).usedG == 0.0
    ensures !Contains(xml, Opening(UsedM)) ==> ParseSliceInfo(xml).usedM == 0.0
  {
    FindAttrSpec(xml, UsedG);
    FindAttrSpec(xml, UsedM);
    if FindAttr(xml, UsedG).Some? {
      ContainsAt(xml, Opening(UsedG), FindAttr(xml, UsedG).value.0);
    }
    if FindAttr(xml, UsedM).Some? {
      ContainsAt(xml, Opening(UsedM), FindAttr(xml, UsedM).value.0);
    }
  }
}
