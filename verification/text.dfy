/**
 * The normalizer: `normalize_string` maps an absent value to the empty string and
 * otherwise lowercases the text and strips leading and trailing whitespace.
 */
module Text {
  import opened Options

  /** Whitespace as Python's `str.strip()` removes it by default (`str.isspace`). */
  predicate IsSpace(c: char) {
    var n := c as int;
    || 0x09 <= n <= 0x0D
    || 0x1C <= n <= 0x20
    || n == 0x85 || n == 0xA0 || n == 0x1680
    || 0x2000 <= n <= 0x200A
    || n == 0x2028 || n == 0x2029 || n == 0x202F || n == 0x205F || n == 0x3000
  }

  /** Upper-case letters of the Basic Latin and Latin-1 Supplement blocks. */
  predicate IsUpper(c: char) {
    var n := c as int;
    || 0x41 <= n <= 0x5A
    || (0xC0 <= n <= 0xDE && n != 0xD7)
  }

  /** `str.lower()` on one character, for the letters `IsUpper` covers. */
  function LowerChar(c: char): (r: char)
    ensures !IsUpper(r)
    ensures IsUpper(c) ==> r != c
    ensures !IsUpper(c) ==> r == c
    ensures IsSpace(r) <==> IsSpace(c)
  {
    if IsUpper(c) then (c as int + 0x20) as char else c
  }

  predicate IsLowercase(s: string) {
    forall i :: 0 <= i < |s| ==> !IsUpper(s[i])
  }

  predicate AllSpace(s: string) {
    forall i :: 0 <= i < |s| ==> IsSpace(s[i])
  }

  /** Neither begins nor ends with whitespace. */
  predicate IsStripped(s: string) {
    s == [] || (!IsSpace(s[0]) && !IsSpace(s[|s| - 1]))
  }

  /** `str.lower()`: character by character. */
  function Lower(s: string): (r: string)
    ensures |r| == |s|
    ensures forall i :: 0 <= i < |s| ==> r[i] == LowerChar(s[i])
    ensures IsLowercase(r)
    ensures IsLowercase(s) ==> r == s
  {
    seq(|s|, i requires 0 <= i < |s| => LowerChar(s[i]))
  }

  /** The first index at or after `i` that does not hold whitespace (or `|s|`). */
  function SpanLeft(s: string, i: nat): (n: nat)
    requires i <= |s|
    ensures i <= n <= |s|
    ensures forall k :: i <= k < n ==> IsSpace(s[k])
    ensures n == |s| || !IsSpace(s[n])
    decreases |s| - i
  {
    if i < |s| && IsSpace(s[i]) then SpanLeft(s, i + 1) else i
  }

  /** The start of the run of whitespace that ends at `j`, not going below `lo`. */
  function SpanRight(s: string, lo: nat, j: nat): (n: nat)
    requires lo <= j <= |s|
    ensures lo <= n <= j
    ensures forall k :: n <= k < j ==> IsSpace(s[k])
    ensures n == lo || !IsSpace(s[n - 1])
    decreases j
  {
    if lo < j && IsSpace(s[j - 1]) then SpanRight(s, lo, j - 1) else j
  }

  /** The span functions are determined by what they ensure. */
  lemma {:induction false} SpanLeftUnique(s: string, i: nat, n: nat)
    requires i <= n <= |s|
    requires forall k :: i <= k < n ==> IsSpace(s[k])
    requires n == |s| || !IsSpace(s[n])
    ensures SpanLeft(s, i) == n
    decreases n - i
  {
    if i < n {
      SpanLeftUnique(s, i + 1, n);
    }
  }

  lemma {:induction false} SpanRightUnique(s: string, lo: nat, j: nat, n: nat)
    requires lo <= n <= j <= |s|
    requires forall k :: n <= k < j ==> IsSpace(s[k])
    requires n == lo || !IsSpace(s[n - 1])
    ensures SpanRight(s, lo, j) == n
    decreases j - n
  {
    if n < j {
      SpanRightUnique(s, lo, j - 1, n);
    }
  }

  /** Where the text `Strip` keeps begins: the number of leading whitespace characters. */
  function StripStart(s: string): (n: nat)
    ensures n <= |s|
  {
    SpanLeft(s, 0)
  }

  /** `str.strip()`: the slice between the whitespace prefix and the whitespace suffix. */
  function Strip(s: string): (r: string)
    ensures StripStart(s) + |r| <= |s|
    ensures r == s[StripStart(s)..StripStart(s) + |r|]
    ensures forall k :: 0 <= k < StripStart(s) ==> IsSpace(s[k])
    ensures forall k :: StripStart(s) + |r| <= k < |s| ==> IsSpace(s[k])
    ensures IsStripped(r)
  {
    var lo := SpanLeft(s, 0);
    s[lo..SpanRight(s, lo, |s|)]
  }

  /**
   * Strip returns exactly the middle: whatever whitespace surrounds a text with no
   * whitespace at either end, Strip removes that and nothing more.
   */
  lemma StripUnique(a: string, m: string, b: string)
    requires AllSpace(a) && AllSpace(b) && IsStripped(m)
    ensures Strip(a + m + b) == m
  {
    var s := a + m + b;
    SpacesAround(a, m, b);
    if m == [] {
      SpanLeftUnique(s, 0, |s|);
    } else {
      assert s[|a|] == m[0];
      SpanLeftUnique(s, 0, |a|);
      assert s[|a| + |m| - 1] == m[|m| - 1];
      SpanRightUnique(s, |a|, |s|, |a| + |m|);
      assert s[|a|..|a| + |m|] == m;
    }
  }

  lemma SpacesAround(a: string, m: string, b: string)
    requires AllSpace(a) && AllSpace(b)
    ensures forall k :: 0 <= k < |a| ==> IsSpace((a + m + b)[k])
    ensures forall k :: |a| + |m| <= k < |a + m + b| ==> IsSpace((a + m + b)[k])
  {
    var s := a + m + b;
    assert forall k :: 0 <= k < |a| ==> s[k] == a[k];
    assert forall k :: |a| + |m| <= k < |s| ==> s[k] == b[k - |a| - |m|];
  }

  /** A text with no surrounding whitespace is its own strip. */
  lemma StripFixed(m: string)
    requires IsStripped(m)
    ensures Strip(m) == m
  {
    assert [] + m + [] == m;
    StripUnique([], m, []);
  }

  lemma StripIdempotent(s: string)
    ensures Strip(Strip(s)) == Strip(s)
  {
    StripFixed(Strip(s));
  }

  /** Strip only removes characters, so it keeps a text lower-case. */
  lemma StripKeepsLowercase(s: string)
    requires IsLowercase(s)
    ensures IsLowercase(Strip(s))
  {
    var r := Strip(s);
    assert forall i :: 0 <= i < |r| ==> r[i] == s[StripStart(s) + i];
  }

  /** `normalize_string`: `None` becomes `""`, text is lowercased and stripped. */
  function NormalizeString(s: Option<string>): (r: string)
    ensures s.None? ==> r == ""
    ensures IsStripped(r) && IsLowercase(r)
  {
    match s
    case None => ""
    case Some(v) =>
      StripKeepsLowercase(Lower(v));
      Strip(Lower(v))
  }

  /**
   * What `normalize_string` keeps of a present text: the run of its characters
   * after the leading whitespace, each lowercased, with only whitespace after it.
   */
  lemma NormalizeKeepsMiddle(v: string)
    ensures var r := NormalizeString(Some(v));
            var k := StripStart(v);
            && k + |r| <= |v|
            && (forall i :: 0 <= i < |r| ==> r[i] == LowerChar(v[k + i]))
            && (forall i :: 0 <= i < k ==> IsSpace(v[i]))
            && (forall i :: k + |r| <= i < |v| ==> IsSpace(v[i]))
  {
    var l := Lower(v);
    var r := Strip(l);
    LowerKeepsStripStart(v);
    assert forall i :: 0 <= i < |r| ==> r[i] == l[StripStart(v) + i];
  }

  /** Lowercasing leaves whitespace where it is, so the leading run is as long as before. */
  lemma LowerKeepsStripStart(v: string)
    ensures StripStart(Lower(v)) == StripStart(v)
  {
    var l := Lower(v);
    assert forall i :: 0 <= i < |v| ==> (IsSpace(l[i]) <==> IsSpace(v[i]));
    SpanLeftUnique(l, 0, StripStart(v));
  }

  /** Exactly the lower-case texts without surrounding whitespace come out of `normalize_string` unchanged. */
  lemma NormalizeFixed(m: string)
    ensures NormalizeString(Some(m)) == m <==> IsStripped(m) && IsLowercase(m)
  {
    if IsStripped(m) && IsLowercase(m) {
      assert Lower(m) == m;
      StripFixed(m);
    }
  }

  /** Normalizing an already normalized string changes nothing. */
  lemma NormalizeIdempotent(s: Option<string>)
    ensures NormalizeString(Some(NormalizeString(s))) == NormalizeString(s)
  {
    NormalizeFixed(NormalizeString(s));
  }
}
