/**
 * The Python string primitives the GP client relies on: `str.isspace`,
 * `str.strip`, `str.startswith`, `str.find`, `str.rfind` and slicing.
 */
module PyStr {

  /** Python 3's `str.isspace()`: the ASCII controls TAB..CR and FS..US, the
      space, and the Unicode separators Python classifies as whitespace. */
  predicate IsSpace(c: char) {
    var n := c as int;
    (9 <= n <= 13) || (28 <= n <= 32) || n == 0x85 || n == 0xA0 || n == 0x1680
    || (0x2000 <= n <= 0x200A) || n == 0x2028 || n == 0x2029 || n == 0x202F
    || n == 0x205F || n == 0x3000
  }

  /** Neither the first nor the last character is whitespace. */
  predicate NoEdgeSpace(s: string) {
    s == [] || (!IsSpace(s[0]) && !IsSpace(s[|s| - 1]))
  }

  /** Leading whitespace removed: the result is the suffix of `s` that starts
      at its first non-space character. */
  function TrimStart(s: string): (r: string)
    ensures |r| <= |s| && r == s[|s| - |r|..]
    ensures forall k :: 0 <= k < |s| - |r| ==> IsSpace(s[k])
    ensures r != [] ==> !IsSpace(r[0])
  {
    if s != [] && IsSpace(s[0]) then TrimStart(s[1..]) else s
  }

  /** Trailing whitespace removed: the result is the prefix of `s` that ends
      at its last non-space character. */
  function TrimEnd(s: string): (r: string)
    ensures |r| <= |s| && r == s[..|r|]
    ensures forall k :: |r| <= k < |s| ==> IsSpace(s[k])
    ensures r != [] ==> !IsSpace(r[|r| - 1])
  {
    if s != [] && IsSpace(s[|s| - 1]) then TrimEnd(s[..|s| - 1]) else s
  }

  /** `s.strip()`: the slice `s[i..j]` whose outside is all whitespace and
      whose first and last characters are not. */
  function Strip(s: string): (r: string)
    ensures NoEdgeSpace(r)
    ensures exists i, j :: 0 <= i <= j <= |s| && r == s[i..j]
                           && (forall k :: 0 <= k < i ==> IsSpace(s[k]))
                           && (forall k :: j <= k < |s| ==> IsSpace(s[k]))
  {
    var t := TrimStart(s);
    var r := TrimEnd(t);
    assert r == s[|s| - |t|..|s| - |t| + |r|];
    r
  }

  /** A string without surrounding whitespace is its own strip. */
  lemma {:induction false} StripFixed(s: string)
    requires NoEdgeSpace(s)
    ensures Strip(s) == s
  {
    assert TrimStart(s) == s;
    assert TrimEnd(s) == s;
  }

  /** Leading whitespace ends at the first non-space character. */
  lemma {:induction false} TrimStartAt(s: string, i: nat)
    requires i <= |s|
    requires forall k :: 0 <= k < i ==> IsSpace(s[k])
    requires i < |s| ==> !IsSpace(s[i])
    ensures TrimStart(s) == s[i..]
  {
    if i > 0 {
      var t := s[1..];
      assert IsSpace(s[0]);
      forall k | 0 <= k < i - 1 ensures IsSpace(t[k]) {
        assert t[k] == s[k + 1];
      }
      assert i - 1 < |t| ==> t[i - 1] == s[i];
      TrimStartAt(t, i - 1);
      assert t[i - 1..] == s[i..];
    }
  }

  /** Trailing whitespace starts after the last non-space character. */
  lemma {:induction false} TrimEndAt(s: string, j: nat)
    requires j <= |s|
    requires forall k :: j <= k < |s| ==> IsSpace(s[k])
    requires 0 < j ==> !IsSpace(s[j - 1])
    ensures TrimEnd(s) == s[..j]
  {
    if j < |s| {
      var t := s[..|s| - 1];
      assert IsSpace(s[|s| - 1]);
      forall k | j <= k < |t| ensures IsSpace(t[k]) {
        assert t[k] == s[k];
      }
      assert 0 < j ==> t[j - 1] == s[j - 1];
      TrimEndAt(t, j);
      assert t[..j] == s[..j];
    }
  }

  /** Strip is determined by its characterisation: whatever slice has only
      whitespace outside it and no whitespace at its edges is the strip. */
  lemma StripUnique(s: string, i: nat, j: nat)
    requires i <= j <= |s|
    requires forall k :: 0 <= k < i ==> IsSpace(s[k])
    requires forall k :: j <= k < |s| ==> IsSpace(s[k])
    requires NoEdgeSpace(s[i..j])
    ensures Strip(s) == s[i..j]
  {
    if i < j {
      assert s[i..j][0] == s[i] && s[i..j][j - i - 1] == s[j - 1];
      TrimStartAt(s, i);
      TrimEndOfSuffix(s, i, j);
    } else {
      TrimStartAt(s, |s|);
      TrimEndAt([], 0);
    }
  }

  /** The trailing whitespace of the suffix `s[i..]` starts at `j`. */
  lemma TrimEndOfSuffix(s: string, i: nat, j: nat)
    requires i < j <= |s|
    requires forall k :: j <= k < |s| ==> IsSpace(s[k])
    requires !IsSpace(s[j - 1])
    ensures TrimEnd(s[i..]) == s[i..j]
  {
    var t := s[i..];
    forall k | j - i <= k < |t| ensures IsSpace(t[k]) {
      assert t[k] == s[i + k];
    }
    assert t[j - i - 1] == s[j - 1];
    TrimEndAt(t, j - i);
    assert t[..j - i] == s[i..j];
  }

  /** Stripping twice is stripping once. */
  lemma StripIdempotent(s: string)
    ensures Strip(Strip(s)) == Strip(s)
  {
    StripFixed(Strip(s));
  }

  /** `s.startswith(p)`. */
  predicate StartsWith(s: string, p: string) {
    |p| <= |s| && s[..|p|] == p
  }

  /** `s.endswith(p)`. */
  predicate EndsWith(s: string, p: string) {
    |p| <= |s| && s[|s| - |p|..] == p
  }

  /** `p` occurs in `s` at index `i`. */
  predicate OccursAt(s: string, p: string, i: int) {
    0 <= i && i + |p| <= |s| && s[i..i + |p|] == p
  }

  /** An occurrence fixes the character at each of its offsets. */
  lemma OccurrenceChar(s: string, p: string, i: int, k: int)
    requires 0 <= k < |p|
    ensures OccursAt(s, p, i) ==> s[i + k] == p[k]
  {
    if OccursAt(s, p, i) {
      assert s[i..i + |p|][k] == s[i + k];
    }
  }

  /** `p` occurs nowhere in `s` (Python's `p not in s`). */
  predicate Absent(s: string, p: string) {
    forall i :: 0 <= i <= |s| ==> !OccursAt(s, p, i)
  }

  /** A non-empty pattern whose first character `s` lacks does not occur in `s`. */
  lemma AbsentByFirstChar(s: string, p: string)
    requires p != [] && p[0] !in s
    ensures Absent(s, p)
  {
  }

  /** The first occurrence of `p` in `s` at or after `k`, or -1. */
  function FindFrom(s: string, p: string, k: nat): (r: int)
    ensures r == -1 || (k <= r && OccursAt(s, p, r))
    ensures forall i :: k <= i && (r == -1 || i < r) ==> !OccursAt(s, p, i)
    decreases |s| - k
  {
    if k + |p| > |s| then -1
    else if s[k..k + |p|] == p then k
    else FindFrom(s, p, k + 1)
  }

  /** `s.find(p)`: the lowest index at which `p` occurs, or -1 when it does not. */
  function Find(s: string, p: string): (r: int)
    ensures r == -1 <==> Absent(s, p)
    ensures r != -1 ==> OccursAt(s, p, r) && forall i :: 0 <= i < r ==> !OccursAt(s, p, i)
  {
    FindFrom(s, p, 0)
  }

  /** The last occurrence of `p` in `s` at or before `k`, or -1. */
  function FindLastUpTo(s: string, p: string, k: int): (r: int)
    ensures r == -1 || (r <= k && OccursAt(s, p, r))
    ensures forall i :: (r == -1 || r < i) && i <= k ==> !OccursAt(s, p, i)
    decreases k + 1
  {
    if k < 0 then -1
    else if OccursAt(s, p, k) then k
    else FindLastUpTo(s, p, k - 1)
  }

  /** `s.rfind(p)`: the highest index at which `p` occurs, or -1 when it does not. */
  function RFind(s: string, p: string): (r: int)
    ensures r == -1 <==> Absent(s, p)
    ensures r != -1 ==> OccursAt(s, p, r) && forall i :: r < i ==> !OccursAt(s, p, i)
  {
    FindLastUpTo(s, p, |s| - |p|)
  }

  /** Python's normalisation of a slice bound against a length `n`:
      a negative bound counts from the end, then the bound is clamped to [0, n]. */
  function SliceBound(i: int, n: nat): (b: nat)
    ensures b <= n
    ensures 0 <= i <= n ==> b == i
    ensures i > n ==> b == n
  {
    var a := if i < 0 then i + n else i;
    if a < 0 then 0 else if a > n then n else a
  }

  /** `s[i:j]`: empty whenever the normalised stop does not exceed the start. */
  function Slice(s: string, i: int, j: int): (r: string)
    ensures 0 <= i <= j <= |s| ==> r == s[i..j]
    ensures 0 <= j <= i ==> r == []
  {
    var a := SliceBound(i, |s|);
    var b := SliceBound(j, |s|);
    if a < b then s[a..b] else []
  }
}
