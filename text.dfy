/**
 * The Python string built-ins the application relies on: `str.strip()`,
 * `str.join`, `str.replace` and the `in` test for substrings.  Strings are
 * sequences of Unicode code points.
 */
module Text {

  /** The characters for which Python's `str.isspace()` holds; `strip()` removes these. */
  predicate IsSpace(c: char) {
    var n := c as int;
    n == 0x20 || 0x09 <= n <= 0x0D || 0x1C <= n <= 0x1F || n == 0x85 || n == 0xA0
    || n == 0x1680 || 0x2000 <= n <= 0x200A || n == 0x2028 || n == 0x2029
    || n == 0x202F || n == 0x205F || n == 0x3000
  }

  /** Every character of `s` is white space (the empty string included). */
  predicate IsBlank(s: string) {
    forall k :: 0 <= k < |s| ==> IsSpace(s[k])
  }

  /** No character of `s` is `c`. */
  predicate Excludes(s: string, c: char) {
    forall k :: 0 <= k < |s| ==> s[k] != c
  }

  /** `s` neither starts nor ends with white space. */
  predicate Unpadded(s: string) {
    s == [] || (!IsSpace(s[0]) && !IsSpace(s[|s| - 1]))
  }

  // ---------------------------------------------------------------- strip

  /** `s` without its leading white space: the longest suffix that does not start with a space. */
  function TrimStart(s: string): (r: string)
    ensures |r| <= |s| && r == s[|s| - |r|..]
    ensures IsBlank(s[..|s| - |r|])
    ensures r != [] ==> !IsSpace(r[0])
  {
    if s != [] && IsSpace(s[0]) then TrimStart(s[1..]) else s
  }

  /** `s` without its trailing white space: the longest prefix that does not end with a space. */
  function TrimEnd(s: string): (r: string)
    ensures |r| <= |s| && r == s[..|r|]
    ensures IsBlank(s[|r|..])
    ensures r != [] ==> !IsSpace(r[|r| - 1])
  {
    if s != [] && IsSpace(s[|s| - 1]) then TrimEnd(s[..|s| - 1]) else s
  }

  /** Python's `s.strip()`. */
  function Strip(s: string): (r: string)
    ensures |r| <= |s|
    ensures r == [] <==> IsBlank(s)
    ensures Unpadded(r)
  {
    var t := TrimStart(s);
    var r := TrimEnd(t);
    assert t != [] ==> t[0] == s[|s| - |t|] && !IsSpace(t[0]);
    assert t[0..] == t;
    assert t == [] ==> s[..|s| - |t|] == s;
    assert r != [] ==> r[0] == t[0];
    r
  }

  lemma {:induction false} TrimStartBlankPrefix(a: string, t: string)
    requires IsBlank(a) && (t == [] || !IsSpace(t[0]))
    ensures TrimStart(a + t) == t
    decreases |a|
  {
    if a != [] {
      assert (a + t)[1..] == a[1..] + t;
      TrimStartBlankPrefix(a[1..], t);
    } else {
      assert a + t == t;
    }
  }

  lemma {:induction false} TrimEndBlankSuffix(t: string, b: string)
    requires IsBlank(b) && (t == [] || !IsSpace(t[|t| - 1]))
    ensures TrimEnd(t + b) == t
    decreases |b|
  {
    if b != [] {
      assert (t + b)[..|t + b| - 1] == t + b[..|b| - 1];
      TrimEndBlankSuffix(t, b[..|b| - 1]);
    } else {
      assert t + b == t;
    }
  }

  /** `strip()` removes exactly the white-space padding: it undoes padding on both sides. */
  lemma StripPadding(a: string, s: string, b: string)
    requires IsBlank(a) && IsBlank(b) && Unpadded(s)
    ensures Strip(a + s + b) == s
  {
    if s == [] {
      assert a + s + b == a + b;
      assert IsBlank(a + b) by {
        forall k | 0 <= k < |a + b| ensures IsSpace((a + b)[k]) {
          if k < |a| { assert (a + b)[k] == a[k]; } else { assert (a + b)[k] == b[k - |a|]; }
        }
      }
    } else {
      assert a + s + b == a + (s + b);
      assert (s + b)[0] == s[0];
      TrimStartBlankPrefix(a, s + b);
      TrimEndBlankSuffix(s, b);
    }
  }

  /** Stripping twice is stripping once. */
  lemma StripIdempotent(s: string)
    ensures Strip(Strip(s)) == Strip(s)
  {
    var r := Strip(s);
    assert [] + r + [] == r;
    StripPadding([], r, []);
  }

  // ----------------------------------------------------------------- join

  /** Python's `sep.join(parts)`. */
  function Join(parts: seq<string>, sep: string): string
  {
    if |parts| == 0 then ""
    else if |parts| == 1 then parts[0]
    else parts[0] + sep + Join(parts[1..], sep)
  }

  /**
   * Python's `s.split(sep)`: the pieces between the leftmost non-overlapping
   * occurrences of `sep`.  Not used by the application; it is the inverse
   * against which `Join` is checked.
   */
  function Split(s: string, sep: string): (r: seq<string>)
    requires sep != []
    ensures |r| >= 1
    decreases |s|
  {
    if |sep| <= |s| && s[..|sep|] == sep then [""] + Split(s[|sep|..], sep)
    else if s == [] then [""]
    else
      var rest := Split(s[1..], sep);
      [[s[0]] + rest[0]] + rest[1..]
  }

  lemma {:induction false} SplitAfterPlainPrefix(a: string, t: string, sep: string)
    requires sep != [] && Excludes(a, sep[0])
    ensures Split(a + t, sep) == [a + Split(t, sep)[0]] + Split(t, sep)[1..]
    decreases |a|
  {
    if a == [] {
      assert a + t == t;
      assert Split(t, sep) == [Split(t, sep)[0]] + Split(t, sep)[1..];
      assert a + Split(t, sep)[0] == Split(t, sep)[0];
    } else {
      var s := a + t;
      assert s[0] == a[0] && s[0] != sep[0];
      assert s[1..] == a[1..] + t;
      SplitAfterPlainPrefix(a[1..], t, sep);
      assert [a[0]] + (a[1..] + Split(t, sep)[0]) == a + Split(t, sep)[0];
    }
  }

  /**
   * Joining names none of which contains the separator's first character and
   * splitting the result again gives back the names.
   */
  lemma {:induction false} SplitJoin(parts: seq<string>, sep: string)
    requires sep != [] && |parts| >= 1
    requires forall i :: 0 <= i < |parts| ==> Excludes(parts[i], sep[0])
    ensures Split(Join(parts, sep), sep) == parts
    decreases |parts|
  {
    if |parts| == 1 {
      assert parts[0] + [] == parts[0];
      SplitAfterPlainPrefix(parts[0], [], sep);
    } else {
      var rest := Join(parts[1..], sep);
      SplitJoin(parts[1..], sep);
      var t := sep + rest;
      assert t[..|sep|] == sep && t[|sep|..] == rest;
      assert Split(t, sep) == [""] + parts[1..];
      assert parts[0] + sep + rest == parts[0] + t;
      SplitAfterPlainPrefix(parts[0], t, sep);
      assert parts[0] + "" == parts[0];
      assert [parts[0]] + parts[1..] == parts;
    }
  }

  // -------------------------------------------------------------- replace

  /** `p` occurs in `s` starting at index `i`. */
  predicate OccursAt(s: string, p: string, i: int) {
    0 <= i && i + |p| <= |s| && s[i..i + |p|] == p
  }

  /** Python's `p in s` for strings. */
  predicate Contains(s: string, p: string) {
    exists i | 0 <= i <= |s| - |p| :: OccursAt(s, p, i)
  }

  /** Python's `s.replace(pat, rep)`: a left-to-right scan replacing non-overlapping occurrences. */
  function ReplaceAll(s: string, pat: string, rep: string): string
    requires pat != []
    decreases |s|
  {
    if |s| < |pat| then s
    else if s[..|pat|] == pat then rep + ReplaceAll(s[|pat|..], pat, rep)
    else [s[0]] + ReplaceAll(s[1..], pat, rep)
  }

  lemma ContainsInSuffix(s: string, p: string, n: nat)
    requires n <= |s| && Contains(s[n..], p)
    ensures Contains(s, p)
  {
    var i :| 0 <= i <= |s[n..]| - |p| && OccursAt(s[n..], p, i);
    assert s[n..][i..i + |p|] == s[n + i..n + i + |p|];
    assert OccursAt(s, p, n + i);
  }

  /** A string with no occurrence of the pattern comes back unchanged. */
  lemma {:induction false} ReplaceAllAbsent(s: string, pat: string, rep: string)
    requires pat != [] && !Contains(s, pat)
    ensures ReplaceAll(s, pat, rep) == s
    decreases |s|
  {
    if |s| >= |pat| {
      assert !OccursAt(s, pat, 0);
      if !Contains(s[1..], pat) {
        ReplaceAllAbsent(s[1..], pat, rep);
        assert [s[0]] + s[1..] == s;
      } else {
        ContainsInSuffix(s, pat, 1);
      }
    }
  }

  /** Characters free of the pattern's first character are copied through. */
  lemma {:induction false} ReplaceAllPlainPrefix(a: string, t: string, pat: string, rep: string)
    requires pat != [] && Excludes(a, pat[0])
    ensures ReplaceAll(a + t, pat, rep) == a + ReplaceAll(t, pat, rep)
    decreases |a|
  {
    if a == [] {
      assert a + t == t;
    } else {
      var s := a + t;
      assert s[0] == a[0];
      if |s| >= |pat| { assert s[..|pat|][0] != pat[0]; }
      assert s[1..] == a[1..] + t;
      ReplaceAllPlainPrefix(a[1..], t, pat, rep);
      assert [a[0]] + (a[1..] + ReplaceAll(t, pat, rep)) == a + ReplaceAll(t, pat, rep);
      if |s| < |pat| {
        // nothing is replaced in a string shorter than the pattern
        assert |t| < |pat|;
      }
    }
  }

  lemma ReplacementComesFirst(t: string, pat: string, rep: string)
    requires pat != [] && rep != [] && |pat| <= |t| && t[..|pat|] == pat
    ensures ReplaceAll(t, pat, rep)[0] == rep[0]
  {
  }

  /**
   * As long as the output shows no first character of the replacement, it is
   * a copy of the input: no replacement has happened yet.
   */
  lemma {:induction false} ReplaceAllCopiedPrefix(t: string, pat: string, rep: string, k: nat)
    requires pat != [] && rep != []
    requires k <= |ReplaceAll(t, pat, rep)|
    requires forall j :: 0 <= j < k ==> ReplaceAll(t, pat, rep)[j] != rep[0]
    ensures k <= |t| && ReplaceAll(t, pat, rep)[..k] == t[..k]
    decreases |t|
  {
    var r := ReplaceAll(t, pat, rep);
    if k > 0 && |t| >= |pat| {
      if t[..|pat|] != pat {
        var rt := ReplaceAll(t[1..], pat, rep);
        assert r == [t[0]] + rt;
        forall j | 0 <= j < k - 1 ensures rt[j] != rep[0] { assert rt[j] == r[j + 1]; }
        ReplaceAllCopiedPrefix(t[1..], pat, rep, k - 1);
        assert r[..k] == [t[0]] + rt[..k - 1];
        assert t[..k] == [t[0]] + t[1..][..k - 1];
      } else {
        ReplacementComesFirst(t, pat, rep);
        assert false;
      }
    }
  }

  lemma OccursInRight(x: string, y: string, q: string, i: int)
    requires OccursAt(x + y, q, i) && i >= |x|
    ensures OccursAt(y, q, i - |x|)
  {
    assert (x + y)[i..i + |q|] == y[i - |x|..i - |x| + |q|];
  }

  /** Whether `rep` begins with `q`'s unique first character and differs from `q` at `d`. */
  predicate Separated(rep: string, q: string, d: nat) {
    && rep != [] && q != []
    && rep[0] == q[0] && Excludes(rep[1..], q[0]) && Excludes(q[1..], q[0])
    && d < |rep| && d < |q| && rep[d] != q[d]
  }

  /** A replacement text cannot start or take part in an occurrence of `q`. */
  lemma AvoidsAfterReplacement(rep: string, rt: string, q: string, d: nat)
    requires Separated(rep, q, d) && !Contains(rt, q)
    ensures !Contains(rep + rt, q)
  {
    var r := rep + rt;
    forall i | 0 <= i <= |r| - |q| && OccursAt(r, q, i) ensures false {
      if i >= |rep| {
        OccursInRight(rep, rt, q, i);
      }
    }
  }

  /** An occurrence of `q` at the front of a scan's output that starts with a copied character was in the input. */
  lemma CopiedOccurrence(c: char, tail: string, pat: string, rep: string, q: string, d: nat)
    requires pat != [] && Separated(rep, q, d)
    requires OccursAt([c] + ReplaceAll(tail, pat, rep), q, 0)
    ensures OccursAt([c] + tail, q, 0)
  {
    var rt := ReplaceAll(tail, pat, rep);
    var r := [c] + rt;
    var k := |q| - 1;
    assert r[..|q|] == q;
    assert rt[..k] == q[1..];
    forall j | 0 <= j < k ensures rt[j] != rep[0] { assert rt[j] == q[1..][j]; }
    ReplaceAllCopiedPrefix(tail, pat, rep, k);
    assert ([c] + tail)[..|q|] == [c] + tail[..k];
  }

  /**
   * After `s.replace(pat, rep)` the string `q` occurs nowhere, provided that
   * every occurrence of `q` in `s` is one the scan replaces (`q` is the
   * pattern itself, or `s` has none) and that `rep` cannot take part in an
   * occurrence of `q` (`Separated`).
   */
  lemma {:induction false} ReplaceAllAvoids(s: string, pat: string, rep: string, q: string, d: nat)
    requires pat != [] && Separated(rep, q, d)
    requires q == pat || !Contains(s, q)
    ensures !Contains(ReplaceAll(s, pat, rep), q)
    decreases |s|
  {
    if |s| < |pat| {
      assert ReplaceAll(s, pat, rep) == s;
    } else if s[..|pat|] == pat {
      var tail := s[|pat|..];
      if q != pat && Contains(tail, q) { ContainsInSuffix(s, q, |pat|); }
      ReplaceAllAvoids(tail, pat, rep, q, d);
      AvoidsAfterReplacement(rep, ReplaceAll(tail, pat, rep), q, d);
    } else {
      var tail := s[1..];
      if q != pat && Contains(tail, q) { ContainsInSuffix(s, q, 1); }
      ReplaceAllAvoids(tail, pat, rep, q, d);
      var rt := ReplaceAll(tail, pat, rep);
      assert s == [s[0]] + tail;
      forall i | 0 <= i <= |rt| + 1 - |q| && OccursAt([s[0]] + rt, q, i) ensures false {
        if i == 0 {
          CopiedOccurrence(s[0], tail, pat, rep, q, d);
        } else {
          OccursInRight([s[0]], rt, q, i);
        }
      }
    }
  }
}
