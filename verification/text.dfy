/** The Python string operations the pipeline relies on, over `string`
    (a sequence of code points): `str.strip`, `str.isdigit`, `in` on
    substrings, `str.replace` of one character, `str.split(sep, 1)`,
    `str.zfill` and `str.lstrip("0")`. */
module Text {
  import opened Wrappers

  /** Python's `str.isspace` for a single code point. */
  predicate IsSpace(c: char) {
    var n := c as int;
    || n == 32 || 9 <= n <= 13 || 28 <= n <= 31 || n == 0x85 || n == 0xA0
    || n == 0x1680 || 0x2000 <= n <= 0x200A || n == 0x2028 || n == 0x2029
    || n == 0x202F || n == 0x205F || n == 0x3000
  }

  predicate AllSpace(s: string) {
    forall i | 0 <= i < |s| :: IsSpace(s[i])
  }

  predicate IsDigit(c: char) {
    '0' <= c <= '9'
  }

  predicate AllDigits(s: string) {
    forall i | 0 <= i < |s| :: IsDigit(s[i])
  }

  /** Python's `str.isdigit`, restricted to ASCII digits: non-empty and
      made of digits only. */
  predicate IsNumeral(s: string) {
    |s| > 0 && AllDigits(s)
  }

  /** Number of whitespace characters at the front of `s`. */
  function LeadingSpace(s: string): (n: nat)
    ensures n <= |s|
    ensures AllSpace(s[..n])
    ensures n < |s| ==> !IsSpace(s[n])
  {
    if |s| == 0 || !IsSpace(s[0]) then 0
    else
      var m := LeadingSpace(s[1..]);
      assert s[..1 + m] == [s[0]] + s[1..][..m];
      1 + m
  }

  /** Number of whitespace characters at the back of `s`. */
  function TrailingSpace(s: string): (n: nat)
    ensures n <= |s|
    ensures AllSpace(s[|s| - n..])
    ensures n < |s| ==> !IsSpace(s[|s| - 1 - n])
  {
    if |s| == 0 || !IsSpace(s[|s| - 1]) then 0
    else
      var t := s[..|s| - 1];
      var m := TrailingSpace(t);
      assert s[|s| - (1 + m)..] == t[|t| - m..] + [s[|s| - 1]];
      1 + m
  }

  /** Python's `str.strip()`: `s` without leading and trailing whitespace. */
  function Strip(s: string): (r: string)
    ensures |r| > 0 ==> !IsSpace(r[0]) && !IsSpace(r[|r| - 1])
    ensures r == [] <==> AllSpace(s)
  {
    var a := LeadingSpace(s);
    var t := s[a..];
    var r := t[..|t| - TrailingSpace(t)];
    assert r == [] ==> s == s[..a] + t[|t| - TrailingSpace(t)..];
    r
  }

  /** The whitespace margins `strip` removes: `s` is the left margin, the
      stripped text and the right margin, in that order. */
  lemma StripMargins(s: string) returns (left: string, right: string)
    ensures AllSpace(left) && AllSpace(right)
    ensures s == left + Strip(s) + right
  {
    var a := LeadingSpace(s);
    var t := s[a..];
    var b := |t| - TrailingSpace(t);
    left := s[..a];
    right := t[b..];
    SplitAt(s, a);
    SplitAt(t, b);
    Assoc(left, t[..b], right);
  }

  lemma Assoc(a: string, b: string, c: string)
    ensures a + b + c == a + (b + c)
  {
  }

  lemma SplitAt(s: string, k: nat)
    requires k <= |s|
    ensures s == s[..k] + s[k..]
  {
  }

  /** Stripping a string padded on both sides by whitespace, around a core
      that neither starts nor ends with whitespace, gives back the core. */
  lemma {:induction false} StripPadded(left: string, core: string, right: string)
    requires AllSpace(left) && AllSpace(right)
    requires |core| > 0 ==> !IsSpace(core[0]) && !IsSpace(core[|core| - 1])
    ensures Strip(left + core + right) == core
  {
    var s := left + core + right;
    if |core| == 0 {
      AllSpaceAppend(left, core);
      AllSpaceAppend(left + core, right);
    } else {
      assert s == left + (core + right);
      LeadingSpaceOfPadded(left, core + right);
      assert s[|left|..] == core + right;
      TrailingSpaceOfPadded(core, right);
      assert (core + right)[..|core|] == core;
    }
  }

  /** A string that neither starts nor ends with whitespace strips to itself. */
  lemma StripUnpadded(s: string)
    requires |s| > 0 ==> !IsSpace(s[0]) && !IsSpace(s[|s| - 1])
    ensures Strip(s) == s
  {
    StripPadded([], s, []);
    assert [] + s + [] == s;
  }

  lemma {:induction false} TrailingSpaceOfPadded(rest: string, right: string)
    requires AllSpace(right)
    requires |rest| > 0 ==> !IsSpace(rest[|rest| - 1])
    ensures TrailingSpace(rest + right) == |right|
    decreases |right|
  {
    if |right| == 0 {
      assert rest + right == rest;
    } else {
      var s := rest + right;
      assert s[..|s| - 1] == rest + right[..|right| - 1];
      TrailingSpaceOfPadded(rest, right[..|right| - 1]);
    }
  }

  lemma {:induction false} LeadingSpaceOfPadded(left: string, rest: string)
    requires AllSpace(left)
    requires |rest| > 0 ==> !IsSpace(rest[0])
    ensures LeadingSpace(left + rest) == |left|
    decreases |left|
  {
    if |left| == 0 {
      assert left + rest == rest;
    } else {
      assert (left + rest)[1..] == left[1..] + rest;
      LeadingSpaceOfPadded(left[1..], rest);
    }
  }

  /** Whitespace added on either side does not change what `strip` returns. */
  lemma StripAbsorbs(left: string, mid: string, right: string)
    requires AllSpace(left) && AllSpace(right)
    ensures Strip(left + mid + right) == Strip(mid)
  {
    var l2, r2 := StripMargins(mid);
    var core := Strip(mid);
    AllSpaceAppend(left, l2);
    AllSpaceAppend(r2, right);
    Regroup(left, l2, core, r2, right);
    StripPadded(left + l2, core, r2 + right);
  }

  lemma Regroup(a: string, b: string, c: string, d: string, e: string)
    ensures a + (b + c + d) + e == (a + b) + c + (d + e)
  {
  }

  lemma AllSpaceAppend(a: string, b: string)
    requires AllSpace(a) && AllSpace(b)
    ensures AllSpace(a + b)
  {
    forall i | 0 <= i < |a + b| ensures IsSpace((a + b)[i]) {
      if i < |a| { assert (a + b)[i] == a[i]; } else { assert (a + b)[i] == b[i - |a|]; }
    }
  }

  /** Python's `sub in s` for strings. */
  predicate Contains(s: string, sub: string)
    decreases |s|
  {
    |sub| <= |s| && (s[..|sub|] == sub || Contains(s[1..], sub))
  }

  /** `sub` occurs in `s` starting at position `i`. */
  predicate OccursAt(s: string, sub: string, i: int) {
    0 <= i <= |s| - |sub| && s[i..i + |sub|] == sub
  }

  /** `sub in s` holds exactly when `sub` occurs at some position of `s`. */
  lemma {:induction false} ContainsAt(s: string, sub: string)
    ensures Contains(s, sub) <==> exists i :: OccursAt(s, sub, i)
    decreases |s|
  {
    if |sub| <= |s| && |s| > 0 {
      var t := s[1..];
      ContainsAt(t, sub);
      if s[..|sub|] == sub {
        assert OccursAt(s, sub, 0);
      } else if Contains(t, sub) {
        var j :| OccursAt(t, sub, j);
        assert s[j + 1..j + 1 + |sub|] == t[j..j + |sub|];
        assert OccursAt(s, sub, j + 1);
      }
      if exists i :: OccursAt(s, sub, i) {
        var i :| OccursAt(s, sub, i);
        if i > 0 {
          assert t[i - 1..i - 1 + |sub|] == s[i..i + |sub|];
          assert OccursAt(t, sub, i - 1);
        }
      }
    } else if |sub| <= |s| {
      assert OccursAt(s, sub, 0);
    }
  }

  /** Stripping never changes whether a pattern occurs, when the pattern
      neither starts nor ends with whitespace. */
  lemma ContainsStripped(s: string, p: string)
    requires |p| > 0 && !IsSpace(p[0]) && !IsSpace(p[|p| - 1])
    ensures Contains(Strip(s), p) <==> Contains(s, p)
  {
    var left, right := StripMargins(s);
    var core := Strip(s);
    ContainsAt(s, p);
    ContainsAt(core, p);
    if Contains(core, p) {
      var j :| OccursAt(core, p, j);
      OccursShift(left, core, right, p, j);
    }
    if Contains(s, p) {
      var i :| OccursAt(s, p, i);
      OccursInCore(left, core, right, p, i);
    }
  }

  lemma OccursShift(left: string, core: string, right: string, p: string, j: int)
    requires OccursAt(core, p, j)
    ensures OccursAt(left + core + right, p, |left| + j)
  {
    var s := left + core + right;
    assert s[|left| + j..|left| + j + |p|] == core[j..j + |p|];
  }

  lemma OccursInCore(left: string, core: string, right: string, p: string, i: int)
    requires AllSpace(left) && AllSpace(right)
    requires |p| > 0 && !IsSpace(p[0]) && !IsSpace(p[|p| - 1])
    requires OccursAt(left + core + right, p, i)
    ensures OccursAt(core, p, i - |left|)
  {
    var s := left + core + right;
    var n := |left|;
    var e := i + |p| - 1;
    assert s[i] == p[0] && s[e] == p[|p| - 1];
    assert n <= i;
    assert e < n + |core|;
    assert core[i - n..e + 1 - n] == s[i..i + |p|];
  }

  /** `s` with every occurrence of `c` deleted (`s.replace(c, "")`). */
  function Remove(s: string, c: char): (r: string)
    ensures |r| <= |s|
    ensures c !in r
    ensures c !in s ==> r == s
  {
    if |s| == 0 then []
    else (if s[0] == c then [] else [s[0]]) + Remove(s[1..], c)
  }

  /** Deleting `c` keeps every other character that occurs, and adds none. */
  lemma {:induction false} RemoveKeeps(s: string, c: char, x: char)
    requires x != c
    ensures x in s <==> x in Remove(s, c)
    decreases |s|
  {
    if |s| > 0 {
      RemoveKeeps(s[1..], c, x);
      assert s == [s[0]] + s[1..];
    }
  }

  lemma {:induction false} RemoveAppend(a: string, b: string, c: char)
    ensures Remove(a + b, c) == Remove(a, c) + Remove(b, c)
    decreases |a|
  {
    if |a| == 0 {
      assert a + b == b;
    } else {
      var head := if a[0] == c then [] else [a[0]];
      assert (a + b)[0] == a[0];
      assert (a + b)[1..] == a[1..] + b;
      RemoveAppend(a[1..], b, c);
      Assoc(head, Remove(a[1..], c), Remove(b, c));
    }
  }

  /** `s` with every `c` turned into `d` (`s.replace(c, d)`). */
  function Replace(s: string, c: char, d: char): (r: string)
    ensures |r| == |s|
    ensures forall i | 0 <= i < |s| :: r[i] == (if s[i] == c then d else s[i])
  {
    if |s| == 0 then []
    else [if s[0] == c then d else s[0]] + Replace(s[1..], c, d)
  }

  lemma {:induction false} ReplaceAppend(a: string, b: string, c: char, d: char)
    ensures Replace(a + b, c, d) == Replace(a, c, d) + Replace(b, c, d)
    decreases |a|
  {
    if |a| == 0 {
      assert a + b == b;
    } else {
      assert (a + b)[1..] == a[1..] + b;
      ReplaceAppend(a[1..], b, c, d);
    }
  }

  lemma ReplaceAbsent(s: string, c: char, d: char)
    requires c !in s
    ensures Replace(s, c, d) == s
  {
  }

  /** Python's `s.split(sep, 1)`: the text before the first `sep` and, when
      there is one, the text after it. Joining the parts back with `sep`
      gives `s` again. */
  function SplitOnce(s: string, sep: char): (r: (string, Option<string>))
    ensures sep !in r.0
    ensures r.1.None? ==> r.0 == s
    ensures r.1.Some? ==> s == r.0 + [sep] + r.1.value
  {
    if |s| == 0 then ([], None)
    else if s[0] == sep then ([], Some(s[1..]))
    else
      var (h, t) := SplitOnce(s[1..], sep);
      ([s[0]] + h, t)
  }

  /** Splitting at a separator that the head does not contain finds the
      head again. */
  lemma {:induction false} SplitOnceAt(h: string, t: string, sep: char)
    requires sep !in h
    ensures SplitOnce(h + [sep] + t, sep) == (h, Some(t))
    decreases |h|
  {
    var s := h + [sep] + t;
    if |h| > 0 {
      assert s[1..] == h[1..] + [sep] + t;
      SplitOnceAt(h[1..], t, sep);
      assert [s[0]] + h[1..] == h;
    } else {
      assert s[1..] == t;
    }
  }

  /** Stripping keeps only characters of the original. */
  lemma StripInside(s: string, c: char)
    requires c !in s
    ensures c !in Strip(s)
  {
    var left, right := StripMargins(s);
    forall i | 0 <= i < |Strip(s)| ensures Strip(s)[i] != c {
      assert Strip(s)[i] == s[|left| + i];
    }
  }

  function Zeros(n: nat): (r: string)
    ensures |r| == n
    ensures forall i | 0 <= i < n :: r[i] == '0'
  {
    if n == 0 then [] else "0" + Zeros(n - 1)
  }

  /** Python's `s.zfill(width)`: pads on the left with zeros up to `width`
      characters, keeping a leading sign in front of the zeros. */
  function ZFill(s: string, width: nat): (r: string)
    ensures |r| == if |s| >= width then |s| else width
    ensures |s| >= width ==> r == s
    ensures |s| < width && AllDigits(s) ==> r == Zeros(width - |s|) + s
  {
    if |s| >= width then s
    else if |s| > 0 && (s[0] == '+' || s[0] == '-') then [s[0]] + Zeros(width - |s|) + s[1..]
    else Zeros(width - |s|) + s
  }

  /** Python's `s.lstrip("0")`. */
  function StripZeros(s: string): (r: string)
    ensures |r| <= |s| && s[|s| - |r|..] == r
    ensures forall i | 0 <= i < |s| - |r| :: s[i] == '0'
    ensures |r| > 0 ==> r[0] != '0'
  {
    if |s| > 0 && s[0] == '0' then StripZeros(s[1..]) else s
  }
}
