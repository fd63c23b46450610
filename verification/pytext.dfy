/**
 * The Python `str` operations the SDK relies on, stated over Dafny strings:
 * `str.isspace`, `str.strip`, `str.lower` (ASCII letters only) and the
 * substring test `sub in s`.
 */
module PyText {

  /** True of exactly the characters for which Python's `str.isspace()` holds. */
  predicate IsSpace(c: char)
  {
    || c == ' '
    || ('\t' <= c <= '\r')
    || ('\U{1C}' <= c <= '\U{1F}')
    || c == '\U{85}' || c == '\U{A0}' || c == '\U{1680}'
    || ('\U{2000}' <= c <= '\U{200A}')
    || c == '\U{2028}' || c == '\U{2029}' || c == '\U{202F}'
    || c == '\U{205F}' || c == '\U{3000}'
  }

  predicate AllSpace(s: string)
  {
    forall i :: 0 <= i < |s| ==> IsSpace(s[i])
  }

  /**
   * `s.strip()`: drops leading and trailing whitespace, one character at a
   * time from the front, then from the back.
   */
  function Strip(s: string): (r: string)
    ensures |r| <= |s|
    ensures r == [] <==> AllSpace(s)
    ensures r != [] ==> !IsSpace(r[0]) && !IsSpace(r[|r| - 1])
    ensures r == s <==> s == [] || (!IsSpace(s[0]) && !IsSpace(s[|s| - 1]))
    ensures forall c :: c in r ==> c in s
    decreases |s|
  {
    if s != [] && IsSpace(s[0]) then
      var r := Strip(s[1..]);
      assert r == [] ==> AllSpace(s) by {
        if r == [] {
          assert forall i :: 1 <= i < |s| ==> s[i] == s[1..][i - 1];
        }
      }
      r
    else if s != [] && IsSpace(s[|s| - 1]) then
      assert s[..|s| - 1] != [] ==> s[..|s| - 1][0] == s[0];
      Strip(s[..|s| - 1])
    else s
  }

  /**
   * `s.strip()` is a slice of `s`: what it cuts off on the left and on the
   * right is whitespace, and the rest is kept as it is.
   */
  lemma {:induction false} StripSlice(s: string) returns (i: nat, j: nat)
    ensures i <= j <= |s|
    ensures Strip(s) == s[i..j]
    ensures AllSpace(s[..i]) && AllSpace(s[j..])
    decreases |s|
  {
    if s != [] && IsSpace(s[0]) {
      var i', j' := StripSlice(s[1..]);
      StripSliceFront(s, i', j');
      i, j := i' + 1, j' + 1;
    } else if s != [] && IsSpace(s[|s| - 1]) {
      i, j := StripSlice(s[..|s| - 1]);
      StripSliceBack(s, i, j);
    } else {
      i, j := 0, |s|;
      assert s[..0] == [] && s[|s|..] == [];
    }
  }

  /** A leading space widens the left cut by one. */
  lemma StripSliceFront(s: string, i: nat, j: nat)
    requires s != [] && IsSpace(s[0]) && i <= j <= |s| - 1
    requires Strip(s[1..]) == s[1..][i..j] && AllSpace(s[1..][..i]) && AllSpace(s[1..][j..])
    ensures Strip(s) == s[i + 1..j + 1] && AllSpace(s[..i + 1]) && AllSpace(s[j + 1..])
  {
    assert s[1..][i..j] == s[i + 1..j + 1];
    assert s[1..][j..] == s[j + 1..];
    AllSpaceCons(s, i);
  }

  lemma AllSpaceCons(s: string, i: nat)
    requires s != [] && IsSpace(s[0]) && i <= |s| - 1 && AllSpace(s[1..][..i])
    ensures AllSpace(s[..i + 1])
  {
    assert s[..i + 1] == [s[0]] + s[1..][..i];
    AllSpaceAppend([s[0]], s[1..][..i]);
  }

  /** A trailing space, once the front is clean, widens the right cut by one. */
  lemma StripSliceBack(s: string, i: nat, j: nat)
    requires s != [] && !IsSpace(s[0]) && IsSpace(s[|s| - 1]) && i <= j <= |s| - 1
    requires var t := s[..|s| - 1]; Strip(t) == t[i..j] && AllSpace(t[..i]) && AllSpace(t[j..])
    ensures Strip(s) == s[i..j] && AllSpace(s[..i]) && AllSpace(s[j..])
  {
    var t := s[..|s| - 1];
    assert t[i..j] == s[i..j];
    assert t[..i] == s[..i];
    assert s[j..] == t[j..] + [s[|s| - 1]];
    AllSpaceAppend(t[j..], [s[|s| - 1]]);
  }

  lemma AllSpaceAppend(a: string, b: string)
    requires AllSpace(a) && AllSpace(b)
    ensures AllSpace(a + b)
  {
    assert forall k :: |a| <= k < |a + b| ==> (a + b)[k] == b[k - |a|];
  }

  /** Stripping twice is stripping once. */
  lemma StripIdempotent(s: string)
    ensures Strip(Strip(s)) == Strip(s)
  {
  }

  lemma {:induction false} StripTrailing(core: string, b: string)
    requires AllSpace(b)
    requires core != [] && !IsSpace(core[0]) && !IsSpace(core[|core| - 1])
    ensures Strip(core + b) == core
    decreases |b|
  {
    if b != [] {
      var s := core + b;
      assert s[0] == core[0];
      assert s[..|s| - 1] == core + b[..|b| - 1];
      StripTrailing(core, b[..|b| - 1]);
    }
  }

  /** Whitespace around a core that neither starts nor ends with whitespace is exactly what `strip` removes. */
  lemma {:induction false} StripPadded(a: string, core: string, b: string)
    requires AllSpace(a) && AllSpace(b)
    requires core != [] && !IsSpace(core[0]) && !IsSpace(core[|core| - 1])
    ensures Strip(a + core + b) == core
    decreases |a|
  {
    if a == [] {
      assert a + core + b == core + b;
      StripTrailing(core, b);
    } else {
      var s := a + core + b;
      assert s[1..] == a[1..] + core + b;
      StripPadded(a[1..], core, b);
    }
  }

  function LowerChar(c: char): char
  {
    if 'A' <= c <= 'Z' then (c as int + 32) as char else c
  }

  /** `s.lower()`, restricted to the ASCII letters. */
  function Lower(s: string): (r: string)
    ensures |r| == |s|
    ensures forall i :: 0 <= i < |s| ==> r[i] == LowerChar(s[i])
  {
    seq(|s|, i requires 0 <= i < |s| => LowerChar(s[i]))
  }

  /** `sub` occurs in `s` starting at index `k`. */
  predicate OccursAt(s: string, sub: string, k: int)
  {
    0 <= k && k + |sub| <= |s| && s[k..k + |sub|] == sub
  }

  function ContainsFrom(s: string, sub: string, from: nat): (b: bool)
    ensures b <==> exists k :: from <= k && OccursAt(s, sub, k)
    decreases |s| - from
  {
    if from + |sub| > |s| then false
    else OccursAt(s, sub, from) || ContainsFrom(s, sub, from + 1)
  }

  /** Python's `sub in s` for two strings. */
  function Contains(s: string, sub: string): (b: bool)
    ensures b <==> exists k :: OccursAt(s, sub, k)
  {
    ContainsFrom(s, sub, 0)
  }

  /** Python's `s.split(sep)` for a one-character separator. */
  function Split(s: string, sep: char): (parts: seq<string>)
    ensures |parts| >= 1
    ensures forall i :: 0 <= i < |parts| ==> sep !in parts[i]
    decreases |s|
  {
    if s == [] then [""]
    else
      var rest := Split(s[1..], sep);
      if s[0] == sep then [""] + rest else [[s[0]] + rest[0]] + rest[1..]
  }

  /** Python's `sep.join(parts)` for a one-character separator. */
  function Join(parts: seq<string>, sep: char): string
    requires |parts| >= 1
    decreases |parts|
  {
    if |parts| == 1 then parts[0] else parts[0] + [sep] + Join(parts[1..], sep)
  }

  /** Appending a part at the end adds the separator and the part. */
  lemma {:induction false} JoinSnoc(parts: seq<string>, last: string, sep: char)
    requires |parts| >= 1
    ensures Join(parts + [last], sep) == Join(parts, sep) + [sep] + last
    decreases |parts|
  {
    if |parts| == 1 {
      assert (parts + [last])[1..] == [last];
    } else {
      assert (parts + [last])[1..] == parts[1..] + [last];
      JoinSnoc(parts[1..], last, sep);
    }
  }

  lemma {:induction false} SplitNoSeparator(l: string, sep: char)
    requires sep !in l
    ensures Split(l, sep) == [l]
    decreases |l|
  {
    if l != [] {
      SplitNoSeparator(l[1..], sep);
      assert [l[0]] + l[1..] == l;
    }
  }

  lemma {:induction false} SplitAtFirst(l: string, sep: char, t: string)
    requires sep !in l
    ensures Split(l + [sep] + t, sep) == [l] + Split(t, sep)
    decreases |l|
  {
    var s := l + [sep] + t;
    if l == [] {
      assert s[1..] == t;
    } else {
      assert s[1..] == l[1..] + [sep] + t;
      SplitAtFirst(l[1..], sep, t);
      assert [l[0]] + l[1..] == l;
    }
  }

  /** Splitting the join of separator-free parts gives the parts back. */
  lemma {:induction false} SplitJoin(parts: seq<string>, sep: char)
    requires |parts| >= 1
    requires forall i :: 0 <= i < |parts| ==> sep !in parts[i]
    ensures Split(Join(parts, sep), sep) == parts
    decreases |parts|
  {
    if |parts| == 1 {
      SplitNoSeparator(parts[0], sep);
    } else {
      SplitJoin(parts[1..], sep);
      SplitAtFirst(parts[0], sep, Join(parts[1..], sep));
      assert [parts[0]] + parts[1..] == parts;
    }
  }

  /** Index of the first `c` in `s`, or `|s|` when there is none (`s.find(c)` with -1 mapped to `|s|`). */
  function Find(s: string, c: char): (i: nat)
    ensures i <= |s|
    ensures i < |s| ==> s[i] == c
    ensures c !in s[..i]
    ensures i == |s| <==> c !in s
    decreases |s|
  {
    if s == [] then 0
    else if s[0] == c then 0
    else
      var j := Find(s[1..], c);
      assert s[..1 + j] == [s[0]] + s[1..][..j];
      1 + j
  }
}
