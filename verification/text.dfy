/** The handful of Python `str` operations the server relies on, over
    `string` (= `seq<char>`): `isspace`, `strip`, single-character
    `replace(c, "")`, ASCII `lower`, `in` and `split`, with the
    first-separator search inside `split` and `join` as its inverse. */
module Text {

  /** The characters for which Python's `str.isspace()` holds: TAB..CR,
      the separators 0x1C..0x1F, SPACE, NEL, NBSP, OGHAM SPACE MARK, EN
      QUAD..HAIR SPACE, LINE and PARAGRAPH SEPARATOR, NNBSP, MMSP and
      IDEOGRAPHIC SPACE. */
  const PythonSpace: set<char> := {
      '\U{9}', '\U{A}', '\U{B}', '\U{C}', '\U{D}', '\U{1C}', '\U{1D}', '\U{1E}',
      '\U{1F}', '\U{20}', '\U{85}', '\U{A0}', '\U{1680}', '\U{2000}', '\U{2001}', '\U{2002}',
      '\U{2003}', '\U{2004}', '\U{2005}', '\U{2006}', '\U{2007}', '\U{2008}', '\U{2009}', '\U{200A}',
      '\U{2028}', '\U{2029}', '\U{202F}', '\U{205F}', '\U{3000}'
  }

  predicate IsSpace(c: char) {
    c in PythonSpace
  }

  /** Every character of `s` in positions `lo..hi` belongs to `cs`. */
  predicate AllIn(s: string, lo: int, hi: int, cs: set<char>)
    requires 0 <= lo <= hi <= |s|
  {
    forall i :: lo <= i < hi ==> s[i] in cs
  }

  /** Where `s.lstrip(cs)` starts: the first position from `lo` on whose
      character is not in `cs`, or `|s|`. */
  function SkipStart(s: string, cs: set<char>, lo: nat): (k: nat)
    requires lo <= |s|
    ensures lo <= k <= |s|
    ensures AllIn(s, lo, k, cs)
    ensures k == |s| || s[k] !in cs
    decreases |s| - lo
  {
    if lo < |s| && s[lo] in cs then SkipStart(s, cs, lo + 1) else lo
  }

  /** Where `s.rstrip(cs)` ends, not looking below `lo`: the last position
      whose character is not in `cs`, plus one, or `lo`. */
  function SkipEnd(s: string, cs: set<char>, lo: nat, hi: nat): (j: nat)
    requires lo <= hi <= |s|
    ensures lo <= j <= hi
    ensures AllIn(s, j, hi, cs)
    ensures j == lo || s[j - 1] !in cs
    decreases hi
  {
    if lo < hi && s[hi - 1] in cs then SkipEnd(s, cs, lo, hi - 1) else hi
  }

  /** `s.strip(cs)`: the infix of `s` left once the longest prefix and the
      longest suffix made of characters of `cs` are removed. */
  function Trim(s: string, cs: set<char>): (r: string)
    ensures |r| <= |s|
    ensures r == [] || (r[0] !in cs && r[|r| - 1] !in cs)
    ensures AllIn(s, 0, TrimOffset(s, cs), cs)
    ensures TrimOffset(s, cs) + |r| <= |s|
    ensures AllIn(s, TrimOffset(s, cs) + |r|, |s|, cs)
    ensures r == s[TrimOffset(s, cs)..TrimOffset(s, cs) + |r|]
  {
    var k := SkipStart(s, cs, 0);
    var j := SkipEnd(s, cs, k, |s|);
    s[k..j]
  }

  /** How many characters `Trim` removes at the front. */
  function TrimOffset(s: string, cs: set<char>): (k: nat)
    ensures k <= |s|
  {
    SkipStart(s, cs, 0)
  }

  /** A text whose ends are not in `cs` is its own trim. */
  lemma TrimTrimmed(s: string, cs: set<char>)
    requires s == [] || (s[0] !in cs && s[|s| - 1] !in cs)
    ensures Trim(s, cs) == s
  {
  }

  /** Trimming twice is trimming once. */
  lemma TrimIdempotent(s: string, cs: set<char>)
    ensures Trim(Trim(s, cs), cs) == Trim(s, cs)
  {
    TrimTrimmed(Trim(s, cs), cs);
  }

  /** `s.strip()`: white space removed at both ends. */
  function Strip(s: string): (r: string)
    ensures |r| <= |s|
    ensures r == [] || (!IsSpace(r[0]) && !IsSpace(r[|r| - 1]))
  {
    Trim(s, PythonSpace)
  }

  /** `s.replace(c, "")` for a single character `c`: every `c` deleted, every
      other character kept, in order. */
  function Delete(s: string, c: char): (r: string)
    ensures c !in r
    ensures |r| <= |s|
    ensures |s| > 0 && s[0] != c ==> |r| > 0 && r[0] == s[0]
    ensures |s| > 0 && s[|s| - 1] != c ==> |r| > 0 && r[|r| - 1] == s[|s| - 1]
  {
    if s == [] then []
    else
      assert s == [s[0]] + s[1..];
      (if s[0] == c then [] else [s[0]]) + Delete(s[1..], c)
  }

  /** Deletion keeps every other character as often as it occurs. */
  lemma {:induction false} DeleteCounts(s: string, c: char, d: char)
    requires d != c
    ensures multiset(Delete(s, c))[d] == multiset(s)[d]
  {
    if s != [] {
      var head: string := if s[0] == c then [] else [s[0]];
      assert s == [s[0]] + s[1..];
      assert Delete(s, c) == head + Delete(s[1..], c);
      assert multiset(head)[d] == multiset([s[0]])[d];
      DeleteCounts(s[1..], c, d);
    }
  }

  /** Deletion adds no character. */
  lemma {:induction false} DeleteKeepsAbsent(s: string, c: char, d: char)
    requires d !in s
    ensures d !in Delete(s, c)
  {
    if s != [] {
      DeleteKeepsAbsent(s[1..], c, d);
    }
  }

  /** Concatenation is associative. */
  lemma ConcatAssoc(x: string, y: string, z: string)
    ensures x + (y + z) == (x + y) + z
  {
  }

  /** The first step of deleting from `a + b` with `a` non-empty. */
  lemma DeleteConsAppend(a: string, b: string, c: char)
    requires a != []
    ensures Delete(a + b, c) == (if a[0] == c then [] else [a[0]]) + Delete(a[1..] + b, c)
  {
    assert (a + b)[0] == a[0];
    assert (a + b)[1..] == a[1..] + b;
  }

  /** Deletion distributes over concatenation, so it keeps the order of the
      characters it does not delete. */
  lemma {:induction false} DeleteAppend(a: string, b: string, c: char)
    ensures Delete(a + b, c) == Delete(a, c) + Delete(b, c)
  {
    if a == [] {
      assert a + b == b;
    } else {
      var head: string := if a[0] == c then [] else [a[0]];
      DeleteConsAppend(a, b, c);
      DeleteAppend(a[1..], b, c);
      ConcatAssoc(head, Delete(a[1..], c), Delete(b, c));
    }
  }

  /** One-pass removal of every character of `cs`: the reference for a chain
      of single-character deletions. */
  function Filter(s: string, cs: set<char>): string {
    if s == [] then [] else (if s[0] in cs then [] else [s[0]]) + Filter(s[1..], cs)
  }

  /** Deleting `c` after filtering `cs` is filtering `cs + {c}`. */
  lemma {:induction false} DeleteAfterFilter(s: string, cs: set<char>, c: char)
    ensures Delete(Filter(s, cs), c) == Filter(s, cs + {c})
  {
    if s != [] {
      var head: string := if s[0] in cs then [] else [s[0]];
      DeleteAppend(head, Filter(s[1..], cs), c);
      DeleteAfterFilter(s[1..], cs, c);
    }
  }

  /** A single deletion is a filter by a singleton set. */
  lemma {:induction false} DeleteIsFilter(s: string, c: char)
    ensures Delete(s, c) == Filter(s, {c})
  {
    if s != [] {
      DeleteIsFilter(s[1..], c);
    }
  }

  /** Python's `str.lower()` restricted to ASCII: 'A'..'Z' map to 'a'..'z'. */
  function LowerChar(c: char): char {
    if 'A' <= c <= 'Z' then (c as int + 32) as char else c
  }

  function Lower(s: string): (r: string)
    ensures |r| == |s|
    ensures forall i :: 0 <= i < |s| ==> r[i] == LowerChar(s[i])
  {
    seq(|s|, i requires 0 <= i < |s| => LowerChar(s[i]))
  }

  /** Python's `p in s` for strings: `p` occurs somewhere in `s`. */
  predicate Contains(s: string, p: string)
    decreases |s|
  {
    p <= s || (|s| > 0 && Contains(s[1..], p))
  }

  /** `p` occurs in `s` starting at index `i`. */
  predicate OccursAt(s: string, p: string, i: int) {
    0 <= i <= |s| - |p| && s[i..i + |p|] == p
  }

  /** `Contains` holds exactly when some window of `s` equals `p`. */
  lemma {:induction false} ContainsAt(s: string, p: string)
    ensures Contains(s, p) <==> exists i :: OccursAt(s, p, i)
  {
    if p <= s {
      assert OccursAt(s, p, 0);
    } else if |s| > 0 {
      ContainsAt(s[1..], p);
      if Contains(s[1..], p) {
        var j :| OccursAt(s[1..], p, j);
        OccursShift(s, p, j + 1);
      }
      if i :| OccursAt(s, p, i) {
        assert i != 0;
        OccursShift(s, p, i);
      }
    }
  }

  /** An occurrence at `i > 0` is one at `i - 1` in the tail, and back. */
  lemma OccursShift(s: string, p: string, i: int)
    requires 0 < i && |s| > 0
    ensures OccursAt(s, p, i) <==> OccursAt(s[1..], p, i - 1)
  {
    if i <= |s| - |p| {
      assert s[1..][i - 1..i - 1 + |p|] == s[i..i + |p|];
    }
  }

  /** The search `split` performs for its next cut: the index of the first
      occurrence of `c`, or -1 when there is none. */
  function Find(s: string, c: char): (r: int)
    ensures -1 <= r < |s|
    ensures r == -1 <==> c !in s
    ensures r >= 0 ==> s[r] == c && forall j :: 0 <= j < r ==> s[j] != c
  {
    FindFrom(s, c, 0)
  }

  /** The index of the first `c` at or after `i`, or -1 when there is none. */
  function FindFrom(s: string, c: char, i: nat): (r: int)
    requires i <= |s|
    ensures r == -1 || i <= r < |s|
    ensures r == -1 <==> forall j :: i <= j < |s| ==> s[j] != c
    ensures r >= 0 ==> s[r] == c && forall j :: i <= j < r ==> s[j] != c
    decreases |s| - i
  {
    if i == |s| then -1
    else if s[i] == c then i
    else FindFrom(s, c, i + 1)
  }

  /** The first occurrence is where the separator is and nothing before it is. */
  lemma FindAt(s: string, c: char, k: nat)
    requires k < |s| && s[k] == c && c !in s[..k]
    ensures Find(s, c) == k
  {
    assert forall j :: 0 <= j < k ==> s[j] == s[..k][j];
  }

  /** Python's `sep.join(parts)` for a one-character separator. */
  function Join(parts: seq<string>, sep: char): string {
    if |parts| == 0 then []
    else if |parts| == 1 then parts[0]
    else parts[0] + [sep] + Join(parts[1..], sep)
  }

  /** Python's `s.split(sep)` for a one-character separator: the pieces
      between consecutive separators, never fewer than one. */
  function Split(s: string, sep: char): (r: seq<string>)
    ensures |r| >= 1
    ensures forall p :: p in r ==> sep !in p
    ensures |r[0]| <= |s| && r[0] == s[..|r[0]|] && (|r[0]| == |s| || s[|r[0]|] == sep)
    ensures |r| == 1 <==> sep !in s
    decreases |s|
  {
    var k := Find(s, sep);
    if k == -1 then [s]
    else
      var head := s[..k];
      assert sep !in head by {
        assert forall j :: 0 <= j < k ==> head[j] == s[j];
      }
      var rest := Split(s[k + 1..], sep);
      [head] + rest
  }

  /** Python's `s.split(sep, 1)`: at most one cut, at the first separator. */
  function SplitOnce(s: string, sep: char): (r: seq<string>)
    ensures 1 <= |r| <= 2
    ensures sep !in r[0]
    ensures |r| == 1 <==> sep !in s
    ensures |r| == 1 ==> r[0] == s
    ensures |r| == 2 ==> s == r[0] + [sep] + r[1]
  {
    var k := Find(s, sep);
    if k == -1 then [s]
    else
      assert s == s[..k] + [sep] + s[k + 1..];
      [s[..k], s[k + 1..]]
  }

  /** A split cuts first at the first separator. */
  lemma SplitFirst(s: string, sep: char, k: nat)
    requires k < |s| && s[k] == sep && sep !in s[..k]
    ensures Split(s, sep) == [s[..k]] + Split(s[k + 1..], sep)
  {
    FindAt(s, sep, k);
    SplitCut(s, sep);
  }

  /** One step of a split: the piece before the first separator, then the
      split of what follows it. */
  lemma SplitCut(s: string, sep: char)
    requires sep in s
    ensures Split(s, sep) == [s[..Find(s, sep)]] + Split(s[Find(s, sep) + 1..], sep)
  {
  }

  /** The separator after the first piece of a join is its first one. */
  lemma JoinFirst(p: string, rest: string, sep: char)
    requires sep !in p
    ensures Split(p + [sep] + rest, sep) == [p] + Split(rest, sep)
  {
    var s := p + [sep] + rest;
    assert s[..|p|] == p;
    assert s[|p| + 1..] == rest;
    SplitFirst(s, sep, |p|);
  }

  /** Splitting a join of separator-free pieces gives the pieces back. */
  lemma {:induction false} SplitJoin(parts: seq<string>, sep: char)
    requires |parts| >= 1
    requires forall p :: p in parts ==> sep !in p
    ensures Split(Join(parts, sep), sep) == parts
    decreases |parts|
  {
    if |parts| == 1 {
      assert sep !in parts[0];
    } else {
      var rest := parts[1..];
      assert parts[0] in parts;
      JoinSplitStep(parts, sep);
      SplitJoin(rest, sep);
      assert parts == [parts[0]] + rest;
    }
  }

  /** Splitting a join peels off its first piece. */
  lemma JoinSplitStep(parts: seq<string>, sep: char)
    requires |parts| >= 2 && sep !in parts[0]
    ensures Split(Join(parts, sep), sep) == [parts[0]] + Split(Join(parts[1..], sep), sep)
  {
    JoinFirst(parts[0], Join(parts[1..], sep), sep);
  }
}
