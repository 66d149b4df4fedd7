/** Python `str` operations on strings modelled as `seq<char>`:
    `find`, `rfind`, `split` with a one-character separator, `startswith`,
    `endswith` (also against a tuple of suffixes) and ASCII `lower`. */
module Text {

  /** `s.startswith(p)` */
  predicate StartsWith(s: string, p: string) {
    |p| <= |s| && s[..|p|] == p
  }

  /** `s.endswith(p)` */
  predicate EndsWith(s: string, p: string) {
    |p| <= |s| && s[|s| - |p|..] == p
  }

  /** `s.endswith(suffixes)` for a tuple of suffixes: any one of them. */
  predicate EndsWithAny(s: string, suffixes: seq<string>) {
    exists i :: 0 <= i < |suffixes| && EndsWith(s, suffixes[i])
  }

  /** `s.find(c, k)`: the first index from `k` on holding `c`, or -1. */
  function FindFrom(s: string, c: char, k: nat): (i: int)
    requires k <= |s|
    ensures i == -1 || (k <= i < |s| && s[i] == c)
    ensures forall j :: k <= j < |s| && (i == -1 || j < i) ==> s[j] != c
    decreases |s| - k
  {
    if k == |s| then -1 else if s[k] == c then k else FindFrom(s, c, k + 1)
  }

  /** `s.find(c)`: the first index holding `c`, or -1. */
  function FirstIndex(s: string, c: char): (i: int)
    ensures -1 <= i < |s|
    ensures i == -1 <==> c !in s
    ensures i >= 0 ==> s[i] == c && c !in s[..i]
  {
    FindFrom(s, c, 0)
  }

  /** `s.rfind(c, 0, n)`: the last index below `n` holding `c`, or -1. */
  function FindBelow(s: string, c: char, n: nat): (i: int)
    requires n <= |s|
    ensures -1 <= i < n
    ensures i >= 0 ==> s[i] == c
    ensures forall j :: i < j < n ==> s[j] != c
    decreases n
  {
    if n == 0 then -1 else if s[n - 1] == c then n - 1 else FindBelow(s, c, n - 1)
  }

  /** `s.rfind(c)`: the last index holding `c`, or -1. */
  function LastIndex(s: string, c: char): (i: int)
    ensures -1 <= i < |s|
    ensures i == -1 <==> c !in s
    ensures i >= 0 ==> s[i] == c && c !in s[i + 1..]
    ensures forall j :: i < j < |s| ==> s[j] != c
  {
    FindBelow(s, c, |s|)
  }

  /** Any index holding `c` with no `c` after it is the one `LastIndex` returns. */
  lemma LastIndexUnique(s: string, c: char, i: int)
    requires 0 <= i < |s| && s[i] == c && c !in s[i + 1..]
    ensures LastIndex(s, c) == i
  {
    assert forall j :: i < j < |s| ==> s[j] == s[i + 1..][j - i - 1];
  }

  /** The last occurrence of `c` in `a + b` lies in `b` when `b` holds one. */
  lemma LastIndexAppendRight(a: string, b: string, c: char)
    requires c in b
    ensures LastIndex(a + b, c) == |a| + LastIndex(b, c)
  {
    var k := LastIndex(b, c);
    assert (a + b)[|a| + k] == c;
    assert forall j :: |a| <= j < |a + b| ==> (a + b)[j] == b[j - |a|];
  }

  /** Otherwise it is the last occurrence in `a`, if any. */
  lemma LastIndexAppendLeft(a: string, b: string, c: char)
    requires c !in b
    ensures LastIndex(a + b, c) == LastIndex(a, c)
  {
    assert forall j :: |a| <= j < |a + b| ==> (a + b)[j] == b[j - |a|];
    assert forall j :: 0 <= j < |a| ==> (a + b)[j] == a[j];
  }

  /** `sep.join(parts)` with a one-character separator. */
  function Join(parts: seq<string>, sep: char): string
    requires |parts| >= 1
  {
    if |parts| == 1 then parts[0] else parts[0] + [sep] + Join(parts[1..], sep)
  }

  /** The pieces of `s[k..]` between occurrences of `sep`. */
  function SplitFrom(s: string, sep: char, k: nat): (parts: seq<string>)
    requires k <= |s|
    ensures |parts| >= 1
    decreases |s| - k
  {
    var j := FindFrom(s, sep, k);
    if j == -1 then [s[k..]] else [s[k..j]] + SplitFrom(s, sep, j + 1)
  }

  /** No piece of `s[k..]`'s split holds `sep`. */
  lemma {:induction false} SplitFromPiecesFree(s: string, sep: char, k: nat)
    requires k <= |s|
    ensures forall m :: 0 <= m < |SplitFrom(s, sep, k)| ==> sep !in SplitFrom(s, sep, k)[m]
    decreases |s| - k
  {
    var j := FindFrom(s, sep, k);
    var parts := SplitFrom(s, sep, k);
    if j == -1 {
      assert parts == [s[k..]];
      assert forall x :: 0 <= x < |s| - k ==> s[k..][x] == s[k + x];
    } else {
      var rest := SplitFrom(s, sep, j + 1);
      assert parts[0] == s[k..j] && parts[1..] == rest;
      assert forall x :: 0 <= x < j - k ==> s[k..j][x] == s[k + x];
      SplitFromPiecesFree(s, sep, j + 1);
      forall m | 1 <= m < |parts| ensures sep !in parts[m] {
        assert parts[m] == rest[m - 1];
      }
    }
  }

  /** `s[k..]` is the text before `j`, the character at `j` and the rest. */
  lemma SliceAround(s: string, k: nat, j: nat)
    requires k <= j < |s|
    ensures s[k..] == s[k..j] + [s[j]] + s[j + 1..]
  {
  }

  /** Joining the pieces of `s[k..]` with `sep` gives `s[k..]` back. */
  lemma {:induction false} JoinSplitFrom(s: string, sep: char, k: nat)
    requires k <= |s|
    ensures Join(SplitFrom(s, sep, k), sep) == s[k..]
    decreases |s| - k
  {
    var j := FindFrom(s, sep, k);
    if j != -1 {
      var rest := SplitFrom(s, sep, j + 1);
      var parts := SplitFrom(s, sep, k);
      assert parts[0] == s[k..j] && parts[1..] == rest;
      JoinSplitFrom(s, sep, j + 1);
      SliceAround(s, k, j);
    }
  }

  /** `s.split(sep)`: the pieces between occurrences of `sep`. There is always
      at least one piece, no piece holds `sep`, and joining the pieces with
      `sep` gives `s` back; together these fix the pieces. */
  function Split(s: string, sep: char): (parts: seq<string>)
    ensures |parts| >= 1
    ensures forall m :: 0 <= m < |parts| ==> sep !in parts[m]
    ensures Join(parts, sep) == s
  {
    SplitFromPiecesFree(s, sep, 0);
    JoinSplitFrom(s, sep, 0);
    assert s[0..] == s;
    SplitFrom(s, sep, 0)
  }

  /** `s.split(c)[0]` is the text before the first `c`. */
  lemma SplitHead(s: string, c: char)
    ensures var i := FirstIndex(s, c);
      Split(s, c)[0] == if i == -1 then s else s[..i]
  {
  }

  /** The last piece of `s[k..]`'s split starts after the last `c`, or at
      `k` when no `c` lies at or after `k`. */
  lemma {:induction false} SplitFromLast(s: string, c: char, k: nat)
    requires k <= |s|
    ensures var parts := SplitFrom(s, c, k);
      var l := LastIndex(s, c);
      parts[|parts| - 1] == if l < k then s[k..] else s[l + 1..]
    decreases |s| - k
  {
    var j := FindFrom(s, c, k);
    var l := LastIndex(s, c);
    var parts := SplitFrom(s, c, k);
    if j == -1 {
      assert parts == [s[k..]];
    } else {
      var rest := SplitFrom(s, c, j + 1);
      assert parts[1..] == rest;
      assert parts[|parts| - 1] == rest[|rest| - 1];
      SplitFromLast(s, c, j + 1);
    }
  }

  /** `s.split(c)[-1]` is the text after the last `c`. */
  lemma SplitLast(s: string, c: char)
    ensures var parts := Split(s, c);
      parts[|parts| - 1] == s[LastIndex(s, c) + 1..]
  {
    var l := LastIndex(s, c);
    SplitFromLast(s, c, 0);
    assert Split(s, c) == SplitFrom(s, c, 0);
    assert l < 0 ==> s[0..] == s[l + 1..];
  }

  /** ASCII lower-casing of one character. */
  function LowerChar(c: char): char {
    if 'A' <= c <= 'Z' then (c as int - 'A' as int + 'a' as int) as char else c
  }

  /** `s.lower()`, restricted to the ASCII letters. */
  function Lower(s: string): (r: string)
    ensures |r| == |s|
    ensures forall i :: 0 <= i < |s| ==> r[i] == LowerChar(s[i])
    ensures forall i :: 0 <= i < |r| ==> !('A' <= r[i] <= 'Z')
    ensures forall i :: 0 <= i < |s| ==>
      r[i] == s[i] || ('A' <= s[i] <= 'Z' && r[i] as int == s[i] as int + 32)
  {
    seq(|s|, i requires 0 <= i < |s| => LowerChar(s[i]))
  }

  /** Lower-casing twice is lower-casing once. */
  lemma LowerIdempotent(s: string)
    ensures Lower(Lower(s)) == Lower(s)
  {
  }

  /** Lower-casing commutes with taking a suffix. */
  lemma LowerSuffix(s: string, k: nat)
    requires k <= |s|
    ensures Lower(s)[k..] == Lower(s[k..])
  {
  }
}
