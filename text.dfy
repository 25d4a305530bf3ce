/** String helpers shared by the recognisers: occurrence tests, ASCII case
    mapping, decimal rendering and a leftmost-first search over positions
    (the way Python's `re.search` tries start positions). */
module Text {
  import opened Wrappers

  predicate IsDigit(c: char) { '0' <= c <= '9' }

  /** `sub` occurs in `s` starting at index `i`. */
  predicate OccursAt(s: string, sub: string, i: nat) {
    i + |sub| <= |s| && s[i..i + |sub|] == sub
  }

  predicate StartsWith(s: string, prefix: string) { OccursAt(s, prefix, 0) }

  /** Python's `sub in s` on strings. */
  predicate Contains(s: string, sub: string) {
    exists i: nat | i <= |s| :: OccursAt(s, sub, i)
  }

  lemma ContainsMiddle(a: string, sub: string, b: string)
    ensures Contains(a + sub + b, sub)
  {
    assert OccursAt(a + sub + b, sub, |a|);
  }

  /** A word whose first letter the head never holds occurs in `head + s`
      exactly when it occurs in `s`. */
  lemma {:induction false} ContainsAfterHead(head: string, s: string, word: string)
    requires |word| > 0
    requires forall k :: 0 <= k < |head| ==> head[k] != word[0]
    ensures Contains(head + s, word) <==> Contains(s, word)
  {
    var r := head + s;
    if Contains(s, word) {
      var i: nat :| i <= |s| && OccursAt(s, word, i);
      assert r[|head| + i..|head| + i + |word|] == s[i..i + |word|];
      assert OccursAt(r, word, |head| + i);
    }
    if Contains(r, word) {
      var i: nat :| i <= |r| && OccursAt(r, word, i);
      assert r[i] == word[0];
      assert i >= |head|;
      assert s[i - |head|..i - |head| + |word|] == r[i..i + |word|];
      assert OccursAt(s, word, i - |head|);
    }
  }

  /** `s.find(c)`: the first index holding `c`, or -1. */
  function IndexOf(s: string, c: char): (r: int)
    ensures -1 <= r < |s|
    ensures r >= 0 ==> s[r] == c
    ensures forall k :: 0 <= k < |s| && (r < 0 || k < r) ==> s[k] != c
  {
    if |s| == 0 then -1
    else if s[0] == c then 0
    else
      var r := IndexOf(s[1..], c);
      if r < 0 then -1 else r + 1
  }

  /** `str.lower()` restricted to ASCII letters. */
  function LowerChar(c: char): char {
    if 'A' <= c <= 'Z' then (c as int - 'A' as int + 'a' as int) as char else c
  }

  function Lower(s: string): (r: string)
    ensures |r| == |s|
    ensures forall k :: 0 <= k < |s| ==> r[k] == LowerChar(s[k])
  {
    seq(|s|, k requires 0 <= k < |s| => LowerChar(s[k]))
  }

  function DigitChar(d: nat): char
    requires d < 10
  {
    ('0' as int + d) as char
  }

  /** The number a run of decimal digits denotes. */
  function DigitsValue(s: string): nat
    requires forall k :: 0 <= k < |s| ==> IsDigit(s[k])
  {
    if s == [] then 0
    else
      var c := s[|s| - 1];
      assert IsDigit(c);
      10 * DigitsValue(s[..|s| - 1]) + (c as int - '0' as int)
  }

  /** `str(n)` for a natural number: digits that denote `n`, with no
      leading zero unless `n` is zero. */
  function NatToString(n: nat): (r: string)
    ensures |r| > 0 && forall k :: 0 <= k < |r| ==> IsDigit(r[k])
    ensures DigitsValue(r) == n
    ensures r[0] == '0' ==> n == 0
  {
    if n < 10 then [DigitChar(n)]
    else
      var r := NatToString(n / 10) + [DigitChar(n % 10)];
      assert r[..|r| - 1] == NatToString(n / 10);
      r
  }

  /** `str(i)` for an integer: a minus sign exactly when `i` is negative,
      then the digits of its magnitude. */
  function IntToString(i: int): (r: string)
    ensures |r| > 0 && (r[0] == '-' || IsDigit(r[0]))
    ensures forall k :: 1 <= k < |r| ==> IsDigit(r[k])
    ensures r[0] == '-' <==> i < 0
    ensures DigitsValue(if i < 0 then r[1..] else r) == if i < 0 then -i else i
  {
    if i < 0 then
      var r := "-" + NatToString(-i);
      assert r[1..] == NatToString(-i);
      r
    else NatToString(i)
  }

  /** The leftmost position `k` in `i..n` at which `m(k)` matches, with the
      match; positions are tried in increasing order, as `re.search` does. */
  function FirstMatch<T>(m: nat -> Option<T>, i: nat, n: nat): (r: Option<(nat, T)>)
    decreases n + 1 - i
    ensures r.None? ==> forall k: nat :: i <= k <= n ==> m(k).None?
    ensures r.Some? ==> i <= r.value.0 <= n && m(r.value.0) == Some(r.value.1)
    ensures r.Some? ==> forall k: nat :: i <= k < r.value.0 ==> m(k).None?
  {
    if i > n then None
    else if m(i).Some? then Some((i, m(i).value))
    else FirstMatch(m, i + 1, n)
  }

  /** A match with no match to its left is the one the search finds. */
  lemma FirstMatchIsLeftmost<T>(m: nat -> Option<T>, n: nat, i: nat)
    requires i <= n && m(i).Some?
    requires forall k: nat :: k < i ==> m(k).None?
    ensures FirstMatch(m, 0, n) == Some((i, m(i).value))
  {
  }

  /** A prefix one longer is the shorter prefix and the next element. */
  lemma PrefixSnoc<T>(s: seq<T>, i: nat)
    requires i < |s|
    ensures s[..i + 1] == s[..i] + [s[i]]
  {
  }

  lemma PrefixWhole<T>(s: seq<T>)
    ensures s[..|s|] == s
  {
  }

  /** A fully done sequence has nothing pending. */
  lemma SpliceDone<T>(done: seq<T>, pending: seq<T>)
    requires |done| == |pending|
    ensures done[..|done|] + pending[|done|..] == done
  {
  }

  /** Overwriting the first pending element of a half-done sequence with its
      finished value moves the boundary one step. */
  lemma SpliceStep<T>(done: seq<T>, pending: seq<T>, i: nat, x: T)
    requires i < |done| == |pending| && x == done[i]
    ensures (done[..i] + pending[i..])[i := x] == done[..i + 1] + pending[i + 1..]
  {
  }
}
