/**
 Streaming Knuth-Morris-Pratt search: the failure table and the one-pass scan.
 */
module Kmp {

  /** The first k characters of s are also its last k, and k is less than the length. */
  ghost predicate IsBorder<T>(s: seq<T>, k: int) {
    0 <= k < |s| && s[..k] == s[|s| - k..]
  }

  ghost predicate BordersAtMost<T>(s: seq<T>, bound: int) {
    forall k :: IsBorder(s, k) ==> k <= bound
  }

  ghost predicate IsLongestBorder<T>(s: seq<T>, v: int) {
    IsBorder(s, v) && BordersAtMost(s, v)
  }

  /** lps[..n] holds the longest proper border of every prefix. */
  ghost predicate IsTable<T>(pattern: seq<T>, lps: seq<int>, n: nat) {
    n <= |pattern| && n <= |lps| && forall i :: 0 <= i < n ==> IsLongestBorder(pattern[..i + 1], lps[i])
  }

  lemma BorderShrinks<T>(s: seq<T>, c: T, k: nat)
    requires IsBorder(s + [c], k + 1)
    ensures IsBorder(s, k) && s[k] == c
  {
    var t := s + [c];
    assert t[k] == t[..k + 1][k] == t[|t| - (k + 1)..][k] == t[|t| - 1] == c;
    forall i | 0 <= i < k
      ensures s[i] == s[|s| - k + i]
    {
      assert t[..k + 1][i] == t[|t| - (k + 1)..][i];
    }
  }

  lemma BorderGrows<T>(s: seq<T>, c: T, k: nat)
    requires IsBorder(s, k) && s[k] == c
    ensures IsBorder(s + [c], k + 1)
  {
    var t := s + [c];
    assert t[..k + 1] == s[..k] + [c] == s[|s| - k..] + [c] == t[|t| - (k + 1)..];
  }

  /** Of two borders, the shorter is a border of the longer. */
  lemma BorderOfBorder<T>(s: seq<T>, len: nat, k: nat)
    requires IsBorder(s, len) && IsBorder(s, k) && k < len
    ensures IsBorder(s[..len], k)
  {
    forall i | 0 <= i < k
      ensures s[..len][i] == s[..len][len - k + i]
    {
      assert s[..k][i] == s[|s| - k..][i];
      assert s[..len][len - k + i] == s[|s| - len..][len - k + i];
    }
  }

  lemma BorderOfBorderBack<T>(s: seq<T>, len: nat, k: nat)
    requires IsBorder(s, len) && IsBorder(s[..len], k)
    ensures IsBorder(s, k)
  {
    forall i | 0 <= i < k
      ensures s[i] == s[|s| - k + i]
    {
      assert s[..len][..k][i] == s[..len][len - k..][i];
      assert s[..len][len - k + i] == s[|s| - len..][len - k + i];
    }
  }

  method ComputeLps<T(==)>(pattern: seq<T>, lps: array<int>)
    requires pattern != [] && lps.Length == |pattern|
    modifies lps
    ensures IsTable(pattern, lps[..], |pattern|)
  {
    var len := 0;
    lps[0] := 0;
    assert IsLongestBorder(pattern[..1], 0);
    var i := 1;
    while i < |pattern|
      invariant 1 <= i <= |pattern| && IsBorder(pattern[..i], len)
      invariant IsTable(pattern, lps[..], i)
      invariant i < |pattern| ==> BordersAtMost(pattern[..i + 1], len + 1)
      decreases |pattern| - i, len
    {
      var s, c := pattern[..i], pattern[i];
      assert s + [c] == pattern[..i + 1];
      if pattern[i] == pattern[len] {
        BorderGrows(s, c, len);
        len := len + 1;
        lps[i] := len;
        NextPrefix(pattern, i, len);
        i := i + 1;
      } else {
        NoExtension(s, c, len);
        if len != 0 {
          NextCandidate(s, c, len, lps[len - 1], pattern);
          len := lps[len - 1];
        } else {
          assert IsBorder(s + [c], 0);
          lps[i] := 0;
          NextPrefix(pattern, i, 0);
          i := i + 1;
        }
      }
    }
  }

  /** On a mismatch no border of length len + 1 exists. */
  lemma NoExtension<T>(s: seq<T>, c: T, len: nat)
    requires len < |s| && s[len] != c
    ensures !IsBorder(s + [c], len + 1)
  {
    if IsBorder(s + [c], len + 1) { BorderShrinks(s, c, len); }
  }

  /** The next candidate after a mismatch is the table entry: nothing in between can extend. */
  lemma NextCandidate<T>(s: seq<T>, c: T, len: nat, v: int, pattern: seq<T>)
    requires 0 < len && IsBorder(s, len) && s <= pattern
    requires IsLongestBorder(pattern[..len], v)
    requires !IsBorder(s + [c], len + 1)
    requires BordersAtMost(s + [c], len + 1)
    ensures 0 <= v < len && IsBorder(s, v)
    ensures BordersAtMost(s + [c], v + 1)
  {
    assert pattern[..len] == s[..len];
    BorderOfBorderBack(s, len, v);
    forall k | IsBorder(s + [c], k)
      ensures k <= v + 1
    {
      if k > 0 {
        BorderShrinks(s, c, k - 1);
        BorderOfBorder(s, len, k - 1);
      }
    }
  }

  lemma NextPrefix<T>(pattern: seq<T>, i: nat, len: nat)
    requires i < |pattern| && IsLongestBorder(pattern[..i + 1], len)
    ensures i + 1 < |pattern| ==> BordersAtMost(pattern[..i + 2], len + 1)
  {
    if i + 1 < |pattern| {
      var longer := pattern[..i + 2];
      assert longer == pattern[..i + 1] + [pattern[i + 1]];
      forall k | IsBorder(longer, k)
        ensures k <= len + 1
      {
        if k > 0 { BorderShrinks(pattern[..i + 1], pattern[i + 1], k - 1); }
      }
    }
  }

  // ----- the scan -----

  /** The last k characters of text are the first k of pattern. */
  ghost predicate Matches<T>(pattern: seq<T>, text: seq<T>, k: int) {
    0 <= k <= |pattern| && k <= |text| && pattern[..k] == text[|text| - k..]
  }

  ghost predicate OccursAt<T>(pattern: seq<T>, text: seq<T>, at: int) {
    0 <= at && at + |pattern| <= |text| && text[at..at + |pattern|] == pattern
  }

  ghost predicate Occurs<T>(pattern: seq<T>, text: seq<T>) {
    exists at :: OccursAt(pattern, text, at)
  }

  lemma MatchShrinks<T>(pattern: seq<T>, text: seq<T>, c: T, k: nat)
    requires Matches(pattern, text + [c], k + 1)
    ensures Matches(pattern, text, k) && pattern[k] == c
  {
    var t := text + [c];
    assert pattern[..k + 1][k] == t[|t| - (k + 1)..][k] == c;
    forall i | 0 <= i < k
      ensures pattern[i] == text[|text| - k + i]
    {
      assert pattern[..k + 1][i] == t[|t| - (k + 1)..][i];
    }
  }

  lemma MatchGrows<T>(pattern: seq<T>, text: seq<T>, c: T, k: nat)
    requires k < |pattern| && Matches(pattern, text, k) && pattern[k] == c
    ensures Matches(pattern, text + [c], k + 1)
  {
    var t := text + [c];
    assert pattern[..k + 1] == pattern[..k] + [c] == text[|text| - k..] + [c] == t[|t| - (k + 1)..];
  }

  /** A shorter match is a border of the part matched so far. */
  lemma MatchIsBorder<T>(pattern: seq<T>, text: seq<T>, j: nat, k: nat)
    requires Matches(pattern, text, j) && Matches(pattern, text, k) && k < j
    ensures IsBorder(pattern[..j], k)
  {
    forall i | 0 <= i < k
      ensures pattern[..j][i] == pattern[..j][j - k + i]
    {
      assert pattern[..k][i] == text[|text| - k..][i];
      assert pattern[..j][j - k + i] == text[|text| - j..][j - k + i];
    }
  }

  lemma BorderIsMatch<T>(pattern: seq<T>, text: seq<T>, j: nat, k: nat)
    requires Matches(pattern, text, j) && IsBorder(pattern[..j], k)
    ensures Matches(pattern, text, k)
  {
    forall i | 0 <= i < k
      ensures pattern[..k][i] == text[|text| - k..][i]
    {
      assert pattern[..j][..k][i] == pattern[..j][j - k..][i];
      assert pattern[..j][j - k + i] == text[|text| - j..][j - k + i];
    }
  }

  ghost predicate MatchesAtMost<T>(pattern: seq<T>, text: seq<T>, bound: int) {
    forall k :: Matches(pattern, text, k) ==> k <= bound
  }

  /** j is the longest match at the end of text, and the pattern has not occurred yet. */
  ghost predicate Scanning<T>(pattern: seq<T>, text: seq<T>, j: nat) {
    j < |pattern| && Matches(pattern, text, j) && !Occurs(pattern, text) && MatchesAtMost(pattern, text, j)
  }

  /** The inner loop: fall back until the next character extends the match, or nothing is left. */
  method FallBack<T(==)>(pattern: seq<T>, lps: array<int>, ghost text: seq<T>, ch: T, start: nat) returns (j: nat)
    requires IsTable(pattern, lps[..], |pattern|) && lps.Length == |pattern| && Scanning(pattern, text, start)
    ensures j <= start && Matches(pattern, text, j)
    ensures j > 0 ==> pattern[j] == ch
    ensures MatchesAtMost(pattern, text + [ch], j + 1)
  {
    j := start;
    LongestNext(pattern, text, ch, j);
    while j > 0 && ch != pattern[j]
      invariant j <= start && Matches(pattern, text, j)
      invariant MatchesAtMost(pattern, text + [ch], j + 1)
      decreases j
    {
      var v := lps[j - 1];
      assert lps[..][j - 1] == v && IsLongestBorder(pattern[..j], v);
      BorderIsMatch(pattern, text, j, v);
      forall k | Matches(pattern, text + [ch], k)
        ensures k <= v + 1
      {
        if k > 0 {
          MatchShrinks(pattern, text, ch, k - 1);
          if k - 1 < j { MatchIsBorder(pattern, text, j, k - 1); }
        }
      }
      j := v;
    }
  }

  lemma LongestNext<T>(pattern: seq<T>, text: seq<T>, ch: T, j: nat)
    requires Scanning(pattern, text, j)
    ensures MatchesAtMost(pattern, text + [ch], j + 1)
  {
    forall k | Matches(pattern, text + [ch], k)
      ensures k <= j + 1
    {
      if k > 0 { MatchShrinks(pattern, text, ch, k - 1); }
    }
  }

  /** An occurrence in the longer text either was there before or ends at the new character. */
  lemma OccursStep<T>(pattern: seq<T>, text: seq<T>, ch: T)
    requires pattern != []
    ensures Occurs(pattern, text + [ch]) <==> Occurs(pattern, text) || Matches(pattern, text + [ch], |pattern|)
  {
    var t := text + [ch];
    if at :| OccursAt(pattern, text, at) { assert OccursAt(pattern, t, at); }
    if Matches(pattern, t, |pattern|) {
      assert t[|t| - |pattern|..] == t[|t| - |pattern|..|t| - |pattern| + |pattern|];
      assert OccursAt(pattern, t, |t| - |pattern|);
    }
    if at :| OccursAt(pattern, t, at) {
      if at + |pattern| <= |text| {
        assert OccursAt(pattern, text, at);
      } else {
        assert t[|t| - |pattern|..] == t[at..at + |pattern|];
      }
    }
  }

  lemma OccursPrefix<T>(pattern: seq<T>, text: seq<T>, n: nat)
    requires n <= |text| && Occurs(pattern, text[..n])
    ensures Occurs(pattern, text)
  {
    var at :| OccursAt(pattern, text[..n], at);
    assert text[at..at + |pattern|] == text[..n][at..at + |pattern|];
    assert OccursAt(pattern, text, at);
  }

  /** Each character of the file is read once; the answer is true exactly when the pattern occurs. */
  method KmpSearch<T(==)>(file: seq<T>, pattern: seq<T>) returns (found: bool)
    ensures found <==> pattern != [] && Occurs(pattern, file)
  {
    if |pattern| == 0 { return false; }
    var lps := new int[|pattern|];
    ComputeLps(pattern, lps);
    var j := 0;
    var read := 0;
    assert file[..0] == [] && Scanning(pattern, [], 0);
    while read < |file|
      invariant 0 <= read <= |file| && Scanning(pattern, file[..read], j)
      invariant IsTable(pattern, lps[..], |pattern|)
    {
      var ch := file[read];
      ghost var text := file[..read];
      assert text + [ch] == file[..read + 1];
      j := FallBack(pattern, lps, text, ch, j);
      OccursStep(pattern, text, ch);
      if ch == pattern[j] {
        MatchGrows(pattern, text, ch, j);
        j := j + 1;
      } else {
        assert Matches(pattern, text + [ch], 0);
        if Matches(pattern, text + [ch], j + 1) { MatchShrinks(pattern, text, ch, j); }
      }
      if j == |pattern| {
        OccursPrefix(pattern, file, read + 1);
        return true;
      }
      read := read + 1;
    }
    assert file[..read] == file;
    return false;
  }

  // ----- bytes -----

  /** A pattern byte as the source compares it: a signed char, promoted to int. */
  function SignedChar(b: int): int {
    if b < 128 then b else b - 256
  }

  ghost predicate Bytes(s: seq<int>) {
    forall i :: 0 <= i < |s| ==> 0 <= s[i] < 256
  }

  ghost function SignedChars(s: seq<int>): (r: seq<int>)
    ensures |r| == |s| && forall i :: 0 <= i < |s| ==> r[i] == SignedChar(s[i])
  {
    seq(|s|, i requires 0 <= i < |s| => SignedChar(s[i]))
  }

  /**
   Where char is signed, fgetc's 0..255 never equals a promoted byte of 128 or more: the
   scan finds a pattern exactly when it occurs and all its bytes are below 128.
   */
  lemma SignedCharSearch(pattern: seq<int>, file: seq<int>)
    requires pattern != [] && Bytes(pattern) && Bytes(file)
    ensures Occurs(SignedChars(pattern), file)
            <==> Occurs(pattern, file) && forall i :: 0 <= i < |pattern| ==> pattern[i] < 128
  {
    var p := SignedChars(pattern);
    if at :| OccursAt(p, file, at) {
      forall i | 0 <= i < |pattern|
        ensures pattern[i] < 128
      {
        assert file[at..at + |p|][i] == p[i] == file[at + i];
      }
      assert p == pattern;
    }
    if forall i :: 0 <= i < |pattern| ==> pattern[i] < 128 {
      assert p == pattern;
    }
  }

  /** A file of one byte, 200, and the same byte as the pattern: it occurs and is not found. */
  lemma HighByteMissed()
    ensures Bytes([200]) && Occurs([200], [200]) && !Occurs(SignedChars([200]), [200])
  {
    var s := [200];
    assert OccursAt(s, s, 0) && s[0] >= 128;
    SignedCharSearch(s, s);
  }
}
