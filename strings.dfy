/** Character and string operations the pipeline borrows from Python's `str`:
    `lower()`, `strip()`, `split()` and the substring test `k in t`, restricted to ASCII. */
module Strings {

  /** Python's `str.isspace` on the ASCII range: tab, line feed, vertical tab,
      form feed, carriage return, the four separator controls 0x1C-0x1F, and space.
      `strip()` and `split()` with no argument both use this same predicate. */
  predicate IsSpace(c: char) {
    ('\U{9}' <= c <= '\U{D}') || ('\U{1C}' <= c <= '\U{1F}') || c == ' '
  }

  predicate IsUpper(c: char) {
    'A' <= c <= 'Z'
  }

  /** ASCII `lower()` of one character. */
  function LowerChar(c: char): (d: char)
    ensures !IsUpper(d)
    ensures IsUpper(c) ==> d as int == c as int + 32
    ensures !IsUpper(c) ==> d == c
  {
    if IsUpper(c) then (c as int + 32) as char else c
  }

  /** `s.lower()`, character by character. */
  function Lower(s: string): (r: string)
    ensures |r| == |s|
    ensures forall i :: 0 <= i < |s| ==> !IsUpper(r[i]) && (!IsUpper(s[i]) ==> r[i] == s[i])
    ensures forall i :: 0 <= i < |s| && IsUpper(s[i]) ==> r[i] as int == s[i] as int + 32
  {
    seq(|s|, i requires 0 <= i < |s| => LowerChar(s[i]))
  }

  /** Lower-casing twice is lower-casing once. */
  lemma LowerIdempotent(s: string)
    ensures Lower(Lower(s)) == Lower(s)
  {
    forall i | 0 <= i < |s|
      ensures Lower(Lower(s))[i] == Lower(s)[i]
    {
      assert !IsUpper(Lower(s)[i]);
    }
  }

  /** Lower-casing works piecewise on a concatenation. */
  lemma LowerAppend(a: string, b: string)
    ensures Lower(a + b) == Lower(a) + Lower(b)
  {
    assert forall i :: 0 <= i < |a| + |b| ==> Lower(a + b)[i] == (Lower(a) + Lower(b))[i];
  }

  // ---------------------------------------------------------------------------
  // Prefixes, suffixes and substrings

  predicate StartsWith(s: string, p: string) {
    |p| <= |s| && s[..|p|] == p
  }

  predicate EndsWith(s: string, p: string) {
    |p| <= |s| && s[|s| - |p|..] == p
  }

  /** `k` occurs in `t` starting at index `i`. */
  predicate OccursAt(t: string, k: string, i: int) {
    0 <= i && i + |k| <= |t| && t[i..i + |k|] == k
  }

  /** Python's `k in t` for strings, scanning `t` from the left. */
  predicate Contains(t: string, k: string)
    ensures Contains(t, k) ==> |k| <= |t|
    ensures k == [] ==> Contains(t, k)
    decreases |t|
  {
    StartsWith(t, k) || (t != [] && Contains(t[1..], k))
  }

  /** The scan agrees with the declarative reading: some position of `t` holds `k`. */
  lemma {:induction false} ContainsSpec(t: string, k: string)
    ensures Contains(t, k) <==> exists i :: OccursAt(t, k, i)
    decreases |t|
  {
    if StartsWith(t, k) {
      assert OccursAt(t, k, 0);
    } else if t != [] {
      ContainsSpec(t[1..], k);
      if exists i :: OccursAt(t[1..], k, i) {
        var i :| OccursAt(t[1..], k, i);
        assert t[1..][i..i + |k|] == t[i + 1..i + 1 + |k|];
        assert OccursAt(t, k, i + 1);
      }
      if exists i :: OccursAt(t, k, i) {
        var i :| OccursAt(t, k, i);
        assert i != 0;
        assert t[1..][i - 1..i - 1 + |k|] == t[i..i + |k|];
        assert OccursAt(t[1..], k, i - 1);
      }
    } else {
      assert forall i :: !OccursAt(t, k, i);
    }
  }

  // ---------------------------------------------------------------------------
  // strip()

  /** The left half of `strip()`: drop leading whitespace. */
  function TrimStart(s: string): (r: string)
    ensures |r| <= |s| && r == s[|s| - |r|..]
    ensures forall i :: 0 <= i < |s| - |r| ==> IsSpace(s[i])
    ensures r == [] || !IsSpace(r[0])
  {
    if s != [] && IsSpace(s[0]) then TrimStart(s[1..]) else s
  }

  /** The right half of `strip()`: drop trailing whitespace. */
  function TrimEnd(s: string): (r: string)
    ensures |r| <= |s| && r == s[..|r|]
    ensures forall i :: |r| <= i < |s| ==> IsSpace(s[i])
    ensures r == [] || !IsSpace(r[|r| - 1])
  {
    if s != [] && IsSpace(s[|s| - 1]) then TrimEnd(s[..|s| - 1]) else s
  }

  /** Neither the first nor the last character is whitespace. */
  predicate NoEdgeSpace(s: string) {
    s == [] || (!IsSpace(s[0]) && !IsSpace(s[|s| - 1]))
  }

  /** `s.strip()`. */
  function Strip(s: string): (r: string)
    ensures NoEdgeSpace(r)
    ensures |r| <= |s|
  {
    TrimEnd(TrimStart(s))
  }

  /** `r` is the slice of `s` starting at `i`, and every character of `s`
      outside that slice is whitespace. */
  predicate IsSpaceFramed(s: string, r: string, i: int) {
    0 <= i <= |s| - |r|
    && r == s[i..i + |r|]
    && (forall k :: 0 <= k < i ==> IsSpace(s[k]))
    && (forall k :: i + |r| <= k < |s| ==> IsSpace(s[k]))
  }

  /** `strip()` removes whitespace from the two ends and nothing else:
      the result is a slice of `s` and everything outside it is whitespace. */
  lemma StripRemovesOnlySpace(s: string)
    ensures exists i :: IsSpaceFramed(s, Strip(s), i)
  {
    var u := TrimStart(s);
    var i := |s| - |u|;
    assert IsSpaceFramed(s, u, i) by {
      assert u == s[i..i + |u|];
    }
    FramedTrimEnd(s, u, i);
    assert IsSpaceFramed(s, Strip(s), i);
  }

  /** Trimming the end of a whitespace-framed slice keeps it framed. */
  lemma FramedTrimEnd(s: string, u: string, i: int)
    requires IsSpaceFramed(s, u, i)
    ensures IsSpaceFramed(s, TrimEnd(u), i)
  {
    var r := TrimEnd(u);
    assert r == s[i..i + |r|] by {
      assert r == u[..|r|];
    }
    forall k | i + |r| <= k < |s| ensures IsSpace(s[k]) {
      if k < i + |u| {
        assert s[k] == u[k - i];
      }
    }
  }

  /** A string without edge whitespace is its own `strip()`. */
  lemma StripNoEdgeSpace(s: string)
    requires NoEdgeSpace(s)
    ensures Strip(s) == s
  {
  }

  /** `strip()` is idempotent. */
  lemma StripIdempotent(s: string)
    ensures Strip(Strip(s)) == Strip(s)
  {
    StripNoEdgeSpace(Strip(s));
  }

  // ---------------------------------------------------------------------------
  // split()

  /** Length of the run of non-whitespace characters at the front of `s`. */
  function WordLen(s: string): (n: nat)
    ensures n <= |s|
    ensures forall i :: 0 <= i < n ==> !IsSpace(s[i])
    ensures n < |s| ==> IsSpace(s[n])
  {
    if s == [] || IsSpace(s[0]) then 0 else 1 + WordLen(s[1..])
  }

  /** A non-empty string with no whitespace in it. */
  predicate IsWord(w: string) {
    w != [] && forall i :: 0 <= i < |w| ==> !IsSpace(w[i])
  }

  /** Python's `s.split()` with no separator: the maximal runs of non-whitespace, in order. */
  function Split(s: string): seq<string>
    decreases |s|
  {
    if s == [] then []
    else if IsSpace(s[0]) then Split(s[1..])
    else
      var n := WordLen(s);
      [s[..n]] + Split(s[n..])
  }

  /** Every element of `split()` is a word; there are none exactly when the
      string is blank, and at most one for every two characters, rounding up. */
  lemma {:induction false} SplitWords(s: string)
    ensures forall j :: 0 <= j < |Split(s)| ==> IsWord(Split(s)[j])
    ensures Split(s) == [] <==> forall i :: 0 <= i < |s| ==> IsSpace(s[i])
    ensures 2 * |Split(s)| <= |s| + 1
    decreases |s|
  {
    if s == [] {
    } else if IsSpace(s[0]) {
      SplitWords(s[1..]);
      assert forall i :: 1 <= i < |s| ==> s[i] == s[1..][i - 1];
    } else {
      var n := WordLen(s);
      var rest := s[n..];
      SplitWords(rest);
      if n < |s| {
        assert rest[0] == s[n] && rest[1..] == s[n + 1..];
        SplitWords(s[n + 1..]);
      }
      var ws := Split(s);
      assert ws == [s[..n]] + Split(rest);
      forall j | 0 <= j < |ws| ensures IsWord(ws[j]) {
        if j > 0 {
          assert ws[j] == Split(rest)[j - 1];
        }
      }
    }
  }

  /** `len(s.split())`: zero exactly for a blank string, and at most one word for
      every two characters, rounding up. */
  function WordCount(s: string): (n: nat)
    ensures n == 0 <==> forall i :: 0 <= i < |s| ==> IsSpace(s[i])
    ensures 2 * n <= |s| + 1
  {
    SplitWords(s);
    |Split(s)|
  }

  /** A string made only of whitespace splits into nothing. */
  lemma {:induction false} SplitBlank(s: string)
    requires forall i :: 0 <= i < |s| ==> IsSpace(s[i])
    ensures Split(s) == []
    decreases |s|
  {
    if s != [] {
      SplitBlank(s[1..]);
    }
  }

  /** A single word splits into itself. */
  lemma SplitWord(w: string)
    requires IsWord(w)
    ensures Split(w) == [w]
  {
    WordLenOfWord(w);
    assert w[..|w|] == w;
    assert w[|w|..] == [];
  }

  lemma {:induction false} WordLenOfWord(w: string)
    requires forall i :: 0 <= i < |w| ==> !IsSpace(w[i])
    ensures WordLen(w) == |w|
    decreases |w|
  {
    if w != [] {
      WordLenOfWord(w[1..]);
    }
  }

  /** The leading word of `a + c` is that of `a` when `a` contains whitespace
      or when `c` begins with whitespace. */
  lemma {:induction false} WordLenAppend(a: string, c: string)
    requires WordLen(a) < |a| || (c != [] && IsSpace(c[0]))
    ensures WordLen(a + c) == WordLen(a)
    decreases |a|
  {
    if a != [] && !IsSpace(a[0]) {
      assert (a + c)[1..] == a[1..] + c;
      WordLenAppend(a[1..], c);
    }
  }

  /** Joining two strings with any one whitespace character (a space, a tab, a
      line break, ...) joins their word lists. */
  lemma {:induction false} SplitJoin(a: string, c: char, b: string)
    requires IsSpace(c)
    ensures Split(a + [c] + b) == Split(a) + Split(b)
    decreases |a|
  {
    var s := a + [c] + b;
    if a == [] {
      assert s[0] == c && s[1..] == b;
    } else if IsSpace(a[0]) {
      assert s[0] == a[0] && s[1..] == a[1..] + [c] + b;
      SplitJoin(a[1..], c, b);
    } else {
      SplitJoinWord(a, c, b);
    }
  }

  /** The case of `SplitJoin` where `a` opens with a word. */
  lemma {:induction false} SplitJoinWord(a: string, c: char, b: string)
    requires IsSpace(c) && a != [] && !IsSpace(a[0])
    ensures Split(a + [c] + b) == Split(a) + Split(b)
    decreases |a|, 0
  {
    var n := WordLen(a);
    assert a + [c] + b == a + ([c] + b);
    SplitJoinHead(a, [c] + b);
    assert Split(a) == [a[..n]] + Split(a[n..]);
    if n < |a| {
      assert a[n..] + ([c] + b) == a[n..] + [c] + b;
      SplitJoin(a[n..], c, b);
    } else {
      SplitJoinLastWord(a, c, b);
    }
  }

  /** When `a` is one word, what follows it in `a + [c] + b` splits like `b`. */
  lemma SplitJoinLastWord(a: string, c: char, b: string)
    requires IsSpace(c) && a != [] && !IsSpace(a[0]) && WordLen(a) == |a|
    ensures Split(a[WordLen(a)..] + ([c] + b)) == Split(b)
    ensures Split(a[WordLen(a)..]) == []
  {
    assert a[|a|..] + ([c] + b) == [c] + b;
    assert ([c] + b)[1..] == b;
    SplitSpaceFirst([c] + b);
  }

  /** The first word of `a + c` is that of `a` when `c` opens with whitespace. */
  lemma SplitJoinHead(a: string, c: string)
    requires a != [] && !IsSpace(a[0]) && c != [] && IsSpace(c[0])
    ensures Split(a + c) == [a[..WordLen(a)]] + Split(a[WordLen(a)..] + c)
  {
    var n := WordLen(a);
    var s := a + c;
    WordLenAppend(a, c);
    assert s[..n] == a[..n];
    assert s[n..] == a[n..] + c;
  }

  /** A string opening with whitespace splits like its tail. */
  lemma SplitSpaceFirst(s: string)
    requires s != [] && IsSpace(s[0])
    ensures Split(s) == Split(s[1..])
  {
  }

  /** Appending a space and one more word adds that word to the end of the list. */
  lemma SplitAppendWord(a: string, w: string)
    requires IsWord(w)
    ensures Split(a + " " + w) == Split(a) + [w]
  {
    SplitJoin(a, ' ', w);
    SplitWord(w);
  }
}
