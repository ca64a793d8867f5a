/** The few Python `str` methods the scraper applies to text it receives:
    `lower()`, single-character `replace`, `strip()` with no argument and
    `split(sep)` with a one-character separator. `Join` (`sep.join(...)`) is
    not a step of the scraper; it states that `Split` loses nothing.
    Characters are treated as ASCII: see README.md for what that leaves out. */
module PyStr {

  /** Python's `str.isspace()` on ASCII characters: the control characters
      HT, LF, VT, FF and CR (9-13), the four information separators
      FS, GS, RS and US (28-31), and SPACE (32). */
  predicate IsSpace(c: char) {
    var n := c as int;
    (9 <= n <= 13) || (28 <= n <= 32)
  }

  predicate IsAsciiUpper(c: char) {
    'A' <= c <= 'Z'
  }

  /** Python's `lower()` on one character, for ASCII input. */
  function LowerChar(c: char): char {
    if IsAsciiUpper(c) then (c as int + 32) as char else c
  }

  /** Python's `s.lower()`, ASCII letters only. */
  function Lower(s: string): (r: string)
    ensures |r| == |s|
    ensures forall i :: 0 <= i < |s| ==> r[i] == LowerChar(s[i])
  {
    if s == [] then [] else [LowerChar(s[0])] + Lower(s[1..])
  }

  lemma LowerCharSpec(c: char)
    ensures !IsAsciiUpper(LowerChar(c))
    ensures IsAsciiUpper(c) ==> 'a' <= LowerChar(c) <= 'z' && LowerChar(c) as int - c as int == 32
    ensures !IsAsciiUpper(c) ==> LowerChar(c) == c
  {
  }

  /** Python's `s.replace(a, b)` for one-character `a` and `b`. */
  function ReplaceChar(s: string, a: char, b: char): (r: string)
    ensures |r| == |s|
    ensures forall i :: 0 <= i < |s| ==> r[i] == (if s[i] == a then b else s[i])
  {
    if s == [] then [] else [if s[0] == a then b else s[0]] + ReplaceChar(s[1..], a, b)
  }

  /** Python's `s.count(c)` for one character `c`. */
  function Count(s: string, c: char): nat {
    if s == [] then 0 else (if s[0] == c then 1 else 0) + Count(s[1..], c)
  }

  /** Python's `s.replace(c, "")` for one character `c`: every `c` deleted. */
  function Delete(s: string, c: char): (r: string)
    ensures c !in r
    ensures |r| == |s| - Count(s, c)
  {
    if s == [] then []
    else if s[0] == c then Delete(s[1..], c)
    else [s[0]] + Delete(s[1..], c)
  }

  /** Deleting distributes over concatenation, so the characters that are
      kept stay in their original order. */
  lemma {:induction false} DeleteAppend(a: string, b: string, c: char)
    ensures Delete(a + b, c) == Delete(a, c) + Delete(b, c)
  {
    if a == [] {
      assert a + b == b;
    } else {
      assert (a + b)[1..] == a[1..] + b;
      DeleteAppend(a[1..], b, c);
    }
  }

  /** A string without `c` is left untouched. */
  lemma {:induction false} DeleteAbsent(s: string, c: char)
    requires c !in s
    ensures Delete(s, c) == s
  {
    if s != [] {
      assert c !in s[1..];
      DeleteAbsent(s[1..], c);
    }
  }

  /** Exactly the occurrences of `c` go, every other character stays with its
      multiplicity. */
  lemma {:induction false} DeleteMultiset(s: string, c: char)
    ensures multiset(Delete(s, c)) == multiset(s)[c := 0]
  {
    if s != [] {
      DeleteMultiset(s[1..], c);
      assert s == [s[0]] + s[1..];
      assert multiset(s) == multiset{s[0]} + multiset(s[1..]);
    }
  }

  lemma DeleteIdempotent(s: string, c: char)
    ensures Delete(Delete(s, c), c) == Delete(s, c)
  {
    DeleteAbsent(Delete(s, c), c);
  }

  /** Whitespace only. */
  predicate AllSpace(s: string) {
    forall k :: 0 <= k < |s| ==> IsSpace(s[k])
  }

  /** No leading and no trailing whitespace. */
  predicate IsTrimmed(s: string) {
    s == [] || (!IsSpace(s[0]) && !IsSpace(s[|s| - 1]))
  }

  /** The first index at or after `i` that does not hold whitespace (or
      the length): the forward scan of Python's `strip()`. */
  function SkipSpaces(s: string, i: nat): (j: nat)
    requires i <= |s|
    ensures i <= j <= |s|
    ensures forall k :: i <= k < j ==> IsSpace(s[k])
    ensures j < |s| ==> !IsSpace(s[j])
    decreases |s| - i
  {
    if i < |s| && IsSpace(s[i]) then SkipSpaces(s, i + 1) else i
  }

  /** The backward scan of Python's `strip()`: moving down from `j`, but
      not below `lo`, past whitespace. */
  function BackSpaces(s: string, lo: nat, j: nat): (k: nat)
    requires lo <= j <= |s|
    ensures lo <= k <= j
    ensures forall m :: k <= m < j ==> IsSpace(s[m])
    ensures k > lo ==> !IsSpace(s[k - 1])
    decreases j
  {
    if j > lo && IsSpace(s[j - 1]) then BackSpaces(s, lo, j - 1) else j
  }

  /** Python's `s.strip()`: `s` with its leading and trailing whitespace cut
      off. */
  function Strip(s: string): (r: string)
    ensures IsTrimmed(r)
    ensures |r| <= |s|
  {
    var i := SkipSpaces(s, 0);
    var j := BackSpaces(s, i, |s|);
    s[i..j]
  }

  /** `m` sits at position `i` of `s` with nothing but whitespace around it. */
  predicate Frames(s: string, i: int, m: string) {
    0 <= i <= |s| - |m| && s[i..i + |m|] == m &&
    (forall k :: 0 <= k < i ==> IsSpace(s[k])) &&
    (forall k :: i + |m| <= k < |s| ==> IsSpace(s[k]))
  }

  /** What Strip cuts off is whitespace only: the result is the slice of `s`
      that starts after the leading whitespace. */
  lemma StripSlice(s: string)
    ensures Frames(s, SkipSpaces(s, 0), Strip(s))
  {
  }

  /** Stripping adds no character: one absent from `s` is absent from its
      stripped form. */
  lemma StripKeepsOut(s: string, c: char)
    requires c !in s
    ensures c !in Strip(s)
  {
    var i := SkipSpaces(s, 0);
    var r := Strip(s);
    forall k | 0 <= k < |r| ensures r[k] != c {
      assert r[k] == s[i + k];
    }
  }

  /** The forward scan stops exactly at the first non-whitespace index. */
  lemma {:induction false} SkipSpacesAt(s: string, i: nat, j: nat)
    requires i <= j <= |s|
    requires forall k :: i <= k < j ==> IsSpace(s[k])
    requires j < |s| ==> !IsSpace(s[j])
    ensures SkipSpaces(s, i) == j
    decreases j - i
  {
    if i < j {
      SkipSpacesAt(s, i + 1, j);
    }
  }

  /** The backward scan stops exactly after the last non-whitespace index. */
  lemma {:induction false} BackSpacesAt(s: string, lo: nat, j: nat, k: nat)
    requires lo <= k <= j <= |s|
    requires forall m :: k <= m < j ==> IsSpace(s[m])
    requires k > lo ==> !IsSpace(s[k - 1])
    ensures BackSpaces(s, lo, j) == k
    decreases j
  {
    if k < j {
      BackSpacesAt(s, lo, j - 1, k);
    }
  }

  /** The reverse direction of Strip's contract: whatever trimmed text is
      framed by whitespace, stripping recovers exactly that text. */
  lemma StripFramed(x: string, m: string, y: string)
    requires AllSpace(x) && AllSpace(y) && IsTrimmed(m)
    ensures Strip(x + m + y) == m
  {
    var s := x + m + y;
    forall k | 0 <= k < |x| ensures IsSpace(s[k]) {
      assert s[k] == x[k];
    }
    forall k | |x| + |m| <= k < |s| ensures IsSpace(s[k]) {
      assert s[k] == y[k - |x| - |m|];
    }
    if m == [] {
      SkipSpacesAt(s, 0, |s|);
      BackSpacesAt(s, |s|, |s|, |s|);
    } else {
      assert s[|x|] == m[0] && s[|x| + |m| - 1] == m[|m| - 1];
      SkipSpacesAt(s, 0, |x|);
      BackSpacesAt(s, |x|, |s|, |x| + |m|);
      assert s[|x|..|x| + |m|] == m;
    }
  }

  lemma StripTrimmed(s: string)
    ensures IsTrimmed(s) <==> Strip(s) == s
  {
    if IsTrimmed(s) {
      StripFramed([], s, []);
      assert [] + s + [] == s;
    }
  }

  lemma StripIdempotent(s: string)
    ensures Strip(Strip(s)) == Strip(s)
  {
    StripTrimmed(Strip(s));
  }

  /** Python's `s.split(sep)` with a one-character separator: the pieces
      between the separators, `[""]` for the empty string. */
  function Split(s: string, sep: char): (r: seq<string>)
    ensures |r| == Count(s, sep) + 1
    ensures forall k :: 0 <= k < |r| ==> sep !in r[k]
  {
    if s == [] then [[]]
    else
      var rest := Split(s[1..], sep);
      if s[0] == sep then [[]] + rest
      else [[s[0]] + rest[0]] + rest[1..]
  }

  /** Python's `sep.join(ps)`, the inverse against which `Split` is stated;
      the scraper itself never joins. */
  function Join(ps: seq<string>, sep: char): string {
    if |ps| == 0 then []
    else if |ps| == 1 then ps[0]
    else ps[0] + [sep] + Join(ps[1..], sep)
  }

  lemma JoinCons(p: string, ps: seq<string>, sep: char)
    requires ps != []
    ensures Join([p] + ps, sep) == p + [sep] + Join(ps, sep)
  {
    assert ([p] + ps)[1..] == ps;
  }

  /** Joining the pieces with the separator gives back the text. */
  lemma {:induction false} JoinSplit(s: string, sep: char)
    ensures Join(Split(s, sep), sep) == s
  {
    if s != [] {
      var rest := Split(s[1..], sep);
      JoinSplit(s[1..], sep);
      assert s == [s[0]] + s[1..];
      if s[0] == sep {
        JoinCons([], rest, sep);
      } else if |rest| == 1 {
        assert Split(s, sep) == [[s[0]] + rest[0]];
      } else {
        assert rest == [rest[0]] + rest[1..];
        JoinCons(rest[0], rest[1..], sep);
        JoinCons([s[0]] + rest[0], rest[1..], sep);
      }
    }
  }

  lemma {:induction false} SplitPrefix(a: string, b: string, sep: char)
    requires sep !in a
    ensures Split(a + b, sep) == [a + Split(b, sep)[0]] + Split(b, sep)[1..]
  {
    if a == [] {
      assert a + b == b;
      var r := Split(b, sep);
      assert a + r[0] == r[0];
      assert [r[0]] + r[1..] == r;
    } else {
      assert (a + b)[1..] == a[1..] + b;
      assert sep !in a[1..];
      SplitPrefix(a[1..], b, sep);
      assert [a[0]] + (a[1..] + Split(b, sep)[0]) == a + Split(b, sep)[0];
    }
  }

  /** Splitting a join of separator-free pieces gives back the pieces. */
  lemma {:induction false} SplitJoin(ps: seq<string>, sep: char)
    requires |ps| >= 1
    requires forall k :: 0 <= k < |ps| ==> sep !in ps[k]
    ensures Split(Join(ps, sep), sep) == ps
  {
    if |ps| == 1 {
      SplitPrefix(ps[0], [], sep);
      assert ps[0] + [] == ps[0];
    } else {
      var tail := Join(ps[1..], sep);
      SplitJoin(ps[1..], sep);
      assert ps[0] + [sep] + tail == ps[0] + ([sep] + tail);
      SplitPrefix(ps[0], [sep] + tail, sep);
      assert ([sep] + tail)[1..] == tail;
      assert ps[0] + [] == ps[0];
      assert [ps[0]] + ps[1..] == ps;
    }
  }
}
