/**
 * The JavaScript string operations the two services rely on (`indexOf`,
 * `includes`, `split`, `join`, `slice`, `startsWith`, `endsWith`,
 * `toLowerCase`, `replace`), written over `seq<char>`, together with the
 * facts about them that the rest of the model uses: where `indexOf` lands,
 * that `join` undoes `split`, and that `split` undoes `join` for a delimiter
 * that cannot overlap itself.
 */
module Strings {

  /** `t` occurs in `s` starting at position `i`. */
  ghost predicate OccursAt(s: string, t: string, i: int)
  {
    0 <= i && i + |t| <= |s| && s[i..i + |t|] == t
  }

  /** A one-character string occurs exactly where that character is. */
  lemma OneCharAt(s: string, c: char, i: int)
    ensures OccursAt(s, [c], i) <==> 0 <= i < |s| && s[i] == c
  {
    if 0 <= i < |s| && s[i] == c {
      assert s[i..i + 1] == [c];
    }
    if OccursAt(s, [c], i) {
      assert s[i..i + 1][0] == s[i];
    }
  }

  /** `String.prototype.indexOf(t, i)`: the first position at or after `i` where `t` occurs, or -1. */
  function IndexFrom(s: string, t: string, i: nat): (r: int)
    ensures r == -1 || (i <= r && OccursAt(s, t, r))
    ensures forall j :: i <= j && (r == -1 || j < r) ==> !OccursAt(s, t, j)
    decreases |s| - i
  {
    if i + |t| > |s| then -1
    else if s[i..i + |t|] == t then i
    else IndexFrom(s, t, i + 1)
  }

  /** `String.prototype.indexOf(t)`. */
  function IndexOf(s: string, t: string): (r: int)
    ensures r == -1 || OccursAt(s, t, r)
    ensures forall j :: 0 <= j && (r == -1 || j < r) ==> !OccursAt(s, t, j)
  {
    IndexFrom(s, t, 0)
  }

  /** A string none of whose characters is `c` has no occurrence of `c`. */
  lemma NoCharIndex(s: string, c: char)
    requires forall i | 0 <= i < |s| :: s[i] != c
    ensures IndexOf(s, [c]) == -1
  {
    var r := IndexOf(s, [c]);
    if r != -1 {
      OneCharAt(s, c, r);
    }
  }

  /** `String.prototype.includes(t)`. */
  function Contains(s: string, t: string): (b: bool)
    ensures b <==> exists j :: OccursAt(s, t, j)
  {
    var i := IndexOf(s, t);
    assert i >= 0 ==> OccursAt(s, t, i);
    i >= 0
  }

  /** `s.startsWith(t)`. */
  predicate StartsWith(s: string, t: string)
  {
    |t| <= |s| && s[..|t|] == t
  }

  /** `s.endsWith(t)`. */
  predicate EndsWith(s: string, t: string)
  {
    |t| <= |s| && s[|s| - |t|..] == t
  }

  /** `s.slice(0, n)` for a non-negative `n`. */
  function Take(s: string, n: nat): (r: string)
    ensures |r| == if |s| < n then |s| else n
    ensures StartsWith(s, r)
  {
    if |s| <= n then s else s[..n]
  }

  /** `s.slice(n)` for a non-negative `n`: empty once `n` reaches the end. */
  function Drop(s: string, n: nat): (r: string)
    ensures |s| <= n ==> r == ""
    ensures n < |s| ==> s == s[..n] + r
  {
    if |s| <= n then "" else s[n..]
  }

  /** `toLowerCase` on one character, for the ASCII letters. */
  function LowerChar(c: char): (r: char)
    ensures 'A' <= c <= 'Z' ==> 'a' <= r <= 'z' && r as int - c as int == 32
    ensures !('A' <= c <= 'Z') ==> r == c
  {
    if 'A' <= c <= 'Z' then (c as int + 32) as char else c
  }

  /** `toLowerCase` on a string, letter by letter. */
  function Lower(s: string): (r: string)
    ensures |r| == |s|
    ensures forall i :: 0 <= i < |s| ==> r[i] == LowerChar(s[i])
  {
    seq(|s|, i requires 0 <= i < |s| => LowerChar(s[i]))
  }

  /** `s.replace(pattern, "")` with a string pattern: only the first occurrence goes. */
  function RemoveFirst(s: string, pattern: string): (r: string)
    ensures IndexOf(s, pattern) == -1 ==> r == s
    ensures IndexOf(s, pattern) >= 0 ==>
      |r| == |s| - |pattern| && s == r[..IndexOf(s, pattern)] + pattern + r[IndexOf(s, pattern)..]
  {
    var i := IndexOf(s, pattern);
    if i < 0 then s else s[..i] + s[i + |pattern|..]
  }

  /**
   * `s.split(d)` for a non-empty string delimiter: the pieces between the
   * non-overlapping occurrences of `d` found from the left. There is
   * always at least one piece, and no piece contains `d`.
   */
  function Split(s: string, d: string): (r: seq<string>)
    requires |d| > 0
    ensures |r| >= 1
    ensures forall j :: 0 <= j < |r| ==> IndexOf(r[j], d) == -1
    decreases |s|
  {
    var i := IndexOf(s, d);
    if i < 0 then [s]
    else
      NoOccurrenceInPrefix(s, d, i);
      [s[..i]] + Split(s[i + |d|..], d)
  }

  /** If `d` does not occur in `s` before `i`, it does not occur in `s[..i]` at all. */
  lemma NoOccurrenceInPrefix(s: string, d: string, i: nat)
    requires |d| > 0 && i <= |s|
    requires forall j :: 0 <= j < i ==> !OccursAt(s, d, j)
    ensures IndexOf(s[..i], d) == -1
  {
    var p := s[..i];
    var r := IndexOf(p, d);
    if r != -1 {
      assert p[r..r + |d|] == s[r..r + |d|];
      assert OccursAt(s, d, r);
      assert false;
    }
  }

  /** `parts.join(d)`; an empty list joins to the empty string. */
  function Join(parts: seq<string>, d: string): (r: string)
    ensures |parts| == 1 ==> r == parts[0]
    decreases |parts|
  {
    if |parts| == 0 then ""
    else if |parts| == 1 then parts[0]
    else Join(parts[..|parts| - 1], d) + d + parts[|parts| - 1]
  }

  /** Joining one more part on the left puts a delimiter after it. */
  lemma {:induction false} JoinCons(a: string, rest: seq<string>, d: string)
    requires |rest| >= 1
    ensures Join([a] + rest, d) == a + d + Join(rest, d)
    decreases |rest|
  {
    var parts := [a] + rest;
    assert parts[..|parts| - 1] == [a] + rest[..|rest| - 1];
    if |rest| == 1 {
      assert parts[..|parts| - 1] == [a];
    } else {
      JoinCons(a, rest[..|rest| - 1], d);
    }
  }

  /** Joining one more part on the right puts a delimiter before it. */
  lemma JoinSnoc(parts: seq<string>, x: string, d: string)
    requires |parts| >= 1
    ensures Join(parts + [x], d) == Join(parts, d) + d + x
  {
    assert (parts + [x])[..|parts|] == parts;
  }

  /** `s.split(d).join(d) === s`: splitting loses nothing. */
  lemma {:induction false} JoinSplit(s: string, d: string)
    requires |d| > 0
    ensures Join(Split(s, d), d) == s
    decreases |s|
  {
    var i := IndexOf(s, d);
    if i >= 0 {
      var rest := s[i + |d|..];
      var pieces := Split(rest, d);
      assert Split(s, d) == [s[..i]] + pieces;
      JoinSplit(rest, d);
      JoinCons(s[..i], pieces, d);
      assert s[i..i + |d|] == d;
      Pieces(s, i, i + |d|);
    }
  }

  /** A delimiter none of whose proper suffixes is also a prefix cannot overlap itself. */
  ghost predicate Unbordered(d: string)
  {
    |d| > 0 && forall k :: 0 < k < |d| ==> d[k..] != d[..|d| - k]
  }

  /** The delimiters ARCitect's TypeScript splits on. */
  lemma UnborderedDelimiters()
    ensures Unbordered("\n") && Unbordered("\r\n") && Unbordered("/") && Unbordered(" ")
    ensures Unbordered("\t") && Unbordered("\0")
  {
    var crlf := "\r\n";
    forall k | 0 < k < |crlf| ensures crlf[k..] != crlf[..|crlf| - k] {
      assert crlf[k..][0] == '\n' && crlf[..|crlf| - k][0] == '\r';
    }
  }

  /** When `a` holds no `d`, the first `d` in `a + d + b` is the one placed after `a`. */
  lemma FirstOccurrenceAfter(a: string, d: string, b: string)
    requires Unbordered(d) && IndexOf(a, d) == -1
    ensures IndexOf(a + d + b, d) == |a|
  {
    var s := a + d + b;
    assert s[|a|..|a| + |d|] == d;
    assert OccursAt(s, d, |a|);
    var r := IndexOf(s, d);
    if r != |a| {
      assert 0 <= r < |a|;
      if r + |d| <= |a| {
        assert s[r..r + |d|] == a[r..r + |d|];
        assert OccursAt(a, d, r);
      } else {
        Straddle(a, d, b, r);
      }
      assert false;
    }
  }

  /** An unbordered `d` cannot begin inside `a` and end inside the `d` that follows it. */
  lemma Straddle(a: string, d: string, b: string, r: int)
    requires Unbordered(d) && 0 <= r < |a| < r + |d|
    ensures !OccursAt(a + d + b, d, r)
  {
    var s := a + d + b;
    var k := |a| - r;
    var w := s[r..r + |d|];
    assert w[k..] == d[..|d| - k];
    assert d[k..] != d[..|d| - k];
    assert w != d;
  }

  /** Splitting `a + d + b` yields `a` and then the pieces of `b`. */
  lemma SplitCons(a: string, d: string, b: string)
    requires Unbordered(d) && IndexOf(a, d) == -1
    ensures Split(a + d + b, d) == [a] + Split(b, d)
  {
    var s := a + d + b;
    FirstOccurrenceAfter(a, d, b);
    assert s[..|a|] == a && s[|a| + |d|..] == b;
  }

  /** `parts.join(d).split(d)` gives the parts back, when no part contains `d`. */
  lemma {:induction false} SplitJoin(parts: seq<string>, d: string)
    requires Unbordered(d) && |parts| >= 1
    requires forall j :: 0 <= j < |parts| ==> IndexOf(parts[j], d) == -1
    ensures Split(Join(parts, d), d) == parts
    decreases |parts|
  {
    if |parts| > 1 {
      var rest := parts[1..];
      assert parts == [parts[0]] + rest;
      JoinCons(parts[0], rest, d);
      SplitCons(parts[0], d, Join(rest, d));
      SplitJoin(rest, d);
    }
  }

  /** Each part followed by the delimiter, the way line- and NUL-terminated output is laid out. */
  function Terminated(parts: seq<string>, d: string): string
  {
    if parts == [] then "" else parts[0] + d + Terminated(parts[1..], d)
  }

  /** Splitting terminated parts followed by an unterminated tail gives the parts and then the tail. */
  lemma {:induction false} SplitTerminated(parts: seq<string>, d: string, tail: string)
    requires Unbordered(d) && IndexOf(tail, d) == -1
    requires forall j :: 0 <= j < |parts| ==> IndexOf(parts[j], d) == -1
    ensures Split(Terminated(parts, d) + tail, d) == parts + [tail]
    decreases |parts|
  {
    if parts == [] {
      assert Terminated(parts, d) + tail == tail;
    } else {
      var rest := Terminated(parts[1..], d) + tail;
      assert Terminated(parts, d) + tail == parts[0] + d + rest;
      SplitCons(parts[0], d, rest);
      SplitTerminated(parts[1..], d, tail);
      assert parts == [parts[0]] + parts[1..];
    }
  }

  /** No element occurs twice. */
  predicate NoDup<T(==)>(s: seq<T>)
  {
    forall i, j :: 0 <= i < j < |s| ==> s[i] != s[j]
  }

  /** An accumulator loop's step: moving `here` from what is left to what is done keeps the total. */
  lemma Regroup<T>(done: seq<T>, here: seq<T>, rest: seq<T>, left: seq<T>, total: seq<T>)
    requires done + left == total && left == here + rest
    ensures (done + here) + rest == total
  {
  }

  /** Cutting `s` at `i` and `j` and putting the three pieces back together gives `s`. */
  lemma Pieces<T>(s: seq<T>, i: nat, j: nat)
    requires i <= j <= |s|
    ensures s == s[..i] + s[i..j] + s[j..]
  {
  }

  lemma NoTail<T>(a: seq<T>)
    ensures a + [] == a
  {
  }

  lemma Assoc<T>(a: seq<T>, b: seq<T>, c: seq<T>)
    ensures (a + b) + c == a + (b + c)
  {
  }

  /** A loop over `s` that has handled `s[..i]` moves on to `s[..i + 1]` by handling `s[i]`. */
  lemma PrefixStep<T>(s: seq<T>, i: nat)
    requires i < |s|
    ensures s[..i + 1] == s[..i] + [s[i]]
  {
  }

  /** Concatenating two duplicate-free lists with nothing in common gives a duplicate-free list. */
  lemma NoDupConcat<T>(a: seq<T>, b: seq<T>)
    requires NoDup(a) && NoDup(b)
    requires forall x | x in a :: x !in b
    ensures NoDup(a + b)
  {
    forall i, j | 0 <= i < j < |a + b| ensures (a + b)[i] != (a + b)[j] {
      if j < |a| {
        assert (a + b)[i] == a[i] && (a + b)[j] == a[j];
      } else if i >= |a| {
        assert (a + b)[i] == b[i - |a|] && (a + b)[j] == b[j - |a|];
      } else {
        assert (a + b)[i] == a[i] && (a + b)[j] == b[j - |a|];
        assert a[i] in a && b[j - |a|] in b;
      }
    }
  }

  /** `Array.prototype.indexOf`: the first position holding `x`, or -1. */
  function Find<T(==)>(s: seq<T>, x: T): (r: int)
    ensures -1 <= r < |s|
    ensures r >= 0 ==> s[r] == x && x !in s[..r]
    ensures r == -1 <==> x !in s
  {
    if |s| == 0 then -1
    else if s[0] == x then 0
    else
      var r := Find(s[1..], x);
      assert s == [s[0]] + s[1..];
      if r < 0 then -1
      else
        assert s[..r + 1] == [s[0]] + s[1..][..r];
        r + 1
  }
}
