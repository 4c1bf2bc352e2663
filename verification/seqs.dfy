/** Sequence helpers used across the days: sums, counting, splitting and joining
    of strings the way Rust's `str::split`, `split_whitespace` and `trim` do. */
module Seqs {

  /** Sum of a sequence of integers, folded from the front. */
  function Sum(s: seq<int>): int
  {
    if s == [] then 0 else s[0] + Sum(s[1..])
  }

  lemma {:induction false} SumAppend(a: seq<int>, b: seq<int>)
    ensures Sum(a + b) == Sum(a) + Sum(b)
  {
    if a == [] {
      assert a + b == b;
    } else {
      assert (a + b)[1..] == a[1..] + b;
      SumAppend(a[1..], b);
    }
  }

  lemma {:induction false} SumNonNegative(s: seq<int>)
    requires forall k :: 0 <= k < |s| ==> s[k] >= 0
    ensures Sum(s) >= 0
  {
    if s != [] {
      SumNonNegative(s[1..]);
    }
  }

  lemma SumSnoc(a: seq<int>, x: int)
    ensures Sum(a + [x]) == Sum(a) + x
  {
    SumAppend(a, [x]);
  }

  /** Number of elements of `s` satisfying `p`. */
  function CountWhere<T>(s: seq<T>, p: T -> bool): (n: nat)
    ensures n <= |s|
  {
    if s == [] then 0 else (if p(s[0]) then 1 else 0) + CountWhere(s[1..], p)
  }

  lemma {:induction false} CountWhereAppend<T>(a: seq<T>, b: seq<T>, p: T -> bool)
    ensures CountWhere(a + b, p) == CountWhere(a, p) + CountWhere(b, p)
  {
    if a == [] {
      assert a + b == b;
    } else {
      assert (a + b)[1..] == a[1..] + b;
      CountWhereAppend(a[1..], b, p);
    }
  }

  /** The count of matching elements is the size of the set of matching positions. */
  lemma {:induction false} CountWhereIsCardinality<T>(s: seq<T>, p: T -> bool)
    ensures CountWhere(s, p) == |set i | 0 <= i < |s| && p(s[i])|
    decreases |s|
  {
    if s != [] {
      var init := s[..|s| - 1];
      var x := s[|s| - 1];
      assert s == init + [x];
      CountWhereIsCardinality(init, p);
      CountWhereAppend(init, [x], p);
      assert CountWhere([x], p) == (if p(x) then 1 else 0) by {
        assert [x][1..] == [];
      }
      var before := set i | 0 <= i < |init| && p(init[i]);
      var all := set i | 0 <= i < |s| && p(s[i]);
      if p(x) {
        assert all == before + {|init|};
      } else {
        assert all == before;
      }
    }
  }

  /** Some element matches iff the count is positive. */
  lemma {:induction false} CountWherePositive<T>(s: seq<T>, p: T -> bool)
    ensures CountWhere(s, p) > 0 <==> exists i :: 0 <= i < |s| && p(s[i])
  {
    if s != [] {
      CountWherePositive(s[1..], p);
      if !p(s[0]) && exists i :: 0 <= i < |s| && p(s[i]) {
        var i :| 0 <= i < |s| && p(s[i]);
        assert s[1..][i - 1] == s[i];
      }
    }
  }

  /** Counting with two predicates that agree on the elements gives the same count. */
  lemma {:induction false} CountWhereSame<T>(s: seq<T>, p: T -> bool, q: T -> bool)
    requires forall i :: 0 <= i < |s| ==> p(s[i]) == q(s[i])
    ensures CountWhere(s, p) == CountWhere(s, q)
  {
    if s != [] {
      CountWhereSame(s[1..], p, q);
    }
  }

  /** Index of the first `c` in `s`, or `|s|` when there is none. */
  function IndexOf(s: string, c: char): (i: nat)
    ensures i <= |s|
    ensures i < |s| ==> s[i] == c
    ensures forall k :: 0 <= k < i ==> s[k] != c
  {
    if s == [] then 0 else if s[0] == c then 0 else 1 + IndexOf(s[1..], c)
  }

  /** `s.split(sep)` for a one-character separator: never empty, and
      empty fields are kept. */
  function Split(s: string, sep: char): (parts: seq<string>)
    ensures |parts| >= 1
    decreases |s|
  {
    var i := IndexOf(s, sep);
    if i == |s| then [s] else [s[..i]] + Split(s[i + 1..], sep)
  }

  /** The inverse of `Split`: the fields glued back with the separator. */
  function Join(parts: seq<string>, sep: char): string
    requires |parts| >= 1
  {
    if |parts| == 1 then parts[0] else parts[0] + [sep] + Join(parts[1..], sep)
  }

  lemma {:induction false} JoinSplit(s: string, sep: char)
    ensures Join(Split(s, sep), sep) == s
    decreases |s|
  {
    var i := IndexOf(s, sep);
    if i < |s| {
      var tail := Split(s[i + 1..], sep);
      JoinSplit(s[i + 1..], sep);
      JoinCons(s[..i], tail, sep);
      CutAt(s, i);
    }
  }

  lemma JoinCons(head: string, tail: seq<string>, sep: char)
    requires |tail| >= 1
    ensures Join([head] + tail, sep) == head + [sep] + Join(tail, sep)
  {
    assert ([head] + tail)[1..] == tail;
  }

  /** A string is its prefix, the character at the cut, and its suffix. */
  lemma CutAt(s: string, i: nat)
    requires i < |s|
    ensures s[..i] + [s[i]] + s[i + 1..] == s
  {
  }

  lemma {:induction false} SplitJoin(parts: seq<string>, sep: char)
    requires |parts| >= 1
    requires forall k :: 0 <= k < |parts| ==> sep !in parts[k]
    ensures Split(Join(parts, sep), sep) == parts
  {
    var s := Join(parts, sep);
    if |parts| == 1 {
      NotInIndexOf(parts[0], sep);
    } else {
      var rest := Join(parts[1..], sep);
      assert s == parts[0] + [sep] + rest;
      IndexOfAfter(parts[0], sep, rest);
      assert s[..|parts[0]|] == parts[0];
      assert s[|parts[0]| + 1..] == rest;
      SplitJoin(parts[1..], sep);
    }
  }

  /** Every character of a join is the separator or a character of a part. */
  lemma {:induction false} JoinChars(parts: seq<string>, sep: char, p: char -> bool)
    requires |parts| >= 1 && p(sep)
    requires forall k, m :: 0 <= k < |parts| && 0 <= m < |parts[k]| ==> p(parts[k][m])
    ensures |Join(parts, sep)| >= |parts[0]|
    ensures forall m :: 0 <= m < |Join(parts, sep)| ==> p(Join(parts, sep)[m])
  {
    if |parts| > 1 {
      JoinChars(parts[1..], sep, p);
      var rest := Join(parts[1..], sep);
      forall m | 0 <= m < |Join(parts, sep)|
        ensures p(Join(parts, sep)[m])
      {
        if m < |parts[0]| {
          assert Join(parts, sep)[m] == parts[0][m];
        } else if m > |parts[0]| {
          assert Join(parts, sep)[m] == rest[m - |parts[0]| - 1];
        }
      }
    }
  }

  lemma NotInIndexOf(s: string, c: char)
    requires c !in s
    ensures IndexOf(s, c) == |s|
  {
  }

  lemma {:induction false} IndexOfAfter(a: string, c: char, b: string)
    requires c !in a
    ensures IndexOf(a + [c] + b, c) == |a|
  {
    if a != [] {
      assert (a + [c] + b)[1..] == a[1..] + [c] + b;
      IndexOfAfter(a[1..], c, b);
    }
  }

  /** The whitespace `split_whitespace` and `trim` skip (ASCII only). */
  predicate IsSpace(c: char)
  {
    c == ' ' || c == '\t' || c == '\n' || c == '\r'
  }

  /** Longest prefix without whitespace. */
  function TakeWord(s: string): (w: string)
    ensures |w| <= |s| && w == s[..|w|]
    ensures forall k :: 0 <= k < |w| ==> !IsSpace(w[k])
    ensures |w| < |s| ==> IsSpace(s[|w|])
  {
    if s == [] || IsSpace(s[0]) then [] else [s[0]] + TakeWord(s[1..])
  }

  /** `s.split_whitespace()`: the maximal runs of non-whitespace characters. */
  function Words(s: string): (ws: seq<string>)
    ensures forall k :: 0 <= k < |ws| ==> ws[k] != []
    decreases |s|
  {
    if s == [] then []
    else if IsSpace(s[0]) then Words(s[1..])
    else
      var w := TakeWord(s);
      [w] + Words(s[|w|..])
  }

  predicate IsWord(w: string)
  {
    w != [] && forall k :: 0 <= k < |w| ==> !IsSpace(w[k])
  }

  function JoinSpace(ws: seq<string>): string
  {
    if ws == [] then [] else if |ws| == 1 then ws[0] else ws[0] + " " + JoinSpace(ws[1..])
  }

  lemma {:induction false} TakeWordOf(w: string, rest: string)
    requires IsWord(w)
    requires rest == [] || IsSpace(rest[0])
    ensures TakeWord(w + rest) == w
  {
    if |w| == 1 {
      assert (w + rest)[1..] == rest;
    } else {
      assert (w + rest)[1..] == w[1..] + rest;
      TakeWordOf(w[1..], rest);
    }
  }

  /** Words separated by single spaces split back into the same words. */
  lemma {:induction false} WordsJoinSpace(ws: seq<string>)
    requires forall k :: 0 <= k < |ws| ==> IsWord(ws[k])
    ensures Words(JoinSpace(ws)) == ws
  {
    if ws == [] {
    } else if |ws| == 1 {
      TakeWordOf(ws[0], []);
      assert ws[0] + [] == ws[0];
      assert JoinSpace(ws)[|ws[0]|..] == [];
    } else {
      var rest := JoinSpace(ws[1..]);
      assert JoinSpace(ws) == ws[0] + (" " + rest);
      TakeWordOf(ws[0], " " + rest);
      assert JoinSpace(ws)[|ws[0]|..] == " " + rest;
      assert (" " + rest)[1..] == rest;
      WordsJoinSpace(ws[1..]);
    }
  }

  /** `s.trim_start()`: the suffix left after the leading whitespace. */
  function TrimStart(s: string): (t: string)
    ensures |t| <= |s| && t == s[|s| - |t|..]
    ensures forall k :: 0 <= k < |s| - |t| ==> IsSpace(s[k])
    ensures t == [] || !IsSpace(t[0])
  {
    if s != [] && IsSpace(s[0]) then TrimStart(s[1..]) else s
  }

  /** `s.trim_end()`: the prefix left before the trailing whitespace. */
  function TrimEnd(s: string): (t: string)
    ensures |t| <= |s| && t == s[..|t|]
    ensures forall k :: |t| <= k < |s| ==> IsSpace(s[k])
    ensures t == [] || !IsSpace(t[|t| - 1])
  {
    if s != [] && IsSpace(s[|s| - 1]) then TrimEnd(s[..|s| - 1]) else s
  }

  /** `s.trim()`: leading and trailing whitespace removed. */
  function Trim(s: string): (t: string)
    ensures t == [] || (!IsSpace(t[0]) && !IsSpace(t[|t| - 1]))
  {
    TrimEnd(TrimStart(s))
  }

  /** A string without surrounding whitespace is its own trim. */
  lemma TrimPlain(s: string)
    requires s == [] || (!IsSpace(s[0]) && !IsSpace(s[|s| - 1]))
    ensures Trim(s) == s
  {
  }

  /** Index of the last `c` in `s`, or `|s|` when there is none. */
  function LastIndexOf(s: string, c: char): (i: nat)
    ensures i <= |s|
    ensures i < |s| ==> s[i] == c
    ensures forall k :: i < k < |s| ==> s[k] != c
    ensures i == |s| ==> c !in s
  {
    if s == [] then 0
    else if s[|s| - 1] == c then |s| - 1
    else
      var i := LastIndexOf(s[..|s| - 1], c);
      if i == |s| - 1 then |s| else i
  }

  lemma LastIndexOfBefore(a: string, c: char, b: string)
    requires c !in b
    ensures LastIndexOf(a + [c] + b, c) == |a|
  {
    assert (a + [c] + b)[|a|] == c;
  }


  predicate StartsWith(s: string, prefix: string)
  {
    |prefix| <= |s| && s[..|prefix|] == prefix
  }

  /** The elements of `s` in the opposite order. */
  function Reverse<T>(s: seq<T>): (r: seq<T>)
    ensures |r| == |s|
    ensures forall k :: 0 <= k < |s| ==> r[k] == s[|s| - 1 - k]
  {
    seq(|s|, k requires 0 <= k < |s| => s[|s| - 1 - k])
  }

  /** Reversing moves the first element to the end. */
  lemma ReverseCons<T>(s: seq<T>)
    requires s != []
    ensures Reverse(s) == Reverse(s[1..]) + [s[0]]
  {
  }

  /** `pat` occurs in `s` at position `i`. */
  predicate OccursAt(s: string, pat: string, i: nat)
  {
    i + |pat| <= |s| && s[i..i + |pat|] == pat
  }

  /** Index of the first occurrence of a non-empty `pat` in `s`, or `|s|`
      when there is none. */
  function FindText(s: string, pat: string): (i: nat)
    requires pat != []
    ensures i <= |s|
    ensures i < |s| ==> OccursAt(s, pat, i)
    ensures forall k :: 0 <= k < i ==> !OccursAt(s, pat, k)
    decreases |s|
  {
    if |s| < |pat| then |s|
    else if s[..|pat|] == pat then 0
    else
      var j := FindText(s[1..], pat);
      FindTextShift(s, pat, j);
      if j == |s| - 1 then |s| else j + 1
  }

  /** Occurrences in `s[1..]` are occurrences in `s`, one place later. */
  lemma FindTextShift(s: string, pat: string, j: nat)
    requires s != [] && j <= |s| - 1
    requires forall k :: 0 <= k < j ==> !OccursAt(s[1..], pat, k)
    requires !OccursAt(s, pat, 0)
    ensures forall k :: 0 <= k < j + 1 ==> !OccursAt(s, pat, k)
    ensures OccursAt(s[1..], pat, j) ==> OccursAt(s, pat, j + 1)
  {
    forall k | 1 <= k < j + 1
      ensures !OccursAt(s, pat, k)
    {
      assert !OccursAt(s[1..], pat, k - 1);
      if k + |pat| <= |s| {
        assert s[1..][k - 1..k - 1 + |pat|] == s[k..k + |pat|];
      }
    }
    if OccursAt(s[1..], pat, j) {
      assert s[1..][j..j + |pat|] == s[j + 1..j + 1 + |pat|];
    }
  }

  /** `s.split(pat)` for a non-empty separator string: the pieces between
      the non-overlapping occurrences found from the left. */
  function SplitText(s: string, pat: string): (parts: seq<string>)
    requires pat != []
    ensures |parts| >= 1
    decreases |s|
  {
    var i := FindText(s, pat);
    if i == |s| then [s] else [s[..i]] + SplitText(s[i + |pat|..], pat)
  }

  /** No occurrence of `pat` starts in `s` when `s` lacks one of its characters. */
  lemma Absent(s: string, pat: string, j: nat)
    requires j < |pat| && pat[j] !in s
    ensures forall k :: 0 <= k < |s| ==> !OccursAt(s, pat, k)
  {
    forall k | 0 <= k < |s|
      ensures !OccursAt(s, pat, k)
    {
      if k + |pat| <= |s| {
        assert s[k..k + |pat|][j] == s[k + j];
      }
    }
  }

  lemma SplitAbsent(s: string, pat: string)
    requires pat != [] && forall k :: 0 <= k < |s| ==> !OccursAt(s, pat, k)
    ensures SplitText(s, pat) == [s]
  {
  }

  /** Splitting at a separator that first occurs after `a`. */
  lemma SplitFirst(a: string, pat: string, b: string)
    requires pat != [] && forall k :: 0 <= k < |a| ==> !OccursAt(a + pat + b, pat, k)
    ensures SplitText(a + pat + b, pat) == [a] + SplitText(b, pat)
  {
    var s := a + pat + b;
    assert s[|a|..|a| + |pat|] == pat;
    assert OccursAt(s, pat, |a|);
    assert s[..|a|] == a && s[|a| + |pat|..] == b;
  }

  /** The inverse of `SplitText`: the pieces glued back with the separator. */
  function JoinText(parts: seq<string>, pat: string): string
    requires |parts| >= 1
  {
    if |parts| == 1 then parts[0] else parts[0] + pat + JoinText(parts[1..], pat)
  }

  /** Pieces without the separator's first character split back out of
      their join. */
  lemma {:induction false} SplitTextJoin(parts: seq<string>, pat: string)
    requires |parts| >= 1 && pat != []
    requires forall k :: 0 <= k < |parts| ==> pat[0] !in parts[k]
    ensures SplitText(JoinText(parts, pat), pat) == parts
  {
    Absent(parts[0], pat, 0);
    if |parts| == 1 {
      SplitAbsent(parts[0], pat);
    } else {
      var rest := JoinText(parts[1..], pat);
      var s := parts[0] + pat + rest;
      forall k | 0 <= k < |parts[0]|
        ensures !OccursAt(s, pat, k)
      {
        assert s[k] == parts[0][k];
        if k + |pat| <= |s| {
          assert s[k..k + |pat|][0] == s[k];
        }
      }
      SplitFirst(parts[0], pat, rest);
      SplitTextJoin(parts[1..], pat);
      assert [parts[0]] + parts[1..] == parts;
    }
  }

  /** A subset is no larger than the set holding it. */
  lemma SubsetCard<T>(a: set<T>, b: set<T>)
    requires a <= b
    ensures |a| <= |b|
  {
    assert b == a + (b - a);
  }
}
