/**
 * The Python string operations the cleaner is built from: `str.index`,
 * the `in` test on strings, `str.replace`, `str.split(sep)` and
 * `sep.join(parts)`, each as a function on `seq<char>` together with the
 * facts about them that the cleaning pipeline relies on.
 */
module Strings {

  /** Position of the first `c` in `s`, or `|s|` when `s` has none
      (Python's `s.index(c)`, with "not found" reported as `|s|`). */
  function FirstIndex(s: string, c: char): (i: nat)
    ensures i <= |s|
    ensures i < |s| ==> s[i] == c
    ensures forall k :: 0 <= k < i ==> s[k] != c
  {
    if |s| == 0 then 0
    else if s[0] == c then 0
    else 1 + FirstIndex(s[1..], c)
  }

  /** Python's `w in s` on strings: `w` occurs in `s` at some position. */
  predicate Contains(s: string, w: string)
    ensures w <= s ==> Contains(s, w)
    ensures Contains(s, w) ==> |w| <= |s| && forall ch :: ch in w ==> ch in s
  {
    assert s[0..] == s;
    exists i :: 0 <= i <= |s| && w <= s[i..]
  }

  lemma ContainsInConcat(a: string, b: string, w: string)
    requires Contains(a, w) || Contains(b, w)
    ensures Contains(a + b, w)
  {
    if Contains(a, w) {
      var i :| 0 <= i <= |a| && w <= a[i..];
      assert (a + b)[i..] == a[i..] + b;
    } else {
      var i :| 0 <= i <= |b| && w <= b[i..];
      assert (a + b)[|a| + i..] == b[i..];
    }
  }

  /** A string with a character that `s` lacks does not occur in `s`. */
  lemma MissingCharNotContained(s: string, w: string, ch: char)
    requires ch in w && ch !in s
    ensures !Contains(s, w)
  {
  }

  /** Python's `s.replace(pat, rep)`: every occurrence of `pat`, found left
      to right without overlap, is replaced by `rep`. */
  function ReplaceAll(s: string, pat: string, rep: string): (r: string)
    requires |pat| > 0
    ensures forall ch :: ch in r ==> ch in s || ch in rep
    ensures |pat| == 1 && pat[0] !in rep ==> pat[0] !in r
    ensures |s| > 0 && |rep| > 0 ==> |r| > 0
    decreases |s|
  {
    if |s| == 0 then []
    else if pat <= s then rep + ReplaceAll(s[|pat|..], pat, rep)
    else [s[0]] + ReplaceAll(s[1..], pat, rep)
  }

  /** Concatenation of strings is associative. */
  lemma AppendAssociative(p: string, q: string, r: string)
    ensures p + (q + r) == (p + q) + r
  {
  }

  /** Replacing a pattern that does not occur changes nothing. */
  lemma {:induction false} ReplaceAllAbsent(s: string, pat: string, rep: string)
    requires |pat| > 0
    requires !Contains(s, pat)
    ensures ReplaceAll(s, pat, rep) == s
    decreases |s|
  {
    if |s| > 0 {
      assert !(pat <= s[0..]);
      assert s[0..] == s;
      forall i | 0 <= i <= |s[1..]| ensures !(pat <= s[1..][i..]) {
        assert s[1..][i..] == s[i + 1..];
      }
      ReplaceAllAbsent(s[1..], pat, rep);
      assert [s[0]] + s[1..] == s;
    }
  }

  /** A pattern without the character `c` is a prefix of `x + [c] + y`
      exactly when it is a prefix of `x`. */
  lemma PrefixBeforeSeparator(x: string, c: char, y: string, pat: string)
    requires |pat| > 0 && c !in pat
    ensures (pat <= x + [c] + y) == (pat <= x)
  {
    var s := x + [c] + y;
    if |pat| <= |x| {
      assert s[..|pat|] == x[..|pat|];
    } else {
      assert s[|x|] == c;
      assert pat[|x|] in pat;
    }
  }

  /** A pattern that does not contain the character `c` never matches across
      it, so replacing distributes over the two sides of a `c`. */
  lemma {:induction false} ReplaceAllAroundSeparator(x: string, c: char, y: string, pat: string, rep: string)
    requires |pat| > 0 && c !in pat
    ensures ReplaceAll(x + [c] + y, pat, rep) == ReplaceAll(x, pat, rep) + [c] + ReplaceAll(y, pat, rep)
    decreases |x|
  {
    var s := x + [c] + y;
    PrefixBeforeSeparator(x, c, y, pat);
    if |x| == 0 {
      assert s[1..] == y;
    } else if pat <= x {
      assert s[|pat|..] == x[|pat|..] + [c] + y;
      ReplaceAllAroundSeparator(x[|pat|..], c, y, pat, rep);
    } else {
      assert s[1..] == x[1..] + [c] + y;
      ReplaceAllAroundSeparator(x[1..], c, y, pat, rep);
    }
  }

  /** A match starting at the front is replaced there. */
  lemma ReplaceAllFront(y: string, pat: string, rep: string)
    requires |pat| > 0
    ensures ReplaceAll(pat + y, pat, rep) == rep + ReplaceAll(y, pat, rep)
  {
  }

  /** Text that cannot start a match is copied through. */
  lemma {:induction false} ReplaceAllSkip(x: string, y: string, pat: string, rep: string)
    requires |pat| > 0 && pat[0] !in x
    ensures ReplaceAll(x + y, pat, rep) == x + ReplaceAll(y, pat, rep)
    decreases |x|
  {
    if x != [] {
      var s := x + y;
      assert s[0] == x[0] && x[0] in x;
      assert s[1..] == x[1..] + y;
      assert pat[0] !in x[1..] by {
        forall z | z in x[1..] ensures z in x { }
      }
      ReplaceAllSkip(x[1..], y, pat, rep);
    } else {
      assert x + y == y;
    }
  }

  /** Replacing a one-character pattern distributes over concatenation. */
  lemma {:induction false} ReplaceAllConcat(x: string, y: string, pat: string, rep: string)
    requires |pat| == 1
    ensures ReplaceAll(x + y, pat, rep) == ReplaceAll(x, pat, rep) + ReplaceAll(y, pat, rep)
    decreases |x|
  {
    var s := x + y;
    if |x| == 0 {
      assert s == y;
    } else {
      assert s[0] == x[0];
      assert (pat <= s) == (pat <= x);
      assert s[1..] == x[1..] + y;
      ReplaceAllConcat(x[1..], y, pat, rep);
    }
  }

  /** Python's `s.split(c)`: the pieces between consecutive `c`s, empty
      pieces included; the empty string splits into one empty piece. */
  function Split(s: string, c: char): (parts: seq<string>)
    ensures |parts| > 0
    ensures forall p :: p in parts ==> c !in p
    ensures forall p :: p in parts ==> forall ch :: ch in p ==> ch in s
    decreases |s|
  {
    var i := FirstIndex(s, c);
    if i == |s| then [s] else [s[..i]] + Split(s[i + 1..], c)
  }

  /** The sum of the lengths of a list of strings. */
  function TotalLength(parts: seq<string>): nat
  {
    if parts == [] then 0 else |parts[0]| + TotalLength(parts[1..])
  }

  /** Python's `sep.join(parts)`: the parts in order, with `sep` between
      neighbours and nowhere else. */
  function Join(parts: seq<string>, sep: string): (r: string)
    ensures |parts| > 0 ==> parts[0] <= r
    decreases |parts|
  {
    if |parts| == 0 then []
    else if |parts| == 1 then parts[0]
    else parts[0] + sep + Join(parts[1..], sep)
  }

  /** A join is as long as its parts together plus one separator between
      each pair of neighbours. */
  lemma {:induction false} JoinLength(parts: seq<string>, sep: string)
    requires |parts| > 0
    ensures |Join(parts, sep)| == TotalLength(parts) + (|parts| - 1) * |sep|
    decreases |parts|
  {
    if |parts| > 1 {
      JoinLength(parts[1..], sep);
      assert (|parts| - 1) * |sep| == |sep| + (|parts| - 2) * |sep|;
    }
  }

  /** A join has no character besides those of the parts and the separator. */
  lemma {:induction false} JoinChars(parts: seq<string>, sep: string)
    ensures forall ch :: ch in Join(parts, sep) ==> ch in sep || exists p :: p in parts && ch in p
    decreases |parts|
  {
    if |parts| > 1 {
      JoinChars(parts[1..], sep);
      forall ch | ch in Join(parts, sep) ensures ch in sep || exists p :: p in parts && ch in p {
        if ch in parts[0] {
          assert parts[0] in parts;
        } else if ch !in sep {
          var p :| p in parts[1..] && ch in p;
          assert p in parts;
        }
      }
    } else if |parts| == 1 {
      assert forall ch :: ch in Join(parts, sep) ==> ch in parts[0];
      assert parts[0] in parts;
    }
  }

  /** Joining the pieces of a split with the same character gives back the text. */
  lemma {:induction false} JoinSplit(s: string, c: char)
    ensures Join(Split(s, c), [c]) == s
    decreases |s|
  {
    var i := FirstIndex(s, c);
    if i < |s| {
      var rest := Split(s[i + 1..], c);
      assert Split(s, c) == [s[..i]] + rest;
      assert (Split(s, c))[1..] == rest;
      JoinCons(Split(s, c), [c]);
      JoinSplit(s[i + 1..], c);
      assert s == s[..i] + [c] + s[i + 1..];
    }
  }

  /** Splitting a join of pieces free of the separator gives the pieces back. */
  lemma {:induction false} SplitJoin(parts: seq<string>, c: char)
    requires |parts| > 0
    requires forall p :: p in parts ==> c !in p
    ensures Split(Join(parts, [c]), c) == parts
    decreases |parts|
  {
    var s := Join(parts, [c]);
    var p0 := parts[0];
    var i := FirstIndex(s, c);
    if |parts| == 1 {
      assert c !in p0;
      assert i == |s|;
    } else {
      var tail := Join(parts[1..], [c]);
      JoinCons(parts, [c]);
      assert c !in p0 by { assert p0 in parts; }
      assert s[|p0|] == c;
      forall k | 0 <= k < |p0| ensures s[k] != c {
        assert s[k] == p0[k];
      }
      assert s[..i] == p0;
      assert s[i + 1..] == tail;
      forall p | p in parts[1..] ensures c !in p {
        assert p in parts;
      }
      SplitJoin(parts[1..], c);
      assert parts == [p0] + parts[1..];
    }
  }

  /** Whatever one of the joined pieces contains, the joined text contains. */
  lemma {:induction false} ContainsInJoin(parts: seq<string>, sep: string, k: nat, w: string)
    requires k < |parts| && Contains(parts[k], w)
    ensures Contains(Join(parts, sep), w)
    decreases |parts|
  {
    if |parts| > 1 {
      var tail := Join(parts[1..], sep);
      assert Join(parts, sep) == parts[0] + (sep + tail);
      if k == 0 {
        ContainsInConcat(parts[0], sep + tail, w);
      } else {
        ContainsInJoin(parts[1..], sep, k - 1, w);
        ContainsInConcat(sep, tail, w);
        ContainsInConcat(parts[0], sep + tail, w);
      }
    }
  }

  /** A join of non-empty pieces is empty exactly when there are no pieces. */
  lemma JoinEmpty(parts: seq<string>, sep: string)
    requires forall k :: 0 <= k < |parts| ==> |parts[k]| > 0
    ensures Join(parts, sep) == [] <==> parts == []
  {
  }

  /** Python's `s.replace(pat, rep)` applied to each of a list of strings. */
  function ReplaceEach(parts: seq<string>, pat: string, rep: string): (r: seq<string>)
    requires |pat| > 0
    ensures |r| == |parts|
  {
    seq(|parts|, k requires 0 <= k < |parts| => ReplaceAll(parts[k], pat, rep))
  }

  /** Replacing in a text joined with spaces is replacing in each piece,
      when the pattern has no space in it. */
  lemma {:induction false} ReplaceAllJoin(parts: seq<string>, pat: string, rep: string)
    requires |pat| > 0 && ' ' !in pat
    ensures ReplaceAll(Join(parts, " "), pat, rep) == Join(ReplaceEach(parts, pat, rep), " ")
    decreases |parts|
  {
    var r := ReplaceEach(parts, pat, rep);
    if |parts| == 0 {
      assert ReplaceAll([], pat, rep) == [];
    } else if |parts| > 1 {
      var tail := Join(parts[1..], " ");
      JoinCons(parts, " ");
      ReplaceAllAroundSeparator(parts[0], ' ', tail, pat, rep);
      ReplaceAllJoin(parts[1..], pat, rep);
      assert r[1..] == ReplaceEach(parts[1..], pat, rep);
      JoinCons(r, " ");
    }
  }

  /** A join of two or more parts is the first part, the separator and the
      join of the rest. */
  lemma JoinCons(parts: seq<string>, sep: string)
    requires |parts| > 1
    ensures Join(parts, sep) == parts[0] + sep + Join(parts[1..], sep)
  {
  }
}
