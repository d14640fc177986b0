/** The Python string operations the scraper and the cleaning step rely on:
    `str.strip()`, `str.split(sep)`, `str.replace(pat, "")` and the
    substring test `pat in s`, over strings as sequences of code points. */
module Text {

  /** The characters for which Python's `str.isspace()` holds; `str.strip()`
      with no argument removes exactly these from both ends. */
  predicate IsSpace(c: char)
  {
    || ('\t' <= c <= '\r')          // tab, line feed, vertical tab, form feed, carriage return
    || ('\U{1C}' <= c <= ' ')       // the four information separators and space
    || c == '\U{85}' || c == '\U{A0}' || c == '\U{1680}'
    || ('\U{2000}' <= c <= '\U{200A}')
    || c == '\U{2028}' || c == '\U{2029}' || c == '\U{202F}' || c == '\U{205F}' || c == '\U{3000}'
  }

  predicate AllSpace(s: string)
  {
    forall k :: 0 <= k < |s| ==> IsSpace(s[k])
  }

  /** Neither end of `s` is whitespace: what `str.strip()` returns. */
  predicate Trimmed(s: string)
  {
    s == [] || (!IsSpace(s[0]) && !IsSpace(s[|s| - 1]))
  }

  /** `r` sits at offset `a` of `s`, with only whitespace around it. */
  predicate StrippedAt(s: string, r: string, a: int)
  {
    && 0 <= a
    && a + |r| <= |s|
    && (forall k :: 0 <= k < |r| ==> s[a + k] == r[k])
    && (forall k :: 0 <= k < a ==> IsSpace(s[k]))
    && (forall k :: a + |r| <= k < |s| ==> IsSpace(s[k]))
  }

  /** The end of the run of whitespace that starts at `i`. */
  function SpaceRunEnd(s: string, i: nat): (j: nat)
    requires i <= |s|
    ensures i <= j <= |s|
    ensures forall k :: i <= k < j ==> IsSpace(s[k])
    ensures j < |s| ==> !IsSpace(s[j])
    decreases |s| - i
  {
    if i < |s| && IsSpace(s[i]) then SpaceRunEnd(s, i + 1) else i
  }

  /** The start of the run of whitespace that ends at `j`, not going below `i`. */
  function SpaceRunStart(s: string, i: nat, j: nat): (b: nat)
    requires i <= j <= |s|
    ensures i <= b <= j
    ensures forall k :: b <= k < j ==> IsSpace(s[k])
    ensures i < b ==> !IsSpace(s[b - 1])
    decreases j
  {
    if i < j && IsSpace(s[j - 1]) then SpaceRunStart(s, i, j - 1) else j
  }

  /** How many whitespace characters `strip()` cuts from the front of `s`. */
  function StripOffset(s: string): nat
  {
    SpaceRunEnd(s, 0)
  }

  /** Python's `s.strip()`: the result is trimmed and is what remains of `s`
      once whitespace is cut from both ends (unique by `StripUnique`). */
  function Strip(s: string): (r: string)
    ensures Trimmed(r)
    ensures StrippedAt(s, r, StripOffset(s))
  {
    var a := SpaceRunEnd(s, 0);
    var b := SpaceRunStart(s, a, |s|);
    s[a..b]
  }

  /** Any trimmed string surrounded by whitespace in `s` is `Strip(s)`. */
  lemma StripUnique(s: string, r: string, a: int)
    requires Trimmed(r) && StrippedAt(s, r, a)
    ensures Strip(s) == r
  {
    var a2 := SpaceRunEnd(s, 0);
    var b2 := SpaceRunStart(s, a2, |s|);
    if r == [] {
      assert a2 == |s|;
    } else {
      assert s[a] == r[0] && s[a + |r| - 1] == r[|r| - 1];
      assert a2 == a;
      assert b2 == a + |r|;
    }
  }

  /** Stripping is idempotent. */
  lemma StripIdempotent(s: string)
    ensures Strip(Strip(s)) == Strip(s)
  {
    var r := Strip(s);
    assert StrippedAt(r, r, 0);
    StripUnique(r, r, 0);
  }

  /** Whitespace appended to a string does not change what `strip()` keeps. */
  lemma StripIgnoresTrailingSpace(u: string, w: string)
    requires AllSpace(w)
    ensures Strip(u + w) == Strip(u)
  {
    var r, a := Strip(u), StripOffset(u);
    var s := u + w;
    assert forall k :: |u| <= k < |s| ==> s[k] == w[k - |u|];
    assert StrippedAt(s, r, a);
    StripUnique(s, r, a);
  }

  /** A non-whitespace character occurs in `s` exactly when it survives `strip()`. */
  lemma StripKeepsNonSpace(s: string, c: char)
    requires !IsSpace(c)
    ensures c in s <==> c in Strip(s)
  {
    var r, a := Strip(s), StripOffset(s);
    if c in r {
      var k :| 0 <= k < |r| && r[k] == c;
      assert s[a + k] == c;
    }
    if c in s {
      var k :| 0 <= k < |s| && s[k] == c;
      assert r[k - a] == c;
    }
  }

  /** The position of the first `c` in `s` at or after `i`, or `|s|`. */
  function IndexFrom(s: string, c: char, i: nat): (j: nat)
    requires i <= |s|
    ensures i <= j <= |s|
    ensures forall k :: i <= k < j ==> s[k] != c
    ensures j < |s| ==> s[j] == c
    decreases |s| - i
  {
    if i == |s| || s[i] == c then i else IndexFrom(s, c, i + 1)
  }

  /** The position of the first `c` in `s`, or `|s|` when there is none. */
  function IndexOf(s: string, c: char): (i: nat)
    ensures i <= |s|
    ensures forall k :: 0 <= k < i ==> s[k] != c
    ensures i < |s| ==> s[i] == c
    ensures i == |s| <==> c !in s
  {
    IndexFrom(s, c, 0)
  }

  /** The first occurrence is the only position with no `c` before it and
      `c` at it (or the end). */
  lemma IndexOfUnique(s: string, c: char, i: int)
    requires 0 <= i <= |s|
    requires forall k :: 0 <= k < i ==> s[k] != c
    requires i < |s| ==> s[i] == c
    ensures IndexOf(s, c) == i
  {
  }

  /** Python's `s.split(sep)` for a one-character separator. */
  function Split(s: string, sep: char): (parts: seq<string>)
    ensures |parts| >= 1
    ensures forall k :: 0 <= k < |parts| ==> sep !in parts[k]
    ensures |parts| == 1 <==> sep !in s
    decreases |s|
  {
    var i := IndexOf(s, sep);
    if i == |s| then [s] else [s[..i]] + Split(s[i + 1..], sep)
  }

  /** Python's `sep.join(parts)`. */
  function Join(parts: seq<string>, sep: char): string
  {
    if parts == [] then ""
    else if |parts| == 1 then parts[0]
    else parts[0] + [sep] + Join(parts[1..], sep)
  }

  /** A string with a separator splits into the text before it and the
      split of the text after it. */
  lemma SplitAtFirst(s: string, sep: char)
    requires sep in s
    ensures Split(s, sep) == [s[..IndexOf(s, sep)]] + Split(s[IndexOf(s, sep) + 1..], sep)
  {
  }

  /** Joining at least two parts puts a separator after the first one. */
  lemma JoinCons(head: string, rest: seq<string>, sep: char)
    requires |rest| >= 1
    ensures Join([head] + rest, sep) == head + [sep] + Join(rest, sep)
  {
    assert ([head] + rest)[1..] == rest;
  }

  /** A separator-free first part is split off at the first separator. */
  lemma SplitAfterFirst(head: string, tail: string, sep: char)
    requires sep !in head
    ensures Split(head + [sep] + tail, sep) == [head] + Split(tail, sep)
  {
    var s := head + [sep] + tail;
    assert s == head + ([sep] + tail);
    IndexOfAfterPrefix(head, [sep] + tail, sep);
    assert IndexOf(s, sep) == |head|;
    assert s[..|head|] == head;
    assert s[|head| + 1..] == tail;
    SplitAtFirst(s, sep);
  }

  /** Splitting and re-joining gives the original string back. */
  lemma {:induction false} JoinSplit(s: string, sep: char)
    ensures Join(Split(s, sep), sep) == s
    decreases |s|
  {
    var i := IndexOf(s, sep);
    if i < |s| {
      var head, tail := s[..i], s[i + 1..];
      assert s == head + [sep] + tail by {
        Decompose(s, i, i + 1);
        assert s[i..i + 1] == [sep];
      }
      assert Split(s, sep) == [head] + Split(tail, sep) by {
        SplitAtFirst(s, sep);
      }
      assert Join(Split(tail, sep), sep) == tail by {
        JoinSplit(tail, sep);
      }
      JoinCons(head, Split(tail, sep), sep);
    }
  }

  /** Joining separator-free parts and splitting again gives the parts back. */
  lemma {:induction false} SplitJoin(parts: seq<string>, sep: char)
    requires |parts| >= 1
    requires forall k :: 0 <= k < |parts| ==> sep !in parts[k]
    ensures Split(Join(parts, sep), sep) == parts
    decreases |parts|
  {
    if |parts| > 1 {
      var head, rest := parts[0], parts[1..];
      assert parts == [head] + rest;
      JoinCons(head, rest, sep);
      SplitAfterFirst(head, Join(rest, sep), sep);
      SplitJoin(rest, sep);
    } else {
      assert parts == [parts[0]];
    }
  }

  /** A prefix free of `c` only shifts the position of the first `c`. */
  lemma IndexOfAfterPrefix(x: string, y: string, c: char)
    requires c !in x
    ensures IndexOf(x + y, c) == |x| + IndexOf(y, c)
  {
    var s, j := x + y, IndexOf(y, c);
    assert forall k :: 0 <= k < |x| + j ==> s[k] != c by {
      forall k | 0 <= k < |x| + j ensures s[k] != c {
        if k >= |x| {
          assert s[k] == y[k - |x|];
        }
      }
    }
    IndexOfUnique(s, c, |x| + j);
  }

  /** The first `c` of `x + y` is the first `c` of `x` when `x` has one. */
  lemma IndexOfWithinPrefix(x: string, y: string, c: char)
    requires c in x
    ensures IndexOf(x + y, c) == IndexOf(x, c)
  {
    var s, i := x + y, IndexOf(x, c);
    assert forall k :: 0 <= k < i ==> s[k] != c by {
      forall k | 0 <= k < i ensures s[k] != c {
        assert s[k] == x[k];
      }
    }
    IndexOfUnique(s, c, i);
  }

  /** The text before the first `sep` of `s` (all of `s` when it has none). */
  function Head(s: string, sep: char): string
  {
    s[..IndexOf(s, sep)]
  }

  /** The text between the first and the second `sep` of `s`, or to its end. */
  function SecondPart(s: string, sep: char): string
    requires sep in s
  {
    Head(s[IndexOf(s, sep) + 1..], sep)
  }

  /** The first part of a split is the text before the first separator. */
  lemma SplitFirst(s: string, sep: char)
    ensures Split(s, sep)[0] == Head(s, sep)
  {
  }

  /** The second part of a split is the text between the first two separators. */
  lemma SplitSecond(s: string, sep: char)
    requires sep in s
    ensures Split(s, sep)[1] == SecondPart(s, sep)
  {
    SplitFirst(s[IndexOf(s, sep) + 1..], sep);
  }

  /** A separator-free prefix does not change the second part. */
  lemma SecondPartAfterPrefix(lead: string, rest: string, sep: char)
    requires sep !in lead && sep in rest
    ensures sep in lead + rest
    ensures SecondPart(lead + rest, sep) == SecondPart(rest, sep)
  {
    var s := lead + rest;
    var j := IndexOf(rest, sep);
    IndexOfAfterPrefix(lead, rest, sep);
    var tail := rest[j + 1..];
    assert s[IndexOf(s, sep) + 1..] == tail by {
      DropAfterPrefix(lead, rest, |lead| + j + 1);
    }
    assert SecondPart(s, sep) == Head(tail, sep);
  }

  /** Separator-free trailing whitespace does not change the stripped head. */
  lemma HeadBeforePadding(u: string, trail: string, sep: char)
    requires sep !in trail && AllSpace(trail)
    ensures Strip(Head(u + trail, sep)) == Strip(Head(u, sep))
  {
    if sep in u {
      IndexOfWithinPrefix(u, trail, sep);
      var m := IndexOf(u, sep);
      assert (u + trail)[..m] == u[..m];
    } else {
      IndexOfAfterPrefix(u, trail, sep);
      assert IndexOf(trail, sep) == |trail|;
      assert Head(u + trail, sep) == u + trail;
      assert Head(u, sep) == u;
      StripIgnoresTrailingSpace(u, trail);
    }
  }

  /** Text appended after a string with a separator extends its tail. */
  lemma SecondPartWithSuffix(t: string, trail: string, sep: char)
    requires sep in t
    ensures sep in t + trail
    ensures SecondPart(t + trail, sep) == Head(t[IndexOf(t, sep) + 1..] + trail, sep)
  {
    var j := IndexOf(t, sep);
    IndexOfWithinPrefix(t, trail, sep);
    DropWithinPrefix(t, trail, j + 1);
  }

  /** Separator-free trailing whitespace does not change the stripped second part. */
  lemma SecondPartBeforePadding(t: string, trail: string, sep: char)
    requires sep in t && sep !in trail && AllSpace(trail)
    ensures sep in t + trail
    ensures Strip(SecondPart(t + trail, sep)) == Strip(SecondPart(t, sep))
  {
    SecondPartWithSuffix(t, trail, sep);
    HeadBeforePadding(t[IndexOf(t, sep) + 1..], trail, sep);
  }

  /** `s` is its leading whitespace, then `Strip(s)`, then its trailing
      whitespace. */
  lemma StripDecompose(s: string)
    ensures var a, t := StripOffset(s), Strip(s);
      && s == s[..a] + (t + s[a + |t|..])
      && AllSpace(s[..a]) && AllSpace(s[a + |t|..])
  {
    var a, t := StripOffset(s), Strip(s);
    assert s[a..a + |t|] == t;
    Decompose(s, a, a + |t|);
    assert s[..a] + t + s[a + |t|..] == s[..a] + (t + s[a + |t|..]);
  }

  /** The text after the first `sep`, once stripped, is the same whether or
      not `s` was stripped first: padding never holds a separator. */
  lemma SecondPartIgnoresPadding(s: string, sep: char)
    requires !IsSpace(sep) && sep in s
    ensures sep in Strip(s)
    ensures Strip(SecondPart(Strip(s), sep)) == Strip(SecondPart(s, sep))
  {
    StripKeepsNonSpace(s, sep);
    var t, a := Strip(s), StripOffset(s);
    var lead, trail := s[..a], s[a + |t|..];
    StripDecompose(s);
    assert sep !in lead && sep !in trail;
    SecondPartBeforePadding(t, trail, sep);
    SecondPartAfterPrefix(lead, t + trail, sep);
  }

  /** The second `sep`-separated segment of `s`, once stripped, is the same
      whether or not `s` was stripped first. */
  lemma SecondSegmentIgnoresPadding(s: string, sep: char)
    requires !IsSpace(sep) && sep in s
    ensures sep in Strip(s)
    ensures Strip(Split(Strip(s), sep)[1]) == Strip(Split(s, sep)[1])
  {
    SecondPartIgnoresPadding(s, sep);
    SplitSecond(s, sep);
    SplitSecond(Strip(s), sep);
  }

  /** Dropping past the first of two concatenated sequences. */
  lemma DropAfterPrefix<T>(a: seq<T>, b: seq<T>, n: int)
    requires |a| <= n <= |a| + |b|
    ensures (a + b)[n..] == b[n - |a|..]
  {
  }

  /** Dropping within the first of two concatenated sequences. */
  lemma DropWithinPrefix<T>(a: seq<T>, b: seq<T>, n: int)
    requires 0 <= n <= |a|
    ensures (a + b)[n..] == a[n..] + b
  {
  }

  /** A sequence is the concatenation of its three slices around `a` and `b`. */
  lemma Decompose<T>(s: seq<T>, a: int, b: int)
    requires 0 <= a <= b <= |s|
    ensures s == s[..a] + s[a..b] + s[b..]
  {
  }

  /** `pat` occurs in `s` starting at position `i`. */
  predicate OccursAt(s: string, pat: string, i: int)
  {
    0 <= i && i + |pat| <= |s| && s[i..i + |pat|] == pat
  }

  /** Python's substring test `pat in s`. */
  predicate Contains(s: string, pat: string)
  {
    exists i :: 0 <= i <= |s| - |pat| && OccursAt(s, pat, i)
  }

  /** An occurrence is either at the front or in the tail. */
  lemma ContainsTail(s: string, pat: string)
    requires s != []
    ensures Contains(s, pat) <==> OccursAt(s, pat, 0) || Contains(s[1..], pat)
  {
    if Contains(s[1..], pat) {
      var i :| 0 <= i <= |s[1..]| - |pat| && OccursAt(s[1..], pat, i);
      assert s[i + 1..i + 1 + |pat|] == s[1..][i..i + |pat|];
      assert OccursAt(s, pat, i + 1);
    }
    if Contains(s, pat) && !OccursAt(s, pat, 0) {
      var i :| 0 <= i <= |s| - |pat| && OccursAt(s, pat, i);
      assert s[1..][i - 1..i - 1 + |pat|] == s[i..i + |pat|];
      assert OccursAt(s[1..], pat, i - 1);
    }
  }

  /** Every character of a pattern that occurs in `s` is a character of
      `s`: a pattern cannot occur in a string that lacks one of them. */
  lemma PatternCharsOccur(s: string, pat: string, c: char)
    requires c in pat
    ensures Contains(s, pat) ==> c in s
  {
    if Contains(s, pat) {
      var i :| 0 <= i <= |s| - |pat| && OccursAt(s, pat, i);
      var j :| 0 <= j < |pat| && pat[j] == c;
      assert s[i + j] == s[i..i + |pat|][j];
    }
  }

  /** Python's `s.replace(pat, "")`: removes the non-overlapping occurrences
      of `pat`, scanning from the left. The result is shorter exactly when
      there was something to remove. */
  function RemoveAll(s: string, pat: string): (r: string)
    requires pat != []
    ensures |r| <= |s|
    ensures !Contains(s, pat) ==> r == s
    ensures Contains(s, pat) ==> |r| <= |s| - |pat|
    decreases |s|
  {
    if |s| < |pat| then s
    else if s[..|pat|] == pat then
      assert OccursAt(s, pat, 0);
      RemoveAll(s[|pat|..], pat)
    else
      ContainsTail(s, pat);
      [s[0]] + RemoveAll(s[1..], pat)
  }

  /** Removing a one-character pattern leaves none of that character behind. */
  lemma {:induction false} RemoveCharLeavesNone(s: string, c: char)
    ensures c !in RemoveAll(s, [c])
    decreases |s|
  {
    if |s| >= 1 {
      if s[..1] == [c] {
        RemoveCharLeavesNone(s[1..], c);
      } else {
        RemoveCharLeavesNone(s[1..], c);
        assert s[0] != c;
      }
    }
  }

  /** The characters of `s` other than `c`, in order. */
  function Without(s: string, c: char): string
  {
    if s == [] then [] else (if s[0] == c then [] else [s[0]]) + Without(s[1..], c)
  }

  /** Removing a one-character pattern deletes exactly that character and
      keeps every other one in place. */
  lemma {:induction false} RemoveCharIsWithout(s: string, c: char)
    ensures RemoveAll(s, [c]) == Without(s, c)
    decreases |s|
  {
    if |s| >= 1 {
      RemoveCharIsWithout(s[1..], c);
      if s[0] == c {
        assert s[..1] == [c];
      } else {
        assert s[..1] != [c];
      }
    }
  }

  /** A one-character pattern occurs exactly where the character does. */
  lemma ContainsChar(s: string, c: char)
    ensures Contains(s, [c]) <==> c in s
  {
    if c in s {
      var k :| 0 <= k < |s| && s[k] == c;
      assert OccursAt(s, [c], k);
    }
    if Contains(s, [c]) {
      var k :| 0 <= k <= |s| - 1 && OccursAt(s, [c], k);
      assert s[k] == s[k..k + 1][0];
    }
  }

  /** Removing `c` from a string that does not start with `c` keeps its first
      character, so a non-empty such string stays non-empty. */
  lemma RemoveCharKeepsHead(s: string, c: char)
    requires s != [] && s[0] != c
    ensures RemoveAll(s, [c]) != [] && RemoveAll(s, [c])[0] == s[0]
  {
    assert s[..1] != [c];
  }
}
