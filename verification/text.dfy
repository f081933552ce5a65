/**
 * Python string and sequence semantics that the rest of the model relies on:
 * whitespace as str.isspace() sees it, strip, ASCII case mapping, substring
 * search, literal replacement, the two regular-expression substitutions used
 * on runs and on bracketed spans, split and join, zfill, decimal formatting
 * and slicing with a possibly negative bound.
 */
module Text {

  datatype Option<T> = None | Some(value: T)

  function Min(a: int, b: int): int { if a <= b then a else b }
  function Max(a: int, b: int): int { if a <= b then b else a }

  // ---------------------------------------------------------------------------
  // Whitespace and strip

  /** The characters for which str.isspace() holds; in a str pattern the
      regular-expression class \s matches exactly these. */
  const Whitespace: set<char> := {
    '\t', '\n', '\U{0B}', '\U{0C}', '\r', '\U{1C}', '\U{1D}', '\U{1E}', '\U{1F}', ' ',
    '\U{85}', '\U{A0}', '\U{1680}',
    '\U{2000}', '\U{2001}', '\U{2002}', '\U{2003}', '\U{2004}', '\U{2005}',
    '\U{2006}', '\U{2007}', '\U{2008}', '\U{2009}', '\U{200A}',
    '\U{2028}', '\U{2029}', '\U{202F}', '\U{205F}', '\U{3000}'
  }

  /** str.isspace() on one character, by code-point ranges. */
  predicate IsSpace(c: char)
  {
    c == ' ' || '\t' <= c <= '\r' || '\U{1C}' <= c <= '\U{1F}' || c == '\U{85}' || c == '\U{A0}'
    || c == '\U{1680}' || '\U{2000}' <= c <= '\U{200A}' || c == '\U{2028}' || c == '\U{2029}'
    || c == '\U{202F}' || c == '\U{205F}' || c == '\U{3000}'
  }

  lemma WhitespaceIsSpace(c: char)
    ensures c in Whitespace <==> IsSpace(c)
  {
  }

  predicate AllSpace(s: string) { forall k | 0 <= k < |s| :: IsSpace(s[k]) }

  /** str.lstrip(): drops the leading whitespace. */
  function LStrip(s: string): (r: string)
    ensures |r| <= |s| && r == s[|s| - |r|..]
    ensures r != [] ==> !IsSpace(r[0])
    ensures forall k | 0 <= k < |s| - |r| :: IsSpace(s[k])
  {
    if s != [] && IsSpace(s[0]) then LStrip(s[1..]) else s
  }

  /** str.rstrip(): drops the trailing whitespace. */
  function RStrip(s: string): (r: string)
    ensures |r| <= |s| && r == s[..|r|]
    ensures r != [] ==> !IsSpace(r[|r| - 1])
    ensures forall k | |r| <= k < |s| :: IsSpace(s[k])
  {
    if s != [] && IsSpace(s[|s| - 1]) then RStrip(s[..|s| - 1]) else s
  }

  /** Where str.strip() starts keeping characters. */
  function StripStart(s: string): nat
  {
    |s| - |LStrip(s)|
  }

  /** str.strip(): the substring of s left after dropping whitespace at both
      ends; it begins and ends with a non-whitespace character, and everything
      dropped is whitespace. */
  function Strip(s: string): (r: string)
    ensures StripStart(s) + |r| <= |s| && r == s[StripStart(s)..StripStart(s) + |r|]
    ensures r != [] ==> !IsSpace(r[0]) && !IsSpace(r[|r| - 1])
    ensures forall k | 0 <= k < StripStart(s) :: IsSpace(s[k])
    ensures forall k | StripStart(s) + |r| <= k < |s| :: IsSpace(s[k])
  {
    RStrip(LStrip(s))
  }

  /** A string that strip() leaves alone. */
  predicate IsStripped(s: string)
  {
    s != [] ==> !IsSpace(s[0]) && !IsSpace(s[|s| - 1])
  }

  lemma StrippedFixed(s: string)
    requires IsStripped(s)
    ensures Strip(s) == s
  {
  }

  /** strip() is empty exactly on all-whitespace input. */
  lemma StripEmpty(s: string)
    ensures Strip(s) == [] <==> AllSpace(s)
  {
    if Strip(s) != [] {
      assert !IsSpace(s[StripStart(s)]);
    }
  }

  /** str.lstrip(c) for one character c. */
  function LStripChar(s: string, c: char): (r: string)
    ensures |r| <= |s| && r == s[|s| - |r|..]
    ensures r != [] ==> r[0] != c
    ensures forall k | 0 <= k < |s| - |r| :: s[k] == c
  {
    if s != [] && s[0] == c then LStripChar(s[1..], c) else s
  }

  /** A text made of c only strips to nothing. */
  lemma {:induction false} LStripCharAll(s: string, c: char)
    requires forall k | 0 <= k < |s| :: s[k] == c
    ensures LStripChar(s, c) == []
  {
    if s != [] {
      LStripCharAll(s[1..], c);
    }
  }

  // ---------------------------------------------------------------------------
  // Case mapping (ASCII letters only)

  function LowerChar(c: char): char
  {
    if 'A' <= c <= 'Z' then (c as int + 32) as char else c
  }

  function UpperChar(c: char): char
  {
    if 'a' <= c <= 'z' then (c as int - 32) as char else c
  }

  function Lower(s: string): string
  {
    seq(|s|, k requires 0 <= k < |s| => LowerChar(s[k]))
  }

  function Upper(s: string): string
  {
    seq(|s|, k requires 0 <= k < |s| => UpperChar(s[k]))
  }

  // ---------------------------------------------------------------------------
  // Substrings

  predicate OccursAt(s: string, pat: string, i: int)
  {
    0 <= i && i + |pat| <= |s| && s[i..i + |pat|] == pat
  }

  /** Python's `pat in s`. */
  predicate Contains(s: string, pat: string)
  {
    exists i | 0 <= i <= |s| - |pat| :: OccursAt(s, pat, i)
  }

  predicate StartsWith(s: string, pat: string)
  {
    |pat| <= |s| && s[..|pat|] == pat
  }

  lemma StartsWithCons(s: string, q: string)
    requires s != [] && q != []
    ensures StartsWith(s, q) <==> s[0] == q[0] && StartsWith(s[1..], q[1..])
  {
    if |q| <= |s| {
      assert s[..|q|] == [s[0]] + s[1..][..|q| - 1];
      assert q == [q[0]] + q[1..];
    }
  }

  /** Python's `any(w in s for w in words)`. */
  predicate ContainsAny(s: string, words: seq<string>)
  {
    exists k | 0 <= k < |words| :: Contains(s, words[k])
  }

  function FindFrom(s: string, pat: string, from: nat): (r: int)
    ensures r == -1 || (from <= r && OccursAt(s, pat, r))
    ensures forall j | from <= j && (r == -1 || j < r) :: !OccursAt(s, pat, j)
    decreases |s| - from
  {
    if from + |pat| > |s| then -1
    else if OccursAt(s, pat, from) then from
    else FindFrom(s, pat, from + 1)
  }

  /** str.find(pat): the first index at which pat occurs, or -1 when it does not. */
  function Find(s: string, pat: string): (r: int)
    ensures r == -1 <==> !Contains(s, pat)
    ensures r != -1 ==> OccursAt(s, pat, r) && forall j | 0 <= j < r :: !OccursAt(s, pat, j)
  {
    FindFrom(s, pat, 0)
  }

  function IndexOfChar(s: string, c: char): (r: int)
    ensures -1 <= r < |s|
    ensures r == -1 <==> c !in s
    ensures r >= 0 ==> s[r] == c && c !in s[..r]
  {
    if s == [] then -1
    else if s[0] == c then 0
    else
      var k := IndexOfChar(s[1..], c);
      if k == -1 then -1 else k + 1
  }

  lemma NotContainsSuffix(s: string, q: string, k: nat)
    requires k <= |s| && !Contains(s, q)
    ensures !Contains(s[k..], q)
  {
    if Contains(s[k..], q) {
      var i :| 0 <= i <= |s[k..]| - |q| && OccursAt(s[k..], q, i);
      assert s[k..][i..i + |q|] == s[k + i..k + i + |q|];
      assert OccursAt(s, q, k + i);
    }
  }

  // ---------------------------------------------------------------------------
  // Characters kept and removed

  /** The characters of s that are not in b, in their order. */
  function Without(s: string, b: set<char>): (r: string)
    ensures |r| <= |s|
  {
    if s == [] then [] else (if s[0] in b then [] else [s[0]]) + Without(s[1..], b)
  }

  lemma {:induction false} WithoutConcat(x: string, y: string, b: set<char>)
    ensures Without(x + y, b) == Without(x, b) + Without(y, b)
  {
    if x == [] {
      assert x + y == y;
    } else {
      assert (x + y)[1..] == x[1..] + y;
      WithoutConcat(x[1..], y, b);
    }
  }

  lemma {:induction false} WithoutAllIn(s: string, b: set<char>)
    requires forall c | c in s :: c in b
    ensures Without(s, b) == []
  {
    if s != [] {
      WithoutAllIn(s[1..], b);
    }
  }

  lemma {:induction false} WithoutKeeps(s: string, b: set<char>, c: char)
    requires c !in b
    ensures c in Without(s, b) <==> c in s
  {
    if s != [] {
      WithoutKeeps(s[1..], b, c);
      assert s == [s[0]] + s[1..];
    }
  }

  lemma {:induction false} WithoutNone(s: string, b: set<char>)
    requires forall k | 0 <= k < |s| :: s[k] !in b
    ensures Without(s, b) == s
  {
    if s != [] {
      WithoutNone(s[1..], b);
      assert s == [s[0]] + s[1..];
    }
  }

  /** Dropping a run of characters of b that follows a part free of them. */
  lemma WithoutGap(s: string, b: set<char>, i: nat, j: nat)
    requires i <= j <= |s|
    requires forall k | 0 <= k < i :: s[k] !in b
    requires forall k | i <= k < j :: s[k] in b
    ensures Without(s, b) == s[..i] + Without(s[j..], b)
  {
    WithoutFreePrefix(s, b, i);
    var t := s[i..];
    WithoutInPrefix(t, b, j - i);
    assert t[j - i..] == s[j..];
  }

  lemma WithoutFreePrefix(s: string, b: set<char>, i: nat)
    requires i <= |s|
    requires forall k | 0 <= k < i :: s[k] !in b
    ensures Without(s, b) == s[..i] + Without(s[i..], b)
  {
    var head, tail := s[..i], s[i..];
    assert s == head + tail;
    WithoutConcat(head, tail, b);
    WithoutNone(head, b);
  }

  lemma WithoutInPrefix(s: string, b: set<char>, n: nat)
    requires n <= |s|
    requires forall k | 0 <= k < n :: s[k] in b
    ensures Without(s, b) == Without(s[n..], b)
  {
    var head, tail := s[..n], s[n..];
    assert s == head + tail;
    WithoutConcat(head, tail, b);
    WithoutAllIn(head, b);
    assert Without(head, b) + Without(tail, b) == Without(tail, b);
  }

  // ---------------------------------------------------------------------------
  // Ordered pairs of characters

  /** No occurrence of a is followed, anywhere later, by an occurrence of b. */
  predicate NoPair(s: string, a: char, b: char)
  {
    forall i, j | 0 <= i < j < |s| :: s[i] == a ==> s[j] != b
  }

  lemma NoPairCons(x: char, t: string, a: char, b: char)
    ensures NoPair([x] + t, a, b) <==> (x == a ==> b !in t) && NoPair(t, a, b)
  {
    var s := [x] + t;
    if NoPair(s, a, b) {
      forall i, j | 0 <= i < j < |t| && t[i] == a
        ensures t[j] != b
      {
        assert s[i + 1] == t[i] && s[j + 1] == t[j];
      }
      if x == a {
        forall j | 0 <= j < |t|
          ensures t[j] != b
        {
          assert s[0] == a && s[j + 1] == t[j];
        }
      }
    }
    if (x == a ==> b !in t) && NoPair(t, a, b) {
      forall i, j | 0 <= i < j < |s| && s[i] == a
        ensures s[j] != b
      {
        assert s[j] == t[j - 1];
        if i > 0 {
          assert s[i] == t[i - 1];
        }
      }
    }
  }

  lemma NoPairSlice(s: string, a: char, b: char, lo: nat, hi: nat)
    requires lo <= hi <= |s| && NoPair(s, a, b)
    ensures NoPair(s[lo..hi], a, b)
  {
    forall i, j | 0 <= i < j < hi - lo && s[lo..hi][i] == a
      ensures s[lo..hi][j] != b
    {
      assert s[lo..hi][i] == s[lo + i] && s[lo..hi][j] == s[lo + j];
    }
  }

  /** Dropping characters other than a and b does not change whether an a is
      followed by a b. */
  lemma {:induction false} NoPairWithout(s: string, bs: set<char>, a: char, b: char)
    requires a !in bs && b !in bs
    ensures NoPair(Without(s, bs), a, b) <==> NoPair(s, a, b)
  {
    if s != [] {
      NoPairWithout(s[1..], bs, a, b);
      assert s == [s[0]] + s[1..];
      assert Without(s, bs) == (if s[0] in bs then [] else [s[0]]) + Without(s[1..], bs);
      NoPairCons(s[0], s[1..], a, b);
      WithoutKeeps(s[1..], bs, b);
      if s[0] !in bs {
        NoPairCons(s[0], Without(s[1..], bs), a, b);
      } else {
        assert Without(s, bs) == Without(s[1..], bs);
        assert s[0] != a;
      }
    }
  }

  // ---------------------------------------------------------------------------
  // Literal replacement

  /** str.replace(pat, rep), which is also re.sub on a pattern without special
      characters: the leftmost non-overlapping occurrences are replaced. */
  function ReplaceAll(s: string, pat: string, rep: string): string
    requires pat != []
    decreases |s|
  {
    if s == [] then []
    else if StartsWith(s, pat) then rep + ReplaceAll(s[|pat|..], pat, rep)
    else [s[0]] + ReplaceAll(s[1..], pat, rep)
  }

  /** Replacing leaves the text alone when the pattern does not occur in it. */
  lemma {:induction false} ReplaceAllAbsent(s: string, pat: string, rep: string)
    requires pat != [] && !Contains(s, pat)
    ensures ReplaceAll(s, pat, rep) == s
  {
    if s != [] {
      assert !StartsWith(s, pat) by {
        if StartsWith(s, pat) {
          assert OccursAt(s, pat, 0);
        }
      }
      NotContainsSuffix(s, pat, 1);
      ReplaceAllAbsent(s[1..], pat, rep);
    }
  }

  /** A text shorter than the pattern is left alone. */
  lemma {:induction false} ReplaceAllShort(s: string, pat: string, rep: string)
    requires pat != [] && |s| < |pat|
    ensures ReplaceAll(s, pat, rep) == s
  {
    if s != [] {
      ReplaceAllShort(s[1..], pat, rep);
      assert s == [s[0]] + s[1..];
    }
  }

  /** A prefix of the result made of characters foreign to rep was copied from s. */
  lemma {:induction false} ReplaceAllKeptPrefix(s: string, pat: string, rep: string, w: string)
    requires pat != [] && rep != []
    requires forall c | c in w :: c !in rep
    ensures StartsWith(ReplaceAll(s, pat, rep), w) ==> StartsWith(s, w)
  {
    if w != [] && s != [] {
      if StartsWith(s, pat) {
        assert ReplaceAll(s, pat, rep)[0] == rep[0];
        assert rep[0] in rep;
        assert w[0] in w;
      } else {
        var r1 := ReplaceAll(s[1..], pat, rep);
        assert ReplaceAll(s, pat, rep) == [s[0]] + r1;
        ReplaceAllKeptPrefix(s[1..], pat, rep, w[1..]);
        assert ([s[0]] + r1)[1..] == r1;
        StartsWithCons([s[0]] + r1, w);
        StartsWithCons(s, w);
      }
    }
  }

  /** An occurrence of q inside u + v that starts in v is an occurrence in v. */
  lemma OccursInSuffix(u: string, v: string, q: string, i: int)
    requires |u| <= i
    ensures OccursAt(u + v, q, i) <==> OccursAt(v, q, i - |u|)
  {
    if i + |q| <= |u + v| {
      assert (u + v)[i..i + |q|] == v[i - |u|..i - |u| + |q|];
    }
  }

  /** When rep shares no character with q, replacing cannot produce an occurrence
      of q: the pattern itself disappears, and a q absent before stays absent. */
  lemma {:induction false} ReplaceAllAvoids(s: string, pat: string, rep: string, q: string)
    requires pat != [] && q != [] && rep != []
    requires forall c | c in rep :: c !in q
    requires q == pat || !Contains(s, q)
    ensures !Contains(ReplaceAll(s, pat, rep), q)
  {
    var r := ReplaceAll(s, pat, rep);
    if s != [] && StartsWith(s, pat) {
      var rest := s[|pat|..];
      if q != pat {
        NotContainsSuffix(s, q, |pat|);
      }
      ReplaceAllAvoids(rest, pat, rep, q);
      var r1 := ReplaceAll(rest, pat, rep);
      assert r == rep + r1;
      forall i | 0 <= i <= |r| - |q|
        ensures !OccursAt(r, q, i)
      {
        if i < |rep| {
          assert r[i] == rep[i] && rep[i] in rep && q[0] in q;
          assert r[i..i + |q|][0] == r[i];
        } else {
          OccursInSuffix(rep, r1, q, i);
        }
      }
    } else if s != [] {
      if q != pat {
        NotContainsSuffix(s, q, 1);
      }
      ReplaceAllAvoids(s[1..], pat, rep, q);
      var r1 := ReplaceAll(s[1..], pat, rep);
      assert r == [s[0]] + r1;
      forall i | 0 <= i <= |r| - |q|
        ensures !OccursAt(r, q, i)
      {
        if i > 0 {
          OccursInSuffix([s[0]], r1, q, i);
        } else {
          forall c | c in q[1..]
            ensures c !in rep
          {
            assert c in q;
          }
          ReplaceAllKeptPrefix(s[1..], pat, rep, q[1..]);
          assert r[1..] == r1;
          StartsWithCons(r, q);
          StartsWithCons(s, q);
          assert !StartsWith(s, q) by {
            if q != pat {
              assert !OccursAt(s, q, 0);
            }
          }
        }
      }
    }
  }

  /** Replacing pat by rep keeps, in order, every character outside the set b that
      covers both of them. */
  lemma {:induction false} ReplaceAllWithout(s: string, pat: string, rep: string, b: set<char>)
    requires pat != []
    requires forall c | c in pat :: c in b
    requires forall c | c in rep :: c in b
    ensures Without(ReplaceAll(s, pat, rep), b) == Without(s, b)
  {
    if s != [] {
      if StartsWith(s, pat) {
        var rest := s[|pat|..];
        ReplaceAllWithout(rest, pat, rep, b);
        WithoutConcat(rep, ReplaceAll(rest, pat, rep), b);
        WithoutAllIn(rep, b);
        WithoutAllIn(pat, b);
        assert s == pat + rest;
        WithoutConcat(pat, rest, b);
      } else {
        ReplaceAllWithout(s[1..], pat, rep, b);
        assert ([s[0]] + ReplaceAll(s[1..], pat, rep))[1..] == ReplaceAll(s[1..], pat, rep);
      }
    }
  }

  // ---------------------------------------------------------------------------
  // re.sub('[...]+', ' ', s)

  function DropRun(s: string, b: set<char>): (r: string)
    ensures |r| <= |s| && r == s[|s| - |r|..]
    ensures r != [] ==> r[0] !in b
    ensures forall k | 0 <= k < |s| - |r| :: s[k] in b
  {
    if s != [] && s[0] in b then
      var r := DropRun(s[1..], b);
      assert s[1..][|s| - 1 - |r|..] == s[|s| - |r|..];
      assert forall k | 1 <= k < |s| - |r| :: s[k] == s[1..][k - 1];
      r
    else s
  }

  /** re.sub('[b]+', ' ', s) for a character class b that holds the space: every
      maximal run of characters of b becomes a single space. */
  function CollapseRuns(s: string, b: set<char>): string
    requires ' ' in b
    decreases |s|
  {
    if s == [] then []
    else if s[0] in b then [' '] + CollapseRuns(DropRun(s[1..], b), b)
    else [s[0]] + CollapseRuns(s[1..], b)
  }

  /** After collapsing, the only character of b left is the space, no two
      characters of b are adjacent, and the text is empty, or starts with a
      character of b, exactly when the input is or does. */
  lemma {:induction false} CollapseRunsShape(s: string, b: set<char>)
    requires ' ' in b
    ensures CollapseRuns(s, b) == [] <==> s == []
    ensures CollapseRuns(s, b) != [] ==> (CollapseRuns(s, b)[0] in b <==> s[0] in b)
    ensures forall k | 0 <= k < |CollapseRuns(s, b)| :: CollapseRuns(s, b)[k] in b ==> CollapseRuns(s, b)[k] == ' '
    ensures forall k | 0 <= k < |CollapseRuns(s, b)| - 1 :: !(CollapseRuns(s, b)[k] in b && CollapseRuns(s, b)[k + 1] in b)
    decreases |s|
  {
    if s != [] {
      var t := if s[0] in b then DropRun(s[1..], b) else s[1..];
      CollapseRunsShape(t, b);
      var rest := CollapseRuns(t, b);
      var r := CollapseRuns(s, b);
      assert r == [if s[0] in b then ' ' else s[0]] + rest;
      forall k | 1 <= k < |r|
        ensures r[k] == rest[k - 1]
      {
      }
      if rest != [] && s[0] in b {
        assert t[0] !in b;
      }
    }
  }

  /** A run of s that ends inside s, or that y cannot extend, is the run of s + y. */
  lemma {:induction false} DropRunConcat(s: string, y: string, b: set<char>)
    requires DropRun(s, b) != [] || y == [] || y[0] !in b
    ensures DropRun(s + y, b) == DropRun(s, b) + y
  {
    if s == [] {
      assert s + y == y;
    } else if s[0] in b {
      assert (s + y)[1..] == s[1..] + y;
      DropRunConcat(s[1..], y, b);
    }
  }

  lemma {:induction false} DropRunAllIn(s: string, b: set<char>)
    requires forall k | 0 <= k < |s| :: s[k] in b
    ensures DropRun(s, b) == []
  {
    if s != [] {
      DropRunAllIn(s[1..], b);
    }
  }

  /** A text free of characters of b is left as it is. */
  lemma {:induction false} CollapseRunsNone(s: string, b: set<char>)
    requires ' ' in b
    requires forall k | 0 <= k < |s| :: s[k] !in b
    ensures CollapseRuns(s, b) == s
  {
    if s != [] {
      CollapseRunsNone(s[1..], b);
      assert s == [s[0]] + s[1..];
    }
  }

  /** A non-empty run of characters of b collapses to a single space. */
  lemma CollapseRunsAllIn(s: string, b: set<char>)
    requires ' ' in b && s != []
    requires forall k | 0 <= k < |s| :: s[k] in b
    ensures CollapseRuns(s, b) == " "
  {
    DropRunAllIn(s[1..], b);
  }

  /** Collapsing distributes over a concatenation that does not glue two runs
      of b together. */
  lemma {:induction false} CollapseRunsConcat(x: string, y: string, b: set<char>)
    requires ' ' in b
    requires x == [] || y == [] || x[|x| - 1] !in b || y[0] !in b
    ensures CollapseRuns(x + y, b) == CollapseRuns(x, b) + CollapseRuns(y, b)
    decreases |x|
  {
    if x == [] {
      assert x + y == y;
    } else if x[0] in b {
      CollapseRunsConcatRun(x, y, b);
    } else {
      var xy := x + y;
      ConcatTail(x, y);
      if |x| > 1 {
        assert x[1..][|x| - 2] == x[|x| - 1];
      }
      CollapseRunsConcat(x[1..], y, b);
      AppendAssoc([x[0]], CollapseRuns(x[1..], b), CollapseRuns(y, b));
    }
  }

  /** The case of CollapseRunsConcat where x starts with a run. */
  lemma {:induction false} CollapseRunsConcatRun(x: string, y: string, b: set<char>)
    requires ' ' in b && x != [] && x[0] in b
    requires y == [] || x[|x| - 1] !in b || y[0] !in b
    ensures CollapseRuns(x + y, b) == CollapseRuns(x, b) + CollapseRuns(y, b)
    decreases |x|, 0
  {
    var t := DropRun(x[1..], b);
    if t == [] && |x| > 1 {
      assert x[|x| - 1] == x[1..][|x| - 2];
    }
    if t != [] {
      assert t[|t| - 1] == x[|x| - 1];
    }
    var xy := x + y;
    ConcatTail(x, y);
    DropRunConcat(x[1..], y, b);
    assert CollapseRuns(xy, b) == [' '] + CollapseRuns(t + y, b);
    CollapseRunsConcat(t, y, b);
    AppendAssoc([' '], CollapseRuns(t, b), CollapseRuns(y, b));
  }

  /** Every maximal run of characters of b, between characters outside b,
      becomes exactly one space, and the text around it is collapsed on its own. */
  lemma CollapseRunsRun(x: string, run: string, y: string, b: set<char>)
    requires ' ' in b && run != []
    requires forall k | 0 <= k < |run| :: run[k] in b
    requires x == [] || x[|x| - 1] !in b
    requires y == [] || y[0] !in b
    ensures CollapseRuns(x + run + y, b) == CollapseRuns(x, b) + " " + CollapseRuns(y, b)
  {
    var ry := run + y;
    CollapseRunsConcat(run, y, b);
    CollapseRunsAllIn(run, b);
    assert CollapseRuns(ry, b) == " " + CollapseRuns(y, b);
    CollapseRunsConcat(x, ry, b);
    AppendAssoc(x, run, y);
    AppendAssoc(CollapseRuns(x, b), " ", CollapseRuns(y, b));
  }

  /** Collapsing adds no character other than the space. */
  lemma CollapseRunsAbsent(s: string, b: set<char>, c: char)
    requires ' ' in b && c !in b && c !in s
    ensures c !in CollapseRuns(s, b)
  {
    CollapseRunsWithout(s, b);
    WithoutKeeps(CollapseRuns(s, b), b, c);
    WithoutKeeps(s, b, c);
  }

  lemma {:induction false} DropRunWithout(s: string, b: set<char>)
    ensures Without(DropRun(s, b), b) == Without(s, b)
  {
    if s != [] && s[0] in b {
      DropRunWithout(s[1..], b);
    }
  }

  /** Collapsing runs of b changes no character outside b: those are all kept,
      in order, and none is merged or added. */
  lemma {:induction false} CollapseRunsWithout(s: string, b: set<char>)
    requires ' ' in b
    ensures Without(CollapseRuns(s, b), b) == Without(s, b)
  {
    if s != [] {
      if s[0] in b {
        var t := DropRun(s[1..], b);
        CollapseRunsWithout(t, b);
        DropRunWithout(s[1..], b);
        assert ([' '] + CollapseRuns(t, b))[1..] == CollapseRuns(t, b);
      } else {
        CollapseRunsWithout(s[1..], b);
        assert ([s[0]] + CollapseRuns(s[1..], b))[1..] == CollapseRuns(s[1..], b);
      }
    }
  }

  // ---------------------------------------------------------------------------
  // re.sub(open + '[^>]*>', '', s)

  /** re.sub(open + '[^>]*>', '', s): at each leftmost opening character that has a
      '>' somewhere after it (across line breaks too), everything up to and
      including the first such '>' is removed. Afterwards no opening character is
      followed by a '>'. */
  function RemoveBracketed(s: string, open: char): (r: string)
    ensures forall c | c in r :: c in s
    ensures NoPair(r, open, '>')
    ensures '>' !in s ==> r == s
    decreases |s|
  {
    if s == [] then []
    else if s[0] == open && '>' in s[1..] then RemoveBracketed(s[IndexOfChar(s[1..], '>') + 2..], open)
    else [s[0]] + RemoveBracketed(s[1..], open)
  }

  /** Removing bracketed spans keeps every ordering guarantee already present. */
  lemma {:induction false} RemoveBracketedKeepsNoPair(s: string, open: char, a: char, b: char)
    requires NoPair(s, a, b)
    ensures NoPair(RemoveBracketed(s, open), a, b)
  {
    if s != [] {
      if s[0] == open && '>' in s[1..] {
        var k := IndexOfChar(s[1..], '>') + 2;
        NoPairSlice(s, a, b, k, |s|);
        RemoveBracketedKeepsNoPair(s[k..], open, a, b);
      } else {
        assert s == [s[0]] + s[1..];
        NoPairCons(s[0], s[1..], a, b);
        RemoveBracketedKeepsNoPair(s[1..], open, a, b);
        NoPairCons(s[0], RemoveBracketed(s[1..], open), a, b);
      }
    }
  }

  /** Text before the first opening character is copied unchanged. */
  lemma {:induction false} RemoveBracketedFree(x: string, t: string, open: char)
    requires open !in x
    ensures RemoveBracketed(x + t, open) == x + RemoveBracketed(t, open)
  {
    if x != [] {
      var xt := x + t;
      ConcatTail(x, t);
      assert x[0] in x;
      assert RemoveBracketed(xt, open) == [x[0]] + RemoveBracketed(x[1..] + t, open);
      RemoveBracketedFree(x[1..], t, open);
      AppendAssoc([x[0]], x[1..], RemoveBracketed(t, open));
      assert [x[0]] + x[1..] == x;
    } else {
      assert x + t == t;
    }
  }

  /** One matched piece, from an opening character to the first '>' after it,
      is removed and nothing else: the text before it is kept and the text after
      it is processed on its own. */
  lemma RemoveBracketedSpan(x: string, y: string, z: string, open: char)
    requires open !in x && '>' !in y
    ensures RemoveBracketed(x + [open] + y + ['>'] + z, open) == x + RemoveBracketed(z, open)
  {
    var t := [open] + y + ['>'] + z;
    assert t[1..] == y + ['>'] + z;
    assert (y + ['>'] + z)[|y|] == '>';
    IndexOfCharAt(y + ['>'] + z, '>', |y|);
    assert t[|y| + 2..] == z;
    AppendAssoc(x, [open] + y + ['>'], z);
    AppendAssoc(x, [open] + y, ['>']);
    AppendAssoc(x, [open], y);
    RemoveBracketedFree(x, t, open);
  }

  /** Text in which no opening character is followed by a '>' is left as it is. */
  lemma {:induction false} RemoveBracketedNoPair(s: string, open: char)
    requires NoPair(s, open, '>')
    ensures RemoveBracketed(s, open) == s
  {
    if s != [] {
      assert s == [s[0]] + s[1..];
      NoPairCons(s[0], s[1..], open, '>');
      RemoveBracketedNoPair(s[1..], open);
    }
  }

  // ---------------------------------------------------------------------------
  // Split and join

  /** str.split(d) for a one-character separator d. */
  function Split(s: string, d: char): (parts: seq<string>)
    ensures |parts| >= 1
    ensures forall k | 0 <= k < |parts| :: d !in parts[k]
    decreases |s|
  {
    var i := IndexOfChar(s, d);
    if i == -1 then [s] else [s[..i]] + Split(s[i + 1..], d)
  }

  /** d.join(parts). */
  function Join(parts: seq<string>, d: char): string
  {
    if parts == [] then []
    else if |parts| == 1 then parts[0]
    else parts[0] + [d] + Join(parts[1..], d)
  }

  lemma JoinCons(head: string, rest: seq<string>, d: char)
    requires rest != []
    ensures Join([head] + rest, d) == head + [d] + Join(rest, d)
  {
    var parts := [head] + rest;
    assert parts[0] == head && parts[1..] == rest;
  }

  /** Splitting and joining on the same separator gives the text back. */
  lemma {:induction false} SplitThenJoin(s: string, d: char)
    ensures Join(Split(s, d), d) == s
    decreases |s|, 1
  {
    if d in s {
      SplitThenJoinAt(s, d);
    } else {
      SplitBody(s, d);
      assert Split(s, d) == [s];
      assert Join([s], d) == s;
    }
  }

  lemma {:induction false} SplitThenJoinAt(s: string, d: char)
    requires d in s
    ensures Join(Split(s, d), d) == s
    decreases |s|, 0
  {
    var i := IndexOfChar(s, d);
    SplitThenJoin(s[i + 1..], d);
    SplitJoinStep(s, d, i);
  }

  /** One unfolding of Split, stated as a single equation. */
  lemma SplitBody(s: string, d: char)
    ensures Split(s, d) == (var i := IndexOfChar(s, d); if i == -1 then [s] else [s[..i]] + Split(s[i + 1..], d))
  {
  }

  lemma SplitJoinStep(s: string, d: char, i: int)
    requires i == IndexOfChar(s, d) && i != -1
    requires Join(Split(s[i + 1..], d), d) == s[i + 1..]
    ensures Join(Split(s, d), d) == s
  {
    SplitBody(s, d);
    var head, tail := s[..i], s[i + 1..];
    var rest := Split(tail, d);
    assert Split(s, d) == [head] + rest;
    JoinCons(head, rest, d);
    Around(s, i);
  }

  /** A sequence is what precedes an index, its element, and what follows. */
  lemma Around<T>(s: seq<T>, i: int)
    requires 0 <= i < |s|
    ensures s == s[..i] + [s[i]] + s[i + 1..]
  {
  }

  lemma {:induction false} IndexOfCharAt(s: string, c: char, k: nat)
    requires k < |s| && s[k] == c && c !in s[..k]
    ensures IndexOfChar(s, c) == k
  {
    if k > 0 {
      assert s[1..][..k - 1] == s[1..k];
      assert s[0] in s[..k];
      IndexOfCharAt(s[1..], c, k - 1);
    }
  }

  /** Joining pieces free of the separator and splitting again gives the pieces back. */
  lemma {:induction false} JoinThenSplit(parts: seq<string>, d: char)
    requires parts != []
    requires forall k | 0 <= k < |parts| :: d !in parts[k]
    ensures Split(Join(parts, d), d) == parts
  {
    if |parts| > 1 {
      var p := parts[0];
      var rest := Join(parts[1..], d);
      var s := p + [d] + rest;
      assert Join(parts, d) == s;
      assert d !in parts[0];
      assert s[..|p|] == p;
      IndexOfCharAt(s, d, |p|);
      assert s[|p| + 1..] == rest;
      JoinThenSplit(parts[1..], d);
    } else {
      assert Join(parts, d) == parts[0];
    }
  }

  // ---------------------------------------------------------------------------
  // zfill, decimal formatting

  function Repeat(c: char, n: nat): string
  {
    seq(n, _ => c)
  }

  predicate IsSign(c: char) { c == '+' || c == '-' }

  /** str.zfill(width): pads with '0' on the left up to width characters; a
      leading sign stays in front of the padding. */
  function ZFill(s: string, width: nat): (r: string)
    ensures |r| == Max(width, |s|)
    ensures (s == [] || !IsSign(s[0])) ==> r[|r| - |s|..] == s && forall k | 0 <= k < |r| - |s| :: r[k] == '0'
    ensures s != [] && IsSign(s[0]) ==>
              r[0] == s[0] && r[|r| - |s| + 1..] == s[1..] && forall k | 1 <= k <= |r| - |s| :: r[k] == '0'
  {
    if |s| >= width then s
    else if s != [] && IsSign(s[0]) then [s[0]] + Repeat('0', width - |s|) + s[1..]
    else Repeat('0', width - |s|) + s
  }

  /** Zero-filling the empty text gives width zeros. */
  lemma ZFillEmpty(width: nat)
    ensures ZFill([], width) == Repeat('0', width)
  {
    assert Repeat('0', width) + [] == Repeat('0', width);
  }

  function DigitChar(d: nat): char
    requires d < 10
  {
    ('0' as int + d) as char
  }

  predicate IsDigit(c: char) { '0' <= c <= '9' }

  predicate AllDigits(s: string) { forall k | 0 <= k < |s| :: IsDigit(s[k]) }

  /** str(n) for a natural number: its decimal digits, with no leading zero. */
  function NatToDecimal(n: nat): (r: string)
    ensures r != [] && AllDigits(r)
    ensures r[0] == '0' ==> n == 0
    decreases n
  {
    if n < 10 then [DigitChar(n)] else NatToDecimal(n / 10) + [DigitChar(n % 10)]
  }

  /** The number a string of decimal digits denotes. */
  function DecimalValue(s: string): nat
    requires AllDigits(s)
  {
    if s == [] then 0 else DecimalValue(s[..|s| - 1]) * 10 + (s[|s| - 1] as int - '0' as int)
  }

  /** Reading back the decimal digits gives the number. */
  lemma {:induction false} DecimalRoundTrip(n: nat)
    ensures DecimalValue(NatToDecimal(n)) == n
    decreases n
  {
    if n >= 10 {
      DecimalRoundTrip(n / 10);
      var r := NatToDecimal(n);
      assert r[..|r| - 1] == NatToDecimal(n / 10);
    }
  }

  /** str(i) for a Python int. */
  function IntToDecimal(i: int): string
  {
    if i < 0 then "-" + NatToDecimal(-i) else NatToDecimal(i)
  }

  // ---------------------------------------------------------------------------
  // Sequences

  /** The head and tail of a concatenation whose first part is not empty. */
  lemma ConcatTail<T>(x: seq<T>, y: seq<T>)
    requires x != []
    ensures (x + y)[0] == x[0] && (x + y)[1..] == x[1..] + y
  {
  }

  lemma AppendAssoc<T>(a: seq<T>, b: seq<T>, c: seq<T>)
    ensures (a + b) + c == a + (b + c)
  {
  }

  /** Something holds of an element of s + [x] exactly when it holds of an
      element of s or of x. */
  lemma ExistsSnoc<T>(init: seq<T>, last: T, holds: T -> bool)
    ensures (exists f | f in init + [last] :: holds(f)) <==> (exists f | f in init :: holds(f)) || holds(last)
  {
    if exists f | f in init + [last] :: holds(f) {
      var f :| f in init + [last] && holds(f);
      assert f in init || f == last;
    }
  }

  /** s[:limit] under Python's slice rules: a negative limit counts from the end. */
  function PyPrefix<T>(s: seq<T>, limit: int): (r: seq<T>)
    ensures |r| <= |s| && r == s[..|r|]
  {
    if limit >= 0 then s[..Min(limit, |s|)] else s[..Max(0, |s| + limit)]
  }

  /** Taking n elements of a sequence that starts with n given ones gives those. */
  lemma PyPrefixOfConcat<T>(s: seq<T>, t: seq<T>, n: int)
    requires |s| == n
    ensures PyPrefix(s + t, n) == s
  {
    assert (s + t)[..n] == s;
  }

  /** a is obtained from b by deleting elements: it keeps b's order. */
  predicate IsSubseq<T(==)>(a: seq<T>, b: seq<T>)
    decreases |b|
  {
    if a == [] then true
    else if b == [] then false
    else (a[|a| - 1] == b[|b| - 1] && IsSubseq(a[..|a| - 1], b[..|b| - 1])) || IsSubseq(a, b[..|b| - 1])
  }

  lemma {:induction false} SubseqMembers<T>(a: seq<T>, b: seq<T>)
    requires IsSubseq(a, b)
    ensures forall x | x in a :: x in b
    decreases |b|
  {
    if a != [] {
      if a[|a| - 1] == b[|b| - 1] && IsSubseq(a[..|a| - 1], b[..|b| - 1]) {
        SubseqMembers(a[..|a| - 1], b[..|b| - 1]);
        assert a == a[..|a| - 1] + [a[|a| - 1]];
        assert b == b[..|b| - 1] + [b[|b| - 1]];
      } else {
        SubseqMembers(a, b[..|b| - 1]);
        assert b == b[..|b| - 1] + [b[|b| - 1]];
      }
    }
  }

  lemma {:induction false} SubseqPrefix<T>(a: seq<T>, b: seq<T>, n: nat)
    requires IsSubseq(a, b) && n <= |a|
    ensures IsSubseq(a[..n], b)
    decreases |b|
  {
    if n == |a| {
      assert a[..n] == a;
    } else {
      if a[|a| - 1] == b[|b| - 1] && IsSubseq(a[..|a| - 1], b[..|b| - 1]) {
        SubseqPrefix(a[..|a| - 1], b[..|b| - 1], n);
        assert a[..|a| - 1][..n] == a[..n];
        SubseqShrink(a[..n], b[..|b| - 1], b);
      } else {
        SubseqPrefix(a, b[..|b| - 1], n);
        SubseqShrink(a[..n], b[..|b| - 1], b);
      }
    }
  }

  /** A subsequence of a prefix is a subsequence of the whole. */
  lemma {:induction false} SubseqShrink<T>(a: seq<T>, b0: seq<T>, b: seq<T>)
    requires IsSubseq(a, b0) && |b0| <= |b| && b0 == b[..|b0|]
    ensures IsSubseq(a, b)
    decreases |b|
  {
    if |b0| == |b| {
      assert b0 == b;
    } else if a != [] {
      assert b[..|b| - 1][..|b0|] == b0;
      SubseqShrink(a, b0, b[..|b| - 1]);
    }
  }

  lemma {:induction false} SubseqRefl<T>(a: seq<T>)
    ensures IsSubseq(a, a)
    decreases |a|
  {
    if a != [] {
      SubseqRefl(a[..|a| - 1]);
    }
  }
}
