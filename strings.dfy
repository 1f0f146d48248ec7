/**
 * The Python `str` operations the spiders apply to extracted text, over
 * `seq<char>`: `isspace`, `strip()`, `split()[0]`, `split(sep)`, `sep.join`,
 * `replace(c, "")` and `endswith`.
 */
module Strings {
  import opened Wrappers

  /** Python's `str.isspace` on one character; `split()` and `strip()` use the same set. */
  predicate IsSpace(c: char) {
    var n := c as int;
    (0x09 <= n <= 0x0D) || (0x1C <= n <= 0x20) || n == 0x85 || n == 0xA0 || n == 0x1680
    || (0x2000 <= n <= 0x200A) || n == 0x2028 || n == 0x2029 || n == 0x202F || n == 0x205F
    || n == 0x3000
  }

  predicate AllSpace(s: string) {
    forall i :: 0 <= i < |s| ==> IsSpace(s[i])
  }

  predicate NoSpace(s: string) {
    forall i :: 0 <= i < |s| ==> !IsSpace(s[i])
  }

  /** Neither end of `s` is whitespace. */
  predicate Stripped(s: string) {
    s == [] || (!IsSpace(s[0]) && !IsSpace(s[|s| - 1]))
  }

  /** Number of occurrences of `c` in `s`. */
  function Count(s: string, c: char): nat {
    multiset(s)[c]
  }

  /** Length of the longest all-whitespace prefix of `s`. */
  function LeadingSpace(s: string): (n: nat)
    ensures n <= |s| && AllSpace(s[..n])
    ensures n < |s| ==> !IsSpace(s[n])
  {
    if s == [] || !IsSpace(s[0]) then 0
    else
      var m := LeadingSpace(s[1..]);
      assert s[..m + 1] == [s[0]] + s[1..][..m];
      m + 1
  }

  /** Length of the longest all-whitespace suffix of `s`. */
  function TrailingSpace(s: string): (n: nat)
    ensures n <= |s| && AllSpace(s[|s| - n..])
    ensures n < |s| ==> !IsSpace(s[|s| - n - 1])
    ensures s != [] && !IsSpace(s[0]) ==> n < |s|
  {
    if s == [] || !IsSpace(s[|s| - 1]) then 0
    else
      var init := s[..|s| - 1];
      var m := TrailingSpace(init);
      assert s[|s| - (m + 1)..] == init[|init| - m..] + [s[|s| - 1]];
      m + 1
  }

  /** Length of the longest whitespace-free prefix of `s`. */
  function TokenLength(s: string): (n: nat)
    ensures n <= |s| && NoSpace(s[..n])
    ensures n < |s| ==> IsSpace(s[n])
  {
    if s == [] || IsSpace(s[0]) then 0
    else
      var m := TokenLength(s[1..]);
      assert s[..m + 1] == [s[0]] + s[1..][..m];
      m + 1
  }

  /**
   * Python's `s.strip()`: `s` with its whitespace prefix and suffix removed.
   * The two ensures clauses together determine the result.
   */
  function Strip(s: string): (r: string)
    ensures exists a, b :: 0 <= a <= b <= |s| && r == s[a..b] && AllSpace(s[..a]) && AllSpace(s[b..])
    ensures Stripped(r)
  {
    var a := LeadingSpace(s);
    if a == |s| then
      assert s[|s|..|s|] == [] && AllSpace(s[|s|..]);
      []
    else
      var t := TrailingSpace(s[a..]);
      assert s[a..][|s| - a - t..] == s[|s| - t..];
      s[a..|s| - t]
  }

  /** Whitespace padding around a string with no whitespace at its ends is exactly what `strip()` removes. */
  lemma StripPadded(pre: string, core: string, post: string)
    requires AllSpace(pre) && AllSpace(post) && Stripped(core)
    ensures Strip(pre + core + post) == core
  {
    var s := pre + core + post;
    if core == [] {
      assert s == (pre + post) + [];
      LeadingSpaceOf(pre + post, []);
    } else {
      assert s == pre + (core + post);
      LeadingSpaceOf(pre, core + post);
      assert s[|pre|..] == core + post;
      TrailingSpaceOf(core, post);
    }
  }

  /** A whitespace prefix followed by a non-whitespace character (or nothing) is the leading whitespace. */
  lemma {:induction false} LeadingSpaceOf(pre: string, rest: string)
    requires AllSpace(pre) && (rest == [] || !IsSpace(rest[0]))
    ensures LeadingSpace(pre + rest) == |pre|
  {
    if pre == [] {
      assert pre + rest == rest;
    } else {
      LeadingSpaceOf(pre[1..], rest);
      assert (pre + rest)[1..] == pre[1..] + rest;
    }
  }

  /** A whitespace suffix preceded by a non-whitespace character (or nothing) is the trailing whitespace. */
  lemma {:induction false} TrailingSpaceOf(rest: string, post: string)
    requires AllSpace(post) && (rest == [] || !IsSpace(rest[|rest| - 1]))
    ensures TrailingSpace(rest + post) == |post|
  {
    if post == [] {
      assert rest + post == rest;
    } else {
      var init := post[..|post| - 1];
      TrailingSpaceOf(rest, init);
      assert (rest + post)[..|rest + post| - 1] == rest + init;
    }
  }

  /** `s` starts with whitespace only, then `tok` at offset `a`, ending at whitespace or the end of `s`. */
  predicate IsFirstToken(s: string, a: nat, tok: string) {
    && a + |tok| <= |s|
    && AllSpace(s[..a])
    && s[a..a + |tok|] == tok
    && (a + |tok| == |s| || IsSpace(s[a + |tok|]))
  }

  /**
   * Python's `s.split()[0]`: the first maximal run of non-whitespace
   * characters; `None` where `s.split()` is empty and indexing it fails.
   */
  function FirstToken(s: string): (t: Option<string>)
    ensures t.None? <==> AllSpace(s)
    ensures t.Some? ==> t.value != [] && NoSpace(t.value) && exists a :: IsFirstToken(s, a, t.value)
  {
    var a := LeadingSpace(s);
    if a == |s| then
      assert s[..a] == s;
      None
    else
      var n := TokenLength(s[a..]);
      assert s[a..][..n] == s[a..a + n];
      assert n > 0;
      assert !AllSpace(s) by { assert !IsSpace(s[a]); }
      assert IsFirstToken(s, a, s[a..a + n]) by {
        if a + n < |s| { assert s[a..][n] == s[a + n]; }
      }
      Some(s[a..a + n])
  }

  /** Python's `s.replace(c, "")`: every `c` removed, the other characters kept in order. */
  function Delete(s: string, c: char): (r: string)
    ensures forall d :: d in r <==> d in s && d != c
    ensures |r| == |s| - Count(s, c)
    ensures forall d :: d != c ==> Count(r, d) == Count(s, d)
  {
    if s == [] then []
    else
      assert s == [s[0]] + s[1..];
      if s[0] == c then Delete(s[1..], c) else [s[0]] + Delete(s[1..], c)
  }

  /** Python's `s.split(sep)` for a one-character separator: always at least one part. */
  function Split(s: string, sep: char): (parts: seq<string>)
    ensures |parts| >= 1
    ensures forall i :: 0 <= i < |parts| ==> sep !in parts[i]
  {
    if s == [] then [[]]
    else
      var rest := Split(s[1..], sep);
      if s[0] == sep then [[]] + rest else [[s[0]] + rest[0]] + rest[1..]
  }

  /** Python's `sep.join(parts)`. */
  function Join(parts: seq<string>, sep: string): string {
    if |parts| == 0 then []
    else if |parts| == 1 then parts[0]
    else parts[0] + sep + Join(parts[1..], sep)
  }

  /** Python's `s.endswith(suffix)`. */
  predicate EndsWith(s: string, suffix: string) {
    |suffix| <= |s| && s[|s| - |suffix|..] == suffix
  }

  /** A string ends with `suffix` exactly when it is some text followed by `suffix`. */
  lemma EndsWithConcat(s: string, suffix: string)
    ensures EndsWith(s, suffix) <==> exists t :: s == t + suffix
  {
    if EndsWith(s, suffix) {
      assert s == s[..|s| - |suffix|] + suffix;
    }
    if t :| s == t + suffix {
      assert s[|t|..] == suffix;
    }
  }

  /** `split(sep)` has one more part than there are separators. */
  lemma {:induction false} SplitCount(s: string, sep: char)
    ensures |Split(s, sep)| == Count(s, sep) + 1
  {
    if s != [] {
      SplitCount(s[1..], sep);
      SplitCons(s, sep);
      assert multiset(s) == multiset([s[0]]) + multiset(s[1..]);
    }
  }

  /** Joining the parts of a split with the separator gives back the original string. */
  lemma {:induction false} JoinSplit(s: string, sep: char)
    ensures Join(Split(s, sep), [sep]) == s
  {
    if s != [] {
      var tail := s[1..];
      JoinSplit(tail, sep);
      var rest := Split(tail, sep);
      SplitCons(s, sep);
      if s[0] == sep {
        JoinCons([], rest, [sep]);
      } else if |rest| == 1 {
        assert Join([[s[0]] + rest[0]], [sep]) == [s[0]] + rest[0];
      } else {
        JoinCons([s[0]] + rest[0], rest[1..], [sep]);
        JoinCons(rest[0], rest[1..], [sep]);
        assert [rest[0]] + rest[1..] == rest;
        ConcatAssoc([s[0]], rest[0], [sep], Join(rest[1..], [sep]));
      }
    }
  }

  /** `split(sep)` of a non-empty string, from the split of its tail. */
  lemma SplitCons(s: string, sep: char)
    requires s != []
    ensures Split(s, sep) ==
      if s[0] == sep then [[]] + Split(s[1..], sep)
      else [[s[0]] + Split(s[1..], sep)[0]] + Split(s[1..], sep)[1..]
    ensures s == [s[0]] + s[1..]
  {
  }

  /** Regrouping a concatenation of four strings. */
  lemma ConcatAssoc(a: string, b: string, c: string, d: string)
    ensures (a + b) + c + d == a + (b + c + d)
  {
  }

  /** Joining a first part in front of at least one more. */
  lemma JoinCons(p: string, parts: seq<string>, sep: string)
    requires parts != []
    ensures Join([p] + parts, sep) == p + sep + Join(parts, sep)
  {
    assert ([p] + parts)[1..] == parts;
  }

  /** Splitting a join of separator-free parts gives back the parts. */
  lemma {:induction false} SplitJoin(parts: seq<string>, sep: char)
    requires |parts| >= 1
    requires forall i :: 0 <= i < |parts| ==> sep !in parts[i]
    ensures Split(Join(parts, [sep]), sep) == parts
  {
    if |parts| == 1 {
      SplitFree(parts[0], sep);
    } else {
      SplitJoin(parts[1..], sep);
      SplitPrefix(parts[0], Join(parts[1..], [sep]), sep);
      assert parts == [parts[0]] + parts[1..];
    }
  }

  /** A string without the separator splits into itself alone. */
  lemma {:induction false} SplitFree(s: string, sep: char)
    requires sep !in s
    ensures Split(s, sep) == [s]
  {
    if s != [] {
      SplitFree(s[1..], sep);
      assert s[0] != sep;
      assert s == [s[0]] + s[1..];
    }
  }

  /** Splitting `w + [sep] + t`, where `w` has no separator, gives `w` followed by the parts of `t`. */
  lemma {:induction false} SplitPrefix(w: string, t: string, sep: char)
    requires sep !in w
    ensures Split(w + [sep] + t, sep) == [w] + Split(t, sep)
  {
    var s := w + [sep] + t;
    SplitCons(s, sep);
    if w == [] {
      assert s[0] == sep && s[1..] == t;
    } else {
      SplitPrefix(w[1..], t, sep);
      assert s[0] == w[0] != sep;
      assert s[1..] == w[1..] + [sep] + t;
      assert [w[0]] + w[1..] == w;
    }
  }

  /** Appending one more part to a join adds the separator and that part. */
  lemma {:induction false} JoinAppend(parts: seq<string>, p: string, sep: string)
    requires |parts| >= 1
    ensures Join(parts + [p], sep) == Join(parts, sep) + sep + p
  {
    if |parts| > 1 {
      JoinAppend(parts[1..], p, sep);
      assert (parts + [p])[1..] == parts[1..] + [p];
    }
  }

  /** Deleting distributes over concatenation. */
  lemma {:induction false} DeleteAppend(s: string, t: string, c: char)
    ensures Delete(s + t, c) == Delete(s, c) + Delete(t, c)
  {
    if s != [] {
      DeleteAppend(s[1..], t, c);
      assert (s + t)[1..] == s[1..] + t;
      DeleteCons(s + t, c);
      DeleteCons(s, c);
    } else {
      assert s + t == t;
    }
  }

  /** `replace(c, "")` on a non-empty string, one character at a time. */
  lemma DeleteCons(s: string, c: char)
    requires s != []
    ensures Delete(s, c) == if s[0] == c then Delete(s[1..], c) else [s[0]] + Delete(s[1..], c)
  {
  }

  /** Deleting a character that does not occur changes nothing. */
  lemma {:induction false} DeleteAbsent(s: string, c: char)
    requires c !in s
    ensures Delete(s, c) == s
  {
    if s != [] {
      DeleteAbsent(s[1..], c);
      assert s == [s[0]] + s[1..];
    }
  }
}
