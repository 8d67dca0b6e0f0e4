/** The JavaScript string operations the lead form relies on:
    `String.prototype.split` with a one-character separator,
    `Array.prototype.reverse`, `Array.prototype.join` and
    `String.prototype.trim`. */
module JsText {

  /** An ASCII decimal digit. */
  predicate IsDigit(c: char)
  {
    '0' <= c <= '9'
  }

  predicate AllDigits(s: string)
  {
    forall i :: 0 <= i < |s| ==> IsDigit(s[i])
  }

  /** Number of occurrences of `c` in `s`. */
  function Occurrences(s: string, c: char): nat
  {
    if |s| == 0 then 0 else (if s[0] == c then 1 else 0) + Occurrences(s[1..], c)
  }

  /** `s.split(sep)`: the maximal pieces of `s` between separators, in order.
      Like JavaScript, splitting the empty string gives one empty piece, and a
      leading or trailing separator gives an empty first or last piece. */
  function Split(s: string, sep: char): (parts: seq<string>)
    ensures |parts| == Occurrences(s, sep) + 1
    ensures forall i :: 0 <= i < |parts| ==> sep !in parts[i]
    ensures forall i, c :: 0 <= i < |parts| && c in parts[i] ==> c in s
    decreases |s|
  {
    if |s| == 0 then [""]
    else
      var rest := Split(s[1..], sep);
      assert forall c :: c in s[1..] ==> c in s;
      if s[0] == sep then [""] + rest
      else [[s[0]] + rest[0]] + rest[1..]
  }

  /** `parts.join(sep)` with a one-character separator; joining no parts gives "". */
  function Join(parts: seq<string>, sep: char): string
    decreases |parts|
  {
    if |parts| == 0 then ""
    else if |parts| == 1 then parts[0]
    else parts[0] + [sep] + Join(parts[1..], sep)
  }

  /** `xs.reverse()` on a copy: element i of the result is element |xs|-1-i of `xs`. */
  function Reverse<T>(xs: seq<T>): (r: seq<T>)
    ensures |r| == |xs|
    ensures forall i :: 0 <= i < |xs| ==> r[i] == xs[|xs| - 1 - i]
  {
    if |xs| == 0 then [] else Reverse(xs[1..]) + [xs[0]]
  }

  /** Characters removed by `String.prototype.trim`: the ECMAScript WhiteSpace
      set (tab, vertical tab, form feed, space, no-break space, byte order
      mark and the Unicode space separators) and the LineTerminator set. */
  predicate IsJsSpace(c: char)
  {
    || c == '\t' || c == '\U{000B}' || c == '\U{000C}' || c == ' ' || c == '\U{00A0}'
    || c == '\U{FEFF}' || c == '\U{1680}' || ('\U{2000}' <= c <= '\U{200A}')
    || c == '\U{202F}' || c == '\U{205F}' || c == '\U{3000}'
    || c == '\n' || c == '\r' || c == '\U{2028}' || c == '\U{2029}'
  }

  predicate AllSpace(s: string)
  {
    forall i :: 0 <= i < |s| ==> IsJsSpace(s[i])
  }

  /** Neither the first nor the last character of `s` is trimmable. */
  predicate NoEdgeSpace(s: string)
  {
    |s| == 0 || (!IsJsSpace(s[0]) && !IsJsSpace(s[|s| - 1]))
  }

  /** Drops the leading run of trimmable characters. */
  function TrimStart(s: string): (r: string)
    ensures |r| <= |s| && r == s[|s| - |r|..]
    ensures AllSpace(s[..|s| - |r|])
    ensures |r| == 0 || !IsJsSpace(r[0])
  {
    if |s| > 0 && IsJsSpace(s[0]) then TrimStart(s[1..]) else s
  }

  /** Drops the trailing run of trimmable characters. */
  function TrimEnd(s: string): (r: string)
    ensures |r| <= |s| && r == s[..|r|]
    ensures AllSpace(s[|r|..])
    ensures |r| == 0 || !IsJsSpace(r[|r| - 1])
  {
    if |s| > 0 && IsJsSpace(s[|s| - 1]) then TrimEnd(s[..|s| - 1]) else s
  }

  /** `s.trim()`: removes both runs of trimmable characters. The result is
      empty exactly when `s` is all whitespace; `TrimPadded` below states
      which infix it keeps. */
  function Trim(s: string): (r: string)
    ensures NoEdgeSpace(r)
    ensures |r| <= |s|
    ensures r == "" <==> AllSpace(s)
  {
    var a := TrimStart(s);
    var r := TrimEnd(a);
    AllSpaceSplit(s, |s| - |a|);
    AllSpaceSplit(a, |r|);
    r
  }

  /** A string is all whitespace exactly when both of its halves around `k` are. */
  lemma AllSpaceSplit(s: string, k: nat)
    requires k <= |s|
    ensures AllSpace(s) <==> AllSpace(s[..k]) && AllSpace(s[k..])
  {
    if AllSpace(s[..k]) && AllSpace(s[k..]) {
      forall i | 0 <= i < |s| ensures IsJsSpace(s[i]) {
        if i < k { assert s[i] == s[..k][i]; } else { assert s[i] == s[k..][i - k]; }
      }
    }
  }

  // ---------------------------------------------------------------------------
  // Split / Join are inverse to each other.

  /** Joining the pieces of a split with the same separator restores the string. */
  lemma {:induction false} JoinSplit(s: string, sep: char)
    ensures Join(Split(s, sep), sep) == s
    decreases |s|
  {
    if |s| > 0 {
      var rest := Split(s[1..], sep);
      JoinSplit(s[1..], sep);
      if s[0] == sep {
        assert s == [sep] + s[1..];
      } else {
        var parts := Split(s, sep);
        assert parts == [[s[0]] + rest[0]] + rest[1..];
        if |rest| == 1 {
          assert s == [s[0]] + s[1..];
        } else {
          assert parts[1..] == rest[1..];
          assert Join(rest, sep) == rest[0] + [sep] + Join(rest[1..], sep);
          assert s == [s[0]] + s[1..];
        }
      }
    }
  }

  /** A string free of the separator splits into itself. */
  lemma {:induction false} SplitNoSeparator(a: string, sep: char)
    requires sep !in a
    ensures Split(a, sep) == [a]
    decreases |a|
  {
    if |a| > 0 {
      SplitNoSeparator(a[1..], sep);
      assert [a[0]] + a[1..] == a;
    }
  }

  /** Splitting `a + sep + t`, where `a` holds no separator, yields `a` followed by the pieces of `t`. */
  lemma {:induction false} SplitAfterPiece(a: string, sep: char, t: string)
    requires sep !in a
    ensures Split(a + [sep] + t, sep) == [a] + Split(t, sep)
    decreases |a|
  {
    var s := a + [sep] + t;
    if |a| == 0 {
      assert s[1..] == t;
    } else {
      assert s[1..] == a[1..] + [sep] + t;
      SplitAfterPiece(a[1..], sep, t);
      assert [a[0]] + a[1..] == a;
    }
  }

  /** Splitting a join of separator-free pieces gives the pieces back. */
  lemma {:induction false} SplitJoin(parts: seq<string>, sep: char)
    requires |parts| > 0
    requires forall i :: 0 <= i < |parts| ==> sep !in parts[i]
    ensures Split(Join(parts, sep), sep) == parts
    decreases |parts|
  {
    if |parts| == 1 {
      SplitNoSeparator(parts[0], sep);
    } else {
      SplitJoin(parts[1..], sep);
      SplitAfterPiece(parts[0], sep, Join(parts[1..], sep));
      assert [parts[0]] + parts[1..] == parts;
    }
  }

  /** Reversing twice is the identity. */
  lemma ReverseReverse<T>(xs: seq<T>)
    ensures Reverse(Reverse(xs)) == xs
  {
  }

  // ---------------------------------------------------------------------------
  // Trim on a padded string.

  lemma {:induction false} TrimStartPadded(pre: string, core: string)
    requires AllSpace(pre)
    requires |core| == 0 || !IsJsSpace(core[0])
    ensures TrimStart(pre + core) == core
    decreases |pre|
  {
    if |pre| > 0 {
      assert (pre + core)[1..] == pre[1..] + core;
      TrimStartPadded(pre[1..], core);
    } else {
      assert pre + core == core;
    }
  }

  lemma {:induction false} TrimEndPadded(core: string, post: string)
    requires AllSpace(post)
    requires |core| == 0 || !IsJsSpace(core[|core| - 1])
    ensures TrimEnd(core + post) == core
    decreases |post|
  {
    if |post| > 0 {
      var s := core + post;
      assert s[..|s| - 1] == core + post[..|post| - 1];
      TrimEndPadded(core, post[..|post| - 1]);
    } else {
      assert core + post == core;
    }
  }

  /** Trimming a string made of a whitespace run, a core with no trimmable
      character at either end, and another whitespace run returns the core. */
  lemma TrimPadded(pre: string, core: string, post: string)
    requires AllSpace(pre) && AllSpace(post) && NoEdgeSpace(core)
    ensures Trim(pre + core + post) == core
  {
    if |core| == 0 {
      assert pre + core + post == pre + post;
      assert AllSpace(pre + post);
      TrimStartPadded(pre + post, "");
      assert pre + post + "" == pre + post;
      TrimEndPadded("", "");
    } else {
      assert pre + core + post == pre + (core + post);
      TrimStartPadded(pre, core + post);
      TrimEndPadded(core, post);
    }
  }
}
