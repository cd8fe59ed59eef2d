/**
  The few Python `str` operations the dashboard applies to keyword lists and
  URLs: `sep.join(parts)`, `s.split(c)` with an explicit one-character
  separator, and the stripping family `s.strip()` / `s.rstrip(chars)`.
  Strings are sequences of code points, as in Python 3.
 */
module PyStr {

  /** `c.isspace()`: the characters `str.strip()` removes when given no argument. */
  predicate IsSpace(c: char)
  {
    || c == ' '
    || ('\t' <= c <= '\r')
    || ('\U{1c}' <= c <= '\U{1f}')
    || c == '\U{85}' || c == '\U{a0}' || c == '\U{1680}'
    || ('\U{2000}' <= c <= '\U{200a}')
    || c == '\U{2028}' || c == '\U{2029}' || c == '\U{202f}' || c == '\U{205f}' || c == '\U{3000}'
  }

  /** No leading and no trailing whitespace. */
  predicate Trimmed(s: string)
  {
    |s| == 0 || (!IsSpace(s[0]) && !IsSpace(s[|s| - 1]))
  }

  predicate AllSpace(s: string)
  {
    forall k :: 0 <= k < |s| ==> IsSpace(s[k])
  }

  function CountChar(s: string, c: char): nat
  {
    if |s| == 0 then 0 else (if s[0] == c then 1 else 0) + CountChar(s[1..], c)
  }

  // ---------------------------------------------------------------------------
  // join and split

  /** `sep.join(parts)`; an empty list joins to the empty string. */
  function Join(parts: seq<string>, sep: string): (r: string)
    ensures |parts| == 0 ==> r == ""
    ensures |parts| == 1 ==> r == parts[0]
  {
    if |parts| == 0 then ""
    else if |parts| == 1 then parts[0]
    else parts[0] + sep + Join(parts[1..], sep)
  }

  /**
    `s.split(sep)` for a one-character separator: one more piece than there
    are separators, no piece contains the separator, and joining the pieces
    with the separator gives back `s`. The empty string splits to `[""]`.
   */
  function Split(s: string, sep: char): (r: seq<string>)
    ensures |r| == CountChar(s, sep) + 1
    ensures forall i :: 0 <= i < |r| ==> sep !in r[i]
    ensures Join(r, [sep]) == s
    decreases |s|
  {
    if |s| == 0 then [""]
    else
      var rest := Split(s[1..], sep);
      if s[0] == sep then
        assert ([""] + rest)[1..] == rest;
        [""] + rest
      else
        var r := [[s[0]] + rest[0]] + rest[1..];
        assert r[1..] == rest[1..];
        assert Join(r, [sep]) == [s[0]] + Join(rest, [sep]) by {
          if |rest| > 1 {
            assert Join(r, [sep]) == ([s[0]] + rest[0]) + [sep] + Join(rest[1..], [sep]);
          }
        }
        assert s == [s[0]] + s[1..];
        r
  }

  lemma {:induction false} SplitNoSep(a: string, sep: char)
    requires sep !in a
    ensures Split(a, sep) == [a]
    decreases |a|
  {
    if |a| > 0 {
      SplitNoSep(a[1..], sep);
      assert a == [a[0]] + a[1..];
    }
  }

  lemma {:induction false} SplitAfterField(a: string, t: string, sep: char)
    requires sep !in a
    ensures Split(a + [sep] + t, sep) == [a] + Split(t, sep)
    decreases |a|
  {
    var s := a + [sep] + t;
    if |a| == 0 {
      assert s[1..] == t;
    } else {
      assert s[1..] == a[1..] + [sep] + t;
      SplitAfterField(a[1..], t, sep);
      assert a == [a[0]] + a[1..];
    }
  }

  /** Splitting inverts joining, for pieces that do not contain the separator. */
  lemma {:induction false} SplitJoin(parts: seq<string>, sep: char)
    requires |parts| > 0
    requires forall i :: 0 <= i < |parts| ==> sep !in parts[i]
    ensures Split(Join(parts, [sep]), sep) == parts
    decreases |parts|
  {
    if |parts| == 1 {
      SplitNoSep(parts[0], sep);
    } else {
      SplitJoin(parts[1..], sep);
      SplitAfterField(parts[0], Join(parts[1..], [sep]), sep);
      assert parts == [parts[0]] + parts[1..];
    }
  }

  /**
    The pieces of `s.split(sep)` are the only separator-free list that joins
    back to `s`.
   */
  lemma SplitUnique(s: string, parts: seq<string>, sep: char)
    requires |parts| > 0
    requires forall i :: 0 <= i < |parts| ==> sep !in parts[i]
    ensures Split(s, sep) == parts <==> Join(parts, [sep]) == s
  {
    if Join(parts, [sep]) == s {
      SplitJoin(parts, sep);
    }
  }

  lemma JoinHeadPrefix(pre: string, parts: seq<string>, sep: string)
    requires |parts| > 0
    ensures Join(parts[0 := pre + parts[0]], sep) == pre + Join(parts, sep)
  {
    var q := parts[0 := pre + parts[0]];
    if |parts| > 1 {
      assert q[1..] == parts[1..];
    }
  }

  // ---------------------------------------------------------------------------
  // stripping

  /** Drops the longest prefix whose characters all satisfy `drop`. */
  function StripStart(s: string, drop: char -> bool): (r: string)
    ensures |r| <= |s| && r == s[|s| - |r|..]
    ensures forall k :: 0 <= k < |s| - |r| ==> drop(s[k])
    ensures |r| > 0 ==> !drop(r[0])
    decreases |s|
  {
    if |s| > 0 && drop(s[0]) then StripStart(s[1..], drop) else s
  }

  /** `s.rstrip(chars)` with `drop` the membership test for `chars`. */
  function StripEnd(s: string, drop: char -> bool): (r: string)
    ensures r <= s
    ensures forall k :: |r| <= k < |s| ==> drop(s[k])
    ensures |r| > 0 ==> !drop(r[|r| - 1])
    decreases |s|
  {
    if |s| > 0 && drop(s[|s| - 1]) then StripEnd(s[..|s| - 1], drop) else s
  }

  /** `s.strip()`: removes leading and trailing whitespace. */
  function Strip(s: string): (r: string)
    ensures Trimmed(r)
    ensures StripsTo(s, r)
  {
    var l := StripStart(s, IsSpace);
    var r := StripEnd(l, IsSpace);
    StripBothEnds(s, l, r);
    r
  }

  lemma StripBothEnds(s: string, l: string, r: string)
    requires |l| <= |s| && l == s[|s| - |l|..] && (|l| > 0 ==> !IsSpace(l[0]))
    requires forall k :: 0 <= k < |s| - |l| ==> IsSpace(s[k])
    requires r <= l && (|r| > 0 ==> !IsSpace(r[|r| - 1]))
    requires forall k :: |r| <= k < |l| ==> IsSpace(l[k])
    ensures Trimmed(r) && StrippedAt(s, |s| - |l|, r)
  {
  }

  /** `r` is `s` with some leading and some trailing whitespace removed. */
  ghost predicate StripsTo(s: string, r: string)
  {
    exists i :: StrippedAt(s, i, r)
  }

  /** `r` sits at offset `i` of `s` with only whitespace around it. */
  ghost predicate StrippedAt(s: string, i: int, r: string)
  {
    && 0 <= i && i + |r| <= |s|
    && s[i..i + |r|] == r
    && AllSpace(s[..i])
    && AllSpace(s[i + |r|..])
  }

  /** Stripping only removes characters, so it cannot introduce one. */
  lemma StripNoNewChar(s: string, c: char)
    requires c !in s
    ensures c !in Strip(s)
  {
  }

  lemma {:induction false} StripStartSpaces(pre: string, w: string, drop: char -> bool)
    requires forall k :: 0 <= k < |pre| ==> drop(pre[k])
    requires |w| == 0 || !drop(w[0])
    ensures StripStart(pre + w, drop) == w
    decreases |pre|
  {
    if |pre| > 0 {
      assert (pre + w)[1..] == pre[1..] + w;
      StripStartSpaces(pre[1..], w, drop);
    }
  }

  /** The result of `rstrip` is the only prefix without a strippable last character whose removed tail is all strippable. */
  lemma StripEndUnique(w: string, suf: string, drop: char -> bool)
    requires forall k :: 0 <= k < |suf| ==> drop(suf[k])
    requires |w| == 0 || !drop(w[|w| - 1])
    ensures StripEnd(w + suf, drop) == w
  {
    var s := w + suf;
    assert w == s[..|w|];
  }

  /** `strip()` removes exactly the surrounding whitespace and nothing else. */
  lemma StripUnique(pre: string, t: string, suf: string)
    requires AllSpace(pre) && AllSpace(suf) && Trimmed(t)
    ensures Strip(pre + t + suf) == t
  {
    if |t| > 0 {
      assert pre + t + suf == pre + (t + suf);
      StripStartSpaces(pre, t + suf, IsSpace);
      StripEndUnique(t, suf, IsSpace);
    } else {
      assert pre + t + suf == (pre + suf) + "";
      StripStartSpaces(pre + suf, "", IsSpace);
      StripEndUnique("", "", IsSpace);
    }
  }
}
