/**
  Python's `str.strip()` with no argument, as used on the inbound message
  text and on the completion text (api/index.py lines 89 and 128).

  Whitespace is Python's `str.isspace()` set of code points; strings are
  sequences of Unicode scalar values.
 */
module Text {

  /** The code points Python's `str.isspace()` accepts. */
  predicate IsSpace(c: char) {
    var n := c as int;
    || 0x09 <= n <= 0x0D
    || 0x1C <= n <= 0x20
    || n == 0x85
    || n == 0xA0
    || n == 0x1680
    || 0x2000 <= n <= 0x200A
    || n == 0x2028
    || n == 0x2029
    || n == 0x202F
    || n == 0x205F
    || n == 0x3000
  }

  predicate AllSpace(s: string) {
    forall k :: 0 <= k < |s| ==> IsSpace(s[k])
  }

  /** A string that `strip()` leaves alone: no whitespace at either end. */
  predicate Trimmed(s: string) {
    s == [] || (!IsSpace(s[0]) && !IsSpace(s[|s| - 1]))
  }

  /** `s.strip()`: whitespace is dropped from the front, then from the back. */
  function Strip(s: string): (r: string)
    ensures Trimmed(r)
    ensures |r| <= |s|
    decreases |s|
  {
    if |s| > 0 && IsSpace(s[0]) then Strip(s[1..])
    else if |s| > 0 && IsSpace(s[|s| - 1]) then Strip(s[..|s| - 1])
    else s
  }

  /** `r` sits at offset `i` of `s` with only whitespace on either side. */
  predicate CutAt(s: string, r: string, i: int) {
    && 0 <= i <= |s| - |r|
    && r == s[i..i + |r|]
    && AllSpace(s[..i])
    && AllSpace(s[i + |r|..])
  }

  lemma CutAfterSpace(s: string, r: string, j: int)
    requires |s| > 0 && IsSpace(s[0]) && CutAt(s[1..], r, j)
    ensures CutAt(s, r, j + 1)
  {
    var t := s[1..];
    assert s[j + 1..j + 1 + |r|] == t[j..j + |r|];
    assert s[j + 1 + |r|..] == t[j + |r|..];
    var front := s[..j + 1];
    forall k | 0 <= k < |front|
      ensures IsSpace(front[k])
    {
      if k > 0 {
        assert front[k] == t[..j][k - 1];
      }
    }
  }

  lemma CutBeforeSpace(s: string, r: string, j: int)
    requires |s| > 0 && IsSpace(s[|s| - 1]) && CutAt(s[..|s| - 1], r, j)
    ensures CutAt(s, r, j)
  {
    var t := s[..|s| - 1];
    assert s[..j] == t[..j];
    assert s[j..j + |r|] == t[j..j + |r|];
    assert s[j + |r|..] == t[j + |r|..] + [s[|s| - 1]];
  }

  /**
    What `strip()` cuts away: the result is a contiguous piece of `s` and
    everything on either side of it is whitespace.
   */
  lemma {:induction false} StripCutsOnlySpace(s: string)
    ensures exists i :: CutAt(s, Strip(s), i)
    decreases |s|
  {
    var r := Strip(s);
    if |s| > 0 && IsSpace(s[0]) {
      StripCutsOnlySpace(s[1..]);
      var j :| CutAt(s[1..], r, j);
      CutAfterSpace(s, r, j);
    } else if |s| > 0 && IsSpace(s[|s| - 1]) {
      StripCutsOnlySpace(s[..|s| - 1]);
      var j :| CutAt(s[..|s| - 1], r, j);
      CutBeforeSpace(s, r, j);
    } else {
      assert s[0..0 + |r|] == s;
      assert CutAt(s, r, 0);
    }
  }

  /** Stripping a string already stripped changes nothing. */
  lemma StripOfTrimmed(s: string)
    requires Trimmed(s)
    ensures Strip(s) == s
  {
  }

  /** `strip()` is idempotent. */
  lemma StripIdempotent(s: string)
    ensures Strip(Strip(s)) == Strip(s)
  {
    StripOfTrimmed(Strip(s));
  }

  /**
    Reference characterisation: surrounding any string without edge
    whitespace by whitespace runs, `strip()` recovers exactly that string.
   */
  lemma {:induction false} StripRecovers(pre: string, m: string, post: string)
    requires AllSpace(pre) && AllSpace(post) && Trimmed(m)
    ensures Strip(pre + m + post) == m
    decreases |pre| + |post|
  {
    var s := pre + m + post;
    if pre != [] {
      assert s[0] == pre[0];
      assert s[1..] == pre[1..] + m + post;
      StripRecovers(pre[1..], m, post);
    } else if m == [] && post != [] {
      assert s == post;
      assert s[1..] == [] + [] + post[1..];
      StripRecovers([], [], post[1..]);
    } else if post != [] {
      assert s == m + post;
      assert s[0] == m[0];
      assert s[..|s| - 1] == [] + m + post[..|post| - 1];
      StripRecovers([], m, post[..|post| - 1]);
    } else {
      assert s == m;
      StripOfTrimmed(m);
    }
  }
}
