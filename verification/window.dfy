/**
  The context window of api/index.py line 120:
  `h = [h[0]] + h[-10:]`.

  Python's `h[-10:]` is the suffix starting at `max(0, len(h) - 10)`, so a
  history of at most ten entries is kept whole and its first entry (the
  directive) appears twice at the front of the result.
 */
module Window {
  import opened Chat

  /** How many trailing entries the slice `h[-10:]` keeps. */
  const Size: nat := 10

  function Min(a: int, b: int): int {
    if a <= b then a else b
  }

  /** Python's `h[-k:]` for a positive `k`. */
  function Last<T>(h: seq<T>, k: nat): (r: seq<T>)
    requires k > 0
    ensures |r| == Min(|h|, k)
    ensures forall j :: 0 <= j < |r| ==> r[j] == h[|h| - |r| + j]
  {
    if |h| <= k then h else h[|h| - k..]
  }

  /**
    Line 120 as written. The first entry is kept in front, followed by the
    last `Size` entries of the whole history, which include the first entry
    again whenever the history is no longer than `Size`.
   */
  function Trim(h: History): (r: History)
    requires |h| > 0
    ensures |r| == 1 + Min(|h|, Size)
    ensures r[0] == h[0]
    ensures r[|r| - 1] == h[|h| - 1]
  {
    [h[0]] + Last(h, Size)
  }

  /** After the first entry come the last `min(|h|, Size)` entries of `h`, in order. */
  lemma TrimKeepsSuffix(h: History)
    requires |h| > 0
    ensures Trim(h)[1..] == h[|h| - Min(|h|, Size)..]
  {
    assert Trim(h)[1..] == Last(h, Size);
  }

  /** A short history is kept whole, behind a second copy of its first entry. */
  lemma TrimShortDuplicatesFirst(h: History)
    requires 0 < |h| <= Size
    ensures Trim(h) == [h[0]] + h
    ensures Trim(h)[1] == Trim(h)[0]
  {
    TrimKeepsSuffix(h);
  }

  /** A long history loses its oldest non-leading entries and nothing is duplicated. */
  lemma TrimLongDropsOldest(h: History)
    requires |h| > Size
    ensures Trim(h) == [h[0]] + h[|h| - Size..]
    ensures |Trim(h)| == Size + 1
  {
    TrimKeepsSuffix(h);
  }

  /** Once the window is full, trimming again changes nothing. */
  lemma {:induction false} TrimIdempotentWhenFull(h: History)
    requires |h| >= Size
    ensures Trim(Trim(h)) == Trim(h)
  {
    var t := Trim(h);
    assert |t| == Size + 1;
    assert Trim(t) == [t[0]] + t[1..];
  }

  /**
    Whatever came before, the trimmed list is never longer than `Size + 1`
    and ends with the entry appended last.
   */
  lemma TrimAppendBounded(h: History, m: Message)
    ensures |Trim(h + [m])| <= Size + 1
    ensures Trim(h + [m])[|Trim(h + [m])| - 1] == m
    ensures |h| > 0 ==> Trim(h + [m])[0] == h[0]
  {
  }

  /**
    What the comment on line 119 asks of the window: one system entry in
    front, and then conversation entries only.
   */
  predicate SystemOnlyInFront(h: History) {
    && |h| > 0
    && h[0].role == System
    && forall j :: 1 <= j < |h| ==> h[j].role != System
  }

  /**
    Line 120 departs from line 119's comment: a short history whose only
    system entry is its first comes back with that entry twice.
   */
  lemma TrimRepeatsSystemEntry(h: History)
    requires 0 < |h| <= Size && SystemOnlyInFront(h)
    ensures !SystemOnlyInFront(Trim(h))
  {
    TrimShortDuplicatesFirst(h);
    assert Trim(h)[1].role == System;
  }

  /**
    The window line 119's comment describes: the first entry, then at most
    `Size` of the entries after it, the most recent ones.
   */
  function Intended(h: History): (r: History)
    requires |h| > 0
    ensures |r| == 1 + Min(|h| - 1, Size)
    ensures r[0] == h[0]
  {
    [h[0]] + Last(h[1..], Size)
  }

  /** After the first entry come the last `min(|h| - 1, Size)` entries of `h`, in order. */
  lemma IntendedKeepsSuffix(h: History)
    requires |h| > 0
    ensures Intended(h)[1..] == h[|h| - Min(|h| - 1, Size)..]
  {
    var t := h[1..];
    assert Intended(h)[1..] == Last(t, Size);
    assert t[|t| - Min(|t|, Size)..] == h[|h| - Min(|h| - 1, Size)..];
  }

  /** The intended window keeps a single system entry in front. */
  lemma {:induction false} IntendedKeepsSystemOnlyInFront(h: History)
    requires SystemOnlyInFront(h)
    ensures SystemOnlyInFront(Intended(h))
  {
    var r := Intended(h);
    IntendedKeepsSuffix(h);
    var d := |h| - |r|;
    forall j | 1 <= j < |r|
      ensures r[j].role != System
    {
      assert r[j] == r[1..][j - 1] == h[d + j];
    }
  }

  /** A history with at most `Size` entries after its first is left as it is. */
  lemma IntendedShortUnchanged(h: History)
    requires 0 < |h| <= Size + 1
    ensures Intended(h) == h
  {
    IntendedKeepsSuffix(h);
  }
}
