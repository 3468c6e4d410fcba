/**
 * The few Python string operations the services rely on: `str.strip()`,
 * `str.startswith`, the `in` substring test and `str.split(sep)`.
 * Whitespace is the fixed set of characters Python's `str.isspace()` accepts.
 */
module Text {
  import opened Wrappers

  /**
   * The characters for which Python's `str.isspace()` holds, which are the
   * ones `str.strip()` removes: tab to carriage return, the four separators
   * U+001C to U+001F, the blank, and the Unicode spaces and line separators.
   */
  predicate IsSpace(c: char) {
    || '\t' <= c <= '\r'
    || '\U{001C}' <= c <= ' '
    || c == '\U{0085}' || c == '\U{00A0}' || c == '\U{1680}'
    || '\U{2000}' <= c <= '\U{200A}'
    || c == '\U{2028}' || c == '\U{2029}' || c == '\U{202F}' || c == '\U{205F}' || c == '\U{3000}'
  }

  ghost predicate AllSpace(s: string) {
    forall i :: 0 <= i < |s| ==> IsSpace(s[i])
  }

  /** No leading and no trailing whitespace. */
  ghost predicate Trimmed(s: string) {
    s == [] || (!IsSpace(s[0]) && !IsSpace(s[|s| - 1]))
  }

  /**
   * `s.strip()`: drops whitespace from both ends. The result starts and
   * ends with a non-whitespace character, and is empty exactly when `s`
   * is all whitespace.
   */
  function Strip(s: string): (r: string)
    ensures |r| <= |s|
    ensures Trimmed(r)
    ensures r == [] <==> AllSpace(s)
    decreases |s|
  {
    if |s| > 0 && IsSpace(s[0]) then
      assert AllSpace(s[1..]) ==> AllSpace(s) by {
        if AllSpace(s[1..]) {
          forall k | 1 <= k < |s| ensures IsSpace(s[k]) { assert s[k] == s[1..][k - 1]; }
        }
      }
      Strip(s[1..])
    else if |s| > 0 && IsSpace(s[|s| - 1]) then
      assert AllSpace(s[..|s| - 1]) ==> AllSpace(s) by {
        if AllSpace(s[..|s| - 1]) {
          forall k | 0 <= k < |s| - 1 ensures IsSpace(s[k]) { assert s[k] == s[..|s| - 1][k]; }
        }
      }
      Strip(s[..|s| - 1])
    else
      s
  }

  /** `r` is the piece of `s` at offset `i`, with only whitespace before and after it. */
  ghost predicate Framed(s: string, r: string, i: int) {
    0 <= i && i + |r| <= |s| && r == s[i..i + |r|] && AllSpace(s[..i]) && AllSpace(s[i + |r|..])
  }

  /** What `strip()` keeps is a piece of `s` with only whitespace before and after it. */
  lemma {:induction false} StripIsInfix(s: string)
    ensures exists i :: Framed(s, Strip(s), i)
    decreases |s|
  {
    var r := Strip(s);
    if |s| > 0 && IsSpace(s[0]) {
      StripIsInfix(s[1..]);
      var i :| Framed(s[1..], r, i);
      FramedFront(s, r, i);
    } else if |s| > 0 && IsSpace(s[|s| - 1]) {
      StripIsInfix(s[..|s| - 1]);
      var i :| Framed(s[..|s| - 1], r, i);
      FramedBack(s, r, i);
    } else {
      assert Framed(s, r, 0) by {
        assert s[..0] == [] && s[|r|..] == [];
      }
    }
  }

  lemma FramedFront(s: string, r: string, i: int)
    requires |s| > 0 && IsSpace(s[0]) && Framed(s[1..], r, i)
    ensures Framed(s, r, i + 1)
  {
    var t := s[1..];
    assert r == s[i + 1..i + 1 + |r|];
    assert s[i + 1 + |r|..] == t[i + |r|..];
    forall k | 1 <= k < i + 1 ensures IsSpace(s[k]) { assert s[k] == t[..i][k - 1]; }
  }

  lemma FramedBack(s: string, r: string, i: int)
    requires |s| > 0 && IsSpace(s[|s| - 1]) && Framed(s[..|s| - 1], r, i)
    ensures Framed(s, r, i)
  {
    var t := s[..|s| - 1];
    assert r == s[i..i + |r|];
    assert s[..i] == t[..i];
    assert s[i + |r|..] == t[i + |r|..] + [s[|s| - 1]];
  }

  /** Whitespace around a string does not change what `strip()` returns. */
  lemma StripPadded(a: string, s: string, b: string)
    requires AllSpace(a) && AllSpace(b)
    ensures Strip(a + s + b) == Strip(s)
  {
    assert a + s + b == a + (s + b);
    StripPaddedFront(a, s + b);
    StripPaddedBack(s, b);
  }

  lemma {:induction false} StripPaddedFront(a: string, s: string)
    requires AllSpace(a)
    ensures Strip(a + s) == Strip(s)
    decreases |a|
  {
    if a != [] {
      var t := a[1..];
      assert (a + s)[0] == a[0];
      assert (a + s)[1..] == t + s;
      assert AllSpace(t) by {
        forall k | 0 <= k < |t| ensures IsSpace(t[k]) { assert t[k] == a[k + 1]; }
      }
      StripPaddedFront(t, s);
    } else {
      assert a + s == s;
    }
  }

  lemma {:induction false} StripPaddedBack(s: string, b: string)
    requires AllSpace(b)
    ensures Strip(s + b) == Strip(s)
    decreases |s| + |b|
  {
    if b == [] {
      assert s + b == s;
    } else if s == [] {
      assert s + b == b;
    } else if IsSpace(s[0]) {
      assert (s + b)[0] == s[0];
      assert (s + b)[1..] == s[1..] + b;
      StripPaddedBack(s[1..], b);
    } else {
      var t := b[..|b| - 1];
      assert (s + b)[0] == s[0];
      assert (s + b)[|s + b| - 1] == b[|b| - 1];
      assert (s + b)[..|s + b| - 1] == s + t;
      assert AllSpace(t) by {
        forall k | 0 <= k < |t| ensures IsSpace(t[k]) { assert t[k] == b[k]; }
      }
      StripPaddedBack(s, t);
    }
  }

  /** A string with no surrounding whitespace is its own `strip()`. */
  lemma StripTrimmed(s: string)
    requires Trimmed(s)
    ensures Strip(s) == s
  {
  }

  /** `strip()` is idempotent. */
  lemma StripIdempotent(s: string)
    ensures Strip(Strip(s)) == Strip(s)
  {
    StripTrimmed(Strip(s));
  }

  /** `s.startswith(p)`. */
  predicate StartsWith(s: string, p: string) {
    |p| <= |s| && s[..|p|] == p
  }

  /** `p` occurs in `s` starting at index `i`. */
  predicate OccursAt(s: string, p: string, i: int) {
    0 <= i && i + |p| <= |s| && s[i..i + |p|] == p
  }

  /** `p` occurs nowhere in `s`. */
  ghost predicate Free(s: string, p: string) {
    forall i :: !OccursAt(s, p, i)
  }

  /** `s.find(p)`, with `None` for -1: the index of the first occurrence of `p` in `s`. */
  function IndexOf(s: string, p: string): (r: Option<nat>)
    ensures r.Some? ==> OccursAt(s, p, r.value)
    ensures r.Some? ==> forall j :: 0 <= j < r.value ==> !OccursAt(s, p, j)
    ensures r.None? <==> Free(s, p)
  {
    IndexFrom(s, p, 0)
  }

  /** `s.find(p, start)`: the first occurrence of `p` at or after `start`. */
  function IndexFrom(s: string, p: string, start: nat): (r: Option<nat>)
    ensures r.Some? ==> start <= r.value && OccursAt(s, p, r.value)
    ensures r.Some? ==> forall j :: start <= j < r.value ==> !OccursAt(s, p, j)
    ensures r.None? <==> forall j :: start <= j ==> !OccursAt(s, p, j)
    decreases |s| + 1 - start
  {
    if start > |s| then None
    else if OccursAt(s, p, start) then Some(start)
    else IndexFrom(s, p, start + 1)
  }

  /** The first occurrence is unique, so it pins IndexOf down. */
  lemma IndexOfIs(s: string, p: string, r: Option<nat>)
    requires r.Some? ==> OccursAt(s, p, r.value) && forall j :: 0 <= j < r.value ==> !OccursAt(s, p, j)
    requires r.None? ==> Free(s, p)
    ensures IndexOf(s, p) == r
  {
  }

  /** Python's `p in s`. */
  predicate Contains(s: string, p: string) {
    IndexOf(s, p).Some?
  }

  /** The text before the first occurrence of `p`, or all of `s`. */
  function Before(s: string, p: string): (r: string)
    ensures Free(r, p) || p == []
    ensures StartsWith(s, r)
    ensures !Contains(s, p) ==> r == s
    ensures Contains(s, p) ==> |r| == IndexOf(s, p).value
  {
    match IndexOf(s, p)
    case None => s
    case Some(i) =>
      assert forall j :: OccursAt(s[..i], p, j) ==> OccursAt(s, p, j) by {
        forall j | OccursAt(s[..i], p, j) ensures OccursAt(s, p, j) {
          assert s[..i][j..j + |p|] == s[j..j + |p|];
        }
      }
      s[..i]
  }

  /** The text after the first occurrence of `p`. */
  function After(s: string, p: string): (r: string)
    requires Contains(s, p)
    ensures s == Before(s, p) + p + r
  {
    var i := IndexOf(s, p).value;
    assert s == s[..i] + s[i..i + |p|] + s[i + |p|..];
    s[i + |p|..]
  }

  /**
   * Python's `s.split(sep)` for a non-empty separator: the pieces between
   * successive non-overlapping occurrences of `sep`, scanning left to right.
   */
  function Split(s: string, sep: string): (parts: seq<string>)
    requires sep != []
    ensures |parts| >= 1 && parts[0] == Before(s, sep)
    ensures |parts| > 1 <==> Contains(s, sep)
    ensures Contains(s, sep) ==> parts[1] == Before(After(s, sep), sep)
    decreases |s|
  {
    match IndexOf(s, sep)
    case None => [s]
    case Some(i) => [s[..i]] + Split(s[i + |sep|..], sep)
  }

  /** Python's `sep.join(parts)`. */
  function Join(parts: seq<string>, sep: string): string
    requires |parts| >= 1
  {
    if |parts| == 1 then parts[0] else parts[0] + sep + Join(parts[1..], sep)
  }

  /** Joining the pieces of a split with the same separator gives back the string. */
  lemma {:induction false} JoinSplit(s: string, sep: string)
    requires sep != []
    ensures Join(Split(s, sep), sep) == s
    decreases |s|
  {
    match IndexOf(s, sep)
    case None =>
    case Some(i) =>
      var rest := s[i + |sep|..];
      JoinSplit(rest, sep);
      var parts := Split(s, sep);
      assert parts == [s[..i]] + Split(rest, sep);
      assert parts[1..] == Split(rest, sep);
      assert Join(parts, sep) == s[..i] + sep + Join(Split(rest, sep), sep);
      assert s[i..i + |sep|] == sep;
      assert s == s[..i] + sep + rest;
  }

  /** No piece of a split contains the separator. */
  lemma {:induction false} SplitPiecesFree(s: string, sep: string)
    requires sep != []
    ensures forall k :: 0 <= k < |Split(s, sep)| ==> Free(Split(s, sep)[k], sep)
    decreases |s|
  {
    match IndexOf(s, sep)
    case None =>
    case Some(i) =>
      SplitPiecesFree(s[i + |sep|..], sep);
  }

  /**
   * Splitting on a one-character separator undoes a join with it, when no
   * piece contains that character (how the parser reads lines back).
   */
  lemma {:induction false} SplitJoin(parts: seq<string>, ch: char)
    requires |parts| >= 1
    requires forall k :: 0 <= k < |parts| ==> ch !in parts[k]
    ensures Split(Join(parts, [ch]), [ch]) == parts
    decreases |parts|
  {
    var s := Join(parts, [ch]);
    var x := parts[0];
    assert Free(x, [ch]) by {
      forall i | OccursAt(x, [ch], i) ensures false {
        OccursSingle(x, ch, i);
      }
    }
    if |parts| == 1 {
      IndexOfIs(s, [ch], None);
    } else {
      var rest := Join(parts[1..], [ch]);
      assert s == x + [ch] + rest;
      assert OccursAt(s, [ch], |x|) by { assert s[|x|..|x| + 1] == [ch]; }
      forall j | 0 <= j < |x| ensures !OccursAt(s, [ch], j) {
        assert s[j..j + 1] == x[j..j + 1];
        assert !OccursAt(x, [ch], j);
      }
      IndexOfIs(s, [ch], Some(|x|));
      assert s[|x| + 1..] == rest;
      SplitJoin(parts[1..], ch);
      assert parts == [x] + parts[1..];
    }
  }

  lemma OccursSingle(x: string, ch: char, i: int)
    requires OccursAt(x, [ch], i)
    ensures ch in x
  {
    assert x[i] == x[i..i + 1][0];
  }

  /** A string shorter than the pattern cannot contain it. */
  lemma FreeByLength(s: string, p: string)
    requires |s| < |p|
    ensures Free(s, p)
  {
  }

  /**
   * An occurrence of `p` in `x + [ch] + y` lies inside `x`, covers the
   * separator `ch`, or lies inside `y`.
   */
  lemma OccursAround(x: string, ch: char, y: string, p: string, i: int)
    requires OccursAt(x + [ch] + y, p, i)
    ensures OccursAt(x, p, i) || ch in p || OccursAt(y, p, i - |x| - 1)
  {
    var s := x + [ch] + y;
    if i + |p| <= |x| {
      assert s[i..i + |p|] == x[i..i + |p|];
    } else if i <= |x| {
      assert p[|x| - i] == s[i..i + |p|][|x| - i] == ch;
    } else {
      assert s[i..i + |p|] == y[i - |x| - 1..i - |x| - 1 + |p|];
    }
  }

  /** A separator character that the pattern lacks keeps two free pieces free. */
  lemma FreeAround(x: string, ch: char, y: string, p: string)
    requires Free(x, p) && Free(y, p) && ch !in p
    ensures Free(x + [ch] + y, p)
  {
    forall i | OccursAt(x + [ch] + y, p, i) ensures false {
      OccursAround(x, ch, y, p, i);
    }
  }

  /**
   * Searching `x + [ch] + y`, when `x` is free of `p` and `p` lacks `ch`,
   * is searching `y`, shifted past `x` and the separator.
   */
  lemma IndexOfAround(x: string, ch: char, y: string, p: string)
    requires Free(x, p) && ch !in p
    ensures IndexOf(y, p).None? ==> IndexOf(x + [ch] + y, p).None?
    ensures IndexOf(y, p).Some? ==> IndexOf(x + [ch] + y, p) == Some(|x| + 1 + IndexOf(y, p).value)
  {
    if IndexOf(y, p).None? {
      FreeAround(x, ch, y, p);
    } else {
      FirstOccurrenceAround(x, ch, y, p, IndexOf(y, p).value);
    }
  }

  lemma FirstOccurrenceAround(x: string, ch: char, y: string, p: string, k: nat)
    requires Free(x, p) && ch !in p
    requires OccursAt(y, p, k) && forall j :: 0 <= j < k ==> !OccursAt(y, p, j)
    ensures IndexOf(x + [ch] + y, p) == Some(|x| + 1 + k)
  {
    OccursShifted(x + [ch], y, p, k);
    NoEarlierOccurrence(x, ch, y, p, k);
    IndexOfIs(x + [ch] + y, p, Some(|x| + 1 + k));
  }

  /** An occurrence in `y` is an occurrence in `w + y`, shifted by `|w|`. */
  lemma OccursShifted(w: string, y: string, p: string, k: int)
    requires OccursAt(y, p, k)
    ensures OccursAt(w + y, p, |w| + k)
  {
    var s := w + y;
    assert s[|w|..] == y;
    assert s[|w| + k..|w| + k + |p|] == s[|w|..][k..k + |p|];
  }

  lemma NoEarlierOccurrence(x: string, ch: char, y: string, p: string, k: nat)
    requires Free(x, p) && ch !in p
    requires forall j :: 0 <= j < k ==> !OccursAt(y, p, j)
    ensures forall j :: 0 <= j < |x| + 1 + k ==> !OccursAt(x + [ch] + y, p, j)
  {
    forall j | 0 <= j < |x| + 1 + k && OccursAt(x + [ch] + y, p, j) ensures false {
      OccursAround(x, ch, y, p, j);
    }
  }
}
