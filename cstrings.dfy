/** The small `Option` type used for "may be absent" results (a null pointer in C). */
module Wrappers {
  datatype Option<+T> = None | Some(value: T)
}

/**
 * The libc string routines the request parser relies on, restricted to their
 * meaning on NUL-terminated ASCII text in the C locale.  Every string here is a
 * `seq<char>` that holds no NUL: the NUL that ends a C string is the end of the
 * sequence.
 */
module CStrings {
  import opened Wrappers

  /** `tolower` in the C locale: only 'A'..'Z' change, each to its lower-case letter. */
  function ToLower(c: char): char {
    if 'A' <= c <= 'Z' then (c as int + 32) as char else c
  }

  /** `strcasecmp(s, t) == 0`: equal lengths and equal bytes after `tolower`; every text equals itself. */
  predicate EqualsIgnoreCase(s: seq<char>, t: seq<char>) {
    |s| == |t| && forall k :: 0 <= k < |s| ==> ToLower(s[k]) == ToLower(t[k])
  }

  /** `strncasecmp(s, p, |p|) == 0` for a prefix `p` without NUL; a literal prefix always matches. */
  predicate StartsWithIgnoreCase(s: seq<char>, p: seq<char>) {
    |p| <= |s| && EqualsIgnoreCase(s[..|p|], p)
  }

  /** What `tolower` does to a byte: the result is never upper case, a letter keeps its letter, and folding twice is folding once. */
  lemma {:induction false} ToLowerFolds(c: char)
    ensures !('A' <= ToLower(c) <= 'Z')
    ensures !('A' <= c <= 'Z') ==> ToLower(c) == c
    ensures 'A' <= c <= 'Z' ==> 'a' <= ToLower(c) <= 'z' && ToLower(c) as int - c as int == 'a' as int - 'A' as int
    ensures ToLower(ToLower(c)) == ToLower(c)
  {
  }

  /** `strcasecmp(..) == 0` is an equivalence on texts of equal length that contains plain equality. */
  lemma {:induction false} EqualsIgnoreCaseLaws(s: seq<char>, t: seq<char>, u: seq<char>)
    ensures EqualsIgnoreCase(s, t) ==> |s| == |t|
    ensures EqualsIgnoreCase(s, s)
    ensures EqualsIgnoreCase(s, t) == EqualsIgnoreCase(t, s)
    ensures EqualsIgnoreCase(s, t) && EqualsIgnoreCase(t, u) ==> EqualsIgnoreCase(s, u)
  {
  }

  /** `strncasecmp(.., n) == 0` with `n` the pattern's length: a literal prefix matches, and a match survives bytes added after it. */
  lemma {:induction false} StartsWithIgnoreCaseLaws(s: seq<char>, p: seq<char>, x: seq<char>)
    ensures StartsWithIgnoreCase(s, p) ==> |p| <= |s|
    ensures p <= s ==> StartsWithIgnoreCase(s, p)
    ensures StartsWithIgnoreCase(s, p) ==> StartsWithIgnoreCase(s + x, p)
  {
    if p <= s {
      assert s[..|p|] == p;
    }
    if StartsWithIgnoreCase(s, p) {
      assert (s + x)[..|p|] == s[..|p|];
    }
  }

  /**
   * `strchr(s + i, c)`, and `strpbrk(s + i, set)` for a one-character set: the
   * offset in `s` of the first occurrence of `c` at or after `i`, or `None`
   * for a null pointer.  That it is the first one is lemma `FindFirst`.
   */
  function Find(s: seq<char>, c: char, i: nat): (r: Option<nat>)
    requires i <= |s|
    ensures r.Some? ==> i <= r.value < |s| && s[r.value] == c
    decreases |s| - i
  {
    if i == |s| then None
    else if s[i] == c then Some(i)
    else Find(s, c, i + 1)
  }

  /** No occurrence of `c` lies between `i` and the one `Find` reports; `None` means there is none. */
  lemma {:induction false} FindFirst(s: seq<char>, c: char, i: nat)
    requires i <= |s|
    ensures var r := Find(s, c, i);
      && (r.Some? ==> forall x :: i <= x < r.value ==> s[x] != c)
      && (r.None? ==> forall x :: i <= x < |s| ==> s[x] != c)
    decreases |s| - i
  {
    if i < |s| && s[i] != c {
      FindFirst(s, c, i + 1);
    }
  }

  /** Conversely, the first occurrence of `c` at or after `i` is what `Find` reports. */
  lemma {:induction false} FindIs(s: seq<char>, c: char, i: nat, n: nat)
    requires i <= n < |s| && s[n] == c
    requires forall x :: i <= x < n ==> s[x] != c
    ensures Find(s, c, i) == Some(n)
    decreases n - i
  {
    if i < n {
      FindIs(s, c, i + 1, n);
    }
  }

  /** A `None` from `Find` on a text without `c`. */
  lemma {:induction false} FindNone(s: seq<char>, c: char, i: nat)
    requires i <= |s|
    requires forall x :: i <= x < |s| ==> s[x] != c
    ensures Find(s, c, i) == None
    decreases |s| - i
  {
    if i < |s| {
      FindNone(s, c, i + 1);
    }
  }

  /**
   * `s + i + strspn(s + i, set)` for a one-character set: the offset in `s`
   * where the run of `c` that starts at `i` ends.  That every byte of the run
   * is `c` is lemma `SpanRun`.
   */
  function Span(s: seq<char>, c: char, i: nat): (n: nat)
    requires i <= |s|
    ensures i <= n <= |s|
    ensures n < |s| ==> s[n] != c
    decreases |s| - i
  {
    if i == |s| || s[i] != c then i else Span(s, c, i + 1)
  }

  lemma {:induction false} SpanRun(s: seq<char>, c: char, i: nat)
    requires i <= |s|
    ensures forall x :: i <= x < Span(s, c, i) ==> s[x] == c
    decreases |s| - i
  {
    if i < |s| && s[i] == c {
      SpanRun(s, c, i + 1);
    }
  }

  /** Conversely, a run of `c` from `i` to `n` that `s[n]` does not continue is what `Span` measures. */
  lemma {:induction false} SpanIs(s: seq<char>, c: char, i: nat, n: nat)
    requires i <= n <= |s|
    requires forall x :: i <= x < n ==> s[x] == c
    requires n < |s| ==> s[n] != c
    ensures Span(s, c, i) == n
    decreases n - i
  {
    if i < n {
      SpanIs(s, c, i + 1, n);
    }
  }

  /** Where the C string that starts at offset `i` of a buffer ends: its NUL, or the end of the buffer. */
  function CStringEnd(b: seq<char>, i: nat): (z: nat)
    requires i <= |b|
    ensures i <= z <= |b| && (z == |b| || b[z] == '\0')
  {
    match Find(b, '\0', i)
    case None => |b|
    case Some(z) => z
  }

  /**
   * The NUL-terminated string that starts at offset `i` of a buffer: the
   * longest run of bytes from `i` on that holds no NUL.  It ends at a NUL or at
   * the end of the buffer.
   */
  function CString(b: seq<char>, i: nat): (r: seq<char>)
    requires i <= |b|
    ensures i + |r| <= |b| && r == b[i..i + |r|]
    ensures forall k :: 0 <= k < |r| ==> r[k] != '\0'
    ensures i + |r| == |b| || b[i + |r|] == '\0'
  {
    FindFirst(b, '\0', i);
    b[i..CStringEnd(b, i)]
  }

  /** A NUL at `z` bounds the string that starts at `i <= z`. */
  lemma {:induction false} CStringStopsAtNul(b: seq<char>, i: nat, z: nat)
    requires i <= z < |b| && b[z] == '\0'
    ensures i + |CString(b, i)| <= z
  {
  }

  /**
   * Conversely, NUL-free bytes from `i` to `i + n`, ended by a NUL or by the end
   * of the buffer, are the C string at `i`.
   */
  lemma {:induction false} CStringIs(b: seq<char>, i: nat, n: nat)
    requires i + n <= |b|
    requires forall k :: i <= k < i + n ==> b[k] != '\0'
    requires i + n == |b| || b[i + n] == '\0'
    ensures CString(b, i) == b[i..i + n]
  {
  }

  /** Bytes appended after a NUL do not change the string in front of it. */
  lemma {:induction false} CStringExtend(b: seq<char>, e: seq<char>, i: nat, z: nat)
    requires i <= z < |b| && b[z] == '\0'
    ensures CString(b + e, i) == CString(b, i)
  {
    var r := CString(b, i);
    CStringStopsAtNul(b, i, z);
    forall k | i <= k < i + |r| ensures (b + e)[k] != '\0' {
      assert (b + e)[k] == b[k] == r[k - i];
    }
    assert (b + e)[i + |r|] == b[i + |r|];
    CStringIs(b + e, i, |r|);
    assert (b + e)[i..i + |r|] == b[i..i + |r|];
  }
}
