/**
 * C strings and the small searches the program runs over them.
 * A `char` stands for one byte of the C program's `char` buffers.
 */
module CStrings {

  /** The terminating byte of a C string. */
  const NUL: char := '\0'

  /** A C string: a byte sequence that holds no NUL (its terminator is implicit). */
  type CStr = s: string | '\0' !in s

  /**
   * The first index at or after `i` that holds `c`, or `|s|` when there is
   * none: the pointer walk `while (*p && *p != c) p++` over a C string.
   * `FindFromSkips` says that nothing before the result holds `c`.
   */
  function FindFrom(s: seq<char>, i: nat, c: char): (r: nat)
    requires i <= |s|
    ensures i <= r <= |s|
    ensures r < |s| ==> s[r] == c
    decreases |s| - i
  {
    if i == |s| || s[i] == c then i else FindFrom(s, i + 1, c)
  }

  /** No index between `i` and `FindFrom(s, i, c)` holds `c`. */
  lemma {:induction false} FindFromSkips(s: seq<char>, i: nat, c: char)
    requires i <= |s|
    ensures forall j :: i <= j < FindFrom(s, i, c) ==> s[j] != c
    decreases |s| - i
  {
    if i < |s| && s[i] != c {
      FindFromSkips(s, i + 1, c);
    }
  }

  /** A scan that stops at the first `c` (or the end) stops where `FindFrom` does. */
  lemma {:induction false} FindFromFirst(s: seq<char>, i: nat, c: char, k: nat)
    requires i <= k <= |s|
    requires k < |s| ==> s[k] == c
    requires forall j :: i <= j < k ==> s[j] != c
    ensures FindFrom(s, i, c) == k
    decreases k - i
  {
    if i < k {
      FindFromFirst(s, i + 1, c, k);
    }
  }

  /** The pointer walk `while (*p && *p != c) p++`, run from index `from`. */
  method ScanTo(s: seq<char>, from: nat, c: char) returns (i: nat)
    requires from <= |s|
    ensures i == FindFrom(s, from, c)
  {
    i := from;
    while i < |s| && s[i] != c
      invariant from <= i <= |s|
      invariant forall j :: from <= j < i ==> s[j] != c
    {
      i := i + 1;
    }
    FindFromFirst(s, from, c, i);
  }

  /**
   * The C string held by a zero-initialised buffer: everything before its
   * first NUL byte (what `strlen`, `fputs` and `%s` see).
   */
  function CString(buf: seq<char>): (r: CStr)
    ensures |r| <= |buf| && r == buf[..|r|]
    ensures |r| < |buf| ==> buf[|r|] == NUL
  {
    FindFromSkips(buf, 0, NUL);
    buf[..FindFrom(buf, 0, NUL)]
  }

  /** A buffer that holds `x`, then a NUL, then anything reads as the C string `x`. */
  lemma CStringStopsAtNul(x: CStr, rest: seq<char>)
    ensures CString(x + [NUL] + rest) == x
  {
    var buf := x + [NUL] + rest;
    assert buf[|x|] == NUL;
    assert buf[..|x|] == x;
  }

  /** Reading a C string from inside it gives the rest of that string. */
  lemma CStringSuffix(buf: seq<char>, start: nat)
    requires start <= |CString(buf)|
    ensures CString(buf[start..]) == CString(buf)[start..]
  {
    var s := CString(buf);
    var tail := buf[start..];
    forall j | 0 <= j < |s| - start
      ensures tail[j] != NUL
    {
      assert tail[j] == s[start + j];
    }
    FindFromFirst(tail, 0, NUL, |s| - start);
  }

  /** Storing a NUL at `k` ends the C string there. */
  lemma CStringCut(buf: seq<char>, k: nat)
    requires k < |CString(buf)|
    ensures CString(buf[k := NUL]) == CString(buf)[..k]
  {
    var s := CString(buf);
    var cut := buf[k := NUL];
    forall j | 0 <= j < k
      ensures cut[j] != NUL
    {
      assert cut[j] == s[j];
    }
    FindFromFirst(cut, 0, NUL, k);
  }

  /** `tolower` in the C locale: only `A`..`Z` change. */
  function LowerChar(c: char): (r: char)
    ensures 'A' <= c <= 'Z' ==> r as int == c as int + 32
    ensures !('A' <= c <= 'Z') ==> r == c
  {
    if 'A' <= c <= 'Z' then (c as int + 32) as char else c
  }

  /** Every byte of `s` passed through `LowerChar`. */
  function ToLower(s: string): (r: string)
    ensures |r| == |s|
    ensures forall i :: 0 <= i < |s| ==> r[i] == LowerChar(s[i])
  {
    seq(|s|, i requires 0 <= i < |s| => LowerChar(s[i]))
  }

  /** Appending is associative (written out where the solver needs the step). */
  lemma AppendAssoc(a: seq<char>, b: seq<char>, c: seq<char>)
    ensures a + (b + c) == (a + b) + c
  {
  }

  /** Appending nothing changes nothing. */
  lemma AppendEmpty(a: seq<char>)
    ensures a + [] == a
  {
  }
}
