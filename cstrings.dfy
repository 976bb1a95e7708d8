/**
 * The pieces of the C library that MString is built on, stated over
 * character sequences: the NUL terminator, strlen, strcmp, strstr, memcpy
 * and the ASCII case mappings of tolower/toupper.
 *
 * A `const char*` argument is modelled as the characters readable from the
 * pointer: a sequence that holds a terminator somewhere (Terminated). The
 * C string it denotes is the part before the first terminator (Text).
 */
module CStrings {

  datatype Option<T> = None | Some(value: T)

  const NUL: char := '\0'

  /** No terminator anywhere in s: s can be the text of a C string. */
  predicate NulFree(s: seq<char>) {
    forall i :: 0 <= i < |s| ==> s[i] != NUL
  }

  /** Memory that a `const char*` may legally be read through: it ends somewhere. */
  predicate Terminated(p: seq<char>) {
    NUL in p
  }

  lemma TerminatedTail(p: seq<char>)
    requires Terminated(p) && p[0] != NUL
    ensures Terminated(p[1..])
  {
  }

  /** strlen: the index of the first terminator. */
  function StrLen(p: seq<char>): (n: nat)
    requires Terminated(p)
    ensures n < |p| && p[n] == NUL
    ensures NulFree(p[..n])
    decreases |p|
  {
    if p[0] == NUL then 0
    else
      TerminatedTail(p);
      var n := StrLen(p[1..]);
      assert p[..n + 1] == [p[0]] + p[1..][..n];
      1 + n
  }

  /** The C string denoted by p: everything before its first terminator. */
  function Text(p: seq<char>): (t: seq<char>)
    requires Terminated(p)
    ensures NulFree(t) && |t| < |p|
    ensures p[..|t| + 1] == t + [NUL]
  {
    p[..StrLen(p)]
  }

  /** A NUL-free sequence followed by a terminator denotes exactly itself. */
  lemma TextOfTerminated(s: seq<char>, rest: seq<char>)
    requires NulFree(s)
    ensures Terminated(s + [NUL] + rest)
    ensures Text(s + [NUL] + rest) == s
  {
    var p := s + [NUL] + rest;
    assert p[|s|] == NUL;
  }

  /** p and q agree on a terminator-free prefix of length k and differ at k. */
  predicate FirstMismatch(p: seq<char>, q: seq<char>, k: int) {
    0 <= k < |p| && k < |q| && p[..k] == q[..k] && NulFree(p[..k]) && p[k] != q[k]
  }

  /** A mismatch after a common non-terminator first character is a mismatch one further on. */
  lemma MismatchShifts(p: seq<char>, q: seq<char>)
    requires |p| > 0 && |q| > 0 && p[0] == q[0] != NUL
    ensures forall k :: FirstMismatch(p[1..], q[1..], k) ==> FirstMismatch(p, q, k + 1)
  {
    forall k | FirstMismatch(p[1..], q[1..], k)
      ensures FirstMismatch(p, q, k + 1)
    {
      assert p[..k + 1] == [p[0]] + p[1..][..k];
      assert q[..k + 1] == [q[0]] + q[1..][..k];
    }
  }

  /**
   * strcmp: walks both strings while the characters agree; a nonzero result
   * is the difference of the characters at the first mismatch (0 means
   * equal, see StrCmpZeroIff).
   */
  function StrCmp(p: seq<char>, q: seq<char>): (r: int)
    requires Terminated(p) && Terminated(q)
    ensures r != 0 ==> exists k :: FirstMismatch(p, q, k) && r == p[k] as int - q[k] as int
    decreases |p|
  {
    if p[0] != q[0] then
      assert FirstMismatch(p, q, 0);
      p[0] as int - q[0] as int
    else if p[0] == NUL then 0
    else
      TerminatedTail(p);
      TerminatedTail(q);
      MismatchShifts(p, q);
      StrCmp(p[1..], q[1..])
  }

  lemma TextTail(p: seq<char>)
    requires Terminated(p) && p[0] != NUL
    ensures Terminated(p[1..])
    ensures Text(p) == [p[0]] + Text(p[1..])
  {
  }

  /** strcmp reports 0 exactly when the two C strings have the same text. */
  lemma {:induction false} StrCmpZeroIff(p: seq<char>, q: seq<char>)
    requires Terminated(p) && Terminated(q)
    ensures StrCmp(p, q) == 0 <==> Text(p) == Text(q)
    decreases |p|
  {
    if p[0] != q[0] {
      if p[0] == NUL {
        TextTail(q);
        assert Text(p) == [];
      } else if q[0] == NUL {
        TextTail(p);
        assert Text(q) == [];
      } else {
        TextTail(p);
        TextTail(q);
        assert Text(p)[0] != Text(q)[0];
      }
    } else if p[0] != NUL {
      TextTail(p);
      TextTail(q);
      StrCmpZeroIff(p[1..], q[1..]);
      if Text(p) == Text(q) {
        assert Text(p)[1..] == Text(p[1..]);
        assert Text(q)[1..] == Text(q[1..]);
      }
    }
  }

  /** w occurs in t starting at position i. */
  predicate OccursAt(t: seq<char>, w: seq<char>, i: nat) {
    i + |w| <= |t| && t[i..i + |w|] == w
  }

  /** The first position at or after i where w occurs in t, if any. */
  function FindFrom(t: seq<char>, w: seq<char>, i: nat): (r: Option<nat>)
    requires i <= |t|
    ensures r.Some? ==> i <= r.value && OccursAt(t, w, r.value)
    ensures r.Some? ==> forall j :: i <= j < r.value ==> !OccursAt(t, w, j)
    ensures r.None? ==> forall j :: i <= j ==> !OccursAt(t, w, j)
    decreases |t| - i
  {
    if OccursAt(t, w, i) then Some(i)
    else if i == |t| then None
    else FindFrom(t, w, i + 1)
  }

  /**
   * strstr: the offset of the first occurrence of needle's text inside
   * haystack's text (an empty needle is found at offset 0); None stands for
   * the null pointer.
   */
  function StrStr(haystack: seq<char>, needle: seq<char>): (r: Option<nat>)
    requires Terminated(haystack) && Terminated(needle)
    ensures r.Some? <==> exists i :: OccursAt(Text(haystack), Text(needle), i)
    ensures r.Some? ==> OccursAt(Text(haystack), Text(needle), r.value)
  {
    FindFrom(Text(haystack), Text(needle), 0)
  }

  /** tolower in the "C" locale: A-Z map to a-z, every other character is kept. */
  function LowerChar(c: char): (r: char)
    ensures !('A' <= r <= 'Z')
    ensures 'A' <= c <= 'Z' ==> r as int == c as int + 32
    ensures !('A' <= c <= 'Z') ==> r == c
  {
    if 'A' <= c <= 'Z' then (c as int + 32) as char else c
  }

  /** toupper in the "C" locale: a-z map to A-Z, every other character is kept. */
  function UpperChar(c: char): (r: char)
    ensures !('a' <= r <= 'z')
    ensures 'a' <= c <= 'z' ==> r as int == c as int - 32
    ensures !('a' <= c <= 'z') ==> r == c
  {
    if 'a' <= c <= 'z' then (c as int - 32) as char else c
  }

  /** Every character of s case-mapped by tolower. */
  function Lower(s: seq<char>): (r: seq<char>)
    ensures |r| == |s|
    ensures forall i :: 0 <= i < |s| ==> r[i] == LowerChar(s[i])
  {
    seq(|s|, i requires 0 <= i < |s| => LowerChar(s[i]))
  }

  /** Every character of s case-mapped by toupper. */
  function Upper(s: seq<char>): (r: seq<char>)
    ensures |r| == |s|
    ensures forall i :: 0 <= i < |s| ==> r[i] == UpperChar(s[i])
  {
    seq(|s|, i requires 0 <= i < |s| => UpperChar(s[i]))
  }

  /** Case mapping never introduces or removes a terminator. */
  lemma CaseMappingKeepsNulFree(s: seq<char>)
    ensures NulFree(s) <==> NulFree(Lower(s))
    ensures NulFree(s) <==> NulFree(Upper(s))
  {
  }

  /** Mapping twice is mapping once; mapping after the other case is mapping directly. */
  lemma CaseMappingIdempotent(s: seq<char>)
    ensures Lower(Lower(s)) == Lower(s)
    ensures Upper(Upper(s)) == Upper(s)
    ensures Lower(Upper(s)) == Lower(s)
    ensures Upper(Lower(s)) == Upper(s)
  {
  }

  /**
   * memcpy(dst + at, src + from, n): n characters of src, starting at from,
   * overwrite dst[at..at + n]; the rest of dst is untouched.
   */
  method MemCopy(dst: array<char>, at: nat, src: seq<char>, from: nat, n: nat)
    requires at + n <= dst.Length && from + n <= |src|
    modifies dst
    ensures dst[..at + n] == old(dst[..at]) + src[from..from + n]
    ensures dst[at + n..] == old(dst[at + n..])
  {
    var k := 0;
    while k < n
      invariant 0 <= k <= n
      invariant forall j :: 0 <= j < at ==> dst[j] == old(dst[j])
      invariant forall j :: at <= j < at + k ==> dst[j] == src[from + j - at]
      invariant forall j :: at + k <= j < dst.Length ==> dst[j] == old(dst[j])
    {
      dst[at + k] := src[from + k];
      k := k + 1;
    }
  }
}
