/**
 * The few C library string routines the request-line parser relies on
 * (strpbrk, strchr, strcasecmp, strncasecmp), over byte sequences.
 * A C string starting at position i of a sequence runs up to its first NUL
 * at or after i, or to the end of the sequence when there is none.
 */
module CString {
  import opened Wrappers

  newtype byte = x: int | 0 <= x < 256

  const NUL: byte := 0
  const TAB: byte := 9
  const LF: byte := 10
  const CR: byte := 13
  const SP: byte := 32
  const SLASH: byte := 47

  /** Position of the NUL that ends the C string starting at s[i] (|s| when the sequence ends first). */
  function CEnd(s: seq<byte>, i: nat): (e: nat)
    requires i <= |s|
    ensures i <= e <= |s|
    ensures forall j :: i <= j < e ==> s[j] != NUL
    ensures e < |s| ==> s[e] == NUL
    decreases |s| - i
  {
    if i == |s| || s[i] == NUL then i else CEnd(s, i + 1)
  }

  /** The bytes of the C string starting at s[i], without its terminator. */
  function CStr(s: seq<byte>, i: nat): (r: seq<byte>)
    requires i <= |s|
    ensures NUL !in r
  {
    s[i..CEnd(s, i)]
  }

  /** A NUL (or the end of the sequence) at e, and none in [i, e), fixes where the C string ends. */
  lemma CEndAt(s: seq<byte>, i: nat, e: nat)
    requires i <= e <= |s|
    requires e == |s| || s[e] == NUL
    requires forall j :: i <= j < e ==> s[j] != NUL
    ensures CEnd(s, i) == e
  {
  }

  /** strpbrk(s + i, accept): the first position of the C string holding a byte of accept, if any. */
  function Strpbrk(s: seq<byte>, i: nat, accept: set<byte>): (r: Option<nat>)
    requires i <= |s|
    ensures r.Some? ==> i <= r.value < CEnd(s, i) && s[r.value] in accept
    ensures r.Some? ==> forall j :: i <= j < r.value ==> s[j] !in accept
    ensures r.None? ==> forall j :: i <= j < CEnd(s, i) ==> s[j] !in accept
    decreases |s| - i
  {
    if i == |s| || s[i] == NUL then None
    else if s[i] in accept then Some(i)
    else Strpbrk(s, i + 1, accept)
  }

  /** strpbrk looks only at the C string itself: sequences that agree from i on give the same answer. */
  lemma {:induction false} StrpbrkSuffix(s: seq<byte>, s': seq<byte>, i: nat, accept: set<byte>)
    requires i <= |s| && i <= |s'|
    requires s[i..] == s'[i..]
    ensures Strpbrk(s, i, accept) == Strpbrk(s', i, accept)
    decreases |s| - i
  {
    assert |s| == |s'| by { assert |s[i..]| == |s'[i..]|; }
    if i < |s| {
      assert s[i] == s[i..][0] == s'[i..][0] == s'[i];
      assert s[i + 1..] == s[i..][1..] == s'[i..][1..] == s'[i + 1..];
      StrpbrkSuffix(s, s', i + 1, accept);
    }
  }

  /** C strings starting at i in sequences that agree from i on are the same string. */
  lemma CStrSuffix(s: seq<byte>, s': seq<byte>, i: nat)
    requires i <= |s| && i <= |s'|
    requires s[i..] == s'[i..]
    ensures CStr(s, i) == CStr(s', i)
  {
    assert |s| == |s'| by { assert |s[i..]| == |s'[i..]|; }
    forall j | i <= j < |s| ensures s[j] == s'[j] {
      assert s[j] == s[i..][j - i] == s'[i..][j - i] == s'[j];
    }
    CEndAt(s', i, CEnd(s, i));
  }

  /** Writing a byte before position i does not change the C string starting at i. */
  lemma CStrUpdateBefore(s: seq<byte>, k: nat, x: byte, i: nat)
    requires k < i <= |s|
    ensures CStr(s[k := x], i) == CStr(s, i)
  {
    CStrSuffix(s[k := x], s, i) by { assert s[k := x][i..] == s[i..]; }
  }

  /** ASCII tolower, as strcasecmp applies it in the C locale. */
  function Lower(c: byte): byte
  {
    if 65 <= c <= 90 then c + 32 else c
  }

  /** A string with every byte passed through tolower. */
  function LowerAll(s: seq<byte>): (r: seq<byte>)
    ensures |r| == |s| && forall k :: 0 <= k < |s| ==> r[k] == Lower(s[k])
  {
    if s == [] then [] else [Lower(s[0])] + LowerAll(s[1..])
  }

  /** strcasecmp(a, b) == 0 for two NUL-free strings: equal up to ASCII case. */
  predicate CaseEq(a: seq<byte>, b: seq<byte>)
  {
    |a| == |b| && forall k :: 0 <= k < |a| ==> Lower(a[k]) == Lower(b[k])
  }

  /** strncasecmp(a, p, |p|) == 0 for a NUL-free string a and a NUL-free literal p. */
  predicate CasePrefix(a: seq<byte>, p: seq<byte>)
  {
    |a| >= |p| && CaseEq(a[..|p|], p)
  }

  /** strcasecmp compares the lowered strings: CaseEq holds exactly when they are equal. */
  lemma CaseEqLowered(a: seq<byte>, b: seq<byte>)
    ensures CaseEq(a, b) <==> LowerAll(a) == LowerAll(b)
  {
    if LowerAll(a) == LowerAll(b) {
      forall k | 0 <= k < |a| ensures Lower(a[k]) == Lower(b[k]) {
        assert LowerAll(a)[k] == LowerAll(b)[k];
      }
    }
  }

  /** strncasecmp(a, p, |p|) compares the first |p| lowered bytes: a must be at least as long as p. */
  lemma CasePrefixLowered(a: seq<byte>, p: seq<byte>)
    ensures CasePrefix(a, p) <==> |a| >= |p| && LowerAll(a)[..|p|] == LowerAll(p)
  {
    if |a| >= |p| {
      CaseEqLowered(a[..|p|], p);
      assert LowerAll(a[..|p|]) == LowerAll(a)[..|p|];
    }
  }

  /** The method and scheme checks ignore case: "get" is GET, "HTTP://" is "http://", but "GETS" is not GET. */
  lemma CaseInsensitiveLiterals()
    ensures CaseEq([103, 101, 116], GET_LITERAL)
    ensures !CaseEq([71, 69, 84, 83], GET_LITERAL)
    ensures CasePrefix([72, 84, 84, 80, 58, 47, 47, 104], SCHEME_LITERAL)
    ensures !CasePrefix([104, 116, 116, 112, 58, 47], SCHEME_LITERAL)
  {
    var upper: seq<byte> := [72, 84, 84, 80, 58, 47, 47, 104];
    assert upper[..7] == [72, 84, 84, 80, 58, 47, 47];
  }

  /** "GET" */
  const GET_LITERAL: seq<byte> := [71, 69, 84]
  /** "HTTP/1,1", the version literal the parser compares against (with a comma). */
  const VERSION_LITERAL: seq<byte> := [72, 84, 84, 80, 47, 49, 44, 49]
  /** "HTTP/1.1", the version token clients send. */
  const HTTP11_LITERAL: seq<byte> := [72, 84, 84, 80, 47, 49, 46, 49]
  /** "http://" */
  const SCHEME_LITERAL: seq<byte> := [104, 116, 116, 112, 58, 47, 47]
}
