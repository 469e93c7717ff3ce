/** C-string helpers shared by the command core and the console: the blank
    test of the core, `strcmp` ordering, prefix tests, `strstr` and the length
    of a common prefix. Strings are `seq<char>`; a C string never holds a NUL,
    so reading one position past the end yields the terminator. */
module CStrings {

  datatype Option<+T> = None | Some(value: T)

  /** `CLI_CRLF`, the line end of all console and reply output. */
  const Crlf: string := "\r\n"

  /** `cli_isspace`: the four characters the core treats as blanks. */
  predicate IsSpace(c: char) {
    c == ' ' || c == '\t' || c == '\n' || c == '\r'
  }

  /** `isspace` of the C library, used by `sscanf("%s")`. */
  predicate IsCSpace(c: char) {
    c == ' ' || c == '\t' || c == '\n' || c == '\r' || c == 11 as char || c == 12 as char
  }

  /** The character at position `i`, or the terminator when `i` is past the end. */
  function CharAt(s: string, i: nat): char {
    if i < |s| then s[i] else '\0'
  }

  /** The string a NUL-terminated buffer holds: everything before the first NUL. */
  function CStr(raw: seq<char>): (r: string)
    ensures |r| <= |raw| && r == raw[..|r|]
    ensures '\0' !in r
    ensures |r| < |raw| ==> raw[|r|] == '\0'
  {
    if |raw| == 0 then []
    else if raw[0] == '\0' then []
    else [raw[0]] + CStr(raw[1..])
  }

  /** `strcmp(a, b) < 0`: lexicographic order on characters. */
  predicate StrLess(a: string, b: string)
    decreases |a|
  {
    if |a| == 0 then |b| > 0
    else if |b| == 0 then false
    else if a[0] != b[0] then a[0] < b[0]
    else StrLess(a[1..], b[1..])
  }

  /** `strcmp` order is transitive. */
  lemma {:induction false} StrLessTrans(a: string, b: string, c: string)
    requires StrLess(a, b) && StrLess(b, c)
    ensures StrLess(a, c)
    decreases |a|
  {
    if |a| > 0 && a[0] == b[0] && b[0] == c[0] {
      StrLessTrans(a[1..], b[1..], c[1..]);
    }
  }

  /** `strcmp` order is asymmetric. */
  lemma {:induction false} StrLessAsym(a: string, b: string)
    requires StrLess(a, b)
    ensures !StrLess(b, a)
    decreases |a|
  {
    if |a| > 0 && a[0] == b[0] {
      StrLessAsym(a[1..], b[1..]);
    }
  }

  predicate IsPrefix(p: string, s: string) {
    |p| <= |s| && s[..|p|] == p
  }

  predicate NoSpace(s: string) {
    forall i :: 0 <= i < |s| ==> !IsSpace(s[i])
  }

  /** `t` occurs in `s` starting at position `j`. */
  predicate OccursAt(s: string, t: string, j: nat) {
    j + |t| <= |s| && s[j..j + |t|] == t
  }

  /** `strstr(s, t)`: the position of the first occurrence of `t` in `s`. */
  function StrStr(s: string, t: string): (r: Option<nat>)
    ensures r.Some? ==> OccursAt(s, t, r.value)
    ensures r.Some? ==> forall j :: 0 <= j < r.value ==> !OccursAt(s, t, j)
    ensures r.None? ==> forall j :: 0 <= j ==> !OccursAt(s, t, j)
  {
    StrStrFrom(s, t, 0)
  }

  function StrStrFrom(s: string, t: string, i: nat): (r: Option<nat>)
    requires i <= |s|
    ensures r.Some? ==> i <= r.value && OccursAt(s, t, r.value)
    ensures r.Some? ==> forall j :: i <= j < r.value ==> !OccursAt(s, t, j)
    ensures r.None? ==> forall j :: i <= j ==> !OccursAt(s, t, j)
    decreases |s| - i
  {
    if i + |t| > |s| then None
    else if s[i..i + |t|] == t then Some(i)
    else if i == |s| then None
    else StrStrFrom(s, t, i + 1)
  }

  /** The first occurrence of `t` is at position 0 exactly when `t` is a prefix of `s`. */
  lemma StrStrAtStart(s: string, t: string)
    ensures StrStr(s, t) == Some(0) <==> IsPrefix(t, s)
  {
    if IsPrefix(t, s) {
      assert s[0..|t|] == t;
    }
  }

  /** Length of the longest common prefix of `a` and `b`. */
  function Lcp(a: string, b: string): (r: nat)
    ensures r <= |a| && r <= |b|
    ensures a[..r] == b[..r]
    ensures r < |a| && r < |b| ==> a[r] != b[r]
  {
    if |a| == 0 || |b| == 0 || a[0] != b[0] then 0
    else
      var k := Lcp(a[1..], b[1..]);
      assert a[..k + 1] == [a[0]] + a[1..][..k];
      assert b[..k + 1] == [b[0]] + b[1..][..k];
      k + 1
  }

  /** Two strings that agree on their first `n` characters agree on every shorter prefix. */
  lemma CommonPrefixShorter(a: string, b: string, n: nat, m: nat)
    requires m <= n <= |a| && n <= |b| && a[..n] == b[..n]
    ensures a[..m] == b[..m]
  {
    assert a[..m] == a[..n][..m];
    assert b[..m] == b[..n][..m];
  }

  /** The longest common prefix is no shorter than any common prefix. */
  lemma LcpMaximal(a: string, b: string, n: nat)
    requires n <= |a| && n <= |b| && a[..n] == b[..n]
    ensures n <= Lcp(a, b)
  {
    forall i | 0 <= i < n
      ensures a[i] == b[i]
    {
      assert a[i] == a[..n][i];
      assert b[i] == b[..n][i];
    }
  }

  /** Two different strings differ at their common-prefix length, counting
      the terminator as a character. */
  lemma LcpOfDifferent(a: string, b: string)
    requires a != b
    requires '\0' !in a && '\0' !in b
    ensures CharAt(a, Lcp(a, b)) != CharAt(b, Lcp(a, b))
  {
    LcpWhole(a, b);
  }

  lemma LcpWhole(a: string, b: string)
    ensures Lcp(a, b) == |a| == |b| ==> a == b
  {
    assert a[..|a|] == a;
    assert b[..|b|] == b;
  }

  /** `strncmp(a, b, n) == 0`: the first `n` characters agree, where a shorter
      string must end at the same place. */
  predicate StrNEq(a: string, b: string, n: nat) {
    var la := if |a| < n then |a| else n;
    var lb := if |b| < n then |b| else n;
    a[..la] == b[..lb]
  }
}
