/** String operations shared by the Python back end and the JavaScript code:
    whitespace trimming (Python `str.strip()`, JavaScript `String.prototype.trim`),
    substring tests (Python `in`), prefix tests (`startsWith`), ASCII case mapping
    and removal of every occurrence of one character (`replace(/%/g, '')`). */
module Text {

  /** The one whitespace predicate used for both `strip()` and `trim()`. */
  predicate IsSpace(c: char) {
    c == ' ' || c == '\t' || c == '\n' || c == '\r' || c == '\U{B}' || c == '\U{C}'
  }

  predicate AllSpace(s: string) {
    forall k :: 0 <= k < |s| ==> IsSpace(s[k])
  }

  /** No whitespace at either end. */
  predicate IsTrimmed(s: string) {
    s == [] || (!IsSpace(s[0]) && !IsSpace(s[|s| - 1]))
  }

  /** `r` is `s` with some whitespace-only prefix and suffix cut off. */
  predicate StripsTo(s: string, r: string) {
    exists i, j :: 0 <= i <= j <= |s| && r == s[i..j] && AllSpace(s[..i]) && AllSpace(s[j..])
  }

  /** `s` without its leading whitespace. */
  function TrimStart(s: string): (r: string)
    ensures |r| <= |s|
  {
    if s != [] && IsSpace(s[0]) then TrimStart(s[1..]) else s
  }

  /** `s` without its trailing whitespace. */
  function TrimEnd(s: string): (r: string)
    ensures |r| <= |s|
  {
    if s != [] && IsSpace(s[|s| - 1]) then TrimEnd(s[..|s| - 1]) else s
  }

  /** `strip()` / `trim()`: the whitespace-free core of `s`. */
  function Trim(s: string): (r: string)
    ensures |r| <= |s|
  {
    TrimEnd(TrimStart(s))
  }

  /** `TrimStart` cuts a whitespace prefix and stops at the first other character. */
  lemma {:induction false} TrimStartAt(s: string) returns (i: nat)
    ensures i <= |s| && TrimStart(s) == s[i..] && AllSpace(s[..i])
    ensures TrimStart(s) == [] || !IsSpace(TrimStart(s)[0])
  {
    if s != [] && IsSpace(s[0]) {
      var k := TrimStartAt(s[1..]);
      i := k + 1;
      assert s[1..][k..] == s[i..];
      assert s[..i] == [s[0]] + s[1..][..k];
    } else {
      i := 0;
    }
  }

  /** `TrimEnd` cuts a whitespace suffix and stops at the last other character. */
  lemma {:induction false} TrimEndAt(s: string) returns (j: nat)
    ensures j <= |s| && TrimEnd(s) == s[..j] && AllSpace(s[j..])
    ensures TrimEnd(s) == [] || !IsSpace(TrimEnd(s)[|TrimEnd(s)| - 1])
  {
    if s != [] && IsSpace(s[|s| - 1]) {
      var init := s[..|s| - 1];
      j := TrimEndAt(init);
      assert init[..j] == s[..j];
      assert s[j..] == init[j..] + [s[|s| - 1]];
    } else {
      j := |s|;
    }
  }

  /** `Trim` cuts whitespace only, and all of it at both ends. */
  lemma TrimShape(s: string)
    ensures IsTrimmed(Trim(s))
    ensures StripsTo(s, Trim(s))
  {
    var i := TrimStartAt(s);
    var t := s[i..];
    var j := TrimEndAt(t);
    assert Trim(s) == TrimEnd(t) == t[..j];
    assert t[..j] == s[i..i + j];
    assert t[j..] == s[i + j..];
    if Trim(s) != [] {
      assert Trim(s)[0] == t[0];
    }
  }

  /** Trimming keeps no character the input lacked. */
  lemma TrimAbsent(s: string, c: char)
    requires c !in s
    ensures c !in Trim(s)
  {
    var i := TrimStartAt(s);
    var t := s[i..];
    var j := TrimEndAt(t);
    var r := Trim(s);
    assert r == TrimEnd(t) == t[..j];
    assert t[..j] == s[i..i + j];
    forall k | 0 <= k < |r| ensures r[k] != c {
      assert r[k] == s[i + k];
    }
  }

  /** A trimmed string is its own `strip()`. */
  lemma TrimOfTrimmed(s: string)
    requires IsTrimmed(s)
    ensures Trim(s) == s
  {
  }

  /** Whitespace-only input trims to the empty string. */
  lemma {:induction false} TrimAllSpace(s: string)
    requires AllSpace(s)
    ensures Trim(s) == []
  {
    if s != [] {
      TrimAllSpace(s[1..]);
    }
  }

  /** Python `t in s`: `t` occurs in `s` as a contiguous substring. The
      comparison is exact, so it is case-sensitive. */
  predicate Contains(s: string, t: string) {
    t <= s || (s != [] && Contains(s[1..], t))
  }

  /** `Contains` finds exactly the positions where `t` occurs. */
  lemma {:induction false} ContainsAt(s: string, t: string)
    ensures Contains(s, t) <==> exists i :: 0 <= i <= |s| - |t| && t <= s[i..]
  {
    assert s[0..] == s;
    if !(t <= s) && s != [] {
      var tail := s[1..];
      ContainsAt(tail, t);
      if Contains(tail, t) {
        var i :| 0 <= i <= |tail| - |t| && t <= tail[i..];
        assert s[i + 1..] == tail[i..];
      } else {
        forall i | 1 <= i <= |s| - |t| ensures !(t <= s[i..]) {
          assert tail[i - 1..] == s[i..];
        }
      }
    }
  }

  /** A substring test only succeeds if the first character of the needle occurs
      in the haystack, with the same letter case. */
  lemma {:induction false} ContainsHead(s: string, t: string)
    requires Contains(s, t) && t != []
    ensures t[0] in s
  {
    if !(t <= s) {
      ContainsHead(s[1..], t);
    }
  }

  /** JavaScript `s.startsWith(p)`. */
  predicate StartsWith(s: string, p: string) {
    p <= s
  }

  predicate IsAsciiLetter(c: char) {
    ('A' <= c <= 'Z') || ('a' <= c <= 'z')
  }

  predicate IsAsciiUpper(c: char) {
    'A' <= c <= 'Z'
  }

  function UpperChar(c: char): char {
    if 'a' <= c <= 'z' then (c as int - 32) as char else c
  }

  function LowerChar(c: char): char {
    if 'A' <= c <= 'Z' then (c as int + 32) as char else c
  }

  /** `toUpperCase()` / `upper()`, on the ASCII letters. */
  function ToUpper(s: string): (r: string) {
    seq(|s|, i requires 0 <= i < |s| => UpperChar(s[i]))
  }

  /** `lower()`, on the ASCII letters. */
  function ToLower(s: string): (r: string) {
    seq(|s|, i requires 0 <= i < |s| => LowerChar(s[i]))
  }

  /** Upper-casing keeps the length, maps letters to upper-case letters, and
      leaves every other character alone. */
  lemma ToUpperShape(s: string)
    ensures |ToUpper(s)| == |s|
    ensures forall i :: 0 <= i < |s| ==> IsAsciiLetter(ToUpper(s)[i]) == IsAsciiLetter(s[i])
    ensures forall i :: 0 <= i < |s| && IsAsciiLetter(s[i]) ==> IsAsciiUpper(ToUpper(s)[i])
    ensures forall i :: 0 <= i < |s| && !IsAsciiLetter(s[i]) ==> ToUpper(s)[i] == s[i]
  {
  }

  /** Upper-casing twice is upper-casing once. */
  lemma ToUpperIdempotent(s: string)
    ensures ToUpper(ToUpper(s)) == ToUpper(s)
  {
  }

  /** Lower-casing forgets any earlier upper-casing. */
  lemma ToLowerAfterToUpper(s: string)
    ensures ToLower(ToUpper(s)) == ToLower(s)
  {
  }

  /** `s.replace(/c/g, '')`: every occurrence of `c` removed, the other
      characters kept in order. */
  function RemoveAll(s: string, c: char): (r: string)
    ensures c !in r
    ensures multiset(r) == multiset(s)[c := 0]
    ensures |r| <= |s|
  {
    if s == [] then []
    else
      var rest := RemoveAll(s[1..], c);
      assert s == [s[0]] + s[1..];
      if s[0] == c then rest else [s[0]] + rest
  }

  /** Removing a character from a concatenation removes it from each part, and
      a single character is dropped exactly when it is `c`. Together these fix
      `RemoveAll(s, c)` as the characters of `s` other than `c`, in their order. */
  lemma {:induction false} RemoveAllAppend(a: string, b: string, c: char)
    ensures RemoveAll(a + b, c) == RemoveAll(a, c) + RemoveAll(b, c)
    ensures |a| == 1 ==> RemoveAll(a, c) == (if a[0] == c then [] else a)
  {
    assert |a| == 1 ==> a[1..] == [];
    if a == [] {
      assert a + b == b;
    } else {
      assert (a + b)[0] == a[0];
      assert (a + b)[1..] == a[1..] + b;
      RemoveAllAppend(a[1..], b, c);
    }
  }

  /** Removing a character that does not occur changes nothing. */
  lemma {:induction false} RemoveAllAbsent(s: string, c: char)
    requires c !in s
    ensures RemoveAll(s, c) == s
  {
    if s != [] {
      assert c !in s[1..];
      RemoveAllAbsent(s[1..], c);
    }
  }

}
