/**
 Small shared vocabulary: an optional value, map lookups with a default
 (Java's `Map.getOrDefault`), string tests (`startsWith`, `includes`,
 `equalsIgnoreCase`) and an HTTP-style response of a status code and a
 flat string-to-string body.
 */
module Basics {

  datatype Option<+T> = None | Some(value: T) {
    function GetOr(default: T): T {
      match this
      case Some(v) => v
      case None => default
    }
  }

  /** `m.getOrDefault(k, d)` for a map without null values. */
  function MapGetOr<K, V>(m: map<K, V>, k: K, d: V): (v: V)
    ensures k in m ==> v == m[k]
    ensures k !in m ==> v == d
  {
    if k in m then m[k] else d
  }

  /** `s.startsWith(p)` */
  predicate StartsWith(s: string, p: string) {
    |p| <= |s| && s[..|p|] == p
  }

  /** `s.includes(sub)` / `s.contains(sub)`: `sub` occurs at some offset of `s`. */
  predicate Includes(s: string, sub: string) {
    exists i :: 0 <= i <= |s| - |sub| && OccursAt(s, sub, i)
  }

  /** `sub` occurs in `s` starting at offset `i`. */
  predicate OccursAt(s: string, sub: string, i: int) {
    0 <= i <= |s| - |sub| && s[i..i + |sub|] == sub
  }

  /** `sub` is absent from `s` when no position of `s` starts with the first two characters of `sub`. */
  lemma NotIncludedByFirstTwo(s: string, sub: string)
    requires |sub| >= 2
    requires forall i :: 0 <= i < |s| - 1 ==> s[i] != sub[0] || s[i + 1] != sub[1]
    ensures !Includes(s, sub)
  {
    forall i | 0 <= i <= |s| - |sub| ensures !OccursAt(s, sub, i) {
      var w := s[i..i + |sub|];
      assert w[0] == s[i] && w[1] == s[i + 1];
    }
  }

  /** Case folding of a single character, restricted to ASCII letters. */
  function FoldCase(c: char): (d: char)
    ensures 'A' <= c <= 'Z' ==> 'a' <= d <= 'z'
    ensures !('A' <= c <= 'Z') ==> d == c
  {
    if 'A' <= c <= 'Z' then (c as int - 'A' as int + 'a' as int) as char else c
  }

  /** `a.equalsIgnoreCase(b)`: same length and equal character by character after folding. */
  predicate EqualsIgnoreCase(a: string, b: string) {
    |a| == |b| && forall i :: 0 <= i < |a| ==> FoldCase(a[i]) == FoldCase(b[i])
  }

  /** A response: HTTP status code plus a JSON object with string values. */
  datatype Response = Response(code: int, fields: map<string, string>)
}
