/**
 Small shared vocabulary: optional values, results with a message, and the
 few JavaScript string operations the rest of the model leans on.
 */
module Common {

  /** A value that may be absent (JavaScript `undefined`/`null`). */
  datatype Option<+T> = None | Some(value: T)

  /** The outcome of an operation that can throw; `Failure` carries the message. */
  datatype Result<+T> = Success(value: T) | Failure(message: string)

  /** `s.slice(0, n)`: the first `n` characters, or all of `s` when it is shorter. */
  function Take(s: string, n: nat): (r: string)
    ensures |r| == if |s| <= n then |s| else n
    ensures r <= s
  {
    if |s| <= n then s else s[..n]
  }

  /** Concatenation is associative; stated once so that proofs need not rediscover it. */
  lemma ConcatAssoc<T>(x: seq<T>, y: seq<T>, z: seq<T>)
    ensures x + (y + z) == (x + y) + z
  {
  }

  /** `s.endsWith(suffix)`. */
  predicate EndsWith(s: string, suffix: string) {
    |suffix| <= |s| && s[|s| - |suffix|..] == suffix
  }

  /** `b.includes(a)`: `a` occurs as a contiguous piece of `b`. */
  ghost predicate IsInfix(a: string, b: string) {
    exists i, j :: 0 <= i <= j <= |b| && b[i..j] == a
  }

  /** The infix relation on a concatenation, stated so its witness is explicit. */
  lemma InfixOfConcat(pre: string, a: string, post: string)
    ensures IsInfix(a, pre + a + post)
  {
    var b := pre + a + post;
    assert b[|pre|..|pre| + |a|] == a;
  }

  /** JavaScript's `.length`: the number of UTF-16 code units. */
  function Utf16Length(s: string): (n: nat)
    ensures |s| <= n <= 2 * |s|
    ensures (forall i | 0 <= i < |s| :: s[i] as int < 0x1_0000) ==> n == |s|
  {
    if s == [] then 0
    else (if s[0] as int < 0x1_0000 then 1 else 2) + Utf16Length(s[1..])
  }

  /** JavaScript truthiness of an optional string: present and not empty. */
  predicate IsTruthy(o: Option<string>) {
    o.Some? && o.value != ""
  }

  /** `a || b` on optional strings. */
  function Or(a: Option<string>, b: Option<string>): Option<string> {
    if IsTruthy(a) then a else b
  }

  /** `x || ''`. */
  function OrEmpty(o: Option<string>): string {
    if IsTruthy(o) then o.value else ""
  }

  /** `x || null`. */
  function OrNull(o: Option<string>): Option<string> {
    if IsTruthy(o) then o else None
  }
}
