/** Vocabulary shared by both generations of the reflection engine: optional
    values, the outcome of code that may stop the program through an
    assertion, name hashes and the bounded string comparisons the engine uses. */
module Common {

  datatype Option<T> = None | Some(value: T)

  /** The outcome of an operation that stops the program when one of its
      assertions fails (the assertion handler logs and aborts). */
  datatype Result<T> = Ok(value: T) | Fatal(reason: string)
  {
    predicate IsOk() { Ok? }
  }

  /** How a routine that may hit an assertion ends: it returns normally, or
      the assertion handler stops the program with the given message. */
  datatype Status = Completed | Aborted(reason: string)

  /** The elements of `s` in the opposite order. */
  function Reverse<T>(s: seq<T>): (r: seq<T>)
    ensures |r| == |s|
    ensures forall i :: 0 <= i < |s| ==> r[i] == s[|s| - 1 - i]
  {
    if s == [] then [] else Reverse(s[1..]) + [s[0]]
  }

  /** ASCII lower-casing, the folding the hash and the case-insensitive
      comparisons apply. */
  function Lower(c: char): char
  {
    if 'A' <= c <= 'Z' then (c as int + 32) as char else c
  }

  function Fold(s: string): (r: string)
    ensures |r| == |s|
    ensures forall i :: 0 <= i < |s| ==> r[i] == Lower(s[i])
  {
    seq(|s|, i requires 0 <= i < |s| => Lower(s[i]))
  }

  /** A name hash. The hash function itself is a foreign call; what the engine
      relies on is kept: the hash depends only on the name folded to lower
      case, and distinct folded names never collide. */
  datatype Hash = Hash(folded: string)

  function NameHash(name: string): (h: Hash)
    ensures h.folded == Fold(name)
  {
    Hash(Fold(name))
  }

  lemma NameHashIgnoresCase(a: string, b: string)
    ensures NameHash(a) == NameHash(b) <==> Fold(a) == Fold(b)
  {
  }

  /** The first `n` characters of `s` (all of `s` when it is shorter). */
  function Prefix(s: string, n: nat): (r: string)
    ensures |r| == if |s| <= n then |s| else n
    ensures r <= s
  {
    if |s| <= n then s else s[..n]
  }

  /** `strncmp(a, b, n) == 0` for strings without an embedded terminator:
      the comparison stops after `n` characters or at the end of either
      string, and a string that ends early differs from one that goes on. */
  predicate EqualWithin(a: string, b: string, n: nat)
  {
    Prefix(a, n) == Prefix(b, n)
  }

  /** `_wcsnicmp(a, b, n) == 0`: the same bounded comparison after folding. */
  predicate EqualIgnoringCaseWithin(a: string, b: string, n: nat)
  {
    Fold(Prefix(a, n)) == Fold(Prefix(b, n))
  }

  lemma EqualWithinIgnoresTail(a: string, b: string, n: nat)
    requires |b| <= n
    ensures EqualWithin(a, b, n) <==> (|a| >= |b| && a[..|b|] == b && (|a| == |b| || |b| == n))
  {
  }
}
