/** Shared value types: optional values, results and the time constants. */
module Common {

  datatype Option<+T> = None | Some(value: T)

  datatype Result<+T, +E> = Ok(value: T) | Err(error: E)

  /** Byte strings: digests, secrets, wire payloads. */
  type Byte = b: int | 0 <= b < 256
  type Bytes = seq<Byte>

  /** Instants and durations are nanosecond counts, as Go's time package keeps them. */
  const SECOND := 1_000_000_000
  const MINUTE := 60 * SECOND
  const DAY := 24 * 60 * MINUTE

  const MAX_INT64 := 0x7fff_ffff_ffff_ffff

  function Pow2(n: nat): nat {
    if n == 0 then 1 else 2 * Pow2(n - 1)
  }

  /** Bytes of the UTF-8 encoding, the unit length bounds count. */
  function Utf8Length(s: string): nat {
    if s == "" then 0 else Utf8Length(s[..|s| - 1]) + RuneLength(s[|s| - 1])
  }

  function RuneLength(c: char): nat {
    if c < '\U{0080}' then 1 else if c < '\U{0800}' then 2 else if c as int < 0x10000 then 3 else 4
  }

  /** Between one and four bytes a rune, and one exactly for ASCII. */
  lemma {:induction false} Utf8Bounds(s: string)
    ensures |s| <= Utf8Length(s) <= 4 * |s|
    ensures Utf8Length(s) == |s| <==> forall i :: 0 <= i < |s| ==> s[i] as int < 128
    decreases |s|
  {
    if s != "" {
      var n := |s| - 1;
      Utf8Bounds(s[..n]);
      assert forall i :: 0 <= i < n ==> s[..n][i] == s[i];
    }
  }

  /** Sequences without repeated elements. */
  ghost predicate Distinct<T>(s: seq<T>) {
    forall i, j :: 0 <= i < j < |s| ==> s[i] != s[j]
  }

  lemma {:induction false} DistinctAppend<T>(s: seq<T>, x: T)
    requires Distinct(s) && x !in s
    ensures Distinct(s + [x])
  {
  }

  /** Equality of a function's values forces equality of its arguments. */
  ghost predicate Injective<A(!new), B>(f: A -> B) {
    forall x, y :: f(x) == f(y) ==> x == y
  }
}
