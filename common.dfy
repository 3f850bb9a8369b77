/** Small shared vocabulary: an optional value and the fixed-width unsigned integers of the target. */
module Common {

  /** A value that may be absent; stands for a pointer that may be null. */
  datatype Option<+T> = None | Some(value: T)

  const UINT16_LIMIT: int := 0x1_0000
  const UINT32_LIMIT: int := 0x1_0000_0000

  /** `uint32` of the target: 32-bit unsigned, arithmetic on it wraps explicitly where the source wraps. */
  type uint32 = x: int | 0 <= x < UINT32_LIMIT

  /** `uint16` of the target. */
  type uint16 = x: int | 0 <= x < UINT16_LIMIT

  /** `uint8` / `byte` of the target. */
  type uint8 = x: int | 0 <= x < 0x100

  function Min(a: int, b: int): int
  {
    if a <= b then a else b
  }

  /** Concatenation is associative; stated once so that callers need not prove it element by element. */
  lemma AppendAssoc<T>(a: seq<T>, b: seq<T>, c: seq<T>)
    ensures (a + b) + c == a + (b + c)
  {
  }

  /** A prefix is a shorter prefix followed by the slice between them. */
  lemma PrefixSplit<T>(s: seq<T>, i: nat, j: nat)
    requires i <= j <= |s|
    ensures s[..j] == s[..i] + s[i..j]
  {
  }

  /** A prefix of a concatenation that stays within the first part is a prefix of that part. */
  lemma PrefixOfAppend<T>(a: seq<T>, b: seq<T>, i: nat)
    requires i <= |a|
    ensures (a + b)[..i] == a[..i]
  {
  }

  /** Storing `x` at `i`: the prefix up to `i` grows by `x` and everything after `i` is kept. */
  lemma StoreAt<T>(before: seq<T>, after: seq<T>, i: nat, x: T)
    requires i < |before| && after == before[i := x]
    ensures after[..i + 1] == before[..i] + [x]
    ensures forall k :: i < k < |after| ==> after[k] == before[k]
  {
  }
}
