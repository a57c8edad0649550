/** Shared vocabulary: optional values, bytes, and target memory as a map from mapped addresses to bytes. */
module Common {

  datatype Option<+T> = None | Some(value: T)

  datatype Result<+T> = Ok(value: T) | Fail

  type Byte = n: int | 0 <= n < 256

  // The mapped bytes of the target process.
  type Memory = map<int, Byte>

  const TWO_TO_THE_64 := 0x1_0000_0000_0000_0000
  const TWO_TO_THE_63 := 0x8000_0000_0000_0000

  function Min(a: int, b: int): int { if a < b then a else b }

  function Max(a: int, b: int): int { if a < b then b else a }

  lemma NoMember(s: set<int>)
    ensures (forall x: int :: x !in s) ==> s == {}
  {
    if forall x: int :: x !in s {
      assert s == {};
    }
  }

  /** Every address of [a, a + n) is mapped. */
  predicate Mapped(mem: Memory, a: int, n: nat)
  {
    forall i :: a <= i < a + n ==> i in mem
  }

  /** The bytes at [a, a + n). */
  function Slice(mem: Memory, a: int, n: nat): (bytes: seq<Byte>)
    requires Mapped(mem, a, n)
    ensures |bytes| == n
  {
    seq(n, i requires 0 <= i < n => mem[a + i])
  }

  /** What one read of [a, a + n) returns: it stops at the first unmapped byte. */
  function ReadBytes(mem: Memory, a: int, n: nat): (bytes: seq<Byte>)
    ensures |bytes| <= n
    decreases n
  {
    if n == 0 || a !in mem then [] else [mem[a]] + ReadBytes(mem, a + 1, n - 1)
  }

  lemma {:induction false} ReadBytesAt(mem: Memory, a: int, n: nat)
    ensures var k := |ReadBytes(mem, a, n)|;
            && Mapped(mem, a, k) && ReadBytes(mem, a, n) == Slice(mem, a, k)
            && (k < n ==> a + k !in mem)
    decreases n
  {
    if n > 0 && a in mem { ReadBytesAt(mem, a + 1, n - 1); }
  }

  lemma Associate<T>(a: seq<T>, b: seq<T>, c: seq<T>)
    ensures (a + b) + c == a + (b + c)
  {
  }

  lemma SuffixStep<T>(s: seq<T>, i: nat)
    requires i < |s|
    ensures s[i..][0] == s[i] && s[i..][1..] == s[i + 1..]
  {
  }

  /** An unsigned number from its bytes, lowest first. */
  function LittleEndian(bytes: seq<Byte>): nat
  {
    if bytes == [] then 0 else bytes[0] + 256 * LittleEndian(bytes[1..])
  }
}
