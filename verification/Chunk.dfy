/** Byte strings and the small helpers over them that the rest of the library is written with. */
module Chunk {
  type byte = x: int | 0 <= x < 0x100
  type uint16 = x: int | 0 <= x < 0x1_0000
  type uint32 = x: int | 0 <= x < 0x1_0000_0000

  datatype Option<+T> = None | Some(value: T)

  function Min(a: int, b: int): int { if a < b then a else b }

  function Max(a: int, b: int): int { if a > b then a else b }

  /** chunk_skip: skipping the whole chunk, or more, leaves the empty chunk. */
  function Skip(s: seq<byte>, n: nat): seq<byte> {
    if |s| > n then s[n..] else []
  }

  /** pad_len: what is missing to reach the next multiple of the alignment. */
  function PadLen(size: nat, alignment: nat): nat
    requires alignment > 0
  {
    if size % alignment == 0 then 0 else alignment - size % alignment
  }

  /** Two bytes in network order; a longer length is cut to 16 bits. */
  function Put16(n: nat): seq<byte> { [n / 0x100 % 0x100, n % 0x100] }

  function Get16(s: seq<byte>, i: nat): uint16
    requires i + 2 <= |s|
  {
    s[i] as int * 0x100 + s[i + 1] as int
  }

  /** Four bytes in network order. */
  function Put32(n: uint32): seq<byte> {
    [n / 0x100_0000, n / 0x1_0000 % 0x100, n / 0x100 % 0x100, n % 0x100]
  }

  function Get32(s: seq<byte>, i: nat): uint32
    requires i + 4 <= |s|
  {
    s[i] as int * 0x100_0000 + s[i + 1] as int * 0x1_0000 + s[i + 2] as int * 0x100 + s[i + 3] as int
  }

  function Zeros(n: nat): seq<byte> { seq(n, _ => 0) }

  /** Network order in figures: the most significant byte comes first. */
  lemma NetworkOrder(n: uint16, m: uint32)
    ensures Put16(n)[0] as int * 0x100 + Put16(n)[1] as int == n && |Put16(n)| == 2
    ensures var b := Put32(m);
      |b| == 4 && b[0] as int * 0x100_0000 + b[1] as int * 0x1_0000 + b[2] as int * 0x100 + b[3] as int == m
  {
    DivModUnique(n, 0x100, n / 0x100, n % 0x100);
    Get32Put32(m);
  }

  lemma DivModUnique(n: nat, m: nat, q: nat, r: nat)
    requires m > 0 && n == m * q + r && r < m
    ensures n % m == r && n / m == q
  {
    var d := q - n / m;
    assert m * d == n % m - r;
  }

  lemma SumMod4(x: nat, y: nat)
    ensures (x + y) % 4 == (x % 4 + y % 4) % 4
  {
    var r := x % 4 + y % 4;
    if r < 4 {
      DivModUnique(x + y, 4, x / 4 + y / 4, r);
    } else {
      DivModUnique(x + y, 4, x / 4 + y / 4 + 1, r - 4);
    }
  }

  /** Padding reaches the alignment, and is less than one alignment unit. */
  lemma PadReaches(n: nat, m: nat)
    requires m > 0
    ensures (n + PadLen(n, m)) % m == 0 && PadLen(n, m) < m
  {
    if n % m != 0 {
      DivModUnique(n + PadLen(n, m), m, n / m + 1, 0);
    }
  }

  lemma Get32Put32(n: uint32)
    ensures Get32(Put32(n), 0) == n
  {
    assert n / 0x100 / 0x100 == n / 0x1_0000 && n / 0x1_0000 / 0x100 == n / 0x100_0000;
  }

  lemma Get32Concat(s: seq<byte>, t: seq<byte>, i: nat)
    ensures i + 4 <= |s| ==> Get32(s + t, i) == Get32(s, i)
    ensures i + 4 <= |t| ==> Get32(s + t, |s| + i) == Get32(t, i)
  {
  }
}
