/** Big-endian numbers, two's complement, and copying into a buffer. */
module ByteOrder {
  import opened Machine

  /** Big-endian value of a byte string. */
  function BigEndian(bytes: seq<u8>): (v: nat) {
    if bytes == [] then 0 else
      var last: nat := bytes[|bytes| - 1];
      256 * BigEndian(bytes[..|bytes| - 1]) + last
  }

  /** The low `n` bytes of `v`, most significant first. */
  function Bytes(v: nat, n: nat): (bytes: seq<u8>)
    ensures |bytes| == n
    decreases n, v
  {
    if n == 0 then [] else Bytes(v / 256, n - 1) + [v % 256]
  }

  function Pow256(n: nat): (p: nat)
    ensures p > 0
  {
    if n == 0 then 1 else 256 * Pow256(n - 1)
  }

  lemma {:induction false} BigEndianBytes(v: nat, n: nat)
    requires v < Pow256(n)
    ensures BigEndian(Bytes(v, n)) == v
  {
    if n > 0 {
      assert Bytes(v, n)[..n - 1] == Bytes(v / 256, n - 1);
      BigEndianBytes(v / 256, n - 1);
    }
  }

  lemma {:induction false} BytesBigEndian(bytes: seq<u8>)
    ensures Bytes(BigEndian(bytes), |bytes|) == bytes && BigEndian(bytes) < Pow256(|bytes|)
  {
    if bytes != [] {
      var init := bytes[..|bytes| - 1];
      BytesBigEndian(init);
      assert bytes == init + [bytes[|bytes| - 1]];
    }
  }

  lemma Widths()
    ensures Pow256(2) == 0x1_0000 && Pow256(4) == 0x1_0000_0000 && Pow256(8) == 0x1_0000_0000_0000_0000
  {
    assert Pow256(1) == 256;
    assert Pow256(2) == 0x1_0000;
    assert Pow256(3) == 0x100_0000;
    assert Pow256(4) == 0x1_0000_0000;
    assert Pow256(5) == 0x100_0000_0000;
    assert Pow256(6) == 0x1_0000_0000_0000;
    assert Pow256(7) == 0x100_0000_0000_0000;
  }

  function U16(bytes: seq<u8>): (v: u16)
    requires |bytes| == 2
  {
    BytesBigEndian(bytes);
    Widths();
    BigEndian(bytes)
  }

  function U32(bytes: seq<u8>): (v: u32)
    requires |bytes| == 4
  {
    BytesBigEndian(bytes);
    Widths();
    BigEndian(bytes)
  }

  function U64(bytes: seq<u8>): (v: u64)
    requires |bytes| == 8
  {
    BytesBigEndian(bytes);
    Widths();
    BigEndian(bytes)
  }

  /** A field written and read back, either way round. */
  lemma FieldRoundTrip(v: nat, n: nat)
    requires n == 2 || n == 4 || n == 8
    ensures n == 2 && v < 0x1_0000 ==> U16(Bytes(v, n)) == v
    ensures n == 4 && v < 0x1_0000_0000 ==> U32(Bytes(v, n)) == v
    ensures n == 8 && v < 0x1_0000_0000_0000_0000 ==> U64(Bytes(v, n)) == v
  {
    Widths();
    if v < Pow256(n) { BigEndianBytes(v, n); }
  }

  /** Go's conversions between int64 and uint64. */
  function ToUnsigned(n: i64): u64 {
    if n < 0 then n + 0x1_0000_0000_0000_0000 else n
  }

  function ToSigned(v: u64): i64 {
    if v >= 0x8000_0000_0000_0000 then v - 0x1_0000_0000_0000_0000 else v
  }

  /** The first `n` bytes of `src`, zeros behind if there are fewer. */
  function Fill(src: seq<u8>, n: nat): (r: seq<u8>)
    ensures |r| == n
    ensures |src| == n ==> r == src
  {
    if |src| >= n then src[..n] else src + seq(n - |src|, _ => 0)
  }

  function Zeros(n: nat): (r: seq<u8>)
    ensures |r| == n
  {
    seq(n, _ => 0)
  }

  /** A buffer after Go's copy of `src` into its bytes `off..limit`. */
  function Pasted(buf: seq<u8>, off: nat, limit: nat, src: seq<u8>): (r: seq<u8>)
    requires off <= limit <= |buf|
    ensures |r| == |buf|
  {
    var n := if |src| < limit - off then |src| else limit - off;
    buf[..off] + src[..n] + buf[off + n..]
  }

  method Copy(data: array<u8>, off: nat, limit: nat, src: seq<u8>)
    requires off <= limit <= data.Length
    modifies data
    ensures data[..] == Pasted(old(data[..]), off, limit, src)
  {
    var n := if |src| < limit - off then |src| else limit - off;
    ghost var was := data[..];
    for i := 0 to n
      invariant data[..] == was[..off] + src[..i] + was[off + i..]
    {
      data[off + i] := src[i];
    }
  }

  /** Pasting the next field behind what is written so far. */
  lemma PasteNext(done: seq<u8>, total: nat, width: nat, field: seq<u8>)
    requires |done| + width <= total
    ensures Pasted(done + Zeros(total - |done|), |done|, |done| + width, field)
         == done + Fill(field, width) + Zeros(total - |done| - width)
  {
  }

  lemma Cut(data: seq<u8>, i: nat, j: nat)
    requires i <= j <= |data|
    ensures data[..i] + data[i..j] == data[..j]
  {
  }

  /** A field of a message, read and written back. */
  lemma FieldBack(bytes: seq<u8>)
    ensures |bytes| == 2 ==> Bytes(U16(bytes), 2) == bytes
    ensures |bytes| == 4 ==> Bytes(U32(bytes), 4) == bytes
    ensures |bytes| == 8 ==> Bytes(ToUnsigned(ToSigned(U64(bytes))), 8) == bytes && Bytes(U64(bytes), 8) == bytes
  {
    BytesBigEndian(bytes);
  }

  /** Writes the next field of a zeroed buffer whose bytes before `off` are `done`. */
  method Write(data: array<u8>, ghost done: seq<u8>, off: nat, width: nat, field: seq<u8>)
    requires off == |done| && off + width <= data.Length
    requires data[..] == done + Zeros(data.Length - off)
    modifies data
    ensures data[..] == done + Fill(field, width) + Zeros(data.Length - off - width)
  {
    PasteNext(done, data.Length, width, field);
    Copy(data, off, off + width, field);
  }
}
