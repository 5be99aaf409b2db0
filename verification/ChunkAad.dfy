/** LEB128 varints and the associated data of one blob chunk. */
module ChunkAad {
  import opened Foundations
  import opened Bytes

  const KCHAT_BLOB_CHUNK_AAD_MAGIC := "KCHAT_BLOB_CHUNK_V1"

  datatype BlobClass = Media | ArchiveSegment | SearchIndexShard | BackupSegment | Manifest {
    function AsU32(): (n: u32)
      ensures 1 <= n <= 5
    {
      match this
      case Media => 1
      case ArchiveSegment => 2
      case SearchIndexShard => 3
      case BackupSegment => 4
      case Manifest => 5
    }
  }

  function Varint(value: nat): seq<byte> {
    if value < 128 then [value] else [value % 128 + 128] + Varint(value / 128)
  }

  /** Appends to `before`, one group of seven bits at a time, lowest first. */
  method WriteVarint(value: u64, before: seq<byte>) returns (out: seq<byte>)
    ensures out == before + Varint(value)
  {
    out := before;
    var rest: nat := value;
    while true
      invariant out + Varint(rest) == before + Varint(value)
      decreases rest
    {
      var low := rest % 128;
      var next := rest / 128;
      if next != 0 {
        VarintMoves(out, rest);
        out := out + [low + 128];
        rest := next;
      } else {
        out := out + [low];
        return;
      }
    }
  }

  lemma {:induction false} VarintMoves(out: seq<byte>, rest: nat)
    requires rest >= 128
    ensures out + [rest % 128 + 128] + Varint(rest / 128) == out + Varint(rest)
  {
  }

  /** The value at the head of a byte string and what follows it. */
  function ReadVarint(s: seq<byte>): Option<(nat, seq<byte>)> {
    if s == [] then None
    else if s[0] < 128 then Some((s[0], s[1..]))
    else match ReadVarint(s[1..])
      case None => None
      case Some((high, rest)) => Some((high * 128 + (s[0] - 128), rest))
  }

  function Pow128(n: nat): nat {
    if n == 0 then 1 else 128 * Pow128(n - 1)
  }

  /** Reading back inverts writing, whatever follows; so no varint is a prefix of another. */
  lemma {:induction false} VarintReadsBack(value: nat, rest: seq<byte>)
    ensures ReadVarint(Varint(value) + rest) == Some((value, rest))
  {
    var s := Varint(value) + rest;
    if value < 128 {
      assert s[1..] == rest;
    } else {
      assert s[1..] == Varint(value / 128) + rest;
      VarintReadsBack(value / 128, rest);
    }
  }

  lemma {:induction false} VarintsArePrefixFree(v: nat, a: seq<byte>, w: nat, b: seq<byte>)
    requires Varint(v) + a == Varint(w) + b
    ensures v == w && a == b
  {
    VarintReadsBack(v, a);
    VarintReadsBack(w, b);
  }

  /** A varint is as short as it can be: `n` groups of seven bits suffice exactly from `n` bytes on. */
  lemma {:induction false} VarintLength(value: nat, n: nat)
    requires 0 < n
    ensures |Varint(value)| <= n <==> value < Pow128(n)
    decreases n
  {
    if value < 128 {
      Pow128Grows(n);
    } else if n > 1 {
      VarintLength(value / 128, n - 1);
    } else {
      assert Pow128(1) == 128 * Pow128(0);
    }
  }

  lemma {:induction false} Pow128Grows(n: nat)
    requires 0 < n
    ensures Pow128(n) >= 128
  {
    if n > 1 {
      Pow128Grows(n - 1);
    } else {
      assert Pow128(1) == 128 * Pow128(0);
    }
  }

  /** At most ten bytes for any 64-bit value. */
  lemma {:induction false} VarintFits(value: u64)
    ensures |Varint(value)| <= 10
  {
    assert Pow128(1) == 128 * Pow128(0);
    assert Pow128(2) == 128 * Pow128(1);
    assert Pow128(4) == 128 * Pow128(3) && Pow128(3) == 128 * Pow128(2);
    assert Pow128(6) == 128 * Pow128(5) && Pow128(5) == 128 * Pow128(4);
    assert Pow128(8) == 128 * Pow128(7) && Pow128(7) == 128 * Pow128(6);
    assert Pow128(10) == 128 * Pow128(9) && Pow128(9) == 128 * Pow128(8);
    VarintLength(value, 10);
  }

  // ------------------------------------------------------------------ the associated data

  function Aad(blob: Uuid, class_: BlobClass, chunkNo: u32, chunkCount: u32, root: Hash): seq<byte> {
    Ascii(KCHAT_BLOB_CHUNK_AAD_MAGIC) + BigEndian(16, blob)
      + (Varint(class_.AsU32()) + (BigEndian(4, chunkNo) + BigEndian(4, chunkCount) + root))
  }

  method BuildKChatChunkAad(blob: Uuid, class_: BlobClass, chunkNo: u32, chunkCount: u32, root: Hash) returns (aad: seq<byte>)
    ensures aad == Aad(blob, class_, chunkNo, chunkCount, root)
  {
    aad := Ascii(KCHAT_BLOB_CHUNK_AAD_MAGIC);
    aad := aad + BigEndian(16, blob);
    ghost var head := aad;
    aad := WriteVarint(class_.AsU32(), aad);
    aad := aad + BigEndian(4, chunkNo);
    aad := aad + BigEndian(4, chunkCount);
    aad := aad + root;
    RegroupFive(head, Varint(class_.AsU32()), BigEndian(4, chunkNo), BigEndian(4, chunkCount), root);
  }

  lemma {:induction false} RegroupFive(a: seq<byte>, b: seq<byte>, c: seq<byte>, d: seq<byte>, e: seq<byte>)
    ensures a + b + c + d + e == a + (b + (c + d + e))
  {
  }

  /** Where the parts lie: magic, blob id, one byte for the class, chunk number, chunk count, root. */
  lemma {:induction false} AadLayout(blob: Uuid, class_: BlobClass, chunkNo: u32, chunkCount: u32, root: Hash)
    ensures var a := Aad(blob, class_, chunkNo, chunkCount, root);
      && |a| == 76 && a[..19] == Ascii("KCHAT_BLOB_CHUNK_V1") && a[19..35] == BigEndian(16, blob)
      && a[35] == class_.AsU32() && FromBigEndian(a[36..40]) == chunkNo && FromBigEndian(a[40..44]) == chunkCount && a[44..] == root
  {
    var head, v := Ascii(KCHAT_BLOB_CHUNK_AAD_MAGIC), Varint(class_.AsU32());
    var t := BigEndian(4, chunkNo) + BigEndian(4, chunkCount) + root;
    Cut(head, BigEndian(16, blob), v + t);
    Cut(BigEndian(4, chunkNo), BigEndian(4, chunkCount), root);
    var a := Aad(blob, class_, chunkNo, chunkCount, root);
    assert a[35..] == [class_.AsU32()] + t;
    assert a[36..] == t;
    assert a[36..40] == t[..4] && a[40..44] == t[4..8] && a[44..] == t[8..];
    Widths();
    BigEndianRoundTrip(4, chunkNo);
    BigEndianRoundTrip(4, chunkCount);
  }

  /** The associated data determines all five arguments. */
  lemma {:induction false} AadInjective(b1: Uuid, c1: BlobClass, i1: u32, n1: u32, r1: Hash,
                                        b2: Uuid, c2: BlobClass, i2: u32, n2: u32, r2: Hash)
    requires Aad(b1, c1, i1, n1, r1) == Aad(b2, c2, i2, n2, r2)
    ensures b1 == b2 && c1 == c2 && i1 == i2 && n1 == n2 && r1 == r2
  {
    var m := Ascii(KCHAT_BLOB_CHUNK_AAD_MAGIC);
    var t1, t2 := BigEndian(4, i1) + BigEndian(4, n1) + r1, BigEndian(4, i2) + BigEndian(4, n2) + r2;
    var v1, v2 := Varint(c1.AsU32()), Varint(c2.AsU32());
    Cut(m, BigEndian(16, b1), v1 + t1);
    Cut(m, BigEndian(16, b2), v2 + t2);
    VarintsArePrefixFree(c1.AsU32(), t1, c2.AsU32(), t2);
    Cut(BigEndian(4, i1), BigEndian(4, n1), r1);
    Cut(BigEndian(4, i2), BigEndian(4, n2), r2);
    Widths();
    BigEndianInjective(16, b1, b2);
    BigEndianInjective(4, i1, i2);
    BigEndianInjective(4, n1, n2);
  }

  lemma {:induction false} Cut(a: seq<byte>, b: seq<byte>, c: seq<byte>)
    ensures var s := a + b + c;
      s[..|a|] == a && s[|a|..|a| + |b|] == b && s[|a| + |b|..] == c
  {
  }
}
