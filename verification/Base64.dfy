/** URL-safe base64 without padding: section 5 of RFC 4648. */
module Base64 {
  import opened Foundations
  import opened Sequences

  type Sextet = x: int | 0 <= x < 64

  /** `A`-`Z`, `a`-`z`, `0`-`9`, `-`, `_`. */
  function Letter(v: Sextet): char {
    if v < 26 then 'A' + v as char
    else if v < 52 then 'a' + (v - 26) as char
    else if v < 62 then '0' + (v - 52) as char
    else if v == 62 then '-'
    else '_'
  }

  function ValueOf(c: char): (r: Option<Sextet>)
    ensures r.Some? ==> Letter(r.value) == c
  {
    if 'A' <= c <= 'Z' then Some((c - 'A') as int)
    else if 'a' <= c <= 'z' then Some((c - 'a') as int + 26)
    else if '0' <= c <= '9' then Some((c - '0') as int + 52)
    else if c == '-' then Some(62)
    else if c == '_' then Some(63)
    else None
  }

  function Join3(b0: nat, b1: nat, b2: nat): nat {
    b0 * 65536 + b1 * 256 + b2
  }

  function Join4(v0: nat, v1: nat, v2: nat, v3: nat): nat {
    v0 * 262144 + v1 * 4096 + v2 * 64 + v3
  }

  /** The bytes of a chunk as one 24-bit number, missing ones as zero. */
  function Triple(chunk: seq<byte>): nat
    requires 1 <= |chunk| <= 3
  {
    Join3(chunk[0], if |chunk| > 1 then chunk[1] else 0, if |chunk| > 2 then chunk[2] else 0)
  }

  /** The letters of one to three bytes. */
  function EncodeChunk(chunk: seq<byte>): (s: string)
    requires 1 <= |chunk| <= 3
    ensures |s| == |chunk| + 1
  {
    var t := Triple(chunk);
    [Letter(t / 262144 % 64), Letter(t / 4096 % 64), Letter(t / 64 % 64), Letter(t % 64)][..|chunk| + 1]
  }

  function Encode(bytes: seq<byte>): string {
    if bytes == [] then ""
    else if |bytes| <= 3 then EncodeChunk(bytes)
    else EncodeChunk(bytes[..3]) + Encode(bytes[3..])
  }

  /** One turn of the loop: the letters of one chunk are pushed one by one. */
  method PushChunk(chunk: seq<byte>, before: string) returns (out: string)
    requires 1 <= |chunk| <= 3
    ensures out == before + EncodeChunk(chunk)
  {
    var b0 := chunk[0];
    var b1 := if |chunk| > 1 then chunk[1] else 0;
    var b2 := if |chunk| > 2 then chunk[2] else 0;
    var triple := Join3(b0, b1, b2);
    out := before + [Letter(triple / 262144 % 64)];
    out := out + [Letter(triple / 4096 % 64)];
    if |chunk| >= 2 { out := out + [Letter(triple / 64 % 64)]; }
    if |chunk| >= 3 { out := out + [Letter(triple % 64)]; }
  }

  method Base64UrlsafeEncode(bytes: seq<byte>) returns (out: string)
    ensures out == Encode(bytes)
  {
    out := "";
    var rest := bytes;
    while rest != []
      invariant out + Encode(rest) == Encode(bytes)
      decreases |rest|
    {
      var n := if |rest| < 3 then |rest| else 3;
      EncodeMoves(out, rest);
      out := PushChunk(rest[..n], out);
      rest := rest[n..];
    }
    assert out + "" == out;
  }

  /** Moving the first chunk from what is left to what is written changes nothing. */
  lemma {:induction false} EncodeMoves(out: string, rest: seq<byte>)
    requires rest != []
    ensures var n := if |rest| < 3 then |rest| else 3;
      out + EncodeChunk(rest[..n]) + Encode(rest[n..]) == out + Encode(rest)
  {
    EncodeHead(rest);
    var n := if |rest| < 3 then |rest| else 3;
    Regroup(out, EncodeChunk(rest[..n]), Encode(rest[n..]));
  }

  lemma {:induction false} EncodeHead(bytes: seq<byte>)
    requires bytes != []
    ensures var n := if |bytes| < 3 then |bytes| else 3;
      Encode(bytes) == EncodeChunk(bytes[..n]) + Encode(bytes[n..])
  {
    if |bytes| <= 3 {
      assert bytes[..|bytes|] == bytes;
    }
  }

  // ------------------------------------------------------------------ the decoder

  function ValueAt(s: string, i: nat): Option<Sextet> {
    if i < |s| then ValueOf(s[i]) else Some(0)
  }

  /** Two to four letters back to one to three bytes; unused low bits have to be zero. */
  function DecodeChunk(s: string): Option<seq<byte>>
    requires 2 <= |s| <= 4
  {
    var v0, v1, v2, v3 := ValueAt(s, 0), ValueAt(s, 1), ValueAt(s, 2), ValueAt(s, 3);
    if v0.None? || v1.None? || v2.None? || v3.None? then None
    else
      var t := Join4(v0.value, v1.value, v2.value, v3.value);
      SplitBytes(t);
      if (|s| == 2 && t % 65536 != 0) || (|s| == 3 && t % 256 != 0) then None
      else Some([t / 65536, t / 256 % 256, t % 256][..|s| - 1])
  }

  lemma {:induction false} SplitBytes(t: nat)
    ensures t == Join3(t / 65536, t / 256 % 256, t % 256)
    ensures t < 16_777_216 ==> t / 65536 < 256
    ensures t % 65536 == t / 256 % 256 * 256 + t % 256
  {
    assert t / 256 == t / 65536 * 256 + t / 256 % 256;
  }

  function Decode(s: string): Option<seq<byte>> {
    if s == "" then Some([])
    else if |s| == 1 then None
    else if |s| <= 4 then DecodeChunk(s)
    else
      var head, rest := DecodeChunk(s[..4]), Decode(s[4..]);
      if head.None? || rest.None? then None else Some(head.value + rest.value)
  }

  lemma {:induction false} LetterValue(v: Sextet)
    ensures ValueOf(Letter(v)) == Some(v)
  {
  }

  lemma {:induction false} SplitSextets(t: nat)
    requires t < 16_777_216
    ensures t == Join4(t / 262144 % 64, t / 4096 % 64, t / 64 % 64, t % 64)
  {
    assert t / 4096 == t / 262144 * 64 + t / 4096 % 64;
    assert t / 64 == t / 4096 * 64 + t / 64 % 64;
  }

  lemma {:induction false} JoinedBytes(b0: byte, b1: byte, b2: byte)
    ensures var t := Join3(b0, b1, b2);
      t < 16_777_216 && t / 65536 == b0 && t / 256 % 256 == b1 && t % 256 == b2
  {
    var t := Join3(b0, b1, b2);
    assert t / 256 == b0 * 256 + b1;
  }

  lemma {:induction false} JoinedSextets(v0: Sextet, v1: Sextet, v2: Sextet, v3: Sextet)
    ensures var t := Join4(v0, v1, v2, v3);
      t < 16_777_216 && t / 262144 % 64 == v0 && t / 4096 % 64 == v1 && t / 64 % 64 == v2 && t % 64 == v3
  {
    var t := Join4(v0, v1, v2, v3);
    assert t / 64 == v0 * 4096 + v1 * 64 + v2;
    assert t / 4096 == v0 * 64 + v1;
  }

  /** A missing byte leaves zeros in the letters that are not written. */
  lemma {:induction false} UnwrittenAreZero(chunk: seq<byte>)
    requires 1 <= |chunk| <= 3
    ensures var t := Triple(chunk); (|chunk| < 3 ==> t % 64 == 0) && (|chunk| < 2 ==> t / 64 % 64 == 0)
  {
    var t, b0, b1 := Triple(chunk), chunk[0] as int, (if |chunk| > 1 then chunk[1] else 0) as int;
    if |chunk| < 3 {
      Multiple(t, 1024 * b0 + 4 * b1);
      if |chunk| < 2 {
        Multiple(t / 64, 16 * b0);
      }
    }
  }

  lemma {:induction false} Multiple(t: nat, k: nat)
    requires t == 64 * k
    ensures t / 64 == k && t % 64 == 0
  {
  }

  lemma {:induction false} ChunkRoundTrip(chunk: seq<byte>)
    requires 1 <= |chunk| <= 3
    ensures DecodeChunk(EncodeChunk(chunk)) == Some(chunk)
  {
    var t, e := Triple(chunk), EncodeChunk(chunk);
    JoinedBytes(chunk[0], if |chunk| > 1 then chunk[1] else 0, if |chunk| > 2 then chunk[2] else 0);
    LettersRead(chunk);
    SplitSextets(t);
    SplitBytes(t);
    assert [t / 65536, t / 256 % 256, t % 256][..|chunk|] == chunk;
  }

  lemma {:induction false} LettersRead(chunk: seq<byte>)
    requires 1 <= |chunk| <= 3
    ensures var t, e := Triple(chunk), EncodeChunk(chunk);
      && ValueAt(e, 0) == Some(t / 262144 % 64) && ValueAt(e, 1) == Some(t / 4096 % 64)
      && ValueAt(e, 2) == Some(t / 64 % 64) && ValueAt(e, 3) == Some(t % 64)
  {
    var t := Triple(chunk);
    UnwrittenAreZero(chunk);
    LetterValue(t / 262144 % 64);
    LetterValue(t / 4096 % 64);
    LetterValue(t / 64 % 64);
    LetterValue(t % 64);
  }

  lemma {:induction false} ChunkIsExact(s: string, chunk: seq<byte>)
    requires 2 <= |s| <= 4 && DecodeChunk(s) == Some(chunk)
    ensures |chunk| == |s| - 1 && EncodeChunk(chunk) == s
  {
    var v0, v1, v2, v3 := ValueAt(s, 0).value, ValueAt(s, 1).value, ValueAt(s, 2).value, ValueAt(s, 3).value;
    var t := Join4(v0, v1, v2, v3);
    JoinedSextets(v0, v1, v2, v3);
    SplitBytes(t);
    assert Triple(chunk) == t;
  }

  lemma {:induction false} RoundTrip(bytes: seq<byte>)
    ensures Decode(Encode(bytes)) == Some(bytes)
    decreases |bytes|
  {
    if |bytes| > 3 {
      ChunkRoundTrip(bytes[..3]);
      RoundTrip(bytes[3..]);
      var e := Encode(bytes);
      assert e[..4] == EncodeChunk(bytes[..3]) && e[4..] == Encode(bytes[3..]);
      EncodedIsLong(bytes[3..]);
      assert bytes == bytes[..3] + bytes[3..];
    } else if bytes != [] {
      ChunkRoundTrip(bytes);
    }
  }

  lemma {:induction false} EncodedIsLong(bytes: seq<byte>)
    requires bytes != []
    ensures |Encode(bytes)| >= 2
  {
  }

  /** The decoder inverts the encoder and accepts nothing else; hence no two byte strings share an
      encoding. */
  lemma {:induction false} DecodesExactlyWhen(s: string, bytes: seq<byte>)
    ensures Decode(s) == Some(bytes) <==> s == Encode(bytes)
    decreases |s|
  {
    RoundTrip(bytes);
    if s == "" {
    } else if Decode(s) == Some(bytes) {
      if |s| <= 4 {
        ChunkIsExact(s, bytes);
      } else {
        var head, rest := DecodeChunk(s[..4]).value, Decode(s[4..]).value;
        ChunkIsExact(s[..4], head);
        DecodesExactlyWhen(s[4..], rest);
        assert bytes[..3] == head && bytes[3..] == rest;
        assert s == s[..4] + s[4..];
        assert Encode([]) == "";
      }
    }
  }

  predicate IsUrlSafe(c: char) {
    'A' <= c <= 'Z' || 'a' <= c <= 'z' || '0' <= c <= '9' || c == '-' || c == '_'
  }

  lemma {:induction false} ChunkIsUrlSafe(chunk: seq<byte>)
    requires 1 <= |chunk| <= 3
    ensures forall c | c in EncodeChunk(chunk) :: IsUrlSafe(c)
  {
    assert forall v: Sextet :: IsUrlSafe(Letter(v));
  }

  /** No padding and nothing a URL would have to escape. */
  lemma {:induction false} EncodedIsUrlSafe(bytes: seq<byte>)
    ensures forall c | c in Encode(bytes) :: IsUrlSafe(c)
    decreases |bytes|
  {
    if bytes == [] {
    } else if |bytes| <= 3 {
      ChunkIsUrlSafe(bytes);
    } else {
      ChunkIsUrlSafe(bytes[..3]);
      EncodedIsUrlSafe(bytes[3..]);
    }
  }

  /** Four letters for every three bytes, and two or three for what is left. */
  lemma {:induction false} EncodedLength(bytes: seq<byte>)
    ensures |Encode(bytes)| == 4 * (|bytes| / 3) + if |bytes| % 3 == 0 then 0 else |bytes| % 3 + 1
    decreases |bytes|
  {
    if |bytes| <= 3 {
    } else {
      EncodedLength(bytes[3..]);
    }
  }
}
