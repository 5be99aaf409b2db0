/** Pattern C convergent encryption: a plaintext cut into chunks, each sealed and framed as
    `nonce (24) || length (u32, big-endian) || ciphertext and tag`. */
module PatternC {
  import opened Foundations
  import opened Arithmetic
  import opened Bytes

  const DEFAULT_CHUNK_SIZE := 16_777_216
  const NONCE_LEN := 24
  const CHUNK_HEADER_SIZE := 28
  const TAG_LEN := 16
  const CONVERGENT_NONCE_INFO: seq<byte> := [122, 107, 111, 102, 45, 110, 111, 110, 99, 101, 45, 118, 49] // "zkof-nonce-v1"

  /** A byte slice is never longer than the largest signed 64-bit number. */
  type Slice = s: seq<byte> | |s| <= I64_MAX

  /** HKDF expansion and XChaCha20-Poly1305 with empty associated data. */
  datatype Cipher = Cipher(
    expand: (seq<byte>, seq<byte>, nat) -> Option<seq<byte>>,
    seal: (seq<byte>, seq<byte>, seq<byte>) -> Option<seq<byte>>,
    open: (seq<byte>, seq<byte>, seq<byte>) -> Option<seq<byte>>)

  /** Expansion yields the asked length; a seal adds a tag and opens to what was sealed. */
  ghost predicate Lawful(c: Cipher) {
    && (forall secret, info, n | c.expand(secret, info, n).Some? :: |c.expand(secret, info, n).value| == n)
    && (forall k, n, p | c.seal(k, n, p).Some? ::
          |c.seal(k, n, p).value| == |p| + TAG_LEN && c.open(k, n, c.seal(k, n, p).value) == Some(p))
  }

  datatype CryptoError =
    | BadDek
    | NonceDerivation
    | SealFailed
    | LengthExceedsU32
    | ChunkSizeExceedsU32
    | TruncatedHeader
    | LengthOutOfBounds
    | TruncatedBody
    | OpenFailed

  function EffectiveChunkSize(chunkSize: u64): (c: u64)
    ensures 0 < c
  {
    if chunkSize == 0 then DEFAULT_CHUNK_SIZE else chunkSize
  }

  function ConvergentNonce(c: Cipher, dek: seq<byte>, index: u64): Option<seq<byte>> {
    c.expand(dek, CONVERGENT_NONCE_INFO + BigEndian(8, index), NONCE_LEN)
  }

  function Min(a: nat, b: nat): nat { if a <= b then a else b }

  function Prepend(out: seq<byte>, r: Result<seq<byte>, CryptoError>): Result<seq<byte>, CryptoError> {
    match r
    case Ok(more) => Ok(out + more)
    case Err(e) => Err(e)
  }

  // ------------------------------------------------------------------ one frame

  function SealFrame(c: Cipher, dek: seq<byte>, index: u64, chunk: seq<byte>): Result<seq<byte>, CryptoError> {
    match ConvergentNonce(c, dek, index)
    case None => Err(NonceDerivation)
    case Some(nonce) =>
      match c.seal(dek, nonce, chunk)
      case None => Err(SealFailed)
      case Some(sealed) =>
        if |sealed| >= 0x1_0000_0000 then Err(LengthExceedsU32)
        else Ok(nonce + BigEndian(4, |sealed|) + sealed)
  }

  /** The plaintext of the frame at the head of `ct`, with the length of that frame. */
  function OpenFrame(c: Cipher, dek: seq<byte>, maxCt: u32, ct: seq<byte>): (r: Result<(seq<byte>, nat), CryptoError>)
    ensures r.Ok? ==> CHUNK_HEADER_SIZE < r.value.1 <= |ct|
  {
    if |ct| < CHUNK_HEADER_SIZE then Err(TruncatedHeader)
    else
      var len := FromBigEndian(ct[24..28]);
      if len == 0 || len > maxCt then Err(LengthOutOfBounds)
      else if CHUNK_HEADER_SIZE + len > |ct| then Err(TruncatedBody)
      else match c.open(dek, ct[..24], ct[28..28 + len])
        case None => Err(OpenFailed)
        case Some(p) => Ok((p, CHUNK_HEADER_SIZE + len))
  }

  // ------------------------------------------------------------------ streams of frames

  function SealFrom(c: Cipher, dek: seq<byte>, chunk: nat, index: nat, p: seq<byte>): Result<seq<byte>, CryptoError>
    requires 0 < chunk && index + |p| <= I64_MAX
    decreases |p|
  {
    if p == [] then Ok([])
    else
      var n := Min(chunk, |p|);
      match SealFrame(c, dek, index, p[..n])
      case Err(e) => Err(e)
      case Ok(frame) => Prepend(frame, SealFrom(c, dek, chunk, index + 1, p[n..]))
  }

  function OpenFrom(c: Cipher, dek: seq<byte>, maxCt: u32, ct: seq<byte>): Result<seq<byte>, CryptoError>
    decreases |ct|
  {
    if ct == [] then Ok([])
    else match OpenFrame(c, dek, maxCt, ct)
      case Err(e) => Err(e)
      case Ok((p, n)) => Prepend(p, OpenFrom(c, dek, maxCt, ct[n..]))
  }

  function Encrypt(c: Cipher, plaintext: Slice, dek: seq<byte>, chunkSize: u64): Result<seq<byte>, CryptoError> {
    if |dek| != 32 then Err(BadDek) else SealFrom(c, dek, EffectiveChunkSize(chunkSize), 0, plaintext)
  }

  /** The bound on a frame's ciphertext: a wrapping 64-bit sum that has to fit 32 bits. */
  function MaxCiphertext(chunkSize: u64): Option<u32> {
    var m := (EffectiveChunkSize(chunkSize) + TAG_LEN) % 0x1_0000_0000_0000_0000;
    if m < 0x1_0000_0000 then Some(m) else None
  }

  function Decrypt(c: Cipher, ciphertext: Slice, dek: seq<byte>, chunkSize: u64): Result<seq<byte>, CryptoError> {
    if |dek| != 32 then Err(BadDek)
    else match MaxCiphertext(chunkSize)
      case None => Err(ChunkSizeExceedsU32)
      case Some(maxCt) => OpenFrom(c, dek, maxCt, ciphertext)
  }

  method EncryptObject(c: Cipher, plaintext: Slice, dek: seq<byte>, chunkSize: u64)
    returns (r: Result<seq<byte>, CryptoError>)
    ensures r == Encrypt(c, plaintext, dek, chunkSize)
  {
    if |dek| != 32 { return Err(BadDek); }
    var chunk := EffectiveChunkSize(chunkSize);
    var out: seq<byte> := [];
    var index: nat, offset: nat := 0, 0;
    PrependNothing(SealFrom(c, dek, chunk, 0, plaintext));
    assert plaintext[0..] == plaintext;
    while offset < |plaintext|
      invariant index <= offset <= |plaintext|
      invariant Encrypt(c, plaintext, dek, chunkSize) == Prepend(out, SealFrom(c, dek, chunk, index, plaintext[offset..]))
    {
      var end := Min(offset + chunk, |plaintext|);
      var piece := plaintext[offset..end];
      ghost var rest := plaintext[offset..];
      assert piece == rest[..Min(chunk, |rest|)] && plaintext[end..] == rest[Min(chunk, |rest|)..];
      SealUnfolds(c, dek, chunk, index, rest, piece, plaintext[end..]);
      var nonce := ConvergentNonce(c, dek, index);
      if nonce.None? { return Err(NonceDerivation); }
      var sealed := c.seal(dek, nonce.value, piece);
      if sealed.None? { return Err(SealFailed); }
      if |sealed.value| >= 0x1_0000_0000 { return Err(LengthExceedsU32); }
      var frame := nonce.value + BigEndian(4, |sealed.value|) + sealed.value;
      PrependTwice(out, frame, SealFrom(c, dek, chunk, index + 1, plaintext[end..]));
      out := out + frame;
      offset, index := end, index + 1;
    }
    assert plaintext[offset..] == [] && out + [] == out;
    r := Ok(out);
  }

  lemma {:induction false} SealUnfolds(c: Cipher, dek: seq<byte>, chunk: nat, index: nat, p: seq<byte>, piece: seq<byte>, rest: seq<byte>)
    requires 0 < chunk && index + |p| <= I64_MAX && p != []
    requires piece == p[..Min(chunk, |p|)] && rest == p[Min(chunk, |p|)..]
    ensures SealFrom(c, dek, chunk, index, p)
         == match SealFrame(c, dek, index, piece)
            case Err(e) => Err(e)
            case Ok(frame) => Prepend(frame, SealFrom(c, dek, chunk, index + 1, rest))
  {
  }

  lemma {:induction false} PrependTwice(a: seq<byte>, b: seq<byte>, r: Result<seq<byte>, CryptoError>)
    ensures Prepend(a, Prepend(b, r)) == Prepend(a + b, r)
  {
    if r.Ok? {
      assert a + (b + r.value) == (a + b) + r.value;
    }
  }

  lemma {:induction false} PrependNothing(r: Result<seq<byte>, CryptoError>)
    ensures Prepend([], r) == r
  {
    if r.Ok? {
      assert [] + r.value == r.value;
    }
  }

  method DecryptObject(c: Cipher, ciphertext: Slice, dek: seq<byte>, chunkSize: u64)
    returns (r: Result<seq<byte>, CryptoError>)
    ensures r == Decrypt(c, ciphertext, dek, chunkSize)
  {
    if |dek| != 32 { return Err(BadDek); }
    var bound := MaxCiphertext(chunkSize);
    if bound.None? { return Err(ChunkSizeExceedsU32); }
    var maxCt := bound.value;
    var out: seq<byte> := [];
    var cursor: nat := 0;
    PrependNothing(OpenFrom(c, dek, maxCt, ciphertext));
    assert ciphertext[0..] == ciphertext;
    while cursor < |ciphertext|
      invariant cursor <= |ciphertext|
      invariant Decrypt(c, ciphertext, dek, chunkSize) == Prepend(out, OpenFrom(c, dek, maxCt, ciphertext[cursor..]))
    {
      ghost var rest := ciphertext[cursor..];
      if |ciphertext| - cursor < CHUNK_HEADER_SIZE { return Err(TruncatedHeader); }
      var nonce := ciphertext[cursor..cursor + 24];
      var len := FromBigEndian(ciphertext[cursor + 24..cursor + 28]);
      assert nonce == rest[..24] && ciphertext[cursor + 24..cursor + 28] == rest[24..28];
      if len == 0 || len > maxCt { return Err(LengthOutOfBounds); }
      var bodyStart := cursor + CHUNK_HEADER_SIZE;
      var bodyEnd := bodyStart + len;
      if bodyEnd > |ciphertext| { return Err(TruncatedBody); }
      assert ciphertext[bodyStart..bodyEnd] == rest[28..28 + len];
      var p := c.open(dek, nonce, ciphertext[bodyStart..bodyEnd]);
      if p.None? { return Err(OpenFailed); }
      assert rest[28 + len..] == ciphertext[bodyEnd..];
      PrependTwice(out, p.value, OpenFrom(c, dek, maxCt, ciphertext[bodyEnd..]));
      out := out + p.value;
      cursor := bodyEnd;
    }
    assert ciphertext[cursor..] == [] && out + [] == out;
    r := Ok(out);
  }

  // ------------------------------------------------------------------ frames round-trip

  /** A sealed frame, followed by anything, opens to its chunk. */
  lemma {:induction false} FrameRoundTrip(c: Cipher, dek: seq<byte>, index: u64, chunk: seq<byte>, maxCt: u32, more: seq<byte>)
    requires Lawful(c) && SealFrame(c, dek, index, chunk).Ok?
    ensures var frame := SealFrame(c, dek, index, chunk).value;
            && |frame| == |chunk| + CHUNK_HEADER_SIZE + TAG_LEN
            && OpenFrame(c, dek, maxCt, frame + more)
               == if |chunk| + TAG_LEN <= maxCt then Ok((chunk, |frame|)) else Err(LengthOutOfBounds)
  {
    var nonce := ConvergentNonce(c, dek, index).value;
    var sealed := c.seal(dek, nonce, chunk).value;
    var frame := SealFrame(c, dek, index, chunk).value;
    var ct := frame + more;
    assert |nonce| == 24;
    assert ct[..24] == nonce && ct[24..28] == BigEndian(4, |sealed|);
    Widths();
    BigEndianRoundTrip(4, |sealed|);
    if |sealed| <= maxCt {
      assert ct[28..28 + |sealed|] == sealed;
    }
  }

  /** A frame cut short is rejected, whatever the bound. */
  lemma {:induction false} CutFrameRejected(c: Cipher, dek: seq<byte>, index: u64, chunk: seq<byte>, maxCt: u32, n: nat)
    requires Lawful(c) && SealFrame(c, dek, index, chunk).Ok?
    requires n < |SealFrame(c, dek, index, chunk).value|
    ensures OpenFrame(c, dek, maxCt, SealFrame(c, dek, index, chunk).value[..n]).Err?
  {
    var nonce := ConvergentNonce(c, dek, index).value;
    var sealed := c.seal(dek, nonce, chunk).value;
    var length := BigEndian(4, |sealed|);
    var frame := nonce + length + sealed;
    var cut := frame[..n];
    assert |nonce| == 24;
    if CHUNK_HEADER_SIZE <= n {
      assert frame[24..28] == length;
      assert cut[24..28] == frame[24..28];
      Widths();
      BigEndianRoundTrip(4, |sealed|);
    }
  }

  /** Opening a stream that starts with a sealed frame. */
  lemma {:induction false} OpenSealed(c: Cipher, dek: seq<byte>, index: u64, chunk: seq<byte>, maxCt: u32, more: seq<byte>)
    requires Lawful(c) && SealFrame(c, dek, index, chunk).Ok?
    ensures |SealFrame(c, dek, index, chunk).value| == |chunk| + 44
    ensures OpenFrom(c, dek, maxCt, SealFrame(c, dek, index, chunk).value + more)
         == if |chunk| + TAG_LEN <= maxCt then Prepend(chunk, OpenFrom(c, dek, maxCt, more)) else Err(LengthOutOfBounds)
  {
    var frame := SealFrame(c, dek, index, chunk).value;
    FrameRoundTrip(c, dek, index, chunk, maxCt, more);
    assert (frame + more)[|frame|..] == more;
  }

  /** A stream is its first frame and the stream of the rest. */
  lemma {:induction false} SealSplits(c: Cipher, dek: seq<byte>, chunk: nat, index: nat, p: seq<byte>)
    requires 0 < chunk && index + |p| <= I64_MAX && p != []
    requires SealFrom(c, dek, chunk, index, p).Ok?
    ensures var n := Min(chunk, |p|);
            && SealFrame(c, dek, index, p[..n]).Ok?
            && SealFrom(c, dek, chunk, index + 1, p[n..]).Ok?
            && SealFrom(c, dek, chunk, index, p).value
               == SealFrame(c, dek, index, p[..n]).value + SealFrom(c, dek, chunk, index + 1, p[n..]).value
  {
  }

  lemma {:induction false} OpenSplits(c: Cipher, dek: seq<byte>, chunk: nat, index: nat, p: seq<byte>, maxCt: u32)
    requires Lawful(c) && 0 < chunk && index + |p| <= I64_MAX && chunk + TAG_LEN <= maxCt && p != []
    requires SealFrom(c, dek, chunk, index, p).Ok?
    ensures var n := Min(chunk, |p|);
            && SealFrom(c, dek, chunk, index + 1, p[n..]).Ok?
            && OpenFrom(c, dek, maxCt, SealFrom(c, dek, chunk, index, p).value)
               == Prepend(p[..n], OpenFrom(c, dek, maxCt, SealFrom(c, dek, chunk, index + 1, p[n..]).value))
  {
    var n := Min(chunk, |p|);
    SealSplits(c, dek, chunk, index, p);
    OpenSealed(c, dek, index, p[..n], maxCt, SealFrom(c, dek, chunk, index + 1, p[n..]).value);
  }

  lemma {:induction false} StreamRoundTrip(c: Cipher, dek: seq<byte>, chunk: nat, index: nat, p: seq<byte>, maxCt: u32)
    requires Lawful(c) && 0 < chunk && index + |p| <= I64_MAX && chunk + TAG_LEN <= maxCt
    requires SealFrom(c, dek, chunk, index, p).Ok?
    ensures OpenFrom(c, dek, maxCt, SealFrom(c, dek, chunk, index, p).value) == Ok(p)
    decreases |p|
  {
    if p == [] {
    } else {
      var n := Min(chunk, |p|);
      OpenSplits(c, dek, chunk, index, p, maxCt);
      StreamRoundTrip(c, dek, chunk, index + 1, p[n..], maxCt);
      assert p[..n] + p[n..] == p;
    }
  }

  /** A bound below one byte and a tag refuses every stream that holds a frame. */
  lemma {:induction false} TinyBoundRejects(c: Cipher, dek: seq<byte>, chunk: nat, index: nat, p: seq<byte>, maxCt: u32)
    requires Lawful(c) && 0 < chunk && index + |p| <= I64_MAX && p != [] && maxCt <= TAG_LEN
    requires SealFrom(c, dek, chunk, index, p).Ok?
    ensures OpenFrom(c, dek, maxCt, SealFrom(c, dek, chunk, index, p).value).Err?
  {
    var n := Min(chunk, |p|);
    SealSplits(c, dek, chunk, index, p);
    OpenSealed(c, dek, index, p[..n], maxCt, SealFrom(c, dek, chunk, index + 1, p[n..]).value);
  }

  /** Whatever encryption returned decrypts to the plaintext exactly when the chunk size and a tag
      fit 32 bits. A larger chunk size encrypts, but its own output is refused; only for the empty
      plaintext does the wrapped-around bound of the 16 largest sizes let decryption through. */
  lemma {:induction false} RoundTripExactlyWhen(c: Cipher, plaintext: Slice, dek: seq<byte>, chunkSize: u64)
    requires Lawful(c) && Encrypt(c, plaintext, dek, chunkSize).Ok?
    requires |Encrypt(c, plaintext, dek, chunkSize).value| <= I64_MAX
    ensures Decrypt(c, Encrypt(c, plaintext, dek, chunkSize).value, dek, chunkSize) == Ok(plaintext)
       <==> || EffectiveChunkSize(chunkSize) + TAG_LEN < 0x1_0000_0000
            || (plaintext == [] && TWO_64 <= EffectiveChunkSize(chunkSize) + TAG_LEN)
  {
    var chunk := EffectiveChunkSize(chunkSize);
    BoundCases(chunkSize);
    if chunk + TAG_LEN < 0x1_0000_0000 {
      StreamRoundTrip(c, dek, chunk, 0, plaintext, chunk + TAG_LEN);
    } else if TWO_64 <= chunk + TAG_LEN && plaintext != [] {
      TinyBoundRejects(c, dek, chunk, 0, plaintext, chunk + TAG_LEN - TWO_64);
    }
  }

  /** A chunk size of zero asks for chunks of 16 MiB, on both sides. */
  lemma {:induction false} ZeroIsDefault(c: Cipher, bytes: Slice, dek: seq<byte>)
    ensures Encrypt(c, bytes, dek, 0) == Encrypt(c, bytes, dek, 16_777_216)
    ensures Decrypt(c, bytes, dek, 0) == Decrypt(c, bytes, dek, 16_777_216)
    ensures forall n: u64 | n != 0 :: EffectiveChunkSize(n) == n
  {
  }

  lemma {:induction false} BoundCases(chunkSize: u64)
    ensures var sum := EffectiveChunkSize(chunkSize) + TAG_LEN;
            MaxCiphertext(chunkSize)
            == if sum < 0x1_0000_0000 then Some(sum) else if sum < TWO_64 then None else Some(sum - TWO_64)
  {
  }

  /** Every chunk costs a header and a tag. */
  lemma {:induction false} CiphertextLength(c: Cipher, dek: seq<byte>, chunk: nat, index: nat, p: seq<byte>)
    requires Lawful(c) && 0 < chunk && index + |p| <= I64_MAX
    requires SealFrom(c, dek, chunk, index, p).Ok?
    ensures |SealFrom(c, dek, chunk, index, p).value| == |p| + 44 * CeilDiv(|p|, chunk)
    decreases |p|
  {
    if p == [] {
      NoCeilDiv(chunk);
    } else {
      var n := Min(chunk, |p|);
      SealSplits(c, dek, chunk, index, p);
      OpenSealed(c, dek, index, p[..n], 0, []);
      CiphertextLength(c, dek, chunk, index + 1, p[n..]);
      if chunk < |p| {
        CeilDivStep(|p|, chunk);
      } else {
        SmallCeilDiv(|p|, chunk);
        NoCeilDiv(chunk);
      }
    }
  }

  // ------------------------------------------------------------------ concatenation and truncation

  lemma {:induction false} FramePrefixStable(c: Cipher, dek: seq<byte>, maxCt: u32, ct: seq<byte>, more: seq<byte>)
    requires OpenFrame(c, dek, maxCt, ct).Ok?
    ensures OpenFrame(c, dek, maxCt, ct + more) == OpenFrame(c, dek, maxCt, ct)
  {
    var len := FromBigEndian(ct[24..28]);
    var l := ct + more;
    assert l[..24] == ct[..24] && l[24..28] == ct[24..28] && l[28..28 + len] == ct[28..28 + len];
  }

  /** Accepted streams concatenate, and the second one decides whether the whole is accepted. */
  lemma {:induction false} StreamsConcatenate(c: Cipher, dek: seq<byte>, maxCt: u32, a: seq<byte>, b: seq<byte>)
    requires OpenFrom(c, dek, maxCt, a).Ok?
    ensures OpenFrom(c, dek, maxCt, a + b) == Prepend(OpenFrom(c, dek, maxCt, a).value, OpenFrom(c, dek, maxCt, b))
    decreases |a|
  {
    if a == [] {
      assert a + b == b;
      PrependNothing(OpenFrom(c, dek, maxCt, b));
    } else {
      var (p, n) := OpenFrame(c, dek, maxCt, a).value;
      FramePrefixStable(c, dek, maxCt, a, b);
      StreamsConcatenate(c, dek, maxCt, a[n..], b);
      assert (a + b)[n..] == a[n..] + b;
      PrependTwice(p, OpenFrom(c, dek, maxCt, a[n..]).value, OpenFrom(c, dek, maxCt, b));
    }
  }

  /** What decryption makes of the first `n` bytes of a stream with frames of `full` bytes. */
  ghost predicate CutOnBoundary(r: Result<seq<byte>, CryptoError>, p: seq<byte>, chunk: nat, n: nat) {
    var full := chunk + 44;
    if n % full == 0
    then n / full * chunk <= |p| && r == Ok(p[..n / full * chunk])
    else r.Err?
  }

  lemma {:induction false} CutAfterFrame(r: Result<seq<byte>, CryptoError>, p: seq<byte>, chunk: nat, n: nat)
    requires chunk <= |p| && chunk + 44 <= n
    requires CutOnBoundary(r, p[chunk..], chunk, n - (chunk + 44))
    ensures CutOnBoundary(Prepend(p[..chunk], r), p, chunk, n)
  {
    var full := chunk + 44;
    DivStep(n, full);
    if n % full == 0 {
      var q := (n - full) / full;
      assert (q + 1) * chunk == q * chunk + chunk;
      assert p[..chunk] + p[chunk..][..q * chunk] == p[..q * chunk + chunk];
    }
  }

  lemma {:induction false} CutInsideFrame(c: Cipher, dek: seq<byte>, index: u64, p: seq<byte>, chunk: nat, maxCt: u32, n: nat)
    requires Lawful(c) && 0 < chunk && SealFrame(c, dek, index, p[..Min(chunk, |p|)]).Ok?
    requires n < |SealFrame(c, dek, index, p[..Min(chunk, |p|)]).value|
    ensures CutOnBoundary(OpenFrom(c, dek, maxCt, SealFrame(c, dek, index, p[..Min(chunk, |p|)]).value[..n]), p, chunk, n)
  {
    OpenSealed(c, dek, index, p[..Min(chunk, |p|)], maxCt, []);
    CutFrameRejected(c, dek, index, p[..Min(chunk, |p|)], maxCt, n);
    DivModUnique(n, chunk + 44, 0, n);
    assert p[..0] == [];
  }

  /** A strict prefix of a ciphertext is accepted exactly when it ends on a frame boundary, and
      then yields that many whole chunks. */
  lemma {:induction false} TruncationExactlyWhen(c: Cipher, dek: seq<byte>, chunk: nat, index: nat, p: seq<byte>, maxCt: u32, n: nat)
    requires Lawful(c) && 0 < chunk && index + |p| <= I64_MAX && chunk + TAG_LEN <= maxCt
    requires SealFrom(c, dek, chunk, index, p).Ok? && n < |SealFrom(c, dek, chunk, index, p).value|
    ensures CutOnBoundary(OpenFrom(c, dek, maxCt, SealFrom(c, dek, chunk, index, p).value[..n]), p, chunk, n)
    decreases |p|
  {
    var k := Min(chunk, |p|);
    SealSplits(c, dek, chunk, index, p);
    var frame := SealFrame(c, dek, index, p[..k]).value;
    var rest := SealFrom(c, dek, chunk, index + 1, p[k..]).value;
    OpenSealed(c, dek, index, p[..k], maxCt, []);
    var cut := (frame + rest)[..n];
    if n < |frame| {
      assert cut == frame[..n];
      CutInsideFrame(c, dek, index, p, chunk, maxCt, n);
    } else {
      assert p[k..] != [];
      var m := n - |frame|;
      assert cut == frame + rest[..m];
      TruncationExactlyWhen(c, dek, chunk, index + 1, p[k..], maxCt, m);
      OpenSealed(c, dek, index, p[..k], maxCt, rest[..m]);
      CutAfterFrame(OpenFrom(c, dek, maxCt, rest[..m]), p, chunk, n);
    }
  }

  // ------------------------------------------------------------------ what every frame holds

  /** `i * n`. */
  function Offset(i: nat, n: nat): (o: nat)
    requires 0 < n
    ensures i <= o
  {
    if i == 0 then 0 else Offset(i - 1, n) + n
  }

  lemma {:induction false} OffsetIs(i: nat, n: nat)
    requires 0 < n
    ensures Offset(i, n) == i * n
  {
    if i == 0 {
    } else {
      OffsetIs(i - 1, n);
      assert i * n == (i - 1) * n + n;
    }
  }

  lemma {:induction false} OffsetsAscend(i: nat, j: nat, n: nat)
    requires 0 < n && i < j
    ensures Offset(i, n) + n <= Offset(j, n)
  {
    if i + 1 == j {
    } else {
      OffsetsAscend(i, j - 1, n);
    }
  }

  /** Chunk `i` of a plaintext. */
  function Chunk(p: seq<byte>, chunk: nat, i: nat): seq<byte>
    requires 0 < chunk && Offset(i, chunk) <= |p|
  {
    p[Offset(i, chunk)..Min(Offset(i, chunk) + chunk, |p|)]
  }

  /** Both primitives accept chunk `index`, and the sealed length fits its field. The nonce is expanded
      over the label "zkof-nonce-v1" and the index in eight bytes. */
  ghost predicate FrameSeals(c: Cipher, dek: seq<byte>, index: u64, chunk: seq<byte>) {
    var nonce := c.expand(dek, Ascii("zkof-nonce-v1") + BigEndian(8, index), 24);
    nonce.Some? && c.seal(dek, nonce.value, chunk).Some? && |c.seal(dek, nonce.value, chunk).value| < 0x1_0000_0000
  }

  /** The bytes of a frame: the nonce, the length of the sealed chunk in four bytes, and the chunk
      sealed under that nonce. */
  ghost predicate FrameIs(c: Cipher, dek: seq<byte>, index: u64, chunk: seq<byte>, frame: seq<byte>) {
    FrameSeals(c, dek, index, chunk) &&
    var nonce := c.expand(dek, Ascii("zkof-nonce-v1") + BigEndian(8, index), 24).value;
    var sealed := c.seal(dek, nonce, chunk).value;
    frame == nonce + BigEndian(4, |sealed|) + sealed
  }

  lemma {:induction false} LabelIs()
    ensures CONVERGENT_NONCE_INFO == Ascii("zkof-nonce-v1")
  {
    var t := "zkof-nonce-v1";
    assert Ascii(t)[0] == t[0] as int % 256;
  }

  lemma {:induction false} SealFrameIs(c: Cipher, dek: seq<byte>, index: u64, chunk: seq<byte>)
    ensures SealFrame(c, dek, index, chunk).Ok? <==> FrameSeals(c, dek, index, chunk)
    ensures SealFrame(c, dek, index, chunk).Ok? ==> FrameIs(c, dek, index, chunk, SealFrame(c, dek, index, chunk).value)
  {
    LabelIs();
  }

  /** Chunk `i` of the stream whose first frame has index `first` can be sealed. */
  ghost predicate SealsAt(c: Cipher, dek: seq<byte>, chunk: nat, p: seq<byte>, first: nat, i: nat)
    requires 0 < chunk && first + |p| <= I64_MAX
  {
    Offset(i, chunk) < |p| ==> FrameSeals(c, dek, first + i, Chunk(p, chunk, i))
  }

  ghost predicate AllSeal(c: Cipher, dek: seq<byte>, chunk: nat, p: seq<byte>, first: nat)
    requires 0 < chunk && first + |p| <= I64_MAX
  {
    forall i: nat :: SealsAt(c, dek, chunk, p, first, i)
  }

  lemma {:induction false} ChunkShifts(p: seq<byte>, chunk: nat, i: nat)
    requires 0 < chunk <= |p|
    ensures Offset(i + 1, chunk) == Offset(i, chunk) + chunk
    ensures Offset(i, chunk) <= |p| - chunk ==> Chunk(p[chunk..], chunk, i) == Chunk(p, chunk, i + 1)
  {
  }

  /** A stream is sealed exactly when each of its chunks is. */
  lemma {:induction false} SealsExactlyWhen(c: Cipher, dek: seq<byte>, chunk: nat, first: nat, p: seq<byte>)
    requires 0 < chunk && first + |p| <= I64_MAX
    ensures SealFrom(c, dek, chunk, first, p).Ok? <==> AllSeal(c, dek, chunk, p, first)
    decreases |p|
  {
    if p == [] {
    } else {
      var n := Min(chunk, |p|);
      SealFrameIs(c, dek, first, p[..n]);
      assert Offset(0, chunk) == 0 && Chunk(p, chunk, 0) == p[..n];
      assert SealsAt(c, dek, chunk, p, first, 0) <==> SealFrame(c, dek, first, p[..n]).Ok?;
      SealsExactlyWhen(c, dek, chunk, first + 1, p[n..]);
      if chunk < |p| {
        ShiftedSeals(c, dek, chunk, first, p);
      } else {
        forall i: nat | i > 0 ensures SealsAt(c, dek, chunk, p, first, i) {
          OffsetsAscend(0, i, chunk);
        }
        assert p[n..] == [];
      }
    }
  }

  lemma {:induction false} ShiftedSeals(c: Cipher, dek: seq<byte>, chunk: nat, first: nat, p: seq<byte>)
    requires 0 < chunk < |p| && first + |p| <= I64_MAX
    ensures AllSeal(c, dek, chunk, p, first)
       <==> SealsAt(c, dek, chunk, p, first, 0) && AllSeal(c, dek, chunk, p[chunk..], first + 1)
  {
    var q, next := p[chunk..], first + 1;
    if AllSeal(c, dek, chunk, p, first) {
      forall i: nat ensures SealsAt(c, dek, chunk, q, next, i) {
        ChunkShifts(p, chunk, i);
        assert SealsAt(c, dek, chunk, p, first, i + 1);
      }
    }
    if AllSeal(c, dek, chunk, q, next) {
      forall i: nat | i > 0 ensures SealsAt(c, dek, chunk, p, first, i) {
        ChunkShifts(p, chunk, i - 1);
        assert SealsAt(c, dek, chunk, q, next, i - 1);
      }
    }
  }

  /** Encryption succeeds exactly for a 32-byte key under which each chunk can be sealed. */
  lemma {:induction false} EncryptsExactlyWhen(c: Cipher, plaintext: Slice, dek: seq<byte>, chunkSize: u64)
    ensures Encrypt(c, plaintext, dek, chunkSize).Ok?
       <==> |dek| == 32 && AllSeal(c, dek, EffectiveChunkSize(chunkSize), plaintext, 0)
  {
    if |dek| == 32 {
      SealsExactlyWhen(c, dek, EffectiveChunkSize(chunkSize), 0, plaintext);
    }
  }

  /** Frame `i` of a sealed stream: where it lies and what it holds. */
  ghost predicate FrameAt(c: Cipher, dek: seq<byte>, chunk: nat, p: seq<byte>, first: nat, out: seq<byte>, i: nat)
    requires 0 < chunk && first + |p| <= I64_MAX && Offset(i, chunk) < |p|
  {
    var piece := Chunk(p, chunk, i);
    var start := Offset(i, chunk + 44);
    start + |piece| + 44 <= |out| && FrameIs(c, dek, first + i, piece, out[start..start + |piece| + 44])
  }

  lemma {:induction false} FrameLength(c: Cipher, dek: seq<byte>, index: u64, chunk: seq<byte>)
    requires Lawful(c) && SealFrame(c, dek, index, chunk).Ok?
    ensures |SealFrame(c, dek, index, chunk).value| == |chunk| + 44
  {
  }

  lemma {:induction false} StreamFrames(c: Cipher, dek: seq<byte>, chunk: nat, first: nat, p: seq<byte>, i: nat)
    requires Lawful(c) && 0 < chunk && first + |p| <= I64_MAX && SealFrom(c, dek, chunk, first, p).Ok? && Offset(i, chunk) < |p|
    ensures FrameAt(c, dek, chunk, p, first, SealFrom(c, dek, chunk, first, p).value, i)
    decreases |p|
  {
    var n := Min(chunk, |p|);
    SealSplits(c, dek, chunk, first, p);
    FrameLength(c, dek, first, p[..n]);
    var frame, rest := SealFrame(c, dek, first, p[..n]).value, SealFrom(c, dek, chunk, first + 1, p[n..]).value;
    if i == 0 {
      FirstFrame(c, dek, chunk, first, p, frame, rest);
    } else {
      OffsetsAscend(0, i, chunk);
      StreamFrames(c, dek, chunk, first + 1, p[n..], i - 1);
      FrameMoves(c, dek, chunk, first, p, frame, rest, i);
    }
  }

  lemma {:induction false} FirstFrame(c: Cipher, dek: seq<byte>, chunk: nat, first: nat, p: seq<byte>, frame: seq<byte>, rest: seq<byte>)
    requires 0 < chunk && first + |p| <= I64_MAX && p != [] && |frame| == Min(chunk, |p|) + 44
    requires SealFrame(c, dek, first, p[..Min(chunk, |p|)]) == Ok(frame)
    ensures FrameAt(c, dek, chunk, p, first, frame + rest, 0)
  {
    SealFrameIs(c, dek, first, p[..Min(chunk, |p|)]);
    assert Chunk(p, chunk, 0) == p[..Min(chunk, |p|)] && (frame + rest)[0..|frame|] == frame;
  }

  lemma {:induction false} FrameMoves(c: Cipher, dek: seq<byte>, chunk: nat, first: nat, p: seq<byte>, frame: seq<byte>, rest: seq<byte>, i: nat)
    requires 0 < chunk < |p| && first + |p| <= I64_MAX && 0 < i && Offset(i, chunk) < |p|
    requires |frame| == chunk + 44 && FrameAt(c, dek, chunk, p[chunk..], first + 1, rest, i - 1)
    ensures FrameAt(c, dek, chunk, p, first, frame + rest, i)
  {
    ChunkShifts(p, chunk, i - 1);
    var piece := Chunk(p, chunk, i);
    var start := Offset(i - 1, chunk + 44);
    assert (frame + rest)[start + |frame|..start + |frame| + |piece| + 44] == rest[start..start + |piece| + 44];
  }

  /** Where everything lies in a ciphertext: for chunks of `n` bytes, frame `i` starts at `i * (n + 44)`
      with the nonce expanded over the label and `i`, and holds chunk `i` sealed under that nonce. */
  lemma {:induction false} FramesAre(c: Cipher, plaintext: Slice, dek: seq<byte>, chunkSize: u64, i: nat)
    requires Lawful(c) && Encrypt(c, plaintext, dek, chunkSize).Ok? && i * EffectiveChunkSize(chunkSize) < |plaintext|
    ensures Offset(i, EffectiveChunkSize(chunkSize)) == i * EffectiveChunkSize(chunkSize)
    ensures FrameAt(c, dek, EffectiveChunkSize(chunkSize), plaintext, 0, Encrypt(c, plaintext, dek, chunkSize).value, i)
    ensures NonceAt(c, dek, i, i * (EffectiveChunkSize(chunkSize) + 44), Encrypt(c, plaintext, dek, chunkSize).value)
  {
    var n: nat := EffectiveChunkSize(chunkSize);
    OffsetIs(i, n);
    OffsetIs(i, n + 44);
    StreamFrames(c, dek, n, 0, plaintext, i);
    FrameNonce(c, dek, n, plaintext, i);
  }

  /** The 24 bytes at `start` are the nonce of frame `i`. */
  ghost predicate NonceAt(c: Cipher, dek: seq<byte>, i: nat, start: nat, out: seq<byte>) {
    start + 24 <= |out| && c.expand(dek, Ascii("zkof-nonce-v1") + BigEndian(8, i), 24) == Some(out[start..start + 24])
  }

  lemma {:induction false} NonceInFrame(c: Cipher, dek: seq<byte>, chunk: nat, p: seq<byte>, out: seq<byte>, i: nat)
    requires Lawful(c) && 0 < chunk && |p| <= I64_MAX && Offset(i, chunk) < |p| && FrameAt(c, dek, chunk, p, 0, out, i)
    ensures NonceAt(c, dek, i, Offset(i, chunk + 44), out)
  {
    var start, piece := Offset(i, chunk + 44), Chunk(p, chunk, i);
    var nonce := c.expand(dek, Ascii("zkof-nonce-v1") + BigEndian(8, i), 24).value;
    var frame := out[start..start + |piece| + 44];
    assert |nonce| == 24 && frame[..24] == nonce;
    assert frame[..24] == out[start..start + 24];
  }

  lemma {:induction false} FrameNonce(c: Cipher, dek: seq<byte>, chunk: nat, p: seq<byte>, i: nat)
    requires Lawful(c) && 0 < chunk && |p| <= I64_MAX && SealFrom(c, dek, chunk, 0, p).Ok? && Offset(i, chunk) < |p|
    ensures NonceAt(c, dek, i, Offset(i, chunk + 44), SealFrom(c, dek, chunk, 0, p).value)
  {
    StreamFrames(c, dek, chunk, 0, p, i);
    NonceInFrame(c, dek, chunk, p, SealFrom(c, dek, chunk, 0, p).value, i);
  }

  /** The expansion gives different outputs for different info strings. */
  ghost predicate Separates(c: Cipher, dek: seq<byte>) {
    forall a, b, n | c.expand(dek, a, n).Some? && c.expand(dek, a, n) == c.expand(dek, b, n) :: a == b
  }

  /** The 24 bytes at one place and at the other. */
  ghost predicate DifferAt(out: seq<byte>, a: nat, b: nat) {
    a + 24 <= |out| && b + 24 <= |out| && out[a..a + 24] != out[b..b + 24]
  }

  /** Where the expansion separates its info strings, no two frames of a ciphertext share a nonce. */
  lemma {:induction false} NoncesDiffer(c: Cipher, plaintext: Slice, dek: seq<byte>, chunkSize: u64, i: nat, j: nat)
    requires Lawful(c) && Separates(c, dek) && Encrypt(c, plaintext, dek, chunkSize).Ok?
    requires i < j && Offset(j, EffectiveChunkSize(chunkSize)) < |plaintext|
    ensures DifferAt(Encrypt(c, plaintext, dek, chunkSize).value,
                     Offset(i, EffectiveChunkSize(chunkSize) + 44), Offset(j, EffectiveChunkSize(chunkSize) + 44))
  {
    StreamNonces(c, dek, EffectiveChunkSize(chunkSize), plaintext, i, j);
  }

  lemma {:induction false} StreamNonces(c: Cipher, dek: seq<byte>, chunk: nat, p: seq<byte>, i: nat, j: nat)
    requires Lawful(c) && Separates(c, dek) && 0 < chunk && |p| <= I64_MAX && SealFrom(c, dek, chunk, 0, p).Ok?
    requires i < j && Offset(j, chunk) < |p|
    ensures DifferAt(SealFrom(c, dek, chunk, 0, p).value, Offset(i, chunk + 44), Offset(j, chunk + 44))
  {
    OffsetsAscend(i, j, chunk);
    FrameNonce(c, dek, chunk, p, i);
    FrameNonce(c, dek, chunk, p, j);
    NoncesApart(c, dek, i, j, Offset(i, chunk + 44), Offset(j, chunk + 44), SealFrom(c, dek, chunk, 0, p).value);
  }

  lemma {:induction false} NoncesApart(c: Cipher, dek: seq<byte>, i: u64, j: u64, a: nat, b: nat, out: seq<byte>)
    requires Separates(c, dek) && i != j && NonceAt(c, dek, i, a, out) && NonceAt(c, dek, j, b, out)
    ensures DifferAt(out, a, b)
  {
    var x, y := Ascii("zkof-nonce-v1") + BigEndian(8, i), Ascii("zkof-nonce-v1") + BigEndian(8, j);
    assert x[13..] == BigEndian(8, i) && y[13..] == BigEndian(8, j);
    Widths();
    if x == y {
      BigEndianInjective(8, i, j);
    }
  }
}
