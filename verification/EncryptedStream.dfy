/** Framing of encrypted files and the buffering reader that undoes it. */
module EncryptedStream {
  import opened Common

  newtype byte = x: int | 0 <= x < 256
  type Bytes = seq<byte>

  const IV_SIZE: nat := 12
  const CHUNK_SIZE_FIELD: nat := 4
  const TAG_SIZE: nat := 16
  const MAX_FRAME: nat := 0x1_0000_0000
  const MAX_CHUNK: nat := 0x7FFF_FFFF

  /**
   * AES-GCM under one key, with no associated data. Decryption fails unless the
   * ciphertext is the one encryption produces for that iv and plaintext.
   */
  datatype Cipher = Cipher(encrypt: (Bytes, Bytes) -> Bytes, decrypt: (Bytes, Bytes) -> Option<Bytes>)

  ghost predicate Lawful(c: Cipher) {
    && (forall iv, p :: c.decrypt(iv, c.encrypt(iv, p)) == Some(p))
    && (forall iv, p :: |c.encrypt(iv, p)| == |p| + TAG_SIZE)
    && (forall iv, ct :: c.decrypt(iv, ct).Some? ==> ct == c.encrypt(iv, c.decrypt(iv, ct).value))
  }

  function Flatten(chunks: seq<Bytes>): Bytes {
    if chunks == [] then [] else chunks[0] + Flatten(chunks[1..])
  }

  function Pow256(n: nat): (p: nat)
    ensures p >= 1
  {
    if n == 0 then 1 else 256 * Pow256(n - 1)
  }

  /** Big-endian, `width` bytes. */
  function Pack(n: nat, width: nat): (b: Bytes)
    ensures |b| == width
  {
    if width == 0 then [] else Pack(n / 256, width - 1) + [(n % 256) as byte]
  }

  function Unpack(b: Bytes): (n: nat)
    ensures n < Pow256(|b|)
  {
    if b == [] then 0 else Unpack(b[..|b| - 1]) * 256 + b[|b| - 1] as nat
  }

  lemma {:induction false} UnpackPack(n: nat, width: nat)
    requires n < Pow256(width)
    ensures Unpack(Pack(n, width)) == n
  {
    if width > 0 {
      UnpackPack(n / 256, width - 1);
      assert Pack(n, width)[..width - 1] == Pack(n / 256, width - 1);
    }
  }

  lemma {:induction false} PackUnpack(b: Bytes)
    ensures Pack(Unpack(b), |b|) == b
  {
    if b != [] {
      PackUnpack(b[..|b| - 1]);
    }
  }

  /** The four bytes of a length below 2^32. */
  function PackU32(n: nat): (b: Bytes)
    requires n < MAX_FRAME
    ensures |b| == 4
  {
    Pack(n, 4)
  }

  function UnpackU32(b: Bytes): (n: nat)
    requires |b| == 4
    ensures n < MAX_FRAME && PackU32(n) == b
  {
    PackUnpack(b);
    assert Pow256(4) == MAX_FRAME by { assert Pow256(2) == 0x1_0000; assert Pow256(3) == 0x100_0000; }
    Unpack(b)
  }

  lemma U32RoundTrip(n: nat)
    requires n < MAX_FRAME
    ensures UnpackU32(PackU32(n)) == n
  {
    assert Pow256(4) == MAX_FRAME by { assert Pow256(2) == 0x1_0000; assert Pow256(3) == 0x100_0000; }
    UnpackPack(n, 4);
  }

  // ----- Framing -----

  /** iv, length of the ciphertext, ciphertext. */
  function Frame(c: Cipher, iv: Bytes, chunk: Bytes): Bytes
    requires |c.encrypt(iv, chunk)| < MAX_FRAME
  {
    var ct := c.encrypt(iv, chunk);
    iv + PackU32(|ct|) + ct
  }

  /** A frame byte by byte: twelve of the iv, four of the big-endian length, then the ciphertext. */
  lemma FrameLayout(c: Cipher, iv: Bytes, chunk: Bytes)
    requires |iv| == 12 && |c.encrypt(iv, chunk)| < 0x1_0000_0000
    ensures var frame, size := Frame(c, iv, chunk), |c.encrypt(iv, chunk)|;
            && |frame| == 16 + size && frame[..12] == iv && frame[16..] == c.encrypt(iv, chunk)
            && frame[12] as int * 0x100_0000 + frame[13] as int * 0x1_0000 + frame[14] as int * 0x100
               + frame[15] as int == size
  {
    hide Pack;
    var size := |c.encrypt(iv, chunk)|;
    var b := PackU32(size);
    FourBytes(size);
    var frame := Frame(c, iv, chunk);
    assert frame[12] == b[0] && frame[13] == b[1] && frame[14] == b[2] && frame[15] == b[3];
  }

  lemma FourBytes(n: nat)
    requires n < 0x1_0000_0000
    ensures var b := PackU32(n);
            b[0] as int * 0x100_0000 + b[1] as int * 0x1_0000 + b[2] as int * 0x100 + b[3] as int == n
  {
    assert Pack(n / 256 / 256 / 256, 1) == [(n / 256 / 256 / 256 % 256) as byte];
    assert Pack(n / 256 / 256, 2) == Pack(n / 256 / 256 / 256, 1) + [(n / 256 / 256 % 256) as byte];
    assert Pack(n / 256, 3) == Pack(n / 256 / 256, 2) + [(n / 256 % 256) as byte];
    assert Pack(n, 4) == Pack(n / 256, 3) + [(n % 256) as byte];
  }

  /** Every chunk fits its length field, and every iv has twelve bytes. */
  ghost predicate Framable(c: Cipher, ivs: seq<Bytes>, chunks: seq<Bytes>) {
    && |ivs| == |chunks|
    && forall i | 0 <= i < |chunks| :: |ivs[i]| == IV_SIZE && |c.encrypt(ivs[i], chunks[i])| < MAX_FRAME
  }

  /** What can be written: the cipher takes no more than MAX_CHUNK bytes at once. */
  ghost predicate Writable(c: Cipher, ivs: seq<Bytes>, chunks: seq<Bytes>) {
    Framable(c, ivs, chunks) && forall i | 0 <= i < |chunks| :: |chunks[i]| <= MAX_CHUNK
  }

  function Blob(c: Cipher, ivs: seq<Bytes>, chunks: seq<Bytes>): Bytes
    requires Framable(c, ivs, chunks)
  {
    if chunks == [] then [] else Frame(c, ivs[0], chunks[0]) + Blob(c, ivs[1..], chunks[1..])
  }

  datatype StreamError = IncompleteIv | IncompleteSize | IncompletePayload | BadTag

  /** The chunks yielded, and the exception that ended the stream, if any. */
  datatype Decoded = Decoded(chunks: seq<Bytes>, error: Option<StreamError>)

  function Yielding(first: Bytes, rest: Decoded): Decoded {
    Decoded([first] + rest.chunks, rest.error)
  }

  /** The meaning of a stored blob. */
  function Decode(c: Cipher, blob: Bytes): Decoded
    decreases |blob|
  {
    if blob == [] then Decoded([], None)
    else if |blob| < IV_SIZE then Decoded([], Some(IncompleteIv))
    else if |blob| < IV_SIZE + CHUNK_SIZE_FIELD then Decoded([], Some(IncompleteSize))
    else
      var size := UnpackU32(blob[IV_SIZE..IV_SIZE + CHUNK_SIZE_FIELD]);
      var end := IV_SIZE + CHUNK_SIZE_FIELD + size;
      if |blob| < end then Decoded([], Some(IncompletePayload))
      else
        var plain := c.decrypt(blob[..IV_SIZE], blob[IV_SIZE + CHUNK_SIZE_FIELD..end]);
        if plain.None? then Decoded([], Some(BadTag))
        else Yielding(plain.value, Decode(c, blob[end..]))
  }

  /** The cases of Decode, one frame at a time. */
  lemma DecodeCases(c: Cipher, blob: Bytes)
    ensures blob == [] ==> Decode(c, blob) == Decoded([], None)
    ensures 0 < |blob| < IV_SIZE ==> Decode(c, blob) == Decoded([], Some(IncompleteIv))
    ensures IV_SIZE <= |blob| < IV_SIZE + CHUNK_SIZE_FIELD ==> Decode(c, blob) == Decoded([], Some(IncompleteSize))
    ensures |blob| >= IV_SIZE + CHUNK_SIZE_FIELD ==>
              var size := UnpackU32(blob[IV_SIZE..IV_SIZE + CHUNK_SIZE_FIELD]);
              var end := IV_SIZE + CHUNK_SIZE_FIELD + size;
              && (|blob| < end ==> Decode(c, blob) == Decoded([], Some(IncompletePayload)))
              && (|blob| >= end ==>
                    var plain := c.decrypt(blob[..IV_SIZE], blob[IV_SIZE + CHUNK_SIZE_FIELD..end]);
                    Decode(c, blob) == if plain.None? then Decoded([], Some(BadTag))
                                       else Yielding(plain.value, Decode(c, blob[end..])))
  {
  }

  lemma DecodeFrame(c: Cipher, iv: Bytes, chunk: Bytes, rest: Bytes)
    requires Lawful(c) && |iv| == IV_SIZE && |c.encrypt(iv, chunk)| < MAX_FRAME
    ensures Decode(c, Frame(c, iv, chunk) + rest) == Yielding(chunk, Decode(c, rest))
  {
    var ct := c.encrypt(iv, chunk);
    var blob := Frame(c, iv, chunk) + rest;
    U32RoundTrip(|ct|);
    assert blob[..IV_SIZE] == iv;
    assert blob[IV_SIZE..IV_SIZE + CHUNK_SIZE_FIELD] == PackU32(|ct|);
    assert blob[IV_SIZE + CHUNK_SIZE_FIELD..IV_SIZE + CHUNK_SIZE_FIELD + |ct|] == ct;
    assert blob[IV_SIZE + CHUNK_SIZE_FIELD + |ct|..] == rest;
  }

  /** Whatever follows whole frames is decoded after them. */
  lemma {:induction false} DecodeBlobThen(c: Cipher, ivs: seq<Bytes>, chunks: seq<Bytes>, rest: Bytes)
    requires Lawful(c) && Framable(c, ivs, chunks)
    ensures Decode(c, Blob(c, ivs, chunks) + rest) == Decoded(chunks + Decode(c, rest).chunks, Decode(c, rest).error)
  {
    hide Decode;
    var after := Decode(c, rest);
    if chunks == [] {
      assert Blob(c, ivs, chunks) + rest == rest;
      assert chunks + after.chunks == after.chunks;
    } else {
      var tail := Blob(c, ivs[1..], chunks[1..]);
      DecodeBlobThen(c, ivs[1..], chunks[1..], rest);
      DecodeFrame(c, ivs[0], chunks[0], tail + rest);
      assert Blob(c, ivs, chunks) + rest == Frame(c, ivs[0], chunks[0]) + (tail + rest);
      assert [chunks[0]] + (chunks[1..] + after.chunks) == chunks + after.chunks;
    }
  }

  /** Reading back a written blob yields the written chunks and no error. */
  lemma RoundTrip(c: Cipher, ivs: seq<Bytes>, chunks: seq<Bytes>)
    requires Lawful(c) && Framable(c, ivs, chunks)
    ensures Decode(c, Blob(c, ivs, chunks)) == Decoded(chunks, None)
  {
    DecodeBlobThen(c, ivs, chunks, []);
    assert Blob(c, ivs, chunks) + [] == Blob(c, ivs, chunks);
    assert chunks + [] == chunks;
  }

  /** A blob cut inside frame k yields the first k chunks and then raises, and which error depends only on where. */
  lemma CutInsideFrame(c: Cipher, ivs: seq<Bytes>, chunks: seq<Bytes>, k: nat, cut: nat)
    requires Lawful(c) && Framable(c, ivs, chunks) && k < |chunks|
    requires 0 < cut < |Frame(c, ivs[k], chunks[k])|
    ensures Decode(c, Blob(c, ivs[..k], chunks[..k]) + Frame(c, ivs[k], chunks[k])[..cut]) ==
            Decoded(chunks[..k], Some(if cut < IV_SIZE then IncompleteIv
                                      else if cut < IV_SIZE + CHUNK_SIZE_FIELD then IncompleteSize
                                      else IncompletePayload))
  {
    var frame := Frame(c, ivs[k], chunks[k]);
    var part := frame[..cut];
    if cut >= IV_SIZE + CHUNK_SIZE_FIELD {
      U32RoundTrip(|c.encrypt(ivs[k], chunks[k])|);
      assert part[IV_SIZE..IV_SIZE + CHUNK_SIZE_FIELD] == PackU32(|c.encrypt(ivs[k], chunks[k])|);
    }
    DecodeBlobThen(c, ivs[..k], chunks[..k], part);
    assert chunks[..k] + [] == chunks[..k];
  }

  /** The blob splits at every frame boundary. */
  lemma {:induction false} BlobSplits(c: Cipher, ivs: seq<Bytes>, chunks: seq<Bytes>, k: nat)
    requires Framable(c, ivs, chunks) && k <= |chunks|
    ensures Blob(c, ivs, chunks) == Blob(c, ivs[..k], chunks[..k]) + Blob(c, ivs[k..], chunks[k..])
  {
    if k > 0 {
      BlobSplits(c, ivs[1..], chunks[1..], k - 1);
      assert ivs[1..][..k - 1] == ivs[..k][1..] && chunks[1..][..k - 1] == chunks[..k][1..];
      assert ivs[1..][k - 1..] == ivs[k..] && chunks[1..][k - 1..] == chunks[k..];
    } else {
      assert ivs[0..] == ivs && chunks[0..] == chunks && ivs[..0] == [] && chunks[..0] == [];
    }
  }

  /** Every cut position lies at a boundary or inside one frame. */
  lemma {:induction false} LocateCut(c: Cipher, ivs: seq<Bytes>, chunks: seq<Bytes>, n: nat) returns (k: nat, cut: nat)
    requires Framable(c, ivs, chunks) && n <= |Blob(c, ivs, chunks)|
    ensures k <= |chunks| && (k == |chunks| ==> cut == 0)
    ensures k < |chunks| ==> cut < |Frame(c, ivs[k], chunks[k])|
    ensures Blob(c, ivs, chunks)[..n] ==
            Blob(c, ivs[..k], chunks[..k]) + (if k < |chunks| then Frame(c, ivs[k], chunks[k])[..cut] else [])
  {
    if chunks == [] {
      k, cut := 0, 0;
    } else {
      var frame := Frame(c, ivs[0], chunks[0]);
      if n < |frame| {
        k, cut := 0, n;
        assert Blob(c, ivs, chunks)[..n] == frame[..n];
      } else {
        var k', cut' := LocateCut(c, ivs[1..], chunks[1..], n - |frame|);
        k, cut := k' + 1, cut';
        assert ivs[1..][..k'] == ivs[..k][1..] && chunks[1..][..k'] == chunks[..k][1..];
        assert Blob(c, ivs, chunks)[..n] == frame + Blob(c, ivs[1..], chunks[1..])[..n - |frame|];
      }
    }
  }

  /**
   * A truncated blob decodes without error exactly when it was cut at a frame
   * boundary, and what it yields is always a prefix of the written chunks.
   */
  lemma Truncation(c: Cipher, ivs: seq<Bytes>, chunks: seq<Bytes>, n: nat)
    requires Lawful(c) && Framable(c, ivs, chunks) && n <= |Blob(c, ivs, chunks)|
    ensures var d := Decode(c, Blob(c, ivs, chunks)[..n]);
            && d.chunks <= chunks
            && (d.error.None? <==> exists k | 0 <= k <= |chunks| :: n == |Blob(c, ivs[..k], chunks[..k])|)
  {
    var k, cut := LocateCut(c, ivs, chunks, n);
    if cut == 0 {
      assert Blob(c, ivs, chunks)[..n] == Blob(c, ivs[..k], chunks[..k]);
      RoundTrip(c, ivs[..k], chunks[..k]);
      assert n == |Blob(c, ivs[..k], chunks[..k])|;
    } else {
      CutInsideFrame(c, ivs, chunks, k, cut);
      forall j | 0 <= j <= |chunks| ensures n != |Blob(c, ivs[..j], chunks[..j])| {
        BoundariesGrow(c, ivs, chunks, k, j);
      }
    }
  }

  lemma BoundariesGrow(c: Cipher, ivs: seq<Bytes>, chunks: seq<Bytes>, k: nat, j: nat)
    requires Framable(c, ivs, chunks) && k < |chunks| && j <= |chunks|
    ensures j <= k ==> |Blob(c, ivs[..j], chunks[..j])| <= |Blob(c, ivs[..k], chunks[..k])|
    ensures j > k ==>
              |Blob(c, ivs[..j], chunks[..j])| >= |Blob(c, ivs[..k], chunks[..k])| + |Frame(c, ivs[k], chunks[k])|
  {
    if j <= k {
      BlobSplits(c, ivs[..k], chunks[..k], j);
      assert ivs[..k][..j] == ivs[..j] && chunks[..k][..j] == chunks[..j];
    } else {
      BlobSplits(c, ivs[..j], chunks[..j], k);
      assert ivs[..j][..k] == ivs[..k] && chunks[..j][..k] == chunks[..k];
      assert ivs[..j][k..][0] == ivs[k] && chunks[..j][k..][0] == chunks[k];
    }
  }

  /** Only written blobs decode without error: decoding then framing again, with the ivs found, gives the blob back. */
  lemma {:induction false} DecodesOnlyBlobs(c: Cipher, blob: Bytes) returns (ivs: seq<Bytes>)
    requires Lawful(c) && Decode(c, blob).error.None?
    ensures Framable(c, ivs, Decode(c, blob).chunks) && Blob(c, ivs, Decode(c, blob).chunks) == blob
    decreases |blob|
  {
    hide Decode;
    DecodeCases(c, blob);
    if blob == [] {
      ivs := [];
    } else {
      var end := IV_SIZE + CHUNK_SIZE_FIELD + UnpackU32(blob[IV_SIZE..IV_SIZE + CHUNK_SIZE_FIELD]);
      var plain := c.decrypt(blob[..IV_SIZE], blob[IV_SIZE + CHUNK_SIZE_FIELD..end]).value;
      var rest := DecodesOnlyBlobs(c, blob[end..]);
      FrameRebuilt(c, blob, plain);
      ivs := [blob[..IV_SIZE]] + rest;
      WritableCons(c, blob[..IV_SIZE], plain, rest, Decode(c, blob[end..]).chunks);
      assert blob == blob[..end] + blob[end..];
    }
  }

  lemma WritableCons(c: Cipher, iv: Bytes, chunk: Bytes, ivs: seq<Bytes>, chunks: seq<Bytes>)
    requires Framable(c, ivs, chunks) && |iv| == IV_SIZE && |c.encrypt(iv, chunk)| < MAX_FRAME
    ensures Framable(c, [iv] + ivs, [chunk] + chunks)
    ensures Blob(c, [iv] + ivs, [chunk] + chunks) == Frame(c, iv, chunk) + Blob(c, ivs, chunks)
  {
    assert ([iv] + ivs)[1..] == ivs && ([chunk] + chunks)[1..] == chunks;
  }

  lemma FrameRebuilt(c: Cipher, blob: Bytes, plain: Bytes)
    requires Lawful(c) && |blob| >= IV_SIZE + CHUNK_SIZE_FIELD
    requires var end := IV_SIZE + CHUNK_SIZE_FIELD + UnpackU32(blob[IV_SIZE..IV_SIZE + CHUNK_SIZE_FIELD]);
             end <= |blob| && c.decrypt(blob[..IV_SIZE], blob[IV_SIZE + CHUNK_SIZE_FIELD..end]) == Some(plain)
    ensures var end := IV_SIZE + CHUNK_SIZE_FIELD + UnpackU32(blob[IV_SIZE..IV_SIZE + CHUNK_SIZE_FIELD]);
            && |c.encrypt(blob[..IV_SIZE], plain)| < MAX_FRAME
            && Frame(c, blob[..IV_SIZE], plain) == blob[..end]
  {
    var end := IV_SIZE + CHUNK_SIZE_FIELD + UnpackU32(blob[IV_SIZE..IV_SIZE + CHUNK_SIZE_FIELD]);
    var ct := blob[IV_SIZE + CHUNK_SIZE_FIELD..end];
    assert ct == c.encrypt(blob[..IV_SIZE], plain);
    assert PackU32(|ct|) == blob[IV_SIZE..IV_SIZE + CHUNK_SIZE_FIELD];
    assert blob[..IV_SIZE] + blob[IV_SIZE..IV_SIZE + CHUNK_SIZE_FIELD] + ct == blob[..end];
  }

  // ----- The buffering reader -----

  class AsyncByteStream {
    var source: seq<Bytes>
    var buffer: Bytes
    var exhausted: bool

    constructor (source: seq<Bytes>)
      ensures Valid() && Remaining() == Flatten(source) && fresh(this)
    {
      this.source, this.buffer, this.exhausted := source, [], false;
    }

    ghost predicate Valid()
      reads this
    {
      exhausted ==> source == []
    }

    /** The bytes still to be read, however the source is chunked. */
    ghost function Remaining(): Bytes
      reads this
    {
      buffer + Flatten(source)
    }

    /** The next `size` bytes, or all that remain. */
    method Read(size: nat) returns (result: Bytes)
      requires Valid()
      modifies this
      ensures Valid()
      ensures result == old(Remaining())[..Min(size, |old(Remaining())|)]
      ensures Remaining() == old(Remaining())[Min(size, |old(Remaining())|)..]
    {
      while |buffer| < size && !exhausted
        invariant Valid() && Remaining() == old(Remaining())
        decreases !exhausted, |source|
      {
        if source == [] {
          exhausted := true;
          break;
        }
        var chunk := source[0];
        source := source[1..];
        if chunk != [] {
          assert (buffer + chunk) + Flatten(source) == buffer + (chunk + Flatten(source));
          buffer := buffer + chunk;
        }
      }
      if size <= 0 { return []; }
      var n := Min(size, |buffer|);
      result := buffer[..n];
      buffer := buffer[n..];
    }
  }

  /** Read frame by frame; for every chunking of the source the result is the meaning of the bytes. */
  method DecryptStream(c: Cipher, file: AsyncByteStream) returns (d: Decoded)
    requires file.Valid()
    modifies file
    ensures file.Valid() && d == Decode(c, old(file.Remaining()))
  {
    hide Decode, Unpack, Pack;
    var chunks: seq<Bytes> := [];
    ghost var all := file.Remaining();
    while true
      invariant file.Valid()
      invariant Decode(c, all) ==
                Decoded(chunks + Decode(c, file.Remaining()).chunks, Decode(c, file.Remaining()).error)
      decreases |file.Remaining()|
    {
      ghost var rest := file.Remaining();
      DecodeCases(c, rest);
      var iv := file.Read(IV_SIZE);
      if iv == [] { return Decoded(chunks, None); }
      if |iv| < IV_SIZE { return Decoded(chunks, Some(IncompleteIv)); }
      var sizeBytes := file.Read(CHUNK_SIZE_FIELD);
      if |sizeBytes| < CHUNK_SIZE_FIELD { return Decoded(chunks, Some(IncompleteSize)); }
      var size := UnpackU32(sizeBytes);
      var ciphertext := file.Read(size);
      assert sizeBytes == rest[IV_SIZE..IV_SIZE + CHUNK_SIZE_FIELD];
      if |ciphertext| < size { return Decoded(chunks, Some(IncompletePayload)); }
      var plaintext := c.decrypt(iv, ciphertext);
      ghost var end := IV_SIZE + CHUNK_SIZE_FIELD + size;
      assert ciphertext == rest[IV_SIZE + CHUNK_SIZE_FIELD..end];
      assert file.Remaining() == rest[end..];
      if plaintext.None? { return Decoded(chunks, Some(BadTag)); }
      chunks := chunks + [plaintext.value];
    }
  }

  function TotalLength(chunks: seq<Bytes>): nat {
    if chunks == [] then 0 else |chunks[0]| + TotalLength(chunks[1..])
  }

  lemma {:induction false} TotalLengthOfFlatten(chunks: seq<Bytes>)
    ensures TotalLength(chunks) == |Flatten(chunks)|
  {
    if chunks != [] {
      TotalLengthOfFlatten(chunks[1..]);
    }
  }

  /**
   * Frame each chunk as it comes. A ciphertext too long for its length field
   * stops the stream; otherwise the frames together are the blob, and the count
   * is the number of plaintext bytes.
   */
  method EncryptStream(c: Cipher, ivs: seq<Bytes>, data: seq<Bytes>) returns (frames: Option<seq<Bytes>>, written: nat)
    requires |ivs| == |data| && forall i | 0 <= i < |ivs| :: |ivs[i]| == IV_SIZE
    ensures frames.Some? <==> Writable(c, ivs, data)
    ensures frames.Some? ==> Flatten(frames.value) == Blob(c, ivs, data) && written == |Flatten(data)|
  {
    var out: seq<Bytes> := [];
    written := 0;
    for i := 0 to |data|
      invariant forall j | 0 <= j < i :: |data[j]| <= MAX_CHUNK && |c.encrypt(ivs[j], data[j])| < MAX_FRAME
      invariant |out| == i && forall j | 0 <= j < i :: out[j] == Frame(c, ivs[j], data[j])
      invariant written + TotalLength(data[i..]) == TotalLength(data)
    {
      if |data[i]| > MAX_CHUNK { return None, written; }
      var ct := c.encrypt(ivs[i], data[i]);
      if |ct| >= MAX_FRAME { return None, written; }
      assert data[i..][1..] == data[i + 1..];
      out := out + [ivs[i] + PackU32(|ct|) + ct];
      written := written + |data[i]|;
    }
    assert data[|data|..] == [];
    TotalLengthOfFlatten(data);
    FramesMakeBlob(c, ivs, data, out);
    return Some(out), written;
  }

  lemma {:induction false} FramesMakeBlob(c: Cipher, ivs: seq<Bytes>, data: seq<Bytes>, frames: seq<Bytes>)
    requires Framable(c, ivs, data) && |frames| == |data|
    requires forall j | 0 <= j < |data| :: frames[j] == Frame(c, ivs[j], data[j])
    ensures Flatten(frames) == Blob(c, ivs, data)
  {
    if data != [] {
      FramesMakeBlob(c, ivs[1..], data[1..], frames[1..]);
    }
  }

  /** The size shown for an encrypted file: the plaintext length, or the exception of a damaged blob. */
  method DecryptedFileSize(c: Cipher, file: AsyncByteStream) returns (size: Option<nat>)
    requires file.Valid()
    modifies file
    ensures var d := Decode(c, old(file.Remaining()));
            size == if d.error.None? then Some(|Flatten(d.chunks)|) else None
  {
    var d := DecryptStream(c, file);
    var total := 0;
    for i := 0 to |d.chunks|
      invariant total + TotalLength(d.chunks[i..]) == TotalLength(d.chunks)
    {
      assert d.chunks[i..][1..] == d.chunks[i + 1..];
      total := total + |d.chunks[i]|;
    }
    assert d.chunks[|d.chunks|..] == [];
    TotalLengthOfFlatten(d.chunks);
    return if d.error.None? then Some(total) else None;
  }

  /**
   * Write, store in any pieces, read back: every chunking of the plaintext and
   * every chunking of the stored bytes gives the written chunks and their size.
   */
  method WriteThenRead(c: Cipher, ivs: seq<Bytes>, data: seq<Bytes>, pieces: seq<Bytes>)
    returns (frames: Option<seq<Bytes>>, d: Decoded, size: Option<nat>)
    requires Lawful(c) && |ivs| == |data| && forall i | 0 <= i < |ivs| :: |ivs[i]| == IV_SIZE
    requires Writable(c, ivs, data) ==> Flatten(pieces) == Blob(c, ivs, data)
    ensures frames.Some? <==> Writable(c, ivs, data)
    ensures frames.Some? ==> d == Decoded(data, None) && size == Some(|Flatten(data)|)
  {
    var written;
    frames, written := EncryptStream(c, ivs, data);
    var reader := new AsyncByteStream(pieces);
    d := DecryptStream(c, reader);
    var again := new AsyncByteStream(pieces);
    size := DecryptedFileSize(c, again);
    if frames.Some? {
      RoundTrip(c, ivs, data);
    }
  }
}
