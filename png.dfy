/** The PNG container front end: the signature check and the decoding of one
    chunk (sections 5.2 and 5.3 of the PNG Specification, W3C / ISO/IEC 15948).

    A chunk is laid out as a 4-byte big-endian length L, a 4-byte type label,
    L payload bytes and a 4-byte big-endian CRC field, 12 + L bytes in all.
    Where the C program calls `exit(1)`, the model returns an error value. */
module Png {
  import opened Bytes
  import opened Cursor

  // ---------------------------------------------------------------------------
  // Signature
  // ---------------------------------------------------------------------------

  const MAGIC_HEADER_SZ: nat := 8

  /** The PNG signature `89 50 4E 47 0D 0A 1A 0A`. */
  const MAGIC: seq<byte> := [0x89, 0x50, 0x4E, 0x47, 0x0D, 0x0A, 0x1A, 0x0A]

  /** The byte order of the host, which decides how 8 bytes load as a 64-bit word. */
  datatype Endian = Little | Big

  /** The `uint64_t` that 8 bytes in memory read as on a host of the given order. */
  function LoadU64(b: seq<byte>, host: Endian): (r: nat)
    requires |b| == 8
    ensures r < 0x1_0000_0000_0000_0000
  {
    assert Pow256(|b|) == 0x1_0000_0000_0000_0000 by { Pow256Eight(); }
    match host
    case Little => LittleEndian(b)
    case Big => BigEndian(b)
  }

  lemma Pow256Eight()
    ensures Pow256(8) == 0x1_0000_0000_0000_0000
  {
    assert Pow256(2) == 0x1_0000 by { assert Pow256(1) == 256; }
    assert Pow256(4) == 0x1_0000_0000 by { assert Pow256(3) == 256 * Pow256(2); }
    assert Pow256(6) == 0x1_0000_0000_0000 by { assert Pow256(5) == 256 * Pow256(4); }
    assert Pow256(7) == 256 * Pow256(6);
  }

  /** Comparing two 8-byte strings as 64-bit words, in either byte order, is
      comparing them byte by byte. */
  lemma WordCompareIsByteCompare(a: seq<byte>, b: seq<byte>, host: Endian)
    requires |a| == 8 && |b| == 8
    ensures LoadU64(a, host) == LoadU64(b, host) <==> a == b
  {
    match host
    case Little => LittleEndianInjective(a, b);
    case Big => BigEndianInjective(a, b);
  }

  /** `png_data_is_valid`: one 64-bit compare of the first 8 bytes of the view
      with the signature, which holds exactly when those bytes are the
      signature. The C `assert` that at least 8 bytes are visible is the
      precondition. */
  function PngDataIsValid(data: CursorU8, host: Endian): (r: bool)
    reads data.buf
    requires data.Valid() && data.Size() >= MAGIC_HEADER_SZ
    ensures r <==> data.View()[..MAGIC_HEADER_SZ] == MAGIC
  {
    var first := data.buf[data.begin..data.begin + MAGIC_HEADER_SZ];
    assert first == data.View()[..MAGIC_HEADER_SZ];
    WordCompareIsByteCompare(first, MAGIC, host);
    LoadU64(first, host) == LoadU64(MAGIC, host)
  }

  /** The verdict depends on the first 8 bytes of the view only: neither the
      bytes after them nor the host's byte order change it. */
  lemma SignatureDependsOnFirstEightBytes(d1: CursorU8, d2: CursorU8, h1: Endian, h2: Endian)
    requires d1.Valid() && d1.Size() >= MAGIC_HEADER_SZ
    requires d2.Valid() && d2.Size() >= MAGIC_HEADER_SZ
    requires d1.View()[..MAGIC_HEADER_SZ] == d2.View()[..MAGIC_HEADER_SZ]
    ensures PngDataIsValid(d1, h1) == PngDataIsValid(d2, h2)
  {
  }

  // ---------------------------------------------------------------------------
  // Chunk
  // ---------------------------------------------------------------------------

  const LENGTH_SZ: nat := 4
  const LABEL_SZ: nat := 4
  const CRC_SZ: nat := 4

  /** The smallest chunk: length, label and CRC with an empty payload. */
  const MIN_CHUNK_SZ: nat := LENGTH_SZ + LABEL_SZ + CRC_SZ

  /** A decoded chunk; `tag` is the C `label` field. `data` is the index in the buffer where the payload
      begins: the payload is a view into the buffer, not a copy. */
  datatype Chunk = Chunk(length: u32, tag: seq<byte>, data: nat, crc: u32)

  /** The two ways decoding stops the program. */
  datatype ChunkError =
    | InvalidChunkBlock      // fewer than MIN_CHUNK_SZ bytes are visible
    | LengthLargerThanScope  // the declared length does not fit in the view

  datatype ChunkResult = Ok(chunk: Chunk) | Err(error: ChunkError)

  /** n zero bytes. */
  function Zeros(n: nat): (r: seq<byte>)
    ensures |r| == n && forall i :: 0 <= i < n ==> r[i] == 0
  {
    seq(n, _ => 0)
  }

  /** `strncpy(dst, src, n)` as it fills dst: bytes of src are copied up to the
      first zero byte, and every position from there on is zero. */
  function StrNCpy(src: seq<byte>, n: nat): (r: seq<byte>)
    requires n <= |src|
    ensures |r| == n
  {
    if n == 0 then []
    else if src[0] == 0 then Zeros(n)
    else [src[0]] + StrNCpy(src[1..], n - 1)
  }

  /** Position i of the copy is src[i] when no zero byte comes before it in src,
      and zero otherwise. */
  lemma {:induction false} StrNCpyAt(src: seq<byte>, n: nat, i: nat)
    requires n <= |src| && i < n
    ensures StrNCpy(src, n)[i] == if 0 in src[..i] then 0 else src[i]
  {
    if src[0] == 0 {
      assert i > 0 ==> src[..i][0] == 0;
    } else if i > 0 {
      StrNCpyAt(src[1..], n - 1, i - 1);
      assert src[..i] == [src[0]] + src[1..][..i - 1];
    }
  }

  /** A source with no zero byte among its first n is copied unchanged. */
  lemma StrNCpyWithoutNul(src: seq<byte>, n: nat)
    requires n <= |src| && 0 !in src[..n]
    ensures StrNCpy(src, n) == src[..n]
  {
    forall i | 0 <= i < n
      ensures StrNCpy(src, n)[i] == src[i]
    {
      StrNCpyAt(src, n, i);
      assert 0 !in src[..i] by { assert src[..i] == src[..n][..i]; }
    }
  }

  /** What `chunk_from_bytes` produces from the view `s[begin..end]`, as a
      function: the two guards, then the fields at their fixed offsets. */
  function ChunkAt(s: seq<byte>, begin: nat, end: nat): (r: ChunkResult)
    requires begin <= end <= |s|
    ensures r.Ok? ==> begin + MIN_CHUNK_SZ + r.chunk.length <= end
  {
    if end - begin < MIN_CHUNK_SZ then Err(InvalidChunkBlock)
    else
      var length := BeU32(s[begin..begin + LENGTH_SZ]);
      if end - begin < MIN_CHUNK_SZ + length then Err(LengthLargerThanScope)
      else
        var labelAt := begin + LENGTH_SZ;
        var dataAt := labelAt + LABEL_SZ;
        var crcAt := dataAt + length;
        Ok(Chunk(length, StrNCpy(s[labelAt..dataAt], LABEL_SZ), dataAt, BeU32(s[crcAt..crcAt + CRC_SZ])))
  }

  /** The payload bytes of a chunk decoded from s. */
  function Payload(s: seq<byte>, c: Chunk): seq<byte>
    requires c.data + c.length <= |s|
  {
    s[c.data..c.data + c.length]
  }

  /** Decoding fails with InvalidChunkBlock exactly when fewer than 12 bytes are
      visible, and with LengthLargerThanScope exactly when 12 are but not the
      12 + length that the length field declares. */
  lemma ChunkAtErrors(s: seq<byte>, begin: nat, end: nat)
    requires begin <= end <= |s|
    ensures ChunkAt(s, begin, end) == Err(InvalidChunkBlock) <==> end - begin < MIN_CHUNK_SZ
    ensures ChunkAt(s, begin, end) == Err(LengthLargerThanScope) <==>
              end - begin >= MIN_CHUNK_SZ && end - begin < MIN_CHUNK_SZ + BeU32(s[begin..begin + LENGTH_SZ])
    ensures ChunkAt(s, begin, end).Ok? <==>
              end - begin >= MIN_CHUNK_SZ && end - begin >= MIN_CHUNK_SZ + BeU32(s[begin..begin + LENGTH_SZ])
  {
  }

  /** On success the chunk occupies exactly `s[begin .. begin + 12 + length]`
      inside the view: the big-endian length at offset 0, the label copied from
      offsets 4..8, a payload of exactly `length` bytes at offset 8 and the
      big-endian CRC right after it. */
  lemma ChunkAtLayout(s: seq<byte>, begin: nat, end: nat)
    requires begin <= end <= |s| && ChunkAt(s, begin, end).Ok?
    ensures var c := ChunkAt(s, begin, end).chunk;
      && c.length == BeU32(s[begin..begin + LENGTH_SZ])
      && c.tag == StrNCpy(s[begin + LENGTH_SZ..begin + LENGTH_SZ + LABEL_SZ], LABEL_SZ)
      && |c.tag| == LABEL_SZ
      && c.data == begin + LENGTH_SZ + LABEL_SZ
      && |Payload(s, c)| == c.length
      && c.crc == BeU32(s[c.data + c.length..c.data + c.length + CRC_SZ])
      && c.data + c.length + CRC_SZ == begin + MIN_CHUNK_SZ + c.length <= end
  {
  }

  /** Decoding reads nothing outside `[begin, end)`: two buffers that agree on the
      view decode to the same chunk. */
  lemma ChunkAtReadsOnlyView(s1: seq<byte>, s2: seq<byte>, begin: nat, end: nat)
    requires begin <= end <= |s1| && end <= |s2|
    requires s1[begin..end] == s2[begin..end]
    ensures ChunkAt(s1, begin, end) == ChunkAt(s2, begin, end)
  {
    if end - begin >= MIN_CHUNK_SZ {
      SubSlice(s1, s2, begin, end, begin, begin + LENGTH_SZ);
      SubSlice(s1, s2, begin, end, begin + LENGTH_SZ, begin + LENGTH_SZ + LABEL_SZ);
      var length := BeU32(s1[begin..begin + LENGTH_SZ]);
      if end - begin >= MIN_CHUNK_SZ + length {
        var crcAt := begin + LENGTH_SZ + LABEL_SZ + length;
        SubSlice(s1, s2, begin, end, crcAt, crcAt + CRC_SZ);
      }
    }
  }

  /** Two sequences that agree on [lo, hi) agree on every slice inside it. */
  lemma SubSlice(s1: seq<byte>, s2: seq<byte>, lo: nat, hi: nat, i: nat, j: nat)
    requires lo <= i <= j <= hi <= |s1| && hi <= |s2|
    requires s1[lo..hi] == s2[lo..hi]
    ensures s1[i..j] == s2[i..j]
  {
    forall k | i <= k < j
      ensures s1[k] == s2[k]
    {
      assert s1[k] == s1[lo..hi][k - lo] && s2[k] == s2[lo..hi][k - lo];
    }
  }

  /** A slice of `pre + x + post` that lies within x is the slice of x. */
  lemma SliceOfMiddle(pre: seq<byte>, x: seq<byte>, post: seq<byte>, i: nat, j: nat)
    requires i <= j <= |x|
    ensures (pre + x + post)[|pre| + i..|pre| + j] == x[i..j]
  {
    var s := pre + x + post;
    forall k | i <= k < j
      ensures s[|pre| + k] == x[k]
    {
    }
  }

  /** The bytes of a chunk with the given tag, payload and CRC field. */
  function EncodeChunk(tag: seq<byte>, payload: seq<byte>, crc: u32): (r: seq<byte>)
    requires |tag| == LABEL_SZ && |payload| < 0x1_0000_0000
    ensures |r| == MIN_CHUNK_SZ + |payload|
  {
    U32ToBytes(|payload|) + tag + payload + U32ToBytes(crc)
  }

  /** An encoded chunk, with any bytes before and after it, decodes back to its
      length, tag, payload and CRC, provided the label holds no zero byte. */
  lemma DecodeEncodedChunk(pre: seq<byte>, tag: seq<byte>, payload: seq<byte>, crc: u32, post: seq<byte>)
    requires |tag| == LABEL_SZ && 0 !in tag && |payload| < 0x1_0000_0000
    ensures var s := pre + EncodeChunk(tag, payload, crc) + post;
      && ChunkAt(s, |pre|, |s|) == Ok(Chunk(|payload|, tag, |pre| + LENGTH_SZ + LABEL_SZ, crc))
      && Payload(s, ChunkAt(s, |pre|, |s|).chunk) == payload
  {
    var enc := EncodeChunk(tag, payload, crc);
    var s := pre + enc + post;
    var n := |payload|;
    assert enc == U32ToBytes(n) + tag + payload + U32ToBytes(crc);
    assert enc[0..4] == U32ToBytes(n);
    assert enc[4..8] == tag;
    assert enc[8..8 + n] == payload;
    assert enc[8 + n..12 + n] == U32ToBytes(crc);
    SliceOfMiddle(pre, enc, post, 0, 4);
    SliceOfMiddle(pre, enc, post, 4, 8);
    SliceOfMiddle(pre, enc, post, 8, 8 + n);
    SliceOfMiddle(pre, enc, post, 8 + n, 12 + n);
    StrNCpyWithoutNul(tag, LABEL_SZ);
    assert tag[..LABEL_SZ] == tag;
  }

  /** Conversely, a decoded chunk whose label bytes hold no zero re-encodes to
      exactly the 12 + length bytes it was decoded from. */
  lemma DecodedChunkReencodes(s: seq<byte>, begin: nat, end: nat)
    requires begin <= end <= |s| && ChunkAt(s, begin, end).Ok?
    requires 0 !in s[begin + LENGTH_SZ..begin + LENGTH_SZ + LABEL_SZ]
    ensures var c := ChunkAt(s, begin, end).chunk;
      EncodeChunk(c.tag, Payload(s, c), c.crc) == s[begin..begin + MIN_CHUNK_SZ + c.length]
  {
    var c := ChunkAt(s, begin, end).chunk;
    ChunkAtLayout(s, begin, end);
    var n: nat := c.length;
    var crcAt := c.data + n;
    var labelBytes := s[begin + 4..begin + 8];
    StrNCpyWithoutNul(labelBytes, LABEL_SZ);
    assert labelBytes[..LABEL_SZ] == labelBytes;
    BytesU32RoundTrip(s[begin..begin + 4]);
    BytesU32RoundTrip(s[crcAt..crcAt + 4]);
    SplitChunkBytes(s, begin, n);
  }

  /** The `12 + n` bytes from begin are the four fields of a chunk in order. */
  lemma SplitChunkBytes(s: seq<byte>, begin: nat, n: nat)
    requires begin + MIN_CHUNK_SZ + n <= |s|
    ensures s[begin..begin + MIN_CHUNK_SZ + n]
         == s[begin..begin + 4] + s[begin + 4..begin + 8] + s[begin + 8..begin + 8 + n]
            + s[begin + 8 + n..begin + 12 + n]
  {
    var t := s[begin..begin + MIN_CHUNK_SZ + n];
    SliceOfSlice(s, begin, begin + MIN_CHUNK_SZ + n, 0, 4);
    SliceOfSlice(s, begin, begin + MIN_CHUNK_SZ + n, 4, 8);
    SliceOfSlice(s, begin, begin + MIN_CHUNK_SZ + n, 8, 8 + n);
    SliceOfSlice(s, begin, begin + MIN_CHUNK_SZ + n, 8 + n, 12 + n);
    assert t == t[0..4] + t[4..8] + t[8..8 + n] + t[8 + n..12 + n];
  }

  /** A slice of a slice is a slice of the whole. */
  lemma SliceOfSlice(s: seq<byte>, lo: nat, hi: nat, i: nat, j: nat)
    requires lo <= hi <= |s| && i <= j <= hi - lo
    ensures s[lo..hi][i..j] == s[lo + i..lo + j]
  {
    forall k | 0 <= k < j - i
      ensures s[lo..hi][i..j][k] == s[lo + i..lo + j][k]
    {
    }
  }

  /** `chunk_from_bytes`: decodes one chunk from the view, advancing a local copy
      of `begin` past each field in turn. The cursor is passed by value and the
      buffer is only read, so the caller's cursor and buffer are unchanged. */
  method ChunkFromBytes(data: CursorU8) returns (r: ChunkResult)
    requires data.Valid()
    ensures r == ChunkAt(data.buf[..], data.begin, data.end)
  {
    var begin := data.begin;
    if data.end - begin < MIN_CHUNK_SZ {
      return Err(InvalidChunkBlock);
    }

    var length: u32 := data.buf[begin] as int * 0x100_0000
                     + data.buf[begin + 1] as int * 0x1_0000
                     + data.buf[begin + 2] as int * 0x100
                     + data.buf[begin + 3];
    assert data.buf[..][begin..begin + LENGTH_SZ] == data.buf[begin..begin + LENGTH_SZ];

    if data.end - begin < MIN_CHUNK_SZ + length {
      return Err(LengthLargerThanScope);
    }
    begin := begin + LENGTH_SZ;

    var tag := StrNCpy(data.buf[begin..begin + LABEL_SZ], LABEL_SZ);
    begin := begin + LABEL_SZ;

    var payload := begin;
    begin := begin + length;

    var crc: u32 := data.buf[begin] as int * 0x100_0000
                  + data.buf[begin + 1] as int * 0x1_0000
                  + data.buf[begin + 2] as int * 0x100
                  + data.buf[begin + 3];
    assert data.buf[..][begin..begin + CRC_SZ] == data.buf[begin..begin + CRC_SZ];

    return Ok(Chunk(length, tag, payload, crc));
  }

  /** `png_from_bytes`: decodes the first chunk of the bytes after the signature,
      and only that one. Its printed dump reads payload bytes `data[0..length)`,
      which lie inside the view whenever decoding succeeds. */
  method PngFromBytes(data: CursorU8) returns (ihdr: ChunkResult)
    requires data.Valid()
    ensures ihdr == ChunkAt(data.buf[..], data.begin, data.end)
    ensures ihdr.Ok? ==> data.begin <= ihdr.chunk.data && ihdr.chunk.data + ihdr.chunk.length <= data.end
  {
    ihdr := ChunkFromBytes(data);
  }

  // ---------------------------------------------------------------------------
  // The length guard as compiled for a given `size_t`
  // ---------------------------------------------------------------------------

  /** The width of the target's `size_t`. */
  datatype SizeT = Size32 | Size64

  function SizeModulus(w: SizeT): nat
  {
    match w
    case Size32 => 0x1_0000_0000
    case Size64 => 0x1_0000_0000_0000_0000
  }

  /** The second guard of `chunk_from_bytes` as written: it fails when the
      visible byte count is below `MIN_CHUNK_SZ + length`, a sum computed in
      `size_t` and so reduced modulo 2 to the width of `size_t`. */
  function LengthGuardFailsAsWritten(avail: nat, length: u32, w: SizeT): (fails: bool)
    ensures fails ==> avail < MIN_CHUNK_SZ + length
    ensures MIN_CHUNK_SZ + length < SizeModulus(w) ==> (fails <==> avail < MIN_CHUNK_SZ + length)
  {
    avail < (MIN_CHUNK_SZ + length) % SizeModulus(w)
  }

  /** With a 64-bit `size_t` the sum cannot wrap, and the guard is the exact
      comparison that ChunkAt makes. */
  lemma LengthGuardExactWith64BitSize(avail: nat, length: u32)
    ensures LengthGuardFailsAsWritten(avail, length, Size64) <==> avail < MIN_CHUNK_SZ + length
  {
  }

  /** With a 32-bit `size_t` the sum wraps: a 12-byte view whose length field
      is `FF FF FF F4` passes the guard, though the exact decoder rejects it
      because the chunk it declares is far longer than the view; the CRC is
      then read from outside the view. */
  lemma LengthGuardWrapsWith32BitSize(s: seq<byte>)
    requires |s| == MIN_CHUNK_SZ && s[..LENGTH_SZ] == [0xFF, 0xFF, 0xFF, 0xF4]
    ensures !LengthGuardFailsAsWritten(|s|, BeU32(s[..LENGTH_SZ]), Size32)
    ensures ChunkAt(s, 0, |s|) == Err(LengthLargerThanScope)
  {
  }

  /** Every length whose sum wraps in a 32-bit `size_t` has first byte 0xFF, so
      its decoding as written at the first `<< 24` is already undefined: the
      wrap is reached only when the compiler gives that shift its
      two's-complement result. */
  lemma LengthGuardWrapNeedsUndefinedShift(avail: nat, s: seq<byte>)
    requires |s| == LENGTH_SZ
    requires LengthGuardFailsAsWritten(avail, BeU32(s), Size32) != (avail < MIN_CHUNK_SZ + BeU32(s))
    ensures s[0] == 0xFF
    ensures BeU32AsWritten(s[0], s[1], s[2], s[3]) == None
  {
  }
}
