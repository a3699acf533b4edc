/** The archive writer (`TarOutput` in src/main.rs): fixed 512-byte ustar
    headers with the old-GNU magic, the header checksum, GNU `L` long-name
    records for names over 100 bytes, file content streamed in chunks and
    zero-padded to the block size, the SHA-512 digest listing, and the end
    marker. */
module Tar {
  import opened Bytes

  /** The tar block size: every header, and every padded payload, is a
      multiple of it. */
  const BLOCK: nat := 512
  /** Width of the header's name field; longer names need a long-name record. */
  const NAME_FIELD: nat := 100
  /** Offset of the eight-byte checksum field. */
  const CHECKSUM_OFFSET: nat := 148
  /** Ten zero blocks close the archive, as GNU tar writes them. */
  const END_MARKER_BLOCKS: nat := 10

  const TYPE_FILE: byte := 48       // '0'
  const TYPE_DIRECTORY: byte := 53  // '5'
  const TYPE_LONG_NAME: byte := 76  // 'L'

  /** The bytes of an ASCII string literal. */
  function Ascii(s: string): (r: seq<byte>)
    requires forall i :: 0 <= i < |s| ==> s[i] as int < 256
    ensures |r| == |s|
  {
    seq(|s|, i requires 0 <= i < |s| => s[i] as int)
  }

  const LONG_LINK_NAME: seq<byte> := Ascii("././@LongLink")
  const MODE_DIRECTORY: seq<byte> := Ascii("0000755") + [0]
  const MODE_FILE: seq<byte> := Ascii("0000644") + [0]
  const ID_ROOT: seq<byte> := Ascii("0000000") + [0]
  const SIZE_ZERO: seq<byte> := Ascii("00000000000") + [0]
  const MAGIC: seq<byte> := Ascii("ustar  ") + [0]
  const OWNER_ROOT: seq<byte> := Ascii("root")
  const CHECKSUM_BLANK: seq<byte> := Repeat(ASCII_SPACE, 8)

  datatype Field = SizeField | LongNameSizeField

  datatype TarError =
    | FieldOverflow(field: Field)          // a number needs more octal digits than its field holds
    | SizeMismatch(declared: nat, read: nat) // the file delivered a different number of bytes than stated

  datatype WriteResult = Written | Failed(error: TarError)

  /** A piece of file content as one `read` into the 512-byte buffer returns it. */
  type Chunk = c: seq<byte> | 0 < |c| <= BLOCK witness [0]

  // ---------------------------------------------------------------------------
  // Header layout
  // ---------------------------------------------------------------------------

  function Min(a: nat, b: nat): nat
  {
    if a < b then a else b
  }

  /** The name field: the first (at most) 100 bytes of the name, zero-filled. */
  function NameField(name: seq<byte>): (r: seq<byte>)
    ensures |r| == NAME_FIELD
  {
    name[..Min(|name|, NAME_FIELD)] + Zeros(NAME_FIELD - Min(|name|, NAME_FIELD))
  }

  /** A 12-byte size field: eleven octal digits and a NUL. It has twelve bytes
      only when the number is below 8^11 (otherwise the writer's
      `clone_from_slice` into the field panics). */
  function OctalSizeField(n: nat): seq<byte>
  {
    FormatOctal(n, 11) + [0]
  }

  /** The header before its checksum is fixed: every field at its ustar
      offset, the checksum field holding eight spaces, everything else zero. */
  function RawHeader(name: seq<byte>, mode: seq<byte>, size: seq<byte>, typeflag: byte): seq<byte>
    requires |mode| == 8 && |size| == 12
  {
    NameField(name)     //   0..100 name
    + mode              // 100..108 mode
    + ID_ROOT           // 108..116 uid
    + ID_ROOT           // 116..124 gid
    + size              // 124..136 size
    + Zeros(12)         // 136..148 mtime
    + CHECKSUM_BLANK    // 148..156 checksum
    + [typeflag]        // 156      typeflag
    + Zeros(100)        // 157..257 linkname
    + MAGIC             // 257..265 magic and version
    + OWNER_ROOT        // 265..269 owner name
    + Zeros(28)         // 269..297
    + OWNER_ROOT        // 297..301 group name
    + Zeros(211)        // 301..512
  }

  /** The checksum field for a byte sum: six octal digits, NUL, space. */
  function ChecksumField(sum: nat): seq<byte>
  {
    FormatOctal(sum, 6) + [0, ASCII_SPACE]
  }

  /** The header after the checksum pass: bytes 148..156 replaced by the
      checksum field of the sum of all 512 bytes. */
  function WithChecksum(h: seq<byte>): (r: seq<byte>)
    requires |h| == BLOCK
    ensures |r| == BLOCK
  {
    SumBound(h);
    FormatOctalLength(Sum(h), 6);
    h[..CHECKSUM_OFFSET] + ChecksumField(Sum(h)) + h[CHECKSUM_OFFSET + 8..]
  }

  /** A finished header. */
  function Header(name: seq<byte>, mode: seq<byte>, size: seq<byte>, typeflag: byte): (r: seq<byte>)
    requires |mode| == 8 && |size| == 12
    ensures |r| == BLOCK
  {
    RawHeaderLength(name, mode, size, typeflag);
    WithChecksum(RawHeader(name, mode, size, typeflag))
  }

  lemma RawHeaderLength(name: seq<byte>, mode: seq<byte>, size: seq<byte>, typeflag: byte)
    requires |mode| == 8 && |size| == 12
    ensures |RawHeader(name, mode, size, typeflag)| == BLOCK
  {
  }

  // ---------------------------------------------------------------------------
  // Records
  // ---------------------------------------------------------------------------

  /** Zero bytes that bring `n` up to the next multiple of the block size. */
  function Padding(n: nat): (p: nat)
    ensures p < BLOCK && (n + p) % BLOCK == 0
    ensures n % BLOCK == 0 ==> p == 0
  {
    (BLOCK - n % BLOCK) % BLOCK
  }

  /** The long-name length fits the long-name record's size field. */
  predicate LongNameFits(name: seq<byte>)
  {
    |name| <= NAME_FIELD || |name| < Pow8(11)
  }

  /** GNU long-name record: a header named "././@LongLink" with typeflag 'L'
      whose size field is the name length, then the full name, zero-padded. */
  function LongNameRecord(name: seq<byte>, mode: seq<byte>): seq<byte>
    requires |mode| == 8 && |name| < Pow8(11)
  {
    FormatOctalLength(|name|, 11);
    Header(LONG_LINK_NAME, mode, OctalSizeField(|name|), TYPE_LONG_NAME) + name + Zeros(Padding(|name|))
  }

  /** The long-name record, present only for names over 100 bytes. */
  function LongNamePart(name: seq<byte>, mode: seq<byte>): seq<byte>
    requires |mode| == 8 && LongNameFits(name)
  {
    if |name| > NAME_FIELD then LongNameRecord(name, mode) else []
  }

  function DirectoryHeader(name: seq<byte>): seq<byte>
  {
    Header(name, MODE_DIRECTORY, SIZE_ZERO, TYPE_DIRECTORY)
  }

  function FileHeader(name: seq<byte>, size: nat): seq<byte>
    requires size < Pow8(11)
  {
    FormatOctalLength(size, 11);
    Header(name, MODE_FILE, OctalSizeField(size), TYPE_FILE)
  }

  /** Everything `tar_write_dir` appends for a directory member. */
  function DirectoryRecord(name: seq<byte>): seq<byte>
    requires LongNameFits(name)
  {
    LongNamePart(name, MODE_DIRECTORY) + DirectoryHeader(name)
  }

  /** Everything `tar_write_file` appends for a file whose content is read in
      full and matches its declared size. */
  function FileRecord(name: seq<byte>, content: seq<byte>): seq<byte>
    requires LongNameFits(name) && |content| < Pow8(11)
  {
    LongNamePart(name, MODE_FILE) + FileHeader(name, |content|) + content + Zeros(Padding(|content|))
  }

  /** The line the digest listing gets for a file. */
  function DigestLine(digest: seq<byte>, name: seq<byte>): seq<byte>
  {
    Hex(digest) + [ASCII_SPACE, ASCII_SPACE] + name + [ASCII_NEWLINE]
  }

  /** The outcome of writing a file member, in the order `tar_write_file`
      checks:
      long-name size field, size field, then the byte count after reading. */
  function FileResult(name: seq<byte>, size: nat, content: seq<byte>): WriteResult
  {
    if !LongNameFits(name) then Failed(FieldOverflow(LongNameSizeField))
    else if size >= Pow8(11) then Failed(FieldOverflow(SizeField))
    else if |content| != size then Failed(SizeMismatch(size, |content|))
    else Written
  }

  /** The bytes a file member puts on the archive sink, including what was
      already written when the write fails. */
  function FileOutput(name: seq<byte>, size: nat, content: seq<byte>): seq<byte>
  {
    if !LongNameFits(name) then [] else LongNamePart(name, MODE_FILE) + FileBody(name, size, content)
  }

  /** What a file member puts on the archive sink after its long-name record:
      nothing when the size does not fit its field, the header and the content
      (no padding) when the content length differs from the declared size,
      and otherwise header, content and padding. */
  function FileBody(name: seq<byte>, size: nat, content: seq<byte>): seq<byte>
  {
    if size >= Pow8(11) then []
    else if |content| != size then FileHeader(name, size) + content
    else FileHeader(name, size) + content + Zeros(Padding(size))
  }

  /** The bytes of the chunks, in order. */
  function Concat(chunks: seq<Chunk>): seq<byte>
  {
    if chunks == [] then [] else Concat(chunks[..|chunks| - 1]) + chunks[|chunks| - 1]
  }

  lemma ConcatStep(chunks: seq<Chunk>, i: nat)
    requires i < |chunks|
    ensures Concat(chunks[..i + 1]) == Concat(chunks[..i]) + chunks[i]
  {
    assert chunks[..i + 1][..i] == chunks[..i];
  }

  // ---------------------------------------------------------------------------
  // In-place header construction
  // ---------------------------------------------------------------------------

  /** `dst[offset..offset + |src|].clone_from_slice(src)`. */
  method Put(dst: array<byte>, offset: nat, src: seq<byte>)
    requires offset + |src| <= dst.Length
    modifies dst
    ensures forall i :: 0 <= i < dst.Length ==>
              dst[i] == if offset <= i < offset + |src| then src[i - offset] else old(dst[i])
  {
    forall i | 0 <= i < |src| {
      dst[offset + i] := src[i];
    }
  }

  /** Builds a header in a fresh zeroed 512-byte buffer by writing each field
      in place, as `tar_write_dir` and `tar_write_file` do before the
      checksum pass. */
  method NewHeader(name: seq<byte>, mode: seq<byte>, size: seq<byte>, typeflag: byte) returns (h: array<byte>)
    requires |mode| == 8 && |size| == 12
    ensures fresh(h) && h[..] == RawHeader(name, mode, size, typeflag)
  {
    h := new byte[BLOCK](_ => 0);
    var k := Min(|name|, NAME_FIELD);
    Put(h, 0, name[..k]);
    Put(h, 100, mode);
    Put(h, 108, ID_ROOT);
    Put(h, 116, ID_ROOT);
    Put(h, 124, size);
    Put(h, CHECKSUM_OFFSET, CHECKSUM_BLANK);
    h[156] := typeflag;
    Put(h, 257, MAGIC);
    Put(h, 265, OWNER_ROOT);
    Put(h, 297, OWNER_ROOT);
    ghost var raw := RawHeader(name, mode, size, typeflag);
    RawHeaderAt(name, mode, size, typeflag);
    forall i | 0 <= i < BLOCK
      ensures h[i] == raw[i]
    {
      if i < 124 {
        if i < k {} else if i < 100 {} else if i < 108 {} else if i < 116 {} else {}
      } else if i < 257 {
        if i < 136 {} else if i < 148 {} else if i < 156 {} else if i == 156 {} else {}
      } else {
        if i < 265 {} else if i < 269 {} else if i < 297 {} else if i < 301 {} else {}
      }
    }
    assert h[..] == raw;
  }

  /** The raw header byte by byte, range by range. */
  lemma RawHeaderAt(name: seq<byte>, mode: seq<byte>, size: seq<byte>, typeflag: byte)
    requires |mode| == 8 && |size| == 12
    ensures var r := RawHeader(name, mode, size, typeflag);
      && |r| == BLOCK
      && (forall i :: 0 <= i < Min(|name|, NAME_FIELD) ==> r[i] == name[i])
      && (forall i :: Min(|name|, NAME_FIELD) <= i < 100 ==> r[i] == 0)
      && (forall i :: 100 <= i < 108 ==> r[i] == mode[i - 100])
      && (forall i :: 108 <= i < 116 ==> r[i] == ID_ROOT[i - 108])
      && (forall i :: 116 <= i < 124 ==> r[i] == ID_ROOT[i - 116])
      && (forall i :: 124 <= i < 136 ==> r[i] == size[i - 124])
      && (forall i :: 136 <= i < 148 ==> r[i] == 0)
      && (forall i :: 148 <= i < 156 ==> r[i] == ASCII_SPACE)
      && r[156] == typeflag
      && (forall i :: 157 <= i < 257 ==> r[i] == 0)
      && (forall i :: 257 <= i < 265 ==> r[i] == MAGIC[i - 257])
      && (forall i :: 265 <= i < 269 ==> r[i] == OWNER_ROOT[i - 265])
      && (forall i :: 269 <= i < 297 ==> r[i] == 0)
      && (forall i :: 297 <= i < 301 ==> r[i] == OWNER_ROOT[i - 297])
      && (forall i :: 301 <= i < 512 ==> r[i] == 0)
  {
  }

  /** `_tar_fix_header_checksum`: sums all bytes of the header, then writes
      the sum as six octal digits, NUL and space over bytes 148..156. */
  method FixHeaderChecksum(header: array<byte>)
    requires header.Length == BLOCK
    modifies header
    ensures header[..] == WithChecksum(old(header[..]))
  {
    var sum: nat := 0;
    var i := 0;
    while i < header.Length
      invariant 0 <= i <= header.Length
      invariant header[..] == old(header[..])
      invariant sum == Sum(header[..i])
    {
      SumPrefixStep(header[..], i);
      sum := sum + header[i];
      i := i + 1;
    }
    assert header[..i] == header[..];
    ghost var before := header[..];
    SumBound(before);
    FormatOctalLength(sum, 6);
    Put(header, CHECKSUM_OFFSET, ChecksumField(sum));
    assert header[..] == before[..CHECKSUM_OFFSET] + ChecksumField(sum) + before[CHECKSUM_OFFSET + 8..];
  }

  // ---------------------------------------------------------------------------
  // Properties of the layout
  // ---------------------------------------------------------------------------

  /** A 512-byte header sums to at most 512 * 255, which is below 8^6: the
      checksum always fits its six octal digits. */
  lemma ChecksumFits(h: seq<byte>)
    requires |h| == BLOCK
    ensures Sum(h) <= BLOCK * 255 < Pow8(6)
  {
    SumBound(h);
    assert Pow8(6) == 262144;
  }

  /** For a sum below 8^6 the checksum field is exactly eight bytes: six
      octal digits spelling the sum, a NUL and a space. */
  lemma ChecksumFieldShape(sum: nat)
    requires sum < Pow8(6)
    ensures |ChecksumField(sum)| == 8
    ensures ParseOctal(ChecksumField(sum)[..6]) == sum
    ensures forall i :: 0 <= i < 6 ==> IsOctalDigit(ChecksumField(sum)[i])
    ensures ChecksumField(sum)[6] == 0 && ChecksumField(sum)[7] == ASCII_SPACE
  {
    FormatOctalLength(sum, 6);
    FormatOctalRoundTrip(sum, 6);
    assert ChecksumField(sum)[..6] == FormatOctal(sum, 6);
  }

  /** The checksum pass changes only bytes 148..156, and what it writes there
      is what a reader checks: the octal digits equal the sum of the finished
      header with its checksum field counted as eight spaces. */
  lemma ChecksumValid(h: seq<byte>)
    requires |h| == BLOCK && h[CHECKSUM_OFFSET..CHECKSUM_OFFSET + 8] == CHECKSUM_BLANK
    ensures var r := WithChecksum(h);
      && |r| == BLOCK
      && r[..CHECKSUM_OFFSET] == h[..CHECKSUM_OFFSET]
      && r[CHECKSUM_OFFSET + 8..] == h[CHECKSUM_OFFSET + 8..]
      && ParseOctal(r[CHECKSUM_OFFSET..CHECKSUM_OFFSET + 6]) == Sum(r[..CHECKSUM_OFFSET] + CHECKSUM_BLANK + r[CHECKSUM_OFFSET + 8..])
      && r[CHECKSUM_OFFSET + 6] == 0 && r[CHECKSUM_OFFSET + 7] == ASCII_SPACE
  {
    var r := WithChecksum(h);
    ChecksumFits(h);
    ChecksumFieldShape(Sum(h));
    assert r[CHECKSUM_OFFSET..CHECKSUM_OFFSET + 8] == ChecksumField(Sum(h));
    assert r[CHECKSUM_OFFSET..CHECKSUM_OFFSET + 6] == ChecksumField(Sum(h))[..6];
    assert h == h[..CHECKSUM_OFFSET] + CHECKSUM_BLANK + h[CHECKSUM_OFFSET + 8..];
  }

  /** A finished regular or long-name header: 512 bytes, the name's first
      (at most) 100 bytes then zeros, the mode, root ownership, the size field,
      the typeflag, the old-GNU magic, the owner and group names "root", zeros
      everywhere else, and a checksum a reader accepts. */
  lemma HeaderLayout(name: seq<byte>, mode: seq<byte>, size: seq<byte>, typeflag: byte)
    requires |mode| == 8 && |size| == 12
    ensures var r := Header(name, mode, size, typeflag);
      var k := Min(|name|, NAME_FIELD);
      && |r| == BLOCK
      && r[..k] == name[..k]
      && r[k..100] == Zeros(100 - k)
      && r[100..108] == mode
      && r[108..116] == ID_ROOT && r[116..124] == ID_ROOT
      && r[124..136] == size
      && r[136..148] == Zeros(12)
      && r[156] == typeflag
      && r[157..257] == Zeros(100)
      && r[257..265] == MAGIC
      && r[265..269] == OWNER_ROOT
      && r[269..297] == Zeros(28)
      && r[297..301] == OWNER_ROOT
      && r[301..] == Zeros(211)
      && ParseOctal(r[CHECKSUM_OFFSET..CHECKSUM_OFFSET + 6]) == Sum(r[..CHECKSUM_OFFSET] + CHECKSUM_BLANK + r[CHECKSUM_OFFSET + 8..])
      && r[CHECKSUM_OFFSET + 6] == 0 && r[CHECKSUM_OFFSET + 7] == ASCII_SPACE
  {
    var raw := RawHeader(name, mode, size, typeflag);
    RawHeaderAt(name, mode, size, typeflag);
    assert raw[CHECKSUM_OFFSET..CHECKSUM_OFFSET + 8] == CHECKSUM_BLANK;
    ChecksumValid(raw);
    var r := WithChecksum(raw);
    assert r[..CHECKSUM_OFFSET] == raw[..CHECKSUM_OFFSET];
    assert r[CHECKSUM_OFFSET + 8..] == raw[CHECKSUM_OFFSET + 8..];
    forall i | 0 <= i < CHECKSUM_OFFSET
      ensures r[i] == raw[i]
    {
      assert r[..CHECKSUM_OFFSET][i] == raw[..CHECKSUM_OFFSET][i];
    }
    forall i | CHECKSUM_OFFSET + 8 <= i < BLOCK
      ensures r[i] == raw[i]
    {
      assert r[CHECKSUM_OFFSET + 8..][i - (CHECKSUM_OFFSET + 8)] == raw[CHECKSUM_OFFSET + 8..][i - (CHECKSUM_OFFSET + 8)];
    }
    var k := Min(|name|, NAME_FIELD);
    assert r[..k] == name[..k];
    assert r[k..100] == Zeros(100 - k);
    assert r[100..108] == mode;
    assert r[108..116] == ID_ROOT && r[116..124] == ID_ROOT;
    assert r[124..136] == size;
    assert r[136..148] == Zeros(12);
    assert r[156] == typeflag;
    assert r[157..257] == Zeros(100);
    assert r[257..265] == MAGIC;
    assert r[265..269] == OWNER_ROOT;
    assert r[269..297] == Zeros(28);
    assert r[297..301] == OWNER_ROOT;
    assert r[301..] == Zeros(211);
  }

  /** The size field of a file header spells the size in eleven octal digits
      and a NUL when the size is below 8^11; a larger size gives a longer
      string that does not fit the 12-byte field. */
  lemma SizeFieldValue(n: nat)
    ensures n < Pow8(11) ==>
      && |OctalSizeField(n)| == 12
      && ParseOctal(OctalSizeField(n)[..11]) == n
      && (forall i :: 0 <= i < 11 ==> IsOctalDigit(OctalSizeField(n)[i]))
      && OctalSizeField(n)[11] == 0
    ensures n >= Pow8(11) ==> |OctalSizeField(n)| > 12
  {
    FormatOctalLength(n, 11);
    FormatOctalRoundTrip(n, 11);
    assert OctalSizeField(n)[..|OctalSizeField(n)| - 1] == FormatOctal(n, 11);
  }

  /** A directory header's size field reads as zero. */
  lemma DirectorySizeIsZero()
    ensures |SIZE_ZERO| == 12 && ParseOctal(SIZE_ZERO[..11]) == 0 && SIZE_ZERO[11] == 0
  {
    assert SIZE_ZERO[..11] == Repeat(ASCII_ZERO, 11);
    ParseOctalZeros(11);
  }

  /** Every directory record is a whole number of blocks: one header, plus,
      for a name over 100 bytes, a long-name header and the name padded to a
      block boundary. */
  lemma DirectoryRecordAligned(name: seq<byte>)
    requires LongNameFits(name)
    ensures |DirectoryRecord(name)| % BLOCK == 0
    ensures |DirectoryRecord(name)| == if |name| > NAME_FIELD then 2 * BLOCK + |name| + Padding(|name|) else BLOCK
  {
    var l := LongNamePart(name, MODE_DIRECTORY);
    assert |DirectoryRecord(name)| == |l| + BLOCK;
    if |name| > NAME_FIELD {
      LongNameRecordLength(name, MODE_DIRECTORY);
    }
    RecordBlocks(|name|, 0, |name| > NAME_FIELD);
  }

  /** Every complete file record is a whole number of blocks: the long-name
      record when needed, one header, and the content padded to a block
      boundary. */
  lemma FileRecordAligned(name: seq<byte>, content: seq<byte>)
    requires LongNameFits(name) && |content| < Pow8(11)
    ensures |FileRecord(name, content)| % BLOCK == 0
    ensures |FileRecord(name, content)| ==
            (if |name| > NAME_FIELD then 2 * BLOCK + |name| + Padding(|name|) else BLOCK)
            + |content| + Padding(|content|)
  {
    var l := LongNamePart(name, MODE_FILE);
    assert |FileRecord(name, content)| == |l| + BLOCK + |content| + Padding(|content|);
    if |name| > NAME_FIELD {
      LongNameRecordLength(name, MODE_FILE);
    }
    RecordBlocks(|name|, |content|, |name| > NAME_FIELD);
  }

  /** The length of a record whose name has `n` bytes and whose payload has
      `k` bytes is a whole number of blocks. */
  lemma RecordBlocks(n: nat, k: nat, long: bool)
    ensures ((if long then 2 * BLOCK + n + Padding(n) else BLOCK) + k + Padding(k)) % BLOCK == 0
  {
    if long {
      AlignedSum(BLOCK, n + Padding(n), BLOCK, k + Padding(k));
    } else {
      AlignedSum(0, 0, BLOCK, k + Padding(k));
    }
  }

  /** Whole blocks followed by whole blocks. */
  lemma AlignedSum(a: nat, b: nat, c: nat, d: nat)
    requires a % BLOCK == 0 && b % BLOCK == 0 && c % BLOCK == 0 && d % BLOCK == 0
    ensures (a + b + c + d) % BLOCK == 0
  {
    AlignedAdd(a, b);
    AlignedAdd(a + b, c);
    AlignedAdd(a + b + c, d);
  }

  lemma AlignedAdd(a: nat, b: nat)
    requires a % BLOCK == 0 && b % BLOCK == 0
    ensures (a + b) % BLOCK == 0
  {
    var x, y := a / BLOCK, b / BLOCK;
    assert a + b == BLOCK * (x + y);
  }

  lemma LongNameRecordLength(name: seq<byte>, mode: seq<byte>)
    requires |mode| == 8 && |name| < Pow8(11)
    ensures |LongNameRecord(name, mode)| == BLOCK + |name| + Padding(|name|)
  {
    FormatOctalLength(|name|, 11);
  }

  /** The long-name record: a header named "././@LongLink" with typeflag 'L'
      whose size field reads as the name's length, then the whole name, then
      zeros up to the next block boundary. */
  lemma LongNameRecordShape(name: seq<byte>, mode: seq<byte>)
    requires |mode| == 8 && |name| < Pow8(11)
    ensures var r := LongNameRecord(name, mode);
      && |r| == BLOCK + |name| + Padding(|name|) && |r| % BLOCK == 0
      && r[..|LONG_LINK_NAME|] == LONG_LINK_NAME
      && r[100..108] == mode
      && r[156] == TYPE_LONG_NAME
      && ParseOctal(r[124..135]) == |name|
      && r[BLOCK..BLOCK + |name|] == name
      && r[BLOCK + |name|..] == Zeros(Padding(|name|))
  {
    FormatOctalLength(|name|, 11);
    var h := Header(LONG_LINK_NAME, mode, OctalSizeField(|name|), TYPE_LONG_NAME);
    LongNameHeaderFields(|name|, mode);
    var z := Zeros(Padding(|name|));
    assert LongNameRecord(name, mode) == h + name + z;
    PayloadAfterHeader(h, name, z);
    HeaderSlice(h, name, z, 0, |LONG_LINK_NAME|);
    HeaderSlice(h, name, z, 100, 108);
    HeaderSlice(h, name, z, 124, 135);
    AlignedSum(BLOCK, |name| + |z|, 0, 0);
  }

  /** A slice of the leading block of a block followed by more bytes. */
  lemma HeaderSlice(h: seq<byte>, a: seq<byte>, c: seq<byte>, i: nat, j: nat)
    requires |h| == BLOCK && i <= j <= BLOCK
    ensures (h + a + c)[i..j] == h[i..j]
  {
  }

  /** The header of a long-name record for a name of `n` bytes. */
  lemma LongNameHeaderFields(n: nat, mode: seq<byte>)
    requires |mode| == 8 && n < Pow8(11)
    ensures |OctalSizeField(n)| == 12
    ensures var h := Header(LONG_LINK_NAME, mode, OctalSizeField(n), TYPE_LONG_NAME);
      && h[..|LONG_LINK_NAME|] == LONG_LINK_NAME
      && h[100..108] == mode
      && h[156] == TYPE_LONG_NAME
      && ParseOctal(h[124..135]) == n
  {
    SizeFieldValue(n);
    var size := OctalSizeField(n);
    HeaderLayout(LONG_LINK_NAME, mode, size, TYPE_LONG_NAME);
    var h := Header(LONG_LINK_NAME, mode, size, TYPE_LONG_NAME);
    assert h[124..135] == h[124..136][..11];
  }

  /** A block followed by a payload: the block's bytes stay where they were
      and the payload starts at offset 512. */
  lemma PayloadAfterHeader(h: seq<byte>, payload: seq<byte>, padding: seq<byte>)
    requires |h| == BLOCK
    ensures var r := h + payload + padding;
      && |r| == BLOCK + |payload| + |padding|
      && r[..BLOCK] == h
      && r[BLOCK..BLOCK + |payload|] == payload
      && r[BLOCK + |payload|..] == padding
  {
    var r := h + payload + padding;
    assert r[..BLOCK] == h;
  }
}
