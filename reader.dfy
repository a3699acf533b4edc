/** A reader for the archives `TarOutput` writes, used as the writer's
    inverse: it checks each header's checksum, takes a name from a GNU
    long-name record when one precedes the header and from the name field
    otherwise, reads the size field, and takes that many content bytes and
    the padding after them; ten zero blocks, or any zero block where a header
    is expected, end the archive. Reading back what the writer appends gives
    the names, kinds and contents it was given. */
module TarReader {
  import opened Wrappers
  import opened Bytes
  import opened Tar

  datatype Entry = Entry(name: seq<byte>, typeflag: byte, content: seq<byte>)

  /** The bytes of a NUL-terminated field before its first NUL. */
  function CString(f: seq<byte>): seq<byte>
  {
    if f == [] || f[0] == 0 then [] else [f[0]] + CString(f[1..])
  }

  /** The header's checksum field spells the sum of its bytes, the field
      itself counted as eight spaces. */
  predicate ChecksumOk(h: seq<byte>)
    requires |h| == BLOCK
  {
    ParseOctal(h[CHECKSUM_OFFSET..CHECKSUM_OFFSET + 6]) == Sum(h[..CHECKSUM_OFFSET] + CHECKSUM_BLANK + h[CHECKSUM_OFFSET + 8..])
  }

  /** The value of the header's size field. */
  function SizeOf(h: seq<byte>): nat
    requires |h| == BLOCK
  {
    ParseOctal(h[124..135])
  }

  /** The entry whose header is the block at `at`, called `name`, and the
      offset after its padded content. */
  function ReadPayload(b: seq<byte>, at: nat, name: seq<byte>): (r: Option<(Entry, nat)>)
    requires at + BLOCK <= |b|
    ensures r.Some? ==> at + BLOCK <= r.value.1 <= |b|
  {
    var h := b[at..at + BLOCK];
    var size := SizeOf(h);
    var end := at + BLOCK + size + Padding(size);
    if end > |b| then None
    else Some((Entry(name, h[156], b[at + BLOCK..at + BLOCK + size]), end))
  }

  /** The entry at the start of `b` and the number of bytes it takes. */
  function ReadEntry(b: seq<byte>): (r: Option<(Entry, nat)>)
    ensures r.Some? ==> BLOCK <= r.value.1 <= |b|
  {
    if |b| < BLOCK || !ChecksumOk(b[..BLOCK]) then None
    else if b[156] != TYPE_LONG_NAME then ReadPayload(b, 0, CString(b[..NAME_FIELD]))
    else
      var n := SizeOf(b[..BLOCK]);
      var at := BLOCK + n + Padding(n);
      if at + BLOCK > |b| || !ChecksumOk(b[at..at + BLOCK]) || b[at + 156] == TYPE_LONG_NAME then None
      else ReadPayload(b, at, b[BLOCK..BLOCK + n])
  }

  /** The entries of an archive, up to the first zero block. */
  function ReadArchive(b: seq<byte>): Option<seq<Entry>>
    decreases |b|
  {
    if |b| < BLOCK then None
    else if b[..BLOCK] == Zeros(BLOCK) then Some([])
    else
      match ReadEntry(b)
      case None => None
      case Some((e, k)) =>
        match ReadArchive(b[k..])
        case None => None
        case Some(es) => Some([e] + es)
  }

  // ---------------------------------------------------------------------------
  // What the writer appends
  // ---------------------------------------------------------------------------

  /** A member as `main` hands it to the writer. */
  datatype Member = DirMember(name: seq<byte>) | FileMember(name: seq<byte>, content: seq<byte>)

  /** The writer accepts the member: the name's length and the content size
      fit their octal fields. A name that fits the name field is a path and
      so holds no NUL byte. */
  predicate Encodable(m: Member)
  {
    && LongNameFits(m.name)
    && (|m.name| <= NAME_FIELD ==> NoNul(m.name))
    && (m.FileMember? ==> |m.content| < Pow8(11))
  }

  /** What `tar_write_dir` or a successful `tar_write_file` appends. */
  function Record(m: Member): seq<byte>
    requires Encodable(m)
  {
    match m
    case DirMember(name) => DirectoryRecord(name)
    case FileMember(name, content) => FileRecord(name, content)
  }

  function EntryOf(m: Member): Entry
  {
    match m
    case DirMember(name) => Entry(name, TYPE_DIRECTORY, [])
    case FileMember(name, content) => Entry(name, TYPE_FILE, content)
  }

  /** The records of `ms`, one after the other. */
  function Records(ms: seq<Member>): seq<byte>
    requires forall i :: 0 <= i < |ms| ==> Encodable(ms[i])
  {
    if ms == [] then [] else Record(ms[0]) + Records(ms[1..])
  }

  function Entries(ms: seq<Member>): (es: seq<Entry>)
    ensures |es| == |ms| && forall i :: 0 <= i < |ms| ==> es[i] == EntryOf(ms[i])
  {
    if ms == [] then [] else [EntryOf(ms[0])] + Entries(ms[1..])
  }

  // ---------------------------------------------------------------------------
  // Round trip
  // ---------------------------------------------------------------------------

  /** A byte string with no NUL in it. */
  predicate NoNul(s: seq<byte>)
  {
    forall i :: 0 <= i < |s| ==> s[i] != 0
  }

  lemma {:induction false} CStringOf(name: seq<byte>, zeros: seq<byte>)
    requires NoNul(name) && (zeros == [] || zeros[0] == 0)
    ensures CString(name + zeros) == name
    decreases |name|
  {
    var t := name + zeros;
    if name == [] {
      assert t == zeros;
    } else {
      assert t[0] == name[0] != 0;
      assert t[1..] == name[1..] + zeros;
      assert NoNul(name[1..]) by {
        forall i | 0 <= i < |name| - 1
          ensures name[1..][i] != 0
        {
          assert name[1..][i] == name[i + 1];
        }
      }
      CStringOf(name[1..], zeros);
      assert t == [name[0]] + (name[1..] + zeros);
    }
  }

  /** What a reader sees in a header the writer built. */
  lemma HeaderReads(name: seq<byte>, mode: seq<byte>, size: seq<byte>, typeflag: byte)
    requires |mode| == 8 && |size| == 12
    ensures var h := Header(name, mode, size, typeflag);
      && ChecksumOk(h)
      && h[156] == typeflag
      && SizeOf(h) == ParseOctal(size[..11])
      && (|name| <= NAME_FIELD && NoNul(name) ==> CString(h[..NAME_FIELD]) == name)
  {
    HeaderLayout(name, mode, size, typeflag);
    var h := Header(name, mode, size, typeflag);
    assert h[124..135] == h[124..136][..11];
    if |name| <= NAME_FIELD && NoNul(name) {
      assert h[..NAME_FIELD] == h[..|name|] + h[|name|..NAME_FIELD];
      assert name[..|name|] == name;
      CStringOf(name, Zeros(NAME_FIELD - |name|));
    }
  }

  /** What a reader sees in the header of a long-name record. */
  lemma LongHeaderReads(n: nat, mode: seq<byte>)
    requires |mode| == 8 && n < Pow8(11)
    ensures |OctalSizeField(n)| == 12
    ensures var lh := Header(LONG_LINK_NAME, mode, OctalSizeField(n), TYPE_LONG_NAME);
      ChecksumOk(lh) && lh[156] == TYPE_LONG_NAME && SizeOf(lh) == n
  {
    LongNameHeaderFields(n, mode);
    HeaderReads(LONG_LINK_NAME, mode, OctalSizeField(n), TYPE_LONG_NAME);
  }

  /** The middle of three concatenated pieces. */
  lemma Piece(a: seq<byte>, m: seq<byte>, c: seq<byte>)
    ensures |a + m + c| == |a| + |m| + |c|
    ensures (a + m + c)[|a|..|a| + |m|] == m
  {
  }

  /** Reading an entry whose header starts `b` and has no long-name record. */
  lemma ReadShortAt(b: seq<byte>, name: seq<byte>, payload: seq<byte>)
    requires |b| >= BLOCK && ChecksumOk(b[..BLOCK]) && b[156] != TYPE_LONG_NAME
    requires SizeOf(b[..BLOCK]) == |payload| && CString(b[..NAME_FIELD]) == name
    requires BLOCK + |payload| + Padding(|payload|) <= |b|
    requires b[BLOCK..BLOCK + |payload|] == payload
    ensures ReadEntry(b) == Some((Entry(name, b[156], payload), BLOCK + |payload| + Padding(|payload|)))
  {
    assert b[0..BLOCK] == b[..BLOCK];
  }

  /** Reading an entry whose header follows a long-name record at the start
      of `b`. */
  lemma ReadLongAt(b: seq<byte>, long: seq<byte>, typeflag: byte, payload: seq<byte>, end: nat)
    requires |b| >= BLOCK && ChecksumOk(b[..BLOCK]) && b[156] == TYPE_LONG_NAME
    requires BLOCK + |long| <= |b| && SizeOf(b[..BLOCK]) == |long| && b[BLOCK..BLOCK + |long|] == long
    requires var at := BLOCK + |long| + Padding(|long|);
      && at + BLOCK <= |b| && ChecksumOk(b[at..at + BLOCK]) && b[at + 156] == typeflag != TYPE_LONG_NAME
      && SizeOf(b[at..at + BLOCK]) == |payload|
      && end == at + BLOCK + |payload| + Padding(|payload|) <= |b|
      && b[at + BLOCK..at + BLOCK + |payload|] == payload
    ensures ReadEntry(b) == Some((Entry(long, typeflag, payload), end))
  {
    var at := BLOCK + |long| + Padding(|long|);
    assert b[at..at + BLOCK][156] == b[at + 156];
  }

  /** Reading a header without a long-name record before it. */
  lemma ReadShort(h: seq<byte>, payload: seq<byte>, rest: seq<byte>, name: seq<byte>)
    requires |h| == BLOCK && ChecksumOk(h) && h[156] != TYPE_LONG_NAME
    requires SizeOf(h) == |payload| && CString(h[..NAME_FIELD]) == name
    ensures var b := h + payload + Zeros(Padding(|payload|)) + rest;
      ReadEntry(b) == Some((Entry(name, h[156], payload), BLOCK + |payload| + Padding(|payload|)))
  {
    var zp := Zeros(Padding(|payload|));
    var b := h + payload + zp + rest;
    assert b[..BLOCK] == h && b[..NAME_FIELD] == h[..NAME_FIELD] by {
      assert b == h + (payload + zp + rest);
    }
    assert b[BLOCK..BLOCK + |payload|] == payload by {
      assert b == h + payload + (zp + rest);
      Piece(h, payload, zp + rest);
    }
    ReadShortAt(b, name, payload);
  }

  /** Reading a header after a long-name record `l`. */
  lemma ReadLong(l: seq<byte>, lh: seq<byte>, long: seq<byte>, h: seq<byte>, typeflag: byte, payload: seq<byte>, rest: seq<byte>)
    requires l == lh + long + Zeros(Padding(|long|))
    requires |lh| == BLOCK && ChecksumOk(lh) && lh[156] == TYPE_LONG_NAME && SizeOf(lh) == |long|
    requires |h| == BLOCK && ChecksumOk(h) && h[156] == typeflag != TYPE_LONG_NAME && SizeOf(h) == |payload|
    ensures ReadEntry(l + h + payload + Zeros(Padding(|payload|)) + rest)
            == Some((Entry(long, typeflag, payload), |l + h + payload + Zeros(Padding(|payload|))|))
  {
    var b := l + h + payload + Zeros(Padding(|payload|)) + rest;
    LongLayout(lh, long, Zeros(Padding(|long|)), h, payload, Zeros(Padding(|payload|)), rest);
    var at := BLOCK + |long| + Padding(|long|);
    assert b[at + 156] == b[at..at + BLOCK][156] == typeflag;
    ReadLongAt(b, long, typeflag, payload, |l + h + payload + Zeros(Padding(|payload|))|);
  }

  /** Where the pieces of a long-named record lie. */
  lemma LongLayout(lh: seq<byte>, long: seq<byte>, zl: seq<byte>, h: seq<byte>, payload: seq<byte>, zp: seq<byte>, rest: seq<byte>)
    requires |lh| == BLOCK && |h| == BLOCK
    ensures var b := lh + long + zl + h + payload + zp + rest;
      var at := BLOCK + |long| + |zl|;
      && |lh + long + zl| == at
      && |b| == at + BLOCK + |payload| + |zp| + |rest|
      && b[..BLOCK] == lh
      && b[BLOCK..BLOCK + |long|] == long
      && b[at..at + BLOCK] == h
      && b[at + BLOCK..at + BLOCK + |payload|] == payload
  {
    var b := lh + long + zl + h + payload + zp + rest;
    var at := BLOCK + |long| + |zl|;
    assert b[..BLOCK] == lh by {
      forall i | 0 <= i < BLOCK
        ensures b[..BLOCK][i] == lh[i]
      {
      }
    }
    assert b[BLOCK..BLOCK + |long|] == long by {
      forall i | 0 <= i < |long|
        ensures b[BLOCK..BLOCK + |long|][i] == long[i]
      {
        assert b[BLOCK + i] == long[i];
      }
    }
    assert b[at..at + BLOCK] == h by {
      forall i | 0 <= i < BLOCK
        ensures b[at..at + BLOCK][i] == h[i]
      {
        assert b[at + i] == h[i];
      }
    }
    assert b[at + BLOCK..at + BLOCK + |payload|] == payload by {
      forall i | 0 <= i < |payload|
        ensures b[at + BLOCK..at + BLOCK + |payload|][i] == payload[i]
      {
        assert b[at + BLOCK + i] == payload[i];
      }
    }
  }

  /** Reading back a record the writer appended gives the member's name,
      kind and content, and consumes exactly the record. */
  lemma ReadRecord(m: Member, rest: seq<byte>)
    requires Encodable(m)
    ensures ReadEntry(Record(m) + rest) == Some((EntryOf(m), |Record(m)|))
  {
    match m
    case DirMember(name) => ReadDirectoryRecord(name, rest);
    case FileMember(name, content) => ReadFileRecord(name, content, rest);
  }

  lemma ReadDirectoryRecord(name: seq<byte>, rest: seq<byte>)
    requires LongNameFits(name) && (|name| <= NAME_FIELD ==> NoNul(name))
    ensures ReadEntry(DirectoryRecord(name) + rest)
            == Some((Entry(name, TYPE_DIRECTORY, []), |DirectoryRecord(name)|))
  {
    DirectorySizeIsZero();
    ReadParts(name, MODE_DIRECTORY, SIZE_ZERO, TYPE_DIRECTORY, [], rest);
    assert DirectoryRecord(name) == LongNamePart(name, MODE_DIRECTORY) + DirectoryHeader(name) + [] + Zeros(Padding(0));
  }

  lemma ReadFileRecord(name: seq<byte>, content: seq<byte>, rest: seq<byte>)
    requires LongNameFits(name) && (|name| <= NAME_FIELD ==> NoNul(name)) && |content| < Pow8(11)
    ensures ReadEntry(FileRecord(name, content) + rest)
            == Some((Entry(name, TYPE_FILE, content), |FileRecord(name, content)|))
  {
    FormatOctalLength(|content|, 11);
    SizeFieldValue(|content|);
    ReadParts(name, MODE_FILE, OctalSizeField(|content|), TYPE_FILE, content, rest);
  }

  /** A header with its long-name record when needed, then the payload and
      its padding, reads back as one entry. */
  lemma ReadParts(name: seq<byte>, mode: seq<byte>, size: seq<byte>, typeflag: byte, payload: seq<byte>, rest: seq<byte>)
    requires |mode| == 8 && |size| == 12 && typeflag != TYPE_LONG_NAME && ParseOctal(size[..11]) == |payload|
    requires LongNameFits(name) && (|name| <= NAME_FIELD ==> NoNul(name))
    ensures var r := LongNamePart(name, mode) + Header(name, mode, size, typeflag) + payload + Zeros(Padding(|payload|));
      ReadEntry(r + rest) == Some((Entry(name, typeflag, payload), |r|))
  {
    if |name| > NAME_FIELD {
      ReadPartsLong(name, mode, size, typeflag, payload, rest);
    } else {
      ReadPartsShort(name, mode, size, typeflag, payload, rest);
    }
  }

  lemma ReadPartsShort(name: seq<byte>, mode: seq<byte>, size: seq<byte>, typeflag: byte, payload: seq<byte>, rest: seq<byte>)
    requires |mode| == 8 && |size| == 12 && typeflag != TYPE_LONG_NAME && ParseOctal(size[..11]) == |payload|
    requires |name| <= NAME_FIELD && NoNul(name)
    ensures var r := LongNamePart(name, mode) + Header(name, mode, size, typeflag) + payload + Zeros(Padding(|payload|));
      ReadEntry(r + rest) == Some((Entry(name, typeflag, payload), |r|))
  {
    var h := Header(name, mode, size, typeflag);
    var zp := Zeros(Padding(|payload|));
    HeaderReads(name, mode, size, typeflag);
    ReadShort(h, payload, rest, name);
    assert LongNamePart(name, mode) + h + payload + zp + rest == h + payload + zp + rest;
  }

  lemma ReadPartsLong(name: seq<byte>, mode: seq<byte>, size: seq<byte>, typeflag: byte, payload: seq<byte>, rest: seq<byte>)
    requires |mode| == 8 && |size| == 12 && typeflag != TYPE_LONG_NAME && ParseOctal(size[..11]) == |payload|
    requires NAME_FIELD < |name| < Pow8(11)
    ensures var r := LongNamePart(name, mode) + Header(name, mode, size, typeflag) + payload + Zeros(Padding(|payload|));
      ReadEntry(r + rest) == Some((Entry(name, typeflag, payload), |r|))
  {
    var h := Header(name, mode, size, typeflag);
    HeaderReads(name, mode, size, typeflag);
    LongHeaderReads(|name|, mode);
    var lh := Header(LONG_LINK_NAME, mode, OctalSizeField(|name|), TYPE_LONG_NAME);
    assert LongNamePart(name, mode) == lh + name + Zeros(Padding(|name|));
    ReadLong(LongNamePart(name, mode), lh, name, h, typeflag, payload, rest);
  }

  /** No record starts with a zero block: its first header carries the magic. */
  lemma RecordStartsNonZero(m: Member)
    requires Encodable(m)
    ensures |Record(m)| >= BLOCK && Record(m)[..BLOCK] != Zeros(BLOCK)
  {
    match m
    case DirMember(name) => DirectoryRecordStart(name);
    case FileMember(name, content) => FileRecordStart(name, content);
  }

  lemma DirectoryRecordStart(name: seq<byte>)
    requires LongNameFits(name)
    ensures |DirectoryRecord(name)| >= BLOCK && DirectoryRecord(name)[..BLOCK] != Zeros(BLOCK)
  {
    PartsStartNonZero(name, MODE_DIRECTORY, SIZE_ZERO, TYPE_DIRECTORY, [], []);
    assert DirectoryRecord(name) + [] + [] == DirectoryRecord(name);
  }

  lemma FileRecordStart(name: seq<byte>, content: seq<byte>)
    requires LongNameFits(name) && |content| < Pow8(11)
    ensures |FileRecord(name, content)| >= BLOCK && FileRecord(name, content)[..BLOCK] != Zeros(BLOCK)
  {
    FormatOctalLength(|content|, 11);
    PartsStartNonZero(name, MODE_FILE, OctalSizeField(|content|), TYPE_FILE, content, Zeros(Padding(|content|)));
  }

  /** A header, with its long-name record when needed, and anything after it
      does not start with a zero block. */
  lemma PartsStartNonZero(name: seq<byte>, mode: seq<byte>, size: seq<byte>, typeflag: byte, payload: seq<byte>, padding: seq<byte>)
    requires |mode| == 8 && |size| == 12 && LongNameFits(name)
    ensures var r := LongNamePart(name, mode) + Header(name, mode, size, typeflag) + payload + padding;
      |r| >= BLOCK && r[..BLOCK] != Zeros(BLOCK)
  {
    var h := Header(name, mode, size, typeflag);
    if |name| > NAME_FIELD {
      FormatOctalLength(|name|, 11);
      var lh := Header(LONG_LINK_NAME, mode, OctalSizeField(|name|), TYPE_LONG_NAME);
      HeaderMagic(LONG_LINK_NAME, mode, OctalSizeField(|name|), TYPE_LONG_NAME);
      assert LongNamePart(name, mode) == lh + name + Zeros(Padding(|name|));
      LongStart(lh, name, Zeros(Padding(|name|)), h, payload, padding);
    } else {
      HeaderMagic(name, mode, size, typeflag);
      ShortStart(LongNamePart(name, mode), h, payload, padding);
    }
  }

  /** A block that is not all zeros, with more bytes before the next pieces. */
  lemma LongStart(first: seq<byte>, a: seq<byte>, a2: seq<byte>, b: seq<byte>, c: seq<byte>, d: seq<byte>)
    requires |first| == BLOCK && first != Zeros(BLOCK)
    ensures var r := (first + a + a2) + b + c + d; |r| >= BLOCK && r[..BLOCK] != Zeros(BLOCK)
  {
    var r := (first + a + a2) + b + c + d;
    assert r[..BLOCK] == first;
  }

  /** A block that is not all zeros, after nothing. */
  lemma ShortStart(e: seq<byte>, first: seq<byte>, c: seq<byte>, d: seq<byte>)
    requires e == [] && |first| == BLOCK && first != Zeros(BLOCK)
    ensures var r := e + first + c + d; |r| >= BLOCK && r[..BLOCK] != Zeros(BLOCK)
  {
    var r := e + first + c + d;
    assert r[..BLOCK] == first;
  }

  /** Every header holds a non-zero byte: the first of the magic. */
  lemma HeaderMagic(name: seq<byte>, mode: seq<byte>, size: seq<byte>, typeflag: byte)
    requires |mode| == 8 && |size| == 12
    ensures Header(name, mode, size, typeflag) != Zeros(BLOCK)
  {
    HeaderLayout(name, mode, size, typeflag);
    var h := Header(name, mode, size, typeflag);
    assert h[257] == h[257..265][0] == MAGIC[0] != 0;
  }

  /** Reading back the records of `ms` followed by the end marker gives the
      members' names, kinds and contents, in order. */
  lemma {:induction false} ReadArchiveRoundTrip(ms: seq<Member>)
    requires forall i :: 0 <= i < |ms| ==> Encodable(ms[i])
    ensures ReadArchive(Records(ms) + Zeros(END_MARKER_BLOCKS * BLOCK)) == Some(Entries(ms))
  {
    var end := Zeros(END_MARKER_BLOCKS * BLOCK);
    if ms == [] {
      assert (Records(ms) + end)[..BLOCK] == Zeros(BLOCK);
    } else {
      var rest := Records(ms[1..]) + end;
      var r := Record(ms[0]);
      assert Records(ms) + end == r + rest;
      ReadArchiveRoundTrip(ms[1..]);
      ReadRecord(ms[0], rest);
      RecordStartsNonZero(ms[0]);
      ArchiveStep(r, rest, EntryOf(ms[0]), Entries(ms[1..]));
    }
  }

  /** A record that does not start with a zero block and reads as one entry,
      followed by bytes that read as an archive. */
  lemma ArchiveStep(r: seq<byte>, rest: seq<byte>, e: Entry, es: seq<Entry>)
    requires |r| >= BLOCK && r[..BLOCK] != Zeros(BLOCK)
    requires ReadEntry(r + rest) == Some((e, |r|)) && ReadArchive(rest) == Some(es)
    ensures ReadArchive(r + rest) == Some([e] + es)
  {
    assert (r + rest)[..BLOCK] == r[..BLOCK];
    assert (r + rest)[|r|..] == rest;
  }
}
