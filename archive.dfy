/** The two output sinks and the writer methods of `TarOutput`
    (src/main.rs:190-331). The sinks are byte buffers that the methods append
    to; writing to them never fails. */
module Archive {
  import opened Wrappers
  import opened Bytes
  import opened Tar

  class TarOutput {
    /** Everything written to the archive sink so far. */
    var tar: seq<byte>
    /** Everything written to the digest listing so far; `None` when no
        digest sink was requested. */
    var hash: Option<seq<byte>>
    /** SHA-512, kept abstract: the digest of a byte string. */
    const sha512: seq<byte> -> seq<byte>

    constructor (hashSink: bool, sha512: seq<byte> -> seq<byte>)
      ensures tar == [] && hash == (if hashSink then Some([]) else None)
      ensures this.sha512 == sha512
    {
      tar := [];
      hash := if hashSink then Some([]) else None;
      this.sha512 := sha512;
    }

    /** Builds a header in place, fixes its checksum and appends it. */
    method WriteHeader(name: seq<byte>, mode: seq<byte>, size: seq<byte>, typeflag: byte)
      requires |mode| == 8 && |size| == 12
      modifies this
      ensures tar == old(tar) + Header(name, mode, size, typeflag)
      ensures hash == old(hash)
    {
      var header := NewHeader(name, mode, size, typeflag);
      FixHeaderChecksum(header);
      tar := tar + header[..];
    }

    /** The long-name record for a name over 100 bytes: fails, before writing
        anything, when the name length does not fit the 11-digit size field. */
    method WriteLongName(name: seq<byte>, mode: seq<byte>) returns (r: WriteResult)
      requires |mode| == 8 && |name| > NAME_FIELD
      modifies this
      ensures r == if LongNameFits(name) then Written else Failed(FieldOverflow(LongNameSizeField))
      ensures tar == old(tar) + (if LongNameFits(name) then LongNameRecord(name, mode) else [])
      ensures hash == old(hash)
    {
      var sizeField := OctalSizeField(|name|);
      FormatOctalLength(|name|, 11);
      if |sizeField| != 12 {
        return Failed(FieldOverflow(LongNameSizeField));
      }
      ghost var before := tar;
      ghost var header := Header(LONG_LINK_NAME, mode, sizeField, TYPE_LONG_NAME);
      WriteHeader(LONG_LINK_NAME, mode, sizeField, TYPE_LONG_NAME);
      tar := tar + name;
      var padding := if |name| % BLOCK == 0 then 0 else BLOCK - |name| % BLOCK;
      assert padding == Padding(|name|);
      ghost var zeros := Zeros(Padding(|name|));
      assert Zeros(BLOCK)[..padding] == zeros;
      tar := tar + Zeros(BLOCK)[..padding];
      AppendAssoc(before, header, name);
      AppendAssoc(before, header + name, zeros);
      assert LongNameRecord(name, mode) == header + name + zeros;
      r := Written;
    }

    /** `tar_write_dir`: the long-name record when the name is over 100 bytes,
        then a directory header. */
    method WriteDir(name: seq<byte>) returns (r: WriteResult)
      modifies this
      ensures r == if LongNameFits(name) then Written else Failed(FieldOverflow(LongNameSizeField))
      ensures tar == old(tar) + (if LongNameFits(name) then DirectoryRecord(name) else [])
      ensures hash == old(hash)
    {
      if |name| > NAME_FIELD {
        r := WriteLongName(name, MODE_DIRECTORY);
        if r.Failed? {
          return;
        }
      }
      ghost var longName := tar[|old(tar)|..];
      assert longName == LongNamePart(name, MODE_DIRECTORY);
      assert tar == old(tar) + longName;
      WriteHeader(name, MODE_DIRECTORY, SIZE_ZERO, TYPE_DIRECTORY);
      ghost var header := DirectoryHeader(name);
      AppendAssoc(old(tar), longName, header);
      r := Written;
    }

    /** `tar_write_file`: the long-name record when needed, a file header
        declaring `size`, the content read chunk by chunk (also fed to the
        digest when a digest sink exists), a size check, the zero padding, and
        finally the digest line. */
    method WriteFile(source: seq<Chunk>, size: nat, name: seq<byte>) returns (r: WriteResult)
      modifies this
      ensures r == FileResult(name, size, Concat(source))
      ensures tar == old(tar) + FileOutput(name, size, Concat(source))
      ensures hash == if r.Written? && old(hash).Some?
                      then Some(old(hash).value + DigestLine(sha512(Concat(source)), name))
                      else old(hash)
    {
      if |name| > NAME_FIELD {
        r := WriteLongName(name, MODE_FILE);
        if r.Failed? {
          return;
        }
      }
      ghost var longName := tar[|old(tar)|..];
      assert LongNameFits(name) && longName == LongNamePart(name, MODE_FILE);
      assert tar == old(tar) + longName;
      r := WriteFileMember(source, size, name);
      ghost var body := FileBody(name, size, Concat(source));
      AppendAssoc(old(tar), longName, body);
      assert FileOutput(name, size, Concat(source)) == longName + body;
    }

    /** The part of `tar_write_file` after the long-name record. */
    method WriteFileMember(source: seq<Chunk>, size: nat, name: seq<byte>) returns (r: WriteResult)
      requires LongNameFits(name)
      modifies this
      ensures r == FileResult(name, size, Concat(source))
      ensures tar == old(tar) + FileBody(name, size, Concat(source))
      ensures hash == if r.Written? && old(hash).Some?
                      then Some(old(hash).value + DigestLine(sha512(Concat(source)), name))
                      else old(hash)
    {
      r := WriteFileHeader(name, size);
      if r.Failed? {
        return;
      }
      ghost var header := FileHeader(name, size);
      var alreadyRead, hashed := CopyContent(source);
      ghost var content := Concat(source);
      AppendAssoc(old(tar), header, content);
      if alreadyRead != size {
        return Failed(SizeMismatch(size, alreadyRead));
      }
      FinishFile(name, alreadyRead, hashed);
      AppendAssoc(old(tar), header + content, Zeros(Padding(size)));
    }

    /** The size field check and the file header. */
    method WriteFileHeader(name: seq<byte>, size: nat) returns (r: WriteResult)
      modifies this
      ensures r == if size < Pow8(11) then Written else Failed(FieldOverflow(SizeField))
      ensures tar == old(tar) + if size < Pow8(11) then FileHeader(name, size) else []
      ensures hash == old(hash)
    {
      var sizeField := OctalSizeField(size);
      FormatOctalLength(size, 11);
      if |sizeField| != 12 {
        return Failed(FieldOverflow(SizeField));
      }
      WriteHeader(name, MODE_FILE, sizeField, TYPE_FILE);
      r := Written;
    }

    /** After a complete read: the zero padding, then the digest line when a
        digest sink exists. */
    method FinishFile(name: seq<byte>, alreadyRead: nat, hashed: seq<byte>)
      modifies this
      ensures tar == old(tar) + Zeros(Padding(alreadyRead))
      ensures hash == if old(hash).Some? then Some(old(hash).value + DigestLine(sha512(hashed), name)) else None
    {
      var padding := (BLOCK - alreadyRead % BLOCK) % BLOCK;
      tar := tar + Zeros(BLOCK)[..padding];
      assert Zeros(BLOCK)[..padding] == Zeros(Padding(alreadyRead));
      if hash.Some? {
        ghost var listing := hash.value;
        var digest := sha512(hashed);
        hash := Some(hash.value + Hex(digest));
        hash := Some(hash.value + [ASCII_SPACE, ASCII_SPACE]);
        hash := Some(hash.value + name);
        hash := Some(hash.value + [ASCII_NEWLINE]);
        assert hash.value == listing + DigestLine(digest, name);
      }
    }

    /** The read/write loop of `tar_write_file`: each chunk read is appended
        to the archive and, when a digest sink exists, fed to the hasher;
        `alreadyRead` counts the bytes. */
    method CopyContent(source: seq<Chunk>) returns (alreadyRead: nat, hashed: seq<byte>)
      modifies this
      ensures alreadyRead == |Concat(source)|
      ensures tar == old(tar) + Concat(source)
      ensures hashed == if hash.Some? then Concat(source) else []
      ensures hash == old(hash)
    {
      alreadyRead := 0;
      hashed := [];
      var i := 0;
      while i < |source|
        invariant 0 <= i <= |source|
        invariant alreadyRead == |Concat(source[..i])|
        invariant tar == old(tar) + Concat(source[..i])
        invariant hashed == if hash.Some? then Concat(source[..i]) else []
        invariant hash == old(hash)
      {
        var chunk := source[i];
        ConcatStep(source, i);
        alreadyRead := alreadyRead + |chunk|;
        tar := tar + chunk;
        if hash.Some? {
          hashed := hashed + chunk;
        }
        i := i + 1;
      }
      assert source[..i] == source;
    }

    /** `tar_end_marker`: ten zero blocks, 5120 bytes. */
    method EndMarker()
      modifies this
      ensures tar == old(tar) + Zeros(END_MARKER_BLOCKS * BLOCK)
      ensures |tar| == |old(tar)| + 5120 && (|tar| - |old(tar)|) % BLOCK == 0
      ensures hash == old(hash)
    {
      tar := tar + Zeros(END_MARKER_BLOCKS * BLOCK);
    }
  }
}
