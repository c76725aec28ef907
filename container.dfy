/** The BPS container: the magic "BPS1", three size numbers, the metadata, the action
    stream and three little-endian CRC-32 values. `Parse` is `FromFile` after the
    file has been read into memory. */
module Container {
  import opened Basics
  import opened VarInt
  import Crc32

  /** `bps_header`: the ASCII bytes of "BPS1". */
  const Magic: seq<byte> := [0x42, 0x50, 0x53, 0x31]

  /** `BPSPatch`, as `FromFile` returns it. */
  datatype Patch = Patch(
    sourceSize: u64,
    targetSize: u64,
    metadataSize: u64,
    metadata: seq<byte>,
    actions: seq<byte>,
    sourceChecksum: u32,
    targetChecksum: u32,
    patchChecksum: u32)

  datatype SizeField = SourceSize | TargetSize | MetadataSize

  datatype ParseError =
    | HeaderTruncated               // fewer than four bytes
    | HeaderInvalid                 // the first four bytes are not "BPS1"
    | SizeUnterminated(field: SizeField)
    | MetadataOverrun               // the metadata size exceeds what is left
    | TrailerTruncated              // fewer than twelve bytes after the metadata
    | PatchChecksumMismatch

  /** What follows the three sizes: the metadata, the actions and the twelve-byte
      trailer of checksums. */
  function ParseTail(sourceSize: u64, targetSize: u64, metadataSize: u64, afterSizes: seq<byte>)
    : Result<Patch, ParseError>
  {
    if metadataSize > |afterSizes| then Err(MetadataOverrun)
    else
      var rest := afterSizes[metadataSize..];
      if |rest| < 12 then Err(TrailerTruncated)
      else
        var trailer := rest[|rest| - 12..];
        Ok(Patch(sourceSize, targetSize, metadataSize, afterSizes[..metadataSize],
                 rest[..|rest| - 12], LE32(trailer[..4]), LE32(trailer[4..8]), LE32(trailer[8..])))
  }

  /** Everything after the magic: the three sizes, then the tail. */
  function ParseBody(body: seq<byte>): Result<Patch, ParseError>
  {
    match Decode64(body)
    case Err(_) => Err(SizeUnterminated(SourceSize))
    case Ok((sourceSize, afterSource)) =>
      match Decode64(afterSource)
      case Err(_) => Err(SizeUnterminated(TargetSize))
      case Ok((targetSize, afterTarget)) =>
        match Decode64(afterTarget)
        case Err(_) => Err(SizeUnterminated(MetadataSize))
        case Ok((metadataSize, afterSizes)) => ParseTail(sourceSize, targetSize, metadataSize, afterSizes)
  }

  /** `FromFile` on the bytes of a patch file: the header, the body, and last the
      patch checksum over every byte but the final four. */
  function Parse(file: seq<byte>): (r: Result<Patch, ParseError>)
    ensures |file| < 4 ==> r == Err(HeaderTruncated)
    ensures |file| >= 4 && file[..4] != Magic ==> r == Err(HeaderInvalid)
    ensures r.Ok? ==> |file| >= 4 && file[..4] == Magic && r == ParseBody(file[4..])
  {
    if |file| < 4 then Err(HeaderTruncated)
    else if file[..4] != Magic then Err(HeaderInvalid)
    else
      match ParseBody(file[4..])
      case Err(e) => Err(e)
      case Ok(p) =>
        if Crc32.Checksum(file[..|file| - 4]) != p.patchChecksum then Err(PatchChecksumMismatch)
        else Ok(p)
  }

  /** The three checksums as they are stored. */
  function Trailer(p: Patch): seq<byte>
  {
    LE32Bytes(p.sourceChecksum) + LE32Bytes(p.targetChecksum) + LE32Bytes(p.patchChecksum)
  }

  /** The bytes after the three sizes. */
  function Fields(p: Patch): seq<byte>
  {
    p.metadata + p.actions + Trailer(p)
  }

  /** A patch file whose three sizes are written as the encodings of `m1`, `m2`, `m3`. */
  function Layout(m1: nat, m2: nat, m3: nat, p: Patch): seq<byte>
  {
    Magic + (Enc(m1) + (Enc(m2) + (Enc(m3) + Fields(p))))
  }

  /** The patch file that carries `p`. */
  function Serialize(p: Patch): seq<byte>
  {
    Layout(p.sourceSize, p.targetSize, p.metadataSize, p)
  }

  /** Any twelve bytes are three stored checksums. */
  lemma TrailerSplit(t: seq<byte>)
    requires |t| == 12
    ensures t == LE32Bytes(LE32(t[..4])) + LE32Bytes(LE32(t[4..8])) + LE32Bytes(LE32(t[8..]))
  {
    LE32BytesRoundTrip(t[..4]);
    LE32BytesRoundTrip(t[4..8]);
    LE32BytesRoundTrip(t[8..]);
    assert t == t[..4] + t[4..8] + t[8..];
  }

  /** A successful tail keeps its sizes, its metadata is as long as announced, and the
      bytes it read are exactly the metadata, the actions and the trailer. */
  lemma TailLayout(s: u64, t: u64, m: u64, afterSizes: seq<byte>)
    requires ParseTail(s, t, m, afterSizes).Ok?
    ensures var p := ParseTail(s, t, m, afterSizes).value;
      p.sourceSize == s && p.targetSize == t && p.metadataSize == m &&
      p.metadataSize == |p.metadata| && afterSizes == Fields(p)
  {
    var p := ParseTail(s, t, m, afterSizes).value;
    var rest := afterSizes[m..];
    var trailer := rest[|rest| - 12..];
    TrailerSplit(trailer);
    assert Trailer(p) == trailer;
    assert rest == p.actions + trailer;
    assert afterSizes == p.metadata + rest;
  }

  /** The tail parser reads back the fields of every patch whose metadata size is its
      metadata's length. */
  lemma TailFields(p: Patch)
    requires p.metadataSize == |p.metadata|
    ensures ParseTail(p.sourceSize, p.targetSize, p.metadataSize, Fields(p)) == Ok(p)
  {
    var afterSizes := Fields(p);
    var l1, l2, l3 := LE32Bytes(p.sourceChecksum), LE32Bytes(p.targetChecksum), LE32Bytes(p.patchChecksum);
    assert afterSizes[..p.metadataSize] == p.metadata;
    var rest := afterSizes[p.metadataSize..];
    assert rest == p.actions + Trailer(p);
    var trailer := rest[|rest| - 12..];
    assert trailer == l1 + l2 + l3;
    assert trailer[..4] == l1 && trailer[4..8] == l2 && trailer[8..] == l3;
    LE32RoundTrip(p.sourceChecksum);
    LE32RoundTrip(p.targetChecksum);
    LE32RoundTrip(p.patchChecksum);
  }

  /** A successful body is three encodings followed by the fields of the patch. */
  lemma BodyLayout(body: seq<byte>) returns (m1: nat, m2: nat, m3: nat)
    requires ParseBody(body).Ok?
    ensures var p := ParseBody(body).value;
      m1 % U64 == p.sourceSize && m2 % U64 == p.targetSize && m3 % U64 == p.metadataSize &&
      p.metadataSize == |p.metadata| &&
      body == Enc(m1) + (Enc(m2) + (Enc(m3) + Fields(p)))
  {
    var afterSource := Decode64(body).value.1;
    var afterTarget := Decode64(afterSource).value.1;
    var afterSizes := Decode64(afterTarget).value.1;
    m1 := Dec(body).value.0;
    m2 := Dec(afterSource).value.0;
    m3 := Dec(afterTarget).value.0;
    EncDec(body);
    EncDec(afterSource);
    EncDec(afterTarget);
    TailLayout(m1 % U64, m2 % U64, m3 % U64, afterSizes);
  }

  /** The body parser reads back the fields of every patch written after its sizes. */
  lemma BodyFields(p: Patch)
    requires p.metadataSize == |p.metadata|
    ensures ParseBody(Enc(p.sourceSize) + (Enc(p.targetSize) + (Enc(p.metadataSize) + Fields(p)))) == Ok(p)
  {
    var afterTarget := Enc(p.metadataSize) + Fields(p);
    var afterSource := Enc(p.targetSize) + afterTarget;
    RoundTrip(p.sourceSize, afterSource);
    RoundTrip(p.targetSize, afterTarget);
    RoundTrip(p.metadataSize, Fields(p));
    TailFields(p);
  }

  /** A parsed file is the magic, the three sizes (each possibly spelled with a number
      that wraps to it modulo 2^64), the metadata, the actions and the three
      checksums. */
  lemma ParseLayout(file: seq<byte>)
    requires Parse(file).Ok?
    ensures var p := Parse(file).value;
      p.metadataSize == |p.metadata| &&
      exists m1: nat, m2: nat, m3: nat ::
        m1 % U64 == p.sourceSize && m2 % U64 == p.targetSize && m3 % U64 == p.metadataSize &&
        file == Layout(m1, m2, m3, p)
  {
    FileLayout(file);
  }

  /** The layout of a file with the magic and a body that parses. */
  lemma FileLayout(file: seq<byte>)
    requires |file| >= 4 && file[..4] == Magic && ParseBody(file[4..]).Ok?
    ensures var p := ParseBody(file[4..]).value;
      p.metadataSize == |p.metadata| &&
      exists m1: nat, m2: nat, m3: nat ::
        m1 % U64 == p.sourceSize && m2 % U64 == p.targetSize && m3 % U64 == p.metadataSize &&
        file == Layout(m1, m2, m3, p)
  {
    var p := ParseBody(file[4..]).value;
    var m1, m2, m3 := BodyLayout(file[4..]);
    assert file == Magic + file[4..];
    assert file == Layout(m1, m2, m3, p);
  }

  /** A read leaves the last four bytes of the stream in place. */
  lemma ReadKeepsLastFour(s: seq<byte>)
    requires Decode64(s).Ok? && |Decode64(s).value.1| >= 4
    ensures var rest := Decode64(s).value.1;
      |s| >= 4 && rest[|rest| - 4..] == s[|s| - 4..]
  {
    Decode64Suffix(s);
  }

  /** The patch checksum the tail yields is read from its last four bytes. */
  lemma TailSeal(s: u64, t: u64, m: u64, afterSizes: seq<byte>)
    requires ParseTail(s, t, m, afterSizes).Ok?
    ensures |afterSizes| >= 4 &&
      ParseTail(s, t, m, afterSizes).value.patchChecksum == LE32(afterSizes[|afterSizes| - 4..])
  {
    var rest := afterSizes[m..];
    assert rest[|rest| - 12..][8..] == afterSizes[|afterSizes| - 4..];
  }

  /** The three reads a successful body makes, and the tail they leave. */
  lemma BodySteps(body: seq<byte>) returns (afterSource: seq<byte>, afterTarget: seq<byte>, afterSizes: seq<byte>)
    requires ParseBody(body).Ok?
    ensures Decode64(body).Ok? && afterSource == Decode64(body).value.1
    ensures Decode64(afterSource).Ok? && afterTarget == Decode64(afterSource).value.1
    ensures Decode64(afterTarget).Ok? && afterSizes == Decode64(afterTarget).value.1
    ensures ParseBody(body) == ParseTail(Decode64(body).value.0, Decode64(afterSource).value.0,
                                         Decode64(afterTarget).value.0, afterSizes)
  {
    afterSource := Decode64(body).value.1;
    afterTarget := Decode64(afterSource).value.1;
    afterSizes := Decode64(afterTarget).value.1;
  }

  /** The patch checksum a body yields is read from its last four bytes. */
  lemma BodySeal(body: seq<byte>)
    requires ParseBody(body).Ok?
    ensures |body| >= 4 && ParseBody(body).value.patchChecksum == LE32(body[|body| - 4..])
  {
    var afterSource, afterTarget, afterSizes := BodySteps(body);
    TailSeal(Decode64(body).value.0, Decode64(afterSource).value.0, Decode64(afterTarget).value.0, afterSizes);
    ReadKeepsLastFour(afterTarget);
    ReadKeepsLastFour(afterSource);
    ReadKeepsLastFour(body);
  }

  /** No patch comes out of a file whose last four bytes are not the CRC-32 of the
      bytes before them, and a checksum failure means exactly that. */
  lemma ParseChecksumGate(file: seq<byte>)
    requires |file| >= 4
    ensures Crc32.Checksum(file[..|file| - 4]) != LE32(file[|file| - 4..]) ==> Parse(file).Err?
    ensures Parse(file) == Err(PatchChecksumMismatch) ==>
      Crc32.Checksum(file[..|file| - 4]) != LE32(file[|file| - 4..])
  {
    if file[..4] == Magic && ParseBody(file[4..]).Ok? {
      BodySeal(file[4..]);
      assert file[4..][|file| - 8..] == file[|file| - 4..];
    }
  }

  /** A patch file starts with the magic, and the encodings of the sizes follow it. */
  lemma LayoutSplit(m1: nat, m2: nat, m3: nat, p: Patch)
    ensures var file := Layout(m1, m2, m3, p);
      |file| >= 4 && file[..4] == Magic && file[4..] == Enc(m1) + (Enc(m2) + (Enc(m3) + Fields(p)))
  {
  }

  /** Parsing the file written for a patch gives the patch back, for every patch
      whose recorded metadata size is its metadata's length and whose patch checksum
      is the CRC-32 of the rest of the file. */
  lemma ParseSerialize(p: Patch, file: seq<byte>)
    requires p.metadataSize == |p.metadata|
    requires file == Serialize(p)
    requires |file| >= 4 && Crc32.Checksum(file[..|file| - 4]) == p.patchChecksum
    ensures Parse(file) == Ok(p)
  {
    LayoutSplit(p.sourceSize, p.targetSize, p.metadataSize, p);
    BodyFields(p);
    ParseOf(file, p);
  }

  /** A file with the magic, a body that parses and a matching patch checksum parses. */
  lemma ParseOf(file: seq<byte>, p: Patch)
    requires |file| >= 4 && file[..4] == Magic && ParseBody(file[4..]) == Ok(p)
    requires Crc32.Checksum(file[..|file| - 4]) == p.patchChecksum
    ensures Parse(file) == Ok(p)
  {
  }
}
