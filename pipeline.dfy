/** One input file through `processFile`: the envelope check, the intro
    branch that copies the payload to `<identifier>.ini`, and the data branch
    that decodes the metadata record, writes its XML description beside the
    CSV table of the sample block, both in a shard directory. */
module Pipeline {
  import opened Bytes
  import opened Text
  import opened Paths
  import opened Clock
  import opened Stream
  import opened Container
  import opened Samples
  import opened Naming
  import opened Description

  /** What becomes of one input file. */
  datatype Outcome =
    | Failed(file: string, error: ReadError)  // `processFile` returns the name and a read error
    | Skipped                                 // not an SVS file: returns ("", nil)
    | Crashed                                 // the file name has too few '_' pieces: the slice panics
    | Intro(path: string, payload: seq<byte>) // the `.ini` file written and its contents
    | Data(meta: Metadata, xmlPath: string, document: Document, csvPath: string, block: Block)

  /** What `processMeta` derives from a decoded record. */
  datatype Artifacts = Artifacts(name: string, shard: nat, xmlPath: string, document: Document)

  function MetaArtifacts(m: Metadata, datadir: string, upi: string, source: string, per: int,
                         env: Envelope, cal: Calendar): Artifacts
    requires per > 0
  {
    var name := DataName(m, upi, cal);
    var shard := Shard(m, per);
    Artifacts(name, shard, JoinPath([JoinPath([datadir, ShardDir(shard)]), name]) + ".xml",
              Describe(env, source, m))
  }

  /** The whole of `processFile` on a file named `file` with contents
      `content`, under the data directory `root`. */
  function FileSpec(file: string, content: seq<byte>, root: string, per: int,
                    cal: Calendar, fmt: FloatFormat): Outcome
    requires per > 0
  {
    if |content| < EnvelopeSize then Failed("", ShortRead(|content|))
    else
      var env := DecodeEnvelope(content[..EnvelopeSize]);
      if env.tag != Magic then Skipped
      else
        match Identifier(file)
        case None => Crashed
        case Some(upi) => RecordSpec(env, content[EnvelopeSize..], file, upi, root, per, cal, fmt)
  }

  /** What `processFile` does after a valid envelope, with the identifier
      `upi` of the file and `rest` the bytes after the envelope. */
  function RecordSpec(env: Envelope, rest: seq<byte>, file: string, upi: string, root: string, per: int,
                      cal: Calendar, fmt: FloatFormat): Outcome
    requires per > 0
  {
    var datadir := JoinPath([root, upi]);
    if env.sequence == IntroSequence then Intro(JoinPath([datadir, upi + ".ini"]), rest)
    else if |rest| < MetadataSize then Failed("", ShortRead(|rest|))
    else
      var m := DecodeMetadata(rest[..MetadataSize]);
      var a := MetaArtifacts(m, datadir, upi, file, per, env, cal);
      Data(m, a.xmlPath, a.document, JoinPath([datadir, ShardDir(a.shard), a.name]),
           SampleBlock(rest[MetadataSize..], fmt))
  }

  // ---------------------------------------------------------------------
  // The steps as the program runs them, on one read cursor.

  /** `processIntro`: everything after the envelope goes to `<upi>.ini`. */
  method ProcessIntro(r: Reader, datadir: string, upi: string) returns (path: string, payload: seq<byte>)
    requires r.Valid()
    modifies r
    ensures r.Valid() && r.Len() == 0
    ensures path == JoinPath([datadir, upi + ".ini"]) && payload == old(r.Rest())
  {
    path := JoinPath([datadir, upi + ".ini"]);
    payload := r.ReadAll();
  }

  /** `processMeta`: the record is read little-endian from the cursor; its
      artifacts follow from it. */
  method ProcessMeta(r: Reader, datadir: string, upi: string, source: string, per: int,
                     env: Envelope, cal: Calendar) returns (res: Result<(Metadata, Artifacts)>)
    requires r.Valid() && per > 0
    modifies r
    ensures r.Valid()
    ensures old(r.Len()) < MetadataSize ==> res == Err(ShortRead(old(r.Len())))
    ensures old(r.Len()) >= MetadataSize ==>
      var m := DecodeMetadata(old(r.Rest())[..MetadataSize]);
      && res == Ok((m, MetaArtifacts(m, datadir, upi, source, per, env, cal)))
      && r.pos == old(r.pos) + MetadataSize
  {
    var b := r.ReadFull(MetadataSize);
    if b.Err? {
      return Err(b.error);
    }
    assert b.value == old(r.Rest())[..MetadataSize];
    var m := DecodeMetadata(b.value);
    var name := DataName(m, upi, cal);
    var shard := Shard(m, per);
    var dir := JoinPath([datadir, ShardDir(shard)]);
    return Ok((m, Artifacts(name, shard, JoinPath([dir, name]) + ".xml", Describe(env, source, m))));
  }

  /** `processFile`: the envelope read big-endian from the start of the
      file, then the branch it selects. */
  method ProcessFile(file: string, content: seq<byte>, root: string, per: int,
                     cal: Calendar, fmt: FloatFormat) returns (o: Outcome)
    requires per > 0
    ensures o == FileSpec(file, content, root, per, cal, fmt)
  {
    var r := new Reader(content);
    var h := r.ReadFull(EnvelopeSize);
    if h.Err? {
      return Failed("", h.error);
    }
    var env := DecodeEnvelope(h.value);
    if env.tag != Magic {
      return Skipped;
    }
    var id := Identifier(file);
    if id.None? {
      return Crashed;
    }
    assert FileSpec(file, content, root, per, cal, fmt)
        == RecordSpec(env, content[EnvelopeSize..], file, id.value, root, per, cal, fmt);
    o := ProcessRecord(r, env, file, id.value, root, per, cal, fmt);
  }

  /** The rest of `processFile` once the envelope is read and the
      identifier known: the intro branch, or the metadata record and the
      sample block. */
  method ProcessRecord(r: Reader, env: Envelope, file: string, upi: string, root: string, per: int,
                       cal: Calendar, fmt: FloatFormat) returns (o: Outcome)
    requires r.Valid() && per > 0
    modifies r
    ensures o == RecordSpec(env, old(r.Rest()), file, upi, root, per, cal, fmt)
  {
    var datadir := JoinPath([root, upi]);
    if env.sequence == IntroSequence {
      var path, payload := ProcessIntro(r, datadir, upi);
      return Intro(path, payload);
    }
    ghost var rest := r.Rest();
    var meta := ProcessMeta(r, datadir, upi, file, per, env, cal);
    if meta.Err? {
      return Failed("", meta.error);
    }
    var (m, a) := meta.value;
    assert r.Rest() == rest[MetadataSize..];
    var block := ProcessData(r, fmt);
    return Data(m, a.xmlPath, a.document, JoinPath([datadir, ShardDir(a.shard), a.name]), block);
  }

  // ---------------------------------------------------------------------
  // Properties of the outcome.

  /** Fewer than 16 bytes is a read error (`EOF` for an empty file); with 16
      bytes or more, the file is skipped exactly when it does not start with
      the four bytes "SVS ", whatever follows. */
  lemma EnvelopeOutcome(file: string, content: seq<byte>, root: string, per: int, cal: Calendar, fmt: FloatFormat)
    requires per > 0
    ensures var o := FileSpec(file, content, root, per, cal, fmt);
      && (|content| < 16 ==> o == Failed("", ShortRead(|content|)) && (o.error == EOF <==> content == []))
      && (o.Skipped? <==> |content| >= 16 && content[..4] != Magic)
      && (o.Crashed? <==> |content| >= 16 && content[..4] == Magic && Count(Base(file), '_') < 5)
  {
    if |content| >= 16 {
      assert DecodeEnvelope(content[..16]).tag == content[..4];
    }
  }

  /** An intro record (envelope sequence 1) is copied verbatim after its
      envelope to `<root>/<upi>/<upi>.ini`. */
  lemma IntroOutcome(file: string, when: u64, payload: seq<byte>, root: string, per: int,
                     cal: Calendar, fmt: FloatFormat)
    requires per > 0 && Identifier(file).Some?
    ensures var upi := Identifier(file).value;
      FileSpec(file, EncodeEnvelope(Envelope(Magic, 1, when)) + payload, root, per, cal, fmt)
      == Intro(JoinPath([JoinPath([root, upi]), upi + ".ini"]), payload)
  {
    var content := EncodeEnvelope(Envelope(Magic, 1, when)) + payload;
    assert content[..16] == EncodeEnvelope(Envelope(Magic, 1, when));
    DecodeEncodeEnvelope(Envelope(Magic, 1, when));
    assert content[16..] == payload;
  }

  /** A data record with fewer than 74 bytes after the envelope is a read
      error with no artifact. */
  lemma MetadataTooShort(file: string, content: seq<byte>, root: string, per: int, cal: Calendar, fmt: FloatFormat)
    requires per > 0 && 16 <= |content| < 90 && content[..4] == Magic
    requires Identifier(file).Some? && U32BE(content[4..8]) != 1
    ensures FileSpec(file, content, root, per, cal, fmt) == Failed("", ShortRead(|content| - 16))
  {
    assert DecodeEnvelope(content[..16]).tag == content[..4];
    assert content[..16][4..8] == content[4..8];
  }

  /** In the data branch the CSV file lies in the shard directory of the
      identifier's directory under the data file name, and the XML file is
      the CSV file's path with ".xml" appended. */
  lemma DataPaths(file: string, content: seq<byte>, root: string, per: int, cal: Calendar, fmt: FloatFormat)
    requires per > 0
    requires FileSpec(file, content, root, per, cal, fmt).Data?
    ensures var o, upi := FileSpec(file, content, root, per, cal, fmt), Identifier(file).value;
      && o.xmlPath == o.csvPath + ".xml"
      && o.csvPath == JoinPath([JoinPath([root, upi]), ShardDir(Shard(o.meta, per)), DataName(o.meta, upi, cal)])
      && Base(o.csvPath) == DataName(o.meta, upi, cal)
  {
    var o := FileSpec(file, content, root, per, cal, fmt);
    var upi := Identifier(file).value;
    var datadir := JoinPath([root, upi]);
    var env := DecodeEnvelope(content[..EnvelopeSize]);
    var rest := content[EnvelopeSize..];
    var m := DecodeMetadata(rest[..MetadataSize]);
    var a := MetaArtifacts(m, datadir, upi, file, per, env, cal);
    assert o.meta == m && o.xmlPath == a.xmlPath;
    assert o.csvPath == JoinPath([datadir, ShardDir(a.shard), a.name]);
    NameNoSlash(o.meta, upi, cal);
    ShardPaths(JoinPath([root, upi]), ShardDir(Shard(o.meta, per)), DataName(o.meta, upi, cal));
  }

  /** Joining the directory and the shard first, then the name, is joining all three. */
  lemma ShardPaths(datadir: string, dir: string, name: string)
    requires dir != [] && name != [] && '/' !in name
    ensures JoinPath([JoinPath([datadir, dir]), name]) == JoinPath([datadir, dir, name])
    ensures Base(JoinPath([datadir, dir, name])) == name
  {
    var inner := JoinPath([datadir, dir]);
    JoinPathAppend([datadir], dir);
    assert [datadir] + [dir] == [datadir, dir];
    assert inner != [];
    JoinPathAppend([inner], name);
    assert [inner] + [name] == [inner, name];
    assert JoinPath([inner]) == inner by {
      assert NonEmpty([inner]) == [inner];
    }
    JoinPathAppend([datadir, dir], name);
    assert [datadir, dir] + [name] == [datadir, dir, name];
    BaseOfChild(inner, name);
  }

  /** A data file made of an envelope with a sequence other than 1 and an
      encoded metadata record decodes to that record and its description,
      and what follows the record is the sample block. */
  lemma DataOutcome(file: string, env: Envelope, m: Metadata, block: seq<byte>,
                    root: string, per: int, cal: Calendar, fmt: FloatFormat)
    requires per > 0 && env.tag == Magic && env.sequence != 1 && Identifier(file).Some?
    ensures var o := FileSpec(file, EncodeEnvelope(env) + EncodeMetadata(m) + block, root, per, cal, fmt);
      && o.Data? && o.meta == m && o.document == Describe(env, file, m)
      && o.block == SampleBlock(block, fmt)
  {
    var rest := EncodeMetadata(m) + block;
    assert EncodeEnvelope(env) + EncodeMetadata(m) + block == EncodeEnvelope(env) + rest;
    FileOfEnvelope(file, env, rest, root, per, cal, fmt);
    RecordData(env, m, block, file, Identifier(file).value, root, per, cal, fmt);
  }

  /** A file made of a valid envelope and any bytes after it, with a
      defined identifier, has the outcome of those bytes. */
  lemma FileOfEnvelope(file: string, env: Envelope, rest: seq<byte>,
                       root: string, per: int, cal: Calendar, fmt: FloatFormat)
    requires per > 0 && env.tag == Magic && Identifier(file).Some?
    ensures FileSpec(file, EncodeEnvelope(env) + rest, root, per, cal, fmt)
         == RecordSpec(env, rest, file, Identifier(file).value, root, per, cal, fmt)
  {
    var content := EncodeEnvelope(env) + rest;
    assert content[..16] == EncodeEnvelope(env);
    DecodeEncodeEnvelope(env);
    assert content[16..] == rest;
  }

  /** After a data envelope, an encoded metadata record decodes to itself
      and its description, and the bytes after it are the sample block. */
  lemma RecordData(env: Envelope, m: Metadata, block: seq<byte>, file: string, upi: string,
                   root: string, per: int, cal: Calendar, fmt: FloatFormat)
    requires per > 0 && env.sequence != 1
    ensures var o := RecordSpec(env, EncodeMetadata(m) + block, file, upi, root, per, cal, fmt);
      && o.Data? && o.meta == m && o.document == Describe(env, file, m)
      && o.block == SampleBlock(block, fmt)
  {
    var rest := EncodeMetadata(m) + block;
    assert rest[..74] == EncodeMetadata(m);
    DecodeEncodeMetadata(m);
    assert rest[74..] == block;
  }

  /** Round trip: a data file written as an envelope with sequence other
      than 1, an encoded metadata record and a sample block of N > 0 scales
      and rows of N words, decodes to that record, its description, and the
      table of the labels and rendered rows. */
  lemma DataRoundTrip(file: string, env: Envelope, m: Metadata, scales: seq<u16>, rows: seq<seq<u32>>,
                      root: string, per: int, cal: Calendar, fmt: FloatFormat)
    requires per > 0 && env.tag == Magic && env.sequence != 1 && Identifier(file).Some?
    requires 0 < |scales| < 256 && forall k :: 0 <= k < |rows| ==> |rows[k]| == |scales|
    ensures var o := FileSpec(file, EncodeEnvelope(env) + EncodeMetadata(m) + EncodeBlock(scales, rows),
                              root, per, cal, fmt);
      && o.Data? && o.meta == m && o.document == Describe(env, file, m)
      && o.block == Table([Labels(scales)] + Rendered(rows, 0, fmt))
  {
    DataOutcome(file, env, m, EncodeBlock(scales, rows), root, per, cal, fmt);
    SampleBlockRoundTrip(scales, rows, fmt);
  }
}
