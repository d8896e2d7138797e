/** Building FO4-format BA2 archives (Fallout 4, Fallout 76, Starfield):
    the builder's settings, its file map keyed by a normalised path, the
    texture-name heuristic and the per-file encoding step of a build. The
    codec that compresses chunks, parses DDS textures and writes the container
    is outside this model and enters as function parameters. */
module Ba2Writer {
  import opened Common
  import opened Text

  /** BA2 container version; V7 is the `#[default]`. */
  datatype Ba2Version = V1 | V2 | V3 | V7 | V8

  const DefaultBa2Version: Ba2Version := V7

  /** Chunk compression; `Zlib` is the `#[default]`. */
  datatype Ba2CompressionFormat = NoCompression | Zlib | Lz4

  /** General (GNRL) or DirectX 10 texture (DX10) archive; `General` is the `#[default]`. */
  datatype Ba2Format = General | DX10

  /** `to_crate_version`: the codec's `fo4::Version`, written as its version number. */
  function ToCrateVersion(v: Ba2Version): (n: nat)
    ensures n in {1, 2, 3, 7, 8}
  {
    match v
    case V1 => 1
    case V2 => 2
    case V3 => 3
    case V7 => 7
    case V8 => 8
  }

  /** Distinct builder versions name distinct codec versions. */
  lemma ToCrateVersionInjective(a: Ba2Version, b: Ba2Version)
    ensures ToCrateVersion(a) == ToCrateVersion(b) ==> a == b
  {
  }

  /** The file-name part of an archive name: the text after the last '/' or '\\'. */
  function BaseName(name: string): (r: string)
    ensures '/' !in r && '\\' !in r
    ensures EndsWith(name, r)
    ensures r == name || (|r| < |name| && name[|name| - |r| - 1] in {'/', '\\'})
  {
    match LastIndexIn(name, {'/', '\\'})
    case None => name
    case Some(k) =>
      name[k + 1..]
  }

  /** The texture heuristic of `from_name`, applied to the lower-cased base name. */
  predicate IsTextureArchiveName(name: string) {
    var f := BaseName(Lower(name));
    Contains(f, " - textures")
    || StartsWith(f, "textures")
    || (Contains(f, "textures") && !Contains(f, " - main") && !Contains(f, "_main"))
  }

  /** A texture archive name always mentions "textures" in its base name, whatever its case. */
  lemma TextureNameMentionsTextures(name: string)
    requires IsTextureArchiveName(name)
    ensures Contains(BaseName(Lower(name)), "textures")
  {
    var f := BaseName(Lower(name));
    if Contains(f, " - textures") {
      var j := IndexOf(f, " - textures").value;
      assert f[j + 3..j + 11] == f[j..j + 11][3..];
      assert OccursAt(f, "textures", j + 3);
    } else if StartsWith(f, "textures") {
      assert OccursAt(f, "textures", 0);
    }
  }

  /** The heuristic ignores case. */
  lemma TextureNameIgnoresCase(name: string)
    ensures IsTextureArchiveName(name) == IsTextureArchiveName(Lower(name))
  {
    LowerIdempotent(name);
  }

  /** The key `add_file` stores a path under: '\\' becomes '/', then leading '/' are dropped. */
  function Ba2Key(path: string): (k: string)
    ensures '\\' !in k
    ensures k == [] || k[0] != '/'
  {
    ReplaceRemoves(path, '\\', '/');
    TrimStart(Replace(path, '\\', '/'), '/')
  }

  /** Normalising twice changes nothing. */
  lemma Ba2KeyIdempotent(path: string)
    ensures Ba2Key(Ba2Key(path)) == Ba2Key(path)
  {
    var k := Ba2Key(path);
    assert Replace(k, '\\', '/') == k;
  }

  /** Separators and leading separators do not distinguish keys. */
  lemma Ba2KeySeparatorInsensitive(path: string)
    ensures Ba2Key("\\" + path) == Ba2Key(path)
    ensures Ba2Key("/" + path) == Ba2Key(path)
    ensures Ba2Key(Replace(path, '/', '\\')) == Ba2Key(path)
  {
    assert Replace("\\" + path, '\\', '/') == "/" + Replace(path, '\\', '/');
    assert Replace("/" + path, '\\', '/') == "/" + Replace(path, '\\', '/');
    assert Replace(Replace(path, '/', '\\'), '\\', '/') == Replace(path, '\\', '/');
  }

  /** One chunk of a General archive, as the codec stores it. */
  datatype Chunk = Chunk(data: Bytes, compressed: bool)

  /** An encoded archive entry: a single chunk, or a texture the codec parsed from a DDS blob. */
  datatype Ba2File = GeneralFile(chunk: Chunk) | TextureFile(texture: Bytes)

  /** The codec's own container compression formats. */
  datatype CodecCompression = CodecZip | CodecLz4

  /** The options the container is written with: the version as the codec's number, the
      strings flag, the format, and the container compression format when the builder sets
      one (`None` leaves the codec's default in place). */
  datatype Ba2Options = Ba2Options(version: nat, strings: bool, format: Ba2Format, codec: Option<CodecCompression>)

  /** The container compression format a DX10 archive is written with, whatever the
      builder's compression. */
  const Dx10Codec: CodecCompression := CodecZip

  /** What a successful build hands to the codec's writer. */
  datatype Ba2Output = Ba2Output(files: map<string, Ba2File>, options: Ba2Options)

  /** The chunk a General archive stores for one payload: compressed exactly when the
      builder's compression is not `NoCompression` and the codec's compressor succeeds,
      and otherwise the payload itself. */
  function GeneralChunk(data: Bytes, compression: Ba2CompressionFormat, compress: Bytes -> Option<Bytes>): (c: Chunk)
    ensures c.compressed <==> compression != NoCompression && compress(data).Some?
    ensures c.compressed ==> c.data == compress(data).value
    ensures !c.compressed ==> c.data == data
  {
    if compression != NoCompression then
      match compress(data)
      case Some(z) => Chunk(z, true)
      case None => Chunk(data, false)
    else
      Chunk(data, false)
  }

  class Ba2Builder {
    var files: map<string, Bytes>
    var format: Ba2Format
    var compression: Ba2CompressionFormat
    var strings: bool
    var version: Ba2Version

    /** `Ba2Builder::new`. */
    constructor ()
      ensures files == map[] && format == General && compression == Zlib
      ensures strings && version == DefaultBa2Version
    {
      files := map[];
      format := General;
      compression := Zlib;
      strings := true;
      version := DefaultBa2Version;
    }

    /** `Ba2Builder::from_name`: DX10 exactly for texture-like names. */
    constructor FromName(name: string)
      ensures files == map[] && (format == DX10 <==> IsTextureArchiveName(name))
      ensures compression == Zlib && strings && version == DefaultBa2Version
    {
      files := map[];
      format := if IsTextureArchiveName(name) then DX10 else General;
      compression := Zlib;
      strings := true;
      version := DefaultBa2Version;
    }

    method WithVersion(v: Ba2Version)
      modifies this`version
      ensures version == v
    {
      version := v;
    }

    method WithFormat(f: Ba2Format)
      modifies this`format
      ensures format == f
    {
      format := f;
    }

    method WithCompression(c: Ba2CompressionFormat)
      modifies this`compression
      ensures compression == c
    {
      compression := c;
    }

    method WithStrings(s: bool)
      modifies this`strings
      ensures strings == s
    {
      strings := s;
    }

    /** Stores `data` under the normalised key; an earlier payload under that key is replaced. */
    method AddFile(path: string, data: Bytes)
      modifies this`files
      ensures files == old(files)[Ba2Key(path) := data]
      ensures |files| == if Ba2Key(path) in old(files) then |old(files)| else |old(files)| + 1
    {
      files := files[Ba2Key(path) := data];
    }

    /** Number of distinct keys. */
    function FileCount(): nat
      reads this
    {
      |files|
    }

    function IsEmpty(): (r: bool)
      reads this
      ensures r <==> FileCount() == 0
    {
      files == map[]
    }

    /** `build_with_progress`: the empty check, then the DX10 or the General encoding of every
        file. The order in which the source's parallel map visits the files is not modelled;
        the loop takes the keys in an arbitrary order. */
    method BuildWithProgress(compress: Bytes -> Option<Bytes>, parseDds: (Bytes, bool) -> Option<Bytes>)
      returns (r: Result<Ba2Output, ArchiveError>)
      ensures r == Err(EmptyArchive) <==> files == map[]
      ensures format == General && files != map[] ==> r.Ok?
      ensures format == General && r.Ok? ==>
        && r.value.files.Keys == files.Keys
        && (forall k :: k in files ==> r.value.files[k] == GeneralFile(GeneralChunk(files[k], compression, compress)))
        && r.value.options == Ba2Options(ToCrateVersion(version), strings, General, None)
      ensures format == DX10 && files != map[] ==>
        (r.Ok? <==> forall k :: k in files ==> parseDds(files[k], compression != NoCompression).Some?)
      ensures format == DX10 && r.Ok? ==>
        && r.value.files.Keys == files.Keys
        && (forall k :: k in files ==>
              r.value.files[k] == TextureFile(parseDds(files[k], compression != NoCompression).value))
        && r.value.options == Ba2Options(ToCrateVersion(version), strings, DX10, Some(Dx10Codec))
      ensures format == DX10 && r.Err? && files != map[] ==>
        r.error.FormatError? && r.error.path in files && parseDds(files[r.error.path], compression != NoCompression).None?
    {
      if IsEmpty() {
        return Err(EmptyArchive);
      }
      if format == DX10 {
        r := BuildDx10(parseDds);
        return;
      }
      var remaining := files.Keys;
      var out: map<string, Ba2File> := map[];
      while remaining != {}
        invariant remaining <= files.Keys
        invariant out.Keys == files.Keys - remaining
        invariant forall k :: k in out ==> out[k] == GeneralFile(GeneralChunk(files[k], compression, compress))
        decreases |remaining|
      {
        var k :| k in remaining;
        out := out[k := GeneralFile(GeneralChunk(files[k], compression, compress))];
        remaining := remaining - {k};
      }
      r := Ok(Ba2Output(out, Ba2Options(ToCrateVersion(version), strings, General, None)));
    }

    /** `build_dx10_with_progress`: every payload must parse as a DDS texture. */
    method BuildDx10(parseDds: (Bytes, bool) -> Option<Bytes>) returns (r: Result<Ba2Output, ArchiveError>)
      requires files != map[]
      ensures r.Ok? <==> forall k :: k in files ==> parseDds(files[k], compression != NoCompression).Some?
      ensures r.Ok? ==>
        && r.value.files.Keys == files.Keys
        && (forall k :: k in files ==>
              r.value.files[k] == TextureFile(parseDds(files[k], compression != NoCompression).value))
        && r.value.options == Ba2Options(ToCrateVersion(version), strings, DX10, Some(Dx10Codec))
      ensures r.Err? ==>
        r.error.FormatError? && r.error.path in files && parseDds(files[r.error.path], compression != NoCompression).None?
    {
      var compressed := compression != NoCompression;
      var remaining := files.Keys;
      var out: map<string, Ba2File> := map[];
      while remaining != {}
        invariant remaining <= files.Keys
        invariant out.Keys == files.Keys - remaining
        invariant forall k :: k in out ==> parseDds(files[k], compressed).Some?
        invariant forall k :: k in out ==> out[k] == TextureFile(parseDds(files[k], compressed).value)
        decreases |remaining|
      {
        var k :| k in remaining;
        match parseDds(files[k], compressed)
        case None =>
          return Err(FormatError(k));
        case Some(t) =>
          out := out[k := TextureFile(t)];
        remaining := remaining - {k};
      }
      r := Ok(Ba2Output(out, Ba2Options(ToCrateVersion(version), strings, DX10, Some(Dx10Codec))));
    }
  }
}
