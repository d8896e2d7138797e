/** The archive layer's front door: format detection, the game-version profile
    table used when creating archives, the name heuristics for TES4 archive
    types and versions, and the dispatch of listing and batch extraction to the
    reader of the detected format, with the wanted-path set normalised to that
    reader's convention. */
module Archive {
  import opened Common
  import opened Text
  import opened Batch
  import Ba2Writer
  import Tes3Reader
  import BsaReader
  import Ba2Reader

  /** The three container families. */
  datatype ArchiveFormat = Tes3Bsa | Bsa | Ba2

  /** What the codec's signature sniffing reports. */
  datatype SniffedFormat = TES3 | TES4 | FO4

  /** `detect_format`: the sniffed signature decides; when sniffing fails (or the file cannot
      be opened, `sniffed == None`) the lower-cased extension decides, and only "bsa" and
      "ba2" are recognised. The extension never yields a TES3 archive. */
  function DetectFormat(sniffed: Option<SniffedFormat>, extension: Option<string>): (r: Option<ArchiveFormat>)
    ensures r == Some(Tes3Bsa) <==> sniffed == Some(TES3)
    ensures sniffed == Some(TES4) ==> r == Some(Bsa)
    ensures sniffed == Some(FO4) ==> r == Some(Ba2)
    ensures sniffed.None? ==> (r == Some(Bsa) <==> extension.Some? && EqIgnoreCase(extension.value, "bsa"))
    ensures sniffed.None? ==> (r == Some(Ba2) <==> extension.Some? && EqIgnoreCase(extension.value, "ba2"))
  {
    match sniffed
    case Some(TES3) => Some(Tes3Bsa)
    case Some(TES4) => Some(Bsa)
    case Some(FO4) => Some(Ba2)
    case None =>
      match extension
      case None => None
      case Some(ext) =>
        var lower := Lower(ext);
        assert Lower("bsa") == "bsa" && Lower("ba2") == "ba2";
        if lower == "bsa" then Some(Bsa)
        else if lower == "ba2" then Some(Ba2)
        else None
  }

  /** The TES4 header versions (`ba2::tes4::Version`). */
  datatype Tes4Version = V103 | V104 | V105

  /** The game profiles offered when creating an archive; `Fallout4Fo76` is the `#[default]`. */
  datatype GameVersion =
    | Morrowind | Oblivion | Fallout3 | FalloutNewVegas | SkyrimLE | SkyrimSE
    | Fallout4Fo76 | Fallout4NGv7 | Fallout4NGv8 | StarfieldV2 | StarfieldV3
  {
    function DisplayName(): string {
      match this
      case Morrowind => "Morrowind (BSA)"
      case Oblivion => "Oblivion (BSA v103)"
      case Fallout3 => "Fallout 3 (BSA v104)"
      case FalloutNewVegas => "Fallout: New Vegas (BSA v104)"
      case SkyrimLE => "Skyrim LE (BSA v104)"
      case SkyrimSE => "Skyrim SE (BSA v105)"
      case Fallout4Fo76 => "Fallout 4 / Fallout 76 (BA2 v1)"
      case Fallout4NGv7 => "Fallout 4 Next Gen (BA2 v7)"
      case Fallout4NGv8 => "Fallout 4 Next Gen (BA2 v8)"
      case StarfieldV2 => "Starfield (BA2 v2)"
      case StarfieldV3 => "Starfield (BA2 v3)"
    }

    predicate IsBa2() {
      this in {Fallout4Fo76, Fallout4NGv7, Fallout4NGv8, StarfieldV2, StarfieldV3}
    }

    predicate IsTes3() {
      this == Morrowind
    }

    /** TES4 header version; present exactly for the profiles that are neither BA2 nor TES3. */
    function BsaVersion(): (r: Option<Tes4Version>)
      ensures r.Some? <==> !IsBa2() && !IsTes3()
    {
      match this
      case Oblivion => Some(V103)
      case Fallout3 | FalloutNewVegas | SkyrimLE => Some(V104)
      case SkyrimSE => Some(V105)
      case _ => None
    }

    /** BA2 container version; present exactly for the BA2 profiles. */
    function Ba2Version(): (r: Option<Ba2Writer.Ba2Version>)
      ensures r.Some? <==> IsBa2()
    {
      match this
      case Fallout4Fo76 => Some(Ba2Writer.V1)
      case Fallout4NGv7 => Some(Ba2Writer.V7)
      case Fallout4NGv8 => Some(Ba2Writer.V8)
      case StarfieldV2 => Some(Ba2Writer.V2)
      case StarfieldV3 => Some(Ba2Writer.V3)
      case _ => None
    }

    /** Compression is unavailable exactly for TES3 archives and v103 BSAs. */
    predicate SupportsCompression()
      ensures !SupportsCompression() <==> IsTes3() || BsaVersion() == Some(V103)
    {
      !(this == Morrowind || this == Oblivion)
    }

    /** LZ4 exactly for the Starfield containers (BA2 v2 and v3), zlib otherwise. */
    function Ba2Compression(): (r: Ba2Writer.Ba2CompressionFormat)
      ensures r == Ba2Writer.Lz4 <==> Ba2Version() == Some(Ba2Writer.V2) || Ba2Version() == Some(Ba2Writer.V3)
      ensures r != Ba2Writer.NoCompression
    {
      match this
      case StarfieldV2 | StarfieldV3 => Ba2Writer.Lz4
      case _ => Ba2Writer.Zlib
    }

    /** Position in the profile list, 0 to 10. */
    function Index(): (k: int)
      ensures 0 <= k <= 10
    {
      match this
      case Morrowind => 0
      case Oblivion => 1
      case Fallout3 => 2
      case FalloutNewVegas => 3
      case SkyrimLE => 4
      case SkyrimSE => 5
      case Fallout4Fo76 => 6
      case Fallout4NGv7 => 7
      case Fallout4NGv8 => 8
      case StarfieldV2 => 9
      case StarfieldV3 => 10
    }

    /** The name the command line accepts: non-empty and already lower-case, so the
        case-insensitive lookup can find it. */
    function CliName(): (r: string)
      ensures r != [] && Lower(r) == r
    {
      match this
      case Morrowind => "morrowind"
      case Oblivion => "oblivion"
      case Fallout3 => "fo3"
      case FalloutNewVegas => "fonv"
      case SkyrimLE => "skyrimle"
      case SkyrimSE => "skyrimse"
      case Fallout4Fo76 => "fo4-fo76"
      case Fallout4NGv7 => "fo4ng-v7"
      case Fallout4NGv8 => "fo4ng-v8"
      case StarfieldV2 => "starfield-v2"
      case StarfieldV3 => "starfield-v3"
    }
  }

  const DefaultGameVersion: GameVersion := Fallout4Fo76

  /** `GameVersion::all`: the eleven profiles in index order. */
  function AllGameVersions(): (r: seq<GameVersion>)
    ensures |r| == 11
    ensures forall k :: 0 <= k < |r| ==> r[k].Index() == k
  {
    [Morrowind, Oblivion, Fallout3, FalloutNewVegas, SkyrimLE, SkyrimSE,
     Fallout4Fo76, Fallout4NGv7, Fallout4NGv8, StarfieldV2, StarfieldV3]
  }

  /** Every profile sits in `all()` at its own index. */
  lemma AllGameVersionsComplete(v: GameVersion)
    ensures AllGameVersions()[v.Index()] == v
  {
    match v
    case Morrowind =>
    case Oblivion =>
    case Fallout3 =>
    case FalloutNewVegas =>
    case SkyrimLE =>
    case SkyrimSE =>
    case Fallout4Fo76 =>
    case Fallout4NGv7 =>
    case Fallout4NGv8 =>
    case StarfieldV2 =>
    case StarfieldV3 =>
  }

  /** `from_index`: the profile at `index`; any other index gives the default. */
  function FromIndex(index: int): (v: GameVersion)
    ensures 0 <= index <= 10 ==> v.Index() == index
    ensures !(0 <= index <= 10) ==> v == DefaultGameVersion
  {
    if 0 <= index <= 10 then AllGameVersions()[index] else Fallout4Fo76
  }

  /** `from_index` undoes `index`. */
  lemma FromIndexOfIndex(v: GameVersion)
    ensures FromIndex(v.Index()) == v
  {
    var all := AllGameVersions();
    assert all[v.Index()].Index() == v.Index();
  }

  /** `all()` has no repeats. */
  lemma AllGameVersionsDistinct()
    ensures forall i, j :: 0 <= i < j < |AllGameVersions()| ==> AllGameVersions()[i] != AllGameVersions()[j]
  {
    var all := AllGameVersions();
    forall i, j | 0 <= i < j < |all| ensures all[i] != all[j] {
      assert all[i].Index() == i && all[j].Index() == j;
    }
  }

  /** The `find` over `all()`: the first profile whose CLI name is `lower`. */
  function FindByCliName(vs: seq<GameVersion>, lower: string): (r: Option<GameVersion>)
    ensures r.Some? ==> r.value in vs && r.value.CliName() == lower
    ensures r.None? ==> forall v :: v in vs ==> v.CliName() != lower
  {
    if |vs| == 0 then None
    else if vs[0].CliName() == lower then Some(vs[0])
    else FindByCliName(vs[1..], lower)
  }

  /** `from_cli_name`: case-insensitive lookup by CLI name. */
  function FromCliName(name: string): (r: Option<GameVersion>)
    ensures r.Some? ==> r.value.CliName() == Lower(name)
    ensures r.None? ==> forall v: GameVersion :: v.CliName() != Lower(name)
  {
    FindByCliName(AllGameVersions(), Lower(name))
  }

  /** Every profile is found again by its own CLI name. */
  lemma CliNameRoundTrip(v: GameVersion)
    ensures FromCliName(v.CliName()) == Some(v)
  {
    var r := FromCliName(v.CliName());
    assert r.Some?;
    CliNameInjective(r.value, v);
  }

  /** No two profiles share a CLI name. */
  lemma CliNameInjective(a: GameVersion, b: GameVersion)
    requires a.CliName() == b.CliName()
    ensures a == b
  {
    assert a.CliName()[0] == b.CliName()[0] && |a.CliName()| == |b.CliName()|;
    if |a.CliName()| == 8 {
      assert a.CliName()[2] == b.CliName()[2] && a.CliName()[7] == b.CliName()[7];
    } else if |a.CliName()| == 12 {
      assert a.CliName()[11] == b.CliName()[11];
    }
  }

  /** The lookup ignores case. */
  lemma FromCliNameIgnoresCase(name: string)
    ensures FromCliName(name) == FromCliName(Lower(name))
  {
    LowerIdempotent(name);
  }

  /** `detect_game_version`: TES3 archives are Morrowind, BA2 archives the default FO4/FO76
      profile, and a BSA is classified by its header version (`header`, None when the codec
      cannot read the archive, which falls back to Fallout 3). */
  function DetectGameVersion(format: Option<ArchiveFormat>, header: Option<Tes4Version>): (r: Option<GameVersion>)
    ensures r.Some? <==> format.Some?
    ensures r.Some? ==> (r.value.IsTes3() <==> format == Some(Tes3Bsa))
    ensures r.Some? ==> (r.value.IsBa2() <==> format == Some(Ba2))
    ensures format == Some(Ba2) ==> r == Some(DefaultGameVersion)
    ensures format == Some(Bsa) && header.Some? ==> r.value.BsaVersion() == header
    ensures format == Some(Bsa) && header.None? ==> r == Some(Fallout3)
  {
    match format
    case None => None
    case Some(Tes3Bsa) => Some(Morrowind)
    case Some(Ba2) => Some(Fallout4Fo76)
    case Some(Bsa) =>
      match header
      case Some(V103) => Some(Oblivion)
      case Some(V104) => Some(Fallout3)
      case Some(V105) => Some(SkyrimSE)
      case None => Some(Fallout3)
  }

  /** The TES4 archive flags this handler uses (`ArchiveFlags`, a bit set, as a set). */
  datatype ArchiveFlag =
    | DirectoryStrings | FileStrings | Compressed
    | RetainDirectoryNames | RetainFileNames | RetainFileNameOffsets

  /** The TES4 content types (`ArchiveTypes`, a bit set, as a set). */
  datatype ArchiveType = Meshes | Textures | Menus | Sounds | Voices | Shaders | Trees | Fonts | Misc

  function DefaultFlagsFo3(): set<ArchiveFlag> {
    {DirectoryStrings, FileStrings, Compressed, RetainDirectoryNames, RetainFileNames, RetainFileNameOffsets}
  }

  function DefaultFlagsOblivion(): set<ArchiveFlag> {
    {DirectoryStrings, FileStrings}
  }

  /** The Oblivion defaults are the FO3 defaults without compression or the retain flags. */
  lemma OblivionFlagsAreUncompressedFo3Flags()
    ensures DefaultFlagsOblivion() == DefaultFlagsFo3() - {Compressed, RetainDirectoryNames, RetainFileNames, RetainFileNameOffsets}
    ensures Compressed in DefaultFlagsFo3() && Compressed !in DefaultFlagsOblivion()
  {
  }

  /** A name containing `big` also contains every piece of it. */
  lemma ContainsInfix(t: string, big: string, i: nat, j: nat)
    requires Contains(t, big) && i <= j <= |big|
    ensures Contains(t, big[i..j])
  {
    var at := IndexOf(t, big).value;
    assert t[at..at + |big|] == big;
    var piece := big[i..j];
    assert forall k :: 0 <= k < |piece| ==> piece[k] == big[i + k] == t[at + i + k];
    assert t[at + i..at + j] == piece;
    assert OccursAt(t, piece, at + i);
  }

  /** `detect_types`: the first of meshes, textures, menuvoices, voices, sound that the
      lower-cased name contains decides the type; none of them gives MISC. Since
      "menuvoices" contains "voices", each type is chosen exactly when its keyword is the
      first of meshes, textures, voices, sound to occur in that order of precedence. */
  function DetectTypes(name: string): (r: set<ArchiveType>)
    ensures r in {{Meshes}, {Textures}, {Menus, Voices}, {Voices}, {Sounds}, {Misc}}
    ensures var l := Lower(name);
      Meshes in r <==> Contains(l, "meshes")
    ensures var l := Lower(name);
      Textures in r <==> !Contains(l, "meshes") && Contains(l, "textures")
    ensures var l := Lower(name);
      Voices in r <==> !Contains(l, "meshes") && !Contains(l, "textures") && Contains(l, "voices")
    ensures var l := Lower(name);
      Menus in r <==> !Contains(l, "meshes") && !Contains(l, "textures") && Contains(l, "menuvoices")
    ensures var l := Lower(name);
      Sounds in r <==>
        !Contains(l, "meshes") && !Contains(l, "textures") && !Contains(l, "voices") && Contains(l, "sound")
    ensures var l := Lower(name);
      Misc in r <==>
        !Contains(l, "meshes") && !Contains(l, "textures") && !Contains(l, "voices") && !Contains(l, "sound")
  {
    var lower := Lower(name);
    if Contains(lower, "meshes") then {Meshes}
    else if Contains(lower, "textures") then {Textures}
    else if Contains(lower, "menuvoices") then
      ContainsInfix(lower, "menuvoices", 4, 10);
      assert "menuvoices"[4..10] == "voices";
      {Menus, Voices}
    else if Contains(lower, "voices") then {Voices}
    else if Contains(lower, "sound") then {Sounds}
    else {Misc}
  }

  /** Both name heuristics ignore case. */
  lemma HeuristicsIgnoreCase(name: string)
    ensures DetectTypes(Lower(name)) == DetectTypes(name)
    ensures DetectVersion(Lower(name)) == DetectVersion(name)
  {
    LowerIdempotent(name);
  }

  /** The name fragments that mark an Oblivion archive. */
  const OblivionMarkers: seq<string> := [
    "oblivion", "shiveringisles", "dlcshiveringisles", "dlcbattlehorn", "dlcfrostcrag",
    "dlchorse", "dlcorrery", "dlcthievesden", "dlcvilelair", "knights"]

  /** `detect_version`: v103 exactly when the lower-cased name contains one of the Oblivion
      markers, v104 otherwise; v105 is never guessed. */
  function DetectVersion(name: string): (v: Tes4Version)
    ensures v != V105
    ensures v == V103 <==> exists k :: 0 <= k < |OblivionMarkers| && Contains(Lower(name), OblivionMarkers[k])
  {
    var lower := Lower(name);
    ghost var ms := OblivionMarkers;
    assert ms[0] == "oblivion" && ms[1] == "shiveringisles" && ms[2] == "dlcshiveringisles"
      && ms[3] == "dlcbattlehorn" && ms[4] == "dlcfrostcrag" && ms[5] == "dlchorse"
      && ms[6] == "dlcorrery" && ms[7] == "dlcthievesden" && ms[8] == "dlcvilelair" && ms[9] == "knights";
    if Contains(lower, "oblivion")
       || Contains(lower, "shiveringisles")
       || Contains(lower, "dlcshiveringisles")
       || Contains(lower, "dlcbattlehorn")
       || Contains(lower, "dlcfrostcrag")
       || Contains(lower, "dlchorse")
       || Contains(lower, "dlcorrery")
       || Contains(lower, "dlcthievesden")
       || Contains(lower, "dlcvilelair")
       || Contains(lower, "knights")
    then V103
    else V104
  }

  /** The key a wanted path is normalised to before a batch extraction: TES3 lower-cases,
      BSA turns '/' into '\\' and lower-cases, BA2 turns '\\' into '/' and lower-cases. */
  function WantedKey(format: ArchiveFormat, path: string): string {
    match format
    case Tes3Bsa => Lower(path)
    case Bsa => Lower(Replace(path, '/', '\\'))
    case Ba2 => Lower(Replace(path, '\\', '/'))
  }

  /** The wanted set of `extract_archive_files_batch`; an undetected format is an error. */
  function NormalizeWanted(format: Option<ArchiveFormat>, wanted: seq<string>): (r: Result<set<string>, ArchiveError>)
    ensures r.Err? <==> format.None?
    ensures r.Err? ==> r.error == UnknownFormat
    ensures r.Ok? ==> forall p :: p in wanted ==> WantedKey(format.value, p) in r.value
    ensures r.Ok? ==> forall q :: q in r.value ==> exists p :: p in wanted && WantedKey(format.value, p) == q
    ensures r.Ok? ==> |r.value| <= |wanted|
  {
    match format
    case None => Err(UnknownFormat)
    case Some(f) =>
      var keys := set p | p in wanted :: WantedKey(f, p);
      ImageBound(wanted, f);
      Ok(keys)
  }

  lemma {:induction false} ImageBound(wanted: seq<string>, f: ArchiveFormat)
    ensures |set p | p in wanted :: WantedKey(f, p)| <= |wanted|
  {
    if |wanted| > 0 {
      var init := wanted[..|wanted| - 1];
      ImageBound(init, f);
      assert (set p | p in wanted :: WantedKey(f, p))
          == (set p | p in init :: WantedKey(f, p)) + {WantedKey(f, wanted[|wanted| - 1])} by {
        assert wanted == init + [wanted[|wanted| - 1]];
      }
    }
  }

  /** Normalised keys are free of the other convention's separator and of upper case. */
  lemma WantedKeyShape(format: ArchiveFormat, path: string)
    ensures Lower(WantedKey(format, path)) == WantedKey(format, path)
    ensures format == Bsa ==> '/' !in WantedKey(format, path)
    ensures format == Ba2 ==> '\\' !in WantedKey(format, path)
  {
    match format
    case Tes3Bsa => LowerIdempotent(path);
    case Bsa =>
      LowerIdempotent(Replace(path, '/', '\\'));
      ReplaceRemoves(path, '/', '\\');
      LowerKeepsNonLetter(Replace(path, '/', '\\'), '/');
    case Ba2 =>
      LowerIdempotent(Replace(path, '\\', '/'));
      ReplaceRemoves(path, '\\', '/');
      LowerKeepsNonLetter(Replace(path, '\\', '/'), '\\');
  }

  /** What each reader obtains when it opens the file (None: the codec rejects it). */
  datatype Opened = Opened(
    tes3: Option<Tes3Reader.Tes3Archive>,
    bsa: Option<BsaReader.BsaArchive>,
    ba2: Option<Ba2Reader.Ba2Archive>)

  /** `list_archive_files`: the listing of the reader for the detected format. */
  method ListArchiveFiles(format: Option<ArchiveFormat>, loaded: Opened) returns (r: Result<seq<string>, ArchiveError>)
    ensures format.None? ==> r == Err(UnknownFormat)
    ensures format == Some(Tes3Bsa) ==>
      r == if loaded.tes3.Some? then Ok(Paths(loaded.tes3.value)) else Err(OpenFailed)
    ensures format == Some(Bsa) ==>
      r == if loaded.bsa.Some? then Ok(Paths(BsaReader.Entries(loaded.bsa.value))) else Err(OpenFailed)
    ensures format == Some(Ba2) ==>
      r == if loaded.ba2.Some? then Ok(Paths(loaded.ba2.value)) else Err(OpenFailed)
  {
    match format
    case None =>
      return Err(UnknownFormat);
    case Some(Tes3Bsa) =>
      if loaded.tes3.None? { return Err(OpenFailed); }
      var paths := Tes3Reader.ListFiles(loaded.tes3.value);
      return Ok(paths);
    case Some(Bsa) =>
      if loaded.bsa.None? { return Err(OpenFailed); }
      var paths := BsaReader.ListFiles(loaded.bsa.value);
      return Ok(paths);
    case Some(Ba2) =>
      if loaded.ba2.None? { return Err(OpenFailed); }
      var paths := Ba2Reader.ListFiles(loaded.ba2.value);
      return Ok(paths);
  }

  /** `extract_archive_files_batch`: normalise the wanted paths for the detected format and
      run that reader's batch extraction. */
  method ExtractArchiveFilesBatch(format: Option<ArchiveFormat>, loaded: Opened, wantedFiles: seq<string>,
                                  decompress: Bytes -> Option<Bytes>, write: Ba2Reader.Ba2Stored -> Option<Bytes>,
                                  sink: (string, Bytes) -> bool)
    returns (r: Result<nat, ArchiveError>)
    ensures format.None? ==> r == Err(UnknownFormat)
    ensures format == Some(Tes3Bsa) ==>
      if loaded.tes3.Some? then
        BatchOutcome(Matching(loaded.tes3.value, Tes3Reader.Tes3Lookup, NormalizeWanted(format, wantedFiles).value),
                     Tes3Reader.Raw, sink, r)
      else r == Err(OpenFailed)
    ensures format == Some(Bsa) ==>
      if loaded.bsa.Some? then
        BatchOutcome(Matching(BsaReader.Entries(loaded.bsa.value), BsaReader.BsaLookup, NormalizeWanted(format, wantedFiles).value),
                     f => BsaReader.Decoded(f, decompress), sink, r)
      else r == Err(OpenFailed)
    ensures format == Some(Ba2) ==>
      if loaded.ba2.Some? then
        BatchOutcome(Matching(loaded.ba2.value, Ba2Reader.Ba2Lookup, NormalizeWanted(format, wantedFiles).value),
                     write, sink, r)
      else r == Err(OpenFailed)
  {
    var wanted := NormalizeWanted(format, wantedFiles);
    if wanted.Err? {
      return Err(wanted.error);
    }
    match format.value
    case Tes3Bsa =>
      if loaded.tes3.None? { return Err(OpenFailed); }
      r := Tes3Reader.ExtractFilesBatch(loaded.tes3.value, wanted.value, sink);
    case Bsa =>
      if loaded.bsa.None? { return Err(OpenFailed); }
      r := BsaReader.ExtractFilesBatch(loaded.bsa.value, wanted.value, decompress, sink);
    case Ba2 =>
      if loaded.ba2.None? { return Err(OpenFailed); }
      r := Ba2Reader.ExtractFilesBatch(loaded.ba2.value, wanted.value, write, sink);
  }

  /** Asking for every listed TES3 path selects every entry. */
  lemma {:induction false} ListedTes3PathsAllSelected(a: Tes3Reader.Tes3Archive)
    ensures Matching(a, Tes3Reader.Tes3Lookup, NormalizeWanted(Some(Tes3Bsa), Paths(a)).value) == a
  {
    var wanted := NormalizeWanted(Some(Tes3Bsa), Paths(a)).value;
    forall k | 0 <= k < |a| ensures Tes3Reader.Tes3Lookup(a[k].path) in wanted {
      assert Paths(a)[k] in Paths(a);
    }
    MatchingAll(a, Tes3Reader.Tes3Lookup, wanted);
  }

  /** Asking for every listed BA2 path selects every entry. */
  lemma {:induction false} ListedBa2PathsAllSelected(a: Ba2Reader.Ba2Archive)
    ensures Matching(a, Ba2Reader.Ba2Lookup, NormalizeWanted(Some(Ba2), Paths(a)).value) == a
  {
    var wanted := NormalizeWanted(Some(Ba2), Paths(a)).value;
    forall k | 0 <= k < |a| ensures Ba2Reader.Ba2Lookup(a[k].path) in wanted {
      assert Paths(a)[k] in Paths(a);
    }
    MatchingAll(a, Ba2Reader.Ba2Lookup, wanted);
  }

  /** Asking for every listed BSA path selects every pair, provided no folder or file name
      contains '/' (the BSA normalisation would turn it into '\\'). */
  lemma {:induction false} ListedBsaPathsAllSelected(a: BsaReader.BsaArchive)
    requires forall k :: 0 <= k < |BsaReader.Pairs(a)| ==> '/' !in BsaReader.Pairs(a)[k].dir && '/' !in BsaReader.Pairs(a)[k].name
    ensures var es := BsaReader.Entries(a);
            Matching(es, BsaReader.BsaLookup, NormalizeWanted(Some(Bsa), Paths(es)).value) == es
  {
    var es := BsaReader.Entries(a);
    var wanted := NormalizeWanted(Some(Bsa), Paths(es)).value;
    forall k | 0 <= k < |es| ensures BsaReader.BsaLookup(es[k].path) in wanted {
      assert Paths(es)[k] in Paths(es);
      var p := es[k].path;
      assert '/' !in p;
      assert Replace(p, '/', '\\') == p;
    }
    MatchingAll(es, BsaReader.BsaLookup, wanted);
  }
}
