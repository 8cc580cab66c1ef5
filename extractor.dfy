/**
 * The decision rules of the data extractor's export commands: which engine
 * a game folder holds, where its shared archive lives, how a quoted CSV
 * cell is written, and the header fields of an exported sound sample.
 * File existence is a set of file names present in the game folder.
 */
module DataExtractor {
  import opened Common
  import opened Text

  // ---------------------------------------------------------------------
  // Engine version

  datatype EngineVersion = PS1_Edu | PC_Kit | PC_Fan | PC_Edu

  /**
   * The engine version the marker files in the game folder select: a
   * SYSTEM.CNF always means PS1, and a kit or fan version is chosen only
   * when its executable is present.
   */
  function DetectEngineVersion(files: set<string>): (v: EngineVersion)
    ensures v == PS1_Edu <==> "SYSTEM.CNF" in files
    ensures v == PC_Kit ==> "RAYKIT.EXE" in files
    ensures v == PC_Fan ==> "RAYFAN.EXE" in files || "RAYPLUS.EXE" in files
  {
    if "SYSTEM.CNF" in files then PS1_Edu
    else if "RAYKIT.EXE" in files then PC_Kit
    else if "RAYFAN.EXE" in files || "RAYPLUS.EXE" in files then PC_Fan
    else PC_Edu
  }

  /** The version a single marker file stands for, if it is one. */
  function MarkerVersion(file: string): Option<EngineVersion> {
    match file
    case "SYSTEM.CNF" => Some(PS1_Edu)
    case "RAYKIT.EXE" => Some(PC_Kit)
    case "RAYFAN.EXE" => Some(PC_Fan)
    case "RAYPLUS.EXE" => Some(PC_Fan)
    case _ => None
  }

  /** Earlier tests win: the lower the rank, the higher the priority. */
  function Rank(v: EngineVersion): nat {
    match v
    case PS1_Edu => 0
    case PC_Kit => 1
    case PC_Fan => 2
    case PC_Edu => 3
  }

  /**
   * The version chosen is that of the highest-priority marker present; with
   * no marker at all it is the educational PC release.
   */
  lemma DetectPicksBestMarker(files: set<string>)
    ensures forall f | f in files && MarkerVersion(f).Some? ::
      Rank(DetectEngineVersion(files)) <= Rank(MarkerVersion(f).value)
    ensures DetectEngineVersion(files) == PC_Edu <==> forall f | f in files :: MarkerVersion(f).None?
    ensures DetectEngineVersion(files) != PC_Edu ==>
      exists f | f in files :: MarkerVersion(f) == Some(DetectEngineVersion(files))
  {
    var v := DetectEngineVersion(files);
    if v == PC_Edu {
      forall f | f in files
        ensures MarkerVersion(f).None?
      {
        assert f != "SYSTEM.CNF" && f != "RAYKIT.EXE" && f != "RAYFAN.EXE" && f != "RAYPLUS.EXE";
      }
    } else if v == PS1_Edu {
      assert MarkerVersion("SYSTEM.CNF") == Some(v);
    } else if v == PC_Kit {
      assert MarkerVersion("RAYKIT.EXE") == Some(v);
    } else if "RAYFAN.EXE" in files {
      assert MarkerVersion("RAYFAN.EXE") == Some(v);
    } else {
      assert MarkerVersion("RAYPLUS.EXE") == Some(v);
    }
  }

  /** Files that are not markers never change the version. */
  lemma OtherFilesIgnored(files: set<string>, extra: set<string>)
    requires forall f | f in extra :: MarkerVersion(f).None?
    ensures DetectEngineVersion(files + extra) == DetectEngineVersion(files)
  {
    assert MarkerVersion("SYSTEM.CNF").Some? && MarkerVersion("RAYKIT.EXE").Some?;
    assert MarkerVersion("RAYFAN.EXE").Some? && MarkerVersion("RAYPLUS.EXE").Some?;
  }

  // ---------------------------------------------------------------------
  // Archive paths, as the components given to Path.Combine

  /** COMMON.DAT sits in the volume folder on PS1 and directly in PCMAP otherwise. */
  function CommonArchivePath(gamePath: string, volume: string, version: EngineVersion): (p: seq<string>)
    ensures |p| == (if version == PS1_Edu then 4 else 3)
    ensures p[..2] == [gamePath, "PCMAP"] && p[|p| - 1] == "COMMON.DAT"
    ensures version == PS1_Edu ==> p[2] == volume
  {
    if version == PS1_Edu then [gamePath, "PCMAP", volume, "COMMON.DAT"]
    else [gamePath, "PCMAP", "COMMON.DAT"]
  }

  /** SPECIAL.DAT always sits in the volume folder. */
  function SpecialArchivePath(gamePath: string, volume: string): (p: seq<string>)
    ensures |p| == 4 && p[..3] == [gamePath, "PCMAP", volume] && p[|p| - 1] == "SPECIAL.DAT"
  {
    [gamePath, "PCMAP", volume, "SPECIAL.DAT"]
  }

  /**
   * On PS1 the two archives share the volume folder; on PC every volume of
   * a game reads the same COMMON.DAT.
   */
  lemma CommonArchiveLocation(gamePath: string, volume: string, other: string, version: EngineVersion)
    ensures version == PS1_Edu ==>
      CommonArchivePath(gamePath, volume, version)[..3] == SpecialArchivePath(gamePath, volume)[..3]
    ensures version == PS1_Edu && volume != other ==>
      CommonArchivePath(gamePath, volume, version) != CommonArchivePath(gamePath, other, version)
    ensures version != PS1_Edu ==>
      CommonArchivePath(gamePath, volume, version) == CommonArchivePath(gamePath, other, version)
  {
    if version == PS1_Edu && volume != other {
      assert CommonArchivePath(gamePath, volume, version)[2] != CommonArchivePath(gamePath, other, version)[2];
    }
  }

  // ---------------------------------------------------------------------
  // The quoted CSV cell of the level and versions sheets

  /** `writeValue(str)`: the value without leading or trailing '/', in double quotes, then ','. */
  function WriteValue(sb: string, str: string): (sb': string)
    ensures |sb'| >= |sb| + 3 && sb'[..|sb|] == sb
    ensures sb'[|sb|] == '"' && sb'[|sb'| - 2..] == "\","
    ensures var inner := sb'[|sb| + 1..|sb'| - 2];
      |inner| <= |str| && (|inner| > 0 ==> inner[0] != '/' && inner[|inner| - 1] != '/')
  {
    sb + "\"" + Trim(str, '/') + "\","
  }

  /** The cell shows the value itself when it neither starts nor ends with '/'. */
  lemma WriteValueKeepsPlainValue(sb: string, str: string)
    requires |str| > 0 ==> str[0] != '/' && str[|str| - 1] != '/'
    ensures WriteValue(sb, str) == sb + "\"" + str + "\","
  {
    TrimUntouched(str, '/');
  }

  /** Slashes already trimmed make no difference: writing a written value again writes the same cell. */
  lemma WriteValueTrimmed(sb: string, str: string)
    ensures WriteValue(sb, Trim(str, '/')) == WriteValue(sb, str)
  {
    TrimIdempotent(str, '/');
  }

  // ---------------------------------------------------------------------
  // Sound sample header

  /** The fields of a RIFF `fmt ` chunk. */
  datatype WavFormat = WavFormat(
    formatType: ushort,
    channelCount: ushort,
    sampleRate: uint,
    byteRate: uint,
    blockAlign: ushort,
    bitsPerSample: ushort)

  /** An exported sample: the header and the raw 8-bit samples. */
  datatype Wav = Wav(format: WavFormat, data: seq<byte>)

  /** Unchecked `uint` arithmetic keeps the low 32 bits. */
  function ToUInt(n: nat): uint {
    (n % 0x1_0000_0000) as uint
  }

  /** Unchecked `int` arithmetic keeps the low 32 bits as a signed value. */
  function ToInt32(n: int): int {
    (n + 0x8000_0000) % 0x1_0000_0000 - 0x8000_0000
  }

  /** C# integer division truncates toward zero. */
  function DivTrunc(a: int, b: nat): int
    requires b > 0
  {
    if a >= 0 then a / b else -((-a) / b)
  }

  /** A `(ushort)` cast keeps the low 16 bits. */
  function ToUShort(n: int): ushort {
    (n % 0x1_0000) as ushort
  }

  /**
   * `(SampleRate * BitsPerSample * ChannelCount) / 8` in unchecked `uint`
   * arithmetic: exact while the product fits in 32 bits.
   */
  function ByteRate(sampleRate: uint, bitsPerSample: ushort, channelCount: ushort): (rate: uint)
    ensures rate as int < 0x2000_0000
    ensures sampleRate as int * bitsPerSample as int * channelCount as int < 0x1_0000_0000 ==>
      rate as int == (sampleRate as int * bitsPerSample as int * channelCount as int) / 8
  {
    UIntProductExact(sampleRate as int * bitsPerSample as int, channelCount as int);
    ToUInt(ToUInt(sampleRate as int * bitsPerSample as int) as int * channelCount as int) / 8
  }

  /** Wrapping the first factor changes nothing when the whole product fits in 32 bits. */
  lemma UIntProductExact(p: nat, c: nat)
    ensures p * c < 0x1_0000_0000 ==> ToUInt(ToUInt(p) as int * c) as int == p * c
  {
    if p * c < 0x1_0000_0000 && c > 0 {
      MulAtLeast(p, c);
      assert ToUInt(p) as int == p;
    }
  }

  /**
   * `(ushort)((BitsPerSample * ChannelCount) / 8)` in unchecked `int`
   * arithmetic: exact while the frame size fits in a `ushort`.
   */
  function BlockAlign(bitsPerSample: ushort, channelCount: ushort): (align: ushort)
    ensures bitsPerSample as int * channelCount as int < 0x8_0000 ==>
      align as int == (bitsPerSample as int * channelCount as int) / 8
  {
    var frameBits := bitsPerSample as int * channelCount as int;
    SmallFrameExact(frameBits);
    ToUShort(DivTrunc(ToInt32(frameBits), 8))
  }

  /** A frame of fewer than 2^19 bits passes the `int` and `ushort` conversions unchanged. */
  lemma SmallFrameExact(frameBits: int)
    ensures 0 <= frameBits < 0x8_0000 ==> ToUShort(DivTrunc(ToInt32(frameBits), 8)) as int == frameBits / 8
  {
    if 0 <= frameBits < 0x8_0000 {
      assert ToInt32(frameBits) == frameBits;
    }
  }

  /**
   * The derived fields, as computed: the byte rate in `uint` arithmetic, the
   * block alignment in `int` arithmetic cast to `ushort`.
   */
  function DeriveFormat(formatType: ushort, channelCount: ushort, sampleRate: uint, bitsPerSample: ushort): (fmt: WavFormat)
    ensures fmt.formatType == formatType && fmt.channelCount == channelCount
    ensures fmt.sampleRate == sampleRate && fmt.bitsPerSample == bitsPerSample
  {
    WavFormat(formatType, channelCount, sampleRate, ByteRate(sampleRate, bitsPerSample, channelCount),
              BlockAlign(bitsPerSample, channelCount), bitsPerSample)
  }

  /**
   * Without overflow and with whole-byte frames the header is consistent:
   * each frame is `BitsPerSample * ChannelCount / 8` bytes, and the byte
   * rate is the sample rate times the frame size.
   */
  lemma DeriveFormatConsistent(formatType: ushort, channelCount: ushort, sampleRate: uint, bitsPerSample: ushort)
    requires (bitsPerSample as int * channelCount as int) % 8 == 0
    requires bitsPerSample as int * channelCount as int < 0x1_0000
    requires sampleRate as int * bitsPerSample as int * channelCount as int < 0x1_0000_0000
    ensures var fmt := DeriveFormat(formatType, channelCount, sampleRate, bitsPerSample);
      fmt.blockAlign as int * 8 == bitsPerSample as int * channelCount as int &&
      fmt.byteRate as int == sampleRate as int * fmt.blockAlign as int
  {
    var k := BlockAlignExact(bitsPerSample, channelCount);
    ByteRateExact(sampleRate, bitsPerSample, channelCount, k);
  }

  /** A whole-byte frame of fewer than 65536 bits keeps its exact size in bytes. */
  lemma BlockAlignExact(bitsPerSample: ushort, channelCount: ushort) returns (k: nat)
    requires (bitsPerSample as int * channelCount as int) % 8 == 0
    requires bitsPerSample as int * channelCount as int < 0x1_0000
    ensures bitsPerSample as int * channelCount as int == 8 * k
    ensures BlockAlign(bitsPerSample, channelCount) as int == k
  {
    var frameBits := bitsPerSample as int * channelCount as int;
    k := frameBits / 8;
    assert ToInt32(frameBits) == frameBits;
    assert DivTrunc(frameBits, 8) == k;
  }

  /** Without overflow the byte rate is the exact product over 8. */
  lemma ByteRateExact(sampleRate: uint, bitsPerSample: ushort, channelCount: ushort, k: nat)
    requires bitsPerSample as int * channelCount as int == 8 * k
    requires sampleRate as int * bitsPerSample as int * channelCount as int < 0x1_0000_0000
    ensures ByteRate(sampleRate, bitsPerSample, channelCount) as int == sampleRate as int * k
  {
    var sr, bps, ch := sampleRate as nat, bitsPerSample as nat, channelCount as nat;
    if ch == 0 {
      assert k == 0;
      assert ToUInt(sr * bps) as int * ch == 0;
    } else {
      ScaledProduct(sr, bps, ch, k);
      assert ToUInt(sr * bps) as int == sr * bps;
      assert ToUInt(sr * bps * ch) as int == sr * bps * ch;
    }
  }

  /** The arithmetic behind `ByteRateExact`. */
  lemma ScaledProduct(sr: nat, bps: nat, ch: nat, k: nat)
    requires ch > 0 && bps * ch == 8 * k
    requires sr * bps * ch < 0x1_0000_0000
    ensures sr * bps < 0x1_0000_0000
    ensures (sr * bps * ch) / 8 == sr * k
  {
    var p := sr * bps;
    MulAtLeast(p, ch);
    MulAssociates(sr, bps, ch);
    assert sr * (bps * ch) == sr * (8 * k);
    MulAssociates(sr, 8, k);
    assert sr * 8 * k == 8 * (sr * k);
  }

  lemma MulAtLeast(a: nat, c: nat)
    requires c > 0
    ensures a <= a * c
  {
    assert a * c == a + a * (c - 1);
  }

  lemma MulAssociates(a: nat, b: nat, c: nat)
    ensures a * b * c == a * (b * c)
  {
  }

  /** The sample format of the sound export: 8-bit mono PCM at 11025 Hz. */
  function SoundSample(rawData: seq<byte>): (wav: Wav)
    ensures wav.data == rawData
    ensures wav.format.formatType == 1 && wav.format.channelCount == 1
    ensures wav.format.sampleRate == 11025 && wav.format.bitsPerSample == 8
    ensures wav.format.byteRate == 11025 && wav.format.blockAlign == 1
  {
    DeriveFormatConsistent(1, 1, 11025, 8);
    Wav(DeriveFormat(1, 1, 11025, 8), rawData)
  }
}
