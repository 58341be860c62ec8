/**
 * The WAV container written by the microphone capture (components/mic/mic_capture.c): little-endian
 * integer fields and the canonical 44-byte PCM header of the RIFF WAVE form, as laid down by the
 * Microsoft/IBM Multimedia Programming Interface and Data Specifications 1.0 (a "RIFF" chunk of form
 * "WAVE" holding a 16-byte "fmt " chunk with format category 1, PCM, then the "data" chunk).
 */
module Wav {
  import opened Common

  /** The value of a little-endian byte string: first byte least significant. */
  function DecodeLe(bs: seq<byte>): nat
  {
    if bs == [] then 0 else bs[0] as nat + 256 * DecodeLe(bs[1..])
  }

  lemma DecodeLe2(bs: seq<byte>)
    requires |bs| == 2
    ensures DecodeLe(bs) == bs[0] as nat + 256 * bs[1] as nat
  {
    var t := bs[1..];
    assert t[1..] == [];
    assert DecodeLe(t) == t[0] as nat + 256 * DecodeLe(t[1..]);
  }

  lemma DecodeLe4(bs: seq<byte>)
    requires |bs| == 4
    ensures DecodeLe(bs) == bs[0] as nat + 256 * bs[1] as nat + 0x1_0000 * bs[2] as nat
      + 0x100_0000 * bs[3] as nat
  {
    var t := bs[1..];
    var u := t[1..];
    DecodeLe2(u);
    assert u[0] == bs[2] && u[1] == bs[3] && t[0] == bs[1];
    assert DecodeLe(t) == bs[1] as nat + 256 * DecodeLe(u);
  }

  /** `s_write_le16`: the two bytes of a 16-bit value, least significant first. */
  function Le16(v: nat): (r: seq<byte>)
    requires v < Uint16Modulus
    ensures |r| == 2 && DecodeLe(r) == v
  {
    var r := [(v % 256) as byte, (v / 256 % 256) as byte];
    DecodeLe2(r);
    r
  }

  /** A 32-bit value is its four base-256 digits, each taken by one more shift by 8 bits. */
  lemma Digits32(v: nat)
    requires v < Uint32Modulus
    ensures v / 256 / 256 / 256 < 256
    ensures v == v % 256 + 256 * (v / 256 % 256) + 0x1_0000 * (v / 256 / 256 % 256)
      + 0x100_0000 * (v / 256 / 256 / 256)
  {
    var q1 := v / 256;
    var q2 := q1 / 256;
    var q3 := q2 / 256;
    assert v == v % 256 + 256 * q1;
    assert q1 == q1 % 256 + 256 * q2;
    assert q2 == q2 % 256 + 256 * q3;
  }

  /** `s_write_le32`: the four bytes of a 32-bit value, least significant first. */
  function Le32(v: nat): (r: seq<byte>)
    requires v < Uint32Modulus
    ensures |r| == 4 && DecodeLe(r) == v
  {
    Digits32(v);
    var r := [(v % 256) as byte, (v / 256 % 256) as byte, (v / 256 / 256 % 256) as byte,
      (v / 256 / 256 / 256) as byte];
    DecodeLe4(r);
    r
  }

  /** The low byte and the rest of `a + 256 * n`. */
  lemma SplitLowByte(a: nat, n: nat)
    requires a < 256
    ensures (a + 256 * n) % 256 == a && (a + 256 * n) / 256 == n
  {
  }

  /** Byte strings of one length that decode to the same value are equal. */
  lemma {:induction false} DecodeLeInjective(x: seq<byte>, y: seq<byte>)
    requires |x| == |y| && DecodeLe(x) == DecodeLe(y)
    ensures x == y
  {
    if x != [] {
      SplitLowByte(x[0] as nat, DecodeLe(x[1..]));
      SplitLowByte(y[0] as nat, DecodeLe(y[1..]));
      DecodeLeInjective(x[1..], y[1..]);
      assert x == [x[0]] + x[1..] && y == [y[0]] + y[1..];
    }
  }

  /** Encoding the value a 2- or 4-byte string decodes to gives that string back. */
  lemma LeOfDecode(bs: seq<byte>)
    ensures |bs| == 2 ==> DecodeLe(bs) < Uint16Modulus && Le16(DecodeLe(bs)) == bs
    ensures |bs| == 4 ==> DecodeLe(bs) < Uint32Modulus && Le32(DecodeLe(bs)) == bs
  {
    if |bs| == 2 {
      DecodeLe2(bs);
      DecodeLeInjective(Le16(DecodeLe(bs)), bs);
    }
    if |bs| == 4 {
      DecodeLe4(bs);
      DecodeLeInjective(Le32(DecodeLe(bs)), bs);
    }
  }

  /** The bytes of a four-character chunk identifier. */
  function FourCC(s: string): (r: seq<byte>)
    requires |s| == 4 && forall i :: 0 <= i < 4 ==> s[i] as int < 256
    ensures |r| == 4
  {
    [s[0] as int as byte, s[1] as int as byte, s[2] as int as byte, s[3] as int as byte]
  }

  const Riff: seq<byte> := FourCC("RIFF")
  const Wave: seq<byte> := FourCC("WAVE")
  const Fmt: seq<byte> := FourCC("fmt ")
  const Data: seq<byte> := FourCC("data")

  const HeaderBytes: nat := 44
  const FmtChunkBytes: nat := 16
  const PcmFormat: nat := 1

  /** The parameters a header records; `dataBytes` is the size of the sample data that follows. */
  datatype WavFormat = WavFormat(sampleRate: nat, bitsPerSample: nat, channels: nat, dataBytes: nat)
  {
    /** Each field fits the width `s_write_wav_header` takes it in. */
    predicate Fits()
    {
      sampleRate < Uint32Modulus && bitsPerSample < Uint16Modulus && channels < Uint16Modulus
      && dataBytes < Uint32Modulus
    }

    /** `byte_rate`, computed in 32-bit unsigned arithmetic. */
    function ByteRate(): nat
    {
      (sampleRate * channels * (bitsPerSample / 8)) % Uint32Modulus
    }

    /** `block_align`, stored in a 16-bit unsigned variable. */
    function BlockAlign(): nat
    {
      (channels * (bitsPerSample / 8)) % Uint16Modulus
    }

    /** `riff_size`: the bytes after the RIFF size field, in 32-bit unsigned arithmetic. */
    function RiffSize(): nat
    {
      (36 + dataBytes) % Uint32Modulus
    }
  }

  /** `s_write_wav_header`: the 44 bytes it writes, field after field. */
  function WavHeader(f: WavFormat): (r: seq<byte>)
    requires f.Fits()
    ensures |r| == HeaderBytes
  {
    Riff + Le32(f.RiffSize()) + Wave + Fmt + Le32(FmtChunkBytes) + Le16(PcmFormat) + Le16(f.channels)
    + Le32(f.sampleRate) + Le32(f.ByteRate()) + Le16(f.BlockAlign()) + Le16(f.bitsPerSample) + Data
    + Le32(f.dataBytes)
  }

  /**
   * Reading a 44-byte PCM header back: the chunk identifiers and fixed fields must be in place and
   * the derived fields (RIFF size, byte rate, block alignment) consistent with the others.
   */
  function ParseHeader(h: seq<byte>): Option<WavFormat>
  {
    if |h| != HeaderBytes then None
    else
      var f := WavFormat(DecodeLe(h[24..28]), DecodeLe(h[34..36]), DecodeLe(h[22..24]),
        DecodeLe(h[40..44]));
      if h[0..4] == Riff && h[8..12] == Wave && h[12..16] == Fmt && DecodeLe(h[16..20]) == FmtChunkBytes
        && DecodeLe(h[20..22]) == PcmFormat && h[36..40] == Data && DecodeLe(h[4..8]) == f.RiffSize()
        && DecodeLe(h[28..32]) == f.ByteRate() && DecodeLe(h[32..34]) == f.BlockAlign()
      then Some(f)
      else None
  }

  /** Where the chunk identifiers and the fixed fields of the header sit. */
  lemma FixedFields(f: WavFormat)
    requires f.Fits()
    ensures var h := WavHeader(f);
      h[0..4] == Riff && h[4..8] == Le32(f.RiffSize()) && h[8..12] == Wave && h[12..16] == Fmt
      && h[16..20] == Le32(FmtChunkBytes) && h[20..22] == Le16(PcmFormat) && h[36..40] == Data
  {
  }

  /** Where the format's own fields sit in the header. */
  lemma FormatFields(f: WavFormat)
    requires f.Fits()
    ensures var h := WavHeader(f);
      h[22..24] == Le16(f.channels) && h[24..28] == Le32(f.sampleRate) && h[28..32] == Le32(f.ByteRate())
      && h[32..34] == Le16(f.BlockAlign()) && h[34..36] == Le16(f.bitsPerSample)
      && h[40..44] == Le32(f.dataBytes)
  {
    var h := WavHeader(f);
    var fixed := Riff + Le32(f.RiffSize()) + Wave + Fmt + Le32(FmtChunkBytes) + Le16(PcmFormat);
    var fmt := Le16(f.channels) + Le32(f.sampleRate) + Le32(f.ByteRate()) + Le16(f.BlockAlign())
      + Le16(f.bitsPerSample);
    assert h == fixed + fmt + Data + Le32(f.dataBytes);
    assert |fixed| == 22 && |fmt| == 14;
    assert h[22..36] == fmt;
    assert h[40..44] == Le32(f.dataBytes);
  }

  /** Where each field of the header sits. */
  lemma HeaderFields(f: WavFormat)
    requires f.Fits()
    ensures var h := WavHeader(f);
      h[0..4] == Riff && h[4..8] == Le32(f.RiffSize()) && h[8..12] == Wave && h[12..16] == Fmt
      && h[16..20] == Le32(FmtChunkBytes) && h[20..22] == Le16(PcmFormat) && h[22..24] == Le16(f.channels)
      && h[24..28] == Le32(f.sampleRate) && h[28..32] == Le32(f.ByteRate())
      && h[32..34] == Le16(f.BlockAlign()) && h[34..36] == Le16(f.bitsPerSample) && h[36..40] == Data
      && h[40..44] == Le32(f.dataBytes)
  {
    FixedFields(f);
    FormatFields(f);
  }

  /** A header parses back to the parameters it was written from. */
  lemma HeaderRoundTrip(f: WavFormat)
    requires f.Fits()
    ensures ParseHeader(WavHeader(f)) == Some(f)
  {
    HeaderFields(f);
  }

  /** Every 44 bytes that parse are exactly the header written from what they parse to. */
  lemma ParsedHeaderIsWritten(h: seq<byte>)
    requires ParseHeader(h).Some?
    ensures ParseHeader(h).value.Fits() && WavHeader(ParseHeader(h).value) == h
  {
    var f := ParseHeader(h).value;
    LeOfDecode(h[4..8]);
    LeOfDecode(h[16..20]);
    LeOfDecode(h[20..22]);
    LeOfDecode(h[22..24]);
    LeOfDecode(h[24..28]);
    LeOfDecode(h[28..32]);
    LeOfDecode(h[32..34]);
    LeOfDecode(h[34..36]);
    LeOfDecode(h[40..44]);
    HeaderFields(f);
    var w := WavHeader(f);
    assert forall i | 0 <= i < 44 :: w[i] == h[i] by {
      forall i | 0 <= i < 44
        ensures w[i] == h[i]
      {
        if i < 4 { assert w[i] == w[0..4][i]; assert h[i] == h[0..4][i]; }
        else if i < 8 { assert w[i] == w[4..8][i - 4]; assert h[i] == h[4..8][i - 4]; }
        else if i < 12 { assert w[i] == w[8..12][i - 8]; assert h[i] == h[8..12][i - 8]; }
        else if i < 16 { assert w[i] == w[12..16][i - 12]; assert h[i] == h[12..16][i - 12]; }
        else if i < 20 { assert w[i] == w[16..20][i - 16]; assert h[i] == h[16..20][i - 16]; }
        else if i < 22 { assert w[i] == w[20..22][i - 20]; assert h[i] == h[20..22][i - 20]; }
        else if i < 24 { assert w[i] == w[22..24][i - 22]; assert h[i] == h[22..24][i - 22]; }
        else if i < 28 { assert w[i] == w[24..28][i - 24]; assert h[i] == h[24..28][i - 24]; }
        else if i < 32 { assert w[i] == w[28..32][i - 28]; assert h[i] == h[28..32][i - 28]; }
        else if i < 34 { assert w[i] == w[32..34][i - 32]; assert h[i] == h[32..34][i - 32]; }
        else if i < 36 { assert w[i] == w[34..36][i - 34]; assert h[i] == h[34..36][i - 34]; }
        else if i < 40 { assert w[i] == w[36..40][i - 36]; assert h[i] == h[36..40][i - 36]; }
        else { assert w[i] == w[40..44][i - 40]; assert h[i] == h[40..44][i - 40]; }
      }
    }
  }

  /** The header the recorder writes: 16 kHz, 32-bit samples, one channel. */
  const SampleRateHz: nat := 16000
  const BitsPerSample: nat := 32
  const Channels: nat := 1
  const BytesPerSample: nat := 4

  /** The `data_bytes` value for `captured` samples: `captured * 4` cast to 32 bits. */
  function DataBytes(captured: nat): (r: nat)
    ensures r < Uint32Modulus && r <= BytesPerSample * captured
    ensures BytesPerSample * captured < Uint32Modulus ==> r == BytesPerSample * captured
  {
    (BytesPerSample * captured) % Uint32Modulus
  }

  function RecorderFormat(captured: nat): (f: WavFormat)
    ensures f.Fits()
  {
    WavFormat(SampleRateHz, BitsPerSample, Channels, DataBytes(captured))
  }

  function RecorderHeader(captured: nat): (r: seq<byte>)
    ensures |r| == HeaderBytes
  {
    WavHeader(RecorderFormat(captured))
  }

  /** The recorder's header declares 64000 bytes per second and 4-byte blocks. */
  lemma RecorderHeaderRates(captured: nat)
    ensures RecorderFormat(captured).ByteRate() == 64000
    ensures RecorderFormat(captured).BlockAlign() == 4
  {
  }

  /** The position of the last `c` in `s`, as `strrchr` finds it. */
  function LastIndexOf(s: string, c: char): (r: Option<nat>)
    ensures r.Some? ==> r.value < |s| && s[r.value] == c && c !in s[r.value + 1..]
    ensures r.None? ==> c !in s
  {
    if s == [] then None
    else if s[|s| - 1] == c then Some(|s| - 1)
    else
      var r := LastIndexOf(s[..|s| - 1], c);
      assert s == s[..|s| - 1] + [s[|s| - 1]];
      assert r.Some? ==> s[r.value + 1..] == s[..|s| - 1][r.value + 1..] + [s[|s| - 1]];
      r
  }

  /** `s_has_wav_extension`: the text from the last '.' on is exactly ".wav". */
  predicate HasWavExtension(path: string)
  {
    match LastIndexOf(path, '.')
    case None => false
    case Some(dot) => path[dot..] == ".wav"
  }

  /** The extension test holds exactly for the paths that end in ".wav". */
  lemma WavExtensionIsSuffix(path: string)
    ensures HasWavExtension(path) <==> |path| >= 4 && path[|path| - 4..] == ".wav"
  {
    var r := LastIndexOf(path, '.');
    if |path| >= 4 && path[|path| - 4..] == ".wav" {
      var d := |path| - 4;
      assert path[d] == '.';
      assert '.' !in path[d + 1..] by {
        assert path[d + 1..] == "wav";
      }
      assert r.Some?;
      assert r.value == d;
    }
  }
}
