/** MPEG Layer III frame headers and the frame splitter
    (backend/internal/stream/mp3.go). */
module Mp3 {
  import opened Prelude

  const BITRATES_V1: seq<int> := [0, 32, 40, 48, 56, 64, 80, 96, 112, 128, 160, 192, 224, 256, 320, 0]
  const BITRATES_V2: seq<int> := [0, 8, 16, 24, 32, 40, 48, 56, 64, 80, 96, 112, 128, 144, 160, 0]
  const SAMPLE_RATES_V1: seq<int> := [44100, 48000, 32000, 0]
  const SAMPLE_RATES_V2: seq<int> := [22050, 24000, 16000, 0]
  const SAMPLE_RATES_V25: seq<int> := [11025, 12000, 8000, 0]

  datatype MpegFrame = MpegFrame(length: nat, sampleRate: nat, samples: nat, channels: nat)

  function Kbps(version: nat, idx: nat): (r: nat)
    requires idx < 16
    ensures 0 < idx < 15 ==> if version == 3 then 32 <= r <= 320 else 8 <= r <= 160
  {
    if version == 3 then BITRATES_V1[idx] else BITRATES_V2[idx]
  }

  function SampleRate(version: nat, idx: nat): (r: nat)
    requires idx < 4
    ensures idx < 3 ==>
      r in (if version == 3 then {44100, 48000, 32000}
            else if version == 2 then {22050, 24000, 16000}
            else {11025, 12000, 8000})
  {
    if version == 3 then SAMPLE_RATES_V1[idx]
    else if version == 2 then SAMPLE_RATES_V2[idx]
    else SAMPLE_RATES_V25[idx]
  }

  function FrameLength(version: nat, bitrateIdx: nat, rateIdx: nat, padding: nat): (r: nat)
    requires 0 < bitrateIdx < 15 && rateIdx < 3 && padding < 2
    ensures 24 <= r <= 1441
  {
    var kbps, rate := Kbps(version, bitrateIdx), SampleRate(version, rateIdx);
    var coefficient := if version == 3 then 144 else 72;
    QuotientBounds(coefficient * kbps * 1000, rate, 24, 1440);
    coefficient * kbps * 1000 / rate + padding
  }

  lemma QuotientBounds(n: nat, d: nat, lo: nat, hi: nat)
    requires d > 0 && lo * d <= n <= hi * d
    ensures lo <= n / d <= hi
  {
    assert n == n / d * d + n % d;
    if n / d < lo {
      Times(n / d + 1, lo, d);
      assert false;
    }
    if n / d > hi {
      Times(hi + 1, n / d, d);
      assert false;
    }
  }

  lemma Times(a: int, b: int, d: nat)
    requires a <= b
    ensures a * d <= b * d
  {
  }

  /** Decodes a Layer III header; bit fields are written as quotients and remainders. */
  function ParseFrameHeader(b: seq<byte>): (r: Option<MpegFrame>)
    ensures r.Some? ==> |b| >= 4 && b[0] == 0xFF
    ensures r.Some? ==> 24 <= r.value.length <= 1441
    ensures r.Some? ==> r.value.samples in {576, 1152}
    ensures r.Some? ==>
      r.value.sampleRate in {44100, 48000, 32000, 22050, 24000, 16000, 11025, 12000, 8000}
  {
    if |b| < 4 then None
    else if b[0] != 0xFF || b[1] / 32 != 7 then None
    else
      var version := (b[1] / 8) % 4;
      var layer := (b[1] / 2) % 4;
      if version == 1 || layer != 1 then None
      else
        var bitrateIdx := b[2] / 16;
        var rateIdx := (b[2] / 4) % 4;
        var padding := (b[2] / 2) % 2;
        var chanMode := b[3] / 64;
        if bitrateIdx == 0 || bitrateIdx == 15 || rateIdx == 3 then None
        else
          var kbps, rate := Kbps(version, bitrateIdx), SampleRate(version, rateIdx);
          var samples := if version == 3 then 1152 else 576;
          if kbps == 0 || rate == 0 then None
          else
            var length := FrameLength(version, bitrateIdx, rateIdx, padding);
            if length < 4 then None
            else Some(MpegFrame(length, rate, samples, if chanMode == 3 then 1 else 2))
  }

  /** Only the first four bytes matter to the header parser. */
  lemma HeaderIsLocal(a: seq<byte>, b: seq<byte>)
    requires |a| >= 4 && |b| >= 4 && a[..4] == b[..4]
    ensures ParseFrameHeader(a) == ParseFrameHeader(b)
  {
    assert forall k :: 0 <= k < 4 ==> a[k] == a[..4][k] && b[k] == b[..4][k];
  }

  /** The header bits of a Layer III frame, ISO/IEC 11172-3 section 2.4.1.3; the last three are not decoded. */
  datatype HeaderFields = HeaderFields(version: nat, bitrateIdx: nat, rateIdx: nat, padding: nat, mode: nat,
                                       protection: nat, private: nat, rest: nat)
  {
    ghost predicate Valid() {
      version in {0, 2, 3} && 0 < bitrateIdx < 15 && rateIdx < 3 && padding < 2 && mode < 4 &&
      protection < 2 && private < 2 && rest < 64
    }

    ghost function Encode(): seq<byte>
      requires Valid()
    {
      [0xFF, 0xE0 + version * 8 + 2 + protection,
       bitrateIdx * 16 + rateIdx * 4 + padding * 2 + private, mode * 64 + rest]
    }
  }

  function Pow2(n: nat): nat {
    if n == 0 then 1 else 2 * Pow2(n - 1)
  }

  /** The Layer III bitrates by their rule: in MPEG-1 (ISO/IEC 11172-3 section 2.4.2.3) four equal steps to each
      doubling from 32 kbit/s on, and at the low sampling frequencies of ISO/IEC 13818-3 steps of 8 kbit/s up to 64,
      then of 16. */
  function Bitrate(version: nat, idx: nat): nat
    requires 0 < idx < 15
  {
    if version == 3 then (4 + (idx - 1) % 4) * 8 * Pow2((idx - 1) / 4)
    else if idx <= 8 then 8 * idx
    else 16 * (idx - 4)
  }

  /** The sample rates by their rule: each version halves the rates of the one above it. */
  function Rate(version: nat, idx: nat): nat
    requires idx < 3
  {
    var top := if idx == 0 then 44100 else if idx == 1 then 48000 else 32000;
    if version == 3 then top else if version == 2 then top / 2 else top / 4
  }

  /** The tables follow the rules. */
  lemma KbpsIs(version: nat, idx: nat)
    requires 0 < idx < 15
    ensures Kbps(version, idx) == Bitrate(version, idx)
  {
    assert Pow2(0) == 1 && Pow2(1) == 2 && Pow2(2) == 4 && Pow2(3) == 8;
    if idx <= 4 {
      assert (idx - 1) / 4 == 0;
    } else if idx <= 8 {
      assert (idx - 1) / 4 == 1;
    } else if idx <= 12 {
      assert (idx - 1) / 4 == 2;
    } else {
      assert (idx - 1) / 4 == 3;
    }
  }

  lemma SampleRateIs(version: nat, idx: nat)
    requires idx < 3
    ensures SampleRate(version, idx) == Rate(version, idx)
  {
  }

  /** Every well-formed header is read back, and its length is the slot count of ISO/IEC 11172-3
      section 2.4.3.1: the whole number of bytes that samples / rate seconds take at the bitrate. */
  lemma HeaderRoundTrip(h: HeaderFields, tail: seq<byte>)
    requires h.Valid()
    ensures var r := ParseFrameHeader(h.Encode() + tail);
      && r.Some?
      && r.value.sampleRate == Rate(h.version, h.rateIdx)
      && (r.value.samples == if h.version == 3 then 1152 else 576)
      && r.value.channels == (if h.mode == 3 then 1 else 2)
      && var slots := r.value.length - h.padding;
         8 * slots * r.value.sampleRate <= r.value.samples * 1000 * Bitrate(h.version, h.bitrateIdx)
           < 8 * (slots + 1) * r.value.sampleRate
  {
    var b := h.Encode() + tail;
    KbpsIs(h.version, h.bitrateIdx);
    SampleRateIs(h.version, h.rateIdx);
    Byte1(h.version, h.protection);
    Byte2(h.bitrateIdx, h.rateIdx, h.padding, h.private);
    Byte3(h.mode, h.rest);
    HeaderReads(b, h.version, h.bitrateIdx, h.rateIdx, h.padding, h.mode);
    hide Bitrate, Rate;
    Slots(if h.version == 3 then 144 else 72, Kbps(h.version, h.bitrateIdx), SampleRate(h.version, h.rateIdx));
  }

  /** The frames this server encodes, MPEG-2 at 22050 Hz and 32 kbit/s in mono: 104 bytes, 105 with the padding
      slot, and 576 samples. */
  lemma StreamFrames(tail: seq<byte>)
    ensures ParseFrameHeader([0xFF, 0xF3, 0x40, 0xC0] + tail) == Some(MpegFrame(104, 22050, 576, 1))
    ensures ParseFrameHeader([0xFF, 0xF3, 0x42, 0xC0] + tail) == Some(MpegFrame(105, 22050, 576, 1))
  {
  }

  lemma Byte1(version: nat, protection: nat)
    requires version < 4 && protection < 2
    ensures var x := 0xE0 + version * 8 + 2 + protection;
      x < 256 && x / 32 == 7 && (x / 8) % 4 == version && (x / 2) % 4 == 1
  {
  }

  lemma Byte2(bitrateIdx: nat, rateIdx: nat, padding: nat, private: nat)
    requires bitrateIdx < 16 && rateIdx < 4 && padding < 2 && private < 2
    ensures var x := bitrateIdx * 16 + rateIdx * 4 + padding * 2 + private;
      x < 256 && x / 16 == bitrateIdx && (x / 4) % 4 == rateIdx && (x / 2) % 2 == padding
  {
    var x := bitrateIdx * 16 + rateIdx * 4 + padding * 2 + private;
    assert x / 4 == bitrateIdx * 4 + rateIdx;
    assert x / 2 == (bitrateIdx * 4 + rateIdx) * 2 + padding;
  }

  lemma Byte3(mode: nat, rest: nat)
    requires mode < 4 && rest < 64
    ensures mode * 64 + rest < 256 && (mode * 64 + rest) / 64 == mode
  {
  }

  /** What the parser answers, given the fields it reads. */
  lemma HeaderReads(b: seq<byte>, version: nat, bitrateIdx: nat, rateIdx: nat, padding: nat, mode: nat)
    requires |b| >= 4 && b[0] == 0xFF && b[1] / 32 == 7
    requires (b[1] / 8) % 4 == version && (b[1] / 2) % 4 == 1 && version != 1
    requires b[2] / 16 == bitrateIdx && (b[2] / 4) % 4 == rateIdx && (b[2] / 2) % 2 == padding
    requires b[3] / 64 == mode && 0 < bitrateIdx < 15 && rateIdx < 3 && padding < 2
    ensures ParseFrameHeader(b) ==
            Some(MpegFrame(FrameLength(version, bitrateIdx, rateIdx, padding), SampleRate(version, rateIdx),
                           if version == 3 then 1152 else 576, if mode == 3 then 1 else 2))
  {
    hide FrameLength;
    hide Kbps;
    hide SampleRate;
  }

  lemma Slots(coefficient: nat, kbps: nat, rate: nat)
    requires rate > 0
    ensures var q := coefficient * kbps * 1000 / rate;
      8 * q * rate <= (8 * coefficient) * 1000 * kbps < 8 * (q + 1) * rate
  {
    var n := coefficient * kbps * 1000;
    var q := n / rate;
    assert n == q * rate + n % rate;
    assert 8 * n == 8 * q * rate + 8 * (n % rate);
  }

  /** Nothing else is accepted. */
  lemma AcceptedIsWellFormed(b: seq<byte>)
    requires ParseFrameHeader(b).Some?
    ensures exists h: HeaderFields :: h.Valid() && b[..4] == h.Encode()
  {
    AcceptedFields(b);
    HeaderBytes(b[1], b[2], b[3]);
    hide ParseFrameHeader;
    assert b[..4] == [b[0], b[1], b[2], b[3]];
    assert b[..4] == FieldsAt(b).Encode();
  }

  ghost function FieldsAt(b: seq<byte>): HeaderFields
    requires |b| >= 4
  {
    HeaderFields((b[1] / 8) % 4, b[2] / 16, (b[2] / 4) % 4, (b[2] / 2) % 2, b[3] / 64, b[1] % 2, b[2] % 2, b[3] % 64)
  }

  lemma AcceptedFields(b: seq<byte>)
    requires ParseFrameHeader(b).Some?
    ensures |b| >= 4 && b[0] == 0xFF && b[1] / 32 == 7 && (b[1] / 2) % 4 == 1 && FieldsAt(b).Valid()
  {
    hide FrameLength, Kbps, SampleRate;
  }

  lemma HeaderBytes(x: byte, y: byte, z: byte)
    requires x / 32 == 7 && (x / 2) % 4 == 1
    ensures x == 0xE0 + ((x / 8) % 4) * 8 + 2 + x % 2
    ensures y == (y / 16) * 16 + ((y / 4) % 4) * 4 + ((y / 2) % 2) * 2 + y % 2
    ensures z == (z / 64) * 64 + z % 64
  {
    SecondByte(x);
    ThirdByte(y);
  }

  lemma SecondByte(x: byte)
    requires x / 32 == 7 && (x / 2) % 4 == 1
    ensures x == 0xE0 + ((x / 8) % 4) * 8 + 2 + x % 2
  {
  }

  lemma ThirdByte(y: byte)
    ensures y == (y / 16) * 16 + ((y / 4) % 4) * 4 + ((y / 2) % 2) * 2 + y % 2
  {
    Halve(y, 2, 2);
    Halve(y, 4, 4);
  }

  lemma Halve(y: byte, d: int, e: int)
    requires d == e == 2 || d == e == 4
    ensures y / d == e * (y / (d * e)) + (y / d) % e
  {
  }

  /** A frame that is exactly as long as its own header says. */
  predicate Whole(f: seq<byte>) {
    var h := ParseFrameHeader(f);
    h.Some? && h.value.length == |f|
  }

  predicate AllWhole(frames: seq<seq<byte>>) {
    forall k :: 0 <= k < |frames| ==> Whole(frames[k])
  }

  /** The header starting at position i of data, if any. */
  function HeaderAt(data: seq<byte>, i: nat): (r: Option<MpegFrame>)
    ensures r.Some? ==> i < |data| && 24 <= r.value.length
  {
    if i <= |data| then ParseFrameHeader(data[i..]) else None
  }

  /** A slice cut where the header says it ends is whole. */
  lemma SliceIsWhole(data: seq<byte>, i: nat)
    requires HeaderAt(data, i).Some? && i + HeaderAt(data, i).value.length <= |data|
    ensures Whole(data[i..i + HeaderAt(data, i).value.length])
  {
    HeaderIsLocal(data[i..i + HeaderAt(data, i).value.length], data[i..]);
  }

  // ---------------------------------------------------------------------
  // splitFrames
  // ---------------------------------------------------------------------

  predicate HasId3(data: seq<byte>) {
    |data| >= 10 && data[0] == 0x49 && data[1] == 0x44 && data[2] == 0x33
  }

  /** The syncsafe size of a leading ID3v2 tag (ID3v2.4.0 structure, section 6.2). */
  function Id3Size(data: seq<byte>): nat
    requires |data| >= 10
  {
    (data[6] as int % 128) * 0x20_0000 + (data[7] as int % 128) * 0x4000 + (data[8] as int % 128) * 0x80 +
    data[9] as int % 128
  }

  function Start(data: seq<byte>): nat {
    if HasId3(data) then 10 + Id3Size(data) else 0
  }

  /** The frames found when scanning data from position i. */
  function CarveFrom(data: seq<byte>, i: nat): seq<seq<byte>>
    decreases |data| - i
  {
    if i >= |data| then []
    else
      match HeaderAt(data, i)
      case None => CarveFrom(data, i + 1)
      case Some(f) =>
        if i + f.length > |data| then []
        else [data[i..i + f.length]] + CarveFrom(data, i + f.length)
  }

  function Carve(data: seq<byte>): seq<seq<byte>> {
    CarveFrom(data, Start(data))
  }

  method SplitFrames(data: seq<byte>) returns (frames: seq<seq<byte>>)
    ensures frames == Carve(data)
    ensures AllWhole(frames)
  {
    hide HeaderAt, Whole, CarveFrom;
    var i := 0;
    if |data| >= 10 && data[0..3] == [0x49, 0x44, 0x33] {
      var size := Id3Size(data);
      i := 10 + size;
    }
    frames := [];
    assert i == Start(data) && frames + CarveFrom(data, i) == Carve(data);
    hide Start, Carve, HasId3, Id3Size, AllWhole;
    while i < |data|
      invariant i >= 0
      invariant frames + CarveFrom(data, i) == Carve(data)
    {
      CarveStep(data, i);
      var f := HeaderAt(data, i);
      if f == None {
        i := i + 1;
        continue;
      }
      if i + f.value.length > |data| {
        break;
      }
      frames := frames + [data[i..i + f.value.length]];
      i := i + f.value.length;
    }
    CarveEnd(data, i);
    CarvedFramesAreWhole(data, Start(data));
  }

  lemma CarveStep(data: seq<byte>, i: nat)
    requires i < |data|
    ensures CarveFrom(data, i) ==
      match HeaderAt(data, i)
      case None => CarveFrom(data, i + 1)
      case Some(f) =>
        if i + f.length > |data| then [] else [data[i..i + f.length]] + CarveFrom(data, i + f.length)
  {
  }

  lemma CarveEnd(data: seq<byte>, i: nat)
    ensures i >= |data| ==> CarveFrom(data, i) == []
  {
  }

  // ---------------------------------------------------------------------
  // What the scan finds on arbitrary bytes
  // ---------------------------------------------------------------------

  ghost predicate FrameAt(data: seq<byte>, at: nat) {
    HeaderAt(data, at).Some? && at + HeaderAt(data, at).value.length <= |data|
  }

  /** No position in lo..hi starts a parsable header. */
  ghost predicate Silent(data: seq<byte>, lo: nat, hi: nat) {
    forall j :: lo <= j < hi ==> HeaderAt(data, j).None?
  }

  /** A carving of data from `start`, stated without a scan: frame starts in order and disjoint, each frame
      the slice its own header announces, nothing parsable in any gap, and after the last frame nothing
      parsable before `stop`, which is either the end of the data or a header whose frame runs past it. */
  ghost predicate Carving(data: seq<byte>, start: nat, offs: seq<nat>, frames: seq<seq<byte>>, stop: nat)
    decreases |offs|
  {
    |frames| == |offs| &&
    if offs == [] then
      start <= stop && Silent(data, start, stop) &&
      (stop >= |data| || (HeaderAt(data, stop).Some? && !FrameAt(data, stop)))
    else
      start <= offs[0] && Silent(data, start, offs[0]) && FrameAt(data, offs[0]) &&
      var next := offs[0] + HeaderAt(data, offs[0]).value.length;
      frames[0] == data[offs[0]..next] && Carving(data, next, offs[1..], frames[1..], stop)
  }

  function Offsets(data: seq<byte>, i: nat): seq<nat>
    decreases |data| - i
  {
    if i >= |data| then []
    else
      match HeaderAt(data, i)
      case None => Offsets(data, i + 1)
      case Some(f) =>
        if i + f.length > |data| then [] else [i] + Offsets(data, i + f.length)
  }

  function Stop(data: seq<byte>, i: nat): nat
    decreases |data| - i
  {
    if i >= |data| then i
    else
      match HeaderAt(data, i)
      case None => Stop(data, i + 1)
      case Some(f) => if i + f.length > |data| then i else Stop(data, i + f.length)
  }

  lemma CarvingEarlier(data: seq<byte>, i: nat, offs: seq<nat>, frames: seq<seq<byte>>, stop: nat)
    requires HeaderAt(data, i).None?
    requires Carving(data, i + 1, offs, frames, stop)
    ensures Carving(data, i, offs, frames, stop)
  {
    hide HeaderAt;
  }

  lemma CarvingCons(data: seq<byte>, i: nat, offs: seq<nat>, frames: seq<seq<byte>>, stop: nat)
    requires FrameAt(data, i)
    requires Carving(data, i + HeaderAt(data, i).value.length, offs, frames, stop)
    ensures Carving(data, i, [i] + offs, [data[i..i + HeaderAt(data, i).value.length]] + frames, stop)
  {
    hide HeaderAt;
    assert ([i] + offs)[1..] == offs;
    assert ([data[i..i + HeaderAt(data, i).value.length]] + frames)[1..] == frames;
  }

  /** On arbitrary bytes the splitter returns a carving. */
  lemma {:induction false} ScanIsCarving(data: seq<byte>, i: nat)
    ensures Carving(data, i, Offsets(data, i), CarveFrom(data, i), Stop(data, i))
    decreases |data| - i
  {
    hide HeaderAt;
    if i < |data| {
      match HeaderAt(data, i)
      case None =>
        ScanIsCarving(data, i + 1);
        CarvingEarlier(data, i, Offsets(data, i + 1), CarveFrom(data, i + 1), Stop(data, i + 1));
      case Some(f) =>
        if i + f.length <= |data| {
          var next := i + f.length;
          ScanIsCarving(data, next);
          CarvingCons(data, i, Offsets(data, next), CarveFrom(data, next), Stop(data, next));
        }
    }
  }

  /** There is only one carving: the declarative reading determines the splitter's answer. */
  lemma {:induction false} CarvingUnique(data: seq<byte>, start: nat,
                                         a: seq<nat>, f: seq<seq<byte>>, stopA: nat,
                                         b: seq<nat>, g: seq<seq<byte>>, stopB: nat)
    requires Carving(data, start, a, f, stopA)
    requires Carving(data, start, b, g, stopB)
    ensures a == b && f == g
    decreases |a|
  {
    hide HeaderAt;
    if a != [] && b != [] {
      var next := a[0] + HeaderAt(data, a[0]).value.length;
      CarvingUnique(data, next, a[1..], f[1..], stopA, b[1..], g[1..], stopB);
      assert a == [a[0]] + a[1..] && b == [b[0]] + b[1..];
      assert f == [f[0]] + f[1..] && g == [g[0]] + g[1..];
    }
  }

  /** The frames handed out on arbitrary input, alone, read as frames of their own length. */
  lemma {:induction false} CarvedFramesAreWhole(data: seq<byte>, i: nat)
    ensures AllWhole(CarveFrom(data, i))
    decreases |data| - i
  {
    hide HeaderAt;
    hide Whole;
    if i < |data| {
      match HeaderAt(data, i)
      case None => CarvedFramesAreWhole(data, i + 1);
      case Some(f) =>
        if i + f.length <= |data| {
          SliceIsWhole(data, i);
          CarvedFramesAreWhole(data, i + f.length);
        }
    }
  }

  // ---------------------------------------------------------------------
  // Concatenation and splitting
  // ---------------------------------------------------------------------

  /** A whole frame's header is found wherever the frame stands. */
  lemma WholeAnywhere(pre: seq<byte>, f: seq<byte>, post: seq<byte>)
    requires Whole(f)
    ensures HeaderAt(pre + f + post, |pre|) == ParseFrameHeader(f)
    ensures (pre + f + post)[|pre|..|pre| + |f|] == f
    ensures |f| >= 24 && f[0] == 0xFF
  {
    HeaderIsLocal((pre + f + post)[|pre|..], f);
  }

  lemma CarveOne(pre: seq<byte>, f: seq<byte>, post: seq<byte>)
    requires Whole(f)
    ensures CarveFrom(pre + f + post, |pre|) == [f] + CarveFrom(pre + f + post, |pre| + |f|)
  {
    hide HeaderAt;
    hide ParseFrameHeader;
    WholeAnywhere(pre, f, post);
  }

  /** Scanning whole frames laid end to end gives them back and continues after them. */
  lemma {:induction false} CarveConcat(pre: seq<byte>, frames: seq<seq<byte>>, post: seq<byte>)
    requires AllWhole(frames)
    ensures var data := pre + Flatten(frames) + post;
      CarveFrom(data, |pre|) == frames + CarveFrom(data, |pre| + |Flatten(frames)|)
    decreases |frames|
  {
    hide HeaderAt;
    hide ParseFrameHeader;
    hide Whole;
    var data := pre + Flatten(frames) + post;
    if frames == [] {
      assert |pre| + |Flatten(frames)| == |pre|;
    } else {
      var f, rest := frames[0], Flatten(frames[1..]);
      assert Flatten(frames) == f + rest;
      assert data == pre + f + (rest + post);
      CarveOne(pre, f, rest + post);
      assert data == (pre + f) + rest + post;
      CarveConcat(pre + f, frames[1..], post);
      assert frames == [f] + frames[1..];
    }
  }

  /** A strict prefix of a whole frame yields no frame. */
  lemma {:induction false} PartialYieldsNothing(pre: seq<byte>, g: seq<byte>, n: nat, at: nat)
    requires Whole(g) && n < |g| && at <= n
    requires n < 4 || at == 0
    ensures CarveFrom(pre + g[..n], |pre| + at) == []
    decreases n - at
  {
    var data := pre + g[..n];
    if at < n {
      if n >= 4 {
        HeaderIsLocal(data[|pre|..], g);
      } else {
        PartialYieldsNothing(pre, g, n, at + 1);
      }
    }
  }

  lemma FramesDoNotLookLikeId3(frames: seq<seq<byte>>, post: seq<byte>)
    requires AllWhole(frames) && (frames == [] ==> post == [] || post[0] == 0xFF)
    ensures Start(Flatten(frames) + post) == 0
  {
    if frames != [] {
      assert Whole(frames[0]);
      assert (Flatten(frames) + post)[0] == frames[0][0] == 0xFF;
    }
  }

  /** Splitting is the left inverse of concatenation on whole frames. */
  lemma SplitConcat(frames: seq<seq<byte>>)
    requires AllWhole(frames)
    ensures Carve(Flatten(frames)) == frames
  {
    hide HeaderAt;
    hide ParseFrameHeader;
    FramesDoNotLookLikeId3(frames, []);
    CarveConcat([], frames, []);
    assert [] + Flatten(frames) + [] == Flatten(frames);
    assert Flatten(frames) + [] == Flatten(frames);
  }

  /** ... also when the last write was cut short inside a frame ... */
  lemma SplitConcatCut(frames: seq<seq<byte>>, g: seq<byte>, n: nat)
    requires AllWhole(frames) && Whole(g) && n < |g|
    ensures Carve(Flatten(frames) + g[..n]) == frames
  {
    hide HeaderAt;
    hide ParseFrameHeader;
    FramesDoNotLookLikeId3(frames, g[..n]);
    CarveConcat([], frames, g[..n]);
    assert [] + Flatten(frames) + g[..n] == Flatten(frames) + g[..n];
    PartialYieldsNothing(Flatten(frames), g, n, 0);
  }

  /** ... and behind a leading ID3v2 tag of the length the tag announces. */
  lemma SplitTagged(tag: seq<byte>, frames: seq<seq<byte>>)
    requires HasId3(tag) && |tag| == 10 + Id3Size(tag)
    requires AllWhole(frames)
    ensures Carve(tag + Flatten(frames)) == frames
  {
    hide HeaderAt;
    hide ParseFrameHeader;
    var data := tag + Flatten(frames);
    assert HasId3(data) && Id3Size(data) == Id3Size(tag);
    CarveConcat(tag, frames, []);
    assert tag + Flatten(frames) + [] == data;
  }

  /** An ID3v2 tag as section 3.1 of the ID3v2.4.0 structure lays it out, its size in four bytes of seven bits. */
  function Id3Tag(major: byte, revision: byte, flags: byte, body: seq<byte>): seq<byte>
    requires |body| < 0x1000_0000
  {
    var n := |body|;
    [0x49, 0x44, 0x33, major, revision, flags, n / 0x20_0000, n / 0x4000 % 0x80, n / 0x80 % 0x80, n % 0x80] + body
  }

  lemma SyncsafeSize(n: nat)
    requires n < 0x1000_0000
    ensures n / 0x20_0000 < 0x80
    ensures (n / 0x20_0000) * 0x20_0000 + (n / 0x4000 % 0x80) * 0x4000 + (n / 0x80 % 0x80) * 0x80 + n % 0x80 == n
  {
    var a := n / 0x80;
    var b := n / 0x4000;
    var c := n / 0x20_0000;
    assert b == a / 0x80 && c == b / 0x80;
    assert n == a * 0x80 + n % 0x80 && a == b * 0x80 + a % 0x80 && b == c * 0x80 + b % 0x80;
  }

  /** Any tag is skipped to its last byte, whatever it holds. */
  lemma SplitBehindTag(major: byte, revision: byte, flags: byte, body: seq<byte>, frames: seq<seq<byte>>)
    requires |body| < 0x1000_0000 && AllWhole(frames)
    ensures Carve(Id3Tag(major, revision, flags, body) + Flatten(frames)) == frames
  {
    hide HeaderAt, ParseFrameHeader, Whole, Carve, Id3Tag, Id3Size, HasId3;
    TagAnnounces(major, revision, flags, body);
    SplitTagged(Id3Tag(major, revision, flags, body), frames);
  }

  lemma TagAnnounces(major: byte, revision: byte, flags: byte, body: seq<byte>)
    requires |body| < 0x1000_0000
    ensures var tag := Id3Tag(major, revision, flags, body); HasId3(tag) && |tag| == 10 + Id3Size(tag)
  {
    SyncsafeSize(|body|);
    var a, b, c, d := |body| / 0x20_0000, |body| / 0x4000 % 0x80, |body| / 0x80 % 0x80, |body| % 0x80;
    var head: seq<byte> := [0x49, 0x44, 0x33, major, revision, flags, a, b, c, d];
    HeadSize(head, body);
  }

  lemma HeadSize(head: seq<byte>, body: seq<byte>)
    requires |head| == 10 && head[6] < 128 && head[7] < 128 && head[8] < 128 && head[9] < 128
    ensures Id3Size(head + body) ==
            head[6] as int * 0x20_0000 + head[7] as int * 0x4000 + head[8] as int * 0x80 + head[9] as int
  {
  }

  /** Re-encoding what was carved from arbitrary bytes and carving again changes nothing. */
  lemma CarveIdempotent(data: seq<byte>)
    ensures Carve(Flatten(Carve(data))) == Carve(data)
  {
    hide HeaderAt;
    hide ParseFrameHeader;
    CarvedFramesAreWhole(data, Start(data));
    SplitConcat(Carve(data));
  }
}
