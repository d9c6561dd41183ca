/** The G.711 codecs (asterisk-codecs, ulaw_table.rs and alaw_table.rs): the decoding tables,
    the two mu-law encoders and the A-law encoder, which searches the decoding table. */
module G711 {
  import opened Common

  type Sample = x: int | -32768 <= x <= 32767

  function Abs(x: int): nat { if x < 0 then -x else x }

  // ----- The tables, sixteen entries a row -----

  function MulawTable(): seq<seq<int>> {[
    [-32124, -31100, -30076, -29052, -28028, -27004, -25980, -24956,
     -23932, -22908, -21884, -20860, -19836, -18812, -17788, -16764],
    [-15996, -15484, -14972, -14460, -13948, -13436, -12924, -12412,
     -11900, -11388, -10876, -10364, -9852, -9340, -8828, -8316],
    [-7932, -7676, -7420, -7164, -6908, -6652, -6396, -6140, -5884, -5628, -5372, -5116, -4860, -4604, -4348, -4092],
    [-3900, -3772, -3644, -3516, -3388, -3260, -3132, -3004, -2876, -2748, -2620, -2492, -2364, -2236, -2108, -1980],
    [-1884, -1820, -1756, -1692, -1628, -1564, -1500, -1436, -1372, -1308, -1244, -1180, -1116, -1052, -988, -924],
    [-876, -844, -812, -780, -748, -716, -684, -652, -620, -588, -556, -524, -492, -460, -428, -396],
    [-372, -356, -340, -324, -308, -292, -276, -260, -244, -228, -212, -196, -180, -164, -148, -132],
    [-120, -112, -104, -96, -88, -80, -72, -64, -56, -48, -40, -32, -24, -16, -8, 0],
    [32124, 31100, 30076, 29052, 28028, 27004, 25980, 24956, 23932, 22908, 21884, 20860, 19836, 18812, 17788, 16764],
    [15996, 15484, 14972, 14460, 13948, 13436, 12924, 12412, 11900, 11388, 10876, 10364, 9852, 9340, 8828, 8316],
    [7932, 7676, 7420, 7164, 6908, 6652, 6396, 6140, 5884, 5628, 5372, 5116, 4860, 4604, 4348, 4092],
    [3900, 3772, 3644, 3516, 3388, 3260, 3132, 3004, 2876, 2748, 2620, 2492, 2364, 2236, 2108, 1980],
    [1884, 1820, 1756, 1692, 1628, 1564, 1500, 1436, 1372, 1308, 1244, 1180, 1116, 1052, 988, 924],
    [876, 844, 812, 780, 748, 716, 684, 652, 620, 588, 556, 524, 492, 460, 428, 396],
    [372, 356, 340, 324, 308, 292, 276, 260, 244, 228, 212, 196, 180, 164, 148, 132],
    [120, 112, 104, 96, 88, 80, 72, 64, 56, 48, 40, 32, 24, 16, 8, 0]
  ]}

  function AlawTable(): seq<seq<int>> {[
    [-5504, -5248, -6016, -5760, -4480, -4224, -4992, -4736, -7552, -7296, -8064, -7808, -6528, -6272, -7040, -6784],
    [-2752, -2624, -3008, -2880, -2240, -2112, -2496, -2368, -3776, -3648, -4032, -3904, -3264, -3136, -3520, -3392],
    [-22016, -20992, -24064, -23040, -17920, -16896, -19968, -18944,
     -30208, -29184, -32256, -31232, -26112, -25088, -28160, -27136],
    [-11008, -10496, -12032, -11520, -8960, -8448, -9984, -9472,
     -15104, -14592, -16128, -15616, -13056, -12544, -14080, -13568],
    [-344, -328, -376, -360, -280, -264, -312, -296, -472, -456, -504, -488, -408, -392, -440, -424],
    [-88, -72, -120, -104, -24, -8, -56, -40, -216, -200, -248, -232, -152, -136, -184, -168],
    [-1376, -1312, -1504, -1440, -1120, -1056, -1248, -1184, -1888, -1824, -2016, -1952, -1632, -1568, -1760, -1696],
    [-688, -656, -752, -720, -560, -528, -624, -592, -944, -912, -1008, -976, -816, -784, -880, -848],
    [5504, 5248, 6016, 5760, 4480, 4224, 4992, 4736, 7552, 7296, 8064, 7808, 6528, 6272, 7040, 6784],
    [2752, 2624, 3008, 2880, 2240, 2112, 2496, 2368, 3776, 3648, 4032, 3904, 3264, 3136, 3520, 3392],
    [22016, 20992, 24064, 23040, 17920, 16896, 19968, 18944, 30208, 29184, 32256, 31232, 26112, 25088, 28160, 27136],
    [11008, 10496, 12032, 11520, 8960, 8448, 9984, 9472, 15104, 14592, 16128, 15616, 13056, 12544, 14080, 13568],
    [344, 328, 376, 360, 280, 264, 312, 296, 472, 456, 504, 488, 408, 392, 440, 424],
    [88, 72, 120, 104, 24, 8, 56, 40, 216, 200, 248, 232, 152, 136, 184, 168],
    [1376, 1312, 1504, 1440, 1120, 1056, 1248, 1184, 1888, 1824, 2016, 1952, 1632, 1568, 1760, 1696],
    [688, 656, 752, 720, 560, 528, 624, 592, 944, 912, 1008, 976, 816, 784, 880, 848]
  ]}

  /** The exponent of a biased magnitude, by its bits above the lowest seven. */
  function ExponentTable(): seq<seq<int>> {[
    [0, 0, 1, 1, 2, 2, 2, 2, 3, 3, 3, 3, 3, 3, 3, 3],
    [4, 4, 4, 4, 4, 4, 4, 4, 4, 4, 4, 4, 4, 4, 4, 4],
    [5, 5, 5, 5, 5, 5, 5, 5, 5, 5, 5, 5, 5, 5, 5, 5],
    [5, 5, 5, 5, 5, 5, 5, 5, 5, 5, 5, 5, 5, 5, 5, 5],
    [6, 6, 6, 6, 6, 6, 6, 6, 6, 6, 6, 6, 6, 6, 6, 6],
    [6, 6, 6, 6, 6, 6, 6, 6, 6, 6, 6, 6, 6, 6, 6, 6],
    [6, 6, 6, 6, 6, 6, 6, 6, 6, 6, 6, 6, 6, 6, 6, 6],
    [6, 6, 6, 6, 6, 6, 6, 6, 6, 6, 6, 6, 6, 6, 6, 6],
    [7, 7, 7, 7, 7, 7, 7, 7, 7, 7, 7, 7, 7, 7, 7, 7],
    [7, 7, 7, 7, 7, 7, 7, 7, 7, 7, 7, 7, 7, 7, 7, 7],
    [7, 7, 7, 7, 7, 7, 7, 7, 7, 7, 7, 7, 7, 7, 7, 7],
    [7, 7, 7, 7, 7, 7, 7, 7, 7, 7, 7, 7, 7, 7, 7, 7],
    [7, 7, 7, 7, 7, 7, 7, 7, 7, 7, 7, 7, 7, 7, 7, 7],
    [7, 7, 7, 7, 7, 7, 7, 7, 7, 7, 7, 7, 7, 7, 7, 7],
    [7, 7, 7, 7, 7, 7, 7, 7, 7, 7, 7, 7, 7, 7, 7, 7],
    [7, 7, 7, 7, 7, 7, 7, 7, 7, 7, 7, 7, 7, 7, 7, 7]
  ]}

  function At(table: seq<seq<int>>, index: Byte): int {
    var r, c := index / 16, index % 16;
    if r < |table| && c < |table[r]| then table[r][c] else 0
  }

  function Power(e: nat): (p: nat)
    requires e < 8
    ensures 1 <= p <= 128
  {
    if e == 0 then 1 else if e == 1 then 2 else if e == 2 then 4 else if e == 3 then 8
    else if e == 4 then 16 else if e == 5 then 32 else if e == 6 then 64 else 128
  }

  /** A row of evenly spaced entries. */
  ghost predicate Evenly(row: seq<int>, first: int, step: int) {
    |row| == 16 && forall c :: 0 <= c < 16 ==> row[c] == first + c * step
  }

  /** The place of an A-law code in its row: the alternate bits are stored inverted. */
  const INVERTED: seq<nat> := [5, 4, 7, 6, 1, 0, 3, 2, 13, 12, 15, 14, 9, 8, 11, 10]

  function InvertedRow(first: int, step: int): seq<int> {
    [first + 5 * step, first + 4 * step, first + 7 * step, first + 6 * step,
     first + step, first, first + 3 * step, first + 2 * step,
     first + 13 * step, first + 12 * step, first + 15 * step, first + 14 * step,
     first + 9 * step, first + 8 * step, first + 11 * step, first + 10 * step]
  }

  lemma MulawNegativeLoudRows()
    ensures |MulawTable()| == 16
            && Evenly(MulawTable()[0], -32124, 1024)
            && Evenly(MulawTable()[1], -15996, 512)
            && Evenly(MulawTable()[2], -7932, 256)
            && Evenly(MulawTable()[3], -3900, 128)
  {
  }

  lemma MulawNegativeSoftRows()
    ensures |MulawTable()| == 16
            && Evenly(MulawTable()[4], -1884, 64)
            && Evenly(MulawTable()[5], -876, 32)
            && Evenly(MulawTable()[6], -372, 16)
            && Evenly(MulawTable()[7], -120, 8)
  {
  }

  lemma MulawPositiveLoudRows()
    ensures |MulawTable()| == 16
            && Evenly(MulawTable()[8], 32124, -1024)
            && Evenly(MulawTable()[9], 15996, -512)
            && Evenly(MulawTable()[10], 7932, -256)
            && Evenly(MulawTable()[11], 3900, -128)
  {
  }

  lemma MulawPositiveSoftRows()
    ensures |MulawTable()| == 16
            && Evenly(MulawTable()[12], 1884, -64)
            && Evenly(MulawTable()[13], 876, -32)
            && Evenly(MulawTable()[14], 372, -16)
            && Evenly(MulawTable()[15], 120, -8)
  {
  }

  lemma AlawNegativeFirstRows()
    ensures |AlawTable()| == 16
            && AlawTable()[0] == InvertedRow(-4224, -256)
            && AlawTable()[1] == InvertedRow(-2112, -128)
            && AlawTable()[2] == InvertedRow(-16896, -1024)
            && AlawTable()[3] == InvertedRow(-8448, -512)
  {
  }

  lemma AlawNegativeSecondRows()
    ensures |AlawTable()| == 16
            && AlawTable()[4] == InvertedRow(-264, -16)
            && AlawTable()[5] == InvertedRow(-8, -16)
            && AlawTable()[6] == InvertedRow(-1056, -64)
            && AlawTable()[7] == InvertedRow(-528, -32)
  {
  }

  lemma AlawPositiveFirstRows()
    ensures |AlawTable()| == 16
            && AlawTable()[8] == InvertedRow(4224, 256)
            && AlawTable()[9] == InvertedRow(2112, 128)
            && AlawTable()[10] == InvertedRow(16896, 1024)
            && AlawTable()[11] == InvertedRow(8448, 512)
  {
  }

  lemma AlawPositiveSecondRows()
    ensures |AlawTable()| == 16
            && AlawTable()[12] == InvertedRow(264, 16)
            && AlawTable()[13] == InvertedRow(8, 16)
            && AlawTable()[14] == InvertedRow(1056, 64)
            && AlawTable()[15] == InvertedRow(528, 32)
  {
  }

  // ----- mu-law -----

  /** A decoded mu-law value: a sign, three bits of exponent and four of mantissa, all
      inverted. */
  function MulawValue(b: Byte): Sample {
    var exponent, mantissa := 7 - b / 16 % 8, 15 - b % 16;
    assert 8 * mantissa + 132 <= 252 && Power(exponent) <= 128;
    var magnitude := (8 * mantissa + 132) * Power(exponent) - 132;
    if b < 128 then -magnitude else magnitude
  }

  lemma {:induction false} MulawTableIsLaw(b: Byte)
    ensures At(MulawTable(), b) == MulawValue(b)
  {
    hide MulawTable;
    var r, c := b / 16, b % 16;
    if b < 64 {
      MulawNegativeLoudRows();
    } else if b < 128 {
      MulawNegativeSoftRows();
    } else if b < 192 {
      MulawPositiveLoudRows();
    } else {
      MulawPositiveSoftRows();
    }
  }

  function MulawToLinear(b: Byte): Sample {
    MulawTableIsLaw(b);
    At(MulawTable(), b)
  }

  const BIAS: nat := 132
  const CLIP: nat := 32635

  /** The clipped and biased magnitude of a sample. */
  function Biased(x: Sample): (p: nat)
    ensures 132 <= p <= 32767
  {
    (if Abs(x) > CLIP then CLIP else Abs(x)) + BIAS
  }

  function Segment(p: nat): (e: nat)
    ensures e < 8
  {
    if p < 0x100 then 0 else if p < 0x200 then 1 else if p < 0x400 then 2 else if p < 0x800 then 3
    else if p < 0x1000 then 4 else if p < 0x2000 then 5 else if p < 0x4000 then 6 else 7
  }

  function Packed(negative: bool, exponent: nat, p: nat): Byte
    requires exponent < 8
  {
    var mantissa := p / (8 * Power(exponent)) % 16;
    255 - ((if negative then 128 else 0) + 16 * exponent + mantissa)
  }

  /** `linear_to_mulaw_fast`, which finds the exponent by comparing. */
  function LinearToMulawFast(x: Sample): Byte {
    var p := Biased(x);
    Packed(x < 0, Segment(p), p)
  }

  lemma {:induction false} TableOfSegments(p: nat)
    requires 132 <= p <= 32767
    ensures 0 <= p / 128 < 256 && At(ExponentTable(), p / 128) == Segment(p)
  {
    hide ExponentTable;
    ExponentRows();
    ExponentRowsSix();
    ExponentRowsSeven();
    ExponentRowsSevenMore();
    var i := p / 128;
    if i < 16 {
      assert i / 16 == 0 && i % 16 == i;
    } else {
      assert 1 <= i / 16 < 16;
    }
  }

  ghost predicate Constant(row: seq<int>, value: int) {
    |row| == 16 && forall c :: 0 <= c < 16 ==> row[c] == value
  }

  lemma ExponentRows()
    ensures |ExponentTable()| == 16
            && ExponentTable()[0] == [0, 0, 1, 1, 2, 2, 2, 2, 3, 3, 3, 3, 3, 3, 3, 3]
            && Constant(ExponentTable()[1], 4)
            && Constant(ExponentTable()[2], 5) && Constant(ExponentTable()[3], 5)
  {
  }

  lemma ExponentRowsSix()
    ensures |ExponentTable()| == 16
            && Constant(ExponentTable()[4], 6) && Constant(ExponentTable()[5], 6)
            && Constant(ExponentTable()[6], 6) && Constant(ExponentTable()[7], 6)
  {
  }

  lemma ExponentRowsSeven()
    ensures |ExponentTable()| == 16
            && Constant(ExponentTable()[8], 7) && Constant(ExponentTable()[9], 7)
            && Constant(ExponentTable()[10], 7) && Constant(ExponentTable()[11], 7)
  {
  }

  lemma ExponentRowsSevenMore()
    ensures |ExponentTable()| == 16
            && Constant(ExponentTable()[12], 7) && Constant(ExponentTable()[13], 7)
            && Constant(ExponentTable()[14], 7) && Constant(ExponentTable()[15], 7)
  {
  }

  /** `linear_to_mulaw`, which looks the exponent up. */
  function LinearToMulaw(x: Sample): Byte {
    var p := Biased(x);
    TableOfSegments(p);
    Packed(x < 0, At(ExponentTable(), p / 128), p)
  }

  /** The two encoders agree on every sample. */
  lemma {:induction false} MulawEncodersAgree(x: Sample)
    ensures LinearToMulaw(x) == LinearToMulawFast(x)
  {
    hide ExponentTable, Packed, Segment;
    TableOfSegments(Biased(x));
  }

  lemma {:induction false} PackedValue(exponent: nat, mantissa: nat)
    requires exponent < 8 && mantissa < 16
    ensures var p := (8 * mantissa + 132) * Power(exponent);
            Segment(p) == exponent && p / (8 * Power(exponent)) % 16 == mantissa && 132 <= p <= 32256
  {
    if exponent == 0 {
    } else if exponent == 1 {
    } else if exponent == 2 {
    } else if exponent == 3 {
    } else if exponent == 4 {
    } else if exponent == 5 {
    } else if exponent == 6 {
    } else {
    }
  }

  /** Decoding and encoding again gives every byte back, but the second code for zero gives
      the first. */
  lemma {:induction false} MulawRoundTrip(b: Byte)
    ensures LinearToMulawFast(MulawToLinear(b)) == if b == 127 then 255 else b
  {
    hide MulawTable, Segment, Power;
    MulawTableIsLaw(b);
    PackedValue(7 - b / 16 % 8, 15 - b % 16);
    assert Biased(MulawValue(b)) == (8 * (15 - b % 16) + 132) * Power(7 - b / 16 % 8);
    ZeroOnlyTwice(b);
  }

  lemma ZeroOnlyTwice(b: Byte)
    ensures MulawValue(b) == 0 <==> b == 127 || b == 255
  {
  }

  /** The error of one encoding is at most half a step: a thirty-second of the biased
      magnitude, for every sample that is not clipped. */
  lemma {:induction false} MulawError(x: Sample)
    requires Abs(x) <= CLIP
    ensures 32 * Abs(MulawToLinear(LinearToMulawFast(x)) - x) <= Abs(x) + BIAS
  {
    hide MulawTable, Segment, Power, MulawValue;
    var p := Biased(x);
    var e := Segment(p);
    var m := p / (8 * Power(e)) % 16;
    var b := LinearToMulawFast(x);
    MulawTableIsLaw(b);
    UnpackedValue(x < 0, e, m);
    SegmentHolds(p);
  }

  lemma {:induction false} UnpackedValue(negative: bool, exponent: nat, mantissa: nat)
    requires exponent < 8 && mantissa < 16
    ensures var b := 255 - ((if negative then 128 else 0) + 16 * exponent + mantissa);
            var magnitude := (8 * mantissa + 132) * Power(exponent) - 132;
            MulawValue(b) == if negative then -magnitude else magnitude
  {
    hide Power;
    var b := 255 - ((if negative then 128 else 0) + 16 * exponent + mantissa);
    assert 7 - b / 16 % 8 == exponent && 15 - b % 16 == mantissa && (b < 128 <==> negative);
  }

  lemma {:induction false} SegmentHolds(p: nat)
    requires 132 <= p <= 32767
    ensures var e := Segment(p);
            var m := p / (8 * Power(e)) % 16;
            Abs((8 * m + 132) * Power(e) - p) <= 4 * Power(e) && 128 * Power(e) <= p
  {
    var e := Segment(p);
    if e == 0 {
    } else if e == 1 {
    } else if e == 2 {
    } else if e == 3 {
    } else if e == 4 {
    } else if e == 5 {
    } else if e == 6 {
    } else {
    }
  }

  // ----- A-law -----

  /** The quietest level of a row of the table, and the distance of its levels. */
  function RowLow(r: nat): int {
    if r == 0 then 4224 else if r == 1 then 2112 else if r == 2 then 16896 else if r == 3 then 8448
    else if r == 4 then 264 else if r == 5 then 8 else if r == 6 then 1056 else 528
  }

  function RowStep(r: nat): int {
    if r == 0 then 256 else if r == 1 then 128 else if r == 2 then 1024 else if r == 3 then 512
    else if r == 4 || r == 5 then 16 else if r == 6 then 64 else 32
  }

  function AlawValue(b: Byte): Sample {
    PlaceBelow16(b % 16);
    var r := b / 16 % 8;
    var magnitude := RowLow(r) + Place(b % 16) * RowStep(r);
    if b < 128 then -magnitude else magnitude
  }

  function Place(c: nat): nat {
    if c < 16 then INVERTED[c] else 0
  }

  /** Inverting the bits twice changes nothing. */
  lemma PlaceBelow16(c: nat)
    requires c < 16
    ensures Place(c) < 16 && Place(Place(c)) == c
  {
  }

  lemma InvertedRowAt(first: int, step: int, c: nat)
    requires c < 16
    ensures |InvertedRow(first, step)| == 16 && InvertedRow(first, step)[c] == first + Place(c) * step
  {
  }

  lemma {:induction false} AlawTableIsLaw(b: Byte)
    ensures At(AlawTable(), b) == AlawValue(b)
  {
    hide AlawTable, Place, InvertedRow;
    var r, c := b / 16, b % 16;
    if b < 64 {
      AlawNegativeFirstRows();
    } else if b < 128 {
      AlawNegativeSecondRows();
    } else if b < 192 {
      AlawPositiveFirstRows();
    } else {
      AlawPositiveSecondRows();
    }
    var low, step := RowLow(r % 8), RowStep(r % 8);
    if b < 128 {
      InvertedRowAt(-low, -step, c);
      assert AlawTable()[r] == InvertedRow(-low, -step);
      assert Place(c) * -step == -(Place(c) * step);
    } else {
      InvertedRowAt(low, step, c);
      assert AlawTable()[r] == InvertedRow(low, step);
    }
  }

  function AlawToLinear(b: Byte): Sample {
    AlawTableIsLaw(b);
    At(AlawTable(), b)
  }

  /** No two codes of one sign mean the same level. */
  lemma {:induction false} AlawLevelsDiffer(a: Byte, b: Byte)
    requires (a < 128 <==> b < 128) && AlawValue(a) == AlawValue(b)
    ensures a == b
  {
    hide Place;
    PlaceBelow16(a % 16);
    PlaceBelow16(b % 16);
    assert a / 16 % 8 == b / 16 % 8;
    assert Place(a % 16) == Place(b % 16);
  }

  function Distance(x: Sample, code: Byte): nat { Abs(x - AlawToLinear(code)) }

  function DistanceFrom(x: Sample): Byte -> nat { code => Distance(x, code) }

  /** The first of the nearest codes from `low` up to `high`. */
  function Nearest(distance: Byte -> nat, low: Byte, high: Byte): (code: Byte)
    requires low <= high
    ensures low <= code <= high
    decreases high
  {
    if low == high then low
    else
      var before := Nearest(distance, low, high - 1);
      if distance(high) < distance(before) then high else before
  }

  /** `linear_to_alaw_fast` searches the half of the table that has the sample's sign. */
  function AlawCode(x: Sample): Byte {
    if x >= 0 then Nearest(DistanceFrom(x), 128, 255) else Nearest(DistanceFrom(x), 0, 127)
  }

  lemma {:induction false} NearestIsNearest(distance: Byte -> nat, low: Byte, high: Byte, other: Byte)
    requires low <= other <= high
    ensures var code := Nearest(distance, low, high);
            distance(code) <= distance(other) && (other < code ==> distance(code) < distance(other))
    decreases high
  {
    if low < high {
      NearestIsNearest(distance, low, high - 1, if other == high then low else other);
    }
  }

  /** A perfect match ends the search. */
  lemma {:induction false} NothingNearer(distance: Byte -> nat, low: Byte, here: Byte, high: Byte)
    requires low <= here <= high && distance(Nearest(distance, low, here)) == 0
    ensures Nearest(distance, low, high) == Nearest(distance, low, here)
    decreases high
  {
    if here < high {
      NothingNearer(distance, low, here, high - 1);
    }
  }

  method LinearToAlawFast(x: Sample) returns (best: Byte)
    ensures best == AlawCode(x)
  {
    hide Distance;
    var low: Byte, high: Byte := if x >= 0 then 128 else 0, if x >= 0 then 255 else 127;
    var code := low as int;
    var bestDiff := 0x7fff_ffff;
    best := 0;
    while code <= high
      invariant low <= code <= high + 1
      invariant code == low ==> bestDiff == 0x7fff_ffff
      invariant code > low ==> best == Nearest(DistanceFrom(x), low, code - 1) && bestDiff == Distance(x, best)
    {
      var diff := Distance(x, code);
      DistanceIsSmall(x, code);
      if diff < bestDiff {
        bestDiff := diff;
        best := code;
        if diff == 0 {
          NothingNearer(DistanceFrom(x), low, code, high);
          break;
        }
      }
      code := code + 1;
    }
  }

  lemma DistanceIsSmall(x: Sample, code: Byte)
    ensures Distance(x, code) < 0x7fff_ffff
  {
  }

  /** The code of a sample is nearest to it of all codes of its sign. */
  lemma {:induction false} AlawIsNearest(x: Sample, other: Byte)
    requires x >= 0 <==> other >= 128
    ensures Distance(x, AlawCode(x)) <= Distance(x, other) && (x >= 0 <==> AlawCode(x) >= 128)
  {
    hide Distance;
    if x >= 0 {
      NearestIsNearest(DistanceFrom(x), 128, 255, other);
    } else {
      NearestIsNearest(DistanceFrom(x), 0, 127, other);
    }
  }

  /** Decoding and encoding again gives every byte back. */
  lemma {:induction false} AlawRoundTrip(b: Byte)
    ensures AlawCode(AlawToLinear(b)) == b
  {
    hide AlawTable, Nearest, AlawCode;
    AlawTableIsLaw(b);
    PlaceBelow16(b % 16);
    var x := AlawToLinear(b);
    assert x >= 0 <==> b >= 128;
    AlawIsNearest(x, b);
    AlawTableIsLaw(AlawCode(x));
    AlawLevelsDiffer(AlawCode(x), b);
  }

  /** Silence in each law. */
  lemma MulawSilence()
    ensures LinearToMulawFast(0) == 0xFF
  {
  }

  lemma LeastLevel(b: Byte)
    requires b >= 128
    ensures AlawValue(b) >= 8 && (b == 0xD5 ==> AlawValue(b) == 8)
  {
    PlaceBelow16(b % 16);
  }

  lemma {:induction false} AlawSilence()
    ensures AlawCode(0) == 0xD5
  {
    hide AlawTable, Nearest, AlawCode, AlawValue;
    AlawIsNearest(0, 0xD5);
    var code := AlawCode(0);
    AlawTableIsLaw(0xD5);
    AlawTableIsLaw(code);
    LeastLevel(0xD5);
    LeastLevel(code);
    AlawLevelsDiffer(code, 0xD5);
  }
}
