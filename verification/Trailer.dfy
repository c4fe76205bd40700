/** The table of frequent values as it is written behind the records and parsed back from the end
    of the image. */
module Trailer {
  import opened Powers
  import opened Bits
  import opened Bytes

  const MAX_DUPLICATED_VALUES: nat := 65536

  type Values = seq<seq<byte>>

  // ---------- the written form

  function Concat(values: Values): seq<byte> {
    if |values| == 0 then [] else Concat(values[..|values| - 1]) + values[|values| - 1]
  }

  /** Four bytes for each length; a longer length is cut to 32 bits. */
  function LengthTable(values: Values): (s: seq<byte>)
    ensures |s| == 4 * |values|
  {
    if |values| == 0 then [] else
      var m := |values| - 1;
      LengthTable(values[..m]) + ToLe(|values[m]| % TWO32, 4)
  }

  function TrailerSize(values: Values): nat {
    2 + 4 * |values| + |Concat(values)| + 8
  }

  /** A 16-bit count, the lengths, the values, and the trailer's own size; a count of 0 leaves
      only eight zero bytes. */
  function Output(values: Values): seq<byte> {
    if |values| % 0x1_0000 == 0 then ToLe(0, 8)
    else Framed(|values| % 0x1_0000, values)
  }

  function Framed(count: nat, values: Values): seq<byte> {
    ToLe(count, 2) + LengthTable(values) + Concat(values) + ToLe(TrailerSize(values), 8)
  }

  datatype Written = Bytes(bytes: seq<byte>) | TotalSizeMismatch

  /** data holds the values back to back, as the memory handler of the table does. */
  method FrequentValuesOutput(values: Values, data: seq<byte>) returns (w: Written)
    requires |values| <= MAX_DUPLICATED_VALUES
    ensures |data| == |Concat(values)| || |values| % 0x1_0000 == 0 <==> w.Bytes?
    ensures data == Concat(values) ==> w == Bytes(Output(values))
  {
    hide ToLe;
    var topValueCount := |values| % 0x1_0000;
    if topValueCount == 0 {
      return Bytes(ToLe(0, 8));
    }
    var topValuesLength: seq<byte> := [];
    var checkSize := 0;
    for index := 0 to |values|
      invariant topValuesLength == LengthTable(values[..index])
      invariant checkSize == |Concat(values[..index])|
    {
      assert values[..index + 1][..index] == values[..index];
      topValuesLength := topValuesLength + ToLe(|values[index]| % TWO32, 4);
      checkSize := checkSize + |values[index]|;
    }
    assert values[..|values|] == values;
    var out := ToLe(topValueCount, 2) + topValuesLength + data;
    if checkSize != |data| {
      return TotalSizeMismatch;
    }
    var valueOffset := 2 + topValueCount * 4 + |data| + 8;
    return Bytes(out + ToLe(valueOffset, 8));
  }

  // ---------- parsing

  /** OutsideImage stands for a read beyond the image, which the parser does not guard against. */
  datatype Parsed = Loaded(values: Values) | SizeMismatch | OutsideImage

  function Total(lengths: seq<nat>): nat {
    if |lengths| == 0 then 0 else Total(lengths[..|lengths| - 1]) + lengths[|lengths| - 1]
  }

  function ReadLengths(image: seq<byte>, at: nat, count: nat): (lengths: seq<nat>)
    requires at + 4 * count <= |image|
    ensures |lengths| == count
  {
    if count == 0 then []
    else ReadLengths(image, at, count - 1) + [Le(image[at + 4 * (count - 1)..at + 4 * count])]
  }

  function SliceValues(image: seq<byte>, at: nat, lengths: seq<nat>): (values: Values)
    requires at + Total(lengths) <= |image|
    ensures |values| == |lengths|
  {
    if |lengths| == 0 then [] else
      var m := |lengths| - 1;
      var start := at + Total(lengths[..m]);
      SliceValues(image, at, lengths[..m]) + [image[start..start + lengths[m]]]
  }

  function Parse(image: seq<byte>): Parsed {
    if |image| < 8 then OutsideImage else
      var valueOffset := Le(image[|image| - 8..]);
      if valueOffset == 0 then Loaded([])
      else if |image| < valueOffset || valueOffset < 2 then OutsideImage else
        var at := |image| - valueOffset;
        var count := Le(image[at..at + 2]);
        if |image| < at + 2 + 4 * count then OutsideImage else
          var lengths := ReadLengths(image, at + 2, count);
          var first := at + 2 + 4 * count;
          if |image| < first + Total(lengths) then OutsideImage
          else if first + Total(lengths) + 8 != |image| then SizeMismatch
          else Loaded(SliceValues(image, first, lengths))
  }

  /** The parser itself: it walks currentOffset from the start of the trailer to its end. */
  method SetFrequentValue(data: array<byte>, dataSize: nat) returns (p: Parsed)
    requires dataSize <= data.Length
    ensures p == Parse(data[..dataSize])
  {
    hide Le, ReadLengths, SliceValues, Total;
    if dataSize < 8 {
      return OutsideImage;
    }
    SliceOfSlice(data[..], 0, dataSize, dataSize - 8, dataSize);
    var valueOffset := Le(data[dataSize - 8..dataSize]);
    if valueOffset == 0 {
      return Loaded([]);
    }
    if dataSize < valueOffset || valueOffset < 2 {
      return OutsideImage;
    }
    var currentOffset := dataSize - valueOffset;
    SliceOfSlice(data[..], 0, dataSize, currentOffset, currentOffset + 2);
    var count := Le(data[currentOffset..currentOffset + 2]);
    currentOffset := currentOffset + 2;
    if dataSize < currentOffset + 4 * count {
      return OutsideImage;
    }
    var lengths := CopyLengths(data, dataSize, currentOffset, count);
    currentOffset := currentOffset + 4 * count;
    var inside, values;
    inside, values, currentOffset := CollectValues(data, dataSize, currentOffset, lengths);
    if !inside {
      return OutsideImage;
    }
    currentOffset := currentOffset + 8;
    if currentOffset != dataSize {
      return SizeMismatch;
    }
    return Loaded(values);
  }

  method CopyLengths(data: array<byte>, dataSize: nat, at: nat, count: nat) returns (lengths: seq<nat>)
    requires at + 4 * count <= dataSize <= data.Length
    ensures lengths == ReadLengths(data[..dataSize], at, count)
  {
    lengths := [];
    for index := 0 to count
      invariant lengths == ReadLengths(data[..dataSize], at, index)
    {
      SliceOfSlice(data[..], 0, dataSize, at + 4 * index, at + 4 * index + 4);
      lengths := lengths + [Le(data[at + 4 * index..at + 4 * index + 4])];
    }
  }

  method CollectValues(data: array<byte>, dataSize: nat, first: nat, lengths: seq<nat>)
    returns (inside: bool, values: Values, currentOffset: nat)
    requires first <= dataSize <= data.Length
    ensures inside <==> first + Total(lengths) <= dataSize
    ensures inside ==> currentOffset == first + Total(lengths)
    ensures inside ==> values == SliceValues(data[..dataSize], first, lengths)
  {
    currentOffset, values := first, [];
    for index := 0 to |lengths|
      invariant currentOffset == first + Total(lengths[..index]) <= dataSize
      invariant values == SliceValues(data[..dataSize], first, lengths[..index])
    {
      var end := currentOffset + lengths[index];
      assert lengths[..index + 1][..index] == lengths[..index];
      if dataSize < end {
        TotalMonotonic(lengths, index + 1);
        return false, values, currentOffset;
      }
      SliceOfSlice(data[..], 0, dataSize, currentOffset, end);
      values := values + [data[currentOffset..end]];
      currentOffset := end;
    }
    assert lengths[..|lengths|] == lengths;
    inside := true;
  }

  lemma {:induction false} TotalMonotonic(lengths: seq<nat>, k: nat)
    requires k <= |lengths|
    ensures Total(lengths[..k]) <= Total(lengths)
    decreases |lengths|
  {
    if k == |lengths| {
      assert lengths[..k] == lengths;
    } else {
      var m := |lengths| - 1;
      TotalMonotonic(lengths[..m], k);
      assert lengths[..m][..k] == lengths[..k];
    }
  }

  // ---------- the round trip

  function WrittenLengths(values: Values): seq<nat> {
    seq(|values|, i requires 0 <= i < |values| => |values[i]| % TWO32)
  }

  ghost predicate AllShort(values: Values) {
    forall i :: 0 <= i < |values| ==> |values[i]| < TWO32
  }

  lemma {:induction false} LengthsAreRead(values: Values, image: seq<byte>, at: nat)
    requires at + 4 * |values| <= |image|
    requires image[at..at + 4 * |values|] == LengthTable(values)
    ensures ReadLengths(image, at, |values|) == WrittenLengths(values)
  {
    hide Le, ToLe, Pow;
    if |values| != 0 {
      var m := |values| - 1;
      var t := LengthTable(values);
      SliceOfSlice(image, at, at + 4 * |values|, 0, 4 * m);
      SliceOfSlice(image, at, at + 4 * |values|, 4 * m, 4 * m + 4);
      assert t[0..4 * m] == LengthTable(values[..m]);
      assert t[4 * m..4 * m + 4] == ToLe(|values[m]| % TWO32, 4);
      LengthsAreRead(values[..m], image, at);
      FourBytes();
      LeOfToLe(|values[m]| % TWO32, 4);
    }
  }

  lemma FourBytes()
    ensures Pow(256, 4) == TWO32
  {
  }

  lemma {:induction false} WrittenTotal(values: Values)
    ensures Total(WrittenLengths(values)) <= |Concat(values)|
    ensures Total(WrittenLengths(values)) == |Concat(values)| <==> AllShort(values)
  {
    if |values| != 0 {
      var m := |values| - 1;
      WrittenTotal(values[..m]);
      assert WrittenLengths(values)[..m] == WrittenLengths(values[..m]);
      assert AllShort(values) <==> AllShort(values[..m]) && |values[m]| < TWO32;
    }
  }

  /** What parsing makes of every table the setter admits, behind any records. */
  lemma ParseOfOutput(records: seq<byte>, values: Values)
    requires |values| <= MAX_DUPLICATED_VALUES && TrailerSize(values) < TWO64
    ensures Parse(records + Output(values)) ==
            if |values| == MAX_DUPLICATED_VALUES then Loaded([])
            else if AllShort(values) then Loaded(values) else SizeMismatch
  {
    hide Parse, LengthTable, Concat, Le, ToLe, TrailerSize;
    if |values| % 0x1_0000 == 0 {
      ParseOfEmpty(records);
    } else {
      OutputFields(records, values);
      ParseOfFields(records + Output(values), |records|, values);
    }
  }

  lemma ParseOfEmpty(records: seq<byte>)
    ensures Parse(records + ToLe(0, 8)) == Loaded([])
  {
    assert (records + ToLe(0, 8))[|records|..] == ToLe(0, 8);
    LeOfToLeTruncates(0, 8);
  }

  lemma ValuesAreSliced(values: Values, image: seq<byte>, at: nat)
    requires AllShort(values) && at + |Concat(values)| <= |image|
    requires image[at..at + |Concat(values)|] == Concat(values)
    ensures Total(WrittenLengths(values)) == |Concat(values)|
    ensures SliceValues(image, at, WrittenLengths(values)) == values
  {
    hide Concat, Total, SliceValues, SizeOf, ValueAt;
    forall j | 0 <= j < |values|
      ensures WrittenLengths(values)[j] == |values[j]| && ValueAt(image, at + SizeOf(values, j), values[j])
    {
      SmallRemainder(|values[j]|, TWO32);
      ConcatAt(values, j);
      ValueInside(image, at, Concat(values), SizeOf(values, j), values[j]);
    }
    SizeOfConcat(values);
    SlicesAreValues(image, at, WrittenLengths(values), values);
  }

  lemma ParseOfFields(image: seq<byte>, at: nat, values: Values)
    requires values != [] && |image| == at + TrailerSize(values)
    requires Le(image[|image| - 8..]) == TrailerSize(values)
    requires Le(image[at..at + 2]) == |values|
    requires image[at + 2..at + 2 + 4 * |values|] == LengthTable(values)
    requires image[at + 2 + 4 * |values|..|image| - 8] == Concat(values)
    ensures Parse(image) == if AllShort(values) then Loaded(values) else SizeMismatch
  {
    hide Le, LengthTable, Concat, WrittenLengths, Total, ReadLengths, SliceValues;
    LengthsAreRead(values, image, at + 2);
    WrittenTotal(values);
    if AllShort(values) {
      ValuesAreSliced(values, image, at + 2 + 4 * |values|);
    }
  }

  lemma SmallRemainder(x: nat, d: nat)
    requires x < d
    ensures x % d == x
  {
  }

  lemma OutputFields(records: seq<byte>, values: Values)
    requires 0 < |values| < 0x1_0000 && TrailerSize(values) < TWO64
    ensures var image, at, count := records + Output(values), |records|, |values|;
            && |image| == at + TrailerSize(values)
            && Le(image[|image| - 8..]) == TrailerSize(values)
            && Le(image[at..at + 2]) == count
            && image[at + 2..at + 2 + 4 * count] == LengthTable(values)
            && image[at + 2 + 4 * count..|image| - 8] == Concat(values)
  {
    hide *;
    var b, c, d, e := ToLe(|values|, 2), LengthTable(values), Concat(values), ToLe(TrailerSize(values), 8);
    FrameNumbers(values);
    FrameParts(values);
    SlicesOfParts(records + Output(values), 4 * |values|, records, b, c, d, e);
  }

  lemma FrameNumbers(values: Values)
    requires |values| < 0x1_0000 && TrailerSize(values) < TWO64
    ensures Le(ToLe(|values|, 2)) == |values|
    ensures Le(ToLe(TrailerSize(values), 8)) == TrailerSize(values)
  {
    assert Pow(256, 2) == 0x1_0000 && Pow(256, 8) == TWO64;
    LeOfToLe(TrailerSize(values), 8);
    LeOfToLe(|values|, 2);
  }

  lemma FrameParts(values: Values)
    requires 0 < |values| < 0x1_0000
    ensures var b, c, d, e := ToLe(|values|, 2), LengthTable(values), Concat(values), ToLe(TrailerSize(values), 8);
            && Output(values) == b + c + d + e
            && |b| == 2 && |c| == 4 * |values| && |e| == 8
            && TrailerSize(values) == |b| + |c| + |d| + |e|
  {
    SmallRemainder(|values|, 0x1_0000);
    hide ToLe, LengthTable, Concat;
  }

  lemma SlicesOfParts(s: seq<byte>, n: nat, a: seq<byte>, b: seq<byte>, c: seq<byte>, d: seq<byte>, e: seq<byte>)
    requires s == a + (b + c + d + e) && |b| == 2 && |c| == n && |e| == 8
    ensures var at := |a|;
            && |s| == at + |b| + |c| + |d| + |e|
            && s[|s| - 8..] == e
            && s[at..at + 2] == b && s[at + 2..at + 2 + n] == c && s[at + 2 + n..|s| - 8] == d
  {
  }

  /** The table survives writing and loading exactly when it has at most 65535 values and none of
      them needs more than 32 bits for its length. */
  lemma TrailerRoundTrip(records: seq<byte>, values: Values)
    requires |values| <= MAX_DUPLICATED_VALUES && TrailerSize(values) < TWO64
    ensures Parse(records + Output(values)) == Loaded(values)
            <==> |values| < MAX_DUPLICATED_VALUES && AllShort(values)
  {
    ParseOfOutput(records, values);
  }

  // ---------- the format by position

  /** How many bytes the first j values have together. */
  function SizeOf(values: Values, j: nat): nat
    requires j <= |values|
  {
    if j == 0 then 0 else SizeOf(values, j - 1) + |values[j - 1]|
  }

  /** From at on the image is a table of values: two bytes with their number, four bytes for each
      length, the values one behind the other, and eight bytes with the size of all this. */
  ghost predicate TableAt(image: seq<byte>, at: nat, values: Values) {
    var k, total := |values|, SizeOf(values, |values|);
    && |image| == at + 2 + 4 * k + total + 8
    && Two(image, at) == k
    && (forall j :: 0 <= j < k ==> Four(image, at + 2 + 4 * j) == |values[j]| % 0x1_0000_0000)
    && (forall j :: 0 <= j < k ==> ValueAt(image, at + 2 + 4 * k + SizeOf(values, j), values[j]))
    && Eight(image, |image| - 8) == (10 + 4 * k + total) % 0x1_0000_0000_0000_0000
  }

  ghost predicate ValueAt(image: seq<byte>, start: nat, value: seq<byte>) {
    start + |value| <= |image| && image[start..start + |value|] == value
  }

  lemma {:induction false} SizePrefix(values: Values, m: nat, j: nat)
    requires j <= m <= |values|
    ensures SizeOf(values[..m], j) == SizeOf(values, j)
  {
    if j != 0 {
      SizePrefix(values, m, j - 1);
    }
  }

  lemma {:induction false} SizeOfConcat(values: Values)
    ensures SizeOf(values, |values|) == |Concat(values)|
  {
    if |values| != 0 {
      var m := |values| - 1;
      SizeOfConcat(values[..m]);
      SizePrefix(values, m, m);
    }
  }

  lemma {:induction false} ConcatAt(values: Values, j: nat)
    requires j < |values|
    ensures ValueAt(Concat(values), SizeOf(values, j), values[j])
  {
    var m := |values| - 1;
    SizeOfConcat(values[..m]);
    SizePrefix(values, m, j);
    if j < m {
      ConcatAt(values[..m], j);
      SliceOfConcat(Concat(values[..m]), values[m], SizeOf(values, j), SizeOf(values, j) + |values[j]|);
    }
  }

  lemma {:induction false} LengthAt(values: Values, j: nat)
    requires j < |values|
    ensures LengthTable(values)[4 * j..4 * j + 4] == ToLe(|values[j]| % TWO32, 4)
  {
    hide ToLe;
    var m := |values| - 1;
    if j < m {
      LengthAt(values[..m], j);
      SliceOfConcat(LengthTable(values[..m]), ToLe(|values[m]| % TWO32, 4), 4 * j, 4 * j + 4);
    }
  }

  /** What is written behind the records, byte for byte. */
  lemma OutputIsTable(records: seq<byte>, values: Values)
    requires |values| <= 65536
    ensures var image := records + Output(values);
            if |values| == 0 || |values| == 65536 then image == records + seq(8, _ => 0)
            else TableAt(image, |records|, values)
  {
    hide *;
    if |values| == 0 || |values| == 65536 {
      NothingWritten(values);
    } else {
      var image, at, k := records + Output(values), |records|, |values|;
      var b, c, d, e := ToLe(k, 2), LengthTable(values), Concat(values), ToLe(TrailerSize(values), 8);
      FrameParts(values);
      SlicesOfParts(image, 4 * k, records, b, c, d, e);
      SizeOfConcat(values);
      FrameValues(image, at, values);
      forall j | 0 <= j < k
        ensures at + 6 + 4 * j <= |image| && Four(image, at + 2 + 4 * j) == |values[j]| % 0x1_0000_0000
      {
        LengthIsWritten(image, at + 2, values, j);
      }
      forall j | 0 <= j < k
        ensures ValueAt(image, at + 2 + 4 * k + SizeOf(values, j), values[j])
      {
        ConcatAt(values, j);
        ValueInside(image, at + 2 + 4 * k, d, SizeOf(values, j), values[j]);
      }
      TableOfParts(image, at, values);
    }
  }

  lemma NothingWritten(values: Values)
    requires |values| == 0 || |values| == 65536
    ensures Output(values) == seq(8, _ => 0)
  {
    LeZero(8);
  }

  lemma TableOfParts(image: seq<byte>, at: nat, values: Values)
    requires |image| == at + 2 + 4 * |values| + SizeOf(values, |values|) + 8
    requires Two(image, at) == |values|
    requires forall j :: 0 <= j < |values| ==> Four(image, at + 2 + 4 * j) == |values[j]| % 0x1_0000_0000
    requires forall j :: 0 <= j < |values| ==> ValueAt(image, at + 2 + 4 * |values| + SizeOf(values, j), values[j])
    requires Eight(image, |image| - 8) == (10 + 4 * |values| + SizeOf(values, |values|)) % 0x1_0000_0000_0000_0000
    ensures TableAt(image, at, values)
  {
    hide Two, Four, Eight, ValueAt, SizeOf;
  }

  lemma LengthIsWritten(image: seq<byte>, at: nat, values: Values, j: nat)
    requires j < |values| && at + 4 * |values| <= |image| && image[at..at + 4 * |values|] == LengthTable(values)
    ensures Four(image, at + 4 * j) == |values[j]| % 0x1_0000_0000
  {
    hide Le, ToLe, LengthTable, Pow, Four;
    LengthAt(values, j);
    SliceOfSlice(image, at, at + 4 * |values|, 4 * j, 4 * j + 4);
    PlaceValues(image, at + 4 * j);
    FourBytes();
    LeOfToLe(|values[j]| % TWO32, 4);
  }

  lemma ValueInside(image: seq<byte>, first: nat, d: seq<byte>, start: nat, value: seq<byte>)
    requires first + |d| <= |image| && image[first..first + |d|] == d && ValueAt(d, start, value)
    ensures ValueAt(image, first + start, value)
  {
    SliceOfSlice(image, first, first + |d|, start, start + |value|);
  }

  /** The two numbers around the table. */
  lemma FrameValues(image: seq<byte>, at: nat, values: Values)
    requires |values| < 65536 && at + 2 <= |image| && 8 <= |image|
    requires image[at..at + 2] == ToLe(|values|, 2) && image[|image| - 8..] == ToLe(TrailerSize(values), 8)
    ensures Two(image, at) == |values|
    ensures Eight(image, |image| - 8) == TrailerSize(values) % 0x1_0000_0000_0000_0000
  {
    hide Le, ToLe, Two, Eight, TrailerSize;
    assert Pow(256, 2) == 0x1_0000 && Pow(256, 8) == TWO64;
    PlaceValues(image, at);
    PlaceValues(image, |image| - 8);
    LeOfToLe(|values|, 2);
    LeOfToLeTruncates(TrailerSize(values), 8);
    assert image[|image| - 8..|image|] == image[|image| - 8..];
  }

  // ---------- parsing any image, by position

  lemma {:induction false} LengthReadAt(image: seq<byte>, at: nat, count: nat, j: nat)
    requires at + 4 * count <= |image| && j < count
    ensures ReadLengths(image, at, count)[j] == Four(image, at + 4 * j)
  {
    hide Le, Four;
    PlaceValues(image, at + 4 * (count - 1));
    if j < count - 1 {
      LengthReadAt(image, at, count - 1, j);
    }
  }

  lemma {:induction false} ValueSlicedAt(image: seq<byte>, at: nat, lengths: seq<nat>, j: nat)
    requires at + Total(lengths) <= |image| && j < |lengths|
    ensures Total(lengths[..j]) + lengths[j] <= Total(lengths)
    ensures SliceValues(image, at, lengths)[j] == image[at + Total(lengths[..j])..at + Total(lengths[..j]) + lengths[j]]
  {
    var m := |lengths| - 1;
    if j < m {
      ValueSlicedAt(image, at, lengths[..m], j);
      assert lengths[..m][..j] == lengths[..j];
    }
  }

  /** The lengths in the table are those of the values. */
  predicate LengthsOf(lengths: seq<nat>, values: Values) {
    |lengths| == |values| && forall j :: 0 <= j < |values| ==> lengths[j] == |values[j]|
  }

  lemma {:induction false} TotalOfLengths(lengths: seq<nat>, values: Values, j: nat)
    requires LengthsOf(lengths, values) && j <= |values|
    ensures Total(lengths[..j]) == SizeOf(values, j)
  {
    if j != 0 {
      TotalOfLengths(lengths, values, j - 1);
      assert lengths[..j][..j - 1] == lengths[..j - 1];
    }
  }

  /** The lengths that an image announces in a table at at. */
  predicate Announces(image: seq<byte>, at: nat, lengths: seq<nat>) {
    && at + 2 <= |image| && |lengths| == Two(image, at)
    && at + 2 + 4 * |lengths| <= |image|
    && forall j :: 0 <= j < |lengths| ==> lengths[j] == Four(image, at + 2 + 4 * j)
  }

  lemma LastEight(image: seq<byte>)
    requires |image| >= 8
    ensures Le(image[|image| - 8..]) == Eight(image, |image| - 8)
  {
    hide Le, Eight;
    PlaceValues(image, |image| - 8);
    assert image[|image| - 8..|image|] == image[|image| - 8..];
  }

  /** Where the parser gives up, or finds that nothing was written. */
  lemma ParseOfNothing(image: seq<byte>)
    ensures |image| < 8 ==> Parse(image) == OutsideImage
    ensures |image| >= 8 && Eight(image, |image| - 8) == 0 ==> Parse(image) == Loaded([])
    ensures |image| >= 8 && Eight(image, |image| - 8) != 0 ==>
              var at := |image| - Eight(image, |image| - 8);
              at < 0 || |image| < at + 2 || |image| < at + 2 + 4 * Two(image, at) ==> Parse(image) == OutsideImage
  {
    hide Le, Two, Four, Eight, ReadLengths, SliceValues, Total;
    if |image| >= 8 {
      LastEight(image);
      var at := |image| - Eight(image, |image| - 8);
      if 0 <= at && at + 2 <= |image| {
        PlaceValues(image, at);
      }
    }
  }

  /** What the parser makes of the lengths that it finds. */
  lemma ParseOfLengths(image: seq<byte>, at: nat, lengths: seq<nat>)
    requires |image| >= 8 && Eight(image, |image| - 8) != 0 && at == |image| - Eight(image, |image| - 8)
    requires Announces(image, at, lengths)
    ensures var first := at + 2 + 4 * |lengths|;
            Parse(image) == if |image| < first + Total(lengths) then OutsideImage
                            else if |image| != first + Total(lengths) + 8 then SizeMismatch
                            else Loaded(SliceValues(image, first, lengths))
  {
    hide Le, Two, Four, Eight, ReadLengths, SliceValues, Total;
    LastEight(image);
    PlaceValues(image, at);
    LengthsAreThose(image, at, lengths);
  }

  lemma LengthsAreThose(image: seq<byte>, at: nat, lengths: seq<nat>)
    requires Announces(image, at, lengths)
    ensures ReadLengths(image, at + 2, |lengths|) == lengths
  {
    hide Two, Four, ReadLengths;
    forall j | 0 <= j < |lengths|
      ensures ReadLengths(image, at + 2, |lengths|)[j] == lengths[j]
    {
      LengthReadAt(image, at + 2, |lengths|, j);
    }
  }

  /** Exactly the images that end in a table of values load it. */
  lemma ParseExactly(image: seq<byte>, values: Values)
    requires |image| >= 8 && Eight(image, |image| - 8) != 0
    ensures Parse(image) == Loaded(values) <==>
            var at := |image| - Eight(image, |image| - 8);
            0 <= at && TableAt(image, at, values) && AllShort(values)
  {
    hide Two, Four, Eight, Parse, TableAt, AllShort;
    var at := |image| - Eight(image, |image| - 8);
    if 0 <= at && TableAt(image, at, values) && AllShort(values) {
      TableIsParsed(image, at, values);
    }
    if Parse(image) == Loaded(values) {
      ParsedIsTable(image, values);
    }
  }

  lemma TableIsParsed(image: seq<byte>, at: nat, values: Values)
    requires |image| >= 8 && Eight(image, |image| - 8) != 0 && at == |image| - Eight(image, |image| - 8)
    requires TableAt(image, at, values) && AllShort(values)
    ensures Parse(image) == Loaded(values)
  {
    hide Two, Four, Eight, Total, SliceValues, Parse, ValueAt, SizeOf;
    var k, first := |values|, at + 2 + 4 * |values|;
    var lengths: seq<nat> := seq(k, j requires 0 <= j < k => |values[j]|);
    forall j | 0 <= j < k
      ensures lengths[j] == Four(image, at + 2 + 4 * j)
    {
      SmallRemainder(|values[j]|, 0x1_0000_0000);
    }
    assert Announces(image, at, lengths);
    SlicesAreValues(image, first, lengths, values);
    ParseOfLengths(image, at, lengths);
  }

  lemma SlicesAreValues(image: seq<byte>, first: nat, lengths: seq<nat>, values: Values)
    requires LengthsOf(lengths, values) && first + SizeOf(values, |values|) <= |image|
    requires forall j :: 0 <= j < |values| ==> ValueAt(image, first + SizeOf(values, j), values[j])
    ensures Total(lengths) == SizeOf(values, |values|) && SliceValues(image, first, lengths) == values
  {
    hide Total, SliceValues, SizeOf;
    TotalOfLengths(lengths, values, |values|);
    assert lengths[..|values|] == lengths;
    forall j | 0 <= j < |values|
      ensures SliceValues(image, first, lengths)[j] == values[j]
    {
      ValueSlicedAt(image, first, lengths, j);
      TotalOfLengths(lengths, values, j);
      assert ValueAt(image, first + SizeOf(values, j), values[j]);
    }
  }

  lemma ParsedIsTable(image: seq<byte>, values: Values)
    requires |image| >= 8 && Eight(image, |image| - 8) != 0 && Parse(image) == Loaded(values)
    ensures var at := |image| - Eight(image, |image| - 8);
            0 <= at && TableAt(image, at, values) && AllShort(values)
  {
    hide Two, Four, Eight, Total, SliceValues, Parse, ValueAt, SizeOf;
    var v := Eight(image, |image| - 8);
    var at := |image| - v;
    ParseOfNothing(image);
    var k := Two(image, at);
    var lengths: seq<nat> := seq(k, j requires 0 <= j < k => Four(image, at + 2 + 4 * j));
    assert Announces(image, at, lengths);
    ParseOfLengths(image, at, lengths);
    ValuesAreSlices(image, at + 2 + 4 * k, lengths, values);
    SmallRemainder(v, 0x1_0000_0000_0000_0000);
    forall j | 0 <= j < k
      ensures |values[j]| < 0x1_0000_0000 && Four(image, at + 2 + 4 * j) == |values[j]| % 0x1_0000_0000
    {
      assert lengths[j] == Four(image, at + 2 + 4 * j);
      SmallRemainder(|values[j]|, 0x1_0000_0000);
    }
  }

  lemma ValuesAreSlices(image: seq<byte>, first: nat, lengths: seq<nat>, values: Values)
    requires first + Total(lengths) <= |image| && values == SliceValues(image, first, lengths)
    ensures LengthsOf(lengths, values) && Total(lengths) == SizeOf(values, |values|)
    ensures forall j :: 0 <= j < |values| ==> ValueAt(image, first + SizeOf(values, j), values[j])
  {
    hide Total, SliceValues, SizeOf, ValueAt;
    forall j | 0 <= j < |values|
      ensures |values[j]| == lengths[j] && ValueAt(image, first + Total(lengths[..j]), values[j])
    {
      SlicedValue(image, first, lengths, j);
    }
    TotalOfLengths(lengths, values, |values|);
    assert lengths[..|values|] == lengths;
    forall j | 0 <= j < |values|
      ensures ValueAt(image, first + SizeOf(values, j), values[j])
    {
      TotalOfLengths(lengths, values, j);
    }
  }

  lemma SlicedValue(image: seq<byte>, first: nat, lengths: seq<nat>, j: nat)
    requires first + Total(lengths) <= |image| && j < |lengths|
    ensures var value := SliceValues(image, first, lengths)[j];
            |value| == lengths[j] && ValueAt(image, first + Total(lengths[..j]), value)
  {
    hide Total, SliceValues;
    ValueSlicedAt(image, first, lengths, j);
  }
}
