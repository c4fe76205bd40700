/** The codec of string lists: a count, then each element with its length, its bytes and a NUL. */
module StringList {
  import opened Powers
  import opened Bytes

  type Text = seq<byte>

  const VECTOR_LENGTH: nat := 65535
  const VECTOR_ELEMENT_LENGTH: nat := 65535

  /** Decoded elements and the position after the last of them. */
  datatype Decoded = Decoded(elements: seq<Text>, end: nat)

  predicate Encodable(l: seq<Text>) {
    |l| <= VECTOR_LENGTH && forall i :: 0 <= i < |l| ==> |l[i]| <= VECTOR_ELEMENT_LENGTH
  }

  function Element(s: Text): Text {
    ToLe(|s|, 2) + s + [0]
  }

  ghost function Elements(l: seq<Text>): Text {
    if |l| == 0 then [] else Element(l[0]) + Elements(l[1..])
  }

  ghost function Encoding(l: seq<Text>): Text {
    ToLe(|l|, 2) + Elements(l)
  }

  /** Reading n elements at position p; None when a length or the bytes it announces are not there. */
  ghost function Reading(data: Text, p: nat, n: nat): Option<Decoded>
    decreases n
  {
    if n == 0 then Some(Decoded([], p))
    else if p + 2 > |data| then None
    else
      var length := Le(data[p..p + 2]);
      if p + 2 + length > |data| then None
      else
        match Reading(data, p + 2 + length + 1, n - 1)
        case None => None
        case Some(rest) => Some(Decoded([data[p + 2..p + 2 + length]] + rest.elements, rest.end))
  }

  // ---------- the round trip

  lemma {:induction false} ElementsPush(l: seq<Text>, s: Text)
    ensures Elements(l + [s]) == Elements(l) + Element(s)
  {
    if |l| == 0 {
      assert l + [s] == [s];
      assert Elements([s][1..]) == [];
    } else {
      assert (l + [s])[1..] == l[1..] + [s];
      ElementsPush(l[1..], s);
    }
  }

  lemma TwoBytes()
    ensures Pow(256, 2) == 65536
  {
    assert Pow(256, 1) == 256 * Pow(256, 0);
  }

  lemma FourParts(d: Text, a: Text, b: Text, c: Text, e: Text)
    requires d == a + b + c + e
    ensures |d| == |a| + |b| + |c| + |e|
    ensures d[..|a|] == a && d[|a|..|a| + |b|] == b && d[|a| + |b| + |c|..] == e
  {
  }

  lemma ReadElement(data: Text, p: nat, s: Text, tail: Text)
    requires p <= |data| && data[p..] == Element(s) + tail && |s| <= VECTOR_ELEMENT_LENGTH
    ensures p + 2 + |s| + 1 <= |data| && Le(data[p..p + 2]) == |s|
    ensures data[p + 2..p + 2 + |s|] == s && data[p + 2 + |s| + 1..] == tail
  {
    hide Le, ToLe, Pow;
    TwoBytes();
    LeOfToLe(|s|, 2);
    var d := data[p..];
    FourParts(d, ToLe(|s|, 2), s, [0], tail);
    assert data[p..p + 2] == d[..2] && data[p + 2..p + 2 + |s|] == d[2..2 + |s|];
    assert data[p + 2 + |s| + 1..] == d[3 + |s|..];
  }

  /** Reading back elements gives them, and stops where they end. */
  lemma {:induction false} ReadingOfElements(l: seq<Text>, data: Text, p: nat)
    requires p <= |data| && data[p..] == Elements(l)
    requires forall i :: 0 <= i < |l| ==> |l[i]| <= VECTOR_ELEMENT_LENGTH
    ensures Reading(data, p, |l|) == Some(Decoded(l, |data|))
    decreases |l|
  {
    if |l| != 0 {
      var s := l[0];
      ReadElement(data, p, s, Elements(l[1..]));
      ReadingOfElements(l[1..], data, p + 2 + |s| + 1);
      assert [s] + l[1..] == l;
    }
  }

  /** decode(encode(l)) == l for every list that can be encoded, reading exactly the encoded length. */
  lemma RoundTrip(l: seq<Text>)
    requires Encodable(l)
    ensures var e := Encoding(l);
            |e| >= 2 && Le(e[..2]) == |l| && Reading(e, 2, Le(e[..2])) == Some(Decoded(l, |e|))
  {
    hide Le, ToLe, Pow, Elements, Reading;
    TwoBytes();
    LeOfToLe(|l|, 2);
    var e := Encoding(l);
    assert e[..2] == ToLe(|l|, 2) && e[2..] == Elements(l);
    ReadingOfElements(l, e, 2);
  }

  // ---------- the format by position

  /** Where element j begins: two bytes for the count, and three around every element before it. */
  function PositionOf(l: seq<Text>, j: nat): nat
    requires j <= |l|
  {
    if j == 0 then 2 else PositionOf(l, j - 1) + |l[j - 1]| + 3
  }

  /** Two bytes with the length, and the bytes. */
  predicate ElementAt(data: Text, p: nat, s: Text) {
    p + 2 + |s| <= |data| && Two(data, p) == |s| && data[p + 2..p + 2 + |s|] == s
  }

  /** The count, the elements, and a zero byte behind each. */
  ghost predicate IsEncoding(e: Text, l: seq<Text>) {
    && |e| == PositionOf(l, |l|) && |e| >= 2 && Two(e, 0) == |l|
    && forall j :: 0 <= j < |l| ==> ElementEndsAt(e, PositionOf(l, j), l[j])
  }

  predicate ElementEndsAt(e: Text, p: nat, s: Text) {
    ElementAt(e, p, s) && p + 2 + |s| < |e| && e[p + 2 + |s|] == 0
  }

  lemma {:induction false} PositionPrefix(l: seq<Text>, m: nat, j: nat)
    requires j <= m <= |l|
    ensures PositionOf(l[..m], j) == PositionOf(l, j)
  {
    if j != 0 {
      PositionPrefix(l, m, j - 1);
    }
  }

  lemma PositionStep(l: seq<Text>, j: nat)
    requires j < |l|
    ensures PositionOf(l, j + 1) == PositionOf(l, j) + |l[j]| + 3
  {
  }

  lemma {:induction false} EncodingIsPlaced(l: seq<Text>)
    requires Encodable(l)
    ensures |Encoding(l)| == PositionOf(l, |l|)
    ensures forall j :: 0 <= j < |l| ==> ElementEndsAt(Encoding(l), PositionOf(l, j), l[j])
  {
    hide ElementEndsAt, Elements, ToLe, Element, PositionOf;
    NoPosition(l);
    if |l| == 0 {
      ElementsOfNone(l);
    } else {
      var m := |l| - 1;
      var before, s := l[..m], l[m];
      EncodingIsPlaced(before);
      ElementsPush(before, s);
      assert before + [s] == l;
      var e, e' := Encoding(before), Encoding(l);
      assert e'[2..] == e[2..] + Element(s);
      PositionPrefix(l, m, m);
      PositionStep(l, m);
      PositionAtLeast(l, m);
      ElementSize(s);
      assert e'[2..|e|] == e[2..] && e'[|e|..] == Element(s);
      NewElement(e', |e|, s);
      forall j | 0 <= j < m
        ensures ElementEndsAt(e', PositionOf(l, j), l[j])
      {
        PositionPrefix(l, m, j);
        PositionAtLeast(l, j);
        ElementKept(e, e', PositionOf(l, j), l[j]);
      }
    }
  }

  lemma NoPosition(l: seq<Text>)
    ensures PositionOf(l, 0) == 2
  {
  }

  lemma {:induction false} PositionAtLeast(l: seq<Text>, j: nat)
    requires j <= |l|
    ensures PositionOf(l, j) >= 2
  {
    if j != 0 {
      PositionAtLeast(l, j - 1);
    }
  }

  lemma ElementSize(s: Text)
    ensures |Element(s)| == |s| + 3
  {
  }

  lemma ElementKept(e: Text, e': Text, p: nat, s: Text)
    requires 2 <= p && 2 <= |e| <= |e'| && e'[2..|e|] == e[2..] && ElementEndsAt(e, p, s)
    ensures ElementEndsAt(e', p, s)
  {
    assert forall i :: 2 <= i < |e| ==> e'[i] == e'[2..|e|][i - 2] == e[2..][i - 2] == e[i];
    assert e'[p + 2..p + 2 + |s|] == e[p + 2..p + 2 + |s|];
  }

  lemma NewElement(e: Text, p: nat, s: Text)
    requires p <= |e| && e[p..] == Element(s) && |s| <= VECTOR_ELEMENT_LENGTH
    ensures ElementEndsAt(e, p, s)
  {
    hide Le, ToLe, Pow, Two;
    assert e[p..] == Element(s) + [];
    ReadElement(e, p, s, []);
    PlaceValues(e, p);
    var d := e[p..];
    assert d[2 + |s|] == 0;
  }

  /** What is written, by position. */
  lemma EncodingByPosition(l: seq<Text>)
    requires Encodable(l)
    ensures IsEncoding(Encoding(l), l)
  {
    hide Elements, ToLe, Le, Pow, Two, ElementEndsAt;
    EncodingIsPlaced(l);
    PositionAtLeast(l, |l|);
    TwoBytes();
    LeOfToLe(|l|, 2);
    var e := Encoding(l);
    assert e[0..2] == ToLe(|l|, 2);
    PlaceValues(e, 0);
  }

  /** Any data in which a list is laid out so is read as that list; the byte behind an element is skipped
      whatever it is. */
  lemma {:induction false} ReadingByPosition(data: Text, l: seq<Text>, j: nat)
    requires j <= |l| && forall i :: 0 <= i < |l| ==> ElementAt(data, PositionOf(l, i), l[i])
    ensures Reading(data, PositionOf(l, j), |l| - j) == Some(Decoded(l[j..], PositionOf(l, |l|)))
    decreases |l| - j
  {
    hide Reading, ElementAt, PositionOf;
    if j < |l| {
      PositionStep(l, j);
      ReadingByPosition(data, l, j + 1);
      ElementIsRead(data, PositionOf(l, j), l[j], |l| - j, Decoded(l[j + 1..], PositionOf(l, |l|)));
      assert l[j..] == [l[j]] + l[j + 1..];
    } else {
      ReadingDone(data, PositionOf(l, j));
    }
  }

  lemma ElementIsRead(data: Text, p: nat, s: Text, n: nat, rest: Decoded)
    requires ElementAt(data, p, s) && 0 < n && Reading(data, p + |s| + 3, n - 1) == Some(rest)
    ensures Reading(data, p, n) == Some(Decoded([s] + rest.elements, rest.end))
  {
    hide Le, Two;
    PlaceValues(data, p);
  }

  // ---------- the two transforms

  /** Encoding is refused exactly when a bound is exceeded. */
  method Encode(input: seq<Text>) returns (result: Option<Text>)
    ensures result == if Encodable(input) then Some(Encoding(input)) else None
    ensures result.Some? <==> |input| <= 65535 && forall i :: 0 <= i < |input| ==> |input[i]| <= 65535
    ensures result.Some? ==> IsEncoding(result.value, input)
  {
    hide Elements, ToLe, IsEncoding;
    if |input| > VECTOR_LENGTH {
      return None;
    }
    var text := ToLe(|input|, 2);
    ElementsOfNone(input[..0]);
    for i := 0 to |input|
      invariant forall j :: 0 <= j < i ==> |input[j]| <= VECTOR_ELEMENT_LENGTH
      invariant text == ToLe(|input|, 2) + Elements(input[..i])
    {
      var s := input[i];
      if |s| > VECTOR_ELEMENT_LENGTH {
        return None;
      }
      ElementsPush(input[..i], s);
      assert input[..i] + [s] == input[..i + 1];
      text := text + ToLe(|s|, 2);
      text := text + s;
      text := text + [0];
      assert text == ToLe(|input|, 2) + Elements(input[..i]) + Element(s);
    }
    assert input[..|input|] == input;
    EncodingByPosition(input);
    return Some(text);
  }

  lemma ElementsOfNone(l: seq<Text>)
    requires |l| == 0
    ensures Elements(l) == []
  {
  }

  /** The decoder trusts its input: whatever it reads must be there. */
  method Decode(data: Text) returns (result: seq<Text>, ghost end: nat)
    requires |data| >= 2 && Reading(data, 2, Le(data[..2])).Some?
    ensures result == Reading(data, 2, Le(data[..2])).value.elements
    ensures end == Reading(data, 2, Le(data[..2])).value.end
  {
    hide Le, Reading;
    var n := Le(data[..2]);
    result := [];
    var p: nat := 2;
    for i := 0 to n
      invariant Reading(data, p, n - i).Some?
      invariant Reading(data, 2, n).value
                == Decoded(result + Reading(data, p, n - i).value.elements, Reading(data, p, n - i).value.end)
    {
      ReadingStep(data, p, n - i);
      var length := Le(data[p..p + 2]);
      result := result + [data[p + 2..p + 2 + length]];
      p := p + 2 + length + 1;
    }
    ReadingDone(data, p);
    assert result + [] == result;
    end := p;
  }

  lemma ReadingStep(data: Text, p: nat, n: nat)
    requires n > 0 && Reading(data, p, n).Some?
    ensures p + 2 <= |data|
    ensures var length := Le(data[p..p + 2]);
            && p + 2 + length <= |data| && Reading(data, p + 2 + length + 1, n - 1).Some?
            && var rest := Reading(data, p + 2 + length + 1, n - 1).value;
               forall before: seq<Text> {:trigger before + Reading(data, p, n).value.elements} ::
                 before + Reading(data, p, n).value.elements
                 == before + [data[p + 2..p + 2 + length]] + rest.elements
    ensures Reading(data, p, n).value.end == Reading(data, p + 2 + Le(data[p..p + 2]) + 1, n - 1).value.end
  {
    hide Le;
  }

  lemma ReadingDone(data: Text, p: nat)
    ensures Reading(data, p, 0) == Some(Decoded([], p))
  {
  }

  /** What is encoded decodes to itself. */
  method EncodeThenDecode(input: seq<Text>) returns (result: Option<seq<Text>>)
    ensures result == if Encodable(input) then Some(input) else None
  {
    var text := Encode(input);
    if text.None? {
      return None;
    }
    RoundTrip(input);
    var decoded, end := Decode(text.value);
    return Some(decoded);
  }
}
