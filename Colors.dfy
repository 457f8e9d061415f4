/**
 * The colour table of Assets/Scripts/ColorTemplate.cs: a list of
 * (colour, value) entries, looked up by value with white as the default.
 */
module Colors {
  /** A colour as its four channels; the lookup only stores and returns colours. */
  datatype Color = Color(r: real, g: real, b: real, a: real)

  const White := Color(1.0, 1.0, 1.0, 1.0)

  datatype ColorValue = ColorValue(color: Color, value: int)

  /** `FirstOrDefault` on the entries whose value is `value`: the first such entry's colour, or white. */
  function GetColorForValue(colorValues: seq<ColorValue>, value: int): (r: Color)
    ensures colorValues == [] ==> r == White
  {
    if colorValues == [] then White
    else if colorValues[0].value == value then colorValues[0].color
    else GetColorForValue(colorValues[1..], value)
  }

  /** The entries whose value is `value`, in list order. */
  function Matching(colorValues: seq<ColorValue>, value: int): (m: seq<ColorValue>)
    ensures forall e | e in m :: e in colorValues && e.value == value
    ensures forall e | e in colorValues && e.value == value :: e in m
  {
    if colorValues == [] then []
    else if colorValues[0].value == value then [colorValues[0]] + Matching(colorValues[1..], value)
    else Matching(colorValues[1..], value)
  }

  /** The lookup gives the colour of the first matching entry, and white when no entry matches. */
  lemma {:induction false} FirstMatchWins(colorValues: seq<ColorValue>, value: int)
    ensures var m := Matching(colorValues, value);
      GetColorForValue(colorValues, value) == if m == [] then White else m[0].color
  {
    if colorValues != [] {
      FirstMatchWins(colorValues[1..], value);
    }
  }

  /** An entry with the value, with none before it, gives the result. */
  lemma {:induction false} EarliestEntry(colorValues: seq<ColorValue>, value: int, i: int)
    requires 0 <= i < |colorValues| && colorValues[i].value == value
    requires forall j | 0 <= j < i :: colorValues[j].value != value
    ensures GetColorForValue(colorValues, value) == colorValues[i].color
  {
    if i > 0 {
      EarliestEntry(colorValues[1..], value, i - 1);
    }
  }

  /** With an entry of the value present, the result is the colour of one such entry. */
  lemma {:induction false} SomeEntryColor(colorValues: seq<ColorValue>, value: int)
    requires exists i | 0 <= i < |colorValues| :: colorValues[i].value == value
    ensures exists i | 0 <= i < |colorValues| ::
      colorValues[i].value == value && GetColorForValue(colorValues, value) == colorValues[i].color
  {
    if colorValues[0].value != value {
      var i :| 0 <= i < |colorValues| && colorValues[i].value == value;
      assert colorValues[1..][i - 1] == colorValues[i];
      SomeEntryColor(colorValues[1..], value);
      var k :| 0 <= k < |colorValues| - 1 && colorValues[1..][k].value == value &&
        GetColorForValue(colorValues[1..], value) == colorValues[1..][k].color;
      assert colorValues[k + 1] == colorValues[1..][k];
    } else {
      assert colorValues[0].value == value;
    }
  }

  /** No entry with the value: white. */
  lemma {:induction false} NoEntryWhite(colorValues: seq<ColorValue>, value: int)
    requires forall i | 0 <= i < |colorValues| :: colorValues[i].value != value
    ensures GetColorForValue(colorValues, value) == White
  {
    if colorValues != [] {
      NoEntryWhite(colorValues[1..], value);
    }
  }

  /** Entries with other values do not change the result, wherever they stand. */
  lemma {:induction false} OtherEntriesIgnored(front: seq<ColorValue>, other: ColorValue, back: seq<ColorValue>, value: int)
    requires other.value != value
    ensures GetColorForValue(front + [other] + back, value) == GetColorForValue(front + back, value)
  {
    if front == [] {
      assert front + [other] + back == [other] + back;
      assert ([other] + back)[1..] == back;
      assert front + back == back;
    } else {
      assert (front + [other] + back)[1..] == front[1..] + [other] + back;
      assert (front + back)[1..] == front[1..] + back;
      OtherEntriesIgnored(front[1..], other, back, value);
    }
  }
}
