/** `stringToColor`: each distinct string gets a colour the first time it is
    seen, taken in turn from a palette of 24 hues, and keeps it; the colours
    are HSL with full saturation and 30% lightness, dark enough for white
    text. */
module Colors {
  import opened Js

  /** The palette, in the order colours are handed out. */
  const Hues: seq<nat> := [0, 120, 240, 60, 180, 300, 30, 90, 150, 210, 270, 330,
                           15, 45, 75, 105, 135, 165, 195, 225, 255, 285, 315, 345]

  /** Rotation applied to every hue. */
  const Offset: nat := 60

  /** The hue of the colour handed out when `count` strings already have one. */
  function Hue(count: nat): (h: nat)
    ensures h < 360
    ensures h == (Hues[count % 24] + Offset) % 360
  {
    (Hues[count % |Hues|] + Offset) % 360
  }

  /** The HSL colour of that hue, at full saturation and 30% lightness. */
  function ColorFor(count: nat): string {
    "hsl(" + NatToString(Hue(count)) + ", 100%, 30%)"
  }

  /** One call on the colour table `colors`: the colour returned and the
      table afterwards. A string already in the table gets its colour back
      and the table is unchanged; a new string gets the next palette colour,
      counted by the table's size, and is added. */
  function Remember(colors: map<string, string>, str: string): (r: (string, map<string, string>))
    ensures str in colors ==> r.0 == colors[str] && r.1 == colors
    ensures str !in colors ==> r.0 == ColorFor(|colors|) && |r.1| == |colors| + 1
    ensures r.1.Keys == colors.Keys + {str} && r.1[str] == r.0
    ensures forall k :: k in colors ==> r.1[k] == colors[k]
  {
    if str in colors then (colors[str], colors)
    else
      var color := ColorFor(|colors|);
      (color, colors[str := color])
  }

  /** The colour table after `stringToColor` has been called on each of
      `strs` in turn, starting from the empty table. */
  function ColorsAfter(strs: seq<string>): map<string, string> {
    if strs == [] then map[] else Remember(ColorsAfter(strs[..|strs| - 1]), strs[|strs| - 1]).1
  }

  /** The distinct strings of `strs`, in the order they first appear. */
  function Distinct(strs: seq<string>): seq<string> {
    if strs == [] then []
    else
      var d := Distinct(strs[..|strs| - 1]);
      if strs[|strs| - 1] in d then d else d + [strs[|strs| - 1]]
  }

  predicate NoDuplicates(d: seq<string>) {
    forall i, j :: 0 <= i < j < |d| ==> d[i] != d[j]
  }

  /** The table gives the k-th distinct string the colour `color(k)`, and
      holds nothing else. */
  ghost predicate Assigned(colors: map<string, string>, d: seq<string>, color: nat -> string) {
    && NoDuplicates(d)
    && |colors| == |d|
    && (forall k :: k in colors <==> k in d)
    && (forall i :: 0 <= i < |d| ==> d[i] in colors && colors[d[i]] == color(i))
  }

  /** Calling `stringToColor` on a string once or twice in a row returns
      the same colour and leaves the same table. */
  lemma RememberIdempotent(colors: map<string, string>, str: string)
    ensures var (c, m) := Remember(colors, str); Remember(m, str) == (c, m)
  {
  }

  /** A new string takes the next palette colour and the next place. */
  lemma AssignedAppend(m: map<string, string>, d: seq<string>, x: string, color: nat -> string)
    requires Assigned(m, d, color) && x !in m
    ensures Assigned(m[x := color(|m|)], d + [x], color)
  {
    var d' := d + [x];
    var m' := m[x := color(|m|)];
    assert forall k :: k in d' <==> k in d || k == x;
    forall i | 0 <= i < |d'| ensures d'[i] in m' && m'[d'[i]] == color(i) {
      if i < |d| {
        assert d'[i] == d[i];
      }
    }
  }

  lemma {:induction false} ColorsAfterAssigned(strs: seq<string>)
    ensures Assigned(ColorsAfter(strs), Distinct(strs), ColorFor)
  {
    if strs != [] {
      var init, last := strs[..|strs| - 1], strs[|strs| - 1];
      ColorsAfterAssigned(init);
      var m, d := ColorsAfter(init), Distinct(init);
      if last !in d {
        assert last !in m;
        AssignedAppend(m, d, last, ColorFor);
      }
    }
  }

  /** After any sequence of calls, the string that was the k-th distinct one
      to be seen has the colour of palette entry k mod 24, and the table
      holds exactly the strings seen. */
  lemma ColorOfKthDistinct(strs: seq<string>, k: nat)
    requires k < |Distinct(strs)|
    ensures Distinct(strs)[k] in ColorsAfter(strs)
    ensures ColorsAfter(strs)[Distinct(strs)[k]] == ColorFor(k)
    ensures |ColorsAfter(strs)| == |Distinct(strs)|
  {
    ColorsAfterAssigned(strs);
  }

  /** For each multiple of 15 degrees, its position in the palette. */
  const PalettePosition: seq<nat> := [0, 12, 6, 13, 3, 14, 7, 15, 1, 16, 8, 17, 4, 18, 9, 19, 2, 20, 10, 21, 5, 22, 11, 23]

  lemma PositionOfHue(k: nat)
    requires k < 24
    ensures Hues[k] < 360 && Hues[k] % 15 == 0 && PalettePosition[Hues[k] / 15] == k
  {
    if k == 0 {}
    else if k == 1 {}
    else if k == 2 {}
    else if k == 3 {}
    else if k == 4 {}
    else if k == 5 {}
    else if k == 6 {}
    else if k == 7 {}
    else if k == 8 {}
    else if k == 9 {}
    else if k == 10 {}
    else if k == 11 {}
    else if k == 12 {}
    else if k == 13 {}
    else if k == 14 {}
    else if k == 15 {}
    else if k == 16 {}
    else if k == 17 {}
    else if k == 18 {}
    else if k == 19 {}
    else if k == 20 {}
    else if k == 21 {}
    else if k == 22 {}
    else {}
  }

  /** The 24 palette hues stay distinct after the offset. */
  lemma HuesDistinct(i: nat, j: nat)
    requires i < j < 24
    ensures Hue(i) != Hue(j)
  {
    PositionOfHue(i);
    PositionOfHue(j);
    assert Hues[i] != Hues[j];
    assert i % 24 == i && j % 24 == j;
    RotationInjective(Hues[i], Hues[j]);
  }

  lemma RotationInjective(a: nat, b: nat)
    requires a < 360 && b < 360 && a != b
    ensures (a + Offset) % 360 != (b + Offset) % 360
  {
    var x := if a < 300 then a + 60 else a - 300;
    var y := if b < 300 then b + 60 else b - 300;
    assert (a + Offset) % 360 == x && (b + Offset) % 360 == y;
  }

  lemma {:induction false} AffixInjective(a: string, x: string, y: string, b: string)
    requires a + x + b == a + y + b
    ensures x == y
  {
    var s := a + x + b;
    assert |x| == |y|;
    assert x == s[|a|..|a| + |x|];
    assert y == (a + y + b)[|a|..|a| + |y|];
  }

  /** The first 24 distinct strings all get different colours; the 25th
      gets the first colour again. */
  lemma ColorsDistinct(i: nat, j: nat)
    requires i < j < 24
    ensures ColorFor(i) != ColorFor(j)
    ensures ColorFor(i + 24) == ColorFor(i)
  {
    HuesDistinct(i, j);
    if ColorFor(i) == ColorFor(j) {
      AffixInjective("hsl(", NatToString(Hue(i)), NatToString(Hue(j)), ", 100%, 30%)");
      NatToStringInjective(Hue(i), Hue(j));
    }
  }

  /** The first colour handed out. */
  lemma FirstColor()
    ensures ColorFor(0) == "hsl(60, 100%, 30%)"
  {
    assert Hue(0) == 60;
    assert NatToString(60) == "60" by {
      assert NatToString(6) == "6";
      assert 60 / 10 == 6 && 60 % 10 == 0;
    }
  }

  /** The colour table `stringToColor` keeps between calls. */
  class ColorCache {
    var colors: map<string, string>

    constructor ()
      ensures colors == map[]
    {
      colors := map[];
    }

    /** `stringToColor(str)` with the membership test on the table's own
        keys. */
    method StringToColor(str: string) returns (color: string)
      modifies this
      ensures (color, colors) == Remember(old(colors), str)
    {
      if str !in colors {
        colors := colors[str := ColorFor(|colors|)];
      }
      color := colors[str];
    }
  }

  /** The call as the code writes it: `str in stringColorMap` and
      `stringColorMap[str]` also see the names the object literal inherits,
      so such a string gets the inherited member back instead of a colour. */
  function RememberAsWritten(colors: map<string, string>, str: string): (r: (Property<string>, map<string, string>))
    ensures HasProperty(colors, str) ==> r.0 == GetProperty(colors, str) && r.1 == colors
    ensures !HasProperty(colors, str) ==> r.0 == Own(ColorFor(|colors|)) && r.1 == colors[str := ColorFor(|colors|)]
    ensures str !in ObjectPrototypeNames ==> r.0 == Own(Remember(colors, str).0) && r.1 == Remember(colors, str).1
  {
    if HasProperty(colors, str) then (GetProperty(colors, str), colors)
    else
      var color := ColorFor(|colors|);
      (Own(color), colors[str := color])
  }

  /** `stringToColor('toString')` on a fresh table returns Object's
      `toString` function, not a colour, and records nothing; the own-key
      version returns the first colour. */
  lemma ToStringHasNoColor()
    ensures RememberAsWritten(map[], "toString") == (Inherited("toString"), map[])
    ensures Remember(map[], "toString") == ("hsl(60, 100%, 30%)", map["toString" := "hsl(60, 100%, 30%)"])
  {
    FirstColor();
  }
}
