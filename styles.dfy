/** The line-style cyclers: each variant of a line plot receives a colour, a marker and the
    marker settings that go with them (`variant_color_cycler`, `color_shape_cycler`). */
module Styles {
  import opened Outcomes
  import opened Arithmetic
  import Tables

  const DefaultMarkers: seq<string> := ["o", "D", "p", "^", "s"]
  const DefaultColors: seq<string> := ["firebrick", "#1E399A", "purple", "#ABC44C", "chocolate",
    "lightcoral", "gold", "darkcyan", "black", "#AAAAFF", "#111111", "#2B8A0A"]

  /** The keyword arguments of one line: `mfc` is only set for the near-black colour. */
  datatype Style = Style(marker: string, color: string, mfc: Option<string>, mec: string, ms: int, mew: int)

  /** The settings for a colour and marker: the near-black line gets a grey face and a matching
      edge, every other line a translucent black edge; pentagons and triangles are drawn larger. */
  function StyleFor(color: string, marker: string): (s: Style)
    ensures s.color == color && s.marker == marker && s.mew == 1
    ensures color == "#111111" ==> s.mfc == Some("#888888") && s.mec == "#111111"
    ensures color != "#111111" ==> s.mfc.None? && s.mec == "#00000088"
    ensures marker == "p" || marker == "^" ==> s.ms == 10
    ensures marker != "p" && marker != "^" ==> s.ms == 8
  {
    var mfc := if color == "#111111" then Some("#888888") else None;
    var mec := if color == "#111111" then "#111111" else "#00000088";
    var ms := if marker == "p" || marker == "^" then 10 else 8;
    Style(marker, color, mfc, mec, ms, 1)
  }

  /** How the marker of variant `i` is chosen, with `c` colours and `m` markers:
      `Blocks` uses one marker per full pass through the colours (`variant_color_cycler`),
      `Shifted` is the index `color_shape_cycler` computes, `(i + i // c) % m`, and
      `ShiftedPerPass` is `(i % c + i // c) % m`, which shifts the marker cycle by one per pass. */
  datatype Scheme = Blocks | Shifted | ShiftedPerPass

  function MarkerIndex(scheme: Scheme, i: nat, c: nat, m: nat): (k: nat)
    requires c > 0 && m > 0
    ensures !scheme.Blocks? ==> k < m
  {
    match scheme
    case Blocks => i / c
    case Shifted => (i + i / c) % m
    case ShiftedPerPass => (i % c + i / c) % m
  }

  /** Every one of the first `n` positions has a marker. */
  predicate Fits(scheme: Scheme, n: nat, c: nat, m: nat)
    requires c > 0 && m > 0
  {
    forall i :: 0 <= i < n ==> MarkerIndex(scheme, i, c, m) < m
  }

  lemma FitsExtend(scheme: Scheme, n: nat, c: nat, m: nat)
    requires c > 0 && m > 0 && Fits(scheme, n, c, m) && MarkerIndex(scheme, n, c, m) < m
    ensures Fits(scheme, n + 1, c, m)
  {
  }

  /** All positions up to the capacity `c * m` have a marker, whatever the scheme. */
  lemma FitsCapacity(scheme: Scheme, n: nat, c: nat, m: nat)
    requires c > 0 && m > 0 && n <= c * m
    ensures Fits(scheme, n, c, m)
  {
    forall i | 0 <= i < n ensures MarkerIndex(scheme, i, c, m) < m {
      DivBelow(i, c, m);
    }
  }

  /** The style of the variant at position `i` of the list. */
  function StyleAt(scheme: Scheme, i: nat, colors: seq<string>, markers: seq<string>): Style
    requires |colors| > 0 && |markers| > 0 && MarkerIndex(scheme, i, |colors|, |markers|) < |markers|
  {
    StyleFor(colors[i % |colors|], markers[MarkerIndex(scheme, i, |colors|, |markers|)])
  }

  /** The name of position `i` occurs nowhere after it. */
  predicate LastOccurrence<K(==)>(variants: seq<K>, i: nat)
    requires i < |variants|
  {
    forall j :: i < j < |variants| ==> variants[j] != variants[i]
  }

  /** The style dictionary the cyclers build: one entry per distinct name, and since a later
      occurrence of a name overwrites an earlier one, each name has the style of its last position. */
  function StyleMap<K(==)>(scheme: Scheme, variants: seq<K>, colors: seq<string>, markers: seq<string>): (styles: map<K, Style>)
    requires |colors| > 0 && |markers| > 0 && Fits(scheme, |variants|, |colors|, |markers|)
    ensures styles.Keys == set v | v in variants
    decreases |variants|
  {
    if variants == [] then map[]
    else
      var n := |variants| - 1;
      var init := variants[..n];
      var before := StyleMap(scheme, init, colors, markers);
      assert variants == init + [variants[n]];
      before[variants[n] := StyleAt(scheme, n, colors, markers)]
  }

  /** The last position's style is added over the dictionary of the positions before it. */
  lemma StyleMapStep<K>(scheme: Scheme, variants: seq<K>, colors: seq<string>, markers: seq<string>, i: nat)
    requires |colors| > 0 && |markers| > 0 && Fits(scheme, |variants|, |colors|, |markers|)
    requires i < |variants| - 1 && variants[i] != variants[|variants| - 1]
    ensures Fits(scheme, |variants| - 1, |colors|, |markers|)
    ensures StyleMap(scheme, variants, colors, markers)[variants[i]]
        == StyleMap(scheme, variants[..|variants| - 1], colors, markers)[variants[i]]
  {
    assert variants[..|variants| - 1][i] == variants[i];
  }

  /** Each name has the style of its last position in the list. */
  lemma {:induction false} StyleMapLast<K>(scheme: Scheme, variants: seq<K>, colors: seq<string>, markers: seq<string>, i: nat)
    requires |colors| > 0 && |markers| > 0 && Fits(scheme, |variants|, |colors|, |markers|)
    requires i < |variants| && LastOccurrence(variants, i)
    ensures StyleMap(scheme, variants, colors, markers)[variants[i]] == StyleAt(scheme, i, colors, markers)
    decreases |variants|
  {
    var n := |variants| - 1;
    if i < n {
      var init := variants[..n];
      StyleMapStep(scheme, variants, colors, markers, i);
      assert init[i] == variants[i];
      assert LastOccurrence(init, i) by {
        forall j | i < j < |init| ensures init[j] != init[i] {
          assert init[j] == variants[j];
        }
      }
      StyleMapLast(scheme, init, colors, markers, i);
    } else {
      StyleMapLastPosition(scheme, variants, colors, markers);
    }
  }

  /** The last position's style is the one its name ends up with. */
  lemma StyleMapLastPosition<K>(scheme: Scheme, variants: seq<K>, colors: seq<string>, markers: seq<string>)
    requires |colors| > 0 && |markers| > 0 && Fits(scheme, |variants|, |colors|, |markers|) && variants != []
    ensures StyleMap(scheme, variants, colors, markers)[variants[|variants| - 1]]
      == StyleAt(scheme, |variants| - 1, colors, markers)
  {
  }

  /** Styling one more position updates the dictionary of the positions before it. */
  lemma StyleMapAppend<K>(scheme: Scheme, variants: seq<K>, colors: seq<string>, markers: seq<string>, i: nat)
    requires |colors| > 0 && |markers| > 0 && i < |variants| && Fits(scheme, i + 1, |colors|, |markers|)
    ensures Fits(scheme, i, |colors|, |markers|)
    ensures StyleMap(scheme, variants[..i + 1], colors, markers)
      == StyleMap(scheme, variants[..i], colors, markers)[variants[i] := StyleAt(scheme, i, colors, markers)]
  {
    assert variants[..i + 1][..i] == variants[..i];
  }

  /** The loop shared by the cyclers: assign each variant in turn its style. */
  method AssignStyles<K(==)>(scheme: Scheme, variants: seq<K>, colors: seq<string>, markers: seq<string>)
    returns (styles: map<K, Style>)
    requires |colors| > 0 && |markers| > 0 && Fits(scheme, |variants|, |colors|, |markers|)
    ensures styles == StyleMap(scheme, variants, colors, markers)
  {
    styles := map[];
    for i := 0 to |variants|
      invariant styles == StyleMap(scheme, variants[..i], colors, markers)
    {
      var color := colors[i % |colors|];
      var marker := markers[MarkerIndex(scheme, i, |colors|, |markers|)];
      StyleMapAppend(scheme, variants, colors, markers, i);
      styles := styles[variants[i] := StyleFor(color, marker)];
    }
    assert variants[..|variants|] == variants;
  }

  /** Why a cycler cannot style the list. */
  datatype CyclerError =
    | MarkerIndexOutOfRange(index: nat)             // the IndexError of the fixed-size cycler
    | TooManyVariants(count: nat, capacity: nat)    // the ValueError of the colour-shape cycler

  /** With twelve colours, position `i` is in one of the first five passes exactly when it is
      below sixty. */
  lemma DefaultPass(i: nat)
    ensures i / 12 < 5 <==> i < 60
  {
    if i < 60 {
      DivBelow(i, 12, 5);
    }
  }

  /** `variant_color_cycler`: the twelve default colours in turn, one default marker per pass.
      The sixty-first variant asks for a sixth marker, which does not exist. */
  method VariantColorCycler(variants: seq<string>) returns (r: Result<map<string, Style>, CyclerError>)
    ensures r.Failure? <==> |variants| > |DefaultColors| * |DefaultMarkers|
    ensures r.Failure? ==> r.error == MarkerIndexOutOfRange(|DefaultMarkers|)
    ensures r.Success? ==>
      (Fits(Blocks, |variants|, |DefaultColors|, |DefaultMarkers|)
       && r.value == StyleMap(Blocks, variants, DefaultColors, DefaultMarkers))
  {
    assert |DefaultColors| == 12 && |DefaultMarkers| == 5;
    var styles := map[];
    for i := 0 to |variants|
      invariant i <= 60
      invariant Fits(Blocks, i, |DefaultColors|, |DefaultMarkers|)
      invariant styles == StyleMap(Blocks, variants[..i], DefaultColors, DefaultMarkers)
    {
      var color := DefaultColors[i % |DefaultColors|];
      var k := i / |DefaultColors|;
      DefaultPass(i);
      if k >= |DefaultMarkers| {
        return Failure(MarkerIndexOutOfRange(k));
      }
      FitsExtend(Blocks, i, |DefaultColors|, |DefaultMarkers|);
      StyleMapAppend(Blocks, variants, DefaultColors, DefaultMarkers, i);
      styles := styles[variants[i] := StyleFor(color, DefaultMarkers[k])];
    }
    assert variants[..|variants|] == variants;
    return Success(styles);
  }

  /** The marker list `color_shape_cycler` uses: the defaults only when none is given (an empty
      list is kept, and then no variant fits). */
  function MarkersOf(markerList: Option<seq<string>>): (markers: seq<string>)
    ensures markers == [] <==> markerList == Some([])
  {
    if markerList.None? then DefaultMarkers else markerList.value
  }

  /** The colour list: the defaults when none or an empty one is given. */
  function ColorsOf(colorList: Option<seq<string>>): (colors: seq<string>)
    ensures |colors| > 0
  {
    if colorList.None? || colorList.value == [] then DefaultColors else colorList.value
  }

  method ShapeCycler(scheme: Scheme, variants: seq<string>, colorList: Option<seq<string>>, markerList: Option<seq<string>>)
    returns (r: Result<map<string, Style>, CyclerError>)
    ensures var colors, markers := ColorsOf(colorList), MarkersOf(markerList);
      && (r.Failure? <==> |variants| > |colors| * |markers|)
      && (r.Failure? ==> r.error == TooManyVariants(|variants|, |colors| * |markers|))
      && (r.Success? ==> |markers| > 0 || variants == [])
      && (r.Success? && variants != [] ==>
            |markers| > 0 && Fits(scheme, |variants|, |colors|, |markers|)
            && r.value == StyleMap(scheme, variants, colors, markers))
      && (r.Success? && variants == [] ==> r.value == map[])
  {
    var markers := MarkersOf(markerList);
    var colors := ColorsOf(colorList);
    if |variants| > |markers| * |colors| {
      return Failure(TooManyVariants(|variants|, |colors| * |markers|));
    }
    if variants == [] {
      return Success(map[]);
    }
    FitsCapacity(scheme, |variants|, |colors|, |markers|);
    var styles := AssignStyles(scheme, variants, colors, markers);
    return Success(styles);
  }

  /** `color_shape_cycler` as written: the marker index is `(i + i // c) % m`. */
  method ColorShapeCycler(variants: seq<string>, colorList: Option<seq<string>>, markerList: Option<seq<string>>)
    returns (r: Result<map<string, Style>, CyclerError>)
    ensures var colors, markers := ColorsOf(colorList), MarkersOf(markerList);
      && (r.Failure? <==> |variants| > |colors| * |markers|)
      && (r.Failure? ==> r.error == TooManyVariants(|variants|, |colors| * |markers|))
      && (r.Success? && variants != [] ==>
            |markers| > 0 && Fits(Shifted, |variants|, |colors|, |markers|)
            && r.value == StyleMap(Shifted, variants, colors, markers))
      && (r.Success? && variants == [] ==> r.value == map[])
  {
    r := ShapeCycler(Shifted, variants, colorList, markerList);
  }

  /** `color_shape_cycler` with the marker index `(i % c + i // c) % m`, which gives every variant
      within the capacity its own colour-marker pair for any list lengths. */
  method ColorShapeCyclerCorrected(variants: seq<string>, colorList: Option<seq<string>>, markerList: Option<seq<string>>)
    returns (r: Result<map<string, Style>, CyclerError>)
    ensures var colors, markers := ColorsOf(colorList), MarkersOf(markerList);
      && (r.Failure? <==> |variants| > |colors| * |markers|)
      && (r.Failure? ==> r.error == TooManyVariants(|variants|, |colors| * |markers|))
      && (r.Success? && variants != [] ==>
            |markers| > 0 && Fits(ShiftedPerPass, |variants|, |colors|, |markers|)
            && r.value == StyleMap(ShiftedPerPass, variants, colors, markers))
      && (r.Success? && variants == [] ==> r.value == map[])
  {
    r := ShapeCycler(ShiftedPerPass, variants, colorList, markerList);
  }

  // ---------------------------------------------------------------- distinct styles

  /** The first `n` positions receive pairwise different (colour, marker) index pairs. */
  predicate DistinctPairs(scheme: Scheme, n: nat, c: nat, m: nat)
    requires c > 0 && m > 0
  {
    forall i, j :: 0 <= i < j < n ==>
      i % c != j % c || MarkerIndex(scheme, i, c, m) != MarkerIndex(scheme, j, c, m)
  }

  /** One marker per pass: the quotient and remainder determine the position. */
  lemma BlocksDistinct(c: nat, m: nat, n: nat)
    requires c > 0 && m > 0
    ensures DistinctPairs(Blocks, n, c, m)
  {
    forall i, j | 0 <= i < j < n
      ensures i % c != j % c || MarkerIndex(Blocks, i, c, m) != MarkerIndex(Blocks, j, c, m)
    {
      if i % c == j % c {
        SameRemainder(i, j, c);
      }
    }
  }

  /** With the corrected index, any colour and marker counts give every position within the
      capacity its own pair. */
  lemma ShiftedPerPassDistinct(c: nat, m: nat, n: nat)
    requires c > 0 && m > 0 && n <= c * m
    ensures DistinctPairs(ShiftedPerPass, n, c, m)
  {
    forall i, j | 0 <= i < j < n
      ensures i % c != j % c || MarkerIndex(ShiftedPerPass, i, c, m) != MarkerIndex(ShiftedPerPass, j, c, m)
    {
      if i % c == j % c {
        DivBelow(j, c, m);
        SameRemainder(i, j, c);
        ModApart(i % c + i / c, j % c + j / c, m);
      }
    }
  }

  /** With the default twelve colours and five markers, the index as written does give the sixty
      positions distinct pairs, because 13 and 5 have no common factor. */
  lemma ShiftedDefaultsDistinct()
    ensures DistinctPairs(Shifted, 60, |DefaultColors|, |DefaultMarkers|)
  {
    forall i, j | 0 <= i < j < 60
      ensures i % 12 != j % 12 || MarkerIndex(Shifted, i, 12, 5) != MarkerIndex(Shifted, j, 12, 5)
    {
      var qi, qj := i / 12, j / 12;
      if i % 12 == j % 12 {
        SameRemainder(i, j, 12);
        var d := qj - qi;
        assert (j + qj) - (i + qi) == 13 * d;
        assert 1 <= d <= 4;
        assert (13 * d) % 5 != 0;
        if (i + qi) % 5 == (j + qj) % 5 {
          ModEqualDifference(i + qi, j + qj, 5);
        }
      }
    }
  }

  /** With two colours and three markers, the index as written gives positions 0 and 2 the same
      colour and marker, so the first and third of three distinct variants are drawn identically. */
  lemma ShiftedCollision()
    ensures !DistinctPairs(Shifted, 3, 2, 3)
    ensures var styles := StyleMap(Shifted, ["a", "b", "c"], ["red", "blue"], ["o", "D", "p"]);
      styles["a"] == styles["c"]
  {
    assert MarkerIndex(Shifted, 0, 2, 3) == 0 && MarkerIndex(Shifted, 2, 2, 3) == 0;
    var variants := ["a", "b", "c"];
    StyleMapLast(Shifted, variants, ["red", "blue"], ["o", "D", "p"], 0);
    StyleMapLast(Shifted, variants, ["red", "blue"], ["o", "D", "p"], 2);
  }

  /** With distinct names, distinct colours, distinct markers and distinct index pairs, no two
      variants share a style. */
  lemma StylesDistinct<K>(scheme: Scheme, variants: seq<K>, colors: seq<string>, markers: seq<string>)
    requires |colors| > 0 && |markers| > 0 && Fits(scheme, |variants|, |colors|, |markers|)
    requires Tables.Distinct(variants) && Tables.Distinct(colors) && Tables.Distinct(markers)
    requires DistinctPairs(scheme, |variants|, |colors|, |markers|)
    ensures var styles := StyleMap(scheme, variants, colors, markers);
      forall i, j :: 0 <= i < j < |variants| ==> styles[variants[i]] != styles[variants[j]]
  {
    var styles := StyleMap(scheme, variants, colors, markers);
    forall i, j | 0 <= i < j < |variants| ensures styles[variants[i]] != styles[variants[j]] {
      StyleMapLast(scheme, variants, colors, markers, i);
      StyleMapLast(scheme, variants, colors, markers, j);
      var c, m := |colors|, |markers|;
      if i % c != j % c {
        assert colors[i % c] != colors[j % c];
      } else {
        assert markers[MarkerIndex(scheme, i, c, m)] != markers[MarkerIndex(scheme, j, c, m)];
      }
    }
  }

  /** The corrected cycler never draws two distinct variants alike, for any lists without
      repeats within the capacity; neither does the fixed-size cycler, nor the as-written
      cycler with twelve colours and five markers. */
  lemma DistinctStylesGuaranteed(variants: seq<string>, colors: seq<string>, markers: seq<string>)
    requires |colors| > 0 && |markers| > 0 && |variants| <= |colors| * |markers|
    requires Tables.Distinct(variants) && Tables.Distinct(colors) && Tables.Distinct(markers)
    ensures Fits(ShiftedPerPass, |variants|, |colors|, |markers|) &&
      var styles := StyleMap(ShiftedPerPass, variants, colors, markers);
      forall i, j :: 0 <= i < j < |variants| ==> styles[variants[i]] != styles[variants[j]]
    ensures Fits(Blocks, |variants|, |colors|, |markers|) &&
      var styles := StyleMap(Blocks, variants, colors, markers);
      forall i, j :: 0 <= i < j < |variants| ==> styles[variants[i]] != styles[variants[j]]
    ensures |colors| == 12 && |markers| == 5 ==>
      Fits(Shifted, |variants|, |colors|, |markers|) &&
      var styles := StyleMap(Shifted, variants, colors, markers);
      forall i, j :: 0 <= i < j < |variants| ==> styles[variants[i]] != styles[variants[j]]
  {
    FitsCapacity(ShiftedPerPass, |variants|, |colors|, |markers|);
    ShiftedPerPassDistinct(|colors|, |markers|, |variants|);
    StylesDistinct(ShiftedPerPass, variants, colors, markers);
    FitsCapacity(Blocks, |variants|, |colors|, |markers|);
    BlocksDistinct(|colors|, |markers|, |variants|);
    StylesDistinct(Blocks, variants, colors, markers);
    if |colors| == 12 && |markers| == 5 {
      FitsCapacity(Shifted, |variants|, |colors|, |markers|);
      ShiftedDefaultsDistinct();
      assert DistinctPairs(Shifted, |variants|, 12, 5);
      StylesDistinct(Shifted, variants, colors, markers);
    }
  }
}
