/** Display labels for variants (`display_region`, `display_protein`,
    `display_region_and_protein`), the choice between them that builds a table's index
    (`code_region_index`), and the long names of the mutation kinds (`long_types`). */
module Labels {
  import opened Outcomes
  import opened Text
  import Regions

  /** The code the zero-mutations row of a protein's tables carries, compared case-insensitively:
      `zero_mutations_in_<protein>` once both sides are lowered. */
  predicate IsZeroMutationsCode(code: string, protein: string) {
    Lower(code) == "zero_mutations_in_" + Lower(protein)
  }

  /** `display_region`: `<code> (<region>)`, or the bare code when the region is the dash sentinel. */
  function DisplayRegion(code: string, region: string): (shown: string)
    ensures shown == code <==> region == "-"
    ensures region != "-" ==> shown == code + " (" + region + ")"
  {
    if region == "-" then code else code + " (" + region + ")"
  }

  /** `display_protein`: `<protein>: <code>`, or the bare code for the zero-mutations row. */
  function DisplayProtein(code: string, protein: string): (shown: string)
    ensures shown == code <==> IsZeroMutationsCode(code, protein)
    ensures !IsZeroMutationsCode(code, protein) ==> shown == protein + ": " + code
  {
    if IsZeroMutationsCode(code, protein) then code else protein + ": " + code
  }

  /** `display_region_and_protein`: `<protein>: <code> (<region>)`, or the bare code when the
      region is the dash sentinel. */
  function DisplayRegionAndProtein(code: string, region: string, protein: string): (shown: string)
    ensures shown == code <==> region == "-"
    ensures region != "-" ==> shown == protein + ": " + code + " (" + region + ")"
  {
    if region == "-" then code else protein + ": " + code + " (" + region + ")"
  }

  /** The sentinel is recognised whatever the letter case of its literal part (`prefix`, such as
      `Zero_Mutations_in_`), of the protein name and of the code. */
  lemma ZeroMutationsAnyCase(code: string, prefix: string, protein: string)
    requires Lower(prefix) == "zero_mutations_in_"
    requires Lower(code) == Lower(prefix + protein)
    ensures DisplayProtein(code, protein) == code
  {
    LowerConcat(prefix, protein);
  }

  /** Distinct codes of one protein keep distinct labels (the index stays unique). */
  lemma {:induction false} DisplayProteinInjective(c1: string, c2: string, protein: string)
    requires c1 != c2
    requires !IsZeroMutationsCode(c1, protein) && !IsZeroMutationsCode(c2, protein)
    ensures DisplayProtein(c1, protein) != DisplayProtein(c2, protein)
  {
    var p := protein + ": ";
    assert DisplayProtein(c1, protein)[|p|..] == c1;
    assert DisplayProtein(c2, protein)[|p|..] == c2;
  }

  /** Distinct codes in one region of one protein keep distinct labels. */
  lemma {:induction false} DisplayRegionAndProteinInjective(c1: string, c2: string, region: string, protein: string)
    requires c1 != c2 && region != "-"
    ensures DisplayRegionAndProtein(c1, region, protein) != DisplayRegionAndProtein(c2, region, protein)
  {
    var p := protein + ": ";
    var q := " (" + region + ")";
    var s1 := DisplayRegionAndProtein(c1, region, protein);
    var s2 := DisplayRegionAndProtein(c2, region, protein);
    assert s1 == p + c1 + q && s2 == p + c2 + q;
    assert s1[|p|..|s1| - |q|] == c1;
    assert s2[|p|..|s2| - |q|] == c2;
  }

  // ---------------------------------------------------------------- the index of a table

  /** Python truthiness of an optional string argument: `None` and `""` are both false. */
  predicate Given(arg: Option<string>) {
    arg.Some? && arg.value != ""
  }

  /** The four index layouts `code_region_index` chooses between. */
  datatype IndexMode = RegionAndProtein | ProteinOnly | RegionOnly | CodeOnly

  /** The layout chosen from which of the region column name and the protein name are given. */
  function ChooseMode(regionColname: Option<string>, protein: Option<string>): (mode: IndexMode)
    ensures mode.RegionAndProtein? <==> Given(regionColname) && Given(protein)
    ensures mode.ProteinOnly? <==> !Given(regionColname) && Given(protein)
    ensures mode.RegionOnly? <==> Given(regionColname) && !Given(protein)
    ensures mode.CodeOnly? <==> !Given(regionColname) && !Given(protein)
  {
    if Given(protein) && Given(regionColname) then RegionAndProtein
    else if Given(protein) then ProteinOnly
    else if Given(regionColname) then RegionOnly
    else CodeOnly
  }

  /** The code and region cells of one row. */
  datatype CodeRow = CodeRow(code: string, region: string)

  /** The new index of a table, the columns dropped from it, and whether the degraded
      code-only layout raised its warning. */
  datatype Indexed = Indexed(index: seq<string>, dropped: seq<string>, warned: bool)

  /** The label of one row in the chosen layout. */
  function RowLabel(mode: IndexMode, row: CodeRow, protein: string): string {
    match mode
    case RegionAndProtein => DisplayRegionAndProtein(row.code, row.region, protein)
    case ProteinOnly => DisplayProtein(row.code, protein)
    case RegionOnly => DisplayRegion(row.code, row.region)
    case CodeOnly => row.code
  }

  /** `code_region_index`: one label per row, in row order; the code column (and the region
      column when it was used) is dropped; only the code-only layout warns, and it still succeeds. */
  function CodeRegionIndex(rows: seq<CodeRow>, codeColname: string, regionColname: Option<string>,
                           protein: Option<string>): (r: Indexed)
    ensures |r.index| == |rows|
    ensures r.warned <==> !Given(regionColname) && !Given(protein)
    ensures r.warned ==> forall i :: 0 <= i < |rows| ==> r.index[i] == rows[i].code
    ensures r.dropped == if Given(regionColname) then [codeColname, regionColname.value] else [codeColname]
    ensures forall i :: 0 <= i < |rows| ==>
      r.index[i] == RowLabel(ChooseMode(regionColname, protein), rows[i], if Given(protein) then protein.value else "")
  {
    var mode := ChooseMode(regionColname, protein);
    var p := if Given(protein) then protein.value else "";
    var labels := seq(|rows|, i requires 0 <= i < |rows| => RowLabel(mode, rows[i], p));
    var dropped := if mode.RegionAndProtein? || mode.RegionOnly? then [codeColname, regionColname.value] else [codeColname];
    Indexed(labels, dropped, mode.CodeOnly?)
  }

  /** The zero-mutations row has no position, so the region lookup gives it the dash; it is then
      shown as its bare code in every layout. */
  lemma ZeroMutationsRowBare(code: string, protein: string, regions: seq<Regions.Region>, mode: IndexMode)
    requires IsZeroMutationsCode(code, protein)
    ensures var row := CodeRow(code, Regions.RegionChecker(Regions.Dash, regions));
      RowLabel(mode, row, protein) == code
  {
  }

  // ---------------------------------------------------------------- mutation kinds

  /** The five kinds of mutation the variant catalogues record. */
  datatype MutationType = Substitution | Insertion | Deletion | Extension | InsertionDeletion

  /** The short code a catalogue's `Type` column holds. */
  function ShortCode(t: MutationType): string {
    match t
    case Substitution => "sub"
    case Insertion => "ins"
    case Deletion => "del"
    case Extension => "ext"
    case InsertionDeletion => "delins"
  }

  /** The long name shown in tables. */
  function LongName(t: MutationType): string {
    match t
    case Substitution => "Substitution"
    case Insertion => "Insertion"
    case Deletion => "Deletion"
    case Extension => "Extension"
    case InsertionDeletion => "Insertion-Deletion"
  }

  /** The error `long_types` raises for a code outside the five. */
  datatype UnknownMutationType = UnknownMutationType(code: string)

  /** `long_types`: the long name of a short code; any other input is an error. */
  function LongTypes(x: string): (r: Result<string, UnknownMutationType>)
    ensures r.Failure? ==> r.error == UnknownMutationType(x)
  {
    if x == "sub" then Success("Substitution")
    else if x == "ins" then Success("Insertion")
    else if x == "del" then Success("Deletion")
    else if x == "ext" then Success("Extension")
    else if x == "delins" then Success("Insertion-Deletion")
    else Failure(UnknownMutationType(x))
  }

  /** Exactly the five short codes convert, each to the long name of its kind. */
  lemma LongTypesKinds(x: string)
    ensures LongTypes(x).Success? <==> exists t :: ShortCode(t) == x
    ensures forall t :: ShortCode(t) == x ==> LongTypes(x) == Success(LongName(t))
  {
    if x == "sub" {
      assert ShortCode(Substitution) == x;
    } else if x == "ins" {
      assert ShortCode(Insertion) == x;
    } else if x == "del" {
      assert ShortCode(Deletion) == x;
    } else if x == "ext" {
      assert ShortCode(Extension) == x;
    } else if x == "delins" {
      assert ShortCode(InsertionDeletion) == x;
    }
  }

  /** The five kinds have five distinct short codes and five distinct long names. */
  lemma MutationNamesDistinct(t1: MutationType, t2: MutationType)
    requires t1 != t2
    ensures ShortCode(t1) != ShortCode(t2) && LongName(t1) != LongName(t2)
  {
  }

  /** The conversion of a whole `Type` column: every code converted in order, or the error of the
      first unknown one and no partial column. */
  function LongTypeColumn(codes: seq<string>): (r: Result<seq<string>, UnknownMutationType>)
    ensures r.Success? <==> forall i :: 0 <= i < |codes| ==> LongTypes(codes[i]).Success?
    ensures r.Success? ==>
      (|r.value| == |codes| && forall i :: 0 <= i < |codes| ==> r.value[i] == LongTypes(codes[i]).value)
    ensures r.Failure? ==>
      exists i :: 0 <= i < |codes| && LongTypes(codes[i]) == Failure(r.error)
        && forall j :: 0 <= j < i ==> LongTypes(codes[j]).Success?
  {
    if codes == [] then Success([])
    else
      match LongTypes(codes[0])
      case Failure(e) => Failure(e)
      case Success(name) =>
        match LongTypeColumn(codes[1..])
        case Failure(e) =>
          assert forall i :: 1 <= i < |codes| ==> codes[i] == codes[1..][i - 1];
          var i :| 0 <= i < |codes[1..]| && LongTypes(codes[1..][i]) == Failure(e)
            && forall j :: 0 <= j < i ==> LongTypes(codes[1..][j]).Success?;
          assert LongTypes(codes[i + 1]) == Failure(e);
          Failure(e)
        case Success(rest) =>
          assert forall i :: 1 <= i < |codes| ==> codes[i] == codes[1..][i - 1];
          Success([name] + rest)
  }
}
