/**
 * The table-building steps of the scraper, on cell texts already taken
 * out of the page: the row-major fill of the places grid, and the
 * deduplicated, renamed lists of speciality ids and of cities.
 */
module Scraping {
  import opened Common
  import opened Decimal

  // ---------------------------------------------------------------------
  // Places grid
  // ---------------------------------------------------------------------

  /** Why filling the grid stops, and at which cell. */
  datatype PlacesError =
    | NegativeDimensions       // the zero grid cannot be allocated
    | InvalidLiteral(cell: nat) // the cell text is not an integer
    | ZeroDivision(cell: nat)   // the row of a cell is computed with a zero row width
    | RowOutOfRange(cell: nat)  // the cell falls below the last row
    | TooLarge(cell: nat)       // the integer is out of the range of a float64

  /**
   * The smallest magnitude of a Python int that cannot be converted to a
   * float64, 2^1024 - 2^970 (a 54-bit all-ones significand followed by 970
   * zero bits): it lies halfway between the largest finite double and
   * 2^1024, and rounding half to even sends it to infinity.
   */
  const FloatOverflowBound: int := 0xfffffffffffffc00_0000000000000000_0000000000000000_0000000000000000_0000000000000000_0000000000000000_0000000000000000_0000000000000000_0000000000000000_0000000000000000_0000000000000000_0000000000000000_0000000000000000_0000000000000000_0000000000000000_0000000000000000

  /** Storing `v` in the float grid does not raise `OverflowError`. */
  predicate FitsFloat(v: int)
  {
    -FloatOverflowBound < v < FloatOverflowBound
  }

  /** A cell text `int()` accepts and whose value can be stored in the float grid. */
  predicate StorableText(text: string)
  {
    ParseInt(text).Some? && FitsFloat(ParseInt(text).value)
  }

  /**
   * The error cell `i` raises, if any, in Python's evaluation order: the
   * right-hand side `int(...)` first, then the row `i // specLength`, then
   * the row lookup, and last the conversion to float when the value is stored.
   */
  function CellError(cells: seq<string>, i: nat, specLength: nat, citiLength: nat): (e: Option<PlacesError>)
    requires i < |cells|
    ensures ParseInt(cells[i]).None? ==> e == Some(InvalidLiteral(i))
    ensures e.Some? ==> !e.value.NegativeDimensions? && e.value.cell == i
    ensures e.Some? && e.value.TooLarge? ==> ParseInt(cells[i]).Some? && !FitsFloat(ParseInt(cells[i]).value)
  {
    if ParseInt(cells[i]).None? then Some(InvalidLiteral(i))
    else if specLength == 0 then Some(ZeroDivision(i))
    else if i / specLength >= citiLength then Some(RowOutOfRange(i))
    else if !FitsFloat(ParseInt(cells[i]).value) then Some(TooLarge(i))
    else None
  }

  /**
   * Cell `i` is written without error exactly when its text is an integer
   * that fits a float and it lies inside the grid.
   */
  lemma CellErrorNoneIff(cells: seq<string>, i: nat, specLength: nat, citiLength: nat)
    requires i < |cells|
    ensures CellError(cells, i, specLength, citiLength).None?
        <==> StorableText(cells[i]) && specLength > 0 && i < specLength * citiLength
  {
    if specLength > 0 {
      RowOfCellBound(i, specLength, citiLength);
    }
  }

  /** The first error raised by cells `from..`, if any. */
  function FirstFillError(cells: seq<string>, specLength: nat, citiLength: nat, from: nat): (e: Option<PlacesError>)
    requires from <= |cells|
    ensures e.Some? ==> !e.value.NegativeDimensions? && from <= e.value.cell < |cells|
    decreases |cells| - from
  {
    if from == |cells| then None
    else match CellError(cells, from, specLength, citiLength)
      case Some(err) => Some(err)
      case None => FirstFillError(cells, specLength, citiLength, from + 1)
  }

  /**
   * An error from cells `from..` is the error of one of them, and every
   * cell before it is written without error.
   */
  lemma {:induction false} FirstFillErrorIsFirst(cells: seq<string>, specLength: nat, citiLength: nat, from: nat)
    requires from <= |cells|
    ensures var e := FirstFillError(cells, specLength, citiLength, from);
            e.Some? ==>
              && !e.value.NegativeDimensions? && from <= e.value.cell < |cells|
              && CellError(cells, e.value.cell, specLength, citiLength) == e
              && forall j :: from <= j < e.value.cell ==> CellError(cells, j, specLength, citiLength).None?
    decreases |cells| - from
  {
    if from < |cells| && CellError(cells, from, specLength, citiLength).None? {
      FirstFillErrorIsFirst(cells, specLength, citiLength, from + 1);
    }
  }

  /** Cells `from..` raise no error exactly when none of them does on its own. */
  lemma {:induction false} FirstFillErrorNoneIff(cells: seq<string>, specLength: nat, citiLength: nat, from: nat)
    requires from <= |cells|
    ensures FirstFillError(cells, specLength, citiLength, from).None?
        <==> forall i :: from <= i < |cells| ==> CellError(cells, i, specLength, citiLength).None?
    decreases |cells| - from
  {
    if from < |cells| {
      FirstFillErrorNoneIff(cells, specLength, citiLength, from + 1);
    }
  }

  /** The error the whole fill raises, if any. */
  function PlacesOutcome(cells: seq<string>, specLength: int, citiLength: int): (e: Option<PlacesError>)
    ensures e == Some(NegativeDimensions) <==> specLength < 0 || citiLength < 0
  {
    if citiLength < 0 || specLength < 0 then Some(NegativeDimensions)
    else FirstFillError(cells, specLength, citiLength, 0)
  }

  /**
   * Any other error is raised by the first cell that cannot be written:
   * the cell it names fails on its own and all earlier cells succeed.
   */
  lemma PlacesOutcomeIsFirstFailure(cells: seq<string>, specLength: int, citiLength: int)
    ensures var e := PlacesOutcome(cells, specLength, citiLength);
            e.Some? && !e.value.NegativeDimensions? ==>
              && 0 <= specLength && 0 <= citiLength && e.value.cell < |cells|
              && CellError(cells, e.value.cell, specLength, citiLength) == e
              && forall j :: 0 <= j < e.value.cell ==> CellError(cells, j, specLength, citiLength).None?
  {
    if 0 <= specLength && 0 <= citiLength {
      FirstFillErrorIsFirst(cells, specLength, citiLength, 0);
    }
  }

  /** The number a cell text stands for, stored as a float. */
  function CellValue(cell: string): real
  {
    match ParseInt(cell)
    case Some(v) => v as real
    case None => 0.0
  }

  /**
   * The position, in row-major order, of cell (row, col) of a grid
   * `specLength` cells wide: `row` full rows, then `col` more cells.
   */
  function Position(specLength: nat, row: nat, col: nat): nat
  {
    if row == 0 then col else Position(specLength, row - 1, col) + specLength
  }

  lemma {:induction false} PositionIsProduct(specLength: nat, row: nat, col: nat)
    ensures Position(specLength, row, col) == row * specLength + col
  {
    if row > 0 {
      PositionIsProduct(specLength, row - 1, col);
      assert row * specLength == (row - 1) * specLength + specLength;
    }
  }

  /** What grid cell (row, col) holds once the first `filled` texts are written: a value, or the initial zero. */
  function PartialGridValue(cells: seq<string>, filled: nat, specLength: nat, row: nat, col: nat): real
    requires filled <= |cells|
  {
    var k := Position(specLength, row, col);
    if k < filled then CellValue(cells[k]) else 0.0
  }

  /** Writing text `filled` changes only the cell at its position. */
  lemma PartialGridStep(cells: seq<string>, filled: nat, specLength: nat, row: nat, col: nat)
    requires filled < |cells|
    ensures PartialGridValue(cells, filled + 1, specLength, row, col)
         == if Position(specLength, row, col) == filled then CellValue(cells[filled])
            else PartialGridValue(cells, filled, specLength, row, col)
  {
  }

  /** Writing text `i` changes cell (i / specLength, i % specLength) and no other. */
  lemma FillStep(cells: seq<string>, i: nat, specLength: nat, row: nat, col: nat)
    requires i < |cells| && 0 < specLength && row == i / specLength && col == i % specLength
    ensures PartialGridValue(cells, i + 1, specLength, row, col) == CellValue(cells[i])
    ensures forall r: nat, c: nat :: c < specLength && (r != row || c != col) ==>
              PartialGridValue(cells, i + 1, specLength, r, c) == PartialGridValue(cells, i, specLength, r, c)
  {
    RowMajorPosition(i, specLength, row, col);
    PartialGridStep(cells, i, specLength, row, col);
    forall r: nat, c: nat | c < specLength && (r != row || c != col)
      ensures PartialGridValue(cells, i + 1, specLength, r, c) == PartialGridValue(cells, i, specLength, r, c)
    {
      RowMajorPosition(i, specLength, r, c);
      PartialGridStep(cells, i, specLength, r, c);
    }
  }

  /** What grid cell (row, col) holds after a successful fill. */
  function GridValue(cells: seq<string>, specLength: nat, row: nat, col: nat): real
  {
    PartialGridValue(cells, |cells|, specLength, row, col)
  }

  /**
   * After the fill, cell (row, col) holds text `row * specLength + col` when
   * there is one, and the initial zero otherwise.
   */
  lemma GridValueRowMajor(cells: seq<string>, specLength: nat, row: nat, col: nat)
    ensures row * specLength + col < |cells| ==>
              GridValue(cells, specLength, row, col) == CellValue(cells[row * specLength + col])
    ensures row * specLength + col >= |cells| ==> GridValue(cells, specLength, row, col) == 0.0
  {
    PositionIsProduct(specLength, row, col);
  }

  lemma RowOfCellBound(i: nat, specLength: nat, citiLength: nat)
    requires specLength > 0
    ensures i / specLength < citiLength <==> i < specLength * citiLength
  {
    var q, r := i / specLength, i % specLength;
    assert i == q * specLength + r;
    if q < citiLength {
      assert q * specLength <= (citiLength - 1) * specLength;
    } else {
      assert q * specLength >= citiLength * specLength;
    }
  }

  lemma MultipleGap(a: nat, b: nat, width: nat)
    requires a < b && width > 0
    ensures a * width + width <= b * width
    decreases b - a
  {
    if b == a + 1 {
      assert (a + 1) * width == a * width + width;
    } else {
      MultipleGap(a, b - 1, width);
      assert b * width == (b - 1) * width + width;
    }
  }

  /** In a row of `specLength` cells, position `row * specLength + col` is cell (row, col) and no other. */
  lemma RowMajorPosition(i: nat, specLength: nat, row: nat, col: nat)
    requires col < specLength
    ensures Position(specLength, row, col) == i <==> row == i / specLength && col == i % specLength
  {
    var q, r := i / specLength, i % specLength;
    assert q * specLength + r == i;
    PositionIsProduct(specLength, row, col);
    if Position(specLength, row, col) == i {
      if row < q {
        MultipleGap(row, q, specLength);
        assert false;
      } else if row > q {
        MultipleGap(q, row, specLength);
        assert false;
      }
    }
  }

  /**
   * The fill succeeds exactly when both sizes are nonnegative, every text is
   * an integer within float range, and there are no more texts than cells; with a zero row
   * width that means no texts at all.
   */
  lemma FillSucceedsIff(cells: seq<string>, specLength: int, citiLength: int)
    ensures PlacesOutcome(cells, specLength, citiLength).None?
        <==> && 0 <= specLength && 0 <= citiLength
             && |cells| <= specLength * citiLength
             && forall i :: 0 <= i < |cells| ==> StorableText(cells[i])
  {
    if 0 <= specLength && 0 <= citiLength {
      FirstFillErrorNoneIff(cells, specLength, citiLength, 0);
      var allParse := forall i :: 0 <= i < |cells| ==> StorableText(cells[i]);
      if PlacesOutcome(cells, specLength, citiLength).None? {
        if |cells| > 0 {
          assert CellError(cells, |cells| - 1, specLength, citiLength).None?;
          CellErrorNoneIff(cells, |cells| - 1, specLength, citiLength);
        }
        assert |cells| <= specLength * citiLength;
        forall i | 0 <= i < |cells|
          ensures StorableText(cells[i])
        {
          assert CellError(cells, i, specLength, citiLength).None?;
          CellErrorNoneIff(cells, i, specLength, citiLength);
        }
      }
      if |cells| <= specLength * citiLength && allParse {
        forall i | 0 <= i < |cells|
          ensures CellError(cells, i, specLength, citiLength).None?
        {
          assert StorableText(cells[i]);
          CellErrorNoneIff(cells, i, specLength, citiLength);
        }
        assert FirstFillError(cells, specLength, citiLength, 0).None?;
      }
    }
  }

  /** After a successful fill, text `k` sits in cell (k / specLength, k % specLength), inside the grid. */
  lemma EveryTextLandsInItsCell(cells: seq<string>, specLength: int, citiLength: int, k: nat)
    requires PlacesOutcome(cells, specLength, citiLength).None? && k < |cells|
    ensures 0 < specLength
    ensures k / specLength < citiLength && k % specLength < specLength
    ensures GridValue(cells, specLength, k / specLength, k % specLength) == CellValue(cells[k])
  {
    assert CellError(cells, k, specLength, citiLength).None? by {
      FirstFillErrorNoneIff(cells, specLength, citiLength, 0);
    }
    CellErrorNoneIff(cells, k, specLength, citiLength);
    RowOfCellBound(k, specLength, citiLength);
    RowMajorPosition(k, specLength, k / specLength, k % specLength);
  }

  /**
   * The places grid: a `citiLength` by `specLength` grid of zeros, filled in
   * row-major order with the integers the texts stand for.
   */
  method GetPlaces(cells: seq<string>, specLength: int, citiLength: int)
    returns (result: Result<array2<real>, PlacesError>)
    ensures result.Failure? <==> PlacesOutcome(cells, specLength, citiLength).Some?
    ensures result.Failure? ==> result.error == PlacesOutcome(cells, specLength, citiLength).value
    ensures result.Success? ==>
              && fresh(result.value)
              && result.value.Length0 == citiLength && result.value.Length1 == specLength
              && forall row, col :: 0 <= row < citiLength && 0 <= col < specLength ==>
                   result.value[row, col] == GridValue(cells, specLength, row, col)
  {
    if citiLength < 0 || specLength < 0 {
      return Failure(NegativeDimensions);
    }
    var places := new real[citiLength, specLength]((_, _) => 0.0);
    var i := 0;
    while i < |cells|
      invariant 0 <= i <= |cells|
      invariant FirstFillError(cells, specLength, citiLength, 0) == FirstFillError(cells, specLength, citiLength, i)
      invariant forall row, col :: 0 <= row < citiLength && 0 <= col < specLength ==>
                  places[row, col] == PartialGridValue(cells, i, specLength, row, col)
    {
      var value := ParseInt(cells[i]);
      if value.None? {
        assert PlacesOutcome(cells, specLength, citiLength) == Some(InvalidLiteral(i));
        return Failure(InvalidLiteral(i));
      }
      if specLength == 0 {
        assert PlacesOutcome(cells, specLength, citiLength) == Some(ZeroDivision(i));
        return Failure(ZeroDivision(i));
      }
      var row := i / specLength;
      if row >= citiLength {
        assert PlacesOutcome(cells, specLength, citiLength) == Some(RowOutOfRange(i));
        return Failure(RowOutOfRange(i));
      }
      var col := i % specLength;
      if !FitsFloat(value.value) {
        assert PlacesOutcome(cells, specLength, citiLength) == Some(TooLarge(i));
        return Failure(TooLarge(i));
      }
      assert CellError(cells, i, specLength, citiLength).None?;
      places[row, col] := value.value as real;
      assert forall r, c :: 0 <= r < citiLength && 0 <= c < specLength ==>
               places[r, c] == PartialGridValue(cells, i + 1, specLength, r, c) by {
        FillStep(cells, i, specLength, row, col);
      }
      i := i + 1;
    }
    return Success(places);
  }

  // ---------------------------------------------------------------------
  // First-occurrence deduplication
  // ---------------------------------------------------------------------

  predicate Distinct(xs: seq<string>)
  {
    forall i, j :: 0 <= i < j < |xs| ==> xs[i] != xs[j]
  }

  /** Position of the first occurrence of `x` in `xs`. */
  function FirstIndex(xs: seq<string>, x: string): (k: nat)
    requires x in xs
    ensures k < |xs| && xs[k] == x
    ensures forall j :: 0 <= j < k ==> xs[j] != x
  {
    if xs[0] == x then 0 else 1 + FirstIndex(xs[1..], x)
  }

  lemma FirstIndexInPrefix(xs: seq<string>, n: nat)
    requires n <= |xs|
    ensures forall x :: x in xs[..n] ==> FirstIndex(xs, x) == FirstIndex(xs[..n], x)
  {
    forall x | x in xs[..n]
      ensures FirstIndex(xs, x) == FirstIndex(xs[..n], x)
    {
      var k := FirstIndex(xs[..n], x);
      assert xs[k] == x;
    }
  }

  /**
   * Each distinct value once, in the order of its first occurrence: what
   * sorting the unique values by their first index gives.
   */
  function Dedup(xs: seq<string>): (r: seq<string>)
    ensures |r| <= |xs|
    ensures forall x :: x in r <==> x in xs
    ensures Distinct(r)
    ensures forall i, j :: 0 <= i < j < |r| ==> FirstIndex(xs, r[i]) < FirstIndex(xs, r[j])
  {
    if |xs| == 0 then []
    else
      var n := |xs| - 1;
      var init := Dedup(xs[..n]);
      FirstIndexInPrefix(xs, n);
      assert xs[..n] + [xs[n]] == xs;
      if xs[n] in init then init else init + [xs[n]]
  }

  /** Two different values are both kept, in their order. */
  lemma DedupOfTwo(a: string, b: string)
    requires a != b
    ensures Dedup([a, b]) == [a, b]
  {
    var xs := [a, b];
    assert xs[..1] == [a] && xs[..1][..0] == [];
    assert Dedup([a]) == [a];
    assert b !in Dedup([a]);
  }

  /** The renames applied after deduplication. */
  function Alias(x: string, from: string, to: string): string
  {
    if x == from then to else x
  }

  /** Only `BMB` changes, to `BM`; no result is renamed again. */
  function RenameSpeciality(id: string): (r: string)
    ensures r != id <==> id == "BMB"
    ensures id == "BMB" ==> r == "BM"
    ensures r != "BMB"
  {
    Alias(id, "BMB", "BM")
  }

  /** Only the three hospital groups change, each to its city; no result is renamed again. */
  function RenameCity(city: string): (r: string)
    ensures r != city <==> city == "Ap-Hp" || city == "Hcl" || city == "Ap-Hm"
    ensures city == "Ap-Hp" ==> r == "Paris"
    ensures city == "Hcl" ==> r == "Lyon"
    ensures city == "Ap-Hm" ==> r == "Marseille"
    ensures r != "Ap-Hp" && r != "Hcl" && r != "Ap-Hm"
  {
    Alias(Alias(Alias(city, "Ap-Hp", "Paris"), "Hcl", "Lyon"), "Ap-Hm", "Marseille")
  }

  // ---------------------------------------------------------------------
  // Specialities
  // ---------------------------------------------------------------------

  /** A speciality header cell: with or without a title link; the link may hold a description. */
  datatype SpecCell = Untitled | Titled(text: string, description: Option<string>)

  /** The first three characters of a title, or all of a shorter one. */
  function Prefix3(s: string): (p: string)
    ensures IsPrefix(p, s) && |p| == if |s| < 3 then |s| else 3
  {
    if |s| <= 3 then s else s[..3]
  }

  /** The ids of the titled cells, in cell order, repeats kept. */
  function TitleIds(cells: seq<SpecCell>): (ids: seq<string>)
    ensures |ids| <= |cells|
    ensures forall i :: 0 <= i < |ids| ==> |ids[i]| <= 3
  {
    if |cells| == 0 then []
    else match cells[|cells| - 1]
      case Untitled => TitleIds(cells[..|cells| - 1])
      case Titled(text, _) => TitleIds(cells[..|cells| - 1]) + [Prefix3(text)]
  }

  /** The descriptions of the titled cells that have one, in cell order, repeats kept. */
  function TitleDescriptions(cells: seq<SpecCell>): (descriptions: seq<string>)
    ensures |descriptions| <= |cells|
    ensures forall d :: d in descriptions ==> exists k :: 0 <= k < |cells| && cells[k].Titled? && cells[k].description == Some(d)
  {
    if |cells| == 0 then []
    else match cells[|cells| - 1]
      case Titled(_, Some(d)) => TitleDescriptions(cells[..|cells| - 1]) + [d]
      case _ => TitleDescriptions(cells[..|cells| - 1])
  }

  /** The speciality ids the scraper returns: deduplicated first, renamed after. */
  function SpecialityIds(cells: seq<SpecCell>): (ids: seq<string>)
    ensures |ids| == |Dedup(TitleIds(cells))|
  {
    RenameSpecialities(Dedup(TitleIds(cells)))
  }

  function RenameSpecialities(ids: seq<string>): seq<string>
  {
    seq(|ids|, i requires 0 <= i < |ids| => RenameSpeciality(ids[i]))
  }

  lemma {:induction false} TitleIdsMembers(cells: seq<SpecCell>)
    ensures forall id :: id in TitleIds(cells) <==>
              exists k :: 0 <= k < |cells| && cells[k].Titled? && Prefix3(cells[k].text) == id
  {
    if |cells| > 0 {
      var n := |cells| - 1;
      TitleIdsMembers(cells[..n]);
      assert forall k :: 0 <= k < n ==> cells[..n][k] == cells[k];
    }
  }

  /**
   * A description is collected exactly when some titled cell's link holds
   * it: every such cell contributes its description, and nothing else is listed.
   */
  lemma {:induction false} TitleDescriptionsMembers(cells: seq<SpecCell>)
    ensures forall d :: d in TitleDescriptions(cells) <==>
              exists k :: 0 <= k < |cells| && cells[k].Titled? && cells[k].description == Some(d)
  {
    if |cells| > 0 {
      var n := |cells| - 1;
      TitleDescriptionsMembers(cells[..n]);
      assert forall k :: 0 <= k < n ==> cells[..n][k] == cells[k];
    }
  }

  /**
   * The descriptions the scraper returns are those of the titled cells that
   * have one, each listed once.
   */
  lemma SpecialityDescriptionsFromTitledCells(cells: seq<SpecCell>)
    ensures forall d :: d in Dedup(TitleDescriptions(cells)) <==>
              exists k :: 0 <= k < |cells| && cells[k].Titled? && cells[k].description == Some(d)
    ensures Distinct(Dedup(TitleDescriptions(cells)))
  {
    TitleDescriptionsMembers(cells);
  }

  /**
   * Every titled cell contributes its renamed id, every id comes from a
   * titled cell, and before renaming no id appears twice.
   */
  lemma SpecialityIdsFromTitledCells(cells: seq<SpecCell>)
    ensures forall k :: 0 <= k < |cells| && cells[k].Titled? ==>
              RenameSpeciality(Prefix3(cells[k].text)) in SpecialityIds(cells)
    ensures forall i :: 0 <= i < |SpecialityIds(cells)| ==>
              exists k :: 0 <= k < |cells| && cells[k].Titled?
                        && SpecialityIds(cells)[i] == RenameSpeciality(Prefix3(cells[k].text))
    ensures Distinct(Dedup(TitleIds(cells)))
  {
    TitleIdsMembers(cells);
    var unique := Dedup(TitleIds(cells));
    var ids := SpecialityIds(cells);
    forall k | 0 <= k < |cells| && cells[k].Titled?
      ensures RenameSpeciality(Prefix3(cells[k].text)) in ids
    {
      assert Prefix3(cells[k].text) in TitleIds(cells);
      assert Prefix3(cells[k].text) in unique;
      var j :| 0 <= j < |unique| && unique[j] == Prefix3(cells[k].text);
      assert ids[j] == RenameSpeciality(Prefix3(cells[k].text));
    }
    forall i | 0 <= i < |ids|
      ensures exists k :: 0 <= k < |cells| && cells[k].Titled?
                        && ids[i] == RenameSpeciality(Prefix3(cells[k].text))
    {
      assert unique[i] in TitleIds(cells);
    }
  }

  /**
   * Because the rename comes after deduplication, a page listing both `BMB`
   * and `BM` yields `BM` twice.
   */
  lemma SpecialityRenameCanRepeat()
    ensures SpecialityIds([Titled("BMB", None), Titled("BM", None)]) == ["BM", "BM"]
  {
    var cells := [Titled("BMB", None), Titled("BM", None)];
    TitleIdsOfTwo(cells);
    DedupOfTwo("BMB", "BM");
    assert RenameSpecialities(["BMB", "BM"]) == ["BM", "BM"];
  }

  lemma TitleIdsOfTwo(cells: seq<SpecCell>)
    requires cells == [Titled("BMB", None), Titled("BM", None)]
    ensures TitleIds(cells) == ["BMB", "BM"]
  {
    var first := cells[..1];
    assert first[..0] == [];
    assert TitleIds(first) == ["BMB"];
    assert cells[..1] == first;
  }

  /**
   * The speciality ids and descriptions of a header row: the titled cells'
   * three-letter ids and their descriptions, each list deduplicated in
   * first-occurrence order, the ids then renamed.
   */
  method GetSpecialities(cells: seq<SpecCell>) returns (ids: seq<string>, descriptions: seq<string>)
    ensures ids == SpecialityIds(cells)
    ensures descriptions == Dedup(TitleDescriptions(cells))
  {
    var collectedIds: seq<string> := [];
    var collectedDescriptions: seq<string> := [];
    for k := 0 to |cells|
      invariant collectedIds == TitleIds(cells[..k])
      invariant collectedDescriptions == TitleDescriptions(cells[..k])
    {
      assert cells[..k + 1][..k] == cells[..k];
      match cells[k]
      case Untitled =>
      case Titled(text, description) =>
        collectedIds := collectedIds + [Prefix3(text)];
        if description.Some? {
          collectedDescriptions := collectedDescriptions + [description.value];
        }
    }
    assert cells[..|cells|] == cells;
    ids := RenameSpecialities(Dedup(collectedIds));
    descriptions := Dedup(collectedDescriptions);
  }

  // ---------------------------------------------------------------------
  // Cities
  // ---------------------------------------------------------------------

  /**
   * The city list: the cell texts deduplicated in first-occurrence order,
   * then the three hospital groups renamed to their cities.
   */
  function CityList(cells: seq<string>): (cities: seq<string>)
    ensures |cities| == |Dedup(cells)| <= |cells|
  {
    RenameCities(Dedup(cells))
  }

  function RenameCities(cities: seq<string>): seq<string>
  {
    seq(|cities|, i requires 0 <= i < |cities| => RenameCity(cities[i]))
  }

  /** `city` is what some cell's text renames to. */
  predicate FromSomeCell(cells: seq<string>, city: string)
  {
    exists c :: c in cells && city == RenameCity(c)
  }

  /** Every cell's city is listed, and every listed city is the renamed text of some cell. */
  lemma CityListFromCells(cells: seq<string>)
    ensures forall c :: c in cells ==> RenameCity(c) in CityList(cells)
    ensures forall i :: 0 <= i < |CityList(cells)| ==> FromSomeCell(cells, CityList(cells)[i])
  {
    var unique := Dedup(cells);
    var cities := CityList(cells);
    forall c | c in cells
      ensures RenameCity(c) in cities
    {
      assert c in unique;
      var i :| 0 <= i < |unique| && unique[i] == c;
      assert cities[i] == RenameCity(c);
    }
    forall i | 0 <= i < |cities|
      ensures FromSomeCell(cells, cities[i])
    {
      assert unique[i] in cells && cities[i] == RenameCity(unique[i]);
    }
  }

  /** When no two different texts rename to the same city, no city is listed twice. */
  lemma CitiesDistinctWithoutAliasClash(cells: seq<string>)
    requires forall a, b :: a in cells && b in cells && RenameCity(a) == RenameCity(b) ==> a == b
    ensures Distinct(CityList(cells))
  {
    var unique := Dedup(cells);
    forall i, j | 0 <= i < j < |unique|
      ensures CityList(cells)[i] != CityList(cells)[j]
    {
      assert unique[i] in cells && unique[j] in cells;
    }
  }

  /** Because renaming comes after deduplication, `Ap-Hp` next to `Paris` gives `Paris` twice. */
  lemma CitiesRenameCanRepeat()
    ensures CityList(["Ap-Hp", "Paris"]) == ["Paris", "Paris"]
  {
    DedupOfTwo("Ap-Hp", "Paris");
    assert RenameCities(["Ap-Hp", "Paris"]) == ["Paris", "Paris"];
  }

  /** Collects the city cell texts in page order, then deduplicates and renames them. */
  method GetCities(cells: seq<string>) returns (cities: seq<string>)
    ensures cities == CityList(cells)
    ensures |cities| <= |cells|
  {
    // The Python loop also repairs the encoding of each text and title-cases
    // it; those steps are not modelled, so collecting a cell's text is copying it.
    var collected: seq<string> := [];
    for k := 0 to |cells|
      invariant collected == cells[..k]
    {
      collected := collected + [cells[k]];
    }
    assert collected == cells;
    cities := RenameCities(Dedup(collected));
  }
}
