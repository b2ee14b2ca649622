/**
 * The holdings page parser (`parseAvailabilities`, `parseTr`, `parseTd` in
 * index.js). The HTML document itself is not modelled: a page is the
 * sequence of `tr` elements found under `tbody`, a row the sequence of its
 * `td` elements, and a cell carries what the selectors of `parseTd` read
 * from it.
 */
module Holdings {
  import opened Wrappers
  import opened JsText

  /**
   * One `td` of a holdings row.
   *  - `caption`: its `data-caption` attribute, `None` when it has none;
   *  - `linkSpanTexts`: texts of the `span` elements inside its `a` elements;
   *  - `bookLocationTexts`: texts of its `book-location` elements;
   *  - `spanTexts`: texts of all its `span` elements.
   * Every sequence is in document order.
   */
  datatype Cell = Cell(
    caption: Option<string>,
    linkSpanTexts: seq<string>,
    bookLocationTexts: seq<string>,
    spanTexts: seq<string>)

  /** The `td` elements of one `tr`. */
  type Row = seq<Cell>

  /** The `tr` elements under `tbody`, in document order. */
  type HoldingsPage = seq<Row>

  /** The four keys an availability record can have. */
  datatype Field = BranchName | ShelfLocation | CallNumber | StatusDesc

  /**
   * An availability record as the JavaScript object it is: a key is either
   * present with a string value or absent, which is not the same as "".
   */
  type Availability = map<Field, string>

  /** The caption that makes a cell contribute `f`. */
  function CaptionOf(f: Field): string
  {
    match f
    case BranchName => "Library"
    case ShelfLocation => "Section/Shelf Location"
    case CallNumber => "Call Number"
    case StatusDesc => "Item Status"
  }

  /** The element texts the selector for `f` collects in a cell. */
  function Sources(f: Field, cell: Cell): seq<string>
  {
    match f
    case BranchName => cell.linkSpanTexts
    case ShelfLocation => cell.bookLocationTexts
    case CallNumber => cell.spanTexts
    case StatusDesc => cell.spanTexts
  }

  /**
   * `parseTd`: the one-field object a cell yields, or `None` for the
   * `undefined` that a cell with any other caption, or with none, yields.
   */
  function ParseTd(cell: Cell): (r: Option<Availability>)
    ensures r.Some? ==> |r.value| == 1
    ensures forall f :: (r.Some? && f in r.value) <==> cell.caption == Some(CaptionOf(f))
  {
    if cell.caption == Some("Library") then
      Some(map[BranchName := Concat(cell.linkSpanTexts)])
    else if cell.caption == Some("Section/Shelf Location") then
      Some(map[ShelfLocation := Concat(cell.bookLocationTexts)])
    else if cell.caption == Some("Call Number") then
      Some(map[CallNumber := Join(cell.spanTexts, ' ')])
    else if cell.caption == Some("Item Status") then
      Some(map[StatusDesc := Concat(cell.spanTexts)])
    else
      None
  }

  /** The value of `f` in a partial record, `None` when the key is absent or the partial is `undefined`. */
  function Value(part: Option<Availability>, f: Field): Option<string>
  {
    match part
    case None => None
    case Some(p) => if f in p then Some(p[f]) else None
  }

  /** The value a cell gives for field `f`, if it gives one. */
  function Contribution(cell: Cell, f: Field): Option<string>
  {
    Value(ParseTd(cell), f)
  }

  /**
   * The value of a recognised cell: the plain concatenation of the collected
   * texts, except the call number, whose texts are joined by single spaces.
   */
  lemma CellValue(cell: Cell, f: Field)
    requires cell.caption == Some(CaptionOf(f))
    ensures Contribution(cell, f)
         == Some(if f == CallNumber then Join(Sources(f, cell), ' ') else Concat(Sources(f, cell)))
  {
  }

  /** Branch name, shelf location and status insert no character between the texts they concatenate. */
  lemma ConcatenatedValue(cell: Cell, f: Field, c: char)
    requires f != CallNumber && cell.caption == Some(CaptionOf(f))
    ensures Contribution(cell, f).Some?
    ensures Occurrences(Contribution(cell, f).value, c) == SumOccurrences(Sources(f, cell), c)
  {
    CellValue(cell, f);
    ConcatOccurrences(Sources(f, cell), c);
  }

  /**
   * A call number of n >= 1 span texts holds exactly n - 1 spaces more than
   * the texts do; with no span it is the empty string.
   */
  lemma CallNumberSeparators(cell: Cell)
    requires cell.caption == Some("Call Number")
    ensures Contribution(cell, CallNumber).Some?
    ensures cell.spanTexts == [] ==> Contribution(cell, CallNumber).value == ""
    ensures cell.spanTexts != [] ==>
      Occurrences(Contribution(cell, CallNumber).value, ' ')
        == SumOccurrences(cell.spanTexts, ' ') + |cell.spanTexts| - 1
  {
    assert cell.caption == Some(CaptionOf(CallNumber));
    CellValue(cell, CallNumber);
    if cell.spanTexts != [] {
      JoinOccurrences(cell.spanTexts, ' ');
    }
  }

  /** Span texts without spaces can be read back from the call number, in document order. */
  lemma CallNumberFragments(cell: Cell)
    requires cell.caption == Some("Call Number") && cell.spanTexts != []
    requires forall i :: 0 <= i < |cell.spanTexts| ==> ' ' !in cell.spanTexts[i]
    ensures Contribution(cell, CallNumber).Some?
    ensures Split(Contribution(cell, CallNumber).value, ' ') == cell.spanTexts
  {
    assert cell.caption == Some(CaptionOf(CallNumber));
    CellValue(cell, CallNumber);
    SplitJoin(cell.spanTexts, ' ');
  }

  /** `{ ...acc, ...part }`: the keys of both, the value of `part` where both have one. */
  function Spread(acc: Availability, part: Option<Availability>): (r: Availability)
    ensures r.Keys == acc.Keys + (if part.Some? then part.value.Keys else {})
    ensures forall k :: k in r ==> r[k] == (if part.Some? && k in part.value then part.value[k] else acc[k])
  {
    match part
    case None => acc
    case Some(p) => acc + p
  }

  /** `tds.map(td => parseTd(td))`: one partial record per cell, in cell order. */
  function ParseTds(row: Row): (parts: seq<Option<Availability>>)
    ensures |parts| == |row|
    ensures forall i :: 0 <= i < |row| ==> parts[i] == ParseTd(row[i])
  {
    if row == [] then [] else [ParseTd(row[0])] + ParseTds(row[1..])
  }

  /** `parts.reduce((acc, object) => ({ ...acc, ...object }), acc)`. */
  function Reduce(acc: Availability, parts: seq<Option<Availability>>): (r: Availability)
    ensures acc.Keys <= r.Keys
    decreases |parts|
  {
    if parts == [] then acc else Reduce(Spread(acc, parts[0]), parts[1..])
  }

  /**
   * `parseTr`: the partial records of the cells merged left to right,
   * starting from `{}`. A row's record has `f` exactly when some cell gives
   * it, with the value of the last such cell.
   */
  function ParseTr(row: Row): (r: Availability)
    ensures forall f :: Value(Some(r), f) == LastValue(ParseTds(row), f)
  {
    var parts := ParseTds(row);
    assert forall f :: Value(Some(Reduce(map[], parts)), f) == LastValue(parts, f) by {
      forall f {
        ReduceLookup(map[], parts, f);
      }
    }
    Reduce(map[], parts)
  }

  /** Reference for the merge: the value of `f` in the LAST partial record that has it. */
  function LastValue(parts: seq<Option<Availability>>, f: Field): Option<string>
  {
    if parts == [] then None
    else match Value(parts[|parts| - 1], f)
      case Some(v) => Some(v)
      case None => LastValue(parts[..|parts| - 1], f)
  }

  lemma {:induction false} LastValueCons(p: Option<Availability>, parts: seq<Option<Availability>>, f: Field)
    ensures LastValue([p] + parts, f)
         == if LastValue(parts, f).Some? then LastValue(parts, f) else Value(p, f)
  {
    var whole := [p] + parts;
    if parts == [] {
      assert whole[..0] == [];
    } else {
      assert whole[..|whole| - 1] == [p] + parts[..|parts| - 1];
      assert whole[|whole| - 1] == parts[|parts| - 1];
      LastValueCons(p, parts[..|parts| - 1], f);
    }
  }

  /** Reducing into `acc` keeps `acc`'s value exactly where no partial has one, and otherwise the last one wins. */
  lemma {:induction false} ReduceLookup(acc: Availability, parts: seq<Option<Availability>>, f: Field)
    ensures Value(Some(Reduce(acc, parts)), f)
         == if LastValue(parts, f).Some? then LastValue(parts, f) else Value(Some(acc), f)
    decreases |parts|
  {
    if parts != [] {
      ReduceLookup(Spread(acc, parts[0]), parts[1..], f);
      LastValueCons(parts[0], parts[1..], f);
      assert [parts[0]] + parts[1..] == parts;
    }
  }

  /** The last value is that of the last partial record that has the key. */
  lemma {:induction false} LastValueAt(parts: seq<Option<Availability>>, i: int, f: Field)
    requires 0 <= i < |parts| && Value(parts[i], f).Some?
    requires forall j :: i < j < |parts| ==> Value(parts[j], f).None?
    ensures LastValue(parts, f) == Value(parts[i], f)
  {
    if i < |parts| - 1 {
      LastValueAt(parts[..|parts| - 1], i, f);
    }
  }

  /** There is a last value exactly when some partial record has the key. */
  lemma {:induction false} LastValueSome(parts: seq<Option<Availability>>, f: Field)
    ensures LastValue(parts, f).Some? <==> exists i :: 0 <= i < |parts| && Value(parts[i], f).Some?
  {
    if parts != [] {
      var init := parts[..|parts| - 1];
      LastValueSome(init, f);
      if Value(parts[|parts| - 1], f).None? {
        if exists i :: 0 <= i < |parts| && Value(parts[i], f).Some? {
          var i :| 0 <= i < |parts| && Value(parts[i], f).Some?;
          assert init[i] == parts[i];
        }
        if exists i :: 0 <= i < |init| && Value(init[i], f).Some? {
          var i :| 0 <= i < |init| && Value(init[i], f).Some?;
          assert parts[i] == init[i];
        }
      }
    }
  }

  /** A cell gives a value for `f` exactly when its caption is the caption of `f`. */
  lemma ContributionSome(cell: Cell, f: Field)
    ensures Contribution(cell, f).Some? <==> cell.caption == Some(CaptionOf(f))
  {
  }

  /** The partial records of a row give `f` exactly where the cells carry its caption. */
  lemma ParseTdsValues(row: Row, f: Field)
    ensures forall i :: 0 <= i < |row| ==>
      (Value(ParseTds(row)[i], f).Some? <==> row[i].caption == Some(CaptionOf(f)))
    ensures forall i :: 0 <= i < |row| ==> Value(ParseTds(row)[i], f) == Contribution(row[i], f)
  {
    var parts := ParseTds(row);
    forall i | 0 <= i < |row|
      ensures Value(parts[i], f) == Contribution(row[i], f)
      ensures Value(parts[i], f).Some? <==> row[i].caption == Some(CaptionOf(f))
    {
      ContributionSome(row[i], f);
    }
  }

  /** The keys of a row's record are exactly the fields its cells' captions name. */
  lemma ParseTrKeys(row: Row, f: Field)
    ensures f in ParseTr(row) <==> exists i :: 0 <= i < |row| && row[i].caption == Some(CaptionOf(f))
  {
    var parts := ParseTds(row);
    assert Value(Some(ParseTr(row)), f) == LastValue(parts, f);
    LastValueSome(parts, f);
    ParseTdsValues(row, f);
  }

  /** When several cells give the same field, the later cell's value wins. */
  lemma ParseTrLaterWins(row: Row, i: int, f: Field)
    requires 0 <= i < |row| && row[i].caption == Some(CaptionOf(f))
    requires forall j :: i < j < |row| ==> row[j].caption != Some(CaptionOf(f))
    ensures Contribution(row[i], f).Some?
    ensures f in ParseTr(row) && Some(ParseTr(row)[f]) == Contribution(row[i], f)
  {
    var parts := ParseTds(row);
    assert Value(Some(ParseTr(row)), f) == LastValue(parts, f);
    ParseTdsValues(row, f);
    LastValueAt(parts, i, f);
  }

  /** A row without a recognised caption gives the empty record. */
  lemma ParseTrNoRecognisedCell(row: Row)
    requires forall i, f :: 0 <= i < |row| ==> row[i].caption != Some(CaptionOf(f))
    ensures ParseTr(row) == map[]
  {
    forall f | true
      ensures f !in ParseTr(row)
    {
      ParseTrKeys(row, f);
    }
  }

  /** `parseAvailabilities`: one record per `tr`, record i from row i. */
  function ParseAvailabilities(page: HoldingsPage): (r: seq<Availability>)
    ensures |r| == |page|
    ensures forall i :: 0 <= i < |page| ==> r[i] == ParseTr(page[i])
  {
    if page == [] then [] else [ParseTr(page[0])] + ParseAvailabilities(page[1..])
  }

  /** Parsing keeps the row order: the records of `p + q` are those of `p`, then those of `q`. */
  lemma ParseAvailabilitiesAppend(p: HoldingsPage, q: HoldingsPage)
    ensures ParseAvailabilities(p + q) == ParseAvailabilities(p) + ParseAvailabilities(q)
  {
    var r := ParseAvailabilities(p + q);
    var s := ParseAvailabilities(p) + ParseAvailabilities(q);
    assert forall i :: 0 <= i < |r| ==> r[i] == s[i] by {
      forall i | 0 <= i < |r|
        ensures r[i] == s[i]
      {
        if i < |p| {
          assert (p + q)[i] == p[i];
        } else {
          assert (p + q)[i] == q[i - |p|];
        }
      }
    }
  }
}
