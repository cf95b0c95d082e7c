/**
 * The GWA calculator table: a list of rows (code, name, grade, units) that the
 * user edits, fills from the catalog and reduces to a general weighted average,
 * the sum of grade times units over the sum of units, counting only the rows
 * whose grade and units both read as numbers.
 *
 * A row is an object of the table's own, or, after a load, the catalog record
 * object itself. Typing into such a row writes into the catalog, so the
 * record keeps what was typed for later loads and for the search list. The
 * table is specified by the rows it shows (`Shown`) and by the catalog it
 * leaves behind.
 *
 * Grades and units are kept as the text typed into the fields and read with
 * `Number.parseFloat` (`ParseFloat` in module Text) wherever a number is needed.
 */
module Calculator {
  import opened Text
  import opened Seqs
  import opened Catalog

  datatype Row = Row(code: string, name: string, grade: string, units: string)

  /** The row the table starts with and adds: every field empty. */
  const Blank: Row := Row("", "", "", "")

  datatype Field = Code | Name | Grade | Units

  function FieldOf(r: Row, f: Field): string {
    match f
    case Code => r.code
    case Name => r.name
    case Grade => r.grade
    case Units => r.units
  }

  function SetField(r: Row, f: Field, v: string): (r': Row)
    ensures FieldOf(r', f) == v
    ensures forall g :: g != f ==> FieldOf(r', g) == FieldOf(r, g)
  {
    match f
    case Code => r.(code := v)
    case Name => r.(name := v)
    case Grade => r.(grade := v)
    case Units => r.(units := v)
  }

  // ---------------------------------------------------------------------------
  // The weighted average, over the numbers read from the rows

  /** The numbers `parseFloat` reads from a row's grade and units (None for NaN). */
  datatype Reading = Reading(grade: Option<real>, units: Option<real>)

  function ReadRow(r: Row): Reading {
    Reading(ParseFloat(r.grade), ParseFloat(r.units))
  }

  function Readings(rows: seq<Row>): (es: seq<Reading>)
    ensures |es| == |rows|
    ensures forall k :: 0 <= k < |rows| ==> es[k] == ReadRow(rows[k])
  {
    seq(|rows|, k requires 0 <= k < |rows| => ReadRow(rows[k]))
  }

  /** A row takes part in the average when both its grade and its units are numbers. */
  predicate Counts(e: Reading) {
    e.grade.Some? && e.units.Some?
  }

  /** What a row adds to the weighted sum and to the unit total. */
  function Weight(e: Reading): real {
    if Counts(e) then e.grade.value * e.units.value else 0.0
  }

  function CountedUnits(e: Reading): real {
    if Counts(e) then e.units.value else 0.0
  }

  function WeightedSum(es: seq<Reading>): real {
    if es == [] then 0.0 else WeightedSum(es[..|es| - 1]) + Weight(es[|es| - 1])
  }

  function TotalUnits(es: seq<Reading>): real {
    if es == [] then 0.0 else TotalUnits(es[..|es| - 1]) + CountedUnits(es[|es| - 1])
  }

  /** The value shown under the table: "N/A" or the average (the page prints it
      with four decimals). */
  datatype GwaResult = NotAvailable | Average(value: real)

  function Gwa(es: seq<Reading>): GwaResult {
    var units := TotalUnits(es);
    if units > 0.0 then Average(WeightedSum(es) / units) else NotAvailable
  }

  predicate NonNegative(e: Reading) {
    (e.grade.None? || e.grade.value >= 0.0) && (e.units.None? || e.units.value >= 0.0)
  }

  predicate AllNonNegative(es: seq<Reading>) {
    forall i :: 0 <= i < |es| ==> NonNegative(es[i])
  }

  // ---------------------------------------------------------------------------
  // Input validation

  /** The grade and units fields take only the empty text or text that starts with
      a non-negative number. */
  predicate Accepts(v: string) {
    v == "" || (ParseFloat(v).Some? && ParseFloat(v).value >= 0.0)
  }

  // ---------------------------------------------------------------------------
  // The row edits, as functions of the old rows

  /** Typing `v` into field `f` of row `index`. */
  function Edit(rows: seq<Row>, index: nat, f: Field, v: string): (r: seq<Row>)
    requires index < |rows|
    ensures |r| == |rows|
    ensures forall j :: 0 <= j < |rows| && j != index ==> r[j] == rows[j]
    ensures (f.Grade? || f.Units?) && !Accepts(v) ==> r == rows
    ensures (f.Code? || f.Name? || Accepts(v)) ==>
      FieldOf(r[index], f) == v && forall g :: g != f ==> FieldOf(r[index], g) == FieldOf(rows[index], g)
  {
    if (f.Grade? || f.Units?) && !Accepts(v) then rows
    else rows[index := SetField(rows[index], f, v)]
  }

  /** Picking `s` from the search list for row `index`: code, name and units are
      taken from the record, the grade stays. */
  function Select(rows: seq<Row>, index: nat, s: Subject): (r: seq<Row>)
    requires index < |rows|
    ensures |r| == |rows|
    ensures forall j :: 0 <= j < |rows| && j != index ==> r[j] == rows[j]
    ensures r[index] == Row(s.code, s.name, rows[index].grade, s.units)
  {
    rows[index := rows[index].(code := s.code, name := s.name, units := s.units)]
  }

  /** `rows.filter((_, i) => i !== index)`. */
  function RemoveAt<T>(rows: seq<T>, index: int): (r: seq<T>)
    ensures 0 <= index < |rows| ==> |r| == |rows| - 1
    ensures 0 <= index < |rows| ==> forall j :: 0 <= j < |r| ==> r[j] == if j < index then rows[j] else rows[j + 1]
    ensures !(0 <= index < |rows|) ==> r == rows
  {
    if 0 <= index < |rows| then rows[..index] + rows[index + 1..] else rows
  }

  /** A catalog record as a row of the table. */
  function RowOf(s: Subject): Row {
    Row(s.code, s.name, s.grade, s.units)
  }

  function RowsOf(ss: seq<Subject>): (r: seq<Row>)
    ensures |r| == |ss|
    ensures forall k :: 0 <= k < |ss| ==> r[k] == RowOf(ss[k])
  {
    seq(|ss|, k requires 0 <= k < |ss| => RowOf(ss[k]))
  }

  /** The rows loaded for a term: its records, or one blank row when it has none. */
  function Loaded(cat: seq<Subject>, year: string, semester: string): (r: seq<Row>)
    ensures |r| >= 1
  {
    var records := TermRecords(cat, year, semester);
    if |records| > 0 then RowsOf(records) else [Blank]
  }

  // ---------------------------------------------------------------------------
  // The subject search of the code field

  function MatchesText(term: string): Subject -> bool {
    (s: Subject) => Contains(ToLower(s.code + " " + s.name), term)
  }

  /** The records offered while typing `term`: none for the empty text, else those
      whose "code name" contains the term, ignoring case. */
  function FilteredSubjects(cat: seq<Subject>, term: string): seq<Subject> {
    if term == "" then [] else Filter(cat, MatchesText(ToLower(term)))
  }

  // ---------------------------------------------------------------------------
  // Rows that are catalog records

  /** A row of the table is an object of its own (the blank rows that the table
      starts with, adds and clears to) or, after a load, the catalog's own record
      object: `filter` returns the records themselves, so typing into such a row
      writes into the catalog. */
  datatype Slot = Own(row: Row) | Shared(index: nat)

  /** What a slot shows: its own fields, or those of the record it is. */
  function RowAt(cat: seq<Subject>, t: Slot): Row {
    match t
    case Own(r) => r
    case Shared(k) => if k < |cat| then RowOf(cat[k]) else Blank
  }

  /** The rows on screen. */
  function Shown(cat: seq<Subject>, slots: seq<Slot>): (rows: seq<Row>)
    ensures |rows| == |slots|
    ensures forall i :: 0 <= i < |slots| ==> rows[i] == RowAt(cat, slots[i])
  {
    seq(|slots|, i requires 0 <= i < |slots| => RowAt(cat, slots[i]))
  }

  /** Every shared row is a record of a catalog of `n` records, and no record is
      two rows at once. */
  predicate WellShared(n: nat, slots: seq<Slot>) {
    && (forall i :: 0 <= i < |slots| && slots[i].Shared? ==> slots[i].index < n)
    && (forall i, j :: 0 <= i < j < |slots| && slots[i].Shared? && slots[j].Shared? ==>
          slots[i].index != slots[j].index)
  }

  /** Writing a field of a record, as `updatedSubjects[index][field] = value` does
      when the row is the record; year, semester and prerequisites stay. */
  function SetRecordField(s: Subject, f: Field, v: string): (r: Subject)
    ensures RowOf(r) == SetField(RowOf(s), f, v)
    ensures r.year == s.year && r.semester == s.semester && r.prerequisites == s.prerequisites
  {
    match f
    case Code => s.(code := v)
    case Name => s.(name := v)
    case Grade => s.(grade := v)
    case Units => s.(units := v)
  }

  /** Whether typing `v` into field `f` is taken (line 33 for grade and units). */
  predicate Takes(f: Field, v: string) {
    f.Code? || f.Name? || Accepts(v)
  }

  /** The slots after typing: an own row changes in place, a shared one does not
      change as a slot. */
  function EditSlots(slots: seq<Slot>, index: nat, f: Field, v: string): seq<Slot>
    requires index < |slots|
  {
    if Takes(f, v) && slots[index].Own? then slots[index := Own(SetField(slots[index].row, f, v))]
    else slots
  }

  /** The catalog after typing: written through when the row is a record. */
  function EditCatalog(cat: seq<Subject>, slots: seq<Slot>, index: nat, f: Field, v: string): seq<Subject>
    requires index < |slots|
  {
    if Takes(f, v) && slots[index].Shared? && slots[index].index < |cat| then
      cat[slots[index].index := SetRecordField(cat[slots[index].index], f, v)]
    else cat
  }

  /** Copying code, name and units of `s` into a row (lines 53-55). */
  function CopyInto(r: Row, s: Subject): Row {
    r.(code := s.code, name := s.name, units := s.units)
  }

  function SelectSlots(slots: seq<Slot>, index: nat, s: Subject): seq<Slot>
    requires index < |slots|
  {
    if slots[index].Own? then slots[index := Own(CopyInto(slots[index].row, s))] else slots
  }

  function SelectCatalog(cat: seq<Subject>, slots: seq<Slot>, index: nat, s: Subject): seq<Subject>
    requires index < |slots|
  {
    if slots[index].Shared? && slots[index].index < |cat| then
      var k := slots[index].index;
      cat[k := cat[k].(code := s.code, name := s.name, units := s.units)]
    else cat
  }

  /** The positions, from `from` on, of the records that `p` keeps, in order. */
  function IndicesFrom(cat: seq<Subject>, p: Subject -> bool, from: nat): (r: seq<nat>)
    requires from <= |cat|
    ensures forall i :: 0 <= i < |r| ==> from <= r[i] < |cat| && p(cat[r[i]])
    ensures forall i, j :: 0 <= i < j < |r| ==> r[i] < r[j]
    decreases |cat| - from
  {
    if from == |cat| then []
    else if p(cat[from]) then [from] + IndicesFrom(cat, p, from + 1)
    else IndicesFrom(cat, p, from + 1)
  }

  function SharedAll(ks: seq<nat>): (r: seq<Slot>)
    ensures |r| == |ks|
    ensures forall i :: 0 <= i < |ks| ==> r[i] == Shared(ks[i])
  {
    seq(|ks|, i requires 0 <= i < |ks| => Shared(ks[i]))
  }

  /** The slots of a load: the term's records themselves, or a fresh blank row. */
  function LoadSlots(cat: seq<Subject>, year: string, semester: string): seq<Slot> {
    var ks := IndicesFrom(cat, InTerm(year, semester), 0);
    if |ks| > 0 then SharedAll(ks) else [Own(Blank)]
  }

  // ---------------------------------------------------------------------------
  // The table component

  class GwaTable {
    var slots: seq<Slot>
    /** The row whose search list is open, if any. */
    var activeSearchIndex: Option<nat>
    var year: string
    var semester: string
    /** `predefinedSubjects`, which the rows of a load share. */
    var catalog: seq<Subject>

    /** The table always has a row, and its shared rows are distinct records. */
    ghost predicate Valid()
      reads this
    {
      |slots| >= 1 && WellShared(|catalog|, slots)
    }

    /** The rows on screen. */
    function Rows(): seq<Row>
      reads this
    {
      Shown(catalog, slots)
    }

    constructor()
      ensures slots == [Own(Blank)] && Rows() == [Blank] && activeSearchIndex == None
      ensures year == "" && semester == "" && catalog == Table
      ensures Valid()
    {
      slots := [Own(Blank)];
      activeSearchIndex := None;
      year := "";
      semester := "";
      catalog := Table;
    }

    /** Lines 30-49. The rows show the edit; when the edited row is a record,
        the record itself changes. */
    method HandleInputChange(index: nat, field: Field, value: string)
      requires Valid() && index < |slots|
      modifies this
      ensures Rows() == Edit(old(Rows()), index, field, value)
      ensures slots == EditSlots(old(slots), index, field, value)
      ensures catalog == EditCatalog(old(catalog), old(slots), index, field, value)
      ensures activeSearchIndex == if field.Code? then Some(index) else old(activeSearchIndex)
      ensures year == old(year) && semester == old(semester)
      ensures Valid()
    {
      EditShown(catalog, slots, index, field, value);
      if field.Grade? || field.Units? {
        if value == "" || (ParseFloat(value).Some? && ParseFloat(value).value >= 0.0) {
          WriteField(index, field, value);
        }
      } else {
        WriteField(index, field, value);
        if field.Code? {
          activeSearchIndex := Some(index);
        }
      }
    }

    /** `updatedSubjects[index][field] = value`, into whichever object the row is. */
    method WriteField(index: nat, field: Field, value: string)
      requires Valid() && index < |slots| && Takes(field, value)
      modifies this
      ensures slots == EditSlots(old(slots), index, field, value)
      ensures catalog == EditCatalog(old(catalog), old(slots), index, field, value)
      ensures activeSearchIndex == old(activeSearchIndex) && year == old(year) && semester == old(semester)
      ensures Valid()
    {
      match slots[index]
      case Own(r) =>
        slots := slots[index := Own(SetField(r, field, value))];
      case Shared(k) =>
        catalog := catalog[k := SetRecordField(catalog[k], field, value)];
    }

    /** Lines 51-58: the picked record is one of the catalog's (the search list
        of lines 162-165 offers `predefinedSubjects` entries). */
    method HandleSubjectSelection(index: nat, pick: nat)
      requires Valid() && index < |slots| && pick < |catalog|
      modifies this
      ensures Rows() == Select(old(Rows()), index, old(catalog)[pick])
      ensures slots == SelectSlots(old(slots), index, old(catalog)[pick])
      ensures catalog == SelectCatalog(old(catalog), old(slots), index, old(catalog)[pick])
      ensures activeSearchIndex == None
      ensures year == old(year) && semester == old(semester)
      ensures Valid()
    {
      var selected := catalog[pick];
      SelectShown(catalog, slots, index, selected);
      match slots[index] {
        case Own(r) =>
          slots := slots[index := Own(CopyInto(r, selected))];
        case Shared(k) =>
          catalog := catalog[k := catalog[k].(code := selected.code, name := selected.name, units := selected.units)];
      }
      activeSearchIndex := None;
    }

    method AddRow()
      requires Valid()
      modifies this
      ensures slots == old(slots) + [Own(Blank)] && catalog == old(catalog)
      ensures Rows() == old(Rows()) + [Blank]
      ensures activeSearchIndex == old(activeSearchIndex)
      ensures year == old(year) && semester == old(semester)
      ensures Valid()
    {
      slots := slots + [Own(Blank)];
      assert Shown(catalog, slots) == Shown(catalog, old(slots)) + [Blank];
    }

    /** Removes row `index`, except that the last remaining row is never removed. */
    method DeleteRow(index: int)
      requires Valid()
      modifies this
      ensures slots == if |old(slots)| > 1 then RemoveAt(old(slots), index) else old(slots)
      ensures Rows() == if |old(slots)| > 1 then RemoveAt(old(Rows()), index) else old(Rows())
      ensures catalog == old(catalog)
      ensures activeSearchIndex == old(activeSearchIndex)
      ensures year == old(year) && semester == old(semester)
      ensures Valid()
    {
      if |slots| > 1 {
        RemoveShown(catalog, slots, index);
        slots := RemoveAt(slots, index);
      }
    }

    method ClearAllSubjects()
      requires Valid()
      modifies this
      ensures slots == [Own(Blank)] && Rows() == [Blank] && catalog == old(catalog)
      ensures activeSearchIndex == old(activeSearchIndex)
      ensures year == old(year) && semester == old(semester)
      ensures Valid()
    {
      slots := [Own(Blank)];
    }

    /** Lines 76-91: the average, accumulated row by row. */
    method ComputeGwa() returns (result: GwaResult)
      ensures result == Gwa(Readings(Rows()))
    {
      ghost var es := Readings(Rows());
      var totalWeightedGrades := 0.0;
      var totalUnits := 0.0;
      for i := 0 to |slots|
        invariant totalWeightedGrades == WeightedSum(es[..i])
        invariant totalUnits == TotalUnits(es[..i])
      {
        var row := RowAt(catalog, slots[i]);
        var grade := ParseFloat(row.grade);
        var units := ParseFloat(row.units);
        AccumulateStep(es, i, totalWeightedGrades, totalUnits, grade, units);
        if grade.Some? && units.Some? {
          totalWeightedGrades := totalWeightedGrades + grade.value * units.value;
          totalUnits := totalUnits + units.value;
        }
      }
      assert es[..|slots|] == es;
      result := if totalUnits > 0.0 then Average(totalWeightedGrades / totalUnits) else NotAvailable;
    }

    method HandleYearChange(value: string)
      modifies this
      ensures year == value
      ensures slots == old(slots) && catalog == old(catalog)
      ensures semester == old(semester) && activeSearchIndex == old(activeSearchIndex)
    {
      year := value;
    }

    method HandleSemesterChange(value: string)
      modifies this
      ensures semester == value
      ensures slots == old(slots) && catalog == old(catalog)
      ensures year == old(year) && activeSearchIndex == old(activeSearchIndex)
    {
      semester := value;
    }

    /** Lines 108-116: replaces the rows by the chosen term's records themselves,
        as the catalog holds them now; does nothing until both a year and a
        semester are entered. */
    method LoadSubjectsForYearAndSemester()
      requires Valid()
      modifies this
      ensures slots == if year == "" || semester == "" then old(slots) else LoadSlots(catalog, year, semester)
      ensures Rows() == if year == "" || semester == "" then old(Rows()) else Loaded(catalog, year, semester)
      ensures catalog == old(catalog)
      ensures year == old(year) && semester == old(semester) && activeSearchIndex == old(activeSearchIndex)
      ensures Valid()
    {
      if year == "" || semester == "" {
        return;
      }
      LoadShown(catalog, year, semester);
      var filtered := IndicesFrom(catalog, InTerm(year, semester), 0);
      slots := if |filtered| > 0 then SharedAll(filtered) else [Own(Blank)];
    }
  }

  // ---------------------------------------------------------------------------
  // The rows on screen follow the edits of the rows as values

  /** Typing into a row shows as the edit of the rows, whether the row is an
      object of its own or a catalog record, and keeps the sharing sound. */
  lemma EditShown(cat: seq<Subject>, slots: seq<Slot>, index: nat, f: Field, v: string)
    requires WellShared(|cat|, slots) && index < |slots|
    ensures Shown(EditCatalog(cat, slots, index, f, v), EditSlots(slots, index, f, v)) ==
      Edit(Shown(cat, slots), index, f, v)
    ensures |EditCatalog(cat, slots, index, f, v)| == |cat|
    ensures WellShared(|cat|, EditSlots(slots, index, f, v))
  {
    var cat', slots' := EditCatalog(cat, slots, index, f, v), EditSlots(slots, index, f, v);
    var a, b := Shown(cat', slots'), Edit(Shown(cat, slots), index, f, v);
    forall j | 0 <= j < |a|
      ensures a[j] == b[j]
    {
      if j != index && slots[j].Shared? && slots[index].Shared? {
        if j < index {
          assert slots[j].index != slots[index].index;
        } else {
          assert slots[index].index != slots[j].index;
        }
      }
    }
  }

  lemma SelectShown(cat: seq<Subject>, slots: seq<Slot>, index: nat, s: Subject)
    requires WellShared(|cat|, slots) && index < |slots|
    ensures Shown(SelectCatalog(cat, slots, index, s), SelectSlots(slots, index, s)) ==
      Select(Shown(cat, slots), index, s)
    ensures |SelectCatalog(cat, slots, index, s)| == |cat|
    ensures WellShared(|cat|, SelectSlots(slots, index, s))
  {
    var cat', slots' := SelectCatalog(cat, slots, index, s), SelectSlots(slots, index, s);
    var a, b := Shown(cat', slots'), Select(Shown(cat, slots), index, s);
    forall j | 0 <= j < |a|
      ensures a[j] == b[j]
    {
      if j != index && slots[j].Shared? && slots[index].Shared? {
        if j < index {
          assert slots[j].index != slots[index].index;
        } else {
          assert slots[index].index != slots[j].index;
        }
      }
    }
  }

  lemma RemoveShown(cat: seq<Subject>, slots: seq<Slot>, index: int)
    requires WellShared(|cat|, slots)
    ensures Shown(cat, RemoveAt(slots, index)) == RemoveAt(Shown(cat, slots), index)
    ensures WellShared(|cat|, RemoveAt(slots, index))
  {
    var r := RemoveAt(slots, index);
    if 0 <= index < |slots| {
      forall i, j | 0 <= i < j < |r| && r[i].Shared? && r[j].Shared?
        ensures r[i].index != r[j].index
      {
        var i', j' := if i < index then i else i + 1, if j < index then j else j + 1;
        assert r[i] == slots[i'] && r[j] == slots[j'] && i' < j';
      }
    }
  }

  /** The records at positions `ks`. */
  function RecordsAt(cat: seq<Subject>, ks: seq<nat>): (r: seq<Subject>)
    requires forall i :: 0 <= i < |ks| ==> ks[i] < |cat|
    ensures |r| == |ks|
    ensures forall i :: 0 <= i < |ks| ==> r[i] == cat[ks[i]]
  {
    seq(|ks|, i requires 0 <= i < |ks| => cat[ks[i]])
  }

  /** The positions that `IndicesFrom` picks hold exactly the records `filter` keeps. */
  lemma {:induction false} IndicesFromFilter(cat: seq<Subject>, p: Subject -> bool, from: nat)
    requires from <= |cat|
    ensures RecordsAt(cat, IndicesFrom(cat, p, from)) == Filter(cat[from..], p)
    decreases |cat| - from
  {
    if from < |cat| {
      IndicesFromFilter(cat, p, from + 1);
      assert cat[from..][0] == cat[from] && cat[from..][1..] == cat[from + 1..];
    }
  }

  /** A load shows the term's records as the catalog holds them, and shares no
      record twice. */
  lemma LoadShown(cat: seq<Subject>, year: string, semester: string)
    ensures Shown(cat, LoadSlots(cat, year, semester)) == Loaded(cat, year, semester)
    ensures WellShared(|cat|, LoadSlots(cat, year, semester)) && |LoadSlots(cat, year, semester)| >= 1
  {
    var ks := IndicesFrom(cat, InTerm(year, semester), 0);
    IndicesFromFilter(cat, InTerm(year, semester), 0);
    assert cat[0..] == cat;
    var records := RecordsAt(cat, ks);
    assert |records| == |TermRecords(cat, year, semester)|;
  }

  // ---------------------------------------------------------------------------
  // Properties of the average

  /** One step of the accumulation: adding entry `i`, when it counts, to the sums
      over the first `i` entries gives the sums over the first `i + 1`. */
  lemma AccumulateStep(es: seq<Reading>, i: nat, w: real, u: real, grade: Option<real>, units: Option<real>)
    requires i < |es| && es[i] == Reading(grade, units)
    requires w == WeightedSum(es[..i]) && u == TotalUnits(es[..i])
    ensures (if grade.Some? && units.Some? then w + grade.value * units.value else w) == WeightedSum(es[..i + 1])
    ensures (if grade.Some? && units.Some? then u + units.value else u) == TotalUnits(es[..i + 1])
  {
    assert es[..i + 1][..i] == es[..i];
  }

  lemma {:induction false} SumsConcat(a: seq<Reading>, b: seq<Reading>)
    ensures WeightedSum(a + b) == WeightedSum(a) + WeightedSum(b)
    ensures TotalUnits(a + b) == TotalUnits(a) + TotalUnits(b)
    decreases |b|
  {
    if b == [] {
      assert a + b == a;
    } else {
      var init := b[..|b| - 1];
      assert (a + b)[..|a + b| - 1] == a + init;
      SumsConcat(a, init);
    }
  }

  /** A row that does not count can be added or removed anywhere without changing
      the average. */
  lemma UncountedIgnored(a: seq<Reading>, e: Reading, b: seq<Reading>)
    requires !Counts(e)
    ensures Gwa(a + [e] + b) == Gwa(a + b)
  {
    SumsConcat(a + [e], b);
    SumsConcat(a, [e]);
    SumsConcat(a, b);
    assert [e][..0] == [];
  }

  lemma {:induction false} TotalUnitsSign(es: seq<Reading>)
    requires AllNonNegative(es)
    ensures TotalUnits(es) >= 0.0
    ensures TotalUnits(es) > 0.0 <==> exists i :: 0 <= i < |es| && Counts(es[i]) && es[i].units.value > 0.0
    decreases |es|
  {
    if es != [] {
      var init := es[..|es| - 1];
      TotalUnitsSign(init);
      if exists i :: 0 <= i < |init| && Counts(init[i]) && init[i].units.value > 0.0 {
        var i :| 0 <= i < |init| && Counts(init[i]) && init[i].units.value > 0.0;
        assert es[i] == init[i];
      }
      if exists i :: 0 <= i < |es| && Counts(es[i]) && es[i].units.value > 0.0 {
        var i :| 0 <= i < |es| && Counts(es[i]) && es[i].units.value > 0.0;
        if i < |init| {
          assert init[i] == es[i];
        }
      }
    }
  }

  /** With non-negative entries the table shows "N/A" exactly when no counted row
      has positive units. */
  lemma NotAvailableIff(es: seq<Reading>)
    requires AllNonNegative(es)
    ensures Gwa(es) == NotAvailable <==>
      forall i :: 0 <= i < |es| && Counts(es[i]) ==> es[i].units.value == 0.0
  {
    TotalUnitsSign(es);
  }

  /** `w` lies between `lo * u` and `hi * u`. */
  predicate Between(lo: real, hi: real, w: real, u: real) {
    lo * u <= w <= hi * u
  }

  /** One row's step of the bound: a grade within [lo, hi] keeps the weighted sum
      within lo and hi times the units. */
  lemma BoundStep(lo: real, hi: real, w: real, u: real, g: real, n: real, w': real, u': real)
    requires Between(lo, hi, w, u)
    requires n >= 0.0 && (n > 0.0 ==> lo <= g <= hi)
    requires w' == w + g * n && u' == u + n
    ensures Between(lo, hi, w', u')
  {
    if n > 0.0 {
      assert lo * n <= g * n <= hi * n;
    }
  }

  /** The bound carries over from all but the last entry to all entries. */
  lemma BoundsAppend(es: seq<Reading>, lo: real, hi: real)
    requires es != [] && NonNegative(es[|es| - 1])
    requires Counts(es[|es| - 1]) && es[|es| - 1].units.value > 0.0 ==> lo <= es[|es| - 1].grade.value <= hi
    requires Between(lo, hi, WeightedSum(es[..|es| - 1]), TotalUnits(es[..|es| - 1]))
    ensures Between(lo, hi, WeightedSum(es), TotalUnits(es))
  {
    var e := es[|es| - 1];
    var w, u := WeightedSum(es[..|es| - 1]), TotalUnits(es[..|es| - 1]);
    var w', u' := WeightedSum(es), TotalUnits(es);
    if Counts(e) {
      var g, n := e.grade.value, e.units.value;
      assert w' == w + g * n && u' == u + n;
      BoundStep(lo, hi, w, u, g, n, w', u');
    } else {
      assert w' == w + 0.0 * 0.0 && u' == u + 0.0;
      BoundStep(lo, hi, w, u, 0.0, 0.0, w', u');
    }
  }

  /** With every counted grade that carries units within [lo, hi], the weighted
      sum lies between lo and hi times the total units. */
  lemma {:induction false} WeightedSumBounds(es: seq<Reading>, lo: real, hi: real)
    requires AllNonNegative(es)
    requires forall i :: 0 <= i < |es| && Counts(es[i]) && es[i].units.value > 0.0 ==>
      lo <= es[i].grade.value <= hi
    ensures Between(lo, hi, WeightedSum(es), TotalUnits(es))
    decreases |es|
  {
    if es != [] {
      var init := es[..|es| - 1];
      assert forall i :: 0 <= i < |init| ==> init[i] == es[i];
      WeightedSumBounds(init, lo, hi);
      BoundsAppend(es, lo, hi);
    } else {
      assert lo * 0.0 == 0.0 == hi * 0.0;
    }
  }

  lemma QuotientBounds(lo: real, hi: real, w: real, u: real)
    requires u > 0.0 && Between(lo, hi, w, u)
    ensures lo <= w / u <= hi
  {
    assert w / u * u == w;
  }

  /** The average lies between the lowest and the highest grade of the rows that
      carry units. */
  lemma WithinGrades(es: seq<Reading>, lo: real, hi: real)
    requires AllNonNegative(es)
    requires forall i :: 0 <= i < |es| && Counts(es[i]) && es[i].units.value > 0.0 ==>
      lo <= es[i].grade.value <= hi
    ensures Gwa(es).Average? ==> lo <= Gwa(es).value <= hi
  {
    WeightedSumBounds(es, lo, hi);
    if TotalUnits(es) > 0.0 {
      QuotientBounds(lo, hi, WeightedSum(es), TotalUnits(es));
    }
  }

  /** A single counted row with units averages to its own grade. */
  lemma OneRowAverage(e: Reading)
    requires Counts(e) && e.units.value > 0.0
    ensures Gwa([e]) == Average(e.grade.value)
  {
    assert [e][..0] == [];
    var g, n := e.grade.value, e.units.value;
    assert WeightedSum([e]) == WeightedSum([]) + Weight(e) == g * n;
    assert TotalUnits([e]) == TotalUnits([]) + CountedUnits(e) == n;
    QuotientBounds(g, g, g * n, n);
  }

  lemma {:induction false} NoGradesNoAverage(es: seq<Reading>)
    requires forall i :: 0 <= i < |es| ==> es[i].grade.None?
    ensures TotalUnits(es) == 0.0
    ensures Gwa(es) == NotAvailable
    decreases |es|
  {
    if es != [] {
      NoGradesNoAverage(es[..|es| - 1]);
    }
  }

  // ---------------------------------------------------------------------------
  // The table's operations and the average

  lemma ReadingsConcat(a: seq<Row>, b: seq<Row>)
    ensures Readings(a + b) == Readings(a) + Readings(b)
  {
  }

  /** Adding a blank row leaves the average as it was. */
  lemma AddRowKeepsGwa(rows: seq<Row>)
    ensures Gwa(Readings(rows + [Blank])) == Gwa(Readings(rows))
  {
    ReadingsConcat(rows, [Blank]);
    assert ParseFloat("") == None;
    UncountedIgnored(Readings(rows), ReadRow(Blank), []);
    assert Readings([Blank]) == [ReadRow(Blank)];
    assert Readings(rows) + [ReadRow(Blank)] + [] == Readings(rows) + [ReadRow(Blank)];
    assert Readings(rows) + [] == Readings(rows);
  }

  /** Deleting a row that does not count leaves the average as it was. */
  lemma DeleteUncountedKeepsGwa(rows: seq<Row>, index: int)
    requires 0 <= index < |rows| && !Counts(ReadRow(rows[index]))
    ensures Gwa(Readings(RemoveAt(rows, index))) == Gwa(Readings(rows))
  {
    ReadingsRemoveAt(rows, index);
    UncountedRemoved(Readings(rows), index);
  }

  lemma UncountedRemoved(es: seq<Reading>, index: nat)
    requires index < |es| && !Counts(es[index])
    ensures Gwa(es[..index] + es[index + 1..]) == Gwa(es)
  {
    assert es == es[..index] + [es[index]] + es[index + 1..];
    UncountedIgnored(es[..index], es[index], es[index + 1..]);
  }

  lemma ReadingsRemoveAt(rows: seq<Row>, index: int)
    requires 0 <= index < |rows|
    ensures Readings(RemoveAt(rows, index)) == Readings(rows)[..index] + Readings(rows)[index + 1..]
  {
    var es, r := Readings(rows), RemoveAt(rows, index);
    var ds := Readings(r);
    forall j | 0 <= j < |ds|
      ensures ds[j] == (es[..index] + es[index + 1..])[j]
    {
      if j < index {
        assert r[j] == rows[j];
      } else {
        assert r[j] == rows[j + 1];
      }
    }
  }

  /** A table with no grade typed in shows "N/A"; in particular a cleared table. */
  lemma NoGradesNoGwa(rows: seq<Row>)
    requires forall i :: 0 <= i < |rows| ==> rows[i].grade == ""
    ensures Gwa(Readings(rows)) == NotAvailable
  {
    assert ParseFloat("") == None;
    NoGradesNoAverage(Readings(rows));
  }

  /** Typing into a field never lets a negative number in. */
  lemma EditKeepsNonNegative(rows: seq<Row>, index: nat, f: Field, v: string)
    requires index < |rows| && AllNonNegative(Readings(rows))
    ensures AllNonNegative(Readings(Edit(rows, index, f, v)))
  {
    var r := Edit(rows, index, f, v);
    if (f.Grade? || f.Units?) && Accepts(v) && v == "" {
      assert ParseFloat(v) == None;
    }
    assert FieldOf(r[index], Grade) == r[index].grade && FieldOf(r[index], Units) == r[index].units;
    assert FieldOf(rows[index], Grade) == rows[index].grade && FieldOf(rows[index], Units) == rows[index].units;
    assert NonNegative(ReadRow(rows[index]));
  }

  /** Picking a record with non-negative units keeps every entry non-negative. */
  lemma SelectKeepsNonNegative(rows: seq<Row>, index: nat, s: Subject)
    requires index < |rows| && AllNonNegative(Readings(rows))
    requires ParseFloat(s.units).None? || ParseFloat(s.units).value >= 0.0
    ensures AllNonNegative(Readings(Select(rows, index, s)))
  {
    assert NonNegative(ReadRow(rows[index]));
  }

  /** The rows loaded for a term are exactly the records of that term. */
  lemma LoadedRecords(cat: seq<Subject>, year: string, semester: string, s: Subject)
    ensures s in TermRecords(cat, year, semester) <==> s in cat && s.year == year && s.semester == semester
    ensures |TermRecords(cat, year, semester)| > 0 ==>
      Loaded(cat, year, semester) == RowsOf(TermRecords(cat, year, semester))
    ensures |TermRecords(cat, year, semester)| == 0 ==> Loaded(cat, year, semester) == [Blank]
  {
    FilterMembership(cat, InTerm(year, semester), s);
  }

  /** Loading from a catalog whose records read as non-negative numbers keeps
      every entry non-negative. */
  lemma LoadedKeepsNonNegative(cat: seq<Subject>, year: string, semester: string)
    requires forall i :: 0 <= i < |cat| ==> NonNegative(ReadRow(RowOf(cat[i])))
    ensures AllNonNegative(Readings(Loaded(cat, year, semester)))
  {
    var records := TermRecords(cat, year, semester);
    forall k | 0 <= k < |records|
      ensures records[k] in cat
    {
      FilterMembership(cat, InTerm(year, semester), records[k]);
    }
    assert ParseFloat("") == None;
  }

  /** Loading from a catalog with non-negative units and no grades keeps every
      entry non-negative and shows "N/A" until a grade is typed. */
  lemma LoadedNonNegative(cat: seq<Subject>, year: string, semester: string)
    requires forall i :: 0 <= i < |cat| ==> NonNegative(ReadRow(RowOf(cat[i]))) && cat[i].grade == ""
    ensures AllNonNegative(Readings(Loaded(cat, year, semester)))
    ensures Gwa(Readings(Loaded(cat, year, semester))) == NotAvailable
  {
    LoadedKeepsNonNegative(cat, year, semester);
    var records := TermRecords(cat, year, semester);
    forall k | 0 <= k < |records|
      ensures records[k] in cat
    {
      FilterMembership(cat, InTerm(year, semester), records[k]);
    }
    assert ParseFloat("") == None;
    NoGradesNoGwa(Loaded(cat, year, semester));
  }

  /** A grade typed into a loaded row is written into the catalog record, so
      the next load of that term shows the record with the grade, even after
      the table was cleared in between. */
  lemma TypedGradeComesBack(cat: seq<Subject>, slots: seq<Slot>, index: nat, v: string)
    requires WellShared(|cat|, slots) && index < |slots| && slots[index].Shared? && Accepts(v)
    ensures var k := slots[index].index;
      var cat' := EditCatalog(cat, slots, index, Grade, v);
      && cat'[k].grade == v
      && RowOf(cat'[k]) in Loaded(cat', cat[k].year, cat[k].semester)
  {
    var k := slots[index].index;
    var cat' := EditCatalog(cat, slots, index, Grade, v);
    var year, semester := cat[k].year, cat[k].semester;
    assert cat'[k] == SetRecordField(cat[k], Grade, v);
    LoadedRecords(cat', year, semester, cat'[k]);
    var records := TermRecords(cat', year, semester);
    var j :| 0 <= j < |records| && records[j] == cat'[k];
    assert Loaded(cat', year, semester)[j] == RowOf(cat'[k]);
  }

  /** With such a grade and positive units on the record, the reloaded term no
      longer shows "N/A". */
  lemma ReloadShowsAverage(cat: seq<Subject>, slots: seq<Slot>, index: nat, v: string)
    requires WellShared(|cat|, slots) && index < |slots| && slots[index].Shared?
    requires forall i :: 0 <= i < |cat| ==> NonNegative(ReadRow(RowOf(cat[i])))
    requires ParseFloat(v).Some? && ParseFloat(v).value >= 0.0
    requires ParseFloat(cat[slots[index].index].units).Some? && ParseFloat(cat[slots[index].index].units).value > 0.0
    ensures var k := slots[index].index;
      var cat' := EditCatalog(cat, slots, index, Grade, v);
      Gwa(Readings(Loaded(cat', cat[k].year, cat[k].semester))).Average?
  {
    var k := slots[index].index;
    var cat' := EditCatalog(cat, slots, index, Grade, v);
    var year, semester := cat[k].year, cat[k].semester;
    TypedGradeComesBack(cat, slots, index, v);
    forall i | 0 <= i < |cat'|
      ensures NonNegative(ReadRow(RowOf(cat'[i])))
    {
      if i != k {
        assert cat'[i] == cat[i];
      }
    }
    LoadedKeepsNonNegative(cat', year, semester);
    var rows := Loaded(cat', year, semester);
    var es := Readings(rows);
    var j :| 0 <= j < |rows| && rows[j] == RowOf(cat'[k]);
    assert Counts(es[j]) && es[j].units.value > 0.0;
    TotalUnitsSign(es);
  }

  /** Picking another record for a loaded row overwrites that row's record, so
      the catalog, which the search list reads, then holds two records with the
      picked code. */
  lemma SelectionDuplicatesCode(cat: seq<Subject>, slots: seq<Slot>, index: nat, pick: nat)
    requires WellShared(|cat|, slots) && index < |slots| && slots[index].Shared?
    requires pick < |cat| && pick != slots[index].index
    ensures var cat' := SelectCatalog(cat, slots, index, cat[pick]);
      && |cat'| == |cat| && cat'[pick] == cat[pick]
      && cat'[slots[index].index].code == cat'[pick].code
      && cat'[slots[index].index].year == cat[slots[index].index].year
  {
  }

  /** The table's records have non-negative units and no grades, so a load while
      the catalog still holds them (the first load after the page opens, before
      anything was typed into a loaded row) shows "N/A" until a grade is typed. */
  lemma LoadedFromTable(year: string, semester: string)
    ensures AllNonNegative(Readings(Loaded(Table, year, semester)))
    ensures Gwa(Readings(Loaded(Table, year, semester))) == NotAvailable
  {
    FieldValues();
    forall i | 0 <= i < |Table|
      ensures NonNegative(ReadRow(RowOf(Table[i]))) && Table[i].grade == ""
    {
      DigitTextNonNegative(Table[i].units);
      assert ParseFloat("") == None;
    }
    LoadedNonNegative(Table, year, semester);
  }

  // ---------------------------------------------------------------------------
  // Properties of the subject search

  lemma FilteredMembership(cat: seq<Subject>, term: string, s: Subject)
    ensures s in FilteredSubjects(cat, term) <==>
      term != "" && s in cat && Contains(ToLower(s.code + " " + s.name), ToLower(term))
  {
    if term != "" {
      FilterMembership(cat, MatchesText(ToLower(term)), s);
    }
  }

  /** Typing a record's whole code offers that record. */
  lemma CodeFindsItself(cat: seq<Subject>, s: Subject)
    requires s in cat && s.code != ""
    ensures s in FilteredSubjects(cat, s.code)
  {
    ToLowerConcat(s.code, " " + s.name);
    var text := ToLower(s.code + " " + s.name);
    assert OccursAt(text, ToLower(s.code), 0);
    FilteredMembership(cat, s.code, s);
  }
}
