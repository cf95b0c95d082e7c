/**
 * The prerequisite searcher: the catalog is formatted once (codes and
 * prerequisite codes normalised with `trim().toUpperCase()`, units and year
 * converted to numbers), and three queries run over the formatted list:
 * what a course requires, what requires it, and a free-text search.
 *
 * Every query takes the catalog as a parameter; the page always passes
 * `Catalog.Table`, and the facts that need the concrete table are proved at
 * the end of this module.
 */
module Resolver {
  import opened Text
  import opened Seqs
  import opened Catalog

  /** A formatted catalog record: units and year are numbers. */
  datatype Course = Course(
    code: string,
    name: string,
    units: real,
    year: real,
    semester: string,
    grade: string,
    prerequisites: seq<string>)

  function NormalizeAll(ps: seq<string>): (r: seq<string>)
    ensures |r| == |ps|
    ensures forall k :: 0 <= k < |ps| ==> r[k] == Normalize(ps[k])
  {
    seq(|ps|, k requires 0 <= k < |ps| => Normalize(ps[k]))
  }

  /** One record formatted: name, semester and grade are kept, codes are
      normalised, and units and year become numbers (0 when the text is not a
      number). */
  function Format(s: Subject): (c: Course)
    ensures c.name == s.name && c.semester == s.semester && c.grade == s.grade
    ensures c.code == Normalize(s.code) && c.prerequisites == NormalizeAll(s.prerequisites)
    ensures c.units == NumberOrZero(s.units) && c.year == NumberOrZero(s.year)
  {
    Course(Normalize(s.code), s.name, NumberOrZero(s.units), NumberOrZero(s.year),
           s.semester, s.grade, NormalizeAll(s.prerequisites))
  }

  /** `getFormattedSubjects`: the catalog with every record formatted, same
      length and order. */
  function FormattedSubjects(cat: seq<Subject>): (fs: seq<Course>)
    ensures |fs| == |cat|
    ensures forall i :: 0 <= i < |cat| ==> fs[i] == Format(cat[i])
  {
    seq(|cat|, i requires 0 <= i < |cat| => Format(cat[i]))
  }

  /** The position of the record that `find(s => s.code === code)` returns: the
      first one with that code, or None when there is none. */
  function Find(fs: seq<Course>, code: string): (r: Option<nat>)
    ensures r.Some? ==> r.value < |fs| && fs[r.value].code == code
    ensures r.Some? ==> forall j :: 0 <= j < r.value ==> fs[j].code != code
    ensures r.None? ==> forall j :: 0 <= j < |fs| ==> fs[j].code != code
  {
    if fs == [] then None
    else if fs[0].code == code then Some(0)
    else match Find(fs[1..], code)
      case None => None
      case Some(j) => Some(j + 1)
  }

  predicate HasCode(fs: seq<Course>, code: string) {
    exists j :: 0 <= j < |fs| && fs[j].code == code
  }

  /** The filter test of codes that some record of `fs` carries. */
  function Resolvable(fs: seq<Course>): string -> bool {
    p => HasCode(fs, p)
  }

  /** The filter test of records that list `key` as a prerequisite. */
  function Lists(key: string): Course -> bool {
    (c: Course) => key in c.prerequisites
  }

  function CodesOf(cs: seq<Course>): (r: seq<string>)
    ensures |r| == |cs|
    ensures forall i :: 0 <= i < |cs| ==> r[i] == cs[i].code
  {
    if cs == [] then [] else [cs[0].code] + CodesOf(cs[1..])
  }

  /** `ps.map(p => find(p)).filter(Boolean)`: each code in `ps` that some record
      carries is replaced by the first such record, and the others are dropped.
      The codes of the result are exactly the resolvable codes of `ps`, in order. */
  function Resolve(fs: seq<Course>, ps: seq<string>): (r: seq<Course>)
    ensures |r| <= |ps|
    ensures CodesOf(r) == Filter(ps, Resolvable(fs))
    ensures forall k :: 0 <= k < |r| ==> r[k] in fs
  {
    if ps == [] then []
    else match Find(fs, ps[0])
      case None => Resolve(fs, ps[1..])
      case Some(j) => [fs[j]] + Resolve(fs, ps[1..])
  }

  /** `getSubjectPrerequisites`: the records that the course with code `code`
      lists as prerequisites; [] when no record has that code. */
  function GetSubjectPrerequisites(cat: seq<Subject>, code: string): (r: seq<Course>)
    ensures (forall j :: 0 <= j < |cat| ==> Normalize(cat[j].code) != Normalize(code)) ==> r == []
    ensures forall k :: 0 <= k < |r| ==> r[k] in FormattedSubjects(cat)
  {
    var fs := FormattedSubjects(cat);
    match Find(fs, Normalize(code))
    case None => []
    case Some(i) => Resolve(fs, fs[i].prerequisites)
  }

  /** `getSubsequentCourses`: the formatted records that list `code`, normalised,
      among their normalised prerequisites. */
  function GetSubsequentCourses(cat: seq<Subject>, code: string): (r: seq<Course>)
    ensures |r| <= |cat|
    ensures forall k :: 0 <= k < |r| ==> Normalize(code) in r[k].prerequisites
  {
    var key := Normalize(code);
    Filter(FormattedSubjects(cat), Lists(key))
  }

  /** The search filter: lower-cased code or lower-cased name contains `term`. */
  predicate Matches(c: Course, term: string) {
    Contains(ToLower(c.code), term) || Contains(ToLower(c.name), term)
  }

  function MatchesTerm(term: string): Course -> bool {
    (c: Course) => Matches(c, term)
  }

  /** `handleSearchChange` and `handleSearch`: a blank term gives no results;
      otherwise the formatted records matching the lower-cased, untrimmed term. */
  function Search(cat: seq<Subject>, value: string): (r: seq<Course>)
    ensures |r| <= |cat|
    ensures AllSpace(value) ==> r == []
    ensures forall k :: 0 <= k < |r| ==> Matches(r[k], ToLower(value))
  {
    TrimEmptyIffAllSpace(value);
    if Trim(value) == [] then []
    else
      var term := ToLower(value);
      Filter(FormattedSubjects(cat), MatchesTerm(term))
  }

  // ---------------------------------------------------------------------------
  // Properties of the queries

  /** No two records have the same normalised code. */
  predicate UniqueCodes(cat: seq<Subject>) {
    forall i, j :: 0 <= i < j < |cat| ==> Normalize(cat[i].code) != Normalize(cat[j].code)
  }

  /** No two formatted records have the same code. */
  predicate DistinctCodes(fs: seq<Course>) {
    forall i, j :: 0 <= i < j < |fs| ==> fs[i].code != fs[j].code
  }

  /** Formatting a catalog with unique normalised codes gives distinct codes. */
  lemma FormattedDistinct(cat: seq<Subject>)
    requires UniqueCodes(cat)
    ensures DistinctCodes(FormattedSubjects(cat))
  {
    var fs := FormattedSubjects(cat);
    forall i, j | 0 <= i < j < |fs|
      ensures fs[i].code != fs[j].code
    {
      assert fs[i].code == Normalize(cat[i].code);
      assert fs[j].code == Normalize(cat[j].code);
    }
  }

  /** With distinct codes, `find` returns the one record carrying the code. */
  lemma FindDistinct(fs: seq<Course>, b: nat)
    requires DistinctCodes(fs) && b < |fs|
    ensures Find(fs, fs[b].code) == Some(b)
  {
  }

  lemma FindUnique(cat: seq<Subject>, b: nat)
    requires UniqueCodes(cat) && b < |cat|
    ensures Find(FormattedSubjects(cat), Normalize(cat[b].code)) == Some(b)
  {
    var fs := FormattedSubjects(cat);
    FormattedDistinct(cat);
    assert fs[b].code == Normalize(cat[b].code);
    FindDistinct(fs, b);
  }

  /** A record in the resolved list was named in `ps`; with unique codes, every
      record named in `ps` is in the resolved list. */
  lemma {:induction false} ResolveMembership(fs: seq<Course>, ps: seq<string>, x: Course)
    requires DistinctCodes(fs)
    requires x in fs
    ensures x in Resolve(fs, ps) <==> x.code in ps
    decreases |ps|
  {
    if ps != [] {
      ResolveMembership(fs, ps[1..], x);
      assert ps == [ps[0]] + ps[1..];
      match Find(fs, ps[0])
      case None =>
      case Some(j) =>
        var a :| 0 <= a < |fs| && fs[a] == x;
        if x.code == ps[0] {
          assert fs[j].code == fs[a].code;
          assert a == j;
        }
    }
  }

  /** The prerequisites found for a record are the formatted records whose codes
      it lists, in the order it lists them; unresolvable codes are dropped, so
      there are no more of them than declared codes. */
  lemma PrerequisitesInDeclaredOrder(cat: seq<Subject>, code: string, i: nat)
    requires Find(FormattedSubjects(cat), Normalize(code)) == Some(i)
    ensures var fs := FormattedSubjects(cat);
      && CodesOf(GetSubjectPrerequisites(cat, code)) == Filter(fs[i].prerequisites, Resolvable(fs))
      && |GetSubjectPrerequisites(cat, code)| <= |cat[i].prerequisites|
  {
  }

  /** B is among the courses that require A exactly when A is among the
      prerequisites of B. */
  lemma Duality(cat: seq<Subject>, a: nat, b: nat)
    requires UniqueCodes(cat) && a < |cat| && b < |cat|
    ensures var fs := FormattedSubjects(cat);
      (fs[b] in GetSubsequentCourses(cat, cat[a].code)) <==>
      (fs[a] in GetSubjectPrerequisites(cat, cat[b].code))
  {
    var fs := FormattedSubjects(cat);
    var key := Normalize(cat[a].code);
    FilterMembership(fs, Lists(key), fs[b]);
    FindUnique(cat, b);
    FormattedDistinct(cat);
    assert fs[a].code == key;
    ResolveMembership(fs, fs[b].prerequisites, fs[a]);
  }

  /** The courses that require `code` are exactly the formatted records listing
      it, kept in catalog order. */
  lemma SubsequentMembership(cat: seq<Subject>, code: string, c: Course)
    ensures c in GetSubsequentCourses(cat, code)
      <==> c in FormattedSubjects(cat) && Normalize(code) in c.prerequisites
    ensures IsSubseq(GetSubsequentCourses(cat, code), FormattedSubjects(cat))
  {
    var key := Normalize(code);
    FilterMembership(FormattedSubjects(cat), Lists(key), c);
    FilterIsSubseq(FormattedSubjects(cat), Lists(key));
  }

  /** A term that is not blank finds exactly the formatted records whose
      lower-cased code or name contains the lower-cased term, in catalog order. */
  lemma SearchMembership(cat: seq<Subject>, value: string, c: Course)
    requires !AllSpace(value)
    ensures c in Search(cat, value) <==> c in FormattedSubjects(cat) && Matches(c, ToLower(value))
    ensures IsSubseq(Search(cat, value), FormattedSubjects(cat))
  {
    TrimEmptyIffAllSpace(value);
    var term := ToLower(value);
    FilterMembership(FormattedSubjects(cat), MatchesTerm(term), c);
    FilterIsSubseq(FormattedSubjects(cat), MatchesTerm(term));
  }

  // ---------------------------------------------------------------------------
  // The concrete table

  lemma TableUniqueCodes()
    ensures UniqueCodes(Table)
  {
    CodesUnique();
    CodesNormal();
    forall i | 0 <= i < |Table|
      ensures Normalize(Table[i].code) == Table[i].code
    {
      NormalizeOfNormal(Table[i].code);
    }
  }

  /** On the site's own table, the forward and reverse lookups are dual. */
  lemma TableDuality(a: nat, b: nat)
    requires a < |Table| && b < |Table|
    ensures var fs := FormattedSubjects(Table);
      (fs[b] in GetSubsequentCourses(Table, Table[a].code)) <==>
      (fs[a] in GetSubjectPrerequisites(Table, Table[b].code))
  {
    TableUniqueCodes();
    Duality(Table, a, b);
  }

  /** Every code and prerequisite code of `cat` is in normal form. */
  predicate NormalCodes(cat: seq<Subject>) {
    forall i :: 0 <= i < |cat| ==>
      IsNormal(cat[i].code) &&
      forall k :: 0 <= k < |cat[i].prerequisites| ==> IsNormal(cat[i].prerequisites[k])
  }

  /** When codes are already in normal form, formatting leaves them as they are. */
  lemma FormattingKeepsNormalCodes(cat: seq<Subject>)
    requires NormalCodes(cat)
    ensures forall i :: 0 <= i < |cat| ==>
      FormattedSubjects(cat)[i].code == cat[i].code &&
      FormattedSubjects(cat)[i].prerequisites == cat[i].prerequisites
  {
    var fs := FormattedSubjects(cat);
    forall i | 0 <= i < |cat|
      ensures fs[i].code == cat[i].code && fs[i].prerequisites == cat[i].prerequisites
    {
      assert fs[i] == Format(cat[i]);
      NormalizeOfNormal(cat[i].code);
      forall k | 0 <= k < |cat[i].prerequisites|
        ensures NormalizeAll(cat[i].prerequisites)[k] == cat[i].prerequisites[k]
      {
        NormalizeOfNormal(cat[i].prerequisites[k]);
      }
    }
  }

  /** A course whose only prerequisite code is carried by no record has no
      prerequisites to show. */
  lemma DanglingDropped(cat: seq<Subject>, b: nat, code: string, d: string)
    requires UniqueCodes(cat) && NormalCodes(cat) && b < |cat|
    requires Normalize(code) == Normalize(cat[b].code)
    requires cat[b].prerequisites == [d]
    requires forall j :: 0 <= j < |cat| ==> cat[j].code != d
    ensures GetSubjectPrerequisites(cat, code) == []
  {
    var fs := FormattedSubjects(cat);
    FormattingKeepsNormalCodes(cat);
    FindUnique(cat, b);
    assert fs[b].prerequisites == [d];
    assert !HasCode(fs, d) by {
      forall j | 0 <= j < |fs|
        ensures fs[j].code != d
      {
        assert fs[j].code == cat[j].code;
      }
    }
    var r := Resolve(fs, [d]);
    assert Filter([d], Resolvable(fs)) == [] by {
      assert [d][1..] == [];
    }
    assert |CodesOf(r)| == 0;
    assert GetSubjectPrerequisites(cat, code) == r;
  }

  lemma TableNormalCodes()
    ensures NormalCodes(Table)
  {
    CodesNormal();
  }

  /** On the table, formatting leaves every code and prerequisite code as it is. */
  lemma TableFormattingKeepsCodes()
    ensures forall i :: 0 <= i < |Table| ==>
      FormattedSubjects(Table)[i].code == Table[i].code &&
      FormattedSubjects(Table)[i].prerequisites == Table[i].prerequisites
  {
    TableNormalCodes();
    FormattingKeepsNormalCodes(Table);
  }

  /** Both lookups see only the normalised query: surrounding white space and
      the case of letters in the typed code make no difference. */
  lemma QueryNormalized(cat: seq<Subject>, code: string)
    ensures GetSubjectPrerequisites(cat, code) == GetSubjectPrerequisites(cat, Normalize(code))
    ensures GetSubsequentCourses(cat, code) == GetSubsequentCourses(cat, Normalize(code))
  {
    NormalizeIdempotent(code);
  }

  /** The dangling prerequisite is tolerated: CPE0005 lists only "COE0005L",
      which no record carries, so its prerequisite list comes out empty, whatever
      the case and surrounding white space of the query. */
  lemma DanglingPrerequisiteDropped(code: string)
    requires Normalize(code) == Table[30].code
    ensures GetSubjectPrerequisites(Table, code) == []
  {
    DanglingPrerequisite();
    TableUniqueCodes();
    TableNormalCodes();
    NormalizeOfNormal(Table[30].code);
    DanglingDropped(Table, 30, code, "COE0005L");
  }
}
