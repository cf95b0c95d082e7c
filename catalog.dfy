/**
 * The course table of the BS Computer Engineering curriculum: one record per
 * course, in the order of the source table. It is written as one constant per
 * year-and-semester block (following the block comments of the source table)
 * so that the facts below can be checked block by block; `Table` is their
 * concatenation and is the only name the rest of the model uses.
 */
module Catalog {
  import opened Text
  import opened Seqs

  /** A course record. Every field is a string, as in the source interface. */
  datatype Subject = Subject(
    code: string,
    name: string,
    units: string,
    year: string,
    semester: string,
    grade: string,
    prerequisites: seq<string>)

  // Year1Sem1, lines 14-21 of the source table
  const Year1Sem1: seq<Subject> := [
    Subject("COE0001", "ENGINEERING MATHEMATICS 1", "3", "1", "1", "", []),
    Subject("COE0003", "ENGINEERING MATHEMATICS 2", "3", "1", "1", "", []),
    Subject("COE0005", "CHEMISTRY FOR ENGINEERS 1", "3", "1", "1", "", []),
    Subject("GED0001", "SPECIALIZED ENGLISH PROGRAM 1", "3", "1", "1", "", []),
    Subject("GED0004", "PHYSICAL EDUCATION 1", "3", "1", "1", "", []),
    Subject("GED0006", "PERSONAL AND PROFESSIONAL EFFECTIVENESS", "2", "1", "1", "", []),
    Subject("GED0007", "ART APPRECIATION", "3", "1", "1", "", []),
    Subject("NSTP1", "CIVIC WELFARE TRAINING SERVICE 1", "0", "1", "1", "", [])
  ]

  // Year1Sem2, lines 24-31 of the source table
  const Year1Sem2: seq<Subject> := [
    Subject("COE0007", "CALCULUS 1", "3", "1", "2", "", ["COE0001", "COE0003"]),
    Subject("COE0009", "PHYSICS FOR ENGINEERS 1 (LEC)", "2", "1", "2", "", ["COE0001", "COE0003"]),
    Subject("GED0015", "PHYSICAL EDUCATION 2", "3", "1", "2", "", ["GED0004"]),
    Subject("GED0019", "UNDERSTANDING THE SELF", "3", "1", "2", "", []),
    Subject("GED0021", "SPECIALIZED ENGLISH PROGRAM 2", "3", "1", "2", "", ["GED0001"]),
    Subject("GED0027", "MATHEMATICS IN THE MODERN WORLD", "3", "1", "2", "", []),
    Subject("GED0085", "GENDER AND SOCIETY", "3", "1", "2", "", []),
    Subject("COE0009L", "PHYSICS FOR ENGINEERS 1 (LAB)", "1", "1", "2", "", ["COE0001", "COE0003"])
  ]

  // Year1Sem3, lines 34-42 of the source table
  const Year1Sem3: seq<Subject> := [
    Subject("COE0011", "ENGINEERING DATA ANALYSIS", "3", "1", "3", "", ["COE0007"]),
    Subject("COE0013", "CALCULUS 2", "3", "1", "3", "", ["COE0007"]),
    Subject("COE0015", "PHYSICS FOR ENGINEERS 2 (LEC)", "2", "1", "3", "", ["COE0009", "COE0007"]),
    Subject("COE0017", "CHEMISTRY FOR ENGINEERS 2 (LEC)", "2", "1", "3", "", ["COE0005"]),
    Subject("GED0023", "PHYSICAL EDUCATION 3", "3", "1", "3", "", ["GED0015"]),
    Subject("GED0031", "PURPOSIVE COMMUNICATION", "3", "1", "3", "", ["GED0021"]),
    Subject("NSTP2", "CIVIC WELFARE TRAINING SERVICE 2", "0", "1", "3", "", []),
    Subject("COE0015L", "PHYSICS FOR ENGINEERS 2 (LAB)", "1", "1", "3", "", ["COE0009", "COE0007"]),
    Subject("COE0017L", "CHEMISTRY FOR ENGINEERS 2 (LAB)", "1", "1", "3", "", [])
  ]

  // Year2Sem1, lines 45-53 of the source table
  const Year2Sem1: seq<Subject> := [
    Subject("COE0019", "DIFFERENTIAL EQUATIONS", "3", "2", "1", "", ["COE0013"]),
    Subject("COE0025L", "COMPUTER AIDED DRAFTING", "1", "2", "1", "", []),
    Subject("CPE0001", "COMPUTER ENGINEERING AS A DISCIPLINE", "1", "2", "1", "", ["GED0006"]),
    Subject("CPE0003L", "Programming Logic and Design", "2", "2", "1", "", []),
    Subject("CPE0004L", "COMPUTER HARDWARE FUNDAMENTALS", "1", "2", "1", "", []),
    Subject("CPE0005", "FUNDAMENTALS OF ELECTRICAL CIRCUITS (LEC)", "3", "2", "1", "", ["COE0005L"]),
    Subject("GED0009", "READINGS IN PHILIPPINE HISTORY", "3", "2", "1", "", []),
    Subject("GED0035", "THE CONTEMPORARY WORLD", "3", "2", "1", "", []),
    Subject("CPE0005L", "FUNDAMENTALS OF ELECTRICAL CIRCUITS (LAB)", "1", "2", "1", "", ["COE0005L"])
  ]

  // Year2Sem2, lines 56-63 of the source table
  const Year2Sem2: seq<Subject> := [
    Subject("COE0020", "G.E. ELECTIVE - BIOENGINEERING", "3", "2", "2", "", []),
    Subject("CPE0007L", "Computer Programming for CpE", "1", "2", "2", "", ["CPE0003L"]),
    Subject("CPE0009", "DISCRETE MATHEMATICS FOR CPE", "3", "2", "2", "", ["COE0011"]),
    Subject("CPE0011", "FUNDAMENTALS OF ELECTRONIC CIRCUITS (LEC)", "3", "2", "2", "", ["CPE0005"]),
    Subject("CPE0013", "NUMERICAL METHODS FOR CPE", "3", "2", "2", "", ["COE0019"]),
    Subject("GED0011", "SCIENCE, TECHNOLOGY AND SOCIETY", "3", "2", "2", "", []),
    Subject("GED0043", "SPECIALIZED ENGLISH PROGRAM 3", "3", "2", "2", "", ["GED0031"]),
    Subject("CPE0011L", "FUNDAMENTALS OF ELECTRONIC CIRCUITS (LAB)", "1", "2", "2", "", ["CPE0005"])
  ]

  // Year2Sem3, lines 66-73 of the source table
  const Year2Sem3: seq<Subject> := [
    Subject("COE0039", "ENGINEERING ECONOMICS", "3", "2", "3", "", ["COE0011"]),
    Subject("CPE0015L", "COMPUTER ENGINEERING DRAFTING AND DESIGN", "1", "2", "3", "", ["CPE0011"]),
    Subject("CPE0017L", "OBJECT ORIENTED PROGRAMMING", "2", "2", "3", "", ["CPE0007L"]),
    Subject("CPE0019", "FUNDAMENTALS OF MIXED SIGNALS AND SENSORS", "3", "2", "3", "", ["CPE0011"]),
    Subject("CPE0021", "LOGIC CIRCUITS AND DESIGN (LEC)", "3", "2", "3", "", ["CPE0011"]),
    Subject("CPE0023", "DATA AND DIGITAL COMMUNICATION", "3", "2", "3", "", ["CPE0011"]),
    Subject("CPE0025", "FEEDBACK AND CONTROL SYSTEM", "3", "2", "3", "", ["CPE0005", "CPE0013"]),
    Subject("CPE0021L", "LOGIC CIRCUITS AND DESIGN (LAB)", "1", "2", "3", "", ["CPE0011"])
  ]

  // Year3Sem1, lines 76-84 of the source table
  const Year3Sem1: seq<Subject> := [
    Subject("COE0049", "ENGINEERING MANAGEMENT", "2", "3", "1", "", ["COE0039"]),
    Subject("COE0057", "DESIGN THINKING FOR ENGINEERS", "3", "3", "1", "", []),
    Subject("CPE0027L", "Introduction to HDL", "1", "3", "1", "", ["CPE0021"]),
    Subject("CPE0029", "MICROPROCESSORS (LEC)", "3", "3", "1", "", ["CPE0021"]),
    Subject("CPE0031", "COMPUTER NETWORKS AND SECURITY (LEC)", "3", "3", "1", "", ["CPE0023"]),
    Subject("CPE0071", "TECHNICAL ELECTIVE FOR CPE", "2", "3", "1", "", ["CPE0021"]),
    Subject("GED0049", "LIFE AND WORKS OF RIZAL", "3", "3", "1", "", []),
    Subject("CPE0029L", "MICROPROCESSORS (LAB)", "1", "3", "1", "", ["CPE0021"]),
    Subject("CPE0031L", "COMPUTER NETWORKS AND SECURITY (LAB)", "1", "3", "1", "", ["CPE0023"])
  ]

  // Year3Sem2, lines 87-94 of the source table
  const Year3Sem2: seq<Subject> := [
    Subject("COE0059", "TECHNOPRENEURSHIP FOR ENGINEERS", "3", "3", "2", "", ["COE0049", "COE0057"]),
    Subject("CPE0033L", "DATA STRUCTURES AND ALGORITHMS FOR CPE", "2", "3", "2", "", ["CPE0017L"]),
    Subject("CPE0035", "EMBEDDED SYSTEMS (LEC)", "3", "3", "2", "", ["CPE0029"]),
    Subject("CPE0035L", "EMBEDDED SYSTEMS (LAB)", "1", "3", "2", "", ["CPE0029"]),
    Subject("CPE0037", "COMPUTER ARCHITECTURE AND ORGANIZATION (LEC)", "3", "3", "2", "", ["CPE0029"]),
    Subject("CPE0039L", "Introduction to Database", "1", "3", "2", "", ["CPE0017L"]),
    Subject("CPE0041", "COGNATE/TRACK COURSE 1", "3", "3", "2", "", ["CPE0031"]),
    Subject("CPE0043", "Methods of Research for CPE", "2", "3", "2", "", ["CPE0029", "GED0043", "COE0049"])
  ]

  // Year3Sem3, lines 97-105 of the source table
  const Year3Sem3: seq<Subject> := [
    Subject("CPE0045L", "CpE Practice and Design 1", "1", "3", "2", "", ["CPE0043", "COE0059"]),
    Subject("CPE0047", "OPERATING SYSTEMS (LEC)", "3", "3", "3", "", ["CPE0037"]),
    Subject("CPE0047L", "OPERATING SYSTEMS (LAB)", "1", "3", "3", "", ["CPE0037"]),
    Subject("CPE0049", "SOFTWARE DESIGN (LEC)", "3", "3", "3", "", ["CPE0033L"]),
    Subject("CPE0049L", "SOFTWARE DESIGN (LAB)", "1", "3", "3", "", ["CPE0033L"]),
    Subject("CPE0051", "EMERGING TECHNOLOGIES IN CPE", "3", "3", "3", "", ["CPE0029"]),
    Subject("CPE0053L", "Seminars and Field Trips", "1", "3", "3", "", ["CPE0029"]),
    Subject("CPE0055", "COGNATE/TRACK COURSE 2", "3", "3", "3", "", ["CPE0041"]),
    Subject("GED0047", "FOREIGN LANGUAGE", "3", "3", "3", "", [])
  ]

  // Year4Sem1, lines 108-115 of the source table
  const Year4Sem1: seq<Subject> := [
    Subject("COE0061", "PROFESSIONAL DEVELOPMENT FOR ENGINEERS", "1", "4", "1", "", ["CPE0001"]),
    Subject("CPE0057L", "CPE PRACTICE AND DESIGN 2", "2", "4", "1", "", ["CPE0045L"]),
    Subject("CPE0059", "DIGITAL SIGNAL PROCESSING (LEC)", "3", "4", "1", "", ["CPE0025"]),
    Subject("CPE0061", "CPE LAWS AND PROFESSIONAL PRACTICE", "2", "4", "1", "", ["CPE0051"]),
    Subject("CPE0063", "BASIC OCCUPATIONAL HEALTH AND SAFETY", "3", "4", "1", "", ["CPE0051"]),
    Subject("CPE0065", "COGNATE/TRACK COURSE 3", "3", "4", "1", "", ["CPE0055"]),
    Subject("GED0061", "ETHICS", "3", "4", "1", "", []),
    Subject("CPE0059L", "DIGITAL SIGNAL PROCESSING (LAB)", "1", "4", "1", "", ["CPE0025"])
  ]

  // Year4Sem2, lines 119-119 of the source table
  const Year4Sem2: seq<Subject> := [
    Subject("CPE0067", "INTERNSHIP 1 FOR CPE", "9", "4", "2", "", ["CPE0031", "CPE0061"])
  ]

  // Year4Sem3, lines 122-122 of the source table
  const Year4Sem3: seq<Subject> := [
    Subject("CPE0069", "Internship 2 for CpE", "9", "4", "3", "", ["CPE0067"])
  ]

  /** The blocks of each year, and the whole table, in source order. */
  const Year1: seq<Subject> := Year1Sem1 + Year1Sem2 + Year1Sem3
  const Year2: seq<Subject> := Year2Sem1 + Year2Sem2 + Year2Sem3
  const Year3: seq<Subject> := Year3Sem1 + Year3Sem2 + Year3Sem3
  const Year4: seq<Subject> := Year4Sem1 + Year4Sem2 + Year4Sem3
  const Table: seq<Subject> := (Year1 + Year2) + (Year3 + Year4)

  predicate IsYear(s: string) {
    s == "1" || s == "2" || s == "3" || s == "4"
  }

  predicate IsSemester(s: string) {
    s == "1" || s == "2" || s == "3"
  }

  /** The filter test "belongs to this year and semester", compared as text. */
  function InTerm(year: string, semester: string): Subject -> bool {
    (s: Subject) => s.year == year && s.semester == semester
  }

  /** The records of one year and semester, in catalog order. */
  function TermRecords(cat: seq<Subject>, year: string, semester: string): seq<Subject> {
    Filter(cat, InTerm(year, semester))
  }

  /** A one-digit non-negative integer literal. */
  predicate IsUnitsLiteral(s: string) {
    |s| == 1 && IsDigit(s[0])
  }

  // ---------------------------------------------------------------------------
  // Proof columns. `CodeAt(i)` is the code of row i. For every prerequisite of
  // a row, the `...Links` constants give the row that carries that code, or -1
  // when no row does.

  ghost function CodeAt(i: nat): string {
    match i
    case 0 => "COE0001" case 1 => "COE0003" case 2 => "COE0005" case 3 => "GED0001"
    case 4 => "GED0004" case 5 => "GED0006" case 6 => "GED0007" case 7 => "NSTP1"
    case 8 => "COE0007" case 9 => "COE0009" case 10 => "GED0015" case 11 => "GED0019"
    case 12 => "GED0021" case 13 => "GED0027" case 14 => "GED0085" case 15 => "COE0009L"
    case 16 => "COE0011" case 17 => "COE0013" case 18 => "COE0015" case 19 => "COE0017"
    case 20 => "GED0023" case 21 => "GED0031" case 22 => "NSTP2" case 23 => "COE0015L"
    case 24 => "COE0017L" case 25 => "COE0019" case 26 => "COE0025L" case 27 => "CPE0001"
    case 28 => "CPE0003L" case 29 => "CPE0004L" case 30 => "CPE0005" case 31 => "GED0009"
    case 32 => "GED0035" case 33 => "CPE0005L" case 34 => "COE0020" case 35 => "CPE0007L"
    case 36 => "CPE0009" case 37 => "CPE0011" case 38 => "CPE0013" case 39 => "GED0011"
    case 40 => "GED0043" case 41 => "CPE0011L" case 42 => "COE0039" case 43 => "CPE0015L"
    case 44 => "CPE0017L" case 45 => "CPE0019" case 46 => "CPE0021" case 47 => "CPE0023"
    case 48 => "CPE0025" case 49 => "CPE0021L" case 50 => "COE0049" case 51 => "COE0057"
    case 52 => "CPE0027L" case 53 => "CPE0029" case 54 => "CPE0031" case 55 => "CPE0071"
    case 56 => "GED0049" case 57 => "CPE0029L" case 58 => "CPE0031L" case 59 => "COE0059"
    case 60 => "CPE0033L" case 61 => "CPE0035" case 62 => "CPE0035L" case 63 => "CPE0037"
    case 64 => "CPE0039L" case 65 => "CPE0041" case 66 => "CPE0043" case 67 => "CPE0045L"
    case 68 => "CPE0047" case 69 => "CPE0047L" case 70 => "CPE0049" case 71 => "CPE0049L"
    case 72 => "CPE0051" case 73 => "CPE0053L" case 74 => "CPE0055" case 75 => "GED0047"
    case 76 => "COE0061" case 77 => "CPE0057L" case 78 => "CPE0059" case 79 => "CPE0061"
    case 80 => "CPE0063" case 81 => "CPE0065" case 82 => "GED0061" case 83 => "CPE0059L"
    case 84 => "CPE0067" case 85 => "CPE0069"
    case _ => ""
  }

  ghost const Year1Sem1Links: seq<seq<int>> := [[], [], [], [], [], [], [], []]
  ghost const Year1Sem2Links: seq<seq<int>> := [[0, 1], [0, 1], [4], [], [3], [], [], [0, 1]]
  ghost const Year1Sem3Links: seq<seq<int>> := [[8], [8], [9, 8], [2], [10], [12], [], [9, 8], []]
  ghost const Year2Sem1Links: seq<seq<int>> := [[17], [], [5], [], [], [-1], [], [], [-1]]
  ghost const Year2Sem2Links: seq<seq<int>> := [[], [28], [16], [30], [25], [], [21], [30]]
  ghost const Year2Sem3Links: seq<seq<int>> := [[16], [37], [35], [37], [37], [37], [30, 38], [37]]
  ghost const Year3Sem1Links: seq<seq<int>> := [[42], [], [46], [46], [47], [46], [], [46], [47]]
  ghost const Year3Sem2Links: seq<seq<int>> := [[50, 51], [44], [53], [53], [53], [44], [54], [53, 40, 50]]
  ghost const Year3Sem3Links: seq<seq<int>> := [[66, 59], [63], [63], [60], [60], [53], [53], [65], []]
  ghost const Year4Sem1Links: seq<seq<int>> := [[27], [67], [48], [72], [72], [74], [], [48]]
  ghost const Year4Sem2Links: seq<seq<int>> := [[54, 79]]
  ghost const Year4Sem3Links: seq<seq<int>> := [[84]]

  ghost const Year1Links: seq<seq<int>> := Year1Sem1Links + Year1Sem2Links + Year1Sem3Links
  ghost const Year2Links: seq<seq<int>> := Year2Sem1Links + Year2Sem2Links + Year2Sem3Links
  ghost const Year3Links: seq<seq<int>> := Year3Sem1Links + Year3Sem2Links + Year3Sem3Links
  ghost const Year4Links: seq<seq<int>> := Year4Sem1Links + Year4Sem2Links + Year4Sem3Links

  ghost const Links: seq<seq<int>> := (Year1Links + Year2Links) + (Year3Links + Year4Links)

  /** Prerequisite `p` of row `i` is either the one dangling code, or the code of
      the earlier row `j`. */
  ghost predicate LinkOk(p: string, j: int, i: int) {
    (j == -1 && p == "COE0005L") || (0 <= j < i && p == CodeAt(j))
  }

  ghost predicate RowOk(s: Subject, links: seq<int>, i: nat) {
    && s.code == CodeAt(i)
    && IsYear(s.year) && IsSemester(s.semester) && s.grade == ""
    && IsUnitsLiteral(s.units) && (s.units == "0" <==> i == 7 || i == 22)
    && |links| == |s.prerequisites|
    && forall k :: 0 <= k < |s.prerequisites| ==> LinkOk(s.prerequisites[k], links[k], i)
  }

  ghost predicate ChunkOk(chunk: seq<Subject>, links: seq<seq<int>>, offset: nat) {
    |links| == |chunk| &&
    forall m :: 0 <= m < |chunk| ==> RowOk(chunk[m], links[m], offset + m)
  }

  lemma Year1Sem1Codes()
    ensures forall m :: 0 <= m < |Year1Sem1| ==> Year1Sem1[m].code == CodeAt(m)
  {}

  lemma Year1Sem1Fields()
    ensures forall m :: 0 <= m < |Year1Sem1| ==>
      && IsYear(Year1Sem1[m].year) && IsSemester(Year1Sem1[m].semester) && Year1Sem1[m].grade == ""
      && IsUnitsLiteral(Year1Sem1[m].units) && (Year1Sem1[m].units == "0" <==> m == 7 || m == 22)
  {}

  lemma Year1Sem1Prerequisites()
    ensures |Year1Sem1Links| == |Year1Sem1|
    ensures forall m :: 0 <= m < |Year1Sem1| ==>
      |Year1Sem1Links[m]| == |Year1Sem1[m].prerequisites| &&
      forall k :: 0 <= k < |Year1Sem1[m].prerequisites| ==>
        LinkOk(Year1Sem1[m].prerequisites[k], Year1Sem1Links[m][k], m)
  {}

  lemma Year1Sem1Ok()
    ensures |Year1Sem1| == 8 && ChunkOk(Year1Sem1, Year1Sem1Links, 0)
  {
    Year1Sem1Codes();
    Year1Sem1Fields();
    Year1Sem1Prerequisites();
  }

  lemma Year1Sem2Codes()
    ensures forall m :: 0 <= m < |Year1Sem2| ==> Year1Sem2[m].code == CodeAt(8 + m)
  {}

  lemma Year1Sem2Fields()
    ensures forall m :: 0 <= m < |Year1Sem2| ==>
      && IsYear(Year1Sem2[m].year) && IsSemester(Year1Sem2[m].semester) && Year1Sem2[m].grade == ""
      && IsUnitsLiteral(Year1Sem2[m].units) && (Year1Sem2[m].units == "0" <==> 8 + m == 7 || 8 + m == 22)
  {}

  lemma Year1Sem2Prerequisites()
    ensures |Year1Sem2Links| == |Year1Sem2|
    ensures forall m :: 0 <= m < |Year1Sem2| ==>
      |Year1Sem2Links[m]| == |Year1Sem2[m].prerequisites| &&
      forall k :: 0 <= k < |Year1Sem2[m].prerequisites| ==>
        LinkOk(Year1Sem2[m].prerequisites[k], Year1Sem2Links[m][k], 8 + m)
  {}

  lemma Year1Sem2Ok()
    ensures |Year1Sem2| == 8 && ChunkOk(Year1Sem2, Year1Sem2Links, 8)
  {
    Year1Sem2Codes();
    Year1Sem2Fields();
    Year1Sem2Prerequisites();
  }

  lemma Year1Sem3Codes()
    ensures forall m :: 0 <= m < |Year1Sem3| ==> Year1Sem3[m].code == CodeAt(16 + m)
  {}

  lemma Year1Sem3Fields()
    ensures forall m :: 0 <= m < |Year1Sem3| ==>
      && IsYear(Year1Sem3[m].year) && IsSemester(Year1Sem3[m].semester) && Year1Sem3[m].grade == ""
      && IsUnitsLiteral(Year1Sem3[m].units) && (Year1Sem3[m].units == "0" <==> 16 + m == 7 || 16 + m == 22)
  {}

  lemma Year1Sem3Prerequisites()
    ensures |Year1Sem3Links| == |Year1Sem3|
    ensures forall m :: 0 <= m < |Year1Sem3| ==>
      |Year1Sem3Links[m]| == |Year1Sem3[m].prerequisites| &&
      forall k :: 0 <= k < |Year1Sem3[m].prerequisites| ==>
        LinkOk(Year1Sem3[m].prerequisites[k], Year1Sem3Links[m][k], 16 + m)
  {}

  lemma Year1Sem3Ok()
    ensures |Year1Sem3| == 9 && ChunkOk(Year1Sem3, Year1Sem3Links, 16)
  {
    Year1Sem3Codes();
    Year1Sem3Fields();
    Year1Sem3Prerequisites();
  }

  lemma Year2Sem1Codes()
    ensures forall m :: 0 <= m < |Year2Sem1| ==> Year2Sem1[m].code == CodeAt(25 + m)
  {}

  lemma Year2Sem1Fields()
    ensures forall m :: 0 <= m < |Year2Sem1| ==>
      && IsYear(Year2Sem1[m].year) && IsSemester(Year2Sem1[m].semester) && Year2Sem1[m].grade == ""
      && IsUnitsLiteral(Year2Sem1[m].units) && (Year2Sem1[m].units == "0" <==> 25 + m == 7 || 25 + m == 22)
  {}

  lemma Year2Sem1Prerequisites()
    ensures |Year2Sem1Links| == |Year2Sem1|
    ensures forall m :: 0 <= m < |Year2Sem1| ==>
      |Year2Sem1Links[m]| == |Year2Sem1[m].prerequisites| &&
      forall k :: 0 <= k < |Year2Sem1[m].prerequisites| ==>
        LinkOk(Year2Sem1[m].prerequisites[k], Year2Sem1Links[m][k], 25 + m)
  {}

  lemma Year2Sem1Ok()
    ensures |Year2Sem1| == 9 && ChunkOk(Year2Sem1, Year2Sem1Links, 25)
  {
    Year2Sem1Codes();
    Year2Sem1Fields();
    Year2Sem1Prerequisites();
  }

  lemma Year2Sem2Codes()
    ensures forall m :: 0 <= m < |Year2Sem2| ==> Year2Sem2[m].code == CodeAt(34 + m)
  {}

  lemma Year2Sem2Fields()
    ensures forall m :: 0 <= m < |Year2Sem2| ==>
      && IsYear(Year2Sem2[m].year) && IsSemester(Year2Sem2[m].semester) && Year2Sem2[m].grade == ""
      && IsUnitsLiteral(Year2Sem2[m].units) && (Year2Sem2[m].units == "0" <==> 34 + m == 7 || 34 + m == 22)
  {}

  lemma Year2Sem2Prerequisites()
    ensures |Year2Sem2Links| == |Year2Sem2|
    ensures forall m :: 0 <= m < |Year2Sem2| ==>
      |Year2Sem2Links[m]| == |Year2Sem2[m].prerequisites| &&
      forall k :: 0 <= k < |Year2Sem2[m].prerequisites| ==>
        LinkOk(Year2Sem2[m].prerequisites[k], Year2Sem2Links[m][k], 34 + m)
  {}

  lemma Year2Sem2Ok()
    ensures |Year2Sem2| == 8 && ChunkOk(Year2Sem2, Year2Sem2Links, 34)
  {
    Year2Sem2Codes();
    Year2Sem2Fields();
    Year2Sem2Prerequisites();
  }

  lemma Year2Sem3Codes()
    ensures forall m :: 0 <= m < |Year2Sem3| ==> Year2Sem3[m].code == CodeAt(42 + m)
  {}

  lemma Year2Sem3Fields()
    ensures forall m :: 0 <= m < |Year2Sem3| ==>
      && IsYear(Year2Sem3[m].year) && IsSemester(Year2Sem3[m].semester) && Year2Sem3[m].grade == ""
      && IsUnitsLiteral(Year2Sem3[m].units) && (Year2Sem3[m].units == "0" <==> 42 + m == 7 || 42 + m == 22)
  {}

  lemma Year2Sem3Prerequisites()
    ensures |Year2Sem3Links| == |Year2Sem3|
    ensures forall m :: 0 <= m < |Year2Sem3| ==>
      |Year2Sem3Links[m]| == |Year2Sem3[m].prerequisites| &&
      forall k :: 0 <= k < |Year2Sem3[m].prerequisites| ==>
        LinkOk(Year2Sem3[m].prerequisites[k], Year2Sem3Links[m][k], 42 + m)
  {}

  lemma Year2Sem3Ok()
    ensures |Year2Sem3| == 8 && ChunkOk(Year2Sem3, Year2Sem3Links, 42)
  {
    Year2Sem3Codes();
    Year2Sem3Fields();
    Year2Sem3Prerequisites();
  }

  lemma Year3Sem1Codes()
    ensures forall m :: 0 <= m < |Year3Sem1| ==> Year3Sem1[m].code == CodeAt(50 + m)
  {}

  lemma Year3Sem1Fields()
    ensures forall m :: 0 <= m < |Year3Sem1| ==>
      && IsYear(Year3Sem1[m].year) && IsSemester(Year3Sem1[m].semester) && Year3Sem1[m].grade == ""
      && IsUnitsLiteral(Year3Sem1[m].units) && (Year3Sem1[m].units == "0" <==> 50 + m == 7 || 50 + m == 22)
  {}

  lemma Year3Sem1Prerequisites()
    ensures |Year3Sem1Links| == |Year3Sem1|
    ensures forall m :: 0 <= m < |Year3Sem1| ==>
      |Year3Sem1Links[m]| == |Year3Sem1[m].prerequisites| &&
      forall k :: 0 <= k < |Year3Sem1[m].prerequisites| ==>
        LinkOk(Year3Sem1[m].prerequisites[k], Year3Sem1Links[m][k], 50 + m)
  {}

  lemma Year3Sem1Ok()
    ensures |Year3Sem1| == 9 && ChunkOk(Year3Sem1, Year3Sem1Links, 50)
  {
    Year3Sem1Codes();
    Year3Sem1Fields();
    Year3Sem1Prerequisites();
  }

  lemma Year3Sem2Codes()
    ensures forall m :: 0 <= m < |Year3Sem2| ==> Year3Sem2[m].code == CodeAt(59 + m)
  {}

  lemma Year3Sem2Fields()
    ensures forall m :: 0 <= m < |Year3Sem2| ==>
      && IsYear(Year3Sem2[m].year) && IsSemester(Year3Sem2[m].semester) && Year3Sem2[m].grade == ""
      && IsUnitsLiteral(Year3Sem2[m].units) && (Year3Sem2[m].units == "0" <==> 59 + m == 7 || 59 + m == 22)
  {}

  lemma Year3Sem2Prerequisites()
    ensures |Year3Sem2Links| == |Year3Sem2|
    ensures forall m :: 0 <= m < |Year3Sem2| ==>
      |Year3Sem2Links[m]| == |Year3Sem2[m].prerequisites| &&
      forall k :: 0 <= k < |Year3Sem2[m].prerequisites| ==>
        LinkOk(Year3Sem2[m].prerequisites[k], Year3Sem2Links[m][k], 59 + m)
  {}

  lemma Year3Sem2Ok()
    ensures |Year3Sem2| == 8 && ChunkOk(Year3Sem2, Year3Sem2Links, 59)
  {
    Year3Sem2Codes();
    Year3Sem2Fields();
    Year3Sem2Prerequisites();
  }

  lemma Year3Sem3Codes()
    ensures forall m :: 0 <= m < |Year3Sem3| ==> Year3Sem3[m].code == CodeAt(67 + m)
  {}

  lemma Year3Sem3Fields()
    ensures forall m :: 0 <= m < |Year3Sem3| ==>
      && IsYear(Year3Sem3[m].year) && IsSemester(Year3Sem3[m].semester) && Year3Sem3[m].grade == ""
      && IsUnitsLiteral(Year3Sem3[m].units) && (Year3Sem3[m].units == "0" <==> 67 + m == 7 || 67 + m == 22)
  {}

  lemma Year3Sem3Prerequisites()
    ensures |Year3Sem3Links| == |Year3Sem3|
    ensures forall m :: 0 <= m < |Year3Sem3| ==>
      |Year3Sem3Links[m]| == |Year3Sem3[m].prerequisites| &&
      forall k :: 0 <= k < |Year3Sem3[m].prerequisites| ==>
        LinkOk(Year3Sem3[m].prerequisites[k], Year3Sem3Links[m][k], 67 + m)
  {}

  lemma Year3Sem3Ok()
    ensures |Year3Sem3| == 9 && ChunkOk(Year3Sem3, Year3Sem3Links, 67)
  {
    Year3Sem3Codes();
    Year3Sem3Fields();
    Year3Sem3Prerequisites();
  }

  lemma Year4Sem1Codes()
    ensures forall m :: 0 <= m < |Year4Sem1| ==> Year4Sem1[m].code == CodeAt(76 + m)
  {}

  lemma Year4Sem1Fields()
    ensures forall m :: 0 <= m < |Year4Sem1| ==>
      && IsYear(Year4Sem1[m].year) && IsSemester(Year4Sem1[m].semester) && Year4Sem1[m].grade == ""
      && IsUnitsLiteral(Year4Sem1[m].units) && (Year4Sem1[m].units == "0" <==> 76 + m == 7 || 76 + m == 22)
  {}

  lemma Year4Sem1Prerequisites()
    ensures |Year4Sem1Links| == |Year4Sem1|
    ensures forall m :: 0 <= m < |Year4Sem1| ==>
      |Year4Sem1Links[m]| == |Year4Sem1[m].prerequisites| &&
      forall k :: 0 <= k < |Year4Sem1[m].prerequisites| ==>
        LinkOk(Year4Sem1[m].prerequisites[k], Year4Sem1Links[m][k], 76 + m)
  {}

  lemma Year4Sem1Ok()
    ensures |Year4Sem1| == 8 && ChunkOk(Year4Sem1, Year4Sem1Links, 76)
  {
    Year4Sem1Codes();
    Year4Sem1Fields();
    Year4Sem1Prerequisites();
  }

  lemma Year4Sem2Codes()
    ensures forall m :: 0 <= m < |Year4Sem2| ==> Year4Sem2[m].code == CodeAt(84 + m)
  {}

  lemma Year4Sem2Fields()
    ensures forall m :: 0 <= m < |Year4Sem2| ==>
      && IsYear(Year4Sem2[m].year) && IsSemester(Year4Sem2[m].semester) && Year4Sem2[m].grade == ""
      && IsUnitsLiteral(Year4Sem2[m].units) && (Year4Sem2[m].units == "0" <==> 84 + m == 7 || 84 + m == 22)
  {}

  lemma Year4Sem2Prerequisites()
    ensures |Year4Sem2Links| == |Year4Sem2|
    ensures forall m :: 0 <= m < |Year4Sem2| ==>
      |Year4Sem2Links[m]| == |Year4Sem2[m].prerequisites| &&
      forall k :: 0 <= k < |Year4Sem2[m].prerequisites| ==>
        LinkOk(Year4Sem2[m].prerequisites[k], Year4Sem2Links[m][k], 84 + m)
  {}

  lemma Year4Sem2Ok()
    ensures |Year4Sem2| == 1 && ChunkOk(Year4Sem2, Year4Sem2Links, 84)
  {
    Year4Sem2Codes();
    Year4Sem2Fields();
    Year4Sem2Prerequisites();
  }

  lemma Year4Sem3Codes()
    ensures forall m :: 0 <= m < |Year4Sem3| ==> Year4Sem3[m].code == CodeAt(85 + m)
  {}

  lemma Year4Sem3Fields()
    ensures forall m :: 0 <= m < |Year4Sem3| ==>
      && IsYear(Year4Sem3[m].year) && IsSemester(Year4Sem3[m].semester) && Year4Sem3[m].grade == ""
      && IsUnitsLiteral(Year4Sem3[m].units) && (Year4Sem3[m].units == "0" <==> 85 + m == 7 || 85 + m == 22)
  {}

  lemma Year4Sem3Prerequisites()
    ensures |Year4Sem3Links| == |Year4Sem3|
    ensures forall m :: 0 <= m < |Year4Sem3| ==>
      |Year4Sem3Links[m]| == |Year4Sem3[m].prerequisites| &&
      forall k :: 0 <= k < |Year4Sem3[m].prerequisites| ==>
        LinkOk(Year4Sem3[m].prerequisites[k], Year4Sem3Links[m][k], 85 + m)
  {}

  lemma Year4Sem3Ok()
    ensures |Year4Sem3| == 1 && ChunkOk(Year4Sem3, Year4Sem3Links, 85)
  {
    Year4Sem3Codes();
    Year4Sem3Fields();
    Year4Sem3Prerequisites();
  }

  /** Two blocks that are correct at consecutive offsets make a correct block.
      The block sizes are given as numbers, so that callers about the table
      constants need no arithmetic on their lengths. */
  lemma PairOk(a: seq<Subject>, la: seq<seq<int>>, na: nat, b: seq<Subject>, lb: seq<seq<int>>, nb: nat, offset: nat)
    requires |a| == na && ChunkOk(a, la, offset)
    requires |b| == nb && ChunkOk(b, lb, offset + na)
    ensures |a + b| == na + nb && ChunkOk(a + b, la + lb, offset)
  {
    forall m | 0 <= m < na + nb
      ensures RowOk((a + b)[m], (la + lb)[m], offset + m)
    {
      if m >= na {
        assert (a + b)[m] == b[m - na] && (la + lb)[m] == lb[m - na];
      } else {
        assert (a + b)[m] == a[m] && (la + lb)[m] == la[m];
      }
    }
  }

  lemma Year1Ok()
    ensures |Year1| == 25 && ChunkOk(Year1, Year1Links, 0)
  {
    Year1Sem1Ok();
    Year1Sem2Ok();
    Year1Sem3Ok();
    PairOk(Year1Sem1, Year1Sem1Links, 8, Year1Sem2, Year1Sem2Links, 8, 0);
    PairOk(Year1Sem1 + Year1Sem2, Year1Sem1Links + Year1Sem2Links, 16, Year1Sem3, Year1Sem3Links, 9, 0);
  }

  lemma Year2Ok()
    ensures |Year2| == 25 && ChunkOk(Year2, Year2Links, 25)
  {
    Year2Sem1Ok();
    Year2Sem2Ok();
    Year2Sem3Ok();
    PairOk(Year2Sem1, Year2Sem1Links, 9, Year2Sem2, Year2Sem2Links, 8, 25);
    PairOk(Year2Sem1 + Year2Sem2, Year2Sem1Links + Year2Sem2Links, 17, Year2Sem3, Year2Sem3Links, 8, 25);
  }

  lemma Year3Ok()
    ensures |Year3| == 26 && ChunkOk(Year3, Year3Links, 50)
  {
    Year3Sem1Ok();
    Year3Sem2Ok();
    Year3Sem3Ok();
    PairOk(Year3Sem1, Year3Sem1Links, 9, Year3Sem2, Year3Sem2Links, 8, 50);
    PairOk(Year3Sem1 + Year3Sem2, Year3Sem1Links + Year3Sem2Links, 17, Year3Sem3, Year3Sem3Links, 9, 50);
  }

  lemma Year4Ok()
    ensures |Year4| == 10 && ChunkOk(Year4, Year4Links, 76)
  {
    Year4Sem1Ok();
    Year4Sem2Ok();
    Year4Sem3Ok();
    PairOk(Year4Sem1, Year4Sem1Links, 8, Year4Sem2, Year4Sem2Links, 1, 76);
    PairOk(Year4Sem1 + Year4Sem2, Year4Sem1Links + Year4Sem2Links, 9, Year4Sem3, Year4Sem3Links, 1, 76);
  }

  lemma FirstHalfOk()
    ensures |Year1 + Year2| == 50 && ChunkOk(Year1 + Year2, Year1Links + Year2Links, 0)
  {
    Year1Ok();
    Year2Ok();
    PairOk(Year1, Year1Links, 25, Year2, Year2Links, 25, 0);
  }

  lemma SecondHalfOk()
    ensures |Year3 + Year4| == 36 && ChunkOk(Year3 + Year4, Year3Links + Year4Links, 50)
  {
    Year3Ok();
    Year4Ok();
    PairOk(Year3, Year3Links, 26, Year4, Year4Links, 10, 50);
  }

  /** Every row of the table carries its code, well-formed fields and prerequisite
      links. */
  lemma TableOk()
    ensures |Table| == 86
    ensures ChunkOk(Table, Links, 0)
  {
    FirstHalfOk();
    SecondHalfOk();
    PairOk(Year1 + Year2, Year1Links + Year2Links, 50, Year3 + Year4, Year3Links + Year4Links, 36, 0);
  }

  // ---------------------------------------------------------------------------
  // Facts about the code column.

  lemma CodesDistinctFrom0()
    ensures forall i, j :: 0 <= i < 22 && i < j < 86 ==> CodeAt(i) != CodeAt(j)
  {}

  lemma CodesDistinctFrom22()
    ensures forall i, j :: 22 <= i < 43 && i < j < 86 ==> CodeAt(i) != CodeAt(j)
  {}

  lemma CodesDistinctFrom43()
    ensures forall i, j :: 43 <= i < 64 && i < j < 86 ==> CodeAt(i) != CodeAt(j)
  {}

  lemma CodesDistinctFrom64()
    ensures forall i, j :: 64 <= i < j < 86 ==> CodeAt(i) != CodeAt(j)
  {}

  lemma CodeAtInjective()
    ensures forall i, j :: 0 <= i < 86 && 0 <= j < 86 && CodeAt(i) == CodeAt(j) ==> i == j
  {
    CodesDistinctFrom0();
    CodesDistinctFrom22();
    CodesDistinctFrom43();
    CodesDistinctFrom64();
  }

  lemma CodeAtNormalFrom0()
    ensures forall i :: 0 <= i < 22 ==> IsNormal(CodeAt(i))
  {}

  lemma CodeAtNormalFrom22()
    ensures forall i :: 22 <= i < 43 ==> IsNormal(CodeAt(i))
  {}

  lemma CodeAtNormalFrom43()
    ensures forall i :: 43 <= i < 64 ==> IsNormal(CodeAt(i))
  {}

  lemma CodeAtNormalFrom64()
    ensures forall i :: 64 <= i < 86 ==> IsNormal(CodeAt(i))
  {}

  lemma CodeAtNormal()
    ensures forall i :: 0 <= i < 86 ==> IsNormal(CodeAt(i))
  {
    CodeAtNormalFrom0();
    CodeAtNormalFrom22();
    CodeAtNormalFrom43();
    CodeAtNormalFrom64();
  }

  lemma CodeAtNotDangling()
    ensures forall i :: 0 <= i < 86 ==> CodeAt(i) != "COE0005L"
  {}

  // ---------------------------------------------------------------------------
  // Facts about the table.

  /** No two records share a code. */
  lemma CodesUnique()
    ensures forall i, j :: 0 <= i < j < |Table| ==> Table[i].code != Table[j].code
  {
    TableOk();
    CodeAtInjective();
  }

  /** Years are "1".."4", semesters "1".."3", every grade is "", and every units
      value is a one-digit integer literal. */
  lemma FieldValues()
    ensures forall i :: 0 <= i < |Table| ==>
      && IsYear(Table[i].year) && IsSemester(Table[i].semester)
      && Table[i].grade == "" && IsUnitsLiteral(Table[i].units)
  {
    TableOk();
  }

  /** Exactly the two NSTP courses carry zero units. */
  lemma ZeroUnitsExactlyNstp()
    ensures forall i :: 0 <= i < |Table| ==>
      (Table[i].units == "0" <==> Table[i].code == "NSTP1" || Table[i].code == "NSTP2")
  {
    TableOk();
    CodeAtInjective();
    assert CodeAt(7) == "NSTP1" && CodeAt(22) == "NSTP2";
  }

  /** Every code, and every prerequisite code, is already trimmed and upper case,
      so the resolver's normalisation leaves it unchanged. */
  lemma CodesNormal()
    ensures forall i :: 0 <= i < |Table| ==> IsNormal(Table[i].code)
    ensures forall i, k :: 0 <= i < |Table| && 0 <= k < |Table[i].prerequisites| ==>
      IsNormal(Table[i].prerequisites[k])
  {
    TableOk();
    CodeAtNormal();
    assert IsNormal("COE0005L");
    forall i, k | 0 <= i < |Table| && 0 <= k < |Table[i].prerequisites|
      ensures IsNormal(Table[i].prerequisites[k])
    {
      assert LinkOk(Table[i].prerequisites[k], Links[i][k], i);
    }
  }

  /** CPE0005 and CPE0005L (lines 50 and 53 of the source table) both list
      "COE0005L", which is the code of no record. */
  lemma DanglingPrerequisite()
    ensures Table[30].code == "CPE0005" && Table[30].prerequisites == ["COE0005L"]
    ensures Table[33].code == "CPE0005L" && Table[33].prerequisites == ["COE0005L"]
    ensures forall i :: 0 <= i < |Table| ==> Table[i].code != "COE0005L"
  {
    TableOk();
    CodeAtNotDangling();
  }

  /** Every prerequisite code is either the one dangling code or the code of an
      earlier record. */
  lemma PrerequisitesResolveEarlier()
    ensures forall i, k :: 0 <= i < |Table| && 0 <= k < |Table[i].prerequisites| ==>
      Table[i].prerequisites[k] == "COE0005L" ||
      exists j :: 0 <= j < i && Table[j].code == Table[i].prerequisites[k]
  {
    TableOk();
    forall i, k | 0 <= i < |Table| && 0 <= k < |Table[i].prerequisites|
      ensures Table[i].prerequisites[k] == "COE0005L" ||
              exists j :: 0 <= j < i && Table[j].code == Table[i].prerequisites[k]
    {
      assert LinkOk(Table[i].prerequisites[k], Links[i][k], i);
      if Links[i][k] != -1 {
        assert Table[Links[i][k]].code == Table[i].prerequisites[k];
      }
    }
  }

  /** Record `i` of `cat` lists the code of record `j` among its prerequisites. */
  ghost predicate Requires(cat: seq<Subject>, i: int, j: int) {
    0 <= i < |cat| && 0 <= j < |cat| && cat[j].code in cat[i].prerequisites
  }

  /** In the table, a record only requires records that come before it. */
  lemma RequiresEarlier()
    ensures forall i, j :: Requires(Table, i, j) ==> j < i
  {
    TableOk();
    CodeAtInjective();
    CodeAtNotDangling();
    forall i, j | Requires(Table, i, j)
      ensures j < i
    {
      var k :| 0 <= k < |Table[i].prerequisites| && Table[i].prerequisites[k] == Table[j].code;
      assert LinkOk(Table[i].prerequisites[k], Links[i][k], i);
    }
  }

  /** No course lists itself as a prerequisite. */
  lemma NoSelfPrerequisite()
    ensures forall i :: 0 <= i < |Table| ==> Table[i].code !in Table[i].prerequisites
  {
    RequiresEarlier();
    forall i | 0 <= i < |Table|
      ensures Table[i].code !in Table[i].prerequisites
    {
      assert !Requires(Table, i, i);
    }
  }

  /** `path` follows prerequisite links of `cat`: each record requires the next one. */
  ghost predicate IsChain(cat: seq<Subject>, path: seq<int>) {
    forall n :: 0 <= n < |path| - 1 ==> Requires(cat, path[n], path[n + 1])
  }

  /** In a catalog whose records only require earlier records, following
      prerequisite links always moves to an earlier record ... */
  lemma {:induction false} ChainDescends(cat: seq<Subject>, path: seq<int>)
    requires forall i, j :: Requires(cat, i, j) ==> j < i
    requires |path| >= 2 && IsChain(cat, path)
    ensures path[|path| - 1] < path[0]
    decreases |path|
  {
    assert Requires(cat, path[0], path[1]);
    if |path| > 2 {
      ChainDescends(cat, path[1..]);
    }
  }

  /** ... so no chain of prerequisites in the table returns to where it started. */
  lemma Acyclic(path: seq<int>)
    requires |path| >= 2 && IsChain(Table, path)
    ensures path[|path| - 1] != path[0]
  {
    RequiresEarlier();
    ChainDescends(Table, path);
  }
}
