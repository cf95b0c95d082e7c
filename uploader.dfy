/**
 * The document uploader form: the subject search, the selection of subjects
 * (one by one, all visible ones at once, or a whole term), the grouping of the
 * visible subjects under "Year y - Semester s" headings, and the submission
 * guard that decides whether a request to `POST /api/generate-pdf` is sent.
 *
 * React state becomes the fields of the class `DocumentUploader`; each handler
 * is a method that changes them. The `useEffect` that recomputes the visible
 * subjects whenever the query changes is folded into the method that sets the
 * query, so the visible list always agrees with the query (`Valid`).
 */
module Uploader {
  import opened Text
  import opened Seqs
  import opened Catalog
  import opened Grouping
  import opened Generator

  // ---------------------------------------------------------------------------
  // Selections

  /** `sel.some((s) => s.code === code)`. */
  predicate Selected(sel: seq<Subject>, code: string) {
    exists k :: 0 <= k < |sel| && sel[k].code == code
  }

  /** No two records share a code. */
  predicate CodesDistinct(ss: seq<Subject>) {
    forall i, j :: 0 <= i < j < |ss| ==> ss[i].code != ss[j].code
  }

  function CodeIsNot(code: string): Subject -> bool {
    (s: Subject) => s.code != code
  }

  lemma SelectedConcat(a: seq<Subject>, b: seq<Subject>, code: string)
    ensures Selected(a + b, code) <==> Selected(a, code) || Selected(b, code)
  {
    if Selected(a + b, code) {
      var k :| 0 <= k < |a + b| && (a + b)[k].code == code;
      if k >= |a| {
        assert b[k - |a|] == (a + b)[k];
      }
    }
    if Selected(a, code) {
      var k :| 0 <= k < |a| && a[k].code == code;
      assert (a + b)[k] == a[k];
    }
    if Selected(b, code) {
      var k :| 0 <= k < |b| && b[k].code == code;
      assert (a + b)[|a| + k] == b[k];
    }
  }

  /** Lines 91-100: a selected code is removed, with every entry that has it;
      otherwise the subject is appended. */
  function Toggle(sel: seq<Subject>, s: Subject): seq<Subject> {
    if Selected(sel, s.code) then Filter(sel, CodeIsNot(s.code)) else sel + [s]
  }

  /** Toggling flips whether the subject's code is selected and leaves every
      other code as it was; removing keeps the other entries in order. */
  lemma ToggleFlips(sel: seq<Subject>, s: Subject, code: string)
    ensures Selected(Toggle(sel, s), s.code) <==> !Selected(sel, s.code)
    ensures code != s.code ==> (Selected(Toggle(sel, s), code) <==> Selected(sel, code))
    ensures Selected(sel, s.code) ==> IsSubseq(Toggle(sel, s), sel)
    ensures !Selected(sel, s.code) ==> Toggle(sel, s) == sel + [s]
  {
    var r := Toggle(sel, s);
    if Selected(sel, s.code) {
      FilterIsSubseq(sel, CodeIsNot(s.code));
      if code != s.code {
        if Selected(sel, code) {
          var k :| 0 <= k < |sel| && sel[k].code == code;
          FilterMembership(sel, CodeIsNot(s.code), sel[k]);
          var j :| 0 <= j < |r| && r[j] == sel[k];
        }
        if Selected(r, code) {
          var k :| 0 <= k < |r| && r[k].code == code;
          FilterMembership(sel, CodeIsNot(s.code), r[k]);
          var j :| 0 <= j < |sel| && sel[j] == r[k];
        }
      }
    } else {
      SelectedConcat(sel, [s], s.code);
      SelectedConcat(sel, [s], code);
      assert [s][0] == s;
    }
  }

  /** Toggling an unselected subject twice restores the selection. */
  lemma ToggleTwice(sel: seq<Subject>, s: Subject)
    requires !Selected(sel, s.code)
    ensures Toggle(Toggle(sel, s), s) == sel
  {
    SelectedConcat(sel, [s], s.code);
    assert Selected([s], s.code) by { assert [s][0] == s; }
    FilterConcat(sel, [s], CodeIsNot(s.code));
    FilterAll(sel, CodeIsNot(s.code));
    assert Filter([s], CodeIsNot(s.code)) == [];
    assert sel + [] == sel;
  }

  /** The `forEach` of lines 110-114 after the filtered subjects `fs`: each one
      whose code is not yet selected is pushed. */
  function AddMissing(sel: seq<Subject>, fs: seq<Subject>): (r: seq<Subject>)
    ensures |sel| <= |r| <= |sel| + |fs|
    ensures r[..|sel|] == sel
    decreases |fs|
  {
    if fs == [] then sel
    else
      var acc := AddMissing(sel, fs[..|fs| - 1]);
      assert (acc + [fs[|fs| - 1]])[..|sel|] == acc[..|sel|];
      if Selected(acc, fs[|fs| - 1].code) then acc else acc + [fs[|fs| - 1]]
  }

  /** Lines 102-118. The length test compares counts, not membership. */
  function SelectAll(sel: seq<Subject>, filtered: seq<Subject>): seq<Subject> {
    if |sel| == |filtered| then [] else AddMissing(sel, filtered)
  }

  /** After the loop every filtered code is selected, and every code selected
      is an old one or a filtered one. */
  lemma {:induction false} AddMissingCovers(sel: seq<Subject>, fs: seq<Subject>, code: string)
    ensures Selected(AddMissing(sel, fs), code) <==> Selected(sel, code) || Selected(fs, code)
    decreases |fs|
  {
    if fs != [] {
      var init, last := fs[..|fs| - 1], fs[|fs| - 1];
      var acc := AddMissing(sel, init);
      AddMissingCovers(sel, init, code);
      AddMissingCovers(sel, init, last.code);
      SelectedConcat(init, [last], code);
      SelectedConcat(acc, [last], code);
      assert fs == init + [last] && [last][0] == last;
    }
  }

  /** The entries from position `n` on have codes that occur nowhere earlier. */
  predicate AddedOnce(r: seq<Subject>, n: nat) {
    forall i, j :: 0 <= i < j < |r| && n <= j ==> r[i].code != r[j].code
  }

  /** No code is pushed twice, and none that was already selected. */
  lemma {:induction false} AddMissingNoDuplicates(sel: seq<Subject>, fs: seq<Subject>)
    ensures AddedOnce(AddMissing(sel, fs), |sel|)
    decreases |fs|
  {
    if fs != [] {
      var init, last := fs[..|fs| - 1], fs[|fs| - 1];
      var acc := AddMissing(sel, init);
      AddMissingNoDuplicates(sel, init);
      assert AddedOnce(acc, |sel|);
      if !Selected(acc, last.code) {
        var r := acc + [last];
        forall i, j | 0 <= i < j < |r| && |sel| <= j
          ensures r[i].code != r[j].code
        {
          assert r[i] == acc[i];
          if j == |acc| {
            assert r[j] == last;
          } else {
            assert r[j] == acc[j];
          }
        }
        assert AddedOnce(r, |sel|);
      }
    }
  }

  /** The test of the loop: the subject's code is not in the old selection. */
  function NotSelectedIn(sel: seq<Subject>): Subject -> bool {
    (s: Subject) => !Selected(sel, s.code)
  }

  /** When the filtered codes are distinct, as they are for the catalog, the
      loop appends exactly the filtered subjects not selected before, in
      filtered order. */
  lemma {:induction false} AddMissingIsFilter(sel: seq<Subject>, fs: seq<Subject>)
    requires CodesDistinct(fs)
    ensures AddMissing(sel, fs) == sel + Filter(fs, NotSelectedIn(sel))
    decreases |fs|
  {
    if fs == [] {
      assert sel + [] == sel;
    } else {
      var init, last := fs[..|fs| - 1], fs[|fs| - 1];
      assert fs == init + [last];
      var p := NotSelectedIn(sel);
      var kept := Filter(init, p);
      AddMissingIsFilter(sel, init);
      FilterConcat(init, [last], p);
      assert Filter([last], p) == if p(last) then [last] else [];
      forall k | 0 <= k < |kept|
        ensures kept[k].code != last.code
      {
        FilterMembership(init, p, kept[k]);
        var i :| 0 <= i < |init| && init[i] == kept[k];
        assert fs[i] == init[i];
      }
      SelectedConcat(sel, kept, last.code);
      assert sel + kept + [last] == sel + (kept + [last]);
    }
  }

  /** Deselect-all fires on equal lengths even when no visible subject is
      selected: one selected subject and one different visible subject clear
      the selection. */
  lemma LengthTestIgnoresMembership(a: Subject, b: Subject)
    requires a.code != b.code
    ensures !Selected([a], b.code)
    ensures SelectAll([a], [b]) == []
  {
    assert [a][0] == a;
  }

  /** With different lengths, select-all only adds. */
  lemma SelectAllAdds(sel: seq<Subject>, filtered: seq<Subject>, code: string)
    requires |sel| != |filtered|
    ensures SelectAll(sel, filtered)[..|sel|] == sel
    ensures Selected(SelectAll(sel, filtered), code) <==> Selected(sel, code) || Selected(filtered, code)
  {
    AddMissingCovers(sel, filtered, code);
  }

  // ---------------------------------------------------------------------------
  // The search

  function MatchesQuery(q: string): Subject -> bool {
    (s: Subject) => Contains(ToLower(s.code), q) || Contains(ToLower(s.name), q)
  }

  /** Lines 50-61: the whole catalog for a blank query, else the records whose
      code or name contains the query, ignoring case. */
  function VisibleSubjects(cat: seq<Subject>, query: string): seq<Subject> {
    if Trim(query) == "" then cat else Filter(cat, MatchesQuery(ToLower(query)))
  }

  /** A query of white space only shows everything; any other query shows the
      matching records, in catalog order. */
  lemma VisibleSubjectsSpec(cat: seq<Subject>, query: string, s: Subject)
    ensures AllSpace(query) ==> VisibleSubjects(cat, query) == cat
    ensures !AllSpace(query) ==>
      && IsSubseq(VisibleSubjects(cat, query), cat)
      && (s in VisibleSubjects(cat, query) <==>
            s in cat && (Contains(ToLower(s.code), ToLower(query)) || Contains(ToLower(s.name), ToLower(query))))
  {
    TrimEmptyIffAllSpace(query);
    FilterIsSubseq(cat, MatchesQuery(ToLower(query)));
    FilterMembership(cat, MatchesQuery(ToLower(query)), s);
  }

  lemma {:induction false} FilterKeepsCodesDistinct(ss: seq<Subject>, p: Subject -> bool)
    requires CodesDistinct(ss)
    ensures CodesDistinct(Filter(ss, p))
    decreases |ss|
  {
    if ss != [] {
      FilterKeepsCodesDistinct(ss[1..], p);
      if p(ss[0]) {
        var r := Filter(ss, p);
        var rest := Filter(ss[1..], p);
        forall j | 0 < j < |r|
          ensures r[0].code != r[j].code
        {
          FilterMembership(ss[1..], p, r[j]);
          var k :| 0 <= k < |ss[1..]| && ss[1..][k] == r[j];
          assert ss[k + 1] == r[j];
        }
        assert forall i, j :: 0 < i < j < |r| ==> r[i] == rest[i - 1] && r[j] == rest[j - 1];
      }
    }
  }

  /** A catalog with distinct codes shows visible subjects with distinct codes. */
  lemma VisibleCodesDistinct(cat: seq<Subject>, query: string)
    requires CodesDistinct(cat)
    ensures CodesDistinct(VisibleSubjects(cat, query))
  {
    FilterKeepsCodesDistinct(cat, MatchesQuery(ToLower(query)));
  }

  /** The course table has distinct codes and one-character years and semesters. */
  lemma TableFacts()
    ensures CodesDistinct(Table)
    ensures forall i :: 0 <= i < |Table| ==> |Table[i].year| == 1 && |Table[i].semester| == 1
  {
    CodesUnique();
    FieldValues();
  }

  // ---------------------------------------------------------------------------
  // The grouping under headings

  /** Line 205: the heading of a record. */
  function GroupKey(s: Subject): string {
    "Year " + s.year + " - Semester " + s.semester
  }

  /** For one-character years and semesters, as in the catalog, the heading
      determines the year and the semester. */
  lemma GroupKeyInjective(s: Subject, t: Subject)
    requires |s.year| == 1 && |s.semester| == 1 && |t.year| == 1 && |t.semester| == 1
    requires GroupKey(s) == GroupKey(t)
    ensures s.year == t.year && s.semester == t.semester
  {
    assert GroupKey(s)[5] == s.year[0] && GroupKey(t)[5] == t.year[0];
    assert GroupKey(s)[18] == s.semester[0] && GroupKey(t)[18] == t.semester[0];
  }

  // ---------------------------------------------------------------------------
  // The submission

  datatype DisplayStyle = Stacked | Inline

  /** The value of the radio button, sent as the `displayStyle` field. */
  function StyleName(d: DisplayStyle): string {
    match d
    case Stacked => "stacked"
    case Inline => "inline"
  }

  /** Lines 142-145 and 508-516: everything required is present. */
  predicate Ready(signature: Option<Upload>, idPhoto: Option<Upload>, name: string,
                  studentNumber: string, studentYear: string, selected: seq<Subject>) {
    signature.Some? && idPhoto.Some? && name != "" && studentNumber != "" && studentYear != "" && |selected| > 0
  }

  /** Lines 149-159: the form data of the request, as the route reads it; the
      subject list arrives as the records that `JSON.stringify` wrote. */
  function RequestForm(signature: Option<Upload>, idPhoto: Option<Upload>, name: string,
                       studentNumber: string, studentYear: string, selected: seq<Subject>,
                       style: DisplayStyle): Form {
    Form(signature, idPhoto, Some(name), Some(studentNumber), Some(studentYear), Parsed(selected), Some(StyleName(style)))
  }

  /** The client's guard and the route's validation agree: the route accepts
      the form built from the component's state exactly when the guard lets it
      through, with the selected subjects, in order, and the chosen style. */
  lemma GuardMatchesValidation(signature: Option<Upload>, idPhoto: Option<Upload>, name: string,
                               studentNumber: string, studentYear: string, selected: seq<Subject>,
                               style: DisplayStyle)
    ensures var c := Validate(RequestForm(signature, idPhoto, name, studentNumber, studentYear, selected, style));
      && (c.Accepted? <==> Ready(signature, idPhoto, name, studentNumber, studentYear, selected))
      && (c.Accepted? ==> c.subjects == selected && c.job.style == StyleName(style))
      && (c.Accepted? ==> (c.job.style == "stacked" <==> style == Stacked))
  {}

  // ---------------------------------------------------------------------------
  // The component

  /** A personal text field of the form. */
  datatype TextField = Name | StudentNumber | StudentYear | Semester | AcademicYear

  class DocumentUploader {
    var signature: Option<Upload>
    var idPhoto: Option<Upload>
    var name: string
    var studentNumber: string
    var studentYear: string
    var semester: string
    var academicYear: string
    var loading: bool
    var selected: seq<Subject>
    var searchQuery: string
    var filtered: seq<Subject>
    var displayStyle: DisplayStyle
    const catalog: seq<Subject>

    /** The visible list is the one the query selects. */
    ghost predicate Valid()
      reads this
    {
      filtered == VisibleSubjects(catalog, searchQuery)
    }

    /** Lines 13-25. */
    constructor()
      ensures signature == None && idPhoto == None
      ensures name == "" && studentNumber == "" && studentYear == "" && semester == "" && academicYear == ""
      ensures !loading && selected == [] && searchQuery == "" && displayStyle == Stacked
      ensures catalog == Table && filtered == Table
      ensures Valid()
    {
      signature, idPhoto := None, None;
      name, studentNumber, studentYear, semester, academicYear := "", "", "", "", "";
      loading := false;
      selected := [];
      searchQuery := "";
      catalog := Table;
      filtered := Table;
      displayStyle := Stacked;
    }

    /** Lines 27-40: everything back to its initial value, except `loading`. */
    method ClearAllFields()
      modifies this
      ensures signature == None && idPhoto == None
      ensures name == "" && studentNumber == "" && studentYear == "" && semester == "" && academicYear == ""
      ensures selected == [] && searchQuery == "" && filtered == catalog && displayStyle == Stacked
      ensures loading == old(loading)
      ensures Valid()
    {
      signature, idPhoto := None, None;
      name, studentNumber, studentYear, semester, academicYear := "", "", "", "", "";
      selected := [];
      searchQuery := "";
      filtered := catalog;
      displayStyle := Stacked;
    }

    /** Lines 43-47: only the selection, the query and the visible list. */
    method ClearSubjects()
      modifies this
      ensures selected == [] && searchQuery == "" && filtered == catalog
      ensures signature == old(signature) && idPhoto == old(idPhoto)
      ensures name == old(name) && studentNumber == old(studentNumber) && studentYear == old(studentYear)
      ensures semester == old(semester) && academicYear == old(academicYear)
      ensures loading == old(loading) && displayStyle == old(displayStyle)
      ensures Valid()
    {
      selected := [];
      searchQuery := "";
      filtered := catalog;
    }

    /** Typing in the search box, followed by the effect of lines 50-61. */
    method SetSearchQuery(query: string)
      modifies this
      ensures searchQuery == query && filtered == VisibleSubjects(catalog, query)
      ensures selected == old(selected) && displayStyle == old(displayStyle) && loading == old(loading)
      ensures signature == old(signature) && idPhoto == old(idPhoto)
      ensures name == old(name) && studentNumber == old(studentNumber) && studentYear == old(studentYear)
      ensures semester == old(semester) && academicYear == old(academicYear)
      ensures Valid()
    {
      searchQuery := query;
      if Trim(query) == "" {
        filtered := catalog;
      } else {
        filtered := Filter(catalog, MatchesQuery(ToLower(query)));
      }
    }

    /** Lines 63-67: the first dropped file becomes the signature. */
    method OnSignatureDrop(files: seq<Upload>)
      modifies this
      ensures signature == if |files| > 0 then Some(files[0]) else old(signature)
      ensures idPhoto == old(idPhoto) && selected == old(selected) && filtered == old(filtered)
      ensures searchQuery == old(searchQuery) && displayStyle == old(displayStyle) && loading == old(loading)
      ensures name == old(name) && studentNumber == old(studentNumber) && studentYear == old(studentYear)
      ensures semester == old(semester) && academicYear == old(academicYear)
    {
      if |files| > 0 {
        signature := Some(files[0]);
      }
    }

    /** Lines 69-73: the first dropped file becomes the ID photo. */
    method OnIdPhotoDrop(files: seq<Upload>)
      modifies this
      ensures idPhoto == if |files| > 0 then Some(files[0]) else old(idPhoto)
      ensures signature == old(signature) && selected == old(selected) && filtered == old(filtered)
      ensures searchQuery == old(searchQuery) && displayStyle == old(displayStyle) && loading == old(loading)
      ensures name == old(name) && studentNumber == old(studentNumber) && studentYear == old(studentYear)
      ensures semester == old(semester) && academicYear == old(academicYear)
    {
      if |files| > 0 {
        idPhoto := Some(files[0]);
      }
    }

    /** The `onChange` of one of the text inputs. */
    method HandleFieldChange(field: TextField, value: string)
      modifies this
      ensures name == if field == Name then value else old(name)
      ensures studentNumber == if field == StudentNumber then value else old(studentNumber)
      ensures studentYear == if field == StudentYear then value else old(studentYear)
      ensures semester == if field == Semester then value else old(semester)
      ensures academicYear == if field == AcademicYear then value else old(academicYear)
      ensures signature == old(signature) && idPhoto == old(idPhoto) && selected == old(selected)
      ensures searchQuery == old(searchQuery) && filtered == old(filtered) && displayStyle == old(displayStyle)
      ensures loading == old(loading)
    {
      match field
      case Name => name := value;
      case StudentNumber => studentNumber := value;
      case StudentYear => studentYear := value;
      case Semester => semester := value;
      case AcademicYear => academicYear := value;
    }

    /** Lines 91-100. */
    method HandleSubjectToggle(s: Subject)
      modifies this
      ensures selected == Toggle(old(selected), s)
      ensures Selected(selected, s.code) <==> !Selected(old(selected), s.code)
      ensures filtered == old(filtered) && searchQuery == old(searchQuery)
      ensures displayStyle == old(displayStyle) && loading == old(loading)
      ensures signature == old(signature) && idPhoto == old(idPhoto)
      ensures name == old(name) && studentNumber == old(studentNumber) && studentYear == old(studentYear)
      ensures semester == old(semester) && academicYear == old(academicYear)
    {
      ToggleFlips(selected, s, s.code);
      if Selected(selected, s.code) {
        selected := Filter(selected, CodeIsNot(s.code));
      } else {
        selected := selected + [s];
      }
    }

    /** Lines 102-118, with the `forEach` as a loop. */
    method HandleSelectAllSubjects()
      modifies this
      ensures selected == SelectAll(old(selected), filtered)
      ensures filtered == old(filtered) && searchQuery == old(searchQuery)
      ensures displayStyle == old(displayStyle) && loading == old(loading)
      ensures signature == old(signature) && idPhoto == old(idPhoto)
      ensures name == old(name) && studentNumber == old(studentNumber) && studentYear == old(studentYear)
      ensures semester == old(semester) && academicYear == old(academicYear)
    {
      if |selected| == |filtered| {
        selected := [];
        return;
      }
      var newSelection := selected;
      for i := 0 to |filtered|
        invariant newSelection == AddMissing(selected, filtered[..i])
      {
        assert filtered[..i + 1][..i] == filtered[..i];
        if !Selected(newSelection, filtered[i].code) {
          newSelection := newSelection + [filtered[i]];
        }
      }
      assert filtered[..|filtered|] == filtered;
      selected := newSelection;
    }

    /** Lines 121-132: with both fields filled, the term's records replace the
        selection and the search is reset; otherwise nothing changes. */
    method HandleSemesterYearSelection()
      requires Valid()
      modifies this
      ensures selected == if semester != "" && academicYear != "" then TermRecords(catalog, academicYear, semester) else old(selected)
      ensures searchQuery == if semester != "" && academicYear != "" then "" else old(searchQuery)
      ensures filtered == if semester != "" && academicYear != "" then catalog else old(filtered)
      ensures semester == old(semester) && academicYear == old(academicYear)
      ensures displayStyle == old(displayStyle) && loading == old(loading)
      ensures signature == old(signature) && idPhoto == old(idPhoto)
      ensures name == old(name) && studentNumber == old(studentNumber) && studentYear == old(studentYear)
      ensures Valid()
    {
      if semester != "" && academicYear != "" {
        selected := Filter(catalog, InTerm(academicYear, semester));
        searchQuery := "";
        filtered := catalog;
      }
    }

    /** Lines 135-137. */
    method HandleDisplayStyleChange(style: DisplayStyle)
      modifies this
      ensures displayStyle == style
      ensures selected == old(selected) && filtered == old(filtered) && searchQuery == old(searchQuery)
      ensures loading == old(loading)
      ensures signature == old(signature) && idPhoto == old(idPhoto)
      ensures name == old(name) && studentNumber == old(studentNumber) && studentYear == old(studentYear)
      ensures semester == old(semester) && academicYear == old(academicYear)
    {
      displayStyle := style;
    }

    /** The submit button is disabled exactly when the guard fails or a request
        is under way. */
    predicate SubmitDisabled()
      reads this
    {
      !Ready(signature, idPhoto, name, studentNumber, studentYear, selected) || loading
    }

    /** Lines 139-200: the request sent, if any. The response handling and the
        download are left out; `loading` is false again once they finish. */
    method HandleSubmit() returns (request: Option<Form>)
      modifies this
      ensures request.Some? <==> Ready(signature, idPhoto, name, studentNumber, studentYear, selected)
      ensures !old(loading) ==> (request.Some? <==> !old(SubmitDisabled()))
      ensures request.Some? ==>
        request.value == RequestForm(signature, idPhoto, name, studentNumber, studentYear, selected, displayStyle)
      ensures loading == if request.Some? then false else old(loading)
      ensures selected == old(selected) && filtered == old(filtered) && displayStyle == old(displayStyle)
      ensures searchQuery == old(searchQuery)
      ensures signature == old(signature) && idPhoto == old(idPhoto)
      ensures name == old(name) && studentNumber == old(studentNumber) && studentYear == old(studentYear)
      ensures semester == old(semester) && academicYear == old(academicYear)
    {
      if signature.None? || idPhoto.None? || name == "" || studentNumber == "" || studentYear == "" || |selected| == 0 {
        return None;
      }
      loading := true;
      request := Some(Form(signature, idPhoto, Some(name), Some(studentNumber), Some(studentYear),
                           Parsed(selected), Some(StyleName(displayStyle))));
      loading := false;
    }

    /** Lines 203-210: the visible subjects under their headings. */
    method GroupedSubjects() returns (keys: seq<string>, groups: map<string, seq<Subject>>)
      ensures IsGrouping(filtered, GroupKey, keys, groups)
    {
      keys, groups := GroupBy(filtered, GroupKey);
    }
  }

  /** Every visible subject sits under exactly one heading, its own, in catalog
      order; when the years and semesters are one character long, as in the
      course table, each heading stands for one year and semester. */
  lemma GroupsOfVisible(cat: seq<Subject>, query: string, keys: seq<string>, groups: map<string, seq<Subject>>, s: Subject)
    requires forall i :: 0 <= i < |cat| ==> |cat[i].year| == 1 && |cat[i].semester| == 1
    requires IsGrouping(VisibleSubjects(cat, query), GroupKey, keys, groups)
    requires s in VisibleSubjects(cat, query)
    ensures GroupKey(s) in groups && s in groups[GroupKey(s)]
    ensures forall k :: k in groups && k != GroupKey(s) ==> s !in groups[k]
    ensures forall k :: k in groups ==> IsSubseq(groups[k], VisibleSubjects(cat, query))
    ensures forall t :: t in groups[GroupKey(s)] ==> t.year == s.year && t.semester == s.semester
  {
    var vis := VisibleSubjects(cat, query);
    ExactlyOneGroup(vis, GroupKey, keys, groups, s);
    forall t | t in vis
      ensures |t.year| == 1 && |t.semester| == 1
    {
      if Trim(query) != "" {
        FilterMembership(cat, MatchesQuery(ToLower(query)), t);
      }
    }
    forall t | t in groups[GroupKey(s)]
      ensures t.year == s.year && t.semester == s.semester
    {
      FilterMembership(vis, KeyIs(GroupKey, GroupKey(s)), t);
      GroupKeyInjective(s, t);
    }
  }

  /** Term selection gives exactly that term's records, with distinct codes when
      the catalog's are. */
  lemma TermSelection(cat: seq<Subject>, year: string, semester: string, s: Subject)
    ensures CodesDistinct(cat) ==> CodesDistinct(TermRecords(cat, year, semester))
    ensures s in TermRecords(cat, year, semester) <==> s in cat && s.year == year && s.semester == semester
  {
    if CodesDistinct(cat) {
      FilterKeepsCodesDistinct(cat, InTerm(year, semester));
    }
    FilterMembership(cat, InTerm(year, semester), s);
  }
}
