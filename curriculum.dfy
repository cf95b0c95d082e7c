/**
 * The curriculum page: the catalog grouped by `${year}-${semester}`, each
 * group's key split back on "-" into year and semester for its heading, and the
 * total course count.
 */
module Curriculum {
  import opened Text
  import opened Catalog
  import opened Grouping

  /** The group key of a record. */
  function CurriculumKey(s: Subject): string {
    s.year + "-" + s.semester
  }

  /** `s.split(sep)` for a one-character separator: the pieces between the
      separators, so there is always one more piece than separators. */
  function Split(s: string, sep: char): (parts: seq<string>)
    ensures |parts| >= 1
    decreases |s|
  {
    if s == [] then [""]
    else
      var rest := Split(s[1..], sep);
      if s[0] == sep then [""] + rest else [[s[0]] + rest[0]] + rest[1..]
  }

  /** Splitting a piece with no separator in it gives that piece back. */
  lemma {:induction false} SplitNoSeparator(s: string, sep: char)
    requires sep !in s
    ensures Split(s, sep) == [s]
    decreases |s|
  {
    if s != [] {
      SplitNoSeparator(s[1..], sep);
      assert [s[0]] + s[1..] == s;
    }
  }

  /** Splitting `a + [sep] + b`, where `a` has no separator, gives `a` followed by the
      pieces of `b`. */
  lemma {:induction false} SplitJoin(a: string, sep: char, b: string)
    requires sep !in a
    ensures Split(a + [sep] + b, sep) == [a] + Split(b, sep)
    decreases |a|
  {
    if a == [] {
      assert a + [sep] + b == [sep] + b;
      assert ([sep] + b)[1..] == b;
    } else {
      var s := a + [sep] + b;
      assert s[0] == a[0] && s[1..] == a[1..] + [sep] + b;
      SplitJoin(a[1..], sep, b);
      assert [a[0]] + a[1..] == a;
    }
  }

  /** The heading decoded from a key: `const [year, semester] = key.split("-")`. */
  function DecodeKey(key: string): (r: (string, string))
  {
    var parts := Split(key, '-');
    (parts[0], if |parts| > 1 then parts[1] else "")
  }

  /** When neither year nor semester contains "-", the heading shows exactly this
      group's year and semester. */
  lemma DecodeKeyRecovers(s: Subject)
    requires '-' !in s.year && '-' !in s.semester
    ensures DecodeKey(CurriculumKey(s)) == (s.year, s.semester)
  {
    SplitJoin(s.year, '-', s.semester);
    SplitNoSeparator(s.semester, '-');
  }

  /** The page's `reduce`: groups keyed by year and semester. */
  method GroupCurriculum(cat: seq<Subject>) returns (keys: seq<string>, groups: map<string, seq<Subject>>)
    ensures IsGrouping(cat, CurriculumKey, keys, groups)
    ensures SumSizes(keys, groups) == |cat|
  {
    keys, groups := GroupBy(cat, CurriculumKey);
    SizesSum(cat, CurriculumKey, keys, groups);
  }

  /** On the table, every key decodes to the year and semester of the records
      in its group, because no year or semester value contains "-". */
  lemma TableKeysDecode()
    ensures forall i :: 0 <= i < |Table| ==>
      DecodeKey(CurriculumKey(Table[i])) == (Table[i].year, Table[i].semester)
  {
    FieldValues();
    forall i | 0 <= i < |Table|
      ensures DecodeKey(CurriculumKey(Table[i])) == (Table[i].year, Table[i].semester)
    {
      DecodeKeyRecovers(Table[i]);
    }
  }
}
