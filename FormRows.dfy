/**
 * Reading the introduction form the way the two generators do: `getValue`
 * by element id, and the repeatable course and link groups turned into
 * ordered records, with partially filled groups dropped.
 *
 * A group is given as the list of its sub-controls, each `None` when the
 * group has no element of that class (the `?.` lookup yields `undefined`).
 * Which groups are selected (all `.course-group` elements, or only those
 * inside `#courses-container`) is the caller's document; the list of groups
 * in document order is the input here.
 */
module FormRows {
  import opened Wrappers
  import opened Text

  /** The page's form controls: element id to current raw value. */
  type Dom = map<string, string>

  /**
   * The value of one control: its trimmed value, or `''` when the control
   * is missing (both `getValue` and `?.value.trim() || ''`).
   */
  function FieldValue(control: Option<string>): string {
    match control
    case None => ""
    case Some(v) => Trim(v)
  }

  /** `getValue(id)`: the trimmed value of the element with that id, `''` when there is none. */
  function GetValue(dom: Dom, id: string): (r: string)
    ensures IsTrimmed(r)
    ensures id !in dom ==> r == ""
    ensures id in dom ==> (r == "" <==> AllWhitespace(dom[id]))
    ensures id in dom && IsTrimmed(dom[id]) ==> r == dom[id]
  {
    if id in dom then
      var v := dom[id];
      assert IsTrimmed(v) ==> Trim(v) == v by {
        if IsTrimmed(v) { TrimOfTrimmed(v); }
      }
      FieldValue(Some(v))
    else FieldValue(None)
  }

  // ----- courses -----

  datatype CourseRow = CourseRow(dept: Option<string>, num: Option<string>, name: Option<string>, reason: Option<string>)

  datatype Course = Course(department: string, number: string, name: string, reason: string)

  /**
   * Which groups are kept: `generate_html.js` needs department and number,
   * `generate_json.js` the department alone.
   */
  datatype Policy = DeptAndNumber | DeptOnly

  function ReadCourse(row: CourseRow): Course {
    Course(FieldValue(row.dept), FieldValue(row.num), FieldValue(row.name), FieldValue(row.reason))
  }

  predicate Keeps(policy: Policy, c: Course) {
    match policy
    case DeptAndNumber => c.department != "" && c.number != ""
    case DeptOnly => c.department != ""
  }

  /** The record read from every group, in document order. */
  function ReadCourses(rows: seq<CourseRow>): (cs: seq<Course>)
    ensures |cs| == |rows|
  {
    if rows == [] then [] else ReadCourses(rows[..|rows| - 1]) + [ReadCourse(rows[|rows| - 1])]
  }

  lemma {:induction false} ReadCoursesAt(rows: seq<CourseRow>, i: nat)
    requires i < |rows|
    ensures ReadCourses(rows)[i] == ReadCourse(rows[i])
  {
    if i < |rows| - 1 {
      ReadCoursesAt(rows[..|rows| - 1], i);
    }
  }

  /** The records of `cs` that the policy keeps, in order. */
  function KeepCourses(policy: Policy, cs: seq<Course>): (r: seq<Course>)
    ensures |r| <= |cs|
    ensures forall c :: c in r ==> Keeps(policy, c) && c in cs
  {
    if cs == [] then []
    else
      var c := cs[|cs| - 1];
      KeepCourses(policy, cs[..|cs| - 1]) + (if Keeps(policy, c) then [c] else [])
  }

  /** The courses read from `rows`, in document order, of the groups the policy keeps. */
  function SelectCourses(policy: Policy, rows: seq<CourseRow>): seq<Course> {
    KeepCourses(policy, ReadCourses(rows))
  }

  /** The positions of the kept records, ascending. */
  function KeptPositions(policy: Policy, cs: seq<Course>): (idx: seq<nat>)
    ensures forall j :: 0 <= j < |idx| ==> idx[j] < |cs|
    ensures forall j, k :: 0 <= j < k < |idx| ==> idx[j] < idx[k]
    ensures forall i :: 0 <= i < |cs| ==> (i in idx <==> Keeps(policy, cs[i]))
  {
    if cs == [] then []
    else
      var n := |cs| - 1;
      var front := cs[..n];
      var pre := KeptPositions(policy, front);
      var idx := pre + (if Keeps(policy, cs[n]) then [n] else []);
      assert n !in pre;
      forall i | 0 <= i < n
        ensures i in idx <==> Keeps(policy, cs[i])
      {
        assert cs[i] == front[i];
      }
      idx
  }

  lemma {:induction false} KeepCoursesAtKeptPositions(policy: Policy, cs: seq<Course>)
    ensures |KeepCourses(policy, cs)| == |KeptPositions(policy, cs)|
    ensures forall j :: 0 <= j < |KeptPositions(policy, cs)| ==>
              KeepCourses(policy, cs)[j] == cs[KeptPositions(policy, cs)[j]]
  {
    if cs != [] {
      var n := |cs| - 1;
      var front := cs[..n];
      KeepCoursesAtKeptPositions(policy, front);
      var r, r' := KeepCourses(policy, cs), KeepCourses(policy, front);
      var idx, idx' := KeptPositions(policy, cs), KeptPositions(policy, front);
      assert r == r' + (if Keeps(policy, cs[n]) then [cs[n]] else []);
      assert idx == idx' + (if Keeps(policy, cs[n]) then [n] else []);
      forall j | 0 <= j < |idx| ensures r[j] == cs[idx[j]] {
        if j < |idx'| {
          assert r[j] == r'[j] == front[idx'[j]];
        }
      }
    }
  }

  /**
   * The extracted list is exactly the groups the policy keeps, in document
   * order, each record holding its group's four trimmed fields unchanged.
   */
  lemma SelectCoursesAreKeptRows(policy: Policy, rows: seq<CourseRow>)
    ensures var idx := KeptPositions(policy, ReadCourses(rows));
      && |SelectCourses(policy, rows)| == |idx|
      && (forall i :: 0 <= i < |rows| ==> (i in idx <==> Keeps(policy, ReadCourse(rows[i]))))
      && (forall j :: 0 <= j < |idx| ==> SelectCourses(policy, rows)[j] == ReadCourse(rows[idx[j]]))
  {
    KeepCoursesAtKeptPositions(policy, ReadCourses(rows));
    forall i | 0 <= i < |rows| ensures ReadCourses(rows)[i] == ReadCourse(rows[i]) {
      ReadCoursesAt(rows, i);
    }
  }

  /**
   * `getCourseData`: a `forEach` over the groups that pushes the record of
   * every group the policy keeps.
   */
  method GetCourseData(policy: Policy, groups: seq<CourseRow>) returns (courses: seq<Course>)
    ensures courses == SelectCourses(policy, groups)
  {
    courses := [];
    for i := 0 to |groups|
      invariant courses == KeepCourses(policy, ReadCourses(groups[..i]))
    {
      var dept := FieldValue(groups[i].dept);
      var num := FieldValue(groups[i].num);
      var name := FieldValue(groups[i].name);
      var reason := FieldValue(groups[i].reason);
      var keep := if policy == DeptAndNumber then dept != "" && num != "" else dept != "";
      assert Course(dept, num, name, reason) == ReadCourse(groups[i]);
      assert keep == Keeps(policy, ReadCourse(groups[i]));
      ghost var next := ReadCourses(groups[..i + 1]);
      assert groups[..i + 1][..i] == groups[..i];
      if keep {
        courses := courses + [Course(dept, num, name, reason)];
      }
      assert courses == KeepCourses(policy, next);
    }
    assert groups[..|groups|] == groups;
  }

  /** The courses of `cs` whose number is filled in. */
  function WithNumber(cs: seq<Course>): seq<Course> {
    if cs == [] then []
    else WithNumber(cs[..|cs| - 1]) + (if cs[|cs| - 1].number != "" then [cs[|cs| - 1]] else [])
  }

  /**
   * The department-and-number policy is the department-only result with
   * the number-less entries removed; so every course kept by the first is
   * kept by the second.
   */
  lemma {:induction false} StrictIsFilteredLenient(cs: seq<Course>)
    ensures KeepCourses(DeptAndNumber, cs) == WithNumber(KeepCourses(DeptOnly, cs))
    ensures forall c :: c in KeepCourses(DeptAndNumber, cs) ==> c in KeepCourses(DeptOnly, cs)
  {
    if cs != [] {
      var n := |cs| - 1;
      StrictIsFilteredLenient(cs[..n]);
      var lenient := KeepCourses(DeptOnly, cs);
      if Keeps(DeptOnly, cs[n]) {
        assert lenient[..|lenient| - 1] == KeepCourses(DeptOnly, cs[..n]);
      } else {
        assert lenient == KeepCourses(DeptOnly, cs[..n]);
      }
    }
  }

  /** The two extraction policies over the same groups. */
  lemma StrictSelectionWithinLenient(rows: seq<CourseRow>)
    ensures SelectCourses(DeptAndNumber, rows) == WithNumber(SelectCourses(DeptOnly, rows))
    ensures forall c :: c in SelectCourses(DeptAndNumber, rows) ==> c in SelectCourses(DeptOnly, rows)
  {
    StrictIsFilteredLenient(ReadCourses(rows));
  }

  // ----- links -----

  datatype LinkRow = LinkRow(name: Option<string>, href: Option<string>)

  datatype Link = Link(name: string, href: string)

  function ReadLink(row: LinkRow): Link {
    Link(FieldValue(row.name), FieldValue(row.href))
  }

  predicate KeepsLink(l: Link) {
    l.name != "" && l.href != ""
  }

  /** The record read from every link group, in document order. */
  function ReadLinks(rows: seq<LinkRow>): (ls: seq<Link>)
    ensures |ls| == |rows|
  {
    if rows == [] then [] else ReadLinks(rows[..|rows| - 1]) + [ReadLink(rows[|rows| - 1])]
  }

  lemma {:induction false} ReadLinksAt(rows: seq<LinkRow>, i: nat)
    requires i < |rows|
    ensures ReadLinks(rows)[i] == ReadLink(rows[i])
  {
    if i < |rows| - 1 {
      ReadLinksAt(rows[..|rows| - 1], i);
    }
  }

  /** The records of `ls` with both fields filled, in order. */
  function KeepLinks(ls: seq<Link>): (r: seq<Link>)
    ensures |r| <= |ls|
    ensures forall l :: l in r ==> KeepsLink(l) && l in ls
  {
    if ls == [] then []
    else
      var l := ls[|ls| - 1];
      KeepLinks(ls[..|ls| - 1]) + (if KeepsLink(l) then [l] else [])
  }

  /** The links read from `rows`, in document order, of the groups with both fields filled. */
  function SelectLinks(rows: seq<LinkRow>): seq<Link> {
    KeepLinks(ReadLinks(rows))
  }

  /** The positions of the kept link records, ascending. */
  function KeptLinkPositions(ls: seq<Link>): (idx: seq<nat>)
    ensures forall j :: 0 <= j < |idx| ==> idx[j] < |ls|
    ensures forall j, k :: 0 <= j < k < |idx| ==> idx[j] < idx[k]
    ensures forall i :: 0 <= i < |ls| ==> (i in idx <==> KeepsLink(ls[i]))
  {
    if ls == [] then []
    else
      var n := |ls| - 1;
      var front := ls[..n];
      var pre := KeptLinkPositions(front);
      var idx := pre + (if KeepsLink(ls[n]) then [n] else []);
      assert n !in pre;
      forall i | 0 <= i < n
        ensures i in idx <==> KeepsLink(ls[i])
      {
        assert ls[i] == front[i];
      }
      idx
  }

  lemma {:induction false} KeepLinksAtKeptPositions(ls: seq<Link>)
    ensures |KeepLinks(ls)| == |KeptLinkPositions(ls)|
    ensures forall j :: 0 <= j < |KeptLinkPositions(ls)| ==>
              KeepLinks(ls)[j] == ls[KeptLinkPositions(ls)[j]]
  {
    if ls != [] {
      var n := |ls| - 1;
      var front := ls[..n];
      KeepLinksAtKeptPositions(front);
      var r, r' := KeepLinks(ls), KeepLinks(front);
      var idx, idx' := KeptLinkPositions(ls), KeptLinkPositions(front);
      assert r == r' + (if KeepsLink(ls[n]) then [ls[n]] else []);
      assert idx == idx' + (if KeepsLink(ls[n]) then [n] else []);
      forall j | 0 <= j < |idx| ensures r[j] == ls[idx[j]] {
        if j < |idx'| {
          assert r[j] == r'[j] == front[idx'[j]];
        }
      }
    }
  }

  /**
   * The extracted links are exactly the groups with a name and an href, in
   * document order, with their trimmed fields.
   */
  lemma SelectLinksAreKeptRows(rows: seq<LinkRow>)
    ensures var idx := KeptLinkPositions(ReadLinks(rows));
      && |SelectLinks(rows)| == |idx|
      && (forall i :: 0 <= i < |rows| ==> (i in idx <==> KeepsLink(ReadLink(rows[i]))))
      && (forall j :: 0 <= j < |idx| ==> SelectLinks(rows)[j] == ReadLink(rows[idx[j]]))
  {
    KeepLinksAtKeptPositions(ReadLinks(rows));
    forall i | 0 <= i < |rows| ensures ReadLinks(rows)[i] == ReadLink(rows[i]) {
      ReadLinksAt(rows, i);
    }
  }

  /** `getLinkData`: a `forEach` over the link groups that pushes every group with a name and an href. */
  method GetLinkData(groups: seq<LinkRow>) returns (links: seq<Link>)
    ensures links == SelectLinks(groups)
  {
    links := [];
    for i := 0 to |groups|
      invariant links == KeepLinks(ReadLinks(groups[..i]))
    {
      var name := FieldValue(groups[i].name);
      var href := FieldValue(groups[i].href);
      assert Link(name, href) == ReadLink(groups[i]);
      ghost var next := ReadLinks(groups[..i + 1]);
      assert groups[..i + 1][..i] == groups[..i];
      if name != "" && href != "" {
        links := links + [Link(name, href)];
      }
      assert links == KeepLinks(next);
    }
    assert groups[..|groups|] == groups;
  }

  /**
   * Three course groups where only the second has both department and
   * number: the result is one course, holding the second group's four
   * fields exactly.
   */
  lemma OnlyCompleteRowKept(dept: string, num: string, name: string, reason: string)
    requires IsTrimmed(dept) && IsTrimmed(num) && IsTrimmed(name) && IsTrimmed(reason)
    requires dept != "" && num != ""
    ensures
      var rows := [CourseRow(Some(dept), Some(""), Some(name), Some(reason)),
                   CourseRow(Some(dept), Some(num), Some(name), Some(reason)),
                   CourseRow(None, Some(num), None, None)];
      SelectCourses(DeptAndNumber, rows) == [Course(dept, num, name, reason)]
  {
    var rows := [CourseRow(Some(dept), Some(""), Some(name), Some(reason)),
                 CourseRow(Some(dept), Some(num), Some(name), Some(reason)),
                 CourseRow(None, Some(num), None, None)];
    TrimOfTrimmed(dept);
    TrimOfTrimmed(num);
    TrimOfTrimmed(name);
    TrimOfTrimmed(reason);
    TrimOfTrimmed("");
    var c0, c1, c2 := Course(dept, "", name, reason), Course(dept, num, name, reason), Course("", num, "", "");
    assert rows[..2][..1] == rows[..1] && rows[..1][..0] == [] && rows[..3] == rows;
    assert ReadCourse(rows[0]) == c0 && ReadCourse(rows[1]) == c1 && ReadCourse(rows[2]) == c2;
    assert ReadCourses(rows[..1]) == [c0];
    assert ReadCourses(rows[..2]) == [c0, c1];
    assert ReadCourses(rows) == [c0, c1, c2];
    assert [c0, c1, c2][..2] == [c0, c1] && [c0, c1][..1] == [c0];
    assert KeepCourses(DeptAndNumber, [c0]) == [];
    assert KeepCourses(DeptAndNumber, [c0, c1]) == [c1];
  }
}
