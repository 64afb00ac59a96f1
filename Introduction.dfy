/**
 * The introduction form of `introduction.js`: the list of course groups
 * with its id counter (add, delete, reset, clear), and the submit handler
 * that turns the submitted form data into the result page's conditional and
 * list-building parts.
 *
 * Submitted data comes from `FormData`: a course group with id `n` submits
 * its four inputs under the names `courseDeptn`, `courseNumn`, `courseNamen`
 * and `courseReasonn`; every other input submits under its plain name.
 */
module Introduction {
  import opened Wrappers
  import opened Text

  // ----- the course groups -----

  /** One `.course-group`: the id it was created with and its four input values. */
  datatype CourseGroup = CourseGroup(id: int, dept: string, num: string, name: string, reason: string)

  /** The group `addCourseGroup` creates: prefilled with the default course, or blank. */
  function NewGroup(id: int, useDefaultValues: bool): (g: CourseGroup)
    ensures g.id == id
    ensures useDefaultValues <==> g.dept != ""
    ensures !useDefaultValues ==> g.dept == g.num == g.name == g.reason == ""
  {
    if useDefaultValues then CourseGroup(id, "ITIS", "3135", "Web Application Development", "It's required.")
    else CourseGroup(id, "", "", "", "")
  }

  /** The ids of the groups, in document order. */
  function Ids(groups: seq<CourseGroup>): (ids: seq<int>)
    ensures |ids| == |groups|
    ensures forall i :: 0 <= i < |groups| ==> ids[i] == groups[i].id
  {
    seq(|groups|, i requires 0 <= i < |groups| => groups[i].id)
  }

  /**
   * Ids issued by a counter that started at 1 and is raised before each use:
   * all in `[2, count]` and strictly increasing in document order.
   */
  predicate IdsIssued(groups: seq<CourseGroup>, count: int) {
    && (forall i :: 0 <= i < |groups| ==> 2 <= groups[i].id <= count)
    && (forall i, j :: 0 <= i < j < |groups| ==> groups[i].id < groups[j].id)
  }

  /** Issued ids are pairwise distinct, so no two groups share input names. */
  lemma IssuedIdsDistinct(groups: seq<CourseGroup>, count: int)
    requires IdsIssued(groups, count)
    ensures forall i, j :: 0 <= i < |groups| && 0 <= j < |groups| && i != j ==> groups[i].id != groups[j].id
  {
  }

  /** The i-th group's id is at least `i + 2`: ids can only run ahead of positions. */
  lemma {:induction false} IdsRunAhead(groups: seq<CourseGroup>, count: int, i: nat)
    requires IdsIssued(groups, count) && i < |groups|
    ensures groups[i].id >= i + 2
  {
    if i > 0 {
      IdsRunAhead(groups, count, i - 1);
    }
  }

  /** The form and its course container. */
  class CourseList {
    /** `courseCount`: the last id handed out. */
    var courseCount: int
    /** The course groups in the container, in document order. */
    var groups: seq<CourseGroup>
    /** The values of the other inputs and text areas, by name. */
    var fields: map<string, string>
    /** The values the page's markup gives those inputs, restored by `form.reset()`. */
    const defaults: map<string, string>

    ghost predicate Valid()
      reads this
    {
      courseCount >= 1 && IdsIssued(groups, courseCount) && fields.Keys == defaults.Keys
    }

    /** The page as loaded: counter at 1, no group yet. */
    constructor (defaults: map<string, string>)
      ensures Valid()
      ensures courseCount == 1 && groups == [] && fields == defaults && this.defaults == defaults
    {
      this.defaults := defaults;
      fields := defaults;
      courseCount := 1;
      groups := [];
    }

    /** `addCourseGroup`: raise the counter, then append a group tagged with it. */
    method AddCourseGroup(useDefaultValues: bool)
      requires Valid()
      modifies this`courseCount, this`groups
      ensures Valid()
      ensures courseCount == old(courseCount) + 1
      ensures groups == old(groups) + [NewGroup(courseCount, useDefaultValues)]
    {
      courseCount := courseCount + 1;
      groups := groups + [NewGroup(courseCount, useDefaultValues)];
    }

    /** The `DOMContentLoaded` handler: a prefilled group when the container is empty. */
    method OnContentLoaded()
      requires Valid()
      modifies this`courseCount, this`groups
      ensures Valid()
      ensures old(groups) == [] ==> courseCount == old(courseCount) + 1 && groups == [NewGroup(courseCount, true)]
      ensures old(groups) != [] ==> courseCount == old(courseCount) && groups == old(groups)
    {
      if |groups| == 0 {
        AddCourseGroup(true);
      }
    }

    /**
     * A click on the delete button of the group at position `k`: removed
     * only while more than one group remains; the counter is never lowered.
     */
    method DeleteCourseGroup(k: nat) returns (deleted: bool)
      requires Valid() && k < |groups|
      modifies this`groups
      ensures Valid()
      ensures deleted <==> |old(groups)| > 1
      ensures deleted ==> groups == old(groups[..k] + groups[k + 1..])
      ensures !deleted ==> groups == old(groups)
      ensures |groups| >= 1
    {
      if |groups| > 1 {
        groups := groups[..k] + groups[k + 1..];
        deleted := true;
        assert forall i :: 0 <= i < |groups| ==> groups[i] == old(groups)[if i < k then i else i + 1];
      } else {
        deleted := false;
      }
    }

    /** `resetForm`: inputs back to their defaults, one prefilled group with id 2. */
    method ResetForm()
      requires Valid()
      modifies this`courseCount, this`groups, this`fields
      ensures Valid()
      ensures fields == defaults
      ensures courseCount == 2 && groups == [NewGroup(2, true)]
    {
      fields := defaults;
      groups := [];
      courseCount := 1;
      AddCourseGroup(true);
    }

    /** `clearAllFields`: every input emptied, one blank group with id 2. */
    method ClearAllFields()
      requires Valid()
      modifies this`courseCount, this`groups, this`fields
      ensures Valid()
      ensures fields.Keys == defaults.Keys && forall k :: k in fields ==> fields[k] == ""
      ensures courseCount == 2 && groups == [NewGroup(2, false)]
    {
      fields := defaults;
      groups := [];
      courseCount := 1;
      AddCourseGroup(false);
      fields := map k | k in fields :: "";
    }

    /**
     * The submit handler: nothing when the browser's `checkValidity` fails,
     * otherwise the result page built from the current inputs, with the
     * course data read by position as the handler does.
     */
    method Submit(formValid: bool, upload: Option<string>) returns (page: Option<IntroPage>)
      requires Valid()
      ensures page.None? <==> !formValid
      ensures page.Some? ==> page.value == IntroPageOf(fields, groups, upload)
    {
      if !formValid {
        return None;
      }
      var formData := FormDataOf(fields, groups);
      var courses := GetSubmittedCoursesByPosition(formData, |groups|);
      var links := BuildLinksList(fields);
      page := Some(IntroPage(
        ImageSource(upload),
        CourseListHtml(courses),
        links,
        OptionalParagraph("Funny Thing:", Get(fields, "funnyThing")),
        OptionalParagraph("Something I would like to share:", Get(fields, "toShare"))));
    }
  }

  // ----- the submitted form data -----

  /** A submitted control name: a plain one, or a prefix followed by a group id. */
  datatype FieldName = Field(name: string) | Numbered(prefix: string, n: int)

  type FormData = map<FieldName, string>

  /** A value looked up by name: `undefined` (or `null` from `FormData.get`) when absent. */
  function Get<K>(m: map<K, string>, k: K): (v: Option<string>)
    ensures v.Some? <==> k in m
    ensures v.Some? ==> v.value == m[k]
  {
    if k in m then Some(m[k]) else None
  }

  /** The `FormData` of the form: the plain inputs, then each group's four inputs. */
  function FormDataOf(fields: map<string, string>, groups: seq<CourseGroup>): FormData {
    if groups == [] then map k | k in fields :: Field(k) := fields[k]
    else
      var g := groups[|groups| - 1];
      FormDataOf(fields, groups[..|groups| - 1])
        [Numbered("courseDept", g.id) := g.dept][Numbered("courseNum", g.id) := g.num]
        [Numbered("courseName", g.id) := g.name][Numbered("courseReason", g.id) := g.reason]
  }

  /** The course entry read for id `n`; `formData.get` gives `null` for a missing name. */
  datatype SubmittedCourse = SubmittedCourse(dept: Option<string>, num: Option<string>, name: Option<string>, reason: Option<string>)

  function ReadSubmitted(fd: FormData, n: int): SubmittedCourse {
    SubmittedCourse(Get(fd, Numbered("courseDept", n)), Get(fd, Numbered("courseNum", n)),
                    Get(fd, Numbered("courseName", n)), Get(fd, Numbered("courseReason", n)))
  }

  /** `courseData.dept && courseData.num`. */
  predicate KeepsSubmitted(c: SubmittedCourse) {
    Truthy(c.dept) && Truthy(c.num)
  }

  /** The entries read for `ids`, in order, those without dept or num dropped. */
  function CoursesByIds(fd: FormData, ids: seq<int>): (cs: seq<SubmittedCourse>)
    ensures |cs| <= |ids|
    ensures forall c :: c in cs ==> KeepsSubmitted(c)
  {
    if ids == [] then []
    else
      var front := CoursesByIds(fd, ids[..|ids| - 1]);
      var c := ReadSubmitted(fd, ids[|ids| - 1]);
      if KeepsSubmitted(c) then front + [c] else front
  }

  /** The positions in `ids` whose entry is kept, ascending. */
  function KeptIdPositions(fd: FormData, ids: seq<int>): (idx: seq<nat>)
    ensures forall j :: 0 <= j < |idx| ==> idx[j] < |ids|
    ensures forall j, k :: 0 <= j < k < |idx| ==> idx[j] < idx[k]
    ensures forall i :: 0 <= i < |ids| ==> (i in idx <==> KeepsSubmitted(ReadSubmitted(fd, ids[i])))
  {
    if ids == [] then []
    else
      var n := |ids| - 1;
      var front := ids[..n];
      var pre := KeptIdPositions(fd, front);
      var idx := pre + (if KeepsSubmitted(ReadSubmitted(fd, ids[n])) then [n] else []);
      assert n !in pre;
      forall i | 0 <= i < n
        ensures i in idx <==> KeepsSubmitted(ReadSubmitted(fd, ids[i]))
      {
        assert ids[i] == front[i];
      }
      idx
  }

  /** The extracted list is an order-preserving selection of the entries read for `ids`. */
  lemma {:induction false} CoursesByIdsAreKept(fd: FormData, ids: seq<int>)
    ensures |CoursesByIds(fd, ids)| == |KeptIdPositions(fd, ids)|
    ensures forall j :: 0 <= j < |KeptIdPositions(fd, ids)| ==>
              CoursesByIds(fd, ids)[j] == ReadSubmitted(fd, ids[KeptIdPositions(fd, ids)[j]])
  {
    if ids != [] {
      var n := |ids| - 1;
      var front := ids[..n];
      CoursesByIdsAreKept(fd, front);
      var r, r' := CoursesByIds(fd, ids), CoursesByIds(fd, front);
      var idx, idx' := KeptIdPositions(fd, ids), KeptIdPositions(fd, front);
      var c := ReadSubmitted(fd, ids[n]);
      assert r == r' + (if KeepsSubmitted(c) then [c] else []);
      assert idx == idx' + (if KeepsSubmitted(c) then [n] else []);
      forall j | 0 <= j < |idx| ensures r[j] == ReadSubmitted(fd, ids[idx[j]]) {
        if j < |idx'| {
          assert r[j] == r'[j] == ReadSubmitted(fd, front[idx'[j]]);
          assert front[idx'[j]] == ids[idx'[j]];
        }
      }
    }
  }

  /** Entries that agree on every id read give the same list. */
  lemma {:induction false} CoursesByIdsFrame(fd1: FormData, fd2: FormData, ids: seq<int>)
    requires forall i :: 0 <= i < |ids| ==> ReadSubmitted(fd1, ids[i]) == ReadSubmitted(fd2, ids[i])
    ensures CoursesByIds(fd1, ids) == CoursesByIds(fd2, ids)
  {
    if ids != [] {
      var front := ids[..|ids| - 1];
      forall i | 0 <= i < |front| ensures ReadSubmitted(fd1, front[i]) == ReadSubmitted(fd2, front[i]) {
        assert front[i] == ids[i];
      }
      CoursesByIdsFrame(fd1, fd2, front);
    }
  }

  /**
   * The submit handler as written: the group at position `index` is read
   * under the names ending in `index + 1`.
   */
  method GetSubmittedCoursesByPosition(formData: FormData, groupCount: nat) returns (courses: seq<SubmittedCourse>)
    ensures courses == CoursesByIds(formData, Positions(groupCount))
  {
    courses := [];
    for index := 0 to groupCount
      invariant courses == CoursesByIds(formData, Positions(index))
    {
      var courseData := SubmittedCourse(
        Get(formData, Numbered("courseDept", index + 1)), Get(formData, Numbered("courseNum", index + 1)),
        Get(formData, Numbered("courseName", index + 1)), Get(formData, Numbered("courseReason", index + 1)));
      assert Positions(index + 1)[..index] == Positions(index);
      if Truthy(courseData.dept) && Truthy(courseData.num) {
        courses := courses + [courseData];
      }
    }
  }

  /** `1, 2, ..., n`: the numbers the handler as written appends to the names. */
  function Positions(n: nat): (ps: seq<int>)
    ensures |ps| == n
    ensures forall i :: 0 <= i < n ==> ps[i] == i + 1
  {
    seq(n, i requires 0 <= i < n => i + 1)
  }

  /** The corrected extraction: each group read under its own id. */
  method GetSubmittedCourses(formData: FormData, ids: seq<int>) returns (courses: seq<SubmittedCourse>)
    ensures courses == CoursesByIds(formData, ids)
  {
    courses := [];
    for i := 0 to |ids|
      invariant courses == CoursesByIds(formData, ids[..i])
    {
      var courseData := ReadSubmitted(formData, ids[i]);
      assert ids[..i + 1][..i] == ids[..i];
      if Truthy(courseData.dept) && Truthy(courseData.num) {
        courses := courses + [courseData];
      }
    }
    assert ids[..|ids|] == ids;
  }

  /** The groups whose department and number are filled in, as submitted entries. */
  function FilledGroups(groups: seq<CourseGroup>): (cs: seq<SubmittedCourse>)
    ensures |cs| <= |groups|
  {
    if groups == [] then []
    else
      var g := groups[|groups| - 1];
      FilledGroups(groups[..|groups| - 1]) +
        (if g.dept != "" && g.num != "" then [SubmittedCourse(Some(g.dept), Some(g.num), Some(g.name), Some(g.reason))] else [])
  }

  /** Adding a group's four entries leaves every other id's entry as it was. */
  lemma ReadOtherId(fields: map<string, string>, groups: seq<CourseGroup>, n: int)
    requires groups != [] && n != groups[|groups| - 1].id
    ensures ReadSubmitted(FormDataOf(fields, groups), n) == ReadSubmitted(FormDataOf(fields, groups[..|groups| - 1]), n)
  {
  }

  /**
   * Read by their own ids, the submitted entries are exactly the groups whose
   * department and number are filled in, in document order, with their values.
   */
  lemma {:induction false} CorrectedReadsOwnGroups(fields: map<string, string>, groups: seq<CourseGroup>, count: int)
    requires IdsIssued(groups, count)
    ensures CoursesByIds(FormDataOf(fields, groups), Ids(groups)) == FilledGroups(groups)
  {
    if groups != [] {
      var n := |groups| - 1;
      var front, g := groups[..n], groups[n];
      assert IdsIssued(front, count);
      CorrectedReadsOwnGroups(fields, front, count);
      EarlierIdsUnchanged(fields, groups, count);
      ReadLastGroup(fields, groups);
    }
  }

  /**
   * Read by id, the entries of all groups are those of the earlier groups
   * followed by the last group's, when its department and number are filled in.
   */
  lemma ReadLastGroup(fields: map<string, string>, groups: seq<CourseGroup>)
    requires groups != []
    ensures var n, g := |groups| - 1, groups[|groups| - 1];
            var fd := FormDataOf(fields, groups);
            CoursesByIds(fd, Ids(groups)) == CoursesByIds(fd, Ids(groups[..n])) +
              (if g.dept != "" && g.num != "" then [SubmittedCourse(Some(g.dept), Some(g.num), Some(g.name), Some(g.reason))] else [])
  {
    var n, g := |groups| - 1, groups[|groups| - 1];
    assert Ids(groups)[..n] == Ids(groups[..n]);
    assert ReadSubmitted(FormDataOf(fields, groups), g.id) == SubmittedCourse(Some(g.dept), Some(g.num), Some(g.name), Some(g.reason));
  }

  /** The entries of the earlier groups read the same once the last group is added. */
  lemma EarlierIdsUnchanged(fields: map<string, string>, groups: seq<CourseGroup>, count: int)
    requires IdsIssued(groups, count) && groups != []
    ensures var front := groups[..|groups| - 1];
            CoursesByIds(FormDataOf(fields, groups), Ids(front)) == CoursesByIds(FormDataOf(fields, front), Ids(front))
  {
    var front := groups[..|groups| - 1];
    var ids := Ids(front);
    forall i | 0 <= i < |ids|
      ensures ReadSubmitted(FormDataOf(fields, groups), ids[i]) == ReadSubmitted(FormDataOf(fields, front), ids[i])
    {
      assert ids[i] == groups[i].id;
      ReadOtherId(fields, groups, ids[i]);
    }
    CoursesByIdsFrame(FormDataOf(fields, groups), FormDataOf(fields, front), ids);
  }

  /**
   * As written, the group with the highest id (the last one added) is never
   * read, whatever it holds: every name read ends in a position number, and
   * that group's id is larger than the number of groups.
   */
  lemma LastGroupNeverRead(fields: map<string, string>, groups: seq<CourseGroup>, count: int, other: CourseGroup)
    requires IdsIssued(groups, count) && groups != []
    requires other.id == groups[|groups| - 1].id
    ensures var front := groups[..|groups| - 1];
            CoursesByIds(FormDataOf(fields, groups), Positions(|groups|)) ==
            CoursesByIds(FormDataOf(fields, front + [other]), Positions(|groups|))
  {
    var n := |groups| - 1;
    var front := groups[..n];
    var changed := front + [other];
    IdsRunAhead(groups, count, n);
    assert changed[..n] == front;
    forall i | 0 <= i < |groups|
      ensures ReadSubmitted(FormDataOf(fields, groups), Positions(|groups|)[i])
           == ReadSubmitted(FormDataOf(fields, changed), Positions(|groups|)[i])
    {
      ReadOtherId(fields, groups, i + 1);
      ReadOtherId(fields, changed, i + 1);
    }
    CoursesByIdsFrame(FormDataOf(fields, groups), FormDataOf(fields, changed), Positions(|groups|));
  }

  /**
   * The page cleared and filled in again (or reset, or as loaded) has one
   * group, with id 2; read by position its course is lost, read by id it
   * is kept.
   */
  lemma SingleGroupLostByPosition(fields: map<string, string>, g: CourseGroup)
    requires g.id == 2 && g.dept != "" && g.num != ""
    ensures CoursesByIds(FormDataOf(fields, [g]), Positions(1)) == []
    ensures CoursesByIds(FormDataOf(fields, [g]), Ids([g])) == [SubmittedCourse(Some(g.dept), Some(g.num), Some(g.name), Some(g.reason))]
  {
    var fd := FormDataOf(fields, [g]);
    SingleGroupNotAtOne(fields, g);
    assert [g][..0] == [];
    assert ReadSubmitted(fd, 2) == SubmittedCourse(Some(g.dept), Some(g.num), Some(g.name), Some(g.reason));
    assert Ids([g]) == [2];
    assert Ids([g])[..0] == [];
  }

  /** With one group of id 2, nothing is submitted under names ending in 1. */
  lemma SingleGroupNotAtOne(fields: map<string, string>, g: CourseGroup)
    requires g.id == 2
    ensures CoursesByIds(FormDataOf(fields, [g]), Positions(1)) == []
  {
    var fd := FormDataOf(fields, [g]);
    assert [g][..0] == [];
    assert Numbered("courseDept", 1) !in FormDataOf(fields, []);
    assert Numbered("courseDept", 1) !in fd;
    assert Positions(1) == [1];
    assert Positions(1)[..0] == [];
  }

  // ----- the result page -----

  /**
   * The parts of the result page that depend on what was entered. The
   * handler also computes `fullName`, but the page does not show it.
   */
  datatype IntroPage = IntroPage(imageSrc: string, courseList: string, linksList: string,
                                 funnyThing: string, toShare: string)

  /**
   * The page the handler builds from the inputs, with the courses read by
   * position: the default picture without an upload, no link item and no
   * optional paragraph for an empty input.
   */
  function IntroPageOf(fields: map<string, string>, groups: seq<CourseGroup>, upload: Option<string>): (p: IntroPage)
    ensures upload.None? ==> p.imageSrc == "images/default_intro_image.jpg"
    ensures p.linksList == "" <==> forall i :: 1 <= i <= 5 ==> !Truthy(Get(fields, LinkKey(i)))
    ensures p.funnyThing == "" <==> !Truthy(Get(fields, "funnyThing"))
    ensures p.toShare == "" <==> !Truthy(Get(fields, "toShare"))
  {
    LinksHtmlEmptyIff(fields, 5);
    IntroPage(
      ImageSource(upload),
      CourseListHtml(CoursesByIds(FormDataOf(fields, groups), Positions(|groups|))),
      LinksHtml(fields, 5),
      OptionalParagraph("Funny Thing:", Get(fields, "funnyThing")),
      OptionalParagraph("Something I would like to share:", Get(fields, "toShare")))
  }

  /** The page as written shows the same course list whatever the last-added group holds. */
  lemma IntroPageIgnoresLastGroup(fields: map<string, string>, groups: seq<CourseGroup>, count: int,
                                  other: CourseGroup, upload: Option<string>)
    requires IdsIssued(groups, count) && groups != []
    requires other.id == groups[|groups| - 1].id
    ensures IntroPageOf(fields, groups[..|groups| - 1] + [other], upload) == IntroPageOf(fields, groups, upload)
  {
    LastGroupNeverRead(fields, groups, count, other);
  }

  /** The page as written after loading or resetting (one group, id 2) lists no course. */
  lemma SingleGroupPageListsNoCourse(fields: map<string, string>, g: CourseGroup, upload: Option<string>)
    requires g.id == 2
    ensures IntroPageOf(fields, [g], upload).courseList == ""
  {
    SingleGroupNotAtOne(fields, g);
  }

  /** The page with the courses read by each group's own id, as intended. */
  function CorrectedIntroPageOf(fields: map<string, string>, groups: seq<CourseGroup>, upload: Option<string>): (p: IntroPage)
    ensures p.imageSrc == IntroPageOf(fields, groups, upload).imageSrc
    ensures p.linksList == IntroPageOf(fields, groups, upload).linksList
    ensures p.funnyThing == IntroPageOf(fields, groups, upload).funnyThing
    ensures p.toShare == IntroPageOf(fields, groups, upload).toShare
  {
    IntroPageOf(fields, groups, upload).(courseList := CourseListHtml(CoursesByIds(FormDataOf(fields, groups), Ids(groups))))
  }

  /** The corrected page lists exactly the filled-in groups, in document order. */
  lemma IntroPageListsFilledGroups(fields: map<string, string>, groups: seq<CourseGroup>, count: int, upload: Option<string>)
    requires IdsIssued(groups, count)
    ensures CorrectedIntroPageOf(fields, groups, upload).courseList == CourseListHtml(FilledGroups(groups))
  {
    CorrectedReadsOwnGroups(fields, groups, count);
  }

  /** The parenthesised middle part: the middle name, else the nickname, else nothing. */
  function MiddlePart(middleName: Option<string>, nickname: Option<string>): (p: string)
    ensures p == "" <==> !Truthy(middleName) && !Truthy(nickname)
    ensures Truthy(middleName) ==> p == "(" + middleName.value + ")"
    ensures !Truthy(middleName) && Truthy(nickname) ==> p == "(" + nickname.value + ")"
  {
    if Truthy(middleName) then "(" + middleName.value + ")"
    else if Truthy(nickname) then "(" + nickname.value + ")"
    else ""
  }

  /** `.filter(Boolean)`: the values that are present and non-empty. */
  function Present(parts: seq<Option<string>>): (ps: seq<string>)
    ensures |ps| <= |parts|
    ensures forall p :: p in ps ==> p != ""
  {
    if parts == [] then []
    else (if Truthy(parts[0]) then [parts[0].value] else []) + Present(parts[1..])
  }

  /** `.join(sep)`. */
  function Join(ps: seq<string>, sep: string): (r: string)
    ensures ps != [] ==> |r| >= |ps[0]|
  {
    if ps == [] then ""
    else if |ps| == 1 then ps[0]
    else ps[0] + sep + Join(ps[1..], sep)
  }

  /** `fullName`: first name, middle part and last name, the present ones joined by single spaces. */
  function FullName(firstName: Option<string>, middleName: Option<string>, nickname: Option<string>, lastName: Option<string>): (r: string)
    ensures r == "" <==> !Truthy(firstName) && !Truthy(middleName) && !Truthy(nickname) && !Truthy(lastName)
  {
    var m := MiddlePart(middleName, nickname);
    var ps := Present([firstName, Some(m), lastName]);
    PresentThree(firstName, m, lastName);
    assert ps != [] ==> ps[0] in ps;
    Join(ps, " ")
  }

  /** The parts are not trimmed: a trailing space on the first name doubles the separator. */
  lemma FullNameKeepsSpaces()
    ensures FullName(Some("Ada "), None, None, Some("Lovelace")) == "Ada  Lovelace"
  {
    FullNameParts(Some("Ada "), None, None, Some("Lovelace"));
  }

  /**
   * What the joined name looks like for each combination of present parts:
   * no leading, trailing or doubled separator, and empty only when all three
   * parts are.
   */
  lemma FullNameParts(firstName: Option<string>, middleName: Option<string>, nickname: Option<string>, lastName: Option<string>)
    ensures var m, r := MiddlePart(middleName, nickname), FullName(firstName, middleName, nickname, lastName);
            Truthy(firstName) && Truthy(lastName) ==>
              r == firstName.value + " " + (if m != "" then m + " " else "") + lastName.value
    ensures var m, r := MiddlePart(middleName, nickname), FullName(firstName, middleName, nickname, lastName);
            Truthy(firstName) && !Truthy(lastName) ==> r == firstName.value + (if m != "" then " " + m else "")
    ensures var m, r := MiddlePart(middleName, nickname), FullName(firstName, middleName, nickname, lastName);
            !Truthy(firstName) && Truthy(lastName) ==> r == (if m != "" then m + " " else "") + lastName.value
    ensures !Truthy(firstName) && !Truthy(lastName) ==>
              FullName(firstName, middleName, nickname, lastName) == MiddlePart(middleName, nickname)
  {
    var m := MiddlePart(middleName, nickname);
    var f, l := Show(firstName), Show(lastName);
    var ps := Present([firstName, Some(m), lastName]);
    PresentThree(firstName, m, lastName);
    if Truthy(firstName) && Truthy(lastName) {
      if m != "" { assert ps == [f, m, l]; JoinSmall(f, m, l, " "); }
      else { assert ps == [f, l]; JoinSmall(f, l, l, " "); }
    } else if Truthy(firstName) {
      if m != "" { assert ps == [f, m]; JoinSmall(f, m, l, " "); }
      else { assert ps == [f]; JoinSmall(f, l, l, " "); }
    } else if Truthy(lastName) {
      if m != "" { assert ps == [m, l]; JoinSmall(m, l, l, " "); }
      else { assert ps == [l]; JoinSmall(l, l, l, " "); }
    } else {
      if m != "" { assert ps == [m]; JoinSmall(m, l, l, " "); }
      else { assert ps == []; }
    }
  }

  /** `.filter(Boolean)` on the three parts of the name. */
  lemma PresentThree(first: Option<string>, m: string, last: Option<string>)
    ensures Present([first, Some(m), last]) ==
            (if Truthy(first) then [first.value] else []) + (if m != "" then [m] else []) +
            (if Truthy(last) then [last.value] else [])
  {
    var parts := [first, Some(m), last];
    assert parts[1..] == [Some(m), last];
    assert parts[1..][1..] == [last];
    assert [last][1..] == [];
    var a := if Truthy(first) then [first.value] else [];
    var b := if m != "" then [m] else [];
    var c := if Truthy(last) then [last.value] else [];
    assert Present([last]) == c + Present([]);
    assert Present(parts[1..]) == b + c;
    assert Present(parts) == a + (b + c);
  }

  lemma JoinSmall(x: string, y: string, z: string, sep: string)
    ensures Join([x], sep) == x
    ensures Join([x, y], sep) == x + sep + y
    ensures Join([x, y, z], sep) == x + sep + y + sep + z
  {
    assert [x, y][1..] == [y];
    assert [x, y, z][1..] == [y, z];
    assert [y, z][1..] == [z];
    assert Join([y, z], sep) == y + sep + z;
  }

  /** The image shown: the uploaded file's data URL, or the default picture. */
  function ImageSource(upload: Option<string>): (src: string)
    ensures upload.None? ==> src == "images/default_intro_image.jpg"
    ensures upload.Some? ==> src == upload.value
  {
    match upload
    case None => "images/default_intro_image.jpg"
    case Some(dataUrl) => dataUrl
  }

  /** A paragraph with a bold heading, present exactly when its value is non-empty. */
  function OptionalParagraph(heading: string, value: Option<string>): (p: string)
    ensures p == "" <==> !Truthy(value)
    ensures var prefix := "<p><strong>" + heading + "</strong> ";
            Truthy(value) ==> |p| > |prefix| + |value.value| && p[..|prefix|] == prefix &&
                              p[|prefix|..|prefix| + |value.value|] == value.value
  {
    if Truthy(value) then "<p><strong>" + heading + "</strong> " + value.value + "</p>"
    else ""
  }

  /** A template value: the text, or `null` for a name `FormData.get` did not find. */
  function Show(v: Option<string>): string {
    match v
    case None => "null"
    case Some(s) => s
  }

  /** One `<li>` of the submitted course list, opening with the bold department. */
  function CourseLi(c: SubmittedCourse): (r: string)
    ensures var p := "<li><b>" + Show(c.dept);
            |r| > |p| + 5 && r[..|p|] == p && r[|r| - 5..] == "</li>"
  {
    "<li><b>" + Show(c.dept) + " " + Show(c.num) + " - " + Show(c.name) + ":</b> " + Show(c.reason) + "</li>"
  }

  /** `courses.map(...).join('')`. */
  function CourseListHtml(cs: seq<SubmittedCourse>): string {
    if cs == [] then "" else CourseLi(cs[0]) + CourseListHtml(cs[1..])
  }

  /** The list of a sequence of courses is the lists of its parts, one after the other. */
  lemma {:induction false} CourseListHtmlConcat(a: seq<SubmittedCourse>, b: seq<SubmittedCourse>)
    ensures CourseListHtml(a + b) == CourseListHtml(a) + CourseListHtml(b)
  {
    if a != [] {
      var x := CourseLi(a[0]);
      assert (a + b)[0] == a[0];
      assert (a + b)[1..] == a[1..] + b;
      CourseListHtmlConcat(a[1..], b);
      calc {
        CourseListHtml(a + b);
        x + CourseListHtml(a[1..] + b);
        x + (CourseListHtml(a[1..]) + CourseListHtml(b));
        (x + CourseListHtml(a[1..])) + CourseListHtml(b);
      }
    } else {
      assert a + b == b;
    }
  }

  // ----- the links list -----

  /** `link${i}` for a one-digit `i`. */
  function LinkKey(i: int): (k: string)
    requires 0 <= i <= 9
    ensures |k| == 5 && k[..4] == "link"
  {
    "link" + [(('0' as int) + i) as char]
  }

  /** One `<li>` of the links list; the address is also the link text. */
  function LinkLi(url: string): string {
    "<li><a href=\"" + url + "\" target=\"_blank\">" + url + "</a></li>"
  }

  /** The list after the loop has looked at `link1` .. `linkn`. */
  function LinksHtml(data: map<string, string>, n: nat): string
    requires n <= 9
  {
    if n == 0 then ""
    else
      var url := Get(data, LinkKey(n));
      LinksHtml(data, n - 1) + (if Truthy(url) then LinkLi(url.value) else "")
  }

  /** The list is empty exactly when none of `link1` .. `linkn` holds a non-empty address. */
  lemma {:induction false} LinksHtmlEmptyIff(data: map<string, string>, n: nat)
    requires n <= 9
    ensures LinksHtml(data, n) == "" <==> forall i :: 1 <= i <= n ==> !Truthy(Get(data, LinkKey(i)))
  {
    if n > 0 {
      LinksHtmlEmptyIff(data, n - 1);
      var url := Get(data, LinkKey(n));
      if Truthy(url) {
        assert |LinkLi(url.value)| > 0;
      }
    }
  }

  /** The slots among `1..n` holding a non-empty address, ascending. */
  function LinkSlots(data: map<string, string>, n: nat): (slots: seq<nat>)
    requires n <= 9
    ensures |slots| <= n
    ensures forall j :: 0 <= j < |slots| ==> 1 <= slots[j] <= n
    ensures forall j, k :: 0 <= j < k < |slots| ==> slots[j] < slots[k]
    ensures forall i :: 1 <= i <= n ==> (i in slots <==> Truthy(Get(data, LinkKey(i))))
  {
    if n == 0 then []
    else
      var pre := LinkSlots(data, n - 1);
      assert n !in pre;
      pre + (if Truthy(Get(data, LinkKey(n))) then [n] else [])
  }

  /** The address typed into slot `i`, `''` when there is none. */
  function UrlAt(data: map<string, string>, i: int): string {
    if 0 <= i <= 9 && LinkKey(i) in data then data[LinkKey(i)] else ""
  }

  /** The items of the given slots, in order. */
  function SlotItems(data: map<string, string>, slots: seq<nat>): string {
    if slots == [] then ""
    else
      var last := slots[|slots| - 1];
      SlotItems(data, slots[..|slots| - 1]) + LinkLi(UrlAt(data, last))
  }

  /** One more slot adds its item at the end. */
  lemma SlotItemsSnoc(data: map<string, string>, slots: seq<nat>, n: nat)
    ensures SlotItems(data, slots + [n]) == SlotItems(data, slots) + LinkLi(UrlAt(data, n))
  {
    assert (slots + [n])[..|slots|] == slots;
  }

  /**
   * The list holds one item per filled slot, in ascending slot order, each
   * showing that slot's address: at most `n` items.
   */
  lemma {:induction false} LinksHtmlIsSlotItems(data: map<string, string>, n: nat)
    requires n <= 9
    ensures LinksHtml(data, n) == SlotItems(data, LinkSlots(data, n))
  {
    if n > 0 {
      LinksHtmlIsSlotItems(data, n - 1);
      var pre := LinkSlots(data, n - 1);
      var url := Get(data, LinkKey(n));
      if Truthy(url) {
        assert LinkSlots(data, n) == pre + [n];
        SlotItemsSnoc(data, pre, n);
        assert UrlAt(data, n) == url.value;
      } else {
        assert LinkSlots(data, n) == pre;
      }
    }
  }

  /** The `for (let i = 1; i <= 5; i++)` loop over the five link inputs. */
  method BuildLinksList(data: map<string, string>) returns (linksListHTML: string)
    ensures linksListHTML == LinksHtml(data, 5)
  {
    linksListHTML := "";
    for i := 1 to 6
      invariant linksListHTML == LinksHtml(data, i - 1)
    {
      var url := Get(data, LinkKey(i));
      if Truthy(url) {
        linksListHTML := linksListHTML + LinkLi(url.value);
      }
    }
  }
}
