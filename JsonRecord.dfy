/**
 * The record `generate_json.js` builds before serializing it: fifteen string
 * fields read with `getValue`, then the course list (department-only policy)
 * and the link list, under a fixed key order.
 */
module JsonRecord {
  import opened Wrappers
  import opened Text
  import opened FormRows

  /** The JSON values the record is made of; an object keeps its members in order. */
  datatype Json = JString(s: string) | JArray(items: seq<Json>) | JObject(members: seq<(string, Json)>)

  /** The keys of the record, in the order they are written. */
  const RecordKeys: seq<string> := [
    "firstName", "preferredName", "middleInitial", "lastName", "divider",
    "mascotAdjective", "mascotAnimal", "image", "imageCaption", "personalStatement",
    "personalBackground", "professionalBackground", "academicBackground",
    "subjectBackground", "primaryComputer", "courses", "links"]

  /** The form field each of the first fifteen keys is read from. */
  const FieldIds: seq<string> := [
    "first-name", "nickname", "middle-name", "last-name", "divider",
    "mascot-adj", "mascot-animal", "image-path", "picture-caption", "personal-statement",
    "personal-background", "professional-background", "academic-background",
    "subject-background-1", "primary-computer"]

  /** The names of an object's members, in order. */
  function Names(members: seq<(string, Json)>): (ns: seq<string>)
    ensures |ns| == |members|
    ensures forall i :: 0 <= i < |members| ==> ns[i] == members[i].0
  {
    seq(|members|, i requires 0 <= i < |members| => members[i].0)
  }

  predicate Distinct(ns: seq<string>) {
    forall i, j :: 0 <= i < j < |ns| ==> ns[i] != ns[j]
  }

  /** Looking a key up in an object: the first member with that name. */
  function Lookup(members: seq<(string, Json)>, key: string): (v: Option<Json>)
    ensures v.None? <==> key !in Names(members)
  {
    if members == [] then None
    else if members[0].0 == key then Some(members[0].1)
    else
      var v := Lookup(members[1..], key);
      assert Names(members) == [members[0].0] + Names(members[1..]);
      v
  }

  /** In an object whose names are distinct, a member is found under its own name. */
  lemma {:induction false} LookupAt(members: seq<(string, Json)>, i: nat)
    requires i < |members| && Distinct(Names(members))
    ensures Lookup(members, members[i].0) == Some(members[i].1)
  {
    if i > 0 {
      assert Names(members)[0] != Names(members)[i];
      assert Distinct(Names(members[1..])) by {
        forall a, b | 0 <= a < b < |members| - 1 ensures Names(members[1..])[a] != Names(members[1..])[b] {
          assert Names(members)[a + 1] != Names(members)[b + 1];
        }
      }
      assert members[1..][i - 1] == members[i];
      LookupAt(members[1..], i - 1);
    }
  }

  /** `{ "department", "number", "name", "reason" }` of one course. */
  function CourseJson(c: Course): Json {
    JObject([("department", JString(c.department)), ("number", JString(c.number)),
             ("name", JString(c.name)), ("reason", JString(c.reason))])
  }

  /** `{ "name", "href" }` of one link. */
  function LinkJson(l: Link): Json {
    JObject([("name", JString(l.name)), ("href", JString(l.href))])
  }

  function CoursesJson(cs: seq<Course>): (j: Json)
    ensures j.JArray? && |j.items| == |cs|
    ensures forall i :: 0 <= i < |cs| ==> j.items[i] == CourseJson(cs[i])
  {
    JArray(seq(|cs|, i requires 0 <= i < |cs| => CourseJson(cs[i])))
  }

  function LinksJson(ls: seq<Link>): (j: Json)
    ensures j.JArray? && |j.items| == |ls|
    ensures forall i :: 0 <= i < |ls| ==> j.items[i] == LinkJson(ls[i])
  {
    JArray(seq(|ls|, i requires 0 <= i < |ls| => LinkJson(ls[i])))
  }

  /** The fifteen string members: each key paired with the trimmed value of its field. */
  function FieldMembers(dom: Dom): (ms: seq<(string, Json)>)
    ensures |ms| == |FieldIds|
    ensures forall i :: 0 <= i < |FieldIds| ==> ms[i] == (RecordKeys[i], JString(GetValue(dom, FieldIds[i])))
  {
    seq(|FieldIds|, i requires 0 <= i < |FieldIds| => (RecordKeys[i], JString(GetValue(dom, FieldIds[i]))))
  }

  /**
   * `dataObject`: every key in its fixed place, distinct from the others, the
   * first fifteen holding the trimmed value of their field (`subjectBackground`
   * from `subject-background-1` only, `image` from `image-path`), then the
   * courses kept by the department-only rule and the complete links.
   */
  function DataObject(dom: Dom, courseRows: seq<CourseRow>, linkRows: seq<LinkRow>): (o: Json)
    ensures o.JObject? && Names(o.members) == RecordKeys
    ensures forall i :: 0 <= i < |FieldIds| ==> o.members[i].1 == JString(GetValue(dom, FieldIds[i]))
    ensures o.members[15].1 == CoursesJson(SelectCourses(DeptOnly, courseRows))
    ensures o.members[16].1 == LinksJson(SelectLinks(linkRows))
  {
    var ms := FieldMembers(dom) + [("courses", CoursesJson(SelectCourses(DeptOnly, courseRows))),
                                   ("links", LinksJson(SelectLinks(linkRows)))];
    assert Names(ms) == RecordKeys by {
      forall i | 0 <= i < |RecordKeys| ensures Names(ms)[i] == RecordKeys[i] {
        if i < |FieldIds| { assert ms[i] == FieldMembers(dom)[i]; }
      }
    }
    JObject(ms)
  }

  /** No two keys share both their length and their first letter, so no two are equal. */
  lemma RecordKeysDistinct()
    ensures Distinct(RecordKeys)
  {
    var sig := seq(|RecordKeys|, i requires 0 <= i < |RecordKeys| => (|RecordKeys[i]|, RecordKeys[i][0]));
    assert sig == [(9, 'f'), (13, 'p'), (13, 'm'), (8, 'l'), (7, 'd'), (15, 'm'), (12, 'm'), (5, 'i'), (12, 'i'),
                   (17, 'p'), (18, 'p'), (22, 'p'), (18, 'a'), (17, 's'), (15, 'p'), (7, 'c'), (5, 'l')];
    forall i, j | 0 <= i < j < |RecordKeys| ensures RecordKeys[i] != RecordKeys[j] {
      assert sig[i] != sig[j];
    }
  }

  /** In any object written under the record's keys, each key finds its own member. */
  lemma LookupEachKey(members: seq<(string, Json)>)
    requires Names(members) == RecordKeys
    ensures forall i :: 0 <= i < |RecordKeys| ==> Lookup(members, RecordKeys[i]) == Some(members[i].1)
  {
    RecordKeysDistinct();
    forall i | 0 <= i < |RecordKeys|
      ensures Lookup(members, RecordKeys[i]) == Some(members[i].1)
    {
      LookupAt(members, i);
    }
  }

  /** The key in place `i` finds the member in place `i`. */
  lemma LookupKey(members: seq<(string, Json)>, i: nat, key: string)
    requires Names(members) == RecordKeys && i < |RecordKeys| && RecordKeys[i] == key
    ensures Lookup(members, key) == Some(members[i].1)
  {
    LookupEachKey(members);
  }

  /** Each key of the record looks up the member written under it. */
  lemma LookupDataObject(dom: Dom, courseRows: seq<CourseRow>, linkRows: seq<LinkRow>)
    ensures var o := DataObject(dom, courseRows, linkRows);
            forall i :: 0 <= i < |RecordKeys| ==> Lookup(o.members, RecordKeys[i]) == Some(o.members[i].1)
  {
    LookupEachKey(DataObject(dom, courseRows, linkRows).members);
  }

  /**
   * A reader of the serialized object finds `image` holding the trimmed
   * `image-path` and `subjectBackground` the trimmed `subject-background-1`.
   */
  lemma LookupImageAndSubject(dom: Dom, courseRows: seq<CourseRow>, linkRows: seq<LinkRow>)
    ensures var o := DataObject(dom, courseRows, linkRows);
            Lookup(o.members, "image") == Some(JString(GetValue(dom, "image-path"))) &&
            Lookup(o.members, "subjectBackground") == Some(JString(GetValue(dom, "subject-background-1")))
  {
    var o := DataObject(dom, courseRows, linkRows);
    LookupKey(o.members, 7, "image");
    assert o.members[7].1 == JString(GetValue(dom, FieldIds[7]));
    LookupKey(o.members, 13, "subjectBackground");
    assert o.members[13].1 == JString(GetValue(dom, FieldIds[13]));
  }

  /** The record reads no field other than the fifteen listed ones. */
  lemma {:induction false} DataObjectReadsOnlyFieldIds(dom1: Dom, dom2: Dom, courseRows: seq<CourseRow>, linkRows: seq<LinkRow>)
    requires forall i :: 0 <= i < |FieldIds| ==> GetValue(dom1, FieldIds[i]) == GetValue(dom2, FieldIds[i])
    ensures DataObject(dom1, courseRows, linkRows) == DataObject(dom2, courseRows, linkRows)
  {
    var o1, o2 := DataObject(dom1, courseRows, linkRows), DataObject(dom2, courseRows, linkRows);
    assert |o1.members| == |o2.members| == |RecordKeys|;
    forall i | 0 <= i < |o1.members| ensures o1.members[i] == o2.members[i] {
      assert o1.members[i].0 == Names(o1.members)[i] == Names(o2.members)[i] == o2.members[i].0;
    }
    assert o1.members == o2.members;
  }

  /** What is typed into subject backgrounds 2 to 4 never reaches the record. */
  lemma OtherSubjectBackgroundsIgnored(dom: Dom, id: string, v: string, courseRows: seq<CourseRow>, linkRows: seq<LinkRow>)
    requires id == "subject-background-2" || id == "subject-background-3" || id == "subject-background-4"
    ensures DataObject(dom[id := v], courseRows, linkRows) == DataObject(dom, courseRows, linkRows)
  {
    forall i | 0 <= i < |FieldIds| ensures GetValue(dom[id := v], FieldIds[i]) == GetValue(dom, FieldIds[i]) {
      assert FieldIds[i] != id;
    }
    DataObjectReadsOnlyFieldIds(dom[id := v], dom, courseRows, linkRows);
  }

  /** Every course in the record has a non-empty department, and exactly those are kept. */
  lemma RecordCoursesHaveDepartment(dom: Dom, courseRows: seq<CourseRow>, linkRows: seq<LinkRow>)
    ensures var o := DataObject(dom, courseRows, linkRows);
            var idx := KeptPositions(DeptOnly, ReadCourses(courseRows));
            |o.members[15].1.items| == |idx| &&
            (forall i :: 0 <= i < |courseRows| ==> (i in idx <==> ReadCourse(courseRows[i]).department != "")) &&
            (forall j :: 0 <= j < |idx| ==> o.members[15].1.items[j] == CourseJson(ReadCourse(courseRows[idx[j]])))
  {
    SelectCoursesAreKeptRows(DeptOnly, courseRows);
  }
}
