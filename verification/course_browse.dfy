/** The `filteredCourses` rule of `components/student/course-browse.tsx`: a case-blind
    search over title and description combined with a level selector. Lower-casing is
    Unicode `toLowerCase`, passed in as the function `lower`. */
module CourseBrowse {
  import opened Common
  import opened Model

  /** `needle` sits in `hay` starting at position `i`. */
  predicate OccursAt(hay: string, needle: string, i: int)
  {
    0 <= i <= |hay| - |needle| && hay[i..i + |needle|] == needle
  }

  /** `hay.includes(needle)`: `needle` sits in `hay` somewhere. */
  ghost predicate Occurs(hay: string, needle: string)
  {
    exists i :: OccursAt(hay, needle, i)
  }

  /** Substring search by sliding the needle along the haystack. */
  function Contains(hay: string, needle: string): (r: bool)
    ensures r <==> Occurs(hay, needle)
    decreases |hay|
  {
    if needle <= hay then
      assert OccursAt(hay, needle, 0);
      true
    else if |hay| == 0 then
      false
    else
      var found := Contains(hay[1..], needle);
      assert found ==> Occurs(hay, needle) by {
        if found {
          var j :| OccursAt(hay[1..], needle, j);
          assert hay[1..][j..j + |needle|] == hay[j + 1..j + 1 + |needle|];
          assert OccursAt(hay, needle, j + 1);
        }
      }
      assert Occurs(hay, needle) ==> found by {
        if Occurs(hay, needle) {
          var i :| OccursAt(hay, needle, i);
          if i > 0 {
            assert hay[1..][i - 1..i - 1 + |needle|] == hay[i..i + |needle|];
            assert OccursAt(hay[1..], needle, i - 1);
          }
        }
      }
      found
  }

  /** The level selector: "all" or one level. */
  datatype LevelFilter = AnyLevel | OnlyLevel(level: Level)

  /** A course is shown when the search text occurs in its title or description and its
      level passes the selector. */
  predicate Keep(c: Course, search: string, level: LevelFilter, lower: string -> string)
  {
    var needle := lower(search);
    (Contains(lower(c.title), needle) || Contains(lower(c.description), needle))
    && (level == AnyLevel || c.level == level.level)
  }

  /** `filteredCourses`. */
  function FilterCourses(courses: seq<Course>, search: string, level: LevelFilter, lower: string -> string): (r: seq<Course>)
    ensures forall c :: c in r <==> c in courses && Keep(c, search, level, lower)
    ensures IsSubsequence(r, courses)
    ensures level.OnlyLevel? ==> forall i :: 0 <= i < |r| ==> r[i].level == level.level
  {
    Filter(courses, (c: Course) => Keep(c, search, level, lower))
  }

  /** Every kept course contains the search text in its title or its description. */
  lemma KeptCoursesMatchSearch(courses: seq<Course>, search: string, level: LevelFilter, lower: string -> string)
    ensures forall i :: 0 <= i < |FilterCourses(courses, search, level, lower)| ==>
      var c := FilterCourses(courses, search, level, lower)[i];
      Occurs(lower(c.title), lower(search)) || Occurs(lower(c.description), lower(search))
  {
    var r := FilterCourses(courses, search, level, lower);
    forall i | 0 <= i < |r|
      ensures Occurs(lower(r[i].title), lower(search)) || Occurs(lower(r[i].description), lower(search))
    {
      assert r[i] in r;
    }
  }

  /** With an empty search and every level selected, the whole catalogue is shown. */
  lemma EmptySearchShowsAll(courses: seq<Course>, lower: string -> string)
    requires lower("") == ""
    ensures FilterCourses(courses, "", AnyLevel, lower) == courses
  {
    FilterKeepsAll(courses, (c: Course) => Keep(c, "", AnyLevel, lower));
  }
}
