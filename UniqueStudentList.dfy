/**
 * The student registry: a list of students in which no two share a name.
 * Adding or editing so that two entries would share a name is refused as a
 * duplicate; removing or editing a student that is not in the list is refused
 * as not found. The registry also hosts the operation that deletes one date of
 * a student's session in place.
 */
module Registry {
  import opened Wrappers
  import opened SessionDates
  import opened Sessions
  import opened Students

  datatype RegistryError =
    | DuplicateStudent
    | StudentNotFound
    | SessionNotFound
    | NotPartOfSession(date: SessionDate)

  /** No two entries of list share a name. */
  predicate NamesDistinct(list: seq<Student>) {
    forall i, j :: 0 <= i < j < |list| ==> list[i].name != list[j].name
  }

  /** Some entry is the same student as toCheck (a stream anyMatch over toCheck.isSameStudent). */
  function AnySameStudent(list: seq<Student>, toCheck: Student): bool {
    |list| > 0 && (toCheck.IsSameStudent(list[0]) || AnySameStudent(list[1..], toCheck))
  }

  /** Some entry has the given name. */
  function AnyNamed(list: seq<Student>, name: Name): bool {
    |list| > 0 && (list[0].name == name || AnyNamed(list[1..], name))
  }

  /** Some entry's session list holds the given session. */
  function AnyHasSession(list: seq<Student>, session: Session): bool
    reads list
  {
    |list| > 0 && (session in list[0].sessions || AnyHasSession(list[1..], session))
  }

  /** List.indexOf: the first position whose entry target equals, or -1. */
  function IndexOf(list: seq<Student>, target: Student): (r: int)
    reads list, target
    ensures -1 <= r < |list|
    ensures r == -1 <==> forall k :: 0 <= k < |list| ==> !target.Equals(list[k])
    ensures r >= 0 ==> target.Equals(list[r]) && forall k :: 0 <= k < r ==> !target.Equals(list[k])
  {
    if |list| == 0 then -1
    else if target.Equals(list[0]) then 0
    else
      var k := IndexOf(list[1..], target);
      if k == -1 then -1 else k + 1
  }

  lemma {:induction false} AnySameStudentSharesName(list: seq<Student>, toCheck: Student)
    ensures AnySameStudent(list, toCheck) <==> exists i :: 0 <= i < |list| && list[i].name == toCheck.name
  {
    if |list| > 0 {
      AnySameStudentSharesName(list[1..], toCheck);
      if exists i :: 0 <= i < |list| && list[i].name == toCheck.name {
        var i :| 0 <= i < |list| && list[i].name == toCheck.name;
        if i > 0 {
          assert list[1..][i - 1] == list[i];
        }
      }
    }
  }

  lemma {:induction false} AnyNamedFinds(list: seq<Student>, name: Name)
    ensures AnyNamed(list, name) <==> exists i :: 0 <= i < |list| && list[i].name == name
  {
    if |list| > 0 {
      AnyNamedFinds(list[1..], name);
      if exists i :: 0 <= i < |list| && list[i].name == name {
        var i :| 0 <= i < |list| && list[i].name == name;
        if i > 0 {
          assert list[1..][i - 1] == list[i];
        }
      }
    }
  }

  lemma {:induction false} AnyHasSessionFinds(list: seq<Student>, session: Session)
    ensures AnyHasSession(list, session) <==> exists i :: 0 <= i < |list| && session in list[i].sessions
  {
    if |list| > 0 {
      AnyHasSessionFinds(list[1..], session);
      if exists i :: 0 <= i < |list| && session in list[i].sessions {
        var i :| 0 <= i < |list| && session in list[i].sessions;
        if i > 0 {
          assert list[1..][i - 1] == list[i];
        }
      }
    }
  }

  /** The uniqueness check of setStudents: compares every pair of entries with isSameStudent. */
  method StudentsAreUnique(students: seq<Student>) returns (unique: bool)
    ensures unique <==> NamesDistinct(students)
  {
    var i := 0;
    while i < |students| - 1
      invariant 0 <= i <= |students|
      invariant forall a, b :: 0 <= a < i && a < b < |students| ==> students[a].name != students[b].name
    {
      var j := i + 1;
      while j < |students|
        invariant i + 1 <= j <= |students|
        invariant forall b :: i < b < j ==> students[i].name != students[b].name
      {
        if students[i].IsSameStudent(students[j]) {
          return false;
        }
        j := j + 1;
      }
      i := i + 1;
    }
    return true;
  }

  /** Dropping one entry keeps the names distinct. */
  lemma NamesDistinctWithout(list: seq<Student>, i: int)
    requires NamesDistinct(list) && 0 <= i < |list|
    ensures NamesDistinct(list[..i] + list[i + 1..])
  {
    var rest := list[..i] + list[i + 1..];
    forall a, b | 0 <= a < b < |rest|
      ensures rest[a].name != rest[b].name
    {
      var a', b' := if a < i then a else a + 1, if b < i then b else b + 1;
      assert rest[a] == list[a'] && rest[b] == list[b'];
    }
  }

  /**
   * Replacing the session at index by rep, where rep stands for the dates of that
   * session other than target, leaves a list that stands for the same dates as
   * before except target in that session.
   */
  lemma ReplaceAtIndexCovers(ss: seq<Session>, index: int, rep: seq<Session>, target: SessionDate, d: SessionDate)
    requires 0 <= index < |ss|
    requires Covers(rep, d) <==> ss[index].HasOccurrence(d) && d != target
    ensures Covers(ss[..index] + rep + ss[index + 1..], d)
            <==> Covers(ss[..index] + ss[index + 1..], d) || (ss[index].HasOccurrence(d) && d != target)
  {
    var after := ss[..index] + rep + ss[index + 1..];
    var others := ss[..index] + ss[index + 1..];
    if Covers(after, d) {
      var k :| 0 <= k < |after| && after[k].HasOccurrence(d);
      if k < index {
        assert others[k] == after[k];
      } else if k < index + |rep| {
        assert rep[k - index] == after[k];
      } else {
        assert others[k - |rep|] == after[k];
      }
    }
    if Covers(others, d) {
      var k :| 0 <= k < |others| && others[k].HasOccurrence(d);
      if k < index {
        assert after[k] == others[k];
      } else {
        assert after[k + |rep|] == others[k];
      }
    }
    if ss[index].HasOccurrence(d) && d != target {
      var k :| 0 <= k < |rep| && rep[k].HasOccurrence(d);
      assert after[index + k] == rep[k];
    }
  }

  class UniqueStudentList {
    var internalList: seq<Student>

    ghost predicate Valid()
      reads this
    {
      NamesDistinct(internalList)
    }

    constructor ()
      ensures Valid() && internalList == []
    {
      internalList := [];
    }

    /** Whether some entry is the same student (has the same name) as toCheck. */
    predicate Contains(toCheck: Student)
      reads this
      ensures Contains(toCheck) <==> exists i :: 0 <= i < |internalList| && internalList[i].name == toCheck.name
    {
      AnySameStudentSharesName(internalList, toCheck);
      AnySameStudent(internalList, toCheck)
    }

    predicate HasName(name: Name)
      reads this
      ensures HasName(name) <==> exists i :: 0 <= i < |internalList| && internalList[i].name == name
    {
      AnyNamedFinds(internalList, name);
      AnyNamed(internalList, name)
    }

    predicate HasSession(session: Session)
      reads this, internalList
      ensures HasSession(session) <==> exists i :: 0 <= i < |internalList| && session in internalList[i].sessions
    {
      AnyHasSessionFinds(internalList, session);
      AnyHasSession(internalList, session)
    }

    /** Appends toAdd unless a student with its name is already present. */
    method Add(toAdd: Student) returns (r: Outcome<RegistryError>)
      requires Valid()
      modifies this
      ensures Valid()
      ensures r == (if old(Contains(toAdd)) then Fail(DuplicateStudent) else Pass)
      ensures internalList == if r.Pass? then old(internalList) + [toAdd] else old(internalList)
    {
      if Contains(toAdd) {
        return Fail(DuplicateStudent);
      }
      internalList := internalList + [toAdd];
      r := Pass;
    }

    /**
     * Replaces the first entry equal to target by editedStudent, unless target is
     * absent, or editedStudent has another name that some entry already has.
     */
    method SetStudent(target: Student, editedStudent: Student) returns (r: Outcome<RegistryError>)
      requires Valid()
      modifies this
      ensures Valid()
      ensures old(IndexOf(internalList, target)) == -1 ==> r == Fail(StudentNotFound)
      ensures old(IndexOf(internalList, target)) != -1 ==>
                r == (if !target.IsSameStudent(editedStudent) && old(Contains(editedStudent))
                      then Fail(DuplicateStudent) else Pass)
      ensures internalList == if r.Pass? then old(internalList)[old(IndexOf(internalList, target)) := editedStudent]
                              else old(internalList)
    {
      var index := IndexOf(internalList, target);
      if index == -1 {
        return Fail(StudentNotFound);
      }
      if !target.IsSameStudent(editedStudent) && Contains(editedStudent) {
        return Fail(DuplicateStudent);
      }
      assert internalList[index].name == target.name;
      internalList := internalList[index := editedStudent];
      r := Pass;
    }

    /** Removes the first entry equal to toRemove; refuses when there is none. */
    method Remove(toRemove: Student) returns (r: Outcome<RegistryError>)
      requires Valid()
      modifies this
      ensures Valid()
      ensures r == (if old(IndexOf(internalList, toRemove)) == -1 then Fail(StudentNotFound) else Pass)
      ensures internalList == if r.Pass?
                              then old(internalList)[..old(IndexOf(internalList, toRemove))]
                                   + old(internalList)[old(IndexOf(internalList, toRemove)) + 1..]
                              else old(internalList)
    {
      var index := IndexOf(internalList, toRemove);
      if index == -1 {
        return Fail(StudentNotFound);
      }
      NamesDistinctWithout(internalList, index);
      internalList := internalList[..index] + internalList[index + 1..];
      r := Pass;
    }

    /** Takes over the entries of another registry. */
    method SetStudentsFrom(replacement: UniqueStudentList)
      requires Valid() && replacement.Valid()
      modifies this
      ensures Valid()
      ensures internalList == old(replacement.internalList)
    {
      internalList := replacement.internalList;
    }

    /** Takes over the given students, unless two of them share a name. */
    method SetStudents(students: seq<Student>) returns (r: Outcome<RegistryError>)
      requires Valid()
      modifies this
      ensures Valid()
      ensures r == (if NamesDistinct(students) then Pass else Fail(DuplicateStudent))
      ensures internalList == if r.Pass? then students else old(internalList)
    {
      var unique := StudentsAreUnique(students);
      if !unique {
        return Fail(DuplicateStudent);
      }
      internalList := students;
      r := Pass;
    }

    /**
     * Deletes the occurrence on sessionDate of the session at (zero-based) index
     * of student's list: the entry is replaced, in place, by the sessions that
     * stand for its remaining dates; the entries before and after keep their order.
     */
    method DeleteSessionInRecurringSession(student: Student, index: nat, sessionDate: SessionDate)
      returns (r: Outcome<RegistryError>)
      modifies student
      ensures index >= |old(student.sessions)| ==> r == Fail(SessionNotFound)
      ensures index < |old(student.sessions)| ==>
                var res := DeleteOccurrence(old(student.sessions)[index], sessionDate);
                && r == (if res.Success? then Pass else Fail(NotPartOfSession(sessionDate)))
                && (res.Success? ==>
                      student.sessions == old(student.sessions)[..index] + res.value + old(student.sessions)[index + 1..])
      ensures r.Fail? ==> student.sessions == old(student.sessions)
      ensures r.Pass? ==> forall d :: Covers(student.sessions, d) <==>
                (Covers(old(student.sessions)[..index] + old(student.sessions)[index + 1..], d)
                 || (old(student.sessions)[index].HasOccurrence(d) && d != sessionDate))
    {
      if index >= |student.sessions| {
        return Fail(SessionNotFound);
      }
      var ss := student.sessions;
      var res := DeleteOccurrence(ss[index], sessionDate);
      match res
      case Failure(_) =>
        r := Fail(NotPartOfSession(sessionDate));
      case Success(replacements) =>
        var updated := ss[..index] + replacements + ss[index + 1..];
        forall d
          ensures Covers(updated, d) <==>
                  (Covers(ss[..index] + ss[index + 1..], d) || (ss[index].HasOccurrence(d) && d != sessionDate))
        {
          DeleteOccurrenceRemovesExactlyTarget(ss[index], sessionDate, d);
          ReplaceAtIndexCovers(ss, index, replacements, sessionDate, d);
        }
        student.sessions := updated;
        r := Pass;
    }
  }
}
