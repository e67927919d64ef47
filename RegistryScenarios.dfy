/**
 * The registry behaviours that the unit tests of UniqueStudentList fix, each
 * stated for arbitrary students, dates and session details. Every scenario
 * starts from a new, empty registry and from new students copied from the
 * given ones with an empty session list, so that nothing outside is changed.
 */
module RegistryScenarios {
  import opened Wrappers
  import opened SessionDates
  import opened Sessions
  import opened Students
  import opened Registry

  /** A new student with the fields of template and no sessions. */
  method Copy(template: Student) returns (s: Student)
    ensures fresh(s) && s.sessions == []
    ensures s.name == template.name && s.phone == template.phone && s.email == template.email
    ensures s.address == template.address && s.studyLevel == template.studyLevel
    ensures s.guardianPhone == template.guardianPhone && s.relationship == template.relationship
  {
    s := new Student(template.name, template.phone, template.email, template.address,
                     template.studyLevel, template.guardianPhone, template.relationship);
  }

  /** A new student with the fields of template except its address. */
  method WithAddress(template: Student, address: Address) returns (s: Student)
    ensures fresh(s) && s.sessions == [] && s.name == template.name && s.address == address
  {
    s := new Student(template.name, template.phone, template.email, address,
                     template.studyLevel, template.guardianPhone, template.relationship);
  }

  /** contains is false on an empty registry, and true after adding for the student and for an edited copy. */
  method ContainsByName(aliceT: Student, otherAddress: Address)
    returns (beforeAdd: bool, afterAdd: bool, editedPresent: bool)
    ensures !beforeAdd && afterAdd && editedPresent
  {
    var list := new UniqueStudentList();
    var alice := Copy(aliceT);
    beforeAdd := list.Contains(alice);
    var _ := list.Add(alice);
    afterAdd := list.Contains(alice);
    var editedAlice := WithAddress(alice, otherAddress);
    editedPresent := list.Contains(editedAlice);
  }

  /** Adding the same student twice: the second add is refused as a duplicate. */
  method AddDuplicate(aliceT: Student) returns (first: Outcome<RegistryError>, second: Outcome<RegistryError>)
    ensures first == Pass && second == Fail(DuplicateStudent)
  {
    var list := new UniqueStudentList();
    var alice := Copy(aliceT);
    first := list.Add(alice);
    second := list.Add(alice);
  }

  method SetStudentNotInList(aliceT: Student) returns (r: Outcome<RegistryError>)
    ensures r == Fail(StudentNotFound)
  {
    var list := new UniqueStudentList();
    var alice := Copy(aliceT);
    r := list.SetStudent(alice, alice);
  }

  method SetStudentToItself(aliceT: Student) returns (r: Outcome<RegistryError>, entries: seq<Student>, alice: Student)
    ensures r == Pass && entries == [alice]
  {
    var list := new UniqueStudentList();
    alice := Copy(aliceT);
    var _ := list.Add(alice);
    r := list.SetStudent(alice, alice);
    entries := list.internalList;
  }

  /** Editing a student into one with the same name but another address replaces it. */
  method SetStudentSameIdentity(aliceT: Student, otherAddress: Address)
    returns (r: Outcome<RegistryError>, entries: seq<Student>, editedAlice: Student)
    ensures r == Pass && entries == [editedAlice] && editedAlice.address == otherAddress
  {
    var list := new UniqueStudentList();
    var alice := Copy(aliceT);
    var _ := list.Add(alice);
    editedAlice := WithAddress(alice, otherAddress);
    r := list.SetStudent(alice, editedAlice);
    entries := list.internalList;
  }

  method SetStudentDifferentIdentity(aliceT: Student, bobT: Student)
    returns (r: Outcome<RegistryError>, entries: seq<Student>, bob: Student)
    ensures r == Pass && entries == [bob]
  {
    var list := new UniqueStudentList();
    var alice := Copy(aliceT);
    bob := Copy(bobT);
    var _ := list.Add(alice);
    assert alice.Equals(list.internalList[0]);
    r := list.SetStudent(alice, bob);
    entries := list.internalList;
  }

  /** Editing a student into the name of another entry is refused, and the registry keeps both. */
  method SetStudentNonUniqueIdentity(aliceT: Student, bobT: Student)
    returns (r: Outcome<RegistryError>, entries: seq<Student>, alice: Student, bob: Student)
    requires aliceT.name != bobT.name
    ensures r == Fail(DuplicateStudent) && entries == [alice, bob]
  {
    var list := new UniqueStudentList();
    alice := Copy(aliceT);
    bob := Copy(bobT);
    var _ := list.Add(alice);
    var _ := list.Add(bob);
    assert alice.Equals(list.internalList[0]) && list.internalList[1].name == bob.name;
    r := list.SetStudent(alice, bob);
    entries := list.internalList;
  }

  method RemoveAbsent(aliceT: Student) returns (r: Outcome<RegistryError>)
    ensures r == Fail(StudentNotFound)
  {
    var list := new UniqueStudentList();
    var alice := Copy(aliceT);
    r := list.Remove(alice);
  }

  method RemoveOnlyStudent(aliceT: Student) returns (r: Outcome<RegistryError>, entries: seq<Student>)
    ensures r == Pass && entries == []
  {
    var list := new UniqueStudentList();
    var alice := Copy(aliceT);
    var _ := list.Add(alice);
    r := list.Remove(alice);
    entries := list.internalList;
  }

  method SetStudentsFromRegistry(aliceT: Student, bobT: Student) returns (entries: seq<Student>, bob: Student)
    ensures entries == [bob]
  {
    var list := new UniqueStudentList();
    var alice := Copy(aliceT);
    var _ := list.Add(alice);
    var expected := new UniqueStudentList();
    bob := Copy(bobT);
    var _ := expected.Add(bob);
    list.SetStudentsFrom(expected);
    entries := list.internalList;
  }

  method SetStudentsFromList(aliceT: Student, bobT: Student)
    returns (r: Outcome<RegistryError>, entries: seq<Student>, bob: Student)
    ensures r == Pass && entries == [bob]
  {
    var list := new UniqueStudentList();
    var alice := Copy(aliceT);
    var _ := list.Add(alice);
    bob := Copy(bobT);
    r := list.SetStudents([bob]);
    entries := list.internalList;
  }

  method SetStudentsWithDuplicates(aliceT: Student) returns (r: Outcome<RegistryError>, entries: seq<Student>)
    ensures r == Fail(DuplicateStudent) && entries == []
  {
    var list := new UniqueStudentList();
    var alice := Copy(aliceT);
    assert [alice, alice][0].name == [alice, alice][1].name;
    r := list.SetStudents([alice, alice]);
    entries := list.internalList;
  }

  method HasNameAfterAdd(aliceT: Student, bobT: Student) returns (bobFound: bool, aliceFound: bool)
    requires aliceT.name != bobT.name
    ensures !bobFound && aliceFound
  {
    var list := new UniqueStudentList();
    var alice := Copy(aliceT);
    var _ := list.Add(alice);
    bobFound := list.HasName(bobT.name);
    aliceFound := list.HasName(alice.name);
  }

  /** A session added to a registered student is found; a session nobody has is not. */
  method HasSessionAfterAdd(aliceT: Student, session: ValidSession, newSession: ValidSession)
    returns (found: bool, newFound: bool)
    requires session != newSession
    ensures found && !newFound
  {
    var list := new UniqueStudentList();
    var alice := Copy(aliceT);
    alice.AddSession(session);
    var _ := list.Add(alice);
    found := list.HasSession(session);
    newFound := list.HasSession(newSession);
  }

  /**
   * Common frame of the deletion tests: Amy holds the series first..last, the
   * occurrence on target is deleted from her first session, and her list is
   * returned next to the list Bob was given as the expected result.
   */
  method DeleteFromSeries(amyT: Student, bobT: Student, first: SessionDate, last: SessionDate,
                          target: SessionDate, details: SessionDetails, expected: seq<ValidSession>)
    returns (r: Outcome<RegistryError>, amySessions: seq<ValidSession>, bobSessions: seq<ValidSession>)
    requires Weekly(first, last)
    ensures bobSessions == expected
    ensures r.Pass? <==> OnWeeklyRun(first, last, target)
    ensures r.Pass? ==> amySessions == DeleteOccurrence(Recurring(first, last, details), target).value
  {
    var list := new UniqueStudentList();
    var amy := Copy(amyT);
    var bob := Copy(bobT);
    var _ := list.Add(amy);
    var _ := list.Add(bob);
    amy.AddSession(Recurring(first, last, details));
    bob.sessions := expected;
    r := list.DeleteSessionInRecurringSession(amy, 0, target);
    amySessions, bobSessions := amy.sessions, bob.sessions;
  }

  method DeleteAtSeriesStart(amyT: Student, bobT: Student, first: SessionDate, last: SessionDate, details: SessionDetails)
    returns (amySessions: seq<ValidSession>, bobSessions: seq<ValidSession>)
    requires Weekly(first, last) && first.GetDate() + 14 <= last.GetDate()
    ensures amySessions == bobSessions
  {
    DeleteFirstOccurrence(first, last, details);
    var r;
    r, amySessions, bobSessions := DeleteFromSeries(amyT, bobT, first, last, first, details,
                                                   [Recurring(first.AddDays(7), last, details)]);
  }

  method DeleteAtSeriesEnd(amyT: Student, bobT: Student, first: SessionDate, last: SessionDate, details: SessionDetails)
    returns (amySessions: seq<ValidSession>, bobSessions: seq<ValidSession>)
    requires Weekly(first, last) && first.GetDate() + 14 <= last.GetDate()
    ensures amySessions == bobSessions
  {
    DeleteLastOccurrence(first, last, details);
    var r;
    r, amySessions, bobSessions := DeleteFromSeries(amyT, bobT, first, last, last, details,
                                                   [Recurring(first, last.MinusDays(7), details)]);
  }

  method DeleteInSeriesMiddle(amyT: Student, bobT: Student, first: SessionDate, last: SessionDate,
                              target: SessionDate, details: SessionDetails)
    returns (amySessions: seq<ValidSession>, bobSessions: seq<ValidSession>)
    requires Weekly(first, last) && OnWeeklyRun(first, last, target)
    requires first.GetDate() + 7 < target.GetDate() < last.GetDate() - 7
    ensures amySessions == bobSessions
  {
    DeleteMiddleOccurrence(first, last, target, details);
    var r;
    r, amySessions, bobSessions := DeleteFromSeries(amyT, bobT, first, last, target, details,
      [Recurring(first, target.MinusDays(7), details), Recurring(target.AddDays(7), last, details)]);
  }

  method DeleteSingleDaySeries(amyT: Student, bobT: Student, first: SessionDate, details: SessionDetails)
    returns (amySessions: seq<ValidSession>, bobSessions: seq<ValidSession>)
    ensures amySessions == bobSessions == []
  {
    DeleteOnlyOccurrence(first, details);
    var r;
    r, amySessions, bobSessions := DeleteFromSeries(amyT, bobT, first, first, first, details, []);
  }

  method DeleteLeavingPlainFirstHalf(amyT: Student, bobT: Student, first: SessionDate, last: SessionDate,
                                     details: SessionDetails)
    returns (amySessions: seq<ValidSession>, bobSessions: seq<ValidSession>)
    requires Weekly(first, last) && first.GetDate() + 21 <= last.GetDate()
    ensures amySessions == bobSessions
  {
    DeleteSecondOccurrence(first, last, details);
    var r;
    r, amySessions, bobSessions := DeleteFromSeries(amyT, bobT, first, last, first.AddDays(7), details,
      [Plain(first, details), Recurring(first.AddDays(14), last, details)]);
  }
}
