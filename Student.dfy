/**
 * A student of the tuition centre: seven contact and profile fields fixed at
 * construction, and a list of sessions that grows as sessions are added.
 * Two notions of equality: the weak "same student" (same name), used by the
 * registry to keep names unique, and the strong "equals" (every field and the
 * session list).
 */
module Students {
  import opened Sessions

  // Name, Phone, Email and Address validate their text on construction; here they
  // are opaque values with equality.
  datatype Name = Name(fullName: string)
  datatype Phone = Phone(value: string)
  datatype Email = Email(value: string)
  datatype Address = Address(value: string)

  class Student {
    const name: Name
    const phone: Phone
    const email: Email
    const address: Address
    const studyLevel: string
    const guardianPhone: Phone
    const relationship: string
    var sessions: seq<ValidSession>

    /** A new student has no sessions. */
    constructor (name: Name, phone: Phone, email: Email, address: Address, studyLevel: string,
                 guardianPhone: Phone, relationship: string)
      ensures this.name == name && this.phone == phone && this.email == email
      ensures this.address == address && this.studyLevel == studyLevel
      ensures this.guardianPhone == guardianPhone && this.relationship == relationship
      ensures sessions == []
    {
      this.name := name;
      this.phone := phone;
      this.email := email;
      this.address := address;
      this.studyLevel := studyLevel;
      this.guardianPhone := guardianPhone;
      this.relationship := relationship;
      this.sessions := [];
    }

    /** A student restored with a given session list. */
    constructor WithSessions(name: Name, phone: Phone, email: Email, address: Address, studyLevel: string,
                             guardianPhone: Phone, relationship: string, sessions: seq<ValidSession>)
      ensures this.name == name && this.phone == phone && this.email == email
      ensures this.address == address && this.studyLevel == studyLevel
      ensures this.guardianPhone == guardianPhone && this.relationship == relationship
      ensures this.sessions == sessions
    {
      this.name := name;
      this.phone := phone;
      this.email := email;
      this.address := address;
      this.studyLevel := studyLevel;
      this.guardianPhone := guardianPhone;
      this.relationship := relationship;
      this.sessions := sessions;
    }

    /** The student's current sessions, in the order they were added. */
    function GetListOfSessions(): (r: seq<ValidSession>)
      reads this
      ensures r == sessions
    {
      sessions
    }

    /** Appends a session; the earlier sessions and every other field stay as they were. */
    method AddSession(session: ValidSession)
      modifies this
      ensures sessions == old(sessions) + [session]
      ensures |sessions| == |old(sessions)| + 1 && sessions[..|old(sessions)|] == old(sessions)
    {
      sessions := sessions + [session];
    }

    /** The weak equality: the same object, or a student with the same name. */
    predicate IsSameStudent(other: Student?)
      ensures IsSameStudent(other) <==> other != null && other.name == name
    {
      other == this || (other != null && other.name == name)
    }

    /** The strong equality: the same object, or a student whose every field and session list agree. */
    predicate Equals(other: object?)
      reads this, other
      ensures Equals(other) <==> other is Student && SameData(other as Student)
    {
      if other == this then true
      else if !(other is Student) then false
      else SameData(other as Student)
    }

    /** Every field and the session list agree. */
    predicate SameData(o: Student)
      reads this, o
    {
      && o.name == name && o.phone == phone && o.email == email && o.address == address
      && o.studyLevel == studyLevel && o.guardianPhone == guardianPhone
      && o.relationship == relationship && o.sessions == sessions
    }
  }

  /** "Same student" is an equivalence on students, and never holds of null. */
  lemma SameStudentIsEquivalence(a: Student, b: Student, c: Student)
    ensures a.IsSameStudent(a)
    ensures a.IsSameStudent(b) ==> b.IsSameStudent(a)
    ensures a.IsSameStudent(b) && b.IsSameStudent(c) ==> a.IsSameStudent(c)
    ensures !a.IsSameStudent(null)
  {
  }

  /** Students that are equal are the same student. */
  lemma EqualsImpliesSameStudent(a: Student, b: Student)
    ensures a.Equals(b) ==> a.IsSameStudent(b)
  {
  }

  lemma EqualsIsSymmetric(a: Student, b: Student)
    ensures a.Equals(a)
    ensures a.Equals(b) ==> b.Equals(a)
  {
  }
}
