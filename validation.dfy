/**
 * The form schemas of the client: login, message, student and profile.
 * Each schema is a predicate on the form's data that holds exactly when the
 * schema accepts it.  Two checks belong to libraries and are given as
 * parameters: the e-mail syntax check and "the date parses".
 */
module Validation {
  import opened Wrappers
  import Text

  /** The library checks a schema relies on. */
  datatype LibraryChecks = LibraryChecks(isEmail: string -> bool, parsesAsDate: string -> bool)

  /** `z.string().min(lo).max(hi)` */
  predicate LengthWithin(s: string, lo: nat, hi: nat) {
    lo <= |s| <= hi
  }

  /** A truthy optional string: present and not empty. */
  predicate Filled(o: Option<string>) {
    o.Some? && o.value != ""
  }

  // ---- loginSchema ---------------------------------------------------------

  predicate LoginValid(email: string, password: string, lib: LibraryChecks) {
    && |email| >= 1 && lib.isEmail(email)
    && |password| >= 1 && |password| >= 6
  }

  /** The two minimum-length checks on the password amount to one. */
  lemma LoginPasswordRule(email: string, password: string, lib: LibraryChecks)
    ensures LoginValid(email, password, lib) <==> |email| >= 1 && lib.isEmail(email) && |password| >= 6
  {
  }

  // ---- messageSchema -------------------------------------------------------

  datatype MessageFormData = MessageFormData(receiverId: string, subject: string, content: string)

  predicate MessageValid(m: MessageFormData) {
    && |m.receiverId| >= 1
    && LengthWithin(m.subject, 1, 200)
    && LengthWithin(m.content, 1, 2000)
  }

  /** The message schema looks only at lengths: two messages whose fields
      have the same lengths are accepted or refused alike, and a message with
      every field filled in is accepted unless its subject or content is too
      long. */
  lemma MessageLengthsOnly(a: MessageFormData, b: MessageFormData)
    requires |a.receiverId| == |b.receiverId| && |a.subject| == |b.subject| && |a.content| == |b.content|
    ensures MessageValid(a) <==> MessageValid(b)
    ensures a.receiverId != "" && a.subject != "" && a.content != "" ==>
      (MessageValid(a) <==> |a.subject| <= 200 && |a.content| <= 2000)
  {
  }

  // ---- studentSchema -------------------------------------------------------

  /** The data of the student form (the schema's inferred type). */
  datatype StudentFormData = StudentFormData(
    firstName: string,
    lastName: string,
    email: string,
    studentId: string,
    department: string,
    year: int,
    phone: Option<string>,
    address: Option<string>,
    dateOfBirth: Option<string>,
    gpa: Option<real>,
    status: string)

  predicate NameValid(s: string) {
    LengthWithin(s, 1, 50)
  }

  predicate EmailValid(s: string, lib: LibraryChecks) {
    |s| >= 1 && lib.isEmail(s)
  }

  /** `^STU\d{3,}$`: the letters `STU` followed by at least three decimal
      digits and nothing else. */
  predicate MatchesStudentIdPattern(s: string) {
    |s| >= 6 && s[..3] == "STU" && Text.AllDigits(s[3..])
  }

  predicate StudentIdValid(s: string) {
    |s| >= 1 && MatchesStudentIdPattern(s)
  }

  /** The pattern as a decomposition: `STU` and a run of three or more digits. */
  lemma StudentIdShape(s: string)
    ensures StudentIdValid(s) <==> exists digits :: s == "STU" + digits && |digits| >= 3 && Text.AllDigits(digits)
  {
    if StudentIdValid(s) {
      assert s == "STU" + s[3..];
    }
    if exists digits :: s == "STU" + digits && |digits| >= 3 && Text.AllDigits(digits) {
      var digits :| s == "STU" + digits && |digits| >= 3 && Text.AllDigits(digits);
      assert s[..3] == "STU" && s[3..] == digits;
    }
  }

  lemma StudentIdExamples()
    ensures StudentIdValid("STU001") && StudentIdValid("STU12345")
    ensures !StudentIdValid("STU01") && !StudentIdValid("stu001") && !StudentIdValid("STU00a")
  {
    assert !Text.IsDigit('a');
    assert "STU00a"[3..][2] == 'a';
    assert "stu001"[..3] != "STU" by { assert "stu001"[0] == 's'; }
  }

  /** The characters JavaScript's `\s` matches. */
  predicate IsJsWhitespace(c: char) {
    var n := c as int;
    || (0x09 <= n <= 0x0D) || n == 0x20 || n == 0xA0 || n == 0x1680
    || (0x2000 <= n <= 0x200A) || n == 0x2028 || n == 0x2029 || n == 0x202F
    || n == 0x205F || n == 0x3000 || n == 0xFEFF
  }

  /** The character class `[\d\s\-\(\)]`. */
  predicate IsPhoneChar(c: char) {
    Text.IsDigit(c) || IsJsWhitespace(c) || c == '-' || c == '(' || c == ')'
  }

  predicate AllPhoneChars(s: string) {
    forall i :: 0 <= i < |s| ==> IsPhoneChar(s[i])
  }

  /** `^\+?[\d\s\-\(\)]+$`: a leading `+` is taken when present, and one or
      more characters of the class follow. */
  predicate MatchesPhonePattern(s: string) {
    var rest := if |s| > 0 && s[0] == '+' then s[1..] else s;
    |rest| >= 1 && AllPhoneChars(rest)
  }

  /** The optional `+` of the pattern read both ways: the pattern matches
      exactly when the whole string is class characters, or it is a `+`
      followed by class characters. */
  lemma PhonePatternAlternatives(s: string)
    ensures MatchesPhonePattern(s) <==>
      (|s| >= 1 && AllPhoneChars(s)) || (|s| >= 2 && s[0] == '+' && AllPhoneChars(s[1..]))
  {
    if |s| > 0 && s[0] == '+' {
      assert !IsPhoneChar(s[0]);
    }
  }

  /** A phone that passes the pattern has no `+` after its first character. */
  lemma PhonePlusOnlyFirst(s: string, i: int)
    requires MatchesPhonePattern(s)
    requires 0 < i < |s|
    ensures s[i] != '+'
  {
    if s[0] == '+' {
      assert s[i] == s[1..][i - 1];
    }
    assert !IsPhoneChar('+');
  }

  /** `z.string().optional().refine(val => !val || pattern.test(val))` */
  predicate PhoneValid(phone: Option<string>) {
    !Filled(phone) || MatchesPhonePattern(phone.value)
  }

  /** `z.string().max(200).optional()` */
  predicate AddressValid(address: Option<string>) {
    address.None? || |address.value| <= 200
  }

  /** `z.string().optional().refine(val => !val || !isNaN(Date.parse(val)))` */
  predicate DateValid(date: Option<string>, lib: LibraryChecks) {
    !Filled(date) || lib.parsesAsDate(date.value)
  }

  predicate YearValid(year: int) {
    1 <= year <= 6
  }

  predicate StatusValid(status: string) {
    status == "active" || status == "inactive" || status == "graduated"
  }

  predicate StudentValid(f: StudentFormData, lib: LibraryChecks) {
    && NameValid(f.firstName)
    && NameValid(f.lastName)
    && EmailValid(f.email, lib)
    && StudentIdValid(f.studentId)
    && |f.department| >= 1
    && YearValid(f.year)
    && PhoneValid(f.phone)
    && AddressValid(f.address)
    && DateValid(f.dateOfBirth, lib)
    && StatusValid(f.status)
  }

  // ---- profileSchema -------------------------------------------------------

  datatype ProfileFormData = ProfileFormData(
    firstName: string,
    lastName: string,
    email: string,
    phone: Option<string>,
    address: Option<string>,
    dateOfBirth: Option<string>,
    currentPassword: Option<string>,
    newPassword: Option<string>,
    confirmPassword: Option<string>)

  /** The cross-field refinement, check by check as the schema writes it. */
  predicate PasswordRule(f: ProfileFormData) {
    && !(Filled(f.newPassword) && !Filled(f.currentPassword))
    && !(Filled(f.newPassword) && f.newPassword != f.confirmPassword)
    && !(Filled(f.newPassword) && |f.newPassword.value| < 6)
  }

  predicate ProfileValid(f: ProfileFormData, lib: LibraryChecks) {
    && NameValid(f.firstName)
    && NameValid(f.lastName)
    && EmailValid(f.email, lib)
    && PhoneValid(f.phone)
    && AddressValid(f.address)
    && DateValid(f.dateOfBirth, lib)
    && PasswordRule(f)
  }

  /** The profile schema checks its contact fields as the student schema
      does: contact data taken from an accepted student passes, as long as
      no new password is typed; and accepted profile contact data, put into
      a student form whose remaining fields pass, gives an accepted student. */
  lemma ProfileOfStudent(s: StudentFormData, p: ProfileFormData, lib: LibraryChecks)
    requires p.firstName == s.firstName && p.lastName == s.lastName && p.email == s.email
    requires p.phone == s.phone && p.address == s.address && p.dateOfBirth == s.dateOfBirth
    ensures StudentValid(s, lib) && !Filled(p.newPassword) ==> ProfileValid(p, lib)
    ensures ProfileValid(p, lib) ==>
      (StudentValid(s, lib) <==>
        StudentIdValid(s.studentId) && |s.department| >= 1 && YearValid(s.year) && StatusValid(s.status))
  {
    PasswordRuleMeaning(p);
  }

  /** Without a new password the rule always passes; with one, it needs the
      current password, a matching confirmation and at least six characters. */
  lemma PasswordRuleMeaning(f: ProfileFormData)
    ensures !Filled(f.newPassword) ==> PasswordRule(f)
    ensures Filled(f.newPassword) ==>
      (PasswordRule(f) <==>
        Filled(f.currentPassword) && f.confirmPassword == f.newPassword && |f.newPassword.value| >= 6)
  {
  }
}
