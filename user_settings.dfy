/**
 * The two form schemas of client/src/pages/UserSettings.tsx: the profile
 * schema (lines 13-16) and the password-change schema with its `.refine`
 * (lines 18-25). Validation yields the list of issues, each with the path of
 * the field it is attached to and its message; a form is accepted when the
 * list is empty.
 */
module UserSettings {

  datatype Issue = Issue(path: string, message: string)

  datatype ProfileForm = ProfileForm(firstName: string, lastName: string)

  datatype PasswordForm = PasswordForm(currentPassword: string, newPassword: string, confirmPassword: string)

  /**
   * `s.length` in JavaScript: the number of UTF-16 code units, so a
   * character outside the Basic Multilingual Plane counts twice.
   */
  function JsLength(s: string): (n: nat)
    ensures n >= |s|
  {
    if s == [] then 0 else (if s[0] as int >= 0x1_0000 then 2 else 1) + JsLength(s[1..])
  }

  /** `z.string().min(n, message)` on the field at `path`. */
  function MinIssues(value: string, n: nat, path: string, message: string): (r: seq<Issue>)
    ensures r == [] <==> JsLength(value) >= n
    ensures r != [] ==> r == [Issue(path, message)]
  {
    if JsLength(value) < n then [Issue(path, message)] else []
  }

  /**
   * The issues `updateProfileSchema` reports (lines 13-16): at most one per
   * field, each on one of the two name fields.
   */
  function ProfileIssues(f: ProfileForm): (r: seq<Issue>)
    ensures |r| <= 2
    ensures forall i :: 0 <= i < |r| ==> r[i].path == "firstName" || r[i].path == "lastName"
    ensures forall i, j :: 0 <= i < j < |r| ==> r[i].path != r[j].path
  {
    MinIssues(f.firstName, 1, "firstName", "First name is required")
    + MinIssues(f.lastName, 1, "lastName", "Last name is required")
  }

  predicate ProfileAccepted(f: ProfileForm) {
    ProfileIssues(f) == []
  }

  /**
   * The issues `updatePasswordSchema` reports (lines 18-25). A too short
   * field leaves the parse "dirty" rather than aborted, so the refinement
   * still runs and a mismatch is reported beside any length issues. There
   * are at most four issues, each on one of the three fields.
   */
  function PasswordIssues(f: PasswordForm): (r: seq<Issue>)
    ensures |r| <= 4
    ensures forall i :: 0 <= i < |r| ==>
      r[i].path == "currentPassword" || r[i].path == "newPassword" || r[i].path == "confirmPassword"
  {
    MinIssues(f.currentPassword, 6, "currentPassword", "Current password is required")
    + MinIssues(f.newPassword, 6, "newPassword", "New password must be at least 6 characters")
    + MinIssues(f.confirmPassword, 6, "confirmPassword", "Please confirm your new password")
    + (if f.newPassword == f.confirmPassword then [] else [Issue("confirmPassword", "Passwords do not match")])
  }

  predicate PasswordAccepted(f: PasswordForm) {
    PasswordIssues(f) == []
  }

  /** The profile is accepted exactly when both names are non-empty. */
  lemma ProfileAcceptedIff(f: ProfileForm)
    ensures ProfileAccepted(f) <==> f.firstName != [] && f.lastName != []
    ensures Issue("firstName", "First name is required") in ProfileIssues(f) <==> f.firstName == []
    ensures Issue("lastName", "Last name is required") in ProfileIssues(f) <==> f.lastName == []
  {
    JsLengthZero(f.firstName);
    JsLengthZero(f.lastName);
  }

  lemma {:induction false} JsLengthZero(s: string)
    ensures JsLength(s) == 0 <==> s == []
  {
  }

  /**
   * The password form is accepted exactly when all three fields are at least
   * six code units long and the new password equals its confirmation.
   */
  lemma PasswordAcceptedIff(f: PasswordForm)
    ensures PasswordAccepted(f) <==>
      && JsLength(f.currentPassword) >= 6
      && JsLength(f.newPassword) >= 6
      && JsLength(f.confirmPassword) >= 6
      && f.newPassword == f.confirmPassword
  {
  }

  /** A current password shorter than six code units is reported on its own field. */
  lemma ShortCurrentRejected(f: PasswordForm)
    requires JsLength(f.currentPassword) < 6
    ensures !PasswordAccepted(f)
    ensures Issue("currentPassword", "Current password is required") in PasswordIssues(f)
  {
    assert PasswordIssues(f)[0] == Issue("currentPassword", "Current password is required");
  }

  /** A new password or confirmation shorter than six code units is reported on its own field. */
  lemma ShortNewOrConfirmRejected(f: PasswordForm)
    requires JsLength(f.newPassword) < 6 || JsLength(f.confirmPassword) < 6
    ensures !PasswordAccepted(f)
    ensures JsLength(f.newPassword) < 6 ==>
      Issue("newPassword", "New password must be at least 6 characters") in PasswordIssues(f)
    ensures JsLength(f.confirmPassword) < 6 ==>
      Issue("confirmPassword", "Please confirm your new password") in PasswordIssues(f)
  {
    var a := MinIssues(f.currentPassword, 6, "currentPassword", "Current password is required");
    var b := MinIssues(f.newPassword, 6, "newPassword", "New password must be at least 6 characters");
    var c := MinIssues(f.confirmPassword, 6, "confirmPassword", "Please confirm your new password");
    if JsLength(f.newPassword) < 6 {
      assert PasswordIssues(f)[|a|] == b[0];
    }
    if JsLength(f.confirmPassword) < 6 {
      assert PasswordIssues(f)[|a| + |b|] == c[0];
    }
  }

  /** A mismatch is reported on the confirmPassword path, whatever the lengths. */
  lemma MismatchRejected(f: PasswordForm)
    requires f.newPassword != f.confirmPassword
    ensures !PasswordAccepted(f)
    ensures Issue("confirmPassword", "Passwords do not match") in PasswordIssues(f)
  {
    assert PasswordIssues(f)[|PasswordIssues(f)| - 1] == Issue("confirmPassword", "Passwords do not match");
  }

  /** Nothing ties the new password to the current one: reusing it is accepted. */
  lemma ReuseOfCurrentAccepted(pw: string)
    requires JsLength(pw) >= 6
    ensures PasswordAccepted(PasswordForm(pw, pw, pw))
  {
  }
}
