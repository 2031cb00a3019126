/**
  The request bodies of the account endpoints and the checks their data
  annotations declare: `[Required]`, `[StringLength(n)]`, `[MinLength(n)]`
  and `[Compare]`. The project compiles with nullable reference types
  enabled, so the framework also treats every non-nullable `string`
  property as `[Required]`. A `None` field is a JSON `null` or a missing
  property.
 */
module Validation {
  import opened Wrappers

  /** `char.IsWhiteSpace`: the Unicode space separators, line and paragraph separators, and U+0009..U+000D, U+0085. */
  predicate IsWhiteSpace(ch: char) {
    var c := ch as int;
    || 0x09 <= c <= 0x0D || c == 0x20 || c == 0x85 || c == 0xA0 || c == 0x1680
    || 0x2000 <= c <= 0x200A || c == 0x2028 || c == 0x2029 || c == 0x202F || c == 0x205F || c == 0x3000
  }

  /** `[Required]` on a string: present, and not empty or white space only. */
  predicate Required(v: Option<string>) {
    v.Some? && exists i :: 0 <= i < |v.value| && !IsWhiteSpace(v.value[i])
  }

  /** The UTF-16 code units of one character: two for a character outside the Basic Multilingual Plane. */
  function Utf16Units(c: char): nat {
    if c as int >= 0x1_0000 then 2 else 1
  }

  /** `string.Length`: the number of UTF-16 code units, between one and two per character. */
  function Utf16Length(s: string): (n: nat)
    ensures |s| <= n <= 2 * |s|
  {
    if s == [] then 0 else Utf16Units(s[0]) + Utf16Length(s[1..])
  }

  /** `[StringLength(n)]`: an absent value passes; a present one has at most `n` UTF-16 code units. */
  predicate MaxLength(v: Option<string>, n: nat) {
    v.None? || Utf16Length(v.value) <= n
  }

  /** `[MinLength(n)]`: an absent value passes; a present one has at least `n` UTF-16 code units. */
  predicate MinLength(v: Option<string>, n: nat) {
    v.None? || Utf16Length(v.value) >= n
  }

  /** The code units of a concatenation are those of its parts. */
  lemma {:induction false} Utf16LengthAppend(s: string, t: string)
    ensures Utf16Length(s + t) == Utf16Length(s) + Utf16Length(t)
    decreases |s|
  {
    if s == [] {
      assert s + t == t;
    } else {
      assert (s + t)[1..] == s[1..] + t;
      Utf16LengthAppend(s[1..], t);
    }
  }

  /** A string is as long in code units as in characters exactly when it stays inside the Basic Multilingual Plane. */
  lemma {:induction false} Utf16LengthIsCountOnlyInPlaneZero(s: string)
    ensures Utf16Length(s) == |s| <==> forall i :: 0 <= i < |s| ==> s[i] as int < 0x1_0000
    decreases |s|
  {
    if s != [] {
      Utf16LengthIsCountOnlyInPlaneZero(s[1..]);
      assert forall i :: 1 <= i < |s| ==> s[i] == s[1..][i - 1];
    }
  }

  datatype RegisterRequest = RegisterRequest(
    username: Option<string>,
    email: Option<string>,
    password: Option<string>,
    phoneNumber: Option<string>,
    address: Option<string>)

  datatype LoginRequest = LoginRequest(email: Option<string>, password: Option<string>)

  datatype ChangePasswordRequest = ChangePasswordRequest(
    currentPassword: Option<string>,
    newPassword: Option<string>,
    confirmPassword: Option<string>)

  datatype UpdateProfileRequest = UpdateProfileRequest(
    username: Option<string>,
    phoneNumber: Option<string>,
    address: Option<string>)

  /** `ChangeRoleRequest`: the requested role name. */
  datatype ChangeRoleRequest = ChangeRoleRequest(newRole: Option<string>)

  /** Phone number and address are non-nullable strings, so they are required as well. */
  predicate ValidRegister(r: RegisterRequest) {
    && Required(r.username) && MaxLength(r.username, 50)
    && Required(r.email) && MaxLength(r.email, 100)
    && Required(r.password) && MinLength(r.password, 6)
    && Required(r.phoneNumber) && MaxLength(r.phoneNumber, 20)
    && Required(r.address) && MaxLength(r.address, 200)
  }

  predicate ValidLogin(r: LoginRequest) {
    Required(r.email) && Required(r.password)
  }

  predicate ValidChangePassword(r: ChangePasswordRequest) {
    && Required(r.currentPassword)
    && Required(r.newPassword) && MinLength(r.newPassword, 6)
    && Required(r.confirmPassword) && r.confirmPassword == r.newPassword
  }

  /** All three profile fields are non-nullable strings, so each is required. */
  predicate ValidUpdateProfile(r: UpdateProfileRequest) {
    && Required(r.username) && MaxLength(r.username, 50)
    && Required(r.phoneNumber) && MaxLength(r.phoneNumber, 20)
    && Required(r.address) && MaxLength(r.address, 200)
  }

  predicate ValidChangeRole(r: ChangeRoleRequest) {
    Required(r.newRole) && MaxLength(r.newRole, 10)
  }

  /** A required value is present and non-empty; a value made of white space alone, the empty one included, is refused. */
  lemma RequiredRefusesBlank(v: Option<string>)
    ensures Required(v) ==> v.Some? && |v.value| > 0
    ensures v.Some? && (forall i :: 0 <= i < |v.value| ==> IsWhiteSpace(v.value[i])) ==> !Required(v)
  {
  }

  /**
    The register checks, written as the bounds of each field: username at
    most 50, email at most 100, phone at most 20 and address at most 200
    UTF-16 code units, each non-empty; a password of at least 6 code units,
    so of at least 3 characters.
   */
  lemma ValidRegisterBounds(r: RegisterRequest)
    requires ValidRegister(r)
    ensures 0 < |r.username.value| <= Utf16Length(r.username.value) <= 50
    ensures 0 < |r.email.value| <= Utf16Length(r.email.value) <= 100
    ensures Utf16Length(r.password.value) >= 6 && |r.password.value| >= 3
    ensures 0 < |r.phoneNumber.value| <= Utf16Length(r.phoneNumber.value) <= 20
    ensures 0 < |r.address.value| <= Utf16Length(r.address.value) <= 200
  {
  }

  /** Whoever could register can log in with the same email and password, as far as the body checks go. */
  lemma RegisterBodyGivesLoginBody(r: RegisterRequest)
    requires ValidRegister(r)
    ensures ValidLogin(LoginRequest(r.email, r.password))
  {
  }

  /** A valid registration's profile fields also pass the profile-update checks. */
  lemma RegisterBodyGivesProfileBody(r: RegisterRequest)
    requires ValidRegister(r)
    ensures ValidUpdateProfile(UpdateProfileRequest(r.username, r.phoneNumber, r.address))
  {
  }

  /** A valid password change confirms the new password, which has at least six UTF-16 code units and so at least three characters. */
  lemma ValidChangePasswordConfirms(r: ChangePasswordRequest)
    requires ValidChangePassword(r)
    ensures r.newPassword.Some? && r.confirmPassword == r.newPassword
    ensures Utf16Length(r.newPassword.value) >= 6 && |r.newPassword.value| >= 3
  {
  }

  /** A mismatched confirmation is refused however good both passwords are. */
  lemma MismatchRefused(current: string, newPassword: string, confirm: string)
    requires newPassword != confirm
    ensures !ValidChangePassword(ChangePasswordRequest(Some(current), Some(newPassword), Some(confirm)))
  {
  }
}
