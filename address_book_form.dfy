/**
 * The validation rules of the entry form. A field's `required` rule fails on
 * an absent value and on the empty string (a string of spaces passes); a
 * further rule is checked only on a present value. The photo field has no
 * rule, and the password is required only when a new entry is being created.
 */
module EntryForm {
  import opened Wrappers
  import Calendar

  /** The form's fields, in the order the form lays them out. */
  datatype Field = FullName | Job | Department | MobileNumber | DateOfBirth | Address | Email | Password | Photo

  /** A field's position in the form. */
  function Position(f: Field): (n: nat)
    ensures n < 9
  {
    match f
    case FullName => 0
    case Job => 1
    case Department => 2
    case MobileNumber => 3
    case DateOfBirth => 4
    case Address => 5
    case Email => 6
    case Password => 7
    case Photo => 8
  }

  /** The values the form holds; a field the user has not filled in is absent. */
  datatype FormValues = FormValues(
    fullName: Option<string>,
    jobId: Option<int>,
    departmentId: Option<int>,
    mobileNumber: Option<string>,
    dateOfBirth: Option<Calendar.DateTime>,
    address: Option<string>,
    email: Option<string>,
    password: Option<string>,
    photo: Option<string>)

  /** What a `required` rule rejects in a text field. */
  predicate Blank(v: Option<string>) {
    v.None? || v.value == ""
  }

  /** The characters ECMAScript's `\s` matches: its WhiteSpace (tab, vertical
      tab, form feed, space, no-break space, byte-order mark and the Unicode
      space separators) and LineTerminator (line feed, carriage return, line
      and paragraph separators) productions. */
  predicate IsRegexSpace(c: char)
    ensures c == ' ' || c == '\t' || c == '\n' ==> IsRegexSpace(c)
    ensures IsRegexSpace(c) ==> !('0' <= c <= '9') && c != '-' && c != '+'
  {
    var n := c as int;
    || (0x09 <= n <= 0x0D) || n == 0x20 || n == 0xA0 || n == 0x1680
    || (0x2000 <= n <= 0x200A) || n == 0x2028 || n == 0x2029
    || n == 0x202F || n == 0x205F || n == 0x3000 || n == 0xFEFF
  }

  /** The class `[\d\s-]`: an ASCII digit, a `\s` character or a hyphen. */
  predicate IsPhoneChar(c: char)
    ensures ('a' <= c <= 'z' || 'A' <= c <= 'Z' || c == '+') ==> !IsPhoneChar(c)
  {
    ('0' <= c <= '9') || IsRegexSpace(c) || c == '-'
  }

  function AllPhoneChars(s: string): (b: bool)
    ensures b <==> forall i :: 0 <= i < |s| ==> IsPhoneChar(s[i])
  {
    if s == [] then true
    else IsPhoneChar(s[0]) && AllPhoneChars(s[1..])
  }

  /** A test of `^\+?[\d\s-]+$`: an optional leading plus followed by one or
      more digits, `\s` characters or hyphens, and nothing else. */
  function IsValidMobile(s: string): (b: bool)
    ensures b ==> s != [] && s != "+"
    ensures b ==> forall i :: 0 < i < |s| ==> s[i] != '+' && IsPhoneChar(s[i])
  {
    var digits := if |s| > 0 && s[0] == '+' then s[1..] else s;
    |digits| > 0 && AllPhoneChars(digits)
  }

  /** The pattern read as a regular expression: the string splits into a
      prefix matching `\+?` (empty or one plus) and a non-empty rest matching
      `[\d\s-]+`. */
  ghost predicate MatchesMobilePattern(s: string) {
    exists p :: 0 <= p <= 1 && p < |s| && (p == 1 ==> s[0] == '+') && AllPhoneChars(s[p..])
  }

  /** The test accepts exactly the strings the regular expression matches,
      including after backtracking over the optional plus. */
  lemma IsValidMobileMatchesPattern(s: string)
    ensures IsValidMobile(s) <==> MatchesMobilePattern(s)
  {
    if s != [] {
      var p := if s[0] == '+' then 1 else 0;
      assert s[0..] == s;
      if IsValidMobile(s) {
        assert 0 <= p <= 1 && p < |s| && (p == 1 ==> s[0] == '+') && AllPhoneChars(s[p..]);
      }
      if MatchesMobilePattern(s) && s[0] == '+' {
        assert !IsPhoneChar(s[0]);
        assert !AllPhoneChars(s[0..]);
      }
    }
  }

  /** A letter anywhere, or a plus anywhere but at the start, fails the pattern. */
  lemma MobileRejectsLetterOrInnerPlus(s: string, i: int)
    requires 0 <= i < |s|
    requires ('a' <= s[i] <= 'z') || ('A' <= s[i] <= 'Z') || (i > 0 && s[i] == '+')
    ensures !IsValidMobile(s)
  {
    if i == 0 {
      assert s[0] != '+' && !IsPhoneChar(s[0]);
    }
  }

  /** Numbers written with a country code, spaces and hyphens pass. */
  lemma MobileAccepted()
    ensures IsValidMobile("+27 82-555")
    ensures IsValidMobile("082 555")
  {
    var digits := "+27 82-555"[1..];
    assert forall i :: 0 <= i < |digits| ==> IsPhoneChar(digits[i]);
    assert forall i :: 0 <= i < |"082 555"| ==> IsPhoneChar("082 555"[i]);
  }

  /** Empty, a bare plus, letters and a plus after the start fail. */
  lemma MobileRejected()
    ensures !IsValidMobile("")
    ensures !IsValidMobile("+")
    ensures !IsValidMobile("08a")
    ensures !IsValidMobile("08+5")
    ensures !IsValidMobile("++2")
  {
    assert "08a"[2] == 'a';
    assert "08+5"[2] == '+';
    assert "++2"[1] == '+';
  }

  /** The field at a position of the form. */
  function FieldAt(n: nat): (f: Field)
    requires n < 9
    ensures Position(f) == n
  {
    [FullName, Job, Department, MobileNumber, DateOfBirth, Address, Email, Password, Photo][n]
  }

  /** Positions identify fields. */
  lemma FieldAtPosition(f: Field)
    ensures FieldAt(Position(f)) == f
  {
  }

  /** Whether the rules of field `f` reject the values. `editing` says whether
      an existing entry is being edited; `isEmail` is the e-mail type rule. */
  predicate Fails(v: FormValues, editing: bool, isEmail: string -> bool, f: Field)
    ensures f == Photo ==> !Fails(v, editing, isEmail, f)
    ensures f == Password && editing ==> !Fails(v, editing, isEmail, f)
  {
    match f
    case FullName => Blank(v.fullName)
    case Job => v.jobId.None?
    case Department => v.departmentId.None?
    case MobileNumber => Blank(v.mobileNumber) || !IsValidMobile(v.mobileNumber.value)
    case DateOfBirth => v.dateOfBirth.None?
    case Address => Blank(v.address)
    case Email => Blank(v.email) || !isEmail(v.email.value)
    case Password => !editing && Blank(v.password)
    case Photo => false
  }

  /** The fields from position `n` on whose rules reject the values, in form order. */
  function FailingFrom(v: FormValues, editing: bool, isEmail: string -> bool, n: nat): (r: seq<Field>)
    ensures forall f: Field :: f in r <==> n <= Position(f) && Fails(v, editing, isEmail, f)
    ensures forall i, j :: 0 <= i < j < |r| ==> Position(r[i]) < Position(r[j])
    decreases 9 - n
  {
    if n >= 9 then []
    else
      var f := FieldAt(n);
      var rest := FailingFrom(v, editing, isEmail, n + 1);
      assert forall g: Field :: Position(g) == n ==> g == f by {
        forall g: Field | Position(g) == n ensures g == f {
          FieldAtPosition(g);
        }
      }
      if Fails(v, editing, isEmail, f) then [f] + rest else rest
  }

  /** The fields whose rules reject the values, in form order: the form calls
      its submit handler only when the list is empty. */
  function FailingFields(v: FormValues, editing: bool, isEmail: string -> bool): (r: seq<Field>)
    ensures forall f: Field :: f in r <==> Fails(v, editing, isEmail, f)
    ensures forall i, j :: 0 <= i < j < |r| ==> Position(r[i]) < Position(r[j])
  {
    FailingFrom(v, editing, isEmail, 0)
  }

  /** The password is required exactly when creating, and the photo never. */
  lemma PasswordRequiredIffCreating(v: FormValues, editing: bool, isEmail: string -> bool)
    ensures Password in FailingFields(v, editing, isEmail) <==> !editing && Blank(v.password)
    ensures Photo !in FailingFields(v, editing, isEmail)
  {
    var r := FailingFields(v, editing, isEmail);
    assert Password in r <==> Fails(v, editing, isEmail, Password);
    assert Photo in r <==> Fails(v, editing, isEmail, Photo);
  }

  /** From any position up to the password's, creating and editing reject
      the same fields except for the password, which comes last. */
  lemma {:induction false} CreatingAddsPasswordFrom(v: FormValues, isEmail: string -> bool, n: nat)
    requires n <= Position(Password)
    ensures FailingFrom(v, false, isEmail, n)
            == FailingFrom(v, true, isEmail, n) + (if Blank(v.password) then [Password] else [])
    decreases 9 - n
  {
    var f := FieldAt(n);
    if n < Position(Password) {
      CreatingAddsPasswordFrom(v, isEmail, n + 1);
      assert f != Password;
      assert Fails(v, false, isEmail, f) == Fails(v, true, isEmail, f);
    } else {
      assert f == Password;
      assert FailingFrom(v, true, isEmail, n + 1) == [];
      assert FailingFrom(v, false, isEmail, n + 1) == [];
    }
  }

  /** Creating and editing apply the same rules except for the password,
      which only creating requires; it is the last rule the form checks. */
  lemma CreatingAddsOnlyPassword(v: FormValues, isEmail: string -> bool)
    ensures FailingFields(v, false, isEmail)
            == FailingFields(v, true, isEmail) + (if Blank(v.password) then [Password] else [])
  {
    CreatingAddsPasswordFrom(v, isEmail, 0);
  }

  /** An edit can be submitted without a password or photo exactly when the
      other rules pass; a creation needs a non-empty password as well. */
  lemma SubmitWithoutPassword(v: FormValues, isEmail: string -> bool)
    requires v.password.None? && v.photo.None?
    ensures FailingFields(v, false, isEmail) != []
    ensures FailingFields(v, true, isEmail) == [] <==>
      && !Blank(v.fullName) && v.jobId.Some? && v.departmentId.Some?
      && !Blank(v.mobileNumber) && IsValidMobile(v.mobileNumber.value)
      && v.dateOfBirth.Some? && !Blank(v.address)
      && !Blank(v.email) && isEmail(v.email.value)
  {
    PasswordRequiredIffCreating(v, false, isEmail);
    var r := FailingFields(v, true, isEmail);
    if r != [] {
      var f := r[0];
      assert f in r && Fails(v, true, isEmail, f);
    } else {
      assert FullName !in r && Job !in r && Department !in r && MobileNumber !in r;
      assert DateOfBirth !in r && Address !in r && Email !in r;
    }
  }
}
