/**
 * The password policy of the User model and the validation that runs
 * before a user row is saved.  Hashing is an opaque function supplied by
 * the caller; it may fail.
 */
module Password {
  import opened Text
  import opened Results
  import opened Store

  const MinLength: nat := 8

  /** The four character classes the policy asks for, each one regexp bracket expression. */
  datatype CharClass = Upper | Lower | Digit | Special

  /** The bytes of the bracket expression `[!@#\$%^&*(),.?":{}|<>]`. */
  const SpecialBytes: set<Byte> :=
    {'!', '@', '#', '$', '%', '^', '&', '*', '(', ')', ',', '.', '?', '"', ':', '{', '}', '|', '<', '>'}

  predicate InClass(b: Byte, c: CharClass) {
    match c
    case Upper => 'A' <= b <= 'Z'
    case Lower => 'a' <= b <= 'z'
    case Digit => '0' <= b <= '9'
    case Special => b in SpecialBytes
  }

  /** Some byte of `s` belongs to class `c`. */
  predicate HasClass(s: Text, c: CharClass) {
    exists i :: 0 <= i < |s| && InClass(s[i], c)
  }

  /**
   * `regexp.MustCompile(class).MatchString(s)`: a scan for a byte of the
   * class.  Every byte of a multi-byte UTF-8 sequence is at least 0x80, so
   * scanning bytes finds exactly the ASCII characters the regexp matches.
   */
  function MatchClass(s: Text, c: CharClass): (found: bool)
    ensures found <==> HasClass(s, c)
  {
    if s == [] then false
    else if InClass(s[0], c) then true
    else
      var found := MatchClass(s[1..], c);
      assert found ==> HasClass(s, c) by {
        if found {
          var i :| 0 <= i < |s[1..]| && InClass(s[1..][i], c);
          assert InClass(s[i + 1], c);
        }
      }
      assert HasClass(s, c) ==> found by {
        if HasClass(s, c) {
          var i :| 0 <= i < |s| && InClass(s[i], c);
          assert i > 0 && InClass(s[1..][i - 1], c);
        }
      }
      found
  }

  datatype PasswordError = TooShort | MissingCharClass

  /**
   * ValidatePassword: the length check comes first, then all four classes
   * are required.  `None` is Go's nil error.
   */
  function ValidatePassword(p: Text): (r: Option<PasswordError>)
    ensures r == Some(TooShort) <==> |p| < MinLength
    ensures r == Some(MissingCharClass) <==> |p| >= MinLength && exists c :: !HasClass(p, c)
    ensures r == None <==> |p| >= MinLength && forall c :: HasClass(p, c)
  {
    if |p| < MinLength then Some(TooShort)
    else if !MatchClass(p, Upper) || !MatchClass(p, Lower)
         || !MatchClass(p, Digit) || !MatchClass(p, Special) then
      Some(MissingCharClass)
    else
      AllFourClasses(p);
      None
  }

  lemma AllFourClasses(p: Text)
    requires HasClass(p, Upper) && HasClass(p, Lower) && HasClass(p, Digit) && HasClass(p, Special)
    ensures forall c :: HasClass(p, c)
  {
    forall c ensures HasClass(p, c) {
      match c
      case Upper =>
      case Lower =>
      case Digit =>
      case Special =>
    }
  }

  /** Appending bytes to an accepted password keeps it accepted. */
  lemma {:induction false} AcceptedExtends(p: Text, q: Text)
    requires ValidatePassword(p) == None
    ensures ValidatePassword(p + q) == None
  {
    forall c ensures HasClass(p + q, c) {
      var i :| 0 <= i < |p| && InClass(p[i], c);
      assert (p + q)[i] == p[i];
    }
  }

  /** A password lacking any one class is refused with the class error, however long. */
  lemma MissingOneClass(p: Text, c: CharClass)
    requires |p| >= MinLength
    requires forall i :: 0 <= i < |p| ==> !InClass(p[i], c)
    ensures ValidatePassword(p) == Some(MissingCharClass)
  {
    assert !HasClass(p, c);
  }

  datatype SaveError = Invalid(reason: PasswordError) | HashFailed

  /**
   * BeforeSave: validate the plain-text password, then replace it by its
   * hash.  On any error the record is returned untouched.
   */
  function BeforeSave(u: User, hash: Text -> Option<Text>): (r: (User, Option<SaveError>))
    ensures ValidatePassword(u.password).Some? ==>
      r == (u, Some(Invalid(ValidatePassword(u.password).value)))
    ensures ValidatePassword(u.password).None? && hash(u.password).None? ==>
      r == (u, Some(HashFailed))
    ensures r.1.None? <==> ValidatePassword(u.password).None? && hash(u.password).Some?
    ensures r.1.None? ==> r.0 == User(u.username, hash(u.password).value)
  {
    match ValidatePassword(u.password)
    case Some(e) => (u, Some(Invalid(e)))
    case None =>
      match hash(u.password)
      case None => (u, Some(HashFailed))
      case Some(h) => (u.(password := h), None)
  }
}
