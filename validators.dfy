/**
 * The request field validators. Each returns a verdict `{isValid, message}`; a missing or
 * empty value is reported as required before any format check runs.
 */
module Validators {
  import opened Wrappers
  import opened Regex

  datatype Verdict = Verdict(isValid: bool, message: Option<string>)

  function Pass(): Verdict {
    Verdict(true, None)
  }

  function Fail(message: string): Verdict {
    Verdict(false, Some(message))
  }

  /** A valid verdict carries no message and an invalid one always does. */
  predicate WellFormed(v: Verdict) {
    v.isValid <==> v.message.None?
  }

  // ---------------------------------------------------------------- TFN

  /** `/^[0-9]{8,9}$/` */
  const TfnPattern: Pattern := Repeat(DecimalDigit, 8, Some(9))

  predicate AllDigits(s: string) {
    forall k | 0 <= k < |s| :: '0' <= s[k] <= '9'
  }

  function ValidateTFN(tfn: Option<string>): (r: Verdict)
    ensures WellFormed(r)
    ensures !Present(tfn) ==> r == Fail("TFN is required")
    ensures Present(tfn) ==> (r.isValid <==> 8 <= |tfn.value| <= 9 && AllDigits(tfn.value))
    ensures Present(tfn) && !r.isValid ==> r == Fail("TFN must be 8-9 digits only")
  {
    if !Present(tfn) then Fail("TFN is required")
    else if !FullMatch(TfnPattern, tfn.value) then Fail("TFN must be 8-9 digits only")
    else Pass()
  }

  // ---------------------------------------------------------------- email

  /** `[^\s@]+` */
  const Word: Pattern := Plus(NotSpaceOrAt)

  /** `[^\s@]+\.[^\s@]+`, what follows the `@` */
  const DomainPattern: Pattern := Concat(Word, Concat(Lit('.'), Word))

  /** `/^[^\s@]+@[^\s@]+\.[^\s@]+$/` */
  const EmailPattern: Pattern := Concat(Word, Concat(Lit('@'), DomainPattern))

  predicate NoWhitespace(s: string) {
    forall k | 0 <= k < |s| :: !IsWhitespace(s[k])
  }

  /** `s[i]` is an `@` and `s` has no other. */
  predicate OnlyAtSignAt(s: string, i: int) {
    0 <= i < |s| && s[i] == '@' && forall k | 0 <= k < |s| && k != i :: s[k] != '@'
  }

  /** `d` has a `.` that is neither its first nor its last character. */
  predicate HasInteriorDot(d: string) {
    exists j | 0 < j < |d| - 1 :: d[j] == '.'
  }

  /**
   * The shape the email pattern accepts: no whitespace, exactly one `@`, a non-empty part
   * before it, and a domain after it with an interior dot.
   */
  predicate EmailShape(s: string) {
    NoWhitespace(s) && exists i | 0 < i < |s| :: OnlyAtSignAt(s, i) && HasInteriorDot(s[i + 1..])
  }

  predicate AllWordChars(s: string) {
    forall k | 0 <= k < |s| :: InClass(NotSpaceOrAt, s[k])
  }

  lemma ConcatSplit(l: Pattern, r: Pattern, s: string) returns (k: nat)
    requires FullMatch(Concat(l, r), s)
    ensures k <= |s| && FullMatch(l, s[..k]) && FullMatch(r, s[k..])
  {
    k :| 0 <= k <= |s| && FullMatch(l, s[..k]) && FullMatch(r, s[k..]);
  }

  lemma ConcatJoin(l: Pattern, r: Pattern, s: string, k: nat)
    requires k <= |s| && FullMatch(l, s[..k]) && FullMatch(r, s[k..])
    ensures FullMatch(Concat(l, r), s)
  {
  }

  /** A literal followed by a word: the literal, then at least one word character. */
  lemma LitWord(c: char, s: string)
    ensures FullMatch(Concat(Lit(c), Word), s) <==> |s| >= 2 && s[0] == c && AllWordChars(s[1..])
  {
    if FullMatch(Concat(Lit(c), Word), s) {
      var k := ConcatSplit(Lit(c), Word, s);
      assert |s[..k]| == 1;
    }
    if |s| >= 2 && s[0] == c && AllWordChars(s[1..]) {
      assert s[..1] == [c];
      ConcatJoin(Lit(c), Word, s, 1);
    }
  }

  /** What follows the `@` matches exactly when it is word characters with an interior dot. */
  lemma DomainShape(d: string)
    ensures FullMatch(DomainPattern, d) <==> AllWordChars(d) && HasInteriorDot(d)
  {
    var tail := Concat(Lit('.'), Word);
    if FullMatch(DomainPattern, d) {
      var j := ConcatSplit(Word, tail, d);
      LitWord('.', d[j..]);
      assert d[j] == '.' && 0 < j < |d| - 1;
      forall k | 0 <= k < |d| ensures InClass(NotSpaceOrAt, d[k]) {
        if k < j {
          assert d[k] == d[..j][k];
        } else if k > j {
          assert d[k] == d[j..][1..][k - j - 1];
        }
      }
    }
    if AllWordChars(d) && HasInteriorDot(d) {
      var j :| 0 < j < |d| - 1 && d[j] == '.';
      assert AllWordChars(d[j..][1..]) by {
        forall k | 0 <= k < |d[j..][1..]| ensures InClass(NotSpaceOrAt, d[j..][1..][k]) {
          assert d[j..][1..][k] == d[j + 1 + k];
        }
      }
      LitWord('.', d[j..]);
      assert FullMatch(Word, d[..j]) by {
        forall k | 0 <= k < j ensures InClass(NotSpaceOrAt, d[..j][k]) {
          assert d[..j][k] == d[k];
        }
      }
      ConcatJoin(Word, tail, d, j);
    }
  }

  /** A single literal character matches exactly that one-character string. */
  lemma LitMatch(c: char, s: string)
    ensures FullMatch(Lit(c), s) <==> s == [c]
  {
    if s == [c] {
      assert InClass(Literal(c), s[0]);
    }
  }

  lemma AtDomainSplit(t: string)
    requires FullMatch(Concat(Lit('@'), DomainPattern), t)
    ensures |t| >= 1 && t[0] == '@' && FullMatch(DomainPattern, t[1..])
  {
    var k := ConcatSplit(Lit('@'), DomainPattern, t);
    LitMatch('@', t[..k]);
    assert k == 1 && t[0] == t[..k][0];
  }

  lemma AtDomainJoin(t: string)
    requires |t| >= 1 && t[0] == '@' && FullMatch(DomainPattern, t[1..])
    ensures FullMatch(Concat(Lit('@'), DomainPattern), t)
  {
    assert t[..1] == ['@'];
    LitMatch('@', t[..1]);
    ConcatJoin(Lit('@'), DomainPattern, t, 1);
  }

  /** `@` followed by a domain. */
  lemma AtDomain(t: string)
    ensures FullMatch(Concat(Lit('@'), DomainPattern), t) <==>
            |t| >= 1 && t[0] == '@' && FullMatch(DomainPattern, t[1..])
  {
    if FullMatch(Concat(Lit('@'), DomainPattern), t) {
      AtDomainSplit(t);
    }
    if |t| >= 1 && t[0] == '@' && FullMatch(DomainPattern, t[1..]) {
      AtDomainJoin(t);
    }
  }

  /** Word characters on both sides of one `@`: no whitespace and no other `@`. */
  lemma AroundAtSign(s: string, i: nat)
    requires i < |s| && s[i] == '@'
    requires AllWordChars(s[..i]) && AllWordChars(s[i + 1..])
    ensures NoWhitespace(s) && OnlyAtSignAt(s, i)
  {
    forall k | 0 <= k < |s|
      ensures InClass(NotSpaceOrAt, s[k]) || k == i
    {
      if k < i {
        assert s[k] == s[..i][k];
      } else if k > i {
        assert s[k] == s[i + 1..][k - i - 1];
      }
    }
  }

  lemma MatchesEmailShape(s: string)
    requires FullMatch(EmailPattern, s)
    ensures EmailShape(s)
  {
    var i := ConcatSplit(Word, Concat(Lit('@'), DomainPattern), s);
    var d := s[i + 1..];
    AtDomain(s[i..]);
    assert s[i..][1..] == d;
    DomainShape(d);
    AroundAtSign(s, i);
    assert 0 < i < |s| && OnlyAtSignAt(s, i) && HasInteriorDot(d);
  }

  /** Away from its one `@`, a string without whitespace holds only word characters. */
  lemma WordCharsBesideAt(s: string, i: nat)
    requires NoWhitespace(s) && OnlyAtSignAt(s, i)
    ensures AllWordChars(s[..i]) && AllWordChars(s[i + 1..])
  {
    forall k | 0 <= k < i ensures InClass(NotSpaceOrAt, s[..i][k]) {
      assert s[..i][k] == s[k];
    }
    var d := s[i + 1..];
    forall k | 0 <= k < |d| ensures InClass(NotSpaceOrAt, d[k]) {
      assert d[k] == s[i + 1 + k];
    }
  }

  lemma ShapeMatches(s: string)
    requires EmailShape(s)
    ensures FullMatch(EmailPattern, s)
  {
    var i :| 0 < i < |s| && OnlyAtSignAt(s, i) && HasInteriorDot(s[i + 1..]);
    var d := s[i + 1..];
    WordCharsBesideAt(s, i);
    DomainShape(d);
    assert s[i..][1..] == d;
    AtDomainJoin(s[i..]);
    assert FullMatch(Word, s[..i]);
    ConcatJoin(Word, Concat(Lit('@'), DomainPattern), s, i);
  }

  /** The email pattern accepts exactly the strings of `EmailShape`. */
  lemma EmailPatternShape(s: string)
    ensures FullMatch(EmailPattern, s) <==> EmailShape(s)
  {
    if FullMatch(EmailPattern, s) {
      MatchesEmailShape(s);
    }
    if EmailShape(s) {
      ShapeMatches(s);
    }
  }

  function ValidateEmail(email: Option<string>): (r: Verdict)
    ensures WellFormed(r)
    ensures !Present(email) ==> r == Fail("Email is required")
    ensures Present(email) ==> (r.isValid <==> EmailShape(email.value))
    ensures Present(email) && !r.isValid ==> r == Fail("Please enter a valid email address")
  {
    if !Present(email) then Fail("Email is required")
    else
      EmailPatternShape(email.value);
      if !FullMatch(EmailPattern, email.value) then Fail("Please enter a valid email address")
      else Pass()
  }

  // ---------------------------------------------------------------- amount

  /**
   * `isNonNegativeNumber` stands for `!isNaN(parseFloat(a)) && parseFloat(a) >= 0`,
   * JavaScript's floating-point prefix parse, which this model leaves abstract.
   */
  function ValidateAmount(amount: Option<string>, isNonNegativeNumber: string -> bool): (r: Verdict)
    ensures WellFormed(r)
    ensures !Present(amount) ==> r == Fail("Amount is required")
    ensures Present(amount) ==> (r.isValid <==> isNonNegativeNumber(amount.value))
    ensures Present(amount) && !r.isValid ==> r == Fail("Amount must be a positive number")
  {
    if !Present(amount) then Fail("Amount is required")
    else if !isNonNegativeNumber(amount.value) then Fail("Amount must be a positive number")
    else Pass()
  }

  // ---------------------------------------------------------------- required

  /** `String.prototype.trim`: drop leading and trailing whitespace and line terminators. */
  function TrimStart(s: string): (t: string)
    ensures |t| <= |s|
    ensures t != [] ==> !IsWhitespace(t[0])
    decreases |s|
  {
    if s != [] && IsWhitespace(s[0]) then TrimStart(s[1..]) else s
  }

  function TrimEnd(s: string): string
    decreases |s|
  {
    if s != [] && IsWhitespace(s[|s| - 1]) then TrimEnd(s[..|s| - 1]) else s
  }

  function Trim(s: string): string {
    TrimEnd(TrimStart(s))
  }

  lemma {:induction false} TrimStartEmpty(s: string)
    ensures TrimStart(s) == [] <==> forall k | 0 <= k < |s| :: IsWhitespace(s[k])
    decreases |s|
  {
    if s != [] && IsWhitespace(s[0]) {
      TrimStartEmpty(s[1..]);
      assert forall k | 1 <= k < |s| :: s[k] == s[1..][k - 1];
    }
  }

  lemma {:induction false} TrimEndKeepsLeadingText(s: string)
    requires s != [] && !IsWhitespace(s[0])
    ensures TrimEnd(s) != []
    decreases |s|
  {
    if IsWhitespace(s[|s| - 1]) {
      TrimEndKeepsLeadingText(s[..|s| - 1]);
    }
  }

  /** A string trims to nothing exactly when every character is whitespace. */
  lemma TrimEmptyIffBlank(s: string)
    ensures Trim(s) == [] <==> forall k | 0 <= k < |s| :: IsWhitespace(s[k])
  {
    TrimStartEmpty(s);
    if TrimStart(s) != [] {
      TrimEndKeepsLeadingText(TrimStart(s));
    }
  }

  function ValidateRequired(value: Option<string>, fieldName: string): (r: Verdict)
    ensures WellFormed(r)
    ensures r.isValid <==> value.Some? && exists k | 0 <= k < |value.value| :: !IsWhitespace(value.value[k])
    ensures !r.isValid ==> r == Fail(fieldName + " is required")
  {
    if !Present(value) then Fail(fieldName + " is required")
    else
      TrimEmptyIffBlank(value.value);
      if Trim(value.value) == "" then Fail(fieldName + " is required")
      else Pass()
  }

  // ---------------------------------------------------------------- select

  function ValidateSelect(value: Option<string>, options: seq<string>, fieldName: string): (r: Verdict)
    ensures WellFormed(r)
    ensures !Present(value) ==> r == Fail(fieldName + " is required")
    ensures Present(value) ==> (r.isValid <==> value.value in options)
    ensures Present(value) && !r.isValid ==> r == Fail("Invalid " + fieldName + " selection")
  {
    if !Present(value) then Fail(fieldName + " is required")
    else if value.value !in options then Fail("Invalid " + fieldName + " selection")
    else Pass()
  }
}
