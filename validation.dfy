/** The request-body validator of the user service (validateUser in
    backend/index.js): five independent field checks, each adding one fixed
    message, in the order firstName, lastName, email, age, country. */
module Validation {
  import opened Wrappers

  /** A JSON value as far as the validator looks at it: `typeof` separates
      strings from numbers, and JavaScript truthiness depends on the kind.
      A JSON number is a finite decimal, so it is modelled as a `real`. */
  datatype JsonValue =
    | JString(s: string)
    | JNumber(n: real)
    | JBool(b: bool)
    | JNull
    | JComposite  // an object or an array

  /** A request body. The validator reads five fields, each of which may be
      absent (JavaScript `undefined`); `id` is the field the update handler
      merges in from the path before validating. */
  datatype Candidate = Candidate(
    id: Option<JsonValue>,
    firstName: Option<JsonValue>,
    lastName: Option<JsonValue>,
    email: Option<JsonValue>,
    age: Option<JsonValue>,
    country: Option<JsonValue>)

  /** The five checks of validateUser, in the order they run. */
  datatype Check = FirstName | LastName | Email | Age | Country

  /** Position of a check in the order they run. */
  function Rank(c: Check): nat {
    match c
    case FirstName => 0
    case LastName => 1
    case Email => 2
    case Age => 3
    case Country => 4
  }

  /** The messages the five checks push, in French as the service sends them. */
  const FirstNameMessage := "Le pr\U{e9}nom est requis et doit \U{ea}tre une cha\U{ee}ne non vide."
  const LastNameMessage := "Le nom est requis et doit \U{ea}tre une cha\U{ee}ne non vide."
  const EmailMessage := "L'email est requis et doit \U{ea}tre un format valide."
  const AgeMessage := "L'\U{e2}ge doit \U{ea}tre un nombre positif."
  const CountryMessage := "Le pays est requis et doit \U{ea}tre une cha\U{ee}ne non vide."

  /** The message a failing check pushes onto the error list. */
  function Message(c: Check): string {
    match c
    case FirstName => FirstNameMessage
    case LastName => LastNameMessage
    case Email => EmailMessage
    case Age => AgeMessage
    case Country => CountryMessage
  }

  /** Different checks have different messages (their lengths already differ),
      so an error list tells exactly which checks failed. */
  lemma MessageInjective(c: Check, d: Check)
    ensures Message(c) == Message(d) ==> c == d
  {
    assert |Message(FirstName)| == 54 && |Message(LastName)| == 51 && |Message(Email)| == 49;
    assert |Message(Age)| == 34 && |Message(Country)| == 52;
  }

  /** JavaScript truthiness of a field; an absent field is `undefined`, which is falsy. */
  predicate Truthy(v: Option<JsonValue>) {
    match v
    case None => false
    case Some(JString(s)) => s != ""
    case Some(JNumber(n)) => n != 0.0
    case Some(JBool(b)) => b
    case Some(JNull) => false
    case Some(JComposite) => true
  }

  /** The characters `\s` matches in a JavaScript regular expression; they are
      also exactly the ones `String.prototype.trim` strips (WhiteSpace and
      LineTerminator of ECMA-262). */
  predicate IsWhitespace(c: char) {
    var n := c as int;
    (0x09 <= n <= 0x0D) || n == 0x20 || n == 0xA0 || n == 0x1680
    || (0x2000 <= n <= 0x200A) || n == 0x2028 || n == 0x2029 || n == 0x202F
    || n == 0x205F || n == 0x3000 || n == 0xFEFF
  }

  /** True when every character of `s` is whitespace (the empty string included). */
  predicate IsBlank(s: string) {
    forall k | 0 <= k < |s| :: IsWhitespace(s[k])
  }

  /** `s` without its leading whitespace: a suffix of `s` whose dropped prefix
      is all whitespace and which does not start with whitespace. */
  function TrimStart(s: string): (r: string)
    ensures |r| <= |s| && r == s[|s| - |r|..]
    ensures forall k | 0 <= k < |s| - |r| :: IsWhitespace(s[k])
    ensures r == [] || !IsWhitespace(r[0])
  {
    if |s| > 0 && IsWhitespace(s[0]) then TrimStart(s[1..]) else s
  }

  /** `s` without its trailing whitespace: a prefix of `s` whose dropped suffix
      is all whitespace and which does not end with whitespace. */
  function TrimEnd(s: string): (r: string)
    ensures |r| <= |s| && r == s[..|r|]
    ensures forall k | |r| <= k < |s| :: IsWhitespace(s[k])
    ensures r == [] || !IsWhitespace(r[|r| - 1])
  {
    if |s| > 0 && IsWhitespace(s[|s| - 1]) then TrimEnd(s[..|s| - 1]) else s
  }

  /** `r` is the slice of `s` that starts at `start`, and every character of
      `s` outside that slice is whitespace. */
  predicate IsTrimmedAt(s: string, r: string, start: int) {
    && 0 <= start <= |s| - |r|
    && r == s[start..start + |r|]
    && (forall k | 0 <= k < start :: IsWhitespace(s[k]))
    && (forall k | start + |r| <= k < |s| :: IsWhitespace(s[k]))
  }

  /** `String.prototype.trim`: a slice of `s` with only whitespace around it
      and no whitespace at either of its ends; it is empty exactly when `s`
      is blank. */
  function Trim(s: string): (r: string)
    ensures exists start :: IsTrimmedAt(s, r, start)
    ensures r != [] ==> !IsWhitespace(r[0]) && !IsWhitespace(r[|r| - 1])
    ensures r == [] <==> IsBlank(s)
  {
    TrimOfParts(s, TrimStart(s), TrimEnd(TrimStart(s)));
    TrimEnd(TrimStart(s))
  }

  /** Trim's contract from those of its two halves: `t` is `s` trimmed at the
      start and `r` is `t` trimmed at the end. */
  lemma TrimOfParts(s: string, t: string, r: string)
    requires |t| <= |s| && t == s[|s| - |t|..]
    requires forall k | 0 <= k < |s| - |t| :: IsWhitespace(s[k])
    requires t == [] || !IsWhitespace(t[0])
    requires |r| <= |t| && r == t[..|r|]
    requires forall k | |r| <= k < |t| :: IsWhitespace(t[k])
    requires r == [] || !IsWhitespace(r[|r| - 1])
    ensures exists start :: IsTrimmedAt(s, r, start)
    ensures r != [] ==> !IsWhitespace(r[0]) && !IsWhitespace(r[|r| - 1])
    ensures r == [] <==> IsBlank(s)
  {
    var start := |s| - |t|;
    forall k | start + |r| <= k < |s| ensures IsWhitespace(s[k]) {
      assert s[k] == t[k - start];
    }
    assert IsTrimmedAt(s, r, start);
    if r != [] {
      assert r[0] == t[0];
    }
  }

  /** The check applied to firstName, lastName and country: rejected when the
      value is falsy, is not a string, or is empty once trimmed. */
  predicate NameFieldRejected(v: Option<JsonValue>) {
    !Truthy(v) || !(v.Some? && v.value.JString?) || |Trim(v.value.s)| < 1
  }

  /** What the name check accepts: a present string holding at least one
      character that is not whitespace. */
  predicate IsNonBlankString(v: Option<JsonValue>) {
    v.Some? && v.value.JString? && !IsBlank(v.value.s)
  }

  /** The name check, as written, rejects exactly what is not a non-blank string. */
  lemma NameFieldRejectedIff(v: Option<JsonValue>)
    ensures NameFieldRejected(v) <==> !IsNonBlankString(v)
  {
    if v.Some? && v.value.JString? && v.value.s == "" {
      assert IsBlank(v.value.s);
    }
  }

  /** A character the classes `[^\s@]` of the e-mail pattern accept. */
  predicate IsEmailSegmentChar(c: char) {
    !IsWhitespace(c) && c != '@'
  }

  /** A run of one or more `[^\s@]` characters. */
  predicate IsEmailSegment(t: string) {
    |t| > 0 && forall k | 0 <= k < |t| :: IsEmailSegmentChar(t[k])
  }

  /** The regular expression /^[^\s@]+@[^\s@]+\.[^\s@]+$/: `s` splits at an `@`
      (index i) and a later `.` (index j) into three non-empty runs of
      `[^\s@]` characters. */
  predicate MatchesEmailPattern(s: string) {
    exists i, j | 0 < i < |s| && i + 1 < j < |s| - 1 ::
      && s[i] == '@' && s[j] == '.'
      && IsEmailSegment(s[..i]) && IsEmailSegment(s[i + 1..j]) && IsEmailSegment(s[j + 1..])
  }

  /** The e-mail check: rejected when the value is falsy, is not a string, or
      does not match the pattern. */
  predicate EmailFieldRejected(v: Option<JsonValue>) {
    !Truthy(v) || !(v.Some? && v.value.JString?) || !MatchesEmailPattern(v.value.s)
  }

  /** The pattern read character by character: no whitespace anywhere; exactly
      one `@`, not the first character; and after the `@` a `.` that is
      neither the first nor the last character of the domain. */
  predicate IsWellFormedEmail(s: string) {
    && (forall k | 0 <= k < |s| :: !IsWhitespace(s[k]))
    && exists a | 0 < a < |s| ::
      && s[a] == '@'
      && (forall k | 0 <= k < |s| && s[k] == '@' :: k == a)
      && exists d | a + 1 < d < |s| - 1 :: s[d] == '.'
  }

  /** What the e-mail check accepts: a present, well-formed e-mail string. */
  predicate IsEmailString(v: Option<JsonValue>) {
    v.Some? && v.value.JString? && IsWellFormedEmail(v.value.s)
  }

  /** The regular expression and its character-level reading agree on every string. */
  lemma EmailPatternIff(s: string)
    ensures MatchesEmailPattern(s) <==> IsWellFormedEmail(s)
  {
    if MatchesEmailPattern(s) {
      MatchedEmailIsWellFormed(s);
    }
    if IsWellFormedEmail(s) {
      WellFormedEmailMatches(s);
    }
  }

  /** A string the pattern matches has no whitespace and a single `@`, followed
      later by a `.` inside the domain. */
  lemma MatchedEmailIsWellFormed(s: string)
    requires MatchesEmailPattern(s)
    ensures IsWellFormedEmail(s)
  {
    var i, j :| 0 < i < |s| && i + 1 < j < |s| - 1
      && s[i] == '@' && s[j] == '.'
      && IsEmailSegment(s[..i]) && IsEmailSegment(s[i + 1..j]) && IsEmailSegment(s[j + 1..]);
    forall k | 0 <= k < |s|
      ensures !IsWhitespace(s[k]) && (s[k] == '@' ==> k == i)
    {
      if k < i { RunChar(s, 0, i, k); }
      else if i < k < j { RunChar(s, i + 1, j, k); }
      else if j < k { RunChar(s, j + 1, |s|, k); }
    }
    assert exists d | i + 1 < d < |s| - 1 :: s[d] == '.' by {
      assert s[j] == '.';
    }
  }

  /** Every character of a run of `[^\s@]` characters is accepted by the class. */
  lemma RunChar(s: string, lo: int, hi: int, k: int)
    requires 0 <= lo <= k < hi <= |s| && IsEmailSegment(s[lo..hi])
    ensures IsEmailSegmentChar(s[k])
  {
    assert s[lo..hi][k - lo] == s[k];
  }

  /** A well-formed address splits at its `@` and at a `.` of the domain into
      the three runs the pattern asks for. */
  lemma WellFormedEmailMatches(s: string)
    requires IsWellFormedEmail(s)
    ensures MatchesEmailPattern(s)
  {
    var a :| 0 < a < |s| && s[a] == '@'
      && (forall k | 0 <= k < |s| && s[k] == '@' :: k == a)
      && exists d | a + 1 < d < |s| - 1 :: s[d] == '.';
    var d :| a + 1 < d < |s| - 1 && s[d] == '.';
    SegmentBetween(s, 0, a, a);
    SegmentBetween(s, a + 1, d, a);
    SegmentBetween(s, d + 1, |s|, a);
  }

  /** A non-empty stretch of a string without whitespace that avoids the one
      `@` is a run the pattern's classes accept. */
  lemma SegmentBetween(s: string, lo: int, hi: int, a: int)
    requires 0 <= lo < hi <= |s| && !(lo <= a < hi)
    requires forall k | 0 <= k < |s| :: !IsWhitespace(s[k])
    requires forall k | 0 <= k < |s| && s[k] == '@' :: k == a
    ensures IsEmailSegment(s[lo..hi])
  {
    forall k | 0 <= k < hi - lo ensures IsEmailSegmentChar(s[lo..hi][k]) {
      assert s[lo..hi][k] == s[lo + k];
    }
  }

  /** The e-mail check, as written, rejects exactly what is not a well-formed
      e-mail string. */
  lemma EmailFieldRejectedIff(v: Option<JsonValue>)
    ensures EmailFieldRejected(v) <==> !IsEmailString(v)
  {
    if v.Some? && v.value.JString? {
      EmailPatternIff(v.value.s);
    }
  }

  /** The age check: rejected when present and either not a number or negative. */
  predicate AgeFieldRejected(v: Option<JsonValue>) {
    v.Some? && (!v.value.JNumber? || v.value.n < 0.0)
  }

  /** What the age check accepts: no age at all, or a number that is at least 0. */
  predicate IsAcceptableAge(v: Option<JsonValue>) {
    v.None? || (v.value.JNumber? && v.value.n >= 0.0)
  }

  /** Whether a body passes check `c`, read at its meaning. */
  predicate Passes(user: Candidate, c: Check) {
    match c
    case FirstName => IsNonBlankString(user.firstName)
    case LastName => IsNonBlankString(user.lastName)
    case Email => IsEmailString(user.email)
    case Age => IsAcceptableAge(user.age)
    case Country => IsNonBlankString(user.country)
  }

  /** A body that passes all five checks. */
  predicate IsValidUser(user: Candidate) {
    forall c :: Passes(user, c)
  }

  /** The failing checks among the five, given which ones fail: each failing
      check once, in the order the checks run. */
  function CollectFailed(first: bool, last: bool, email: bool, age: bool, country: bool): (failed: seq<Check>)
    ensures |failed| <= 5
    ensures failed == [] <==> !first && !last && !email && !age && !country
  {
    Keep(Keep(Keep(Keep(Keep([], first, FirstName), last, LastName), email, Email), age, Age), country, Country)
  }

  /** Pushing a check after checks that all come before it keeps the list in
      check order. */
  lemma KeepOrdered(failed: seq<Check>, bad: bool, c: Check)
    requires Ordered(failed) && RanksBelow(failed, Rank(c))
    ensures Ordered(Keep(failed, bad, c)) && RanksBelow(Keep(failed, bad, c), Rank(c) + 1)
  {
  }

  /** The collected checks are in check order, each at most once. */
  lemma CollectedOrdered(first: bool, last: bool, email: bool, age: bool, country: bool)
    ensures Ordered(CollectFailed(first, last, email, age, country))
  {
    var s1 := Keep([], first, FirstName);
    var s2 := Keep(s1, last, LastName);
    var s3 := Keep(s2, email, Email);
    var s4 := Keep(s3, age, Age);
    KeepOrdered([], first, FirstName);
    KeepOrdered(s1, last, LastName);
    KeepOrdered(s2, email, Email);
    KeepOrdered(s3, age, Age);
    KeepOrdered(s4, country, Country);
  }

  /** A check is among the collected ones exactly when its flag is set. */
  lemma CollectedMembers(first: bool, last: bool, email: bool, age: bool, country: bool)
    ensures var failed := CollectFailed(first, last, email, age, country);
      && (FirstName in failed <==> first)
      && (LastName in failed <==> last)
      && (Email in failed <==> email)
      && (Age in failed <==> age)
      && (Country in failed <==> country)
  {
    var s1 := Keep([], first, FirstName);
    var s2 := Keep(s1, last, LastName);
    var s3 := Keep(s2, email, Email);
    var s4 := Keep(s3, age, Age);
    var s5 := Keep(s4, country, Country);
    assert FirstName in s5 <==> first;
    assert LastName in s5 <==> last;
    assert Email in s5 <==> email;
    assert Age in s5 <==> age;
  }

  /** Checks listed in strictly increasing check order, so each at most once. */
  predicate Ordered(checks: seq<Check>) {
    forall i, j | 0 <= i < j < |checks| :: Rank(checks[i]) < Rank(checks[j])
  }

  /** Every check listed comes before the check of rank `n`. */
  predicate RanksBelow(checks: seq<Check>, n: nat) {
    forall i | 0 <= i < |checks| :: Rank(checks[i]) < n
  }

  /** One conditional push of a check onto the list of failed ones. */
  function Keep(failed: seq<Check>, bad: bool, c: Check): (r: seq<Check>)
    ensures |r| <= |failed| + 1
    ensures r == [] <==> failed == [] && !bad
    ensures forall d :: d in r <==> d in failed || (bad && d == c)
  {
    if bad then failed + [c] else failed
  }

  /** The checks a body fails, read at their meaning, in check order. */
  function FailedChecks(user: Candidate): (failed: seq<Check>)
    ensures forall c :: c in failed <==> !Passes(user, c)
    ensures failed == [] <==> IsValidUser(user)
    ensures Ordered(failed)
  {
    var failed := CollectFailed(
      !Passes(user, FirstName), !Passes(user, LastName), !Passes(user, Email),
      !Passes(user, Age), !Passes(user, Country));
    CollectedMembers(
      !Passes(user, FirstName), !Passes(user, LastName), !Passes(user, Email),
      !Passes(user, Age), !Passes(user, Country));
    CollectedOrdered(
      !Passes(user, FirstName), !Passes(user, LastName), !Passes(user, Email),
      !Passes(user, Age), !Passes(user, Country));
    CheckMembership(user, failed);
    failed
  }

  /** A list that holds each check exactly when the body fails it holds, for
      every check, exactly the failing ones. */
  lemma CheckMembership(user: Candidate, failed: seq<Check>)
    requires FirstName in failed <==> !Passes(user, FirstName)
    requires LastName in failed <==> !Passes(user, LastName)
    requires Email in failed <==> !Passes(user, Email)
    requires Age in failed <==> !Passes(user, Age)
    requires Country in failed <==> !Passes(user, Country)
    ensures forall c :: c in failed <==> !Passes(user, c)
  {
    forall c ensures c in failed <==> !Passes(user, c) {
      match c
      case FirstName =>
      case LastName =>
      case Email =>
      case Age =>
      case Country =>
    }
  }

  /** The messages of a list of checks, in the same order. */
  function Messages(checks: seq<Check>): (messages: seq<string>)
    ensures |messages| == |checks|
    ensures forall i | 0 <= i < |checks| :: messages[i] == Message(checks[i])
  {
    if checks == [] then [] else [Message(checks[0])] + Messages(checks[1..])
  }

  /** The error list validateUser is to produce: one message per failing
      check, in check order. It is empty exactly for a valid body, and it
      holds a check's message exactly when the body fails that check. */
  function Errors(user: Candidate): (errors: seq<string>)
    ensures |errors| <= 5
    ensures errors == [] <==> IsValidUser(user)
    ensures forall c :: Message(c) in errors <==> !Passes(user, c)
    ensures |errors| == |FailedChecks(user)|
    ensures forall i | 0 <= i < |errors| :: errors[i] == Message(FailedChecks(user)[i])
  {
    var failed := FailedChecks(user);
    var errors := Messages(failed);
    MessagesMembership(failed);
    errors
  }

  /** A check's message is among the messages of a list exactly when the check
      is in the list, the messages being distinct. */
  lemma MessagesMembership(checks: seq<Check>)
    ensures forall c :: Message(c) in Messages(checks) <==> c in checks
  {
    var messages := Messages(checks);
    forall c ensures Message(c) in messages <==> c in checks {
      if Message(c) in messages {
        var i :| 0 <= i < |messages| && messages[i] == Message(c);
        MessageInjective(c, checks[i]);
      }
    }
  }

  /** validateUser: starting from an empty list, each of the five checks, as
      the source writes it (truthiness, `typeof`, `trim`, the regular
      expression), pushes its message when it fails; the list it returns is
      the specified error list. */
  method ValidateUser(user: Candidate) returns (errors: seq<string>)
    ensures errors == Errors(user)
  {
    var firstBad := NameFieldRejected(user.firstName);
    var lastBad := NameFieldRejected(user.lastName);
    var emailBad := EmailFieldRejected(user.email);
    var ageBad := AgeFieldRejected(user.age);
    var countryBad := NameFieldRejected(user.country);
    errors := [];
    if firstBad {
      errors := errors + [Message(FirstName)];
    }
    if lastBad {
      errors := errors + [Message(LastName)];
    }
    if emailBad {
      errors := errors + [Message(Email)];
    }
    if ageBad {
      errors := errors + [Message(Age)];
    }
    if countryBad {
      errors := errors + [Message(Country)];
    }
    ErrorsFromFlags(user, firstBad, lastBad, emailBad, ageBad, countryBad);
    MessagesOfCollected(firstBad, lastBad, emailBad, ageBad, countryBad);
  }

  /** The error list after a check has run: its message pushed when it failed. */
  function PushIf(errors: seq<string>, bad: bool, c: Check): seq<string> {
    if bad then errors + [Message(c)] else errors
  }

  /** The messages of the failed checks are what the five conditional pushes
      leave on an empty list. */
  lemma MessagesOfCollected(first: bool, last: bool, email: bool, age: bool, country: bool)
    ensures Messages(CollectFailed(first, last, email, age, country)) ==
      PushIf(PushIf(PushIf(PushIf(PushIf([], first, FirstName), last, LastName),
        email, Email), age, Age), country, Country)
  {
    var s1 := Keep([], first, FirstName);
    var s2 := Keep(s1, last, LastName);
    var s3 := Keep(s2, email, Email);
    var s4 := Keep(s3, age, Age);
    PushMessage([], first, FirstName);
    PushMessage(s1, last, LastName);
    PushMessage(s2, email, Email);
    PushMessage(s3, age, Age);
    PushMessage(s4, country, Country);
  }

  /** Given which checks fail as the source tests them, the error list is the
      messages of those checks in check order. */
  lemma ErrorsFromFlags(user: Candidate, first: bool, last: bool, email: bool, age: bool, country: bool)
    requires first == NameFieldRejected(user.firstName)
    requires last == NameFieldRejected(user.lastName)
    requires email == EmailFieldRejected(user.email)
    requires age == AgeFieldRejected(user.age)
    requires country == NameFieldRejected(user.country)
    ensures Errors(user) == Messages(CollectFailed(first, last, email, age, country))
  {
    NameFieldRejectedIff(user.firstName);
    NameFieldRejectedIff(user.lastName);
    EmailFieldRejectedIff(user.email);
    NameFieldRejectedIff(user.country);
  }

  /** Pushing a failed check's message onto the messages of the list is
      listing the messages of the list with the check pushed. */
  lemma PushMessage(failed: seq<Check>, bad: bool, c: Check)
    ensures Messages(Keep(failed, bad, c)) ==
      if bad then Messages(failed) + [Message(c)] else Messages(failed)
  {
  }

  /** The update handler validates the body with the path id merged in; the
      checks never read `id`, so the merge does not change the error list. */
  lemma ErrorsIgnoreId(user: Candidate, id: Option<JsonValue>)
    ensures Errors(user.(id := id)) == Errors(user)
  {
  }

  /** A body with every field present and well formed and no age is valid. */
  lemma SampleBodyIsValid()
    ensures Errors(Candidate(None, Some(JString("Ana")), Some(JString("Li")),
                                   Some(JString("a@b.com")), None, Some(JString("FR")))) == []
  {
    var user := Candidate(None, Some(JString("Ana")), Some(JString("Li")),
                          Some(JString("a@b.com")), None, Some(JString("FR")));
    assert !IsBlank("Ana") by { assert !IsWhitespace("Ana"[0]); }
    assert !IsBlank("Li") by { assert !IsWhitespace("Li"[0]); }
    assert !IsBlank("FR") by { assert !IsWhitespace("FR"[0]); }
    var email := "a@b.com";
    assert IsWellFormedEmail(email) by {
      assert email[1] == '@' && email[3] == '.';
      assert forall k | 0 <= k < |email| && email[k] == '@' :: k == 1;
    }
    assert IsValidUser(user);
  }

  /** An all-whitespace first name is rejected, and its message comes first. */
  lemma BlankFirstNameRejected(user: Candidate, s: string)
    requires user.firstName == Some(JString(s)) && IsBlank(s)
    ensures |Errors(user)| > 0 && Errors(user)[0] == Message(FirstName)
  {
    var failed := FailedChecks(user);
    assert FirstName in failed;
  }

  /** For a body that passes every other check, the age alone decides: an
      age of 0 or more, or none, gives no error; a negative number, `null`, a
      string or any other non-number gives exactly the age message. */
  lemma AgeAloneDecides(user: Candidate)
    requires forall c | c != Age :: Passes(user, c)
    ensures Errors(user) == if AgeFieldRejected(user.age) then [AgeMessage] else []
    ensures user.age == Some(JNumber(0.0)) ==> Errors(user) == []
    ensures user.age == Some(JNull) ==> Errors(user) == [AgeMessage]
  {
    assert Passes(user, FirstName) && Passes(user, LastName) && Passes(user, Email);
    assert Passes(user, Country);
    if AgeFieldRejected(user.age) {
      assert FailedChecks(user) == [Age];
    } else {
      assert FailedChecks(user) == [];
    }
  }
}
