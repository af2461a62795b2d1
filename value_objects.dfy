/**
  The value objects of the domain.  Each one wraps a single validated value;
  its equality is the equality of that value (GetAtomicValues yields only it),
  which is exactly datatype equality on a one-field datatype.
 */
module ValueObjects {
  import opened Shared

  // ---------------------------------------------------------------- Email

  const EmailMaxLength: nat := 50

  datatype Email = Email(value: string)

  /** string.Split(sep) with default options: the pieces between separators, empty pieces kept. */
  function Split(s: string, sep: char): (parts: seq<string>)
    ensures |parts| >= 1
    decreases |s|
  {
    if s == [] then [[]]
    else
      var rest := Split(s[1..], sep);
      if s[0] == sep then [[]] + rest
      else [[s[0]] + rest[0]] + rest[1..]
  }

  /** string.Join(sep, parts). */
  function Join(parts: seq<string>, sep: char): string
    requires |parts| >= 1
    decreases |parts|
  {
    if |parts| == 1 then parts[0] else parts[0] + [sep] + Join(parts[1..], sep)
  }

  /** Number of occurrences of c in s. */
  function Occurrences(s: string, c: char): nat
    decreases |s|
  {
    if s == [] then 0 else (if s[0] == c then 1 else 0) + Occurrences(s[1..], c)
  }

  /** Splitting on a character yields one piece more than there are separators. */
  lemma {:induction false} SplitCount(s: string, sep: char)
    ensures |Split(s, sep)| == Occurrences(s, sep) + 1
    decreases |s|
  {
    if s != [] {
      SplitCount(s[1..], sep);
    }
  }

  /** Joining the pieces with the separator gives back the string, and no piece holds the separator. */
  lemma {:induction false} SplitJoin(s: string, sep: char)
    ensures Join(Split(s, sep), sep) == s
    ensures forall k :: 0 <= k < |Split(s, sep)| ==> sep !in Split(s, sep)[k]
    decreases |s|
  {
    if s != [] {
      SplitJoin(s[1..], sep);
      var rest := Split(s[1..], sep);
      if s[0] == sep {
        assert Split(s, sep)[1..] == rest;
      } else {
        if |rest| == 1 {
          assert Join(Split(s, sep), sep) == [s[0]] + rest[0];
        } else {
          assert Split(s, sep)[1..] == rest[1..];
          assert Join(rest, sep) == rest[0] + [sep] + Join(rest[1..], sep);
        }
        assert s == [s[0]] + s[1..];
      }
    }
  }

  /** Email.Create: non-blank, and splitting on '@' gives exactly two pieces. No length check. */
  function CreateEmail(s: string): (r: Result<Email>)
    ensures IsBlank(s) ==> r == Failure(EmailEmpty)
    ensures !IsBlank(s) && Occurrences(s, '@') != 1 ==> r == Failure(EmailInvalidFormat)
    ensures r.Success? <==> !IsBlank(s) && Occurrences(s, '@') == 1
    ensures r.Success? ==> r.value.value == s
  {
    SplitCount(s, '@');
    if IsBlank(s) then Failure(EmailEmpty)
    else if |Split(s, '@')| != 2 then Failure(EmailInvalidFormat)
    else Success(Email(s))
  }

  /** The declared maximum length of 50 is not enforced: a well-formed address of any length is accepted. */
  lemma EmailLengthNotEnforced(local: string, domain: string)
    requires '@' !in local && '@' !in domain && local != [] && !IsWhiteSpace(local[0])
    requires |local| + |domain| + 1 > EmailMaxLength
    ensures CreateEmail(local + "@" + domain).Success?
  {
    var s := local + "@" + domain;
    OccurrencesConcat(local + "@", domain, '@');
    OccurrencesConcat(local, "@", '@');
    OccurrencesAbsent(local, '@');
    OccurrencesAbsent(domain, '@');
    assert s[0] == local[0];
  }

  lemma {:induction false} OccurrencesConcat(a: string, b: string, c: char)
    ensures Occurrences(a + b, c) == Occurrences(a, c) + Occurrences(b, c)
    decreases |a|
  {
    if a != [] {
      assert (a + b)[1..] == a[1..] + b;
      OccurrencesConcat(a[1..], b, c);
    } else {
      assert a + b == b;
    }
  }

  lemma {:induction false} OccurrencesAbsent(a: string, c: char)
    requires c !in a
    ensures Occurrences(a, c) == 0
    decreases |a|
  {
    if a != [] {
      OccurrencesAbsent(a[1..], c);
    }
  }

  /** The explicit string-to-Email conversion: None stands for the InvalidCastException it throws. */
  function EmailFromString(s: string): (r: Option<Email>)
    ensures r.None? <==> CreateEmail(s).Failure?
    ensures r.Some? ==> r.value.value == s
  {
    match CreateEmail(s)
    case Success(e) => Some(e)
    case Failure(_) => None
  }

  /** ToString and the implicit Email-to-string conversion both give the wrapped value. */
  function EmailToString(e: Email): (s: string)
    ensures CreateEmail(s).Success? ==> CreateEmail(s).value == e
  {
    e.value
  }

  // ---------------------------------------------------------------- FirstName and LastName

  const NameMaxLength: nat := 50

  datatype FirstName = FirstName(value: string)
  datatype LastName = LastName(value: string)

  /** The strings a name value object accepts. */
  predicate IsValidName(s: string) {
    !IsBlank(s) && |s| <= NameMaxLength
  }

  /** FirstName.Create: the emptiness check comes before the length check. */
  function CreateFirstName(s: string): (r: Result<FirstName>)
    ensures IsBlank(s) ==> r == Failure(FirstNameEmpty)
    ensures !IsBlank(s) && |s| > NameMaxLength ==> r == Failure(FirstNameTooLong)
    ensures r.Success? <==> IsValidName(s)
    ensures r.Success? ==> r.value.value == s
  {
    if IsBlank(s) then Failure(FirstNameEmpty)
    else if |s| > NameMaxLength then Failure(FirstNameTooLong)
    else Success(FirstName(s))
  }

  /** LastName.Create: the emptiness check comes before the length check. */
  function CreateLastName(s: string): (r: Result<LastName>)
    ensures IsBlank(s) ==> r == Failure(LastNameEmpty)
    ensures !IsBlank(s) && |s| > NameMaxLength ==> r == Failure(LastNameTooLong)
    ensures r.Success? <==> IsValidName(s)
    ensures r.Success? ==> r.value.value == s
  {
    if IsBlank(s) then Failure(LastNameEmpty)
    else if |s| > NameMaxLength then Failure(LastNameTooLong)
    else Success(LastName(s))
  }

  /** A name of exactly the maximum length is accepted; one character more is rejected. */
  lemma NameLengthBoundary(s: string, c: char)
    requires |s| == NameMaxLength && !IsBlank(s)
    ensures CreateFirstName(s).Success? && CreateLastName(s).Success?
    ensures CreateFirstName(s + [c]) == Failure(FirstNameTooLong)
    ensures CreateLastName(s + [c]) == Failure(LastNameTooLong)
  {
    var t := s + [c];
    var i :| 0 <= i < |s| && !IsWhiteSpace(s[i]);
    assert t[i] == s[i];
  }

  // ---------------------------------------------------------------- Title, Author, PublicationYear

  const TitleMaxLength: nat := 150
  const MinPublicationYear: int := 1450

  datatype Title = Title(value: string)
  datatype Author = Author(name: string)
  datatype PublicationYear = PublicationYear(value: int)

  predicate IsValidTitle(s: string) {
    !IsBlank(s) && |s| <= TitleMaxLength
  }

  /** Title.Create: the emptiness check comes before the length check. */
  function CreateTitle(s: string): (r: Result<Title>)
    ensures IsBlank(s) ==> r == Failure(TitleEmpty)
    ensures !IsBlank(s) && |s| > TitleMaxLength ==> r == Failure(TitleTooLong)
    ensures r.Success? <==> IsValidTitle(s)
    ensures r.Success? ==> r.value.value == s
  {
    if IsBlank(s) then Failure(TitleEmpty)
    else if |s| > TitleMaxLength then Failure(TitleTooLong)
    else Success(Title(s))
  }

  /** Author.Create: any non-blank name, with no length limit. */
  function CreateAuthor(s: string): (r: Result<Author>)
    ensures r.Failure? <==> IsBlank(s)
    ensures r.Failure? ==> r.error == AuthorEmpty
    ensures r.Success? ==> r.value.name == s
  {
    if IsBlank(s) then Failure(AuthorEmpty) else Success(Author(s))
  }

  /** The years PublicationYear.Create accepts, given the current UTC year: both bounds inclusive. */
  predicate IsValidYear(year: int, currentYear: int) {
    MinPublicationYear <= year <= currentYear
  }

  /** PublicationYear.Create, with DateTime.UtcNow.Year passed in as currentYear. */
  function CreatePublicationYear(year: int, currentYear: int): (r: Result<PublicationYear>)
    ensures r.Failure? <==> year < MinPublicationYear || year > currentYear
    ensures r.Failure? ==> r.error == PublicationYearInvalid
    ensures r.Success? ==> r.value.value == year
  {
    if year < MinPublicationYear || year > currentYear then Failure(PublicationYearInvalid)
    else Success(PublicationYear(year))
  }

  /**
    Every factory is a left inverse of reading the value back: a value object
    holding an acceptable value is re-created exactly.
   */
  lemma CreateRoundTrips(e: Email, f: FirstName, l: LastName, t: Title, a: Author, y: PublicationYear, currentYear: int)
    ensures CreateEmail(e.value).Success? ==> CreateEmail(EmailToString(CreateEmail(e.value).value)) == Success(e)
    ensures IsValidName(f.value) ==> CreateFirstName(f.value) == Success(f)
    ensures IsValidName(l.value) ==> CreateLastName(l.value) == Success(l)
    ensures IsValidTitle(t.value) ==> CreateTitle(t.value) == Success(t)
    ensures !IsBlank(a.name) ==> CreateAuthor(a.name) == Success(a)
    ensures IsValidYear(y.value, currentYear) ==> CreatePublicationYear(y.value, currentYear) == Success(y)
  {
  }
}
