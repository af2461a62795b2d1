/**
  Types shared by every layer of the book-management domain: bytes and GUIDs,
  the Result/Option wrappers, the domain error table and the whitespace test
  behind string.IsNullOrWhiteSpace.
 */
module Shared {

  newtype byte = x: int | 0 <= x < 256

  /** A .NET Guid, as the 16 bytes that Guid.ToByteArray returns. */
  type Guid = s: seq<byte> | |s| == 16
    witness [0, 0, 0, 0, 0, 0, 0, 0, 0, 0, 0, 0, 0, 0, 0, 0]

  /** Guid.Empty. */
  const EmptyGuid: Guid := [0, 0, 0, 0, 0, 0, 0, 0, 0, 0, 0, 0, 0, 0, 0, 0]

  /** Bounds of the C# `int` type. */
  const Int32Min: int := -0x8000_0000
  const Int32Max: int := 0x7fff_ffff

  predicate IsInt32(x: int) {
    Int32Min <= x <= Int32Max
  }

  /** `x++` on a C# `int` in an unchecked context: wraps from the maximum to the minimum. */
  function Int32Inc(x: int): (r: int)
    requires IsInt32(x)
    ensures IsInt32(r)
    ensures x < Int32Max ==> r == x + 1
    ensures x == Int32Max ==> r == Int32Min
  {
    if x == Int32Max then Int32Min else x + 1
  }

  datatype Option<+T> = None | Some(value: T)

  /**
    Result<TValue>: a success carries a value, a failure an error.  Reading
    `value` of a Failure is a verification error, as reading Value of a failed
    Result throws InvalidOperationException.
   */
  datatype Result<+T> = Success(value: T) | Failure(error: Error)

  /** The non-generic Result: success or an error. */
  datatype Outcome = Pass | Fail(error: Error)

  /** The domain errors used by the modelled core (DomainErrors). */
  datatype Error =
    | EmailEmpty
    | EmailInvalidFormat
    | FirstNameEmpty
    | FirstNameTooLong
    | LastNameEmpty
    | LastNameTooLong
    | TitleEmpty
    | TitleTooLong
    | AuthorEmpty
    | PublicationYearInvalid
    | BookAlreadyExists(title: string)
    | BookInvalidData
    | BookNotFound(bookId: Guid)
    | BookAlreadyDeleted
    | UserInvalidRoleName
    | UserRoleNotAssigned(roleId: int)

  /** The error code of each error, exactly as the error table declares it. */
  function CodeAsWritten(e: Error): string {
    match e
    case FirstNameTooLong => "LastName.TooLong"
    case _ => Code(e)
  }

  /** The error code of each error, with FirstName.TooLong carrying its own code. */
  function Code(e: Error): string {
    match e
    case EmailEmpty => "Email.Empty"
    case EmailInvalidFormat => "Email.InvalidFormat"
    case FirstNameEmpty => "FirstName.Empty"
    case FirstNameTooLong => "FirstName.TooLong"
    case LastNameEmpty => "LastName.Empty"
    case LastNameTooLong => "LastName.TooLong"
    case TitleEmpty => "Title.Empty"
    case TitleTooLong => "Title.TooLong"
    case AuthorEmpty => "Author.Empty"
    case PublicationYearInvalid => "PublicationYear.Invalid"
    case BookAlreadyExists(_) => "Book.AlreadyExists"
    case BookInvalidData => "Book.InvalidData"
    case BookNotFound(_) => "Book.NotFound"
    case BookAlreadyDeleted => "Book.AlreadyDeleted"
    case UserInvalidRoleName => "User.InvalidRoleName"
    case UserRoleNotAssigned(_) => "User.RoleNotAssigned"
  }

  /** The errors that carry no payload: one code should name exactly one of them. */
  const FixedErrors: set<Error> := {
    EmailEmpty, EmailInvalidFormat, FirstNameEmpty, FirstNameTooLong,
    LastNameEmpty, LastNameTooLong, TitleEmpty, TitleTooLong, AuthorEmpty,
    PublicationYearInvalid, BookInvalidData, BookAlreadyDeleted, UserInvalidRoleName
  }

  /** As written, two different validation errors share the code "LastName.TooLong". */
  lemma CodeAsWrittenClash()
    ensures FirstNameTooLong in FixedErrors && LastNameTooLong in FixedErrors
    ensures FirstNameTooLong != LastNameTooLong
    ensures CodeAsWritten(FirstNameTooLong) == CodeAsWritten(LastNameTooLong)
  {
  }

  /** With the corrected table, a code identifies its error. */
  lemma CodesIdentifyErrors(a: Error, b: Error)
    requires a in FixedErrors && b in FixedErrors
    ensures Code(a) == Code(b) ==> a == b
  {
    if Code(a) == Code(b) {
      CodeFirstChars(a);
      CodeFirstChars(b);
    }
  }

  /** Helper for CodesIdentifyErrors: the first characters of each code. */
  lemma CodeFirstChars(e: Error)
    requires e in FixedErrors
    ensures |Code(e)| > 10
    ensures e == EmailEmpty ==> Code(e)[..7] == "Email.E"
    ensures e == EmailInvalidFormat ==> Code(e)[..7] == "Email.I"
    ensures e == FirstNameEmpty ==> Code(e)[..11] == "FirstName.E"
    ensures e == FirstNameTooLong ==> Code(e)[..11] == "FirstName.T"
    ensures e == LastNameEmpty ==> Code(e)[..10] == "LastName.E"
    ensures e == LastNameTooLong ==> Code(e)[..10] == "LastName.T"
  {
  }

  /** char.IsWhiteSpace: the Unicode space separators, line and paragraph separators, and U+0009..U+000D, U+0085. */
  predicate IsWhiteSpace(c: char) {
    || ('\U{0009}' <= c <= '\U{000D}')
    || c == ' '
    || c == '\U{0085}'
    || c == '\U{00A0}'
    || c == '\U{1680}'
    || ('\U{2000}' <= c <= '\U{200A}')
    || c == '\U{2028}'
    || c == '\U{2029}'
    || c == '\U{202F}'
    || c == '\U{205F}'
    || c == '\U{3000}'
  }

  /** string.IsNullOrWhiteSpace for a non-null string: empty or whitespace only. */
  predicate IsBlank(s: string) {
    forall i :: 0 <= i < |s| ==> IsWhiteSpace(s[i])
  }

  /** Sequences without repeated elements. */
  predicate Distinct<T(==)>(s: seq<T>) {
    forall i, j :: 0 <= i < j < |s| ==> s[i] != s[j]
  }

  /** The elements a sequence mentions. */
  function Elements<T>(s: seq<T>): set<T> {
    set x | x in s
  }

  /** A sequence of distinct elements has as many elements as its set. */
  lemma {:induction false} DistinctCard<T>(s: seq<T>)
    requires Distinct(s)
    ensures |Elements(s)| == |s|
  {
    if s != [] {
      var t := s[1..];
      assert Distinct(t) by {
        forall i, j | 0 <= i < j < |t| ensures t[i] != t[j] {
          assert t[i] == s[i + 1] && t[j] == s[j + 1];
        }
      }
      DistinctCard(t);
      forall k | 0 <= k < |t| ensures t[k] != s[0] {
        assert t[k] == s[k + 1];
      }
      assert s[0] !in Elements(t);
      assert Elements(s) == Elements(t) + {s[0]};
    } else {
      assert Elements(s) == {};
    }
  }
}
