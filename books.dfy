/** The Book record the BookList screen edits, and the client-side validation
    that gates every create and update request on it. */
module Books {

  datatype Option<T> = None | Some(value: T)

  /** What JavaScript's parseInt reads from a count property: an integer, or
      NaN for the empty string and other text that does not start with a number. */
  datatype ParsedInt = Int(value: int) | NaN

  /** `parseInt(x) < parseInt(y)` in JavaScript: a comparison involving NaN is false. */
  predicate Less(x: ParsedInt, y: ParsedInt)
    ensures (x == NaN || y == NaN) ==> !Less(x, y)
    ensures x.Int? && y.Int? ==> (Less(x, y) <==> x.value < y.value)
  {
    x.Int? && y.Int? && x.value < y.value
  }

  /** A row of the Books collection as the controller holds it. The counts are
      kept as parseInt reads them; DatePublished is an opaque text. */
  datatype Book = Book(
    isbn: string,
    title: string,
    author: string,
    datePublished: string,
    language: string,
    totalNumber: ParsedInt,
    availableNumber: ParsedInt)

  /** The book the controller starts with: TotalNumber is the empty string (NaN
      to parseInt), AvailableNumber is 0. */
  const InitialBook := Book("", "", "", "", "", NaN, Int(0))

  /** The book resetBook leaves behind: five empty texts and two zero counts. */
  const EmptyBook := Book("", "", "", "", "", Int(0), Int(0))

  /** The nine validation checks; each one names the condition that rejects a book. */
  datatype Check =
    | IsbnEmpty
    | IsbnTooLong
    | TitleEmpty
    | AuthorEmpty
    | DateEmpty
    | LanguageEmpty
    | TotalNegative
    | AvailableNegative
    | TotalBelowAvailable

  /** The i18n key of the toast each check shows when it rejects. */
  function MessageKey(c: Check): (key: string)
    ensures |key| > 5 && key[|key| - 5..] == "Error"
  {
    match c
    case IsbnEmpty => "isbnEmptyError"
    case IsbnTooLong => "isbnLongerThan13Error"
    case TitleEmpty => "titleEmptyError"
    case AuthorEmpty => "authorEmptyError"
    case DateEmpty => "dateEmptyError"
    case LanguageEmpty => "languageEmptyError"
    case TotalNegative => "totalNumberNegativeError"
    case AvailableNegative => "availableNumberNegativeError"
    case TotalBelowAvailable => "totalNumberError"
  }

  /** Distinct checks show distinct keys, so the toast identifies the failing check. */
  lemma MessageKeyInjective(c: Check, d: Check)
    ensures MessageKey(c) == MessageKey(d) ==> c == d
  {
  }

  /** The order in which validateBook runs its checks. */
  const CheckOrder: seq<Check> := [
    IsbnEmpty, IsbnTooLong, TitleEmpty, AuthorEmpty, DateEmpty,
    LanguageEmpty, TotalNegative, AvailableNegative, TotalBelowAvailable
  ]

  /** Position of a check in CheckOrder. */
  function Rank(c: Check): (i: nat)
    ensures i < |CheckOrder| && CheckOrder[i] == c
  {
    match c
    case IsbnEmpty => 0
    case IsbnTooLong => 1
    case TitleEmpty => 2
    case AuthorEmpty => 3
    case DateEmpty => 4
    case LanguageEmpty => 5
    case TotalNegative => 6
    case AvailableNegative => 7
    case TotalBelowAvailable => 8
  }

  /** The condition under which check `c` rejects book `b`. */
  predicate Rejects(c: Check, b: Book) {
    match c
    case IsbnEmpty => |b.isbn| == 0
    case IsbnTooLong => |b.isbn| > 13
    case TitleEmpty => |b.title| == 0
    case AuthorEmpty => |b.author| == 0
    case DateEmpty => |b.datePublished| == 0
    case LanguageEmpty => |b.language| == 0
    case TotalNegative => Less(b.totalNumber, Int(0))
    case AvailableNegative => Less(b.availableNumber, Int(0))
    case TotalBelowAvailable => Less(b.totalNumber, b.availableNumber)
  }

  /** The outcome of validation: accepted, or rejected by one check. */
  datatype Result = Ok | Err(check: Check)

  /** Runs the checks `cs` in order and stops at the first one that rejects. */
  function FirstRejected(cs: seq<Check>, b: Book): Result {
    if cs == [] then Ok
    else if Rejects(cs[0], b) then Err(cs[0])
    else FirstRejected(cs[1..], b)
  }

  /** validateBook: the first check in CheckOrder that rejects decides the error. */
  function Validate(b: Book): (r: Result)
    ensures r.Err? ==> Rejects(r.check, b)
    ensures r == Ok ==> forall c :: !Rejects(c, b)
  {
    FirstRejectedSound(CheckOrder, b);
    FirstRejected(CheckOrder, b)
  }

  /** The book properties the screen promises, stated independently of the order
      of the checks. A count that parseInt reads as NaN is not constrained. */
  predicate Acceptable(b: Book) {
    && 1 <= |b.isbn| <= 13
    && |b.title| > 0
    && |b.author| > 0
    && |b.datePublished| > 0
    && |b.language| > 0
    && (b.totalNumber.Int? ==> b.totalNumber.value >= 0)
    && (b.availableNumber.Int? ==> b.availableNumber.value >= 0)
    && (b.totalNumber.Int? && b.availableNumber.Int? ==>
          b.availableNumber.value <= b.totalNumber.value)
  }

  /** FirstRejected accepts exactly when no check in the list rejects, and
      otherwise names a rejecting check that every earlier check lets through. */
  lemma {:induction false} FirstRejectedSound(cs: seq<Check>, b: Book)
    ensures FirstRejected(cs, b) == Ok <==> forall c :: c in cs ==> !Rejects(c, b)
    ensures FirstRejected(cs, b).Err? ==>
      exists i :: 0 <= i < |cs| && cs[i] == FirstRejected(cs, b).check && Rejects(cs[i], b) &&
        forall j :: 0 <= j < i ==> !Rejects(cs[j], b)
  {
    if cs != [] && !Rejects(cs[0], b) {
      FirstRejectedSound(cs[1..], b);
      assert cs == [cs[0]] + cs[1..];
      if FirstRejected(cs, b).Err? {
        var i :| 0 <= i < |cs[1..]| && cs[1..][i] == FirstRejected(cs, b).check && Rejects(cs[1..][i], b) &&
          forall j :: 0 <= j < i ==> !Rejects(cs[1..][j], b);
        assert cs[i + 1] == cs[1..][i];
        assert forall j :: 0 <= j < i + 1 ==> !Rejects(cs[j], b) by {
          forall j | 0 <= j < i + 1 ensures !Rejects(cs[j], b) {
            if j > 0 { assert cs[j] == cs[1..][j - 1]; }
          }
        }
      }
    }
  }

  /** A check that rejects, preceded only by checks that pass, is the one reported. */
  lemma {:induction false} FirstRejectedAt(cs: seq<Check>, b: Book, i: nat)
    requires i < |cs| && Rejects(cs[i], b)
    requires forall j :: 0 <= j < i ==> !Rejects(cs[j], b)
    ensures FirstRejected(cs, b) == Err(cs[i])
  {
    if i > 0 {
      assert !Rejects(cs[0], b);
      assert forall j :: 0 <= j < i - 1 ==> cs[1..][j] == cs[j + 1];
      FirstRejectedAt(cs[1..], b, i - 1);
    }
  }

  /** validateBook returns true exactly for the books that meet every requirement. */
  lemma ValidateOkIff(b: Book)
    ensures Validate(b) == Ok <==> Acceptable(b)
  {
    FirstRejectedSound(CheckOrder, b);
    if Acceptable(b) {
      forall c | c in CheckOrder ensures !Rejects(c, b) { }
    } else {
      var c :| c in CheckOrder && Rejects(c, b) by {
        if |b.isbn| == 0 { assert Rejects(IsbnEmpty, b); }
        else if |b.isbn| > 13 { assert Rejects(IsbnTooLong, b); }
        else if |b.title| == 0 { assert Rejects(TitleEmpty, b); }
        else if |b.author| == 0 { assert Rejects(AuthorEmpty, b); }
        else if |b.datePublished| == 0 { assert Rejects(DateEmpty, b); }
        else if |b.language| == 0 { assert Rejects(LanguageEmpty, b); }
        else if Less(b.totalNumber, Int(0)) { assert Rejects(TotalNegative, b); }
        else if Less(b.availableNumber, Int(0)) { assert Rejects(AvailableNegative, b); }
        else { assert Rejects(TotalBelowAvailable, b); }
      }
    }
  }

  /** The check at position `i` of CheckOrder has rank `i`. */
  lemma RankOfPosition(i: nat)
    requires i < |CheckOrder|
    ensures Rank(CheckOrder[i]) == i
  {
  }

  /** Checks that rank below `k` all pass, stated by position in CheckOrder. */
  lemma EarlierPositionsPass(b: Book, k: Check)
    requires forall j :: Rank(j) < Rank(k) ==> !Rejects(j, b)
    ensures forall i :: 0 <= i < Rank(k) ==> !Rejects(CheckOrder[i], b)
  {
  }

  /** The check validation reports rejects, and every check before it passes. */
  lemma ReportedCheckIsFirst(b: Book, k: Check)
    requires Validate(b) == Err(k)
    ensures Rejects(k, b) && forall j :: Rank(j) < Rank(k) ==> !Rejects(j, b)
  {
    FirstRejectedSound(CheckOrder, b);
    var i :| 0 <= i < |CheckOrder| && CheckOrder[i] == k && Rejects(k, b) &&
      forall j :: 0 <= j < i ==> !Rejects(CheckOrder[j], b);
    RankOfPosition(i);
    forall j | Rank(j) < Rank(k) ensures !Rejects(j, b) {
      assert CheckOrder[Rank(j)] == j;
    }
  }

  /** The checks run in a fixed order and the first failure wins: validation
      reports check `k` exactly when `k` rejects and every earlier check passes. */
  lemma ValidateFirstFailureWins(b: Book, k: Check)
    ensures Validate(b) == Err(k) <==>
      Rejects(k, b) && forall j :: Rank(j) < Rank(k) ==> !Rejects(j, b)
  {
    if Rejects(k, b) && forall j :: Rank(j) < Rank(k) ==> !Rejects(j, b) {
      EarlierPositionsPass(b, k);
      FirstRejectedAt(CheckOrder, b, Rank(k));
    }
    if Validate(b) == Err(k) {
      ReportedCheckIsFirst(b, k);
    }
  }

  /** A book that passes validation with numeric counts has
      0 <= AvailableNumber <= TotalNumber. */
  lemma ValidatedCountsInRange(b: Book)
    requires Validate(b) == Ok
    requires b.totalNumber.Int? && b.availableNumber.Int?
    ensures 0 <= b.availableNumber.value <= b.totalNumber.value
  {
    ValidateOkIff(b);
  }

  /** parseInt turns a non-numeric count into NaN, and every comparison with
      NaN is false, so such counts pass all three numeric checks. */
  lemma NaNCountsPass(b: Book)
    requires b.totalNumber == NaN || b.availableNumber == NaN
    requires forall c :: Rank(c) < Rank(TotalNegative) ==> !Rejects(c, b)
    requires !Less(b.totalNumber, Int(0)) && !Less(b.availableNumber, Int(0))
    ensures Validate(b) == Ok
  {
    forall c | c in CheckOrder ensures !Rejects(c, b) {
      assert Rank(c) < Rank(TotalNegative) || c in [TotalNegative, AvailableNegative, TotalBelowAvailable];
    }
    FirstRejectedSound(CheckOrder, b);
  }

  /** An empty ISBN is reported before an empty Title. */
  lemma EmptyIsbnReportedFirst(b: Book)
    requires b.isbn == "" && b.title == ""
    ensures Validate(b) == Err(IsbnEmpty)
  {
  }

  /** TotalNumber below AvailableNumber, all else valid, is reported as totalNumberError. */
  lemma TotalBelowAvailableReported(b: Book)
    requires forall c :: Rank(c) < Rank(TotalNegative) ==> !Rejects(c, b)
    requires b.totalNumber == Int(5) && b.availableNumber == Int(10)
    ensures Validate(b) == Err(TotalBelowAvailable)
    ensures MessageKey(Validate(b).check) == "totalNumberError"
  {
    ValidateFirstFailureWins(b, TotalBelowAvailable);
  }

  /** A freshly reset book fails validation with isbnEmptyError. */
  lemma EmptyBookRejected()
    ensures Validate(EmptyBook) == Err(IsbnEmpty)
    ensures MessageKey(Validate(EmptyBook).check) == "isbnEmptyError"
  {
  }

  /** The wire token parseDatePublishedForCreate writes: "/Date(<ms>)/". */
  function WireDate(ms: int): (s: string)
    ensures |s| > 0
  {
    "/Date(" + DecimalString(ms) + ")/"
  }

  /** Decimal text of an integer, as JavaScript prints a whole number. */
  function DecimalString(n: int): string {
    if n < 0 then "-" + NatString(-n) else NatString(n)
  }

  function NatString(n: nat): string {
    if n < 10 then [Digit(n)] else NatString(n / 10) + [Digit(n % 10)]
  }

  function Digit(d: nat): char
    requires d < 10
  {
    "0123456789"[d]
  }

  /** Converting DatePublished to the wire token keeps a validated book valid:
      the token is never empty and no other property changes. */
  lemma WireDateKeepsValid(b: Book, ms: int)
    requires Validate(b) == Ok
    ensures Validate(b.(datePublished := WireDate(ms))) == Ok
  {
    ValidateOkIff(b);
    ValidateOkIff(b.(datePublished := WireDate(ms)));
  }
}
