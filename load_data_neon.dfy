/**
 * The one-shot loader of the Book-Crossing data set (users, books, ratings) into a
 * relational database, reduced to its row logic.
 *
 * Each loader reads an already-parsed table, coerces one column, filters rows and
 * appends the result to its database table. What the users and books loaders return
 * (the distinct keys of the rows they loaded) gates the ratings loader: a rating is
 * only inserted when its user and its book were loaded.
 *
 * The CSV reader, the numeric coercion of pandas and the database are not modelled as
 * code: a read is an `Option` (None when reading or renaming the columns raised), the
 * coercion is the parameter `parse`, and an insert that raised is the flag `insertOk`.
 */
module LoadDataNeon {
  import opened Wrappers
  import opened Sequences

  /** The text of one CSV cell. */
  type Cell = string

  /**
   * `pd.to_numeric(..., errors='coerce')` applied to one cell: a number, or None
   * (NaN) for text that is not numeric. Its grammar is not part of this model.
   */
  type NumericParser = Cell -> Option<int>

  // ---------------------------------------------------------------------------
  // Records
  // ---------------------------------------------------------------------------

  /** A row of the users file after the positional rename to user_id, location, age. */
  datatype RawUser<U> = RawUser(userId: U, location: string, age: Cell)

  /** A row of the `users` table: the age is a number or absent. */
  datatype User<U> = User(userId: U, location: string, age: Option<int>)

  /** A row of the books file after the positional rename of its first eight columns. */
  datatype RawBook<I> = RawBook(
    isbn: I, bookTitle: string, bookAuthor: string, yearOfPublication: Cell,
    publisher: string, imageUrlS: string, imageUrlM: string, imageUrlL: string)

  /** A row of the `books` table: the year of publication is a number or absent. */
  datatype Book<I> = Book(
    isbn: I, bookTitle: string, bookAuthor: string, yearOfPublication: Option<int>,
    publisher: string, imageUrlS: string, imageUrlM: string, imageUrlL: string)

  /** A row of the ratings file and of the `ratings` table; nothing in it is coerced. */
  datatype Rating<U, I> = Rating(userId: U, isbn: I, bookRating: Cell)

  /**
   * What the ratings loader reports: skipped by its guard, failed while reading, or the
   * row counts before and after the filter followed by a failed or a successful insert.
   */
  datatype RatingsReport = Skipped | ReadFailed | InsertFailed(before: nat, after: nat) | Loaded(before: nat, after: nat)

  function UserIdColumn<U>(users: seq<User<U>>): seq<U> {
    seq(|users|, i requires 0 <= i < |users| => users[i].userId)
  }

  function IsbnColumn<I>(books: seq<Book<I>>): seq<I> {
    seq(|books|, i requires 0 <= i < |books| => books[i].isbn)
  }

  // ---------------------------------------------------------------------------
  // Users
  // ---------------------------------------------------------------------------

  function CoerceAge<U>(parse: NumericParser, row: RawUser<U>): User<U> {
    User(row.userId, row.location, parse(row.age))
  }

  /**
   * The age column replaced by its numeric coercion. No row is dropped or moved; every
   * other column is unchanged, and the age is the coerced number or absent.
   */
  function CoerceAges<U>(parse: NumericParser, rows: seq<RawUser<U>>): (users: seq<User<U>>)
    ensures |users| == |rows|
    ensures forall i :: 0 <= i < |rows| ==>
      && users[i].userId == rows[i].userId
      && users[i].location == rows[i].location
      && users[i].age == parse(rows[i].age)
  {
    if rows == [] then [] else [CoerceAge(parse, rows[0])] + CoerceAges(parse, rows[1..])
  }

  /**
   * The value `load_users` returns: on success the distinct user ids of the loaded rows,
   * which are exactly the user ids of the file; when any step raised, an empty list.
   */
  function UserKeys<U(==)>(parse: NumericParser, read: Option<seq<RawUser<U>>>, insertOk: bool): (keys: seq<U>)
    ensures NoDuplicates(keys)
    ensures read.None? || !insertOk ==> keys == []
    ensures read.Some? && insertOk ==>
      forall u | u in keys :: exists i :: 0 <= i < |read.value| && read.value[i].userId == u
    ensures read.Some? && insertOk ==>
      forall i | 0 <= i < |read.value| :: read.value[i].userId in keys
  {
    if read.Some? && insertOk then
      var users := CoerceAges(parse, read.value);
      assert forall i :: 0 <= i < |users| ==> UserIdColumn(users)[i] == read.value[i].userId;
      Unique(UserIdColumn(users))
    else []
  }

  /** The users loader yields no keys exactly when it failed or its file had no rows. */
  lemma UserKeysEmpty<U>(parse: NumericParser, read: Option<seq<RawUser<U>>>, insertOk: bool)
    ensures |UserKeys(parse, read, insertOk)| == 0 <==> read.None? || !insertOk || |read.value| == 0
  {
    if read.Some? && insertOk && |read.value| > 0 {
      assert read.value[0].userId in UserKeys(parse, read, insertOk);
    }
  }

  // ---------------------------------------------------------------------------
  // Books
  // ---------------------------------------------------------------------------

  /** Years must be strictly after this one... */
  const FirstImpossibleYear: int := 1900
  /** ...and no later than this one. */
  const LastPossibleYear: int := 2024

  /** `year > bound` on a float column: false when the year is NaN. */
  predicate After(year: Option<int>, bound: int) {
    year.Some? && year.value > bound
  }

  /** `year <= bound` on a float column: false when the year is NaN. */
  predicate NoLaterThan(year: Option<int>, bound: int) {
    year.Some? && year.value <= bound
  }

  /**
   * The row mask of the year filter, grouped as Python groups it (`&` binds tighter
   * than `|`): (after 1900 and no later than 2024) or null.
   */
  predicate YearMask(year: Option<int>) {
    (After(year, FirstImpossibleYear) && NoLaterThan(year, LastPossibleYear)) || year.None?
  }

  /** Because NaN fails both comparisons, the `isnull` disjunct is what keeps absent years. */
  lemma YearMaskMeaning(year: Option<int>)
    ensures YearMask(year) <==> year.None? || FirstImpossibleYear < year.value <= LastPossibleYear
    ensures year.None? ==> !(After(year, FirstImpossibleYear) && NoLaterThan(year, LastPossibleYear))
  {
  }

  function CoerceYear<I>(parse: NumericParser, row: RawBook<I>): Book<I> {
    Book(row.isbn, row.bookTitle, row.bookAuthor, parse(row.yearOfPublication),
         row.publisher, row.imageUrlS, row.imageUrlM, row.imageUrlL)
  }

  /**
   * The year column replaced by its numeric coercion. No row is dropped or moved; every
   * other column is unchanged.
   */
  function CoerceYears<I>(parse: NumericParser, rows: seq<RawBook<I>>): (books: seq<Book<I>>)
    ensures |books| == |rows|
    ensures forall i :: 0 <= i < |rows| ==>
      && books[i].isbn == rows[i].isbn
      && books[i].bookTitle == rows[i].bookTitle
      && books[i].bookAuthor == rows[i].bookAuthor
      && books[i].yearOfPublication == parse(rows[i].yearOfPublication)
      && books[i].publisher == rows[i].publisher
      && books[i].imageUrlS == rows[i].imageUrlS
      && books[i].imageUrlM == rows[i].imageUrlM
      && books[i].imageUrlL == rows[i].imageUrlL
  {
    if rows == [] then [] else [CoerceYear(parse, rows[0])] + CoerceYears(parse, rows[1..])
  }

  function HasPlausibleYear<I>(): Book<I> -> bool {
    (b: Book<I>) => YearMask(b.yearOfPublication)
  }

  /**
   * The year filter. A kept row has an absent year or one in (1900, 2024]; every row with
   * such a year is kept with all its copies; a row with any other year is removed
   * entirely, not kept with its year nulled; the kept rows stay in their order.
   */
  function KeepPlausibleYears<I>(books: seq<Book<I>>): (kept: seq<Book<I>>)
    ensures forall b | b in kept ::
      b in books && (b.yearOfPublication.None? || FirstImpossibleYear < b.yearOfPublication.value <= LastPossibleYear)
    ensures forall b | b in books ::
      multiset(kept)[b] == if b.yearOfPublication.None? || FirstImpossibleYear < b.yearOfPublication.value <= LastPossibleYear
                           then multiset(books)[b] else 0
    ensures IsSubsequence(kept, books)
  {
    Filter(books, HasPlausibleYear())
  }

  /** The books that `load_books` inserts. */
  function LoadedBooks<I>(parse: NumericParser, rows: seq<RawBook<I>>): seq<Book<I>> {
    KeepPlausibleYears(CoerceYears(parse, rows))
  }

  /**
   * A row whose year is non-numeric or in range is always loaded; a row whose year is
   * numeric and out of range (0, 2050) is not. Since every loaded row is an input row
   * unchanged, such a row does not reappear with its year nulled either.
   */
  lemma {:induction false} BookRowFate<I>(parse: NumericParser, rows: seq<RawBook<I>>, i: nat)
    requires i < |rows|
    ensures YearMask(parse(rows[i].yearOfPublication)) ==> CoerceYear(parse, rows[i]) in LoadedBooks(parse, rows)
    ensures !YearMask(parse(rows[i].yearOfPublication)) ==> CoerceYear(parse, rows[i]) !in LoadedBooks(parse, rows)
  {
    var books := CoerceYears(parse, rows);
    assert books[i] == CoerceYear(parse, rows[i]);
    assert books[i] in books;
    YearMaskMeaning(parse(rows[i].yearOfPublication));
  }

  /** The ISBNs of the loaded books are exactly those of the rows whose year passes the mask. */
  lemma LoadedIsbns<I>(parse: NumericParser, rows: seq<RawBook<I>>)
    ensures forall k | k in IsbnColumn(LoadedBooks(parse, rows)) ::
      exists i :: 0 <= i < |rows| && rows[i].isbn == k && YearMask(parse(rows[i].yearOfPublication))
    ensures forall i | 0 <= i < |rows| && YearMask(parse(rows[i].yearOfPublication)) ::
      rows[i].isbn in IsbnColumn(LoadedBooks(parse, rows))
  {
    var books := LoadedBooks(parse, rows);
    forall k | k in IsbnColumn(books)
      ensures exists i :: 0 <= i < |rows| && rows[i].isbn == k && YearMask(parse(rows[i].yearOfPublication))
    {
      var j :| 0 <= j < |books| && IsbnColumn(books)[j] == k;
      LoadedBookOrigin(parse, rows, books[j]);
    }
    forall i | 0 <= i < |rows| && YearMask(parse(rows[i].yearOfPublication))
      ensures rows[i].isbn in IsbnColumn(books)
    {
      BookRowFate(parse, rows, i);
      var j :| 0 <= j < |books| && books[j] == CoerceYear(parse, rows[i]);
      assert IsbnColumn(books)[j] == rows[i].isbn;
    }
  }

  /** Every loaded book is the coercion of a row of the file whose year passes the mask. */
  lemma LoadedBookOrigin<I>(parse: NumericParser, rows: seq<RawBook<I>>, b: Book<I>)
    requires b in LoadedBooks(parse, rows)
    ensures exists i :: 0 <= i < |rows| && b == CoerceYear(parse, rows[i]) && YearMask(parse(rows[i].yearOfPublication))
  {
    var coerced := CoerceYears(parse, rows);
    var i :| 0 <= i < |coerced| && coerced[i] == b;
    YearMaskMeaning(b.yearOfPublication);
    assert b == CoerceYear(parse, rows[i]) && YearMask(parse(rows[i].yearOfPublication));
  }

  /**
   * The value `load_books` returns: on success the distinct ISBNs of the rows that pass the
   * year filter, which are exactly the ISBNs of the file's rows whose year passes; when
   * any step raised, an empty list.
   */
  function BookKeys<I(==)>(parse: NumericParser, read: Option<seq<RawBook<I>>>, insertOk: bool): (keys: seq<I>)
    ensures NoDuplicates(keys)
    ensures read.None? || !insertOk ==> keys == []
    ensures read.Some? && insertOk ==>
      forall k | k in keys ::
        exists i :: 0 <= i < |read.value| && read.value[i].isbn == k && YearMask(parse(read.value[i].yearOfPublication))
    ensures read.Some? && insertOk ==>
      forall i | 0 <= i < |read.value| && YearMask(parse(read.value[i].yearOfPublication)) :: read.value[i].isbn in keys
  {
    if read.Some? && insertOk then
      var books := LoadedBooks(parse, read.value);
      LoadedIsbns(parse, read.value);
      Unique(IsbnColumn(books))
    else []
  }

  // ---------------------------------------------------------------------------
  // Ratings
  // ---------------------------------------------------------------------------

  /** The mask of the first ratings filter: the user id is among the loaded user keys. */
  function HasKnownUser<U(==), I>(validUserIds: seq<U>): Rating<U, I> -> bool {
    (r: Rating<U, I>) => r.userId in validUserIds
  }

  /** The mask of the second ratings filter: the ISBN is among the loaded book keys. */
  function HasKnownIsbn<U, I(==)>(validIsbns: seq<I>): Rating<U, I> -> bool {
    (r: Rating<U, I>) => r.isbn in validIsbns
  }

  /** Both foreign keys of the rating are among the loaded keys. */
  function References<U(==), I(==)>(validUserIds: seq<U>, validIsbns: seq<I>): Rating<U, I> -> bool {
    (r: Rating<U, I>) => r.userId in validUserIds && r.isbn in validIsbns
  }

  /**
   * The rows `load_ratings` passes to its insert. Nothing when either key list is empty
   * (the file is not even read) or when reading raised; otherwise the rating rows whose
   * user id and ISBN are both known, and only those, each with all its copies, in their
   * original order.
   */
  function RatingsToInsert<U(==), I(==)>(read: Option<seq<Rating<U, I>>>, validUserIds: seq<U>, validIsbns: seq<I>)
    : (rows: seq<Rating<U, I>>)
    ensures |validUserIds| == 0 || |validIsbns| == 0 || read.None? ==> rows == []
    ensures forall r | r in rows :: r.userId in validUserIds && r.isbn in validIsbns
    ensures read.Some? ==> IsSubsequence(rows, read.value)
    ensures read.Some? ==> forall r | r in rows :: r in read.value
    ensures read.Some? && |validUserIds| > 0 && |validIsbns| > 0 ==>
      forall r | r in read.value :: r.userId in validUserIds && r.isbn in validIsbns ==> r in rows
    ensures read.Some? && |validUserIds| > 0 && |validIsbns| > 0 ==>
      forall r | r in read.value ::
        multiset(rows)[r] == if r.userId in validUserIds && r.isbn in validIsbns then multiset(read.value)[r] else 0
  {
    if |validUserIds| == 0 || |validIsbns| == 0 then []
    else
      match read
      case None => []
      case Some(df) =>
        FilterTwice(df, HasKnownUser(validUserIds), HasKnownIsbn(validIsbns), References(validUserIds, validIsbns));
        Filter(Filter(df, HasKnownUser(validUserIds)), HasKnownIsbn(validIsbns))
  }

  /** The number of rating rows with an unknown user or an unknown ISBN. */
  function Orphans<U(==), I(==)>(rows: seq<Rating<U, I>>, validUserIds: seq<U>, validIsbns: seq<I>): nat {
    if rows == [] then 0
    else (if rows[0].userId in validUserIds && rows[0].isbn in validIsbns then 0 else 1)
         + Orphans(rows[1..], validUserIds, validIsbns)
  }

  lemma {:induction false} ReferencingCount<U, I>(rows: seq<Rating<U, I>>, validUserIds: seq<U>, validIsbns: seq<I>)
    ensures |Filter(rows, References(validUserIds, validIsbns))| + Orphans(rows, validUserIds, validIsbns) == |rows|
  {
    if rows != [] {
      ReferencingCount(rows[1..], validUserIds, validIsbns);
    }
  }

  /**
   * The after-filter count is at most the before-filter count, and the difference is
   * exactly the number of rows with an unknown user or an unknown ISBN.
   */
  lemma {:induction false} RatingsCountDrop<U, I>(rows: seq<Rating<U, I>>, validUserIds: seq<U>, validIsbns: seq<I>)
    requires |validUserIds| > 0 && |validIsbns| > 0
    ensures |RatingsToInsert(Some(rows), validUserIds, validIsbns)| <= |rows|
    ensures |rows| - |RatingsToInsert(Some(rows), validUserIds, validIsbns)| == Orphans(rows, validUserIds, validIsbns)
  {
    FilterTwice(rows, HasKnownUser(validUserIds), HasKnownIsbn(validIsbns), References(validUserIds, validIsbns));
    ReferencingCount(rows, validUserIds, validIsbns);
  }

  // ---------------------------------------------------------------------------
  // The stage chain
  // ---------------------------------------------------------------------------

  /**
   * The rows the final ratings insert receives when the three loaders run in sequence.
   * Each references a user id of the users file and an ISBN of a books-file row whose
   * year passed the filter; if either earlier loader failed, there are none.
   */
  function ChainedRatings<U(==), I(==)>(
    parse: NumericParser,
    usersRead: Option<seq<RawUser<U>>>, usersOk: bool,
    booksRead: Option<seq<RawBook<I>>>, booksOk: bool,
    ratingsRead: Option<seq<Rating<U, I>>>)
    : (rows: seq<Rating<U, I>>)
    ensures usersRead.None? || !usersOk || booksRead.None? || !booksOk ==> rows == []
    ensures forall r | r in rows ::
      && usersRead.Some? && usersOk && booksRead.Some? && booksOk
      && (exists i :: 0 <= i < |usersRead.value| && usersRead.value[i].userId == r.userId)
      && (exists j :: 0 <= j < |booksRead.value| && booksRead.value[j].isbn == r.isbn
                      && YearMask(parse(booksRead.value[j].yearOfPublication)))
  {
    RatingsToInsert(ratingsRead, UserKeys(parse, usersRead, usersOk), BookKeys(parse, booksRead, booksOk))
  }

  /** A chained rating references a row the users loader stored and a row the books loader stored. */
  lemma ChainedRatingStored<U, I>(
    parse: NumericParser,
    usersRead: Option<seq<RawUser<U>>>, usersOk: bool,
    booksRead: Option<seq<RawBook<I>>>, booksOk: bool,
    ratingsRead: Option<seq<Rating<U, I>>>, r: Rating<U, I>)
    requires r in ChainedRatings(parse, usersRead, usersOk, booksRead, booksOk, ratingsRead)
    ensures usersRead.Some? && usersOk && booksRead.Some? && booksOk
    ensures exists u | u in CoerceAges(parse, usersRead.value) :: u.userId == r.userId
    ensures exists b | b in LoadedBooks(parse, booksRead.value) :: b.isbn == r.isbn
  {
    var i :| 0 <= i < |usersRead.value| && usersRead.value[i].userId == r.userId;
    assert CoerceAges(parse, usersRead.value)[i] in CoerceAges(parse, usersRead.value);
    var j :| 0 <= j < |booksRead.value| && booksRead.value[j].isbn == r.isbn
             && YearMask(parse(booksRead.value[j].yearOfPublication));
    BookRowFate(parse, booksRead.value, j);
  }

  /** Every rating references one of the users and one of the books. */
  ghost predicate ReferentiallyIntact<U, I>(users: seq<User<U>>, books: seq<Book<I>>, ratings: seq<Rating<U, I>>) {
    forall r | r in ratings ::
      (exists u | u in users :: u.userId == r.userId) && (exists b | b in books :: b.isbn == r.isbn)
  }

  /**
   * Appending users, books and ratings keeps the tables intact when every appended rating
   * references an appended user and an appended book.
   */
  lemma AppendKeepsIntact<U, I>(
    users: seq<User<U>>, books: seq<Book<I>>, ratings: seq<Rating<U, I>>,
    newUsers: seq<User<U>>, newBooks: seq<Book<I>>, newRatings: seq<Rating<U, I>>)
    requires ReferentiallyIntact(users, books, ratings)
    requires ReferentiallyIntact(newUsers, newBooks, newRatings)
    ensures ReferentiallyIntact(users + newUsers, books + newBooks, ratings + newRatings)
  {
    forall r | r in ratings + newRatings
      ensures (exists u | u in users + newUsers :: u.userId == r.userId)
           && (exists b | b in books + newBooks :: b.isbn == r.isbn)
    {
      if r in ratings {
        var u :| u in users && u.userId == r.userId;
        assert u in users + newUsers;
        var b :| b in books && b.isbn == r.isbn;
        assert b in books + newBooks;
      } else {
        var u :| u in newUsers && u.userId == r.userId;
        assert u in users + newUsers;
        var b :| b in newBooks && b.isbn == r.isbn;
        assert b in books + newBooks;
      }
    }
  }

  // ---------------------------------------------------------------------------
  // Worked examples
  // ---------------------------------------------------------------------------

  /** Ages "thirty" and "25" load as absent and 25. */
  lemma AgeExample(parse: NumericParser)
    requires parse("thirty") == None && parse("25") == Some(25)
    ensures CoerceAges(parse, [RawUser(1, "NYC", "thirty"), RawUser(2, "LA", "25")])
         == [User(1, "NYC", None), User(2, "LA", Some(25))]
  {
    assert [RawUser(1, "NYC", "thirty"), RawUser(2, "LA", "25")][1..] == [RawUser(2, "LA", "25")];
  }

  /** A book published "2050" is removed; one with year "n/a" is kept. */
  lemma YearExample(parse: NumericParser, late: RawBook<string>, unknown: RawBook<string>)
    requires parse(late.yearOfPublication) == Some(2050) && parse(unknown.yearOfPublication) == None
    ensures LoadedBooks(parse, [late, unknown]) == [CoerceYear(parse, unknown)]
  {
    assert [late, unknown][1..] == [unknown];
    assert CoerceYears(parse, [late, unknown]) == [CoerceYear(parse, late), CoerceYear(parse, unknown)];
    assert [CoerceYear(parse, late), CoerceYear(parse, unknown)][1..] == [CoerceYear(parse, unknown)];
  }

  /** A rating by the unknown user 999 is dropped, and the count falls by exactly one. */
  lemma UnknownUserExample()
    ensures RatingsToInsert(Some([Rating(999, "0195153448", "5"), Rating(1, "0195153448", "7")]), [1, 2], ["0195153448"])
         == [Rating(1, "0195153448", "7")]
    ensures Orphans([Rating(999, "0195153448", "5"), Rating(1, "0195153448", "7")], [1, 2], ["0195153448"]) == 1
  {
    var rows := [Rating(999, "0195153448", "5"), Rating(1, "0195153448", "7")];
    assert rows[1..] == [Rating(1, "0195153448", "7")];
    assert 999 !in [1, 2];
    var byUser := Filter(rows, HasKnownUser([1, 2]));
    assert byUser == [Rating(1, "0195153448", "7")];
    assert byUser[1..] == [];
  }

  // ---------------------------------------------------------------------------
  // The database and the loaders
  // ---------------------------------------------------------------------------

  /** The three target tables; every loader appends to one of them. */
  class Database<U(==), I(==)> {
    var users: seq<User<U>>
    var books: seq<Book<I>>
    var ratings: seq<Rating<U, I>>

    /** Every stored rating references a stored user and a stored book. */
    ghost predicate Intact()
      reads this
    {
      ReferentiallyIntact(users, books, ratings)
    }

    /**
     * `load_users`: coerce the ages, append every row, return the distinct user ids; on a
     * failed read or insert, append nothing and return an empty list.
     */
    method LoadUsers(parse: NumericParser, read: Option<seq<RawUser<U>>>, insertOk: bool) returns (validUserIds: seq<U>)
      modifies this
      ensures validUserIds == UserKeys(parse, read, insertOk)
      ensures users == old(users) + (if read.Some? && insertOk then CoerceAges(parse, read.value) else [])
      ensures books == old(books) && ratings == old(ratings)
    {
      match read {
        case None =>
          return [];
        case Some(df) =>
          var frame := CoerceAges(parse, df);
          if !insertOk {
            return [];
          }
          users := users + frame;
          validUserIds := Unique(UserIdColumn(frame));
      }
    }

    /**
     * `load_books`: coerce the years, drop the rows whose year fails the mask, append the
     * rest, return their distinct ISBNs; on a failed read or insert, append nothing and
     * return an empty list.
     */
    method LoadBooks(parse: NumericParser, read: Option<seq<RawBook<I>>>, insertOk: bool) returns (validIsbns: seq<I>)
      modifies this
      ensures validIsbns == BookKeys(parse, read, insertOk)
      ensures books == old(books) + (if read.Some? && insertOk then LoadedBooks(parse, read.value) else [])
      ensures users == old(users) && ratings == old(ratings)
    {
      match read {
        case None =>
          return [];
        case Some(df) =>
          var frame := CoerceYears(parse, df);
          frame := KeepPlausibleYears(frame);
          if !insertOk {
            return [];
          }
          books := books + frame;
          validIsbns := Unique(IsbnColumn(frame));
      }
    }

    /**
     * `load_ratings`: skip when either key list is empty; otherwise keep the rows with a
     * known user, then those with a known ISBN, report both counts, and append the rows.
     */
    method LoadRatings(read: Option<seq<Rating<U, I>>>, validUserIds: seq<U>, validIsbns: seq<I>, insertOk: bool)
      returns (report: RatingsReport)
      modifies this
      ensures ratings == old(ratings) + (if insertOk then RatingsToInsert(read, validUserIds, validIsbns) else [])
      ensures users == old(users) && books == old(books)
      ensures report.Skipped? <==> |validUserIds| == 0 || |validIsbns| == 0
      ensures report.ReadFailed? <==> |validUserIds| > 0 && |validIsbns| > 0 && read.None?
      ensures report.Loaded? <==> |validUserIds| > 0 && |validIsbns| > 0 && read.Some? && insertOk
      ensures report.InsertFailed? || report.Loaded? ==>
        && read.Some?
        && report.before == |read.value|
        && report.after == |RatingsToInsert(read, validUserIds, validIsbns)|
        && report.before - report.after == Orphans(read.value, validUserIds, validIsbns)
    {
      if |validUserIds| == 0 || |validIsbns| == 0 {
        return Skipped;
      }
      match read {
        case None =>
          return ReadFailed;
        case Some(rows) =>
          var df := rows;
          var before := |df|;
          df := Filter(df, HasKnownUser(validUserIds));
          df := Filter(df, HasKnownIsbn(validIsbns));
          var after := |df|;
          RatingsCountDrop(rows, validUserIds, validIsbns);
          if !insertOk {
            return InsertFailed(before, after);
          }
          ratings := ratings + df;
          report := Loaded(before, after);
      }
    }

    /**
     * The main block: when the engine can be created, run the three loaders in order,
     * feeding the keys of the first two into the third. A database whose ratings all
     * reference stored users and books stays that way.
     */
    method Run(
      parse: NumericParser, engineOk: bool,
      usersRead: Option<seq<RawUser<U>>>, usersOk: bool,
      booksRead: Option<seq<RawBook<I>>>, booksOk: bool,
      ratingsRead: Option<seq<Rating<U, I>>>, ratingsOk: bool)
      modifies this
      ensures !engineOk ==> users == old(users) && books == old(books) && ratings == old(ratings)
      ensures engineOk ==>
        && users == old(users) + (if usersRead.Some? && usersOk then CoerceAges(parse, usersRead.value) else [])
        && books == old(books) + (if booksRead.Some? && booksOk then LoadedBooks(parse, booksRead.value) else [])
        && ratings == old(ratings) + (if ratingsOk then ChainedRatings(parse, usersRead, usersOk, booksRead, booksOk, ratingsRead) else [])
      ensures old(Intact()) ==> Intact()
    {
      if !engineOk {
        return;
      }
      ghost var users0, books0, ratings0 := users, books, ratings;
      var validUsers := LoadUsers(parse, usersRead, usersOk);
      var validBooks := LoadBooks(parse, booksRead, booksOk);
      var report := LoadRatings(ratingsRead, validUsers, validBooks, ratingsOk);
      ghost var newUsers := if usersRead.Some? && usersOk then CoerceAges(parse, usersRead.value) else [];
      ghost var newBooks := if booksRead.Some? && booksOk then LoadedBooks(parse, booksRead.value) else [];
      ghost var newRatings := if ratingsOk then ChainedRatings(parse, usersRead, usersOk, booksRead, booksOk, ratingsRead) else [];
      forall r | r in newRatings
        ensures (exists u | u in newUsers :: u.userId == r.userId) && (exists b | b in newBooks :: b.isbn == r.isbn)
      {
        ChainedRatingStored(parse, usersRead, usersOk, booksRead, booksOk, ratingsRead, r);
      }
      if ReferentiallyIntact(users0, books0, ratings0) {
        AppendKeepsIntact(users0, books0, ratings0, newUsers, newBooks, newRatings);
      }
    }
  }

}
