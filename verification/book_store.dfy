/**
 * A list of books kept in a text file, one `title,author,year` line per
 * book, written with `writeln!` and read back with `BufRead::lines` and
 * `str::split(',')`. File access is left out: saving produces the file's
 * contents and loading takes them.
 */
module BookStore {
  import opened Wrappers
  import opened RustInt
  import opened Decimal
  import opened Text

  datatype Book = Book(title: string, author: string, year: uint16)

  /** Why reading a line panics: a missing field or a year `u16` cannot parse. */
  datatype LineProblem = MissingAuthor | MissingYear | BadYear(field: string)

  /** The first line that could not be read, counted from 0, and what was wrong with it. */
  datatype LoadError = LoadError(line: nat, problem: LineProblem)

  /** A book whose line stays one line in the file: no line feed in its text fields. */
  predicate OnOneLine(b: Book) {
    '\n' !in b.title && '\n' !in b.author
  }

  /** A book whose line reads back as the same book: no comma or line feed in its text fields. */
  predicate Storable(b: Book) {
    ',' !in b.title && ',' !in b.author && OnOneLine(b)
  }

  /**
   * The line `{title},{author},{year}` for one book. It ends in a digit, so
   * no carriage return is lost on reading, and it holds no line feed when
   * the text fields hold none.
   */
  function BookLine(b: Book): (line: string)
    ensures |line| > 0 && IsDigit(line[|line| - 1])
    ensures '\n' !in b.title && '\n' !in b.author ==> IsPlainLine(line)
  {
    var year := NatToString(b.year);
    var line := b.title + "," + b.author + "," + year;
    assert line[|line| - 1] == year[|year| - 1];
    assert forall c :: c in line ==> c in b.title || c == ',' || c in b.author || c in year;
    line
  }

  /** When the text fields hold no comma, a book's line splits at its commas into exactly its three fields. */
  lemma BookLineFields(b: Book)
    requires ',' !in b.title && ',' !in b.author
    ensures Split(BookLine(b), ',') == [b.title, b.author, NatToString(b.year)]
  {
    var year := NatToString(b.year);
    var front := b.title + "," + b.author;
    assert BookLine(b) == front + [','] + year;
    assert front == b.title + [','] + b.author;
    assert ',' !in year;
    SplitConcat(front, year, ',');
    SplitConcat(b.title, b.author, ',');
    SplitNoSeparator(b.title, ',');
    SplitNoSeparator(b.author, ',');
    SplitNoSeparator(year, ',');
  }

  /** The file `save_books` writes: one line per book, each ended by a line feed. */
  function SaveBooks(books: seq<Book>): (contents: string)
    ensures contents == [] <==> books == []
    ensures contents != [] ==> contents[|contents| - 1] == '\n'
  {
    if books == [] then []
    else
      var rest := SaveBooks(books[1..]);
      var contents := BookLine(books[0]) + "\n" + rest;
      assert rest == [] ==> contents[|contents| - 1] == '\n';
      contents
  }

  /**
   * One line of `load_books`: the first three comma-separated fields are
   * title, author and year, and any further fields are ignored. Each
   * `unwrap` that panics is an error here.
   */
  function ParseLine(line: string): (r: Result<Book, LineProblem>)
    ensures var f := Split(line, ',');
            r.Ok? ==> |f| >= 3 && ParseU16(f[2]).Some? && r.value == Book(f[0], f[1], ParseU16(f[2]).value)
    ensures r.Ok? <==> |Split(line, ',')| >= 3 && ParseU16(Split(line, ',')[2]).Some?
    ensures var f := Split(line, ',');
            |f| >= 3 && ParseU16(f[2]).None? ==> r == Err(BadYear(f[2]))
    ensures r == Err(MissingAuthor) <==> |Split(line, ',')| == 1
    ensures r == Err(MissingYear) <==> |Split(line, ',')| == 2
  {
    var fields := Split(line, ',');
    if |fields| < 2 then Err(MissingAuthor)
    else if |fields| < 3 then Err(MissingYear)
    else match ParseU16(fields[2])
      case None => Err(BadYear(fields[2]))
      case Some(year) => Ok(Book(fields[0], fields[1], year))
  }

  /**
   * A line made of comma-free title, author and year fields, possibly
   * followed by further fields, reads as the book of those three fields,
   * or fails on the year field when it is not a `u16`.
   */
  lemma ParseLineOfFields(t: string, a: string, y: string, extra: string)
    requires ',' !in t && ',' !in a && ',' !in y
    requires extra == [] || extra[0] == ','
    ensures ParseLine(t + "," + a + "," + y + extra)
         == match ParseU16(y)
            case Some(v) => Ok(Book(t, a, v))
            case None => Err(BadYear(y))
  {
    var line := t + "," + a + "," + y + extra;
    LeadingFields(t, a, y + extra);
    TrailingFields(y, extra);
    assert line == t + [','] + (a + [','] + (y + extra));
  }

  /** Splitting `t,a,rest` when `t` and `a` hold no comma. */
  lemma LeadingFields(t: string, a: string, rest: string)
    requires ',' !in t && ',' !in a
    ensures Split(t + [','] + (a + [','] + rest), ',') == [t, a] + Split(rest, ',')
  {
    SplitConcat(t, a + [','] + rest, ',');
    SplitConcat(a, rest, ',');
    SplitNoSeparator(t, ',');
    SplitNoSeparator(a, ',');
  }

  /** A comma-free field followed by nothing or by a comma is the first piece. */
  lemma TrailingFields(y: string, extra: string)
    requires ',' !in y
    requires extra == [] || extra[0] == ','
    ensures Split(y + extra, ',')[0] == y
  {
    SplitNoSeparator(y, ',');
    if extra != [] {
      assert y + extra == y + [','] + extra[1..];
      SplitConcat(y, extra[1..], ',');
    } else {
      assert y + extra == y;
    }
  }

  /** A year with a `+` sign and a leading zero, as a hand-written file might hold, still reads. */
  lemma ParseLineSample()
    ensures ParseLine("Dune" + "," + "Frank Herbert" + "," + "+01965") == Ok(Book("Dune", "Frank Herbert", 1965))
  {
    SampleLineFields();
    ParseU16Sample();
    ParseLineOfFields("Dune", "Frank Herbert", "+01965", "");
    var line := "Dune" + "," + "Frank Herbert" + "," + "+01965";
    assert line + "" == line;
  }

  lemma SampleLineFields()
    ensures ',' !in "Dune" && ',' !in "Frank Herbert" && ',' !in "+01965"
  {
    assert forall c :: c in "Frank Herbert" ==> c != ',';
    assert forall c :: c in "+01965" ==> c != ',';
  }

  lemma ParseU16Sample()
    ensures ParseU16("+01965") == Some(1965)
  {
    var d := UnsignedDigits("+01965");
    assert d == "01965";
    DigitsValueSnoc("", '0');
    DigitsValueSnoc("0", '1');
    DigitsValueSnoc("01", '9');
    DigitsValueSnoc("019", '6');
    DigitsValueSnoc("0196", '5');
    assert "" + "0" == "0" && "0" + "1" == "01" && "01" + "9" == "019";
    assert "019" + "6" == "0196" && "0196" + "5" == d;
  }

  /**
   * The outcome of reading lines whose individual outcomes are `results`:
   * the first error stops the reading, otherwise the books in order.
   */
  function Collect(results: seq<Result<Book, LineProblem>>): (r: Result<seq<Book>, LoadError>)
    ensures r.Ok? <==> forall i :: 0 <= i < |results| ==> results[i].Ok?
    ensures r.Ok? ==> |r.value| == |results|
                      && forall i :: 0 <= i < |results| ==> results[i] == Ok(r.value[i])
    ensures r.Err? ==> && r.error.line < |results|
                       && results[r.error.line] == Err(r.error.problem)
                       && forall i :: 0 <= i < r.error.line ==> results[i].Ok?
  {
    if results == [] then Ok([])
    else match results[0]
      case Err(problem) => Err(LoadError(0, problem))
      case Ok(book) =>
        var rest := Collect(results[1..]);
        assert forall i :: 1 <= i < |results| ==> results[i] == results[1..][i - 1];
        match rest
        case Err(e) => Err(LoadError(e.line + 1, e.problem))
        case Ok(books) => Ok([book] + books)
  }

  /**
   * Reads lines in order, stopping at the first one that cannot be read.
   * The books come out in the order of their lines.
   */
  function ParseAll(lines: seq<string>): (r: Result<seq<Book>, LoadError>)
    ensures r.Ok? <==> forall i :: 0 <= i < |lines| ==> ParseLine(lines[i]).Ok?
    ensures r.Ok? ==> |r.value| == |lines|
                      && forall i :: 0 <= i < |lines| ==> ParseLine(lines[i]) == Ok(r.value[i])
    ensures r.Err? ==> && r.error.line < |lines|
                       && ParseLine(lines[r.error.line]) == Err(r.error.problem)
                       && forall i :: 0 <= i < r.error.line ==> ParseLine(lines[i]).Ok?
  {
    Collect(ParsedLines(lines))
  }

  function ParsedLines(lines: seq<string>): (results: seq<Result<Book, LineProblem>>)
    ensures |results| == |lines|
    ensures forall i :: 0 <= i < |lines| ==> results[i] == ParseLine(lines[i])
  {
    seq(|lines|, i requires 0 <= i < |lines| => ParseLine(lines[i]))
  }

  /** `load_books` on the contents of the file. */
  function LoadBooks(contents: string): (r: Result<seq<Book>, LoadError>)
    ensures r.Ok? ==> |r.value| == |Lines(contents)|
    ensures r.Err? ==> r.error.line < |Lines(contents)|
  {
    ParseAll(Lines(contents))
  }

  function BookLines(books: seq<Book>): (lines: seq<string>)
    ensures |lines| == |books|
  {
    seq(|books|, i requires 0 <= i < |books| => BookLine(books[i]))
  }

  /** The saved file holds exactly the books' lines, each followed by a line feed. */
  lemma {:induction false} SaveBooksIsUnlines(books: seq<Book>)
    ensures SaveBooks(books) == Unlines(BookLines(books))
    decreases |books|
  {
    if books != [] {
      SaveBooksIsUnlines(books[1..]);
      assert BookLines(books)[1..] == BookLines(books[1..]);
    }
  }

  /** Reading the saved file line by line gives one line per book, when no text field holds a line feed. */
  lemma SaveBooksLines(books: seq<Book>)
    requires forall i :: 0 <= i < |books| ==> OnOneLine(books[i])
    ensures Lines(SaveBooks(books)) == BookLines(books)
  {
    var lines := BookLines(books);
    SaveBooksIsUnlines(books);
    BookLinesPlain(books);
    LinesUnlines(lines);
  }

  lemma BookLinesPlain(books: seq<Book>)
    requires forall i :: 0 <= i < |books| ==> OnOneLine(books[i])
    ensures forall i :: 0 <= i < |books| ==> IsPlainLine(BookLines(books)[i])
  {
    forall i | 0 <= i < |books| ensures IsPlainLine(BookLines(books)[i]) {
      assert BookLines(books)[i] == BookLine(books[i]);
    }
  }

  /** A line written for a storable book reads back as that book. */
  lemma ParseBookLine(b: Book)
    requires Storable(b)
    ensures ParseLine(BookLine(b)) == Ok(b)
  {
    BookLineFields(b);
    ParseU16OfNatToString(b.year);
  }

  /** Fields after the year are ignored. */
  lemma ParseLineIgnoresExtraFields(b: Book, extra: string)
    requires Storable(b)
    ensures ParseLine(BookLine(b) + "," + extra) == Ok(b)
  {
    var line := BookLine(b);
    assert line + "," + extra == line + [','] + extra;
    SplitConcat(line, extra, ',');
    BookLineFields(b);
    ParseU16OfNatToString(b.year);
  }

  /** Outcomes that are all books collect to those books. */
  lemma {:induction false} CollectOk(results: seq<Result<Book, LineProblem>>, books: seq<Book>)
    requires |results| == |books|
    requires forall i :: 0 <= i < |results| ==> results[i] == Ok(books[i])
    ensures Collect(results) == Ok(books)
    decreases |results|
  {
    if results != [] {
      CollectOk(results[1..], books[1..]);
      assert books == [books[0]] + books[1..];
    }
  }

  /** Saving storable books and loading the file gives the same books back. */
  lemma LoadSavedBooks(books: seq<Book>)
    requires forall i :: 0 <= i < |books| ==> Storable(books[i])
    ensures LoadBooks(SaveBooks(books)) == Ok(books)
  {
    SaveBooksLines(books);
    var lines := BookLines(books);
    forall i | 0 <= i < |books|
      ensures ParseLine(lines[i]) == Ok(books[i])
    {
      ParseBookLine(books[i]);
    }
    CollectOk(ParsedLines(lines), books);
  }

  /** A saved file with a single line reads as that line alone. */
  lemma SaveOneBook(b: Book)
    requires OnOneLine(b)
    ensures Lines(SaveBooks([b])) == [BookLine(b)]
  {
    SaveBooksLines([b]);
  }

  /**
   * The format has no escaping: a comma in a title moves the rest of the
   * title into the author field and the author into the year field, so
   * loading what was saved fails unless the author happens to be a number.
   */
  lemma CommaInTitleBreaksLoading(b: Book, before: string, after: string)
    requires b.title == before + "," + after
    requires ',' !in before && '\n' !in before && Storable(Book(after, b.author, b.year))
    requires ParseU16(b.author).None?
    ensures LoadBooks(SaveBooks([b])) == Err(LoadError(0, BadYear(b.author)))
  {
    CommaInTitleFields(b, before, after);
    assert ParseLine(BookLine(b)) == Err(BadYear(b.author));
    SaveOneBook(b);
  }

  /**
   * When the author of a book with a comma in its title is itself a
   * number, loading does not fail: it silently reads a different book,
   * whose title is the text before the comma, whose author is the rest of
   * the title and whose year is the author.
   */
  lemma CommaInTitleChangesBook(b: Book, before: string, after: string, v: uint16)
    requires b.title == before + "," + after
    requires ',' !in before && '\n' !in before && Storable(Book(after, b.author, b.year))
    requires ParseU16(b.author) == Some(v)
    ensures LoadBooks(SaveBooks([b])) == Ok([Book(before, after, v)])
    ensures LoadBooks(SaveBooks([b])) != Ok([b])
  {
    CommaInTitleFields(b, before, after);
    assert ParseLine(BookLine(b)) == Ok(Book(before, after, v));
    SaveOneBook(b);
    CollectOk(ParsedLines([BookLine(b)]), [Book(before, after, v)]);
    assert |before| < |b.title|;
  }

  /** "a,b" by "1999" from 2000 is read back as "a" by "b" from 1999. */
  lemma CommaInTitleChangesExample()
    ensures LoadBooks(SaveBooks([Book("a,b", "1999", 2000)])) == Ok([Book("a", "b", 1999)])
  {
    assert "a,b" == "a" + "," + "b";
    ParseU16Of1999();
    CommaInTitleChangesBook(Book("a,b", "1999", 2000), "a", "b", 1999);
  }

  lemma ParseU16Of1999()
    ensures ParseU16("1999") == Some(1999)
    ensures ',' !in "1999" && '\n' !in "1999"
  {
    DigitsValueSnoc("", '1');
    DigitsValueSnoc("1", '9');
    DigitsValueSnoc("19", '9');
    DigitsValueSnoc("199", '9');
    assert "" + "1" == "1" && "1" + "9" == "19" && "19" + "9" == "199" && "199" + "9" == "1999";
  }

  /** The fields a comma in the title produces. */
  lemma CommaInTitleFields(b: Book, before: string, after: string)
    requires b.title == before + "," + after
    requires ',' !in before && Storable(Book(after, b.author, b.year))
    ensures Split(BookLine(b), ',') == [before, after, b.author, NatToString(b.year)]
  {
    var shifted := Book(after, b.author, b.year);
    var tail := BookLine(shifted);
    BookLineFields(shifted);
    CommaInTitleLine(b, before, after);
    SplitConcat(before, tail, ',');
    SplitNoSeparator(before, ',');
  }

  lemma CommaInTitleLine(b: Book, before: string, after: string)
    requires b.title == before + "," + after
    ensures BookLine(b) == before + [','] + BookLine(Book(after, b.author, b.year))
  {
    var year := NatToString(b.year);
    assert BookLine(b) == b.title + "," + b.author + "," + year;
    assert BookLine(Book(after, b.author, b.year)) == after + "," + b.author + "," + year;
  }

  /** A title with a comma in it, as in "Hello, World" by "Anon", cannot be loaded back. */
  lemma CommaInTitleExample()
    ensures LoadBooks(SaveBooks([Book("Hello, World", "Anon", 2000)])).Err?
  {
    assert "Hello, World" == "Hello" + "," + " World";
    assert !AllDigits("Anon") by {
      assert !IsDigit("Anon"[0]);
    }
    CommaInTitleBreaksLoading(Book("Hello, World", "Anon", 2000), "Hello", " World");
  }

  /** The two books `main` saves and loads. */
  const SampleBooks: seq<Book> := [
    Book("1984", "George Orwell", 1949),
    Book("To Kill a Mockingbird", "Harper Lee", 1960)
  ]

  /** `main` loads back exactly the books it saved. */
  lemma SampleRoundTrip()
    ensures LoadBooks(SaveBooks(SampleBooks)) == Ok(SampleBooks)
  {
    var orwell := Book("1984", "George Orwell", 1949);
    var lee := Book("To Kill a Mockingbird", "Harper Lee", 1960);
    PlainText(orwell.title);
    PlainText(orwell.author);
    PlainText(lee.title);
    PlainText(lee.author);
    var books := [orwell, lee];
    assert forall i :: 0 <= i < |books| ==> Storable(books[i]);
    LoadSavedBooks(books);
  }

  /** The text fields of the sample books hold neither commas nor line feeds. */
  lemma PlainText(s: string)
    requires s in {"1984", "George Orwell", "To Kill a Mockingbird", "Harper Lee"}
    ensures ',' !in s && '\n' !in s
  {
    if s == "To Kill a Mockingbird" {
      assert forall c :: c in s ==> c != ',' && c != '\n';
    } else if s == "George Orwell" {
      assert forall c :: c in s ==> c != ',' && c != '\n';
    } else if s == "Harper Lee" {
      assert forall c :: c in s ==> c != ',' && c != '\n';
    } else {
      assert forall c :: c in s ==> c != ',' && c != '\n';
    }
  }
}
