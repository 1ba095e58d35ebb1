/** `updateBooksList` from the popup: the books table built from the
    metadata the background context relays. */
module BooksTable {
  import opened Text
  import opened Records
  import opened Escape

  /** A line break followed by the template's indentation. */
  const Break4: string := "\n    "
  const Break6: string := "\n      "
  const Break8: string := "\n        "

  /** The template of a book row around its two cells. */
  const BookRowOpen: string := Break6 + "<tr>" + Break8 + "<td>"
  const BookCellBreak: string := "</td>" + Break8 + "<td>"
  const BookRowClose: string := "</td>" + Break6 + "</tr>" + Break4

  /** One book's row, its two texts escaped. */
  function BookRowHtml(book: Book): string
  {
    BookRowOpen + EscapeHtml(book.author) + BookCellBreak + EscapeHtml(book.bookName) + BookRowClose
  }

  /** The rows of all books, in order. */
  function BooksHtml(books: seq<Book>): string
  {
    ConcatMap(BookRowHtml, books)
  }

  /** A non-empty book list renders to markup that starts a new line. */
  lemma BooksHtmlShape(books: seq<Book>)
    ensures BooksHtml(books) == "" <==> books == []
    ensures books != [] ==> BooksHtml(books)[0] == '\n'
  {
    ConcatMapHead(BookRowHtml, books);
  }

  const NoBooksRow: string := "<div class=\"table-row table-nodata\">" + "No Books found" + "</div>"

  /** The markup `updateBooksList` assigns, or `None` when the metadata or
      its book list is missing and it returns without touching the page. */
  function BooksListView(metadata: Option<BooksMetadata>): Option<string>
  {
    if metadata.None? || metadata.value.books.None? then None
    else
      var books := metadata.value.books.value;
      Some(if |books| == 0 then NoBooksRow else BooksHtml(books))
  }

  /** `updateBooksList`, appending one row per book. */
  method BooksListHtml(metadata: Option<BooksMetadata>) returns (html: Option<string>)
    ensures html == BooksListView(metadata)
  {
    if metadata.None? || metadata.value.books.None? {
      return None;
    }
    var books := metadata.value.books.value;
    var booksHtml := "";
    var i := 0;
    while i < |books|
      invariant 0 <= i <= |books|
      invariant booksHtml == BooksHtml(books[..i])
    {
      assert books[..i + 1][..i] == books[..i];
      booksHtml := booksHtml + BookRowHtml(books[i]);
      i := i + 1;
    }
    assert books[..i] == books;
    if |books| == 0 {
      booksHtml := NoBooksRow;
    }
    return Some(booksHtml);
  }

  /** Each part of the template opens two tags. */
  lemma BookTemplateTags()
    ensures multiset(BookRowOpen)['<'] == 2
    ensures multiset(BookCellBreak)['<'] == 2
    ensures multiset(BookRowClose)['<'] == 2
  {
    BreakTags();
    TagTags();
  }

  lemma BreakTags()
    ensures multiset(Break4)['<'] == 0 && multiset(Break6)['<'] == 0 && multiset(Break8)['<'] == 0
  {
  }

  lemma TagTags()
    ensures multiset("<tr>")['<'] == 1 && multiset("</tr>")['<'] == 1
    ensures multiset("<td>")['<'] == 1 && multiset("</td>")['<'] == 1
  {
  }

  lemma BookRowMarkup(book: Book)
    ensures multiset(BookRowHtml(book))['<'] == 6
  {
    BookTemplateTags();
    EscapeHtmlSafe(book.author);
    EscapeHtmlSafe(book.bookName);
    assert multiset(EscapeHtml(book.author))['<'] == 0;
    assert multiset(EscapeHtml(book.bookName))['<'] == 0;
  }

  /** Book texts cannot add markup: the books table holds exactly the six
      tag openings of each row's template. */
  lemma {:induction false} BooksMarkupFixed(books: seq<Book>)
    ensures multiset(BooksHtml(books))['<'] == 6 * |books|
  {
    if books != [] {
      var init := books[..|books| - 1];
      BooksMarkupFixed(init);
      BookRowMarkup(books[|books| - 1]);
    }
  }

  /** The books table is left alone exactly when the metadata or its list is
      missing, and shows the placeholder exactly when the list is empty. */
  lemma BooksListShape(metadata: Option<BooksMetadata>)
    ensures BooksListView(metadata).None? <==> metadata.None? || metadata.value.books.None?
    ensures BooksListView(metadata) == Some(NoBooksRow) <==>
      metadata.Some? && metadata.value.books == Some([])
  {
    assert NoBooksRow[0] == '<';
  }
}
