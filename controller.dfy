/** The BookList view controller: the book being edited, the insert and update
    dialogs, the filters and sorter installed on the table's item binding, and a
    record of the service requests and toasts it has issued. */
module BookList {
  import opened Books
  import opened Filters

  /** A dialog fragment: created lazily on first use, then opened and closed. */
  datatype Dialog = NotCreated | Closed | Open

  /** `dialog.close()`: closes a created dialog. On a dialog that was never
      created the call throws as the handler's last statement, which leaves the
      state as it was. */
  function Close(d: Dialog): (r: Dialog)
    ensures r != Open
    ensures (r == NotCreated) <==> (d == NotCreated)
  {
    if d == NotCreated then NotCreated else Closed
  }

  /** A selected table row: its binding path and the Book it shows. */
  datatype Context = Context(path: string, row: Book)

  /** A request issued to the remote Books collection (the outcome is not modelled). */
  datatype ServiceCall =
    | Create(path: string, book: Book)
    | Update(path: string, book: Book)
    | Remove(path: string)

  /** A toast: an i18n key looked up in the resource bundle, or a literal text. */
  datatype Toast = Localized(key: string) | Literal(text: string)

  /** `new Sorter(path, descending)`. */
  datatype Sorter = Sorter(path: string, descending: bool)

  /** The date conversions the DateFormat library and the local time zone
      provide: `display` renders the row's date as dd/MM/yyyy text, and
      `epochMillis` parses that text to epoch milliseconds adjusted by the time
      zone offset, or None when the parser returns null. */
  datatype DateCodec = DateCodec(display: string -> string, epochMillis: string -> Option<int>)

  /** The service only ever receives books that pass validation. */
  predicate SendsValidBook(c: ServiceCall) {
    match c
    case Create(_, b) => Validate(b) == Ok
    case Update(_, b) => Validate(b) == Ok
    case Remove(_) => true
  }

  class BookListController {
    const dates: DateCodec
    var book: Book
    var newBookDialog: Dialog
    var updateBookDialog: Dialog
    var filters: seq<Filter>
    var sorters: seq<Sorter>
    var calls: seq<ServiceCall>
    var toasts: seq<Toast>

    /** Every create and update request issued so far carried a valid book. */
    ghost predicate Valid()
      reads this`calls
    {
      forall c :: c in calls ==> SendsValidBook(c)
    }

    /** onInit. */
    constructor (dates: DateCodec)
      ensures this.dates == dates
      ensures Valid()
      ensures book == InitialBook
      ensures newBookDialog == NotCreated && updateBookDialog == NotCreated
      ensures filters == [] && sorters == [] && calls == [] && toasts == []
    {
      this.dates := dates;
      book := InitialBook;
      newBookDialog, updateBookDialog := NotCreated, NotCreated;
      filters, sorters := [], [];
      calls, toasts := [], [];
    }

    /** onSearchButtonPressed: installs the filter list built from the inputs and
        warns when the date range is incomplete; the other filters still apply. */
    method OnSearchButtonPressed(inp: SearchInputs)
      modifies this`filters, this`toasts
      ensures IsFilterList(inp, filters) && |filters| <= 5
      ensures toasts == old(toasts) +
        (if DateRangeIncomplete(inp) then [Localized("dateStartOrDateEndNotSetError")] else [])
    {
      var fs, warn := BuildFilters(inp);
      if warn {
        toasts := toasts + [Localized("dateStartOrDateEndNotSetError")];
      }
      filters := fs;
    }

    /** onConfirmSort: replaces any earlier sort by exactly one sorter. */
    method OnConfirmSort(sortKey: string, descending: bool)
      modifies this`sorters
      ensures sorters == [Sorter(sortKey, descending)]
    {
      var aSorters := [];
      aSorters := aSorters + [Sorter(sortKey, descending)];
      sorters := aSorters;
    }

    /** onCheckoutBook: only a toast, chosen by whether any row is selected. */
    method OnCheckoutBook(selection: seq<Context>)
      modifies this`toasts
      ensures |selection| == 0 ==> toasts == old(toasts) + [Localized("noSelectionCheckoutError")]
      ensures |selection| != 0 ==> toasts == old(toasts) + [Literal("Merge!")]
    {
      if |selection| != 0 {
        toasts := toasts + [Literal("Merge!")];
      } else {
        toasts := toasts + [Localized("noSelectionCheckoutError")];
      }
    }

    /** resetBook: empties the five texts and zeroes both counts. */
    method ResetBook()
      modifies this`book
      ensures book == EmptyBook
      ensures Validate(book) == Err(IsbnEmpty)
    {
      book := book.(isbn := "", title := "", author := "", datePublished := "", language := "");
      book := book.(totalNumber := Int(0), availableNumber := Int(0));
      EmptyBookRejected();
    }

    /** onInsertBook: creates the insert dialog if needed, resets the book and
        opens the dialog on it. */
    method OnInsertBook()
      modifies this`book, this`newBookDialog
      ensures book == EmptyBook && newBookDialog == Open
    {
      if newBookDialog == NotCreated {
        newBookDialog := Closed;
      }
      ResetBook();
      newBookDialog := Open;
    }

    /** onUpdateBook: with no row selected only a toast; otherwise the first
        selected row, its date rendered for display, becomes the book and the
        update dialog opens on it. */
    method OnUpdateBook(selection: seq<Context>)
      modifies this`book, this`updateBookDialog, this`toasts
      ensures |selection| == 0 ==>
        && book == old(book) && updateBookDialog == old(updateBookDialog)
        && toasts == old(toasts) + [Localized("noSelectionUpdateError")]
      ensures |selection| != 0 ==>
        && book == selection[0].row.(datePublished := dates.display(selection[0].row.datePublished))
        && updateBookDialog == Open && toasts == old(toasts)
    {
      if |selection| != 0 {
        var row := selection[0].row;
        book := row.(datePublished := dates.display(row.datePublished));
        if updateBookDialog == NotCreated {
          updateBookDialog := Closed;
        }
        updateBookDialog := Open;
      } else {
        toasts := toasts + [Localized("noSelectionUpdateError")];
      }
    }

    /** onDeleteBook: with no row selected only a toast; otherwise a remove
        request for the first selected row's path. */
    method OnDeleteBook(selection: seq<Context>)
      requires Valid()
      modifies this`calls, this`toasts
      ensures Valid()
      ensures |selection| == 0 ==>
        calls == old(calls) && toasts == old(toasts) + [Localized("noSelectionDeleteError")]
      ensures |selection| != 0 ==>
        calls == old(calls) + [Remove(selection[0].path)] && toasts == old(toasts)
    {
      if |selection| != 0 {
        calls := calls + [Remove(selection[0].path)];
      } else {
        toasts := toasts + [Localized("noSelectionDeleteError")];
      }
    }

    /** The dialog's two-way binding writes the user's edits into the book. */
    method EditBook(edited: Book)
      modifies this`book
      ensures book == edited
    {
      book := edited;
    }

    /** parseDatePublishedForCreate on the controller's book: rewrites
        DatePublished as the wire token, or stops with no change when the text
        does not parse (the handler throws). */
    method ParseDateForCreate() returns (parsed: bool)
      modifies this`book
      ensures parsed <==> dates.epochMillis(old(book).datePublished).Some?
      ensures parsed ==>
        book == old(book).(datePublished := WireDate(dates.epochMillis(old(book).datePublished).value))
      ensures !parsed ==> book == old(book)
    {
      var ms := dates.epochMillis(book.datePublished);
      parsed := ms.Some?;
      if parsed {
        book := book.(datePublished := WireDate(ms.value));
      }
    }

    /** saveBook: when validation passes and the date parses, converts the date,
        issues a create request on /Books and closes the insert dialog. When
        validation fails, only the first failing check's toast is shown. */
    method SaveBook()
      requires Valid()
      modifies this`book, this`calls, this`newBookDialog, this`toasts
      ensures Valid()
      ensures Validate(old(book)).Err? ==>
        && book == old(book) && calls == old(calls) && newBookDialog == old(newBookDialog)
        && toasts == old(toasts) + [Localized(MessageKey(Validate(old(book)).check))]
      ensures Validate(old(book)) == Ok ==> toasts == old(toasts)
      ensures Validate(old(book)) == Ok && dates.epochMillis(old(book).datePublished).None? ==>
        book == old(book) && calls == old(calls) && newBookDialog == old(newBookDialog)
      ensures Validate(old(book)) == Ok && dates.epochMillis(old(book).datePublished).Some? ==>
        && book == old(book).(datePublished := WireDate(dates.epochMillis(old(book).datePublished).value))
        && calls == old(calls) + [Create("/Books", book)]
        && newBookDialog == Close(old(newBookDialog))
    {
      var verdict := Validate(book);
      if verdict == Ok {
        ghost var validated := book;
        var parsed := ParseDateForCreate();
        if parsed {
          WireDateKeepsValid(validated, dates.epochMillis(validated.datePublished).value);
          calls := calls + [Create("/Books", book)];
          newBookDialog := Close(newBookDialog);
        }
      } else {
        toasts := toasts + [Localized(MessageKey(verdict.check))];
      }
    }

    /** updateBook: when validation passes, converts the date, issues an update
        request on the first selected row's path and closes the update dialog.
        With no row selected the handler throws after the date was converted. */
    method UpdateBook(selection: seq<Context>)
      requires Valid()
      modifies this`book, this`calls, this`updateBookDialog, this`toasts
      ensures Valid()
      ensures Validate(old(book)).Err? ==>
        && book == old(book) && calls == old(calls) && updateBookDialog == old(updateBookDialog)
        && toasts == old(toasts) + [Localized(MessageKey(Validate(old(book)).check))]
      ensures Validate(old(book)) == Ok ==> toasts == old(toasts)
      ensures Validate(old(book)) == Ok && dates.epochMillis(old(book).datePublished).None? ==>
        book == old(book) && calls == old(calls) && updateBookDialog == old(updateBookDialog)
      ensures Validate(old(book)) == Ok && dates.epochMillis(old(book).datePublished).Some? ==>
        && book == old(book).(datePublished := WireDate(dates.epochMillis(old(book).datePublished).value))
        && (|selection| == 0 ==> calls == old(calls) && updateBookDialog == old(updateBookDialog))
        && (|selection| != 0 ==>
              && calls == old(calls) + [Update(selection[0].path, book)]
              && updateBookDialog == Close(old(updateBookDialog)))
    {
      var verdict := Validate(book);
      if verdict == Ok {
        ghost var validated := book;
        var parsed := ParseDateForCreate();
        if parsed && |selection| != 0 {
          WireDateKeepsValid(validated, dates.epochMillis(validated.datePublished).value);
          calls := calls + [Update(selection[0].path, book)];
          updateBookDialog := Close(updateBookDialog);
        }
      } else {
        toasts := toasts + [Localized(MessageKey(verdict.check))];
      }
    }

    /** closeDialog: closes whichever dialogs have been created. */
    method CloseDialog()
      modifies this`newBookDialog, this`updateBookDialog
      ensures newBookDialog == Close(old(newBookDialog))
      ensures updateBookDialog == Close(old(updateBookDialog))
    {
      newBookDialog := Close(newBookDialog);
      updateBookDialog := Close(updateBookDialog);
    }
  }
}
