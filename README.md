# BookList controller — a Dafny model

This project models the decision logic of the BookList view controller of a
SAPUI5 book-library screen (`webapp/controller/BookList.controller.js`). The
screen shows the Books collection of an OData service in a table. A search form
filters the table, a sort dialog sorts it, and insert and update dialogs edit one
book before it is sent to the service. Three Dafny modules follow the parts of
the controller:

- `Books` (`books.dfy`): the Book record and `validateBook`. Validation runs nine
  checks in a fixed order and the first one that rejects picks the error key.
  The counts are kept as `parseInt` reads them (`ParsedInt`: an integer or NaN).
  A comparison with NaN is false in JavaScript, so a non-numeric count passes all
  three numeric checks; the lemma `NaNCountsPass` states when such a book validates.
- `Filters` (`filters.dfy`): the filter list `onSearchButtonPressed` builds by
  conditional `push`. `IsFilterList` states what the list must be. `BuildFilters`
  is proved to meet it, and `FilterListUnique` proves that `IsFilterList` fixes
  the list completely.
- `BookList` (`controller.dfy`): the controller as a class. It holds `this.book`,
  the two dialogs, the filters and sorter installed on the table binding, and a
  record of the service requests and toasts issued. The requests are recorded as
  intents. Their asynchronous outcome is not modelled. The class invariant
  `Valid()` says that every create or update request carried a book that passes
  validation, and every handler preserves it.

The screen's UI state is passed to the handlers as parameters: the search inputs,
the selected table rows (`Context`: binding path and row data) and the sort
choice. Date conversion depends on the DateFormat library and the local time zone,
so it is a value the controller is built with (`DateCodec`). Its `display`
renders a row's date as `dd/MM/yyyy` text. Its `epochMillis` parses such text to
epoch milliseconds, or gives `None` when the parser returns null.

Where the code may surprise a reader, the model follows the code:
- Update, delete and checkout act whenever at least one row is selected; update
  and delete then use the first selected row. None of them requires exactly one
  row.
- `!aSelContext.length == 0` in `onCheckoutBook` reads as `(!length) == 0`. That
  is true exactly when the selection is non-empty, which is what the model uses.
- When validation passes but the date text does not parse, `getTime()` on null
  throws. `saveBook` and `updateBook` then stop before changing anything.
- `updateBook` with an empty selection throws at `aSelContexts[0].getPath()`.
  By then it has already rewritten `this.book`'s date, so the model converts the
  date but issues no request and leaves the dialog open.
- Calling `close()` on a dialog that was never created throws. It is the
  handler's last statement, so the state stays as it was (`Close`).

## Model

| member | source | states |
|---|---|---|
| `Books.Validate` | webapp/controller/BookList.controller.js:220-258 | validateBook: a reported check rejects the book; an accepted book is rejected by no check |
| `Books.MessageKey` | webapp/controller/BookList.controller.js:223-255 | each check's toast key, one of the nine `…Error` keys |
| `Books.MessageKeyInjective` | webapp/controller/BookList.controller.js:223-255 | distinct checks show distinct keys, so the toast names the failing check |
| `Books.Less` | webapp/controller/BookList.controller.js:246-254 | `parseInt(x) < parseInt(y)`: false whenever either side is NaN, the integer order otherwise |
| `Books.ValidateOkIff` | webapp/controller/BookList.controller.js:220-258 | validation accepts a book exactly when the ISBN has 1 to 13 characters, Title, Author, DatePublished and Language are non-empty, and every numeric count is ≥ 0 with TotalNumber ≥ AvailableNumber (NaN counts unconstrained) |
| `Books.ValidateFirstFailureWins` | webapp/controller/BookList.controller.js:222-257 | validation reports check k exactly when k rejects the book and every check earlier in the fixed order passes (first failure wins, one key) |
| `Books.FirstRejectedSound` | webapp/controller/BookList.controller.js:222-258 | running checks in order succeeds exactly when no check rejects; a reported check rejects and all earlier ones pass |
| `Books.FirstRejectedAt` | webapp/controller/BookList.controller.js:222-257 | a rejecting check preceded only by passing checks is the one reported |
| `Books.ValidatedCountsInRange` | webapp/controller/BookList.controller.js:246-258 | a book that passes validation with numeric counts has 0 ≤ AvailableNumber ≤ TotalNumber |
| `Books.NaNCountsPass` | webapp/controller/BookList.controller.js:246-257 | a NaN count never makes a numeric check reject, so the book validates once its texts pass and the other count is not negative |
| `Books.EmptyIsbnReportedFirst` | webapp/controller/BookList.controller.js:222-233 | an empty ISBN together with an empty Title yields isbnEmptyError |
| `Books.TotalBelowAvailableReported` | webapp/controller/BookList.controller.js:254-257 | TotalNumber 5 with AvailableNumber 10, texts valid, yields totalNumberError |
| `Books.EmptyBookRejected` | webapp/controller/BookList.controller.js:210-224 | the book resetBook leaves fails validation with isbnEmptyError |
| `Books.Rank` | webapp/controller/BookList.controller.js:222-257 | each check has one position in the fixed check order |
| `Books.WireDate` | webapp/controller/BookList.controller.js:147-154 | the `/Date(ms)/` wire token is never empty |
| `Books.WireDateKeepsValid` | webapp/controller/BookList.controller.js:165-168 | converting DatePublished to the wire token after validation keeps the book valid |
| `Filters.BuildFilters` | webapp/controller/BookList.controller.js:41-64 | the list holds one Contains filter per non-empty text input and the BT date filter exactly when both dates are set, in the order ISBN, Author, Title, date, Language, nothing else, at most 5 entries; the warning is raised exactly when the date range is incomplete |
| `Filters.FilterListAtMostFive` | webapp/controller/BookList.controller.js:41-64 | a filter list has at most five entries |
| `Filters.FilterListOfEmptyInputs` | webapp/controller/BookList.controller.js:41-65 | all-empty inputs give the empty filter list |
| `Filters.FilterListUnique` | webapp/controller/BookList.controller.js:41-64 | the inputs determine the filter list: two lists meeting its description are equal |
| `BookList.Close` | webapp/controller/BookList.controller.js:201-208 | closing never leaves a dialog open and never creates one |
| `BookList.BookListController.constructor` | webapp/controller/BookList.controller.js:13-26 | the initial book has empty texts, TotalNumber "" (NaN) and AvailableNumber 0; no dialog, filter, sorter, request or toast yet; the date codec is the one given |
| `BookList.BookListController.OnSearchButtonPressed` | webapp/controller/BookList.controller.js:32-66 | the installed filters are the filter list of the inputs; the date warning toast is added exactly when the range is incomplete, and the other filters still apply |
| `BookList.BookListController.OnConfirmSort` | webapp/controller/BookList.controller.js:80-92 | exactly one sorter, on the chosen key and direction, replaces any earlier sort |
| `BookList.BookListController.OnCheckoutBook` | webapp/controller/BookList.controller.js:94-102 | with no selection the noSelectionCheckoutError toast, otherwise the "Merge!" toast; nothing else changes |
| `BookList.BookListController.ResetBook` | webapp/controller/BookList.controller.js:210-218 | the five texts become "" and both counts 0; the result fails validation with isbnEmptyError; nothing else changes |
| `BookList.BookListController.OnInsertBook` | webapp/controller/BookList.controller.js:104-114 | the book is reset and the insert dialog is open |
| `BookList.BookListController.OnUpdateBook` | webapp/controller/BookList.controller.js:116-134 | with no selection only the noSelectionUpdateError toast; otherwise the first selected row, date rendered for display, becomes the book and the update dialog opens; no request either way |
| `BookList.BookListController.OnDeleteBook` | webapp/controller/BookList.controller.js:136-145 | with no selection only the noSelectionDeleteError toast and no request; otherwise one remove request on the first selected row's path |
| `BookList.BookListController.EditBook` | webapp/controller/BookList.controller.js:109-112 | the dialog's two-way binding writes the edited values into the book |
| `BookList.BookListController.ParseDateForCreate` | webapp/controller/BookList.controller.js:147-154 | DatePublished becomes the wire token of the parsed time, or nothing changes when the text does not parse |
| `BookList.BookListController.SaveBook` | webapp/controller/BookList.controller.js:165-180 | on a validation failure only the first failing check's toast, book, requests and dialog unchanged; on success one create request on /Books with the converted book and the insert dialog closed; every request carries a valid book |
| `BookList.BookListController.UpdateBook` | webapp/controller/BookList.controller.js:182-199 | on a validation failure only the first failing check's toast; on success one update request on the first selected row's path with the converted book and the update dialog closed; every request carries a valid book |
| `BookList.BookListController.CloseDialog` | webapp/controller/BookList.controller.js:201-208 | both dialogs are closed if they were created |

## Left out

- Date conversion (`parseDatePublishedForCreate`/`ForUpdate`): the DateFormat library, JavaScript `Date` and the time zone offset are outside the model. They are the `DateCodec` functions. The display/wire round trip is a property of that library and is not stated.
- OData `create`, `update` and `remove`: recorded as requests (operation, path and, for create and update, the book). Their success and error callbacks and the saveSuccess, saveError, updateSuccess and updateError toasts are asynchronous outcomes and are not modelled.
- MessageToast and the resource bundle: a toast is its i18n key (or literal text). The localized text is not modelled.
- `onSortButtonPressed`, fragment creation, `addDependent` and `JSONModel`/`setModel`: framework internals. A dialog is only NotCreated, Closed or Open. The framework's own filtering and sorting of the table are not modelled, only the filter and sorter lists handed to the binding.
- Aliasing: the model treats the book as a value. In the source, `getObject()` in `onUpdateBook` returns the table row's own object. `parseDatePublishedForUpdate` therefore rewrites the row's own date before `this.book` is set. Once `this.book` is that object, dialog edits change the row, and a later `resetBook` zeroes that row object. The value model does not capture this sharing.
- `parseInt`: the counts are stored as the value `parseInt` returns. How it reads text such as "12abc" (as 12) is not modelled.
- String lengths: JavaScript counts UTF-16 code units. The model counts the characters of a Dafny string.
