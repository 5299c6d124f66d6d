# Library management system — record store model

This project models the in-memory core of a small library REST API. Two
Express routers, `/users` and `/books`, work on module-level arrays of JSON
records loaded from static data at startup and updated in place by the
handlers. The users router binds the `users` array (routes/users.js:2) and
the books router binds the `books` array (routes/books.js:2). The books
router also binds `users` (routes/books.js:3), and because `require` caches
the data module, that is the same array object the users router updates.
The handlers are:

- get by id: a linear `find`;
- create: validates the required fields, then rejects a taken id, then `push`es
  a record of exactly those fields;
- update: a whole-array `map` with the shallow merge `{...rec, ...data}`,
  written back with `splice`;
- delete: `splice(indexOf(found), 1)`.

Two derived reads sit on top:

- the users router computes a user's subscription details: day numbers, the
  tier allowance, days left, the overdue flag and the fine;
- the books router lists issued books. It joins every user holding a book
  with that book, and writes the user's details onto the book record in the
  store.

Layout:

- `records.dfy` (module `Records`): a record is a `map<string, string>`. An
  `undefined` property is an absent key, and JavaScript truthiness of a
  field is "present and non-empty". The module holds the pure lookups and
  sequence transformations (`find`, the update `map`, the delete `splice`,
  the create object literal) and the lemmas about them.
- `store.dfy` (module `RecordStore`): the class `Store`. It holds one of the
  two arrays as a `seq<Record>` field and has the four handlers as methods.
  They answer a `Response` with the HTTP status and the `{success, message,
  data}` envelope, with the routers' exact messages. Both routers run the
  same handler code. They differ only in the noun of their messages
  (`User`/`Book`) and in the required fields. That difference is the
  store's `schema` (`Users.UserSchema`, `Books.BookSchema`).
- `users.dfy` (module `Users`): the subscription-details computation.
- `books.dfy` (module `Books`): the issued-books join. It is a loop that
  stamps the books in the store. The list it answers is read back from the
  store at the stamped positions, because the handler collects the store's
  own objects. So a book held by two users is listed twice, and both entries
  carry the later user's details.

Inputs from the environment are parameters:

- the initial arrays go to the `Store` constructor;
- the clock is a `Users.Clock`: the milliseconds since the epoch at each
  `new Date()` of the subscription-details handler, which are separate reads;
- `new Date(s).getTime()` is `parse: string -> Option<int>`, with `None` for
  an invalid date. NaN is carried through the arithmetic as `None` and
  compares false, as in JavaScript.

The users and books routers each hold one `Store`. The issued-books handler
reads the users array that the users router updates, so `Books.IssuedBooks`
takes two stores: the sharing holds when the caller passes the users
router's own `Store` as its `users` argument.

Two facts of the code the model keeps:

- The issued-books listing leaves `issuedBy`, `issuedDate` and `returnDate`
  on the book records in the store (routes/books.js:179-181).
  `Books.IssueAll` is the new state of the book store.
- Create accepts any `subscriptionType`; a tier other than the three adds no
  days (routes/users.js:62, 190-199).

## Model

| member | source | states |
|---|---|---|
| `Records.FindIndex` | routes/users.js:29 | `find` by id: when it returns an index, that record has the id and no earlier record does; it returns none exactly when no record has the id |
| `Records.LookupExtensional` | routes/books.js:179-181 | two records that give the same value, or the same absence, for every property are the same record |
| `Records.Assign` | routes/books.js:179-181 | assigning a property sets that field (assigning `undefined` leaves it without a value) and leaves every other field as it was |
| `Records.FindIndexSameIds` | routes/books.js:177 | a lookup by id gives the same index on two arrays whose records carry the same ids position by position |
| `Records.FindAfterAppend` | routes/users.js:69-85 | after a create with an id no record has, get-by-id finds the new record at the end |
| `Records.FindBeforeAppend` | routes/users.js:85 | a create does not change where get-by-id finds an id that was already present |
| `Records.Project` | routes/users.js:77-83 | the object literal of destructured fields holds only required fields the body has, with the body's values; when every required field is truthy it holds them all |
| `Records.ProjectShape` | routes/users.js:77-83 | the created record has exactly the required fields as keys, each with the body's value; extra body fields are dropped |
| `Records.AppendKeepsUnique` | routes/users.js:69-85 | because a taken id is rejected with 409, a successful create keeps the ids unique |
| `Records.MergeMatching` | routes/users.js:117-122 | the update `map` keeps the length, and when `data` has no `id` every record keeps its id |
| `Records.MergeMatchingShape` | routes/users.js:117-122 | the update keeps length and order and leaves records with other ids unchanged; a matching record has the union of its keys and `data`'s, takes `data`'s values and keeps the fields `data` does not name |
| `Records.MergeEmptyIsIdentity` | routes/users.js:117-123 | an update with the empty object `{}` leaves the array unchanged |
| `Records.FindAfterMerge` | routes/users.js:117-123 | when `data` does not change the id, get-by-id still finds the updated record at the same position |
| `Records.MergeMayBreakUnique` | routes/users.js:117-123 | the update does not guard ids: updating id "1" with `{id: "2"}` turns an array with unique ids into one with two records with id "2" |
| `Records.RemoveAt` | routes/users.js:153 | `splice(i, 1)` shortens the array by one and removes exactly record `i` from its multiset of records |
| `Records.RemoveAtShape` | routes/users.js:152-153 | `splice(i, 1)` shortens the array by one; the records before `i` stay where they are and those after it move down by one, in order |
| `Records.FindAfterRemove` | routes/users.js:141-153 | with unique ids, get-by-id of a deleted id finds nothing afterwards (404) |
| `Records.RemoveKeepsUnique` | routes/users.js:152-153 | a delete keeps the ids unique |
| `RecordStore.Store.constructor` | routes/users.js:2 | the store starts out holding the array loaded at startup |
| `RecordStore.Store.Get` | routes/users.js:27-41 | status 200 with the first record having the id, or 404 with "User not found for id: <id>" exactly when no record has it (books.js:28-41 is the same code with "Book") |
| `RecordStore.Store.Create` | routes/users.js:57-92 | a falsy required field gives 400 and no change; a taken id then gives 409 and no change; otherwise the array becomes the old one plus exactly the required-field record, 201 echoes it, get-by-id finds it at the new end, and unique ids stay unique (books.js:58-92 is the same code with the book fields) |
| `RecordStore.Store.Update` | routes/users.js:101-130 | a missing `data` gives 400 and an unknown id 404, both before any change; otherwise every record with the id becomes `rec + data`, all others stay, and 200 answers the whole new array (books.js:101-130 is the same code) |
| `RecordStore.Store.Delete` | routes/users.js:139-160 | an unknown id gives 404 and no change; otherwise exactly the first record with the id is removed, the length drops by one, the rest keep their order, 200 answers the remaining array, and with unique ids the id is gone (books.js:139-160 is the same code) |
| `Users.CreatedUserShape` | routes/users.js:59-83 | a created user is exactly `{id, name, email, subscriptionType, subscriptionDate}` from the body |
| `Users.DayNumber` | routes/users.js:186 | `Math.ceil(ms / 86400000)`: the result `d` is the one day number with `(d - 1) * 86400000 < ms <= d * 86400000` |
| `Users.DayNumberMonotonic` | routes/users.js:186 | a later instant never has an earlier day number |
| `Users.DayNumberShift` | routes/users.js:186 | moving an instant by whole days moves its day number by as many days |
| `Users.DayOf` | routes/users.js:179-188 | `getDateInDays` is NaN exactly when it is given a truthy value that does not parse; a truthy value that parses to `ms` gives the day number of `ms`; a falsy value gives the day of the clock read |
| `Users.TierOffset` | routes/users.js:190-199 | the tier adds 0, 90, 180 or 365 days, and 0 exactly when the tier is none of Basic, Standard and Premium |
| `Users.Details` | routes/users.js:201-215 | `returnDate` is "Book is overdue" exactly when `daysLeftForReturn` is a negative number |
| `Users.GetSubscriptionDetails` | routes/users.js:169-221 | 404 with "User not found for id: <id>" for an unknown id; otherwise 200 with the details of the first user having the id |
| `Users.SubscriptionDaysLeftByTier` | routes/users.js:190-211 | days left = start day + 90 (Basic), 180 (Standard), 365 (Premium) or 0 (any other or no tier) − today; NaN exactly when the start date is invalid |
| `Users.OverdueAndFine` | routes/users.js:201-214 | `returnDate` is "Book is overdue" exactly when the return day is before today, and otherwise the return day; fine 0 when not overdue, 200 when overdue and the expiry day is not after today, 100 when overdue otherwise (also for a NaN expiry); days left for return = return day − today |
| `Users.FineValues` | routes/users.js:214 | the fine is 0, 100 or 200, and it is 0 exactly when the book is not overdue |
| `Users.NoReturnDateIsDueToday` | routes/users.js:179-202 | with no (truthy) `returnDate`, when its clock read and today's fall in the same day, the return day is today: 0 days left for return, not overdue, fine 0 |
| `Users.NoReturnDateDaysLeft` | routes/users.js:179-211 | with no (truthy) `returnDate`, the days left for return are the day of its clock read minus today's, never positive when the clock does not run backwards |
| `Users.NoReturnDateOverdueAcrossMidnight` | routes/users.js:179-214 | the clock is read separately at lines 201 and 202: a user with no return date and no subscription fields, read just before and just after midnight, is "Book is overdue" with −1 days left and fine 200 |
| `Users.DetailsKeepUserFields` | routes/users.js:206-215 | the answer carries every user field except those a computed field replaces, with its value unchanged |
| `Users.BasicSubscriberTwoHundredDaysIn` | routes/users.js:190-214 | a Basic user who subscribed 200 days ago and has no return date, with both clock reads in the same day, has −110 subscription days left, 0 days left for return and no fine |
| `Books.CreatedBookShape` | routes/books.js:60-85 | a created book is exactly `{id, title, author, year}` from the body |
| `Books.Issuing` | routes/books.js:171-173 | the filter keeps only users with a truthy `issuedBook`, and never more users than it was given (order and multiplicity: `Books.IssuingAppend`, `Books.IssuingOne`) |
| `Books.IssuingMembers` | routes/books.js:171-173 | a user is kept exactly when it is one of the users and has a truthy `issuedBook` |
| `Books.IssuingOne` | routes/books.js:171-173 | a single user is kept exactly when it has a truthy `issuedBook` |
| `Books.IssuingAppend` | routes/books.js:171-173 | the filter of `a + b` is the filter of `a` followed by the filter of `b`, so it keeps the users in their order and each as often as it occurs |
| `Books.NothingIssued` | routes/books.js:171-192 | the list is empty, so the answer is 404, exactly when no user has a truthy `issuedBook` |
| `Books.Stamp` | routes/books.js:179-181 | the stamped book has `issuedBy` = the user's name, and `issuedDate` and `returnDate` from the user; every other field is unchanged |
| `Books.StampOverwrites` | routes/books.js:179-181 | stamping a book a second time wipes out every trace of the first stamp |
| `Books.Held` | routes/books.js:177 | the position of the book the user holds, which has the held id; none exactly when no book has it |
| `Books.IssueAll` | routes/books.js:176-184 | stamping keeps the number of books and the id at every position |
| `Books.LastHolder` | routes/books.js:176-184 | the last user, in filter order, holding a given book; none exactly when no user holds it |
| `Books.Issued` | routes/books.js:177-183 | the list has one entry per user holding a book, and entry `j` is a book whose id is the one user `j` holds |
| `Books.IssuedBooks` | routes/books.js:169-199 | with every held book present, the book store becomes `IssueAll` of the old books over the filtered users; 404 "No books have been issued yet" with the books unchanged when no user holds a book; otherwise 200 with one entry per user holding a book, in user order, read from the stamped store |
| `Books.IssueStep` | routes/books.js:176-183 | one turn of the `forEach`: the lookup on the books as stamped so far finds the same book as on the original books, and stamping it extends the result by that user |
| `Books.IssueAllAt` | routes/books.js:176-184 | afterwards each book is its original record stamped with the last user holding it, or the original record when nobody holds it |
| `Books.IssueAllChangesOnlyIssuance` | routes/books.js:176-184 | the join keeps the number, order and ids of the books, changes no field other than `issuedBy`, `issuedDate` and `returnDate`, and leaves books nobody holds untouched |
| `Books.IssuedEntry` | routes/books.js:176-184 | entry `j` is the book with the id user `j` holds, carrying the details of the last user holding that book |
| `Books.IssuedEntryOwnHolder` | routes/books.js:179-183 | when no other user holds the same book, entry `j` carries user `j`'s name, issue date and return date |
| `Books.IssuedSharedBook` | routes/books.js:177-183 | two users holding the same book give two identical entries |

## Left out

- The list handlers `GET /` (routes/users.js:13-18, routes/books.js:14-19) are not modelled. They answer the array as it is and change nothing.
- index.js is not part of this model. It holds the Express app, the JSON body parser, the welcome route and `listen`. It never mounts either router.
- HTTP routing and `req`/`res` handling are left out. A handler's outcome is the `Response` value. Route order is not modelled: `/issued-books/for-users` (routes/books.js:169) and `/subscription-details/:id` (routes/users.js:169) are registered after `/:id` (routes/books.js:28, routes/users.js:27), and they still reach their own handlers because `/:id` matches a single path segment.
- Loading `data/users.json` and `data/books.json` is left out. The initial arrays are the `Store` constructor's argument.
- Date parsing and the clock are parameters (`parse`, `Clock`). The range limit of JavaScript dates is not modelled.
- Field values are strings. Numbers, nested objects and arrays in records are not modelled.
- Update's `data` is an object of string fields. A truthy `data` that is not an object (a string is spread character by character) is not modelled.
- The order of keys in the JSON objects is not modelled. Records are maps.
- `Books.IssuedBooks`: requires that every book a user holds exists. For a dangling `issuedBook` the handler dereferences `undefined`. It throws after stamping the books of the earlier users, and Express answers 500. Neither the partial update nor the 500 is modelled.
- Object identity is modelled through positions. The issued list is read from the store at the stamped positions. Update's `splice` replaces the array's contents, and the objects' identity is not observable after that.
- `calculateSubscriptionExpiryDate` (routes/users.js:224-241) is not modelled. Nothing calls it.
- The filter-based delete in comments (routes/users.js:148-151, routes/books.js:148-151) is not modelled.
- Concurrency is left out. Each handler runs to completion on the single event loop.
