# Trivia API backend, modelled in Dafny

This project models the request handlers of the trivia quiz backend
(`projects/02_trivia_api/starter/backend/flaskr/__init__.py`). The database is
replaced by an in-memory store: the question table is an ordered
`seq<Question>` and the category table is a `seq<Category>`, both in the order
the unordered `query.all()` calls return them. Each handler either returns its
JSON payload as a datatype or fails with the HTTP error it aborts with
(`Errors.Result`).

Modules:

- `Errors` (errors.dfy): the failure kinds and the five registered error handlers. Each handler turns a status code into `{success: false, error: code, message: text}`.
- `Slicing` (slicing.dfy): Python's `s[i:j]` with negative and clamped bounds, and the ten-per-page window `start = (page - 1) * 10`, `end = start + 10`.
- `Filtering` (filtering.dfy): the `filter(...).all()` queries, as one order-preserving filter. The list comprehensions that call `format()` are maps, not filters. A `Question` record stands for its own `format()`, and `Models.CategoryTypes` gives the category types.
- `Text` (text.dfy): `ilike('%term%')` as ASCII case folding plus substring search.
- `Models` (models.dfy): `Question`, `Category`, and the request field type `Field` (`Blank` for `""`, or a number).
- `Handlers` (handlers.dfy): the read-only endpoints as functions: GET /categories, GET /questions, search, GET /categories/<id>/questions. POST /quizzes is a method, because it picks a question nondeterministically.
- `Store` (store.dfy): the class `QuestionStore`. Its methods `DeleteQuestion` and `AddQuestion` reassign the `questions` field, as DELETE /questions/<id> and POST /questions do. `nextId` stands for the table's serial id sequence.
- `Scenarios` (scenarios.dfy): request sequences against one store: delete twice, create then delete, and delete then create.

Three behaviours of the handlers worth noting:

- The replies of GET /questions, the search, GET /categories/<id>/questions and POST /quizzes carry no `success` key. Only GET /categories, the delete and the create include `success: true`.
- A negative `page` is not rejected. Python's slice `questions[start:end]` counts negative bounds from the end. So page -1 returns a window near the end of the list, while page 0 is always 404. The model keeps this behaviour (`Slicing.Page`).
- For a non-zero quiz category, `one_or_none()` raises when several categories share the id. That surfaces as 500. The model keeps this branch, even though unique primary keys make it unreachable from a valid store.

## Model

| member | source | states |
|---|---|---|
| `Errors.HandlerFor` | projects/02_trivia_api/starter/backend/flaskr/__init__.py:214-252 | exactly the codes 400, 404, 405, 422 and 500 have a registered handler, and each handler's kind has that code |
| `Errors.HandleAbort` | projects/02_trivia_api/starter/backend/flaskr/__init__.py:214-252 | aborting with a registered code gives `success: false`, `error` equal to the code, status equal to the code, and the kind's fixed message; other codes get no handler |
| `Errors.HandlerForCode` | projects/02_trivia_api/starter/backend/flaskr/__init__.py:214-252 | `abort(Code(e))` reaches the handler for `e` and yields `e`'s envelope (code and message round trip) |
| `Errors.ErrorsDistinguishable` | projects/02_trivia_api/starter/backend/flaskr/__init__.py:214-252 | two different failure kinds differ in both code and message |
| `Slicing.Page` | projects/02_trivia_api/starter/backend/flaskr/__init__.py:54-59 | for page >= 1 the window is the elements at positions [(page-1)*10, min(page*10, n)); page 0 is empty; a negative page takes the window counted back from the end; never more than ten |
| `Slicing.PageEmptyIff` | projects/02_trivia_api/starter/backend/flaskr/__init__.py:57-61 | a positive page is empty exactly when it starts at or past the end of the list |
| `Slicing.PageOf` | projects/02_trivia_api/starter/backend/flaskr/__init__.py:57-59 | the element at position i is shown on page i/10 + 1, at position i mod 10 |
| `Slicing.FirstPagesArePrefix` | projects/02_trivia_api/starter/backend/flaskr/__init__.py:57-59 | pages 1..k, concatenated, are exactly the first min(10k, n) elements: no gap, no overlap, list order |
| `Filtering.Filter` | projects/02_trivia_api/starter/backend/flaskr/__init__.py:160-162 | the result holds exactly the elements of the input that satisfy the condition, and is no longer than the input |
| `Filtering.FilterAppend` | projects/02_trivia_api/starter/backend/flaskr/__init__.py:161-166 | filtering keeps store order: it distributes over concatenation |
| `Filtering.FilterShrinks` | projects/02_trivia_api/starter/backend/flaskr/__init__.py:196-199 | narrowing the condition so that one more kept element is rejected strictly shrinks the result |
| `Filtering.FilterDropsOne` | projects/02_trivia_api/starter/backend/flaskr/__init__.py:78-81 | removing one rejected element between kept ones leaves the others, in order |
| `Text.Contains` | projects/02_trivia_api/starter/backend/flaskr/__init__.py:106-108 | true exactly when the term occurs at some position of the text |
| `Text.MatchIgnoresCase` | projects/02_trivia_api/starter/backend/flaskr/__init__.py:106-108 | upper- or lower-casing the term, or upper-casing the text, does not change whether it matches |
| `Text.SubstringIsFound` | projects/02_trivia_api/starter/backend/flaskr/__init__.py:106-108 | any piece of the text, as written or upper-cased, is found by the search |
| `Text.EmptyTermMatchesAll` | projects/02_trivia_api/starter/backend/flaskr/__init__.py:106-108 | the empty term (`'%%'`) matches every question |
| `Models.FirstWithId` | projects/02_trivia_api/starter/backend/flaskr/__init__.py:78 | none exactly when no question has the id; otherwise the first position whose question has that id |
| `Handlers.GetCategories` | projects/02_trivia_api/starter/backend/flaskr/__init__.py:34-38 | always succeeds, even on an empty table, with every category's type in store order |
| `Handlers.ListQuestions` | projects/02_trivia_api/starter/backend/flaskr/__init__.py:52-67 | 404 exactly when the page window is empty (page past the end, empty store, page 0); otherwise the questions at [(page-1)*10, min(page*10, n)), `total_questions` = n, all category types, `current_Category` = 0 |
| `Handlers.SearchQuestions` | projects/02_trivia_api/starter/backend/flaskr/__init__.py:100-117 | every returned question is stored and contains the term ignoring case; the page is the same ten-wide window over all matches; `total_questions` counts all matches; 404 when the page is empty, including zero matches |
| `Handlers.SearchFindsEveryMatch` | projects/02_trivia_api/starter/backend/flaskr/__init__.py:106-111 | every stored question that matches the term appears on some successful page of the search |
| `Handlers.EmptySearchIsListing` | projects/02_trivia_api/starter/backend/flaskr/__init__.py:100-117 | searching for "" succeeds on the same pages as the listing, with the same questions and total |
| `Handlers.QuestionsByCategory` | projects/02_trivia_api/starter/backend/flaskr/__init__.py:158-170 | 404 exactly when no category has the id or no question has that category; otherwise exactly that category's questions in store order, `total_questions` = all questions, `current_Category` = the id |
| `Handlers.Play` | projects/02_trivia_api/starter/backend/flaskr/__init__.py:183-208 | fails only for a non-zero category not held by exactly one row (404 if none, 500 if several); otherwise `{false, false}` exactly when no stored question is unasked and in the category; a returned question is stored, unasked, in the category when one is given, and its answer is returned |
| `Handlers.QuizProgress` | projects/02_trivia_api/starter/backend/flaskr/__init__.py:186-199 | adding the returned id to `previous_questions` strictly shrinks the eligible set, so a quiz ends after at most n questions |
| `Handlers.QuizExhausted` | projects/02_trivia_api/starter/backend/flaskr/__init__.py:200-204 | once every stored id has been asked, no question is eligible |
| `Store.RemoveById` | projects/02_trivia_api/starter/backend/flaskr/__init__.py:78-81 | when no other position holds the id, removing it drops exactly that position and keeps the rest in order |
| `Store.QuestionStore.DeleteQuestion` | projects/02_trivia_api/starter/backend/flaskr/__init__.py:76-85 | 422 exactly when the id is absent, with the table unchanged; otherwise `{success: true, deleted: id}`, one fewer question, every other question kept in order; afterwards the id is absent; ids stay unique |
| `Store.QuestionStore.AddQuestion` | projects/02_trivia_api/starter/backend/flaskr/__init__.py:97-137 | a search answers `SearchQuestions` and changes nothing; a create with a field equal to "" or a refused insert is 400 with the table unchanged; otherwise exactly one question is appended under the serial's next id, which is returned, and the serial advances; the serial moves only then, so no stored question has that id |
| `Scenarios.DeleteTwice` | projects/02_trivia_api/starter/backend/test_flaskr.py:54-67 | deleting a stored id succeeds with `deleted = id`, and deleting it again is 422 |
| `Scenarios.CreateThenDelete` | projects/02_trivia_api/starter/backend/flaskr/__init__.py:76-137 | creating a question, then deleting the id it returned, succeeds and restores the question table exactly |
| `Errors.Code` | projects/02_trivia_api/starter/backend/flaskr/__init__.py:214-252 | each failure kind's status code is an HTTP error code (400-599), and only the internal error is a server-side (5xx) code |
| `Errors.Message` | projects/02_trivia_api/starter/backend/flaskr/__init__.py:214-252 | each handler's fixed message is a non-empty phrase of lower-case words |
| `Slicing.Slice` | projects/02_trivia_api/starter/backend/flaskr/__init__.py:59 | Python's `s[i:j]`: with bounds 0 <= i <= j it is the clamped slice; with negative bounds i <= j < 0 it counts both back from the end; with j <= i on one side of zero it is empty; never longer than s |
| `Text.ContainsIgnoringCase` | projects/02_trivia_api/starter/backend/flaskr/__init__.py:106-108 | `ilike('%term%')`: true exactly when the lower-cased term occurs at some position of the lower-cased text |
| `Models.CategoryTypes` | projects/02_trivia_api/starter/backend/flaskr/__init__.py:65 | the `format()['type']` comprehension: one entry per category, in store order, each that category's type |
| `Handlers.Hits` | projects/02_trivia_api/starter/backend/flaskr/__init__.py:106-108 | the search query: exactly the stored questions whose text contains the term ignoring case, never more than are stored |
| `Handlers.Eligible` | projects/02_trivia_api/starter/backend/flaskr/__init__.py:196-199 | the quiz query's condition: accepts a question exactly when its id is not in `previous_questions` and, for a non-zero category, it is in that category |
| `Handlers.Pool` | projects/02_trivia_api/starter/backend/flaskr/__init__.py:189-199 | the quiz queries before the random pick: exactly the stored questions not yet asked and in the category when it is non-zero (any category for 0) |
| `Store.HasBlankField` | projects/02_trivia_api/starter/backend/flaskr/__init__.py:123 | a create passes the check exactly when question and answer are non-empty and difficulty and category hold numbers |
| `Scenarios.DeleteThenCreate` | projects/02_trivia_api/starter/backend/flaskr/__init__.py:76-137 | a question created after deleting an id is never given the deleted id |

## Left out

- Flask routing, `request.get_json`, `jsonify` and the parsing of `request.args`. Handler inputs are plain parameters. A missing or non-integer `page` argument is the caller's default of 1. The `<int:id>` and `<int:category_id>` route converters do not match negative numbers. So `DELETE /questions/-1` gets a routing 404, never the 422 that `DeleteQuestion(-1)` returns.
- CORS setup. `after_request` is defined but never registered, so it has no effect and is not modelled.
- Missing keys in the JSON body. The resulting `KeyError` escapes the handler and becomes a 500. Also left out: a request with no JSON body at all. Then `get_json()` yields `None`, and the handler either raises a `TypeError` (a 500) or Flask itself answers 400 or 415, depending on the Flask version.
- The database and the ORM: `format()`, `insert()`, `delete()`, query execution and transactions. `query.all()` without `ORDER BY` is modelled as store order. A newly created question is appended at the end.
- `Store.QuestionStore.AddQuestion`: the insert's outcome is the parameter `dbAccepts`. Why the database refuses an insert (a foreign-key violation, a type error) is not modelled. The contract keeps `nextId` unchanged on a refused insert. This is a simplification: a database sequence is consumed by a failed insert too. Either way, no id is ever issued twice.
- `Models.Field`: a `difficulty` or `category` sent as a non-empty string is not representable. The database's coercion of such strings to integers is not modelled.
- `Handlers.Play`: the uniform distribution of `order_by(func.random())` is not modelled. The pick is a nondeterministic choice from the eligible questions, so only membership and exclusion are stated. SQL's handling of an empty `previous_questions` list in `NOT IN` is taken to exclude nothing.
- `Text.ContainsIgnoringCase`: the `%` and `_` wildcards and backslash escapes inside the search term are not modelled, nor the database collation. Matching is ASCII lower-casing plus substring containment.
- Concurrent requests. Each operation runs alone on the store.
