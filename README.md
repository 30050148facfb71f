# Asset inventory: store, query and display helpers

This project models the logic core of an IT asset inventory web application.
The backend keeps a table of assets (name, unique asset number, status,
purchase cost, optional category and employee) and an append-only history
table. It offers two implemented operations:

- `findAll`: a paged, sorted and searched listing. It reports the total number of matching rows and the number of pages.
- `create`: inserts an asset and then appends a "created" history row for it.

The frontend decides from a file name whether an attachment is an image. It
also renders the status of an asset as a capitalised, coloured badge.

Files:

- `results.dfy`: `Option` and `Result`.
- `text.dfy`: substring search and the lexicographic order on text.
- `asset_model.dfy`: the `Asset` schema (required fields, unique number, status enum and default, `DECIMAL(10,2)` cost), the history and attachment rows, and `Admit`. `Admit` is what `Asset.create` accepts, or the error it raises.
- `asset_controller.dfy`: `findAll` as functions over `seq<Asset>`; `create` as a method of the `AssetStore` class, whose fields are the two tables and their auto-increment counters.
- `asset_details.dfy`: `isImage`, the badge label and the badge colour.

Points where the model follows the code as written rather than the intended behaviour:

- Search is a plain substring match. Case-insensitive matching is intended, but the code uses `LIKE`, whose case behaviour depends on the database collation.
- `create` runs two separate inserts with no transaction. The model does not claim atomicity.
- Rows with equal sort keys come out in table order, because the sort is stable. SQL leaves that order open; when the sort column holds distinct values (`id`, `asset_number`) the order is fully determined either way.
- `page < 1` and `size < 1` are preconditions, not a validation error, because the code does not check them.

A create refused for a duplicate asset number still spends the auto-increment key it drew, as InnoDB does; the other refusals happen before a key is drawn.

The time stamp (`new Date()`) and the caller's identity (`req.userId`) are parameters of `Create`.

## Model

| member | source | states |
|---|---|---|
| AssetModel.ParseStatus | backend/modules/asset.model.js:21-22 | a status text is accepted iff it is the name of one of the four enum values, and it reads back as that value |
| AssetModel.ParseStatusName | backend/modules/asset.model.js:21-22 | every enum value's name parses back to that value |
| AssetModel.Admit | backend/modules/asset.model.js:2-28 | an insert succeeds iff name and number are present, the status (if given) is in the enum, strings fit VARCHAR(255), the cost fits DECIMAL(10,2) and the number is not yet stored; the stored row carries exactly the supplied attributes, the default status when none was given, and the next key; each of the six error kinds is returned iff its check is the first one to fail (name, number, status, string lengths, cost, duplicate) |
| AssetModel.DuplicateRefused | backend/modules/asset.model.js:7-11 | inserting an asset number that is already stored is refused |
| AssetModel.DefaultStatusApplied | backend/modules/asset.model.js:21-24 | an asset created without a status gets `available` |
| AssetModel.AppendKeepsUnique | backend/modules/asset.model.js:7-11 | appending a row whose number is not yet stored keeps the numbers unique |
| AssetModel.AdmitKeepsTableValid | backend/modules/asset.model.js:3-27 | appending an admitted row keeps every row valid and the asset numbers unique |
| Text.ContainsSound | backend/controllers/asset.controller.js:17-21 | whatever the executable search test accepts is a substring occurrence |
| Text.ContainsComplete | backend/controllers/asset.controller.js:17-21 | an occurrence of the term at any position is found by the executable test |
| Text.LexLeAntisymmetric | backend/controllers/asset.controller.js:26 | two texts that may each precede the other are equal, so text keys leave no ties between different values |
| Text.ContainsIsSubstring | backend/controllers/asset.controller.js:17-21 | the executable search test holds iff the term occurs as a contiguous substring |
| AssetController.Matching | backend/controllers/asset.controller.js:17-22 | the selected rows are exactly the matching rows of the table, each with its multiplicity; a row is kept iff it matches |
| AssetController.EmptySearchSelectsAll | backend/controllers/asset.controller.js:13-22 | an empty search term applies no condition: every row is selected, in order |
| AssetController.SearchIsSubstring | backend/controllers/asset.controller.js:17-21 | with a non-empty term, a row matches iff the term is a substring of its name or of its number |
| AssetController.InOrderTotal | backend/controllers/asset.controller.js:26 | any two rows are comparable under `ORDER BY column direction` |
| AssetController.InOrderTransitive | backend/controllers/asset.controller.js:26 | the `ORDER BY` comparison is transitive |
| AssetController.SortBySorted | backend/controllers/asset.controller.js:26 | the sort returns a permutation of its input, sorted by the comparison |
| AssetController.SortRows | backend/controllers/asset.controller.js:26 | the ordered rows are a permutation of the selected rows in which every pair respects `ORDER BY sortBy sortOrder` |
| AssetController.SortedArrangementUnique | backend/controllers/asset.controller.js:26 | when no two different rows may each precede the other, there is only one sorted arrangement of a set of rows |
| AssetController.CeilDiv | backend/controllers/asset.controller.js:39 | `Math.ceil(count / size)`: 0 when count is 0, otherwise the page count t with (t-1)*size < count <= t*size |
| AssetController.Window | backend/controllers/asset.controller.js:27-28 | `LIMIT size OFFSET offset`: at most `size` rows, row k is row offset+k of the input, and the length is the rows left after the offset, capped at `size` |
| AssetController.OrderedRowsMatch | backend/controllers/asset.controller.js:17-26 | the ordered rows are as many as the selected rows, and each is a matching row of the table |
| AssetController.FindAll | backend/controllers/asset.controller.js:11-40 | totalItems is the number of matching rows; currentPage echoes page; totalPages is the ceiling of totalItems/size; the rows are the window at offset (page-1)*size of the ordered matching rows, each joined with its category and employee names |
| AssetController.FindAllPage | backend/controllers/asset.controller.js:14-28 | a page has at most `size` rows; row k is row (page-1)*size+k of the ordered matching rows, so it matches the search and comes from the table; a page that starts inside the result is full or holds the rest |
| AssetController.DefaultStartsAtFirstRow | backend/controllers/asset.controller.js:13-14 | with the defaults page 1 and size 10 the offset is 0 |
| AssetController.TotalIndependentOfPaging | backend/controllers/asset.controller.js:24-36 | totalItems depends only on the search term, not on page, size or order |
| AssetController.DistinctKeysFixOrder | backend/controllers/asset.controller.js:17-26 | when the sort column holds distinct values, every arrangement of the matching rows that respects `ORDER BY` is the ordered result, so separate requests agree on the order |
| AssetController.UniqueColumnsHaveDistinctKeys | backend/modules/asset.model.js:7-11 | in a valid asset table `id` and `asset_number` hold distinct values, so sorting by either leaves no ties |
| AssetController.PageOfPosition | backend/controllers/asset.controller.js:14 | position k lies in the span [offset, offset+size) of page p iff p = k/size+1, so each position belongs to exactly one page |
| AssetController.PagesCoverResult | backend/controllers/asset.controller.js:14-28 | every position k of the ordered result inside a page's span appears on that page, at index k minus the page's offset; across separate requests this covers every row exactly once when they share one order, which DistinctKeysFixOrder guarantees for distinct-valued sort columns |
| AssetController.SearchFindsOnlyRow | backend/controllers/asset.controller.js:17-39 | searching a one-row table for part of that row's number returns exactly that row, with total 1 |
| AssetController.CreatedCountConcat | backend/controllers/asset.controller.js:55-61 | "created" rows of two pieces of history add up |
| AssetController.AppendKeepsTableInvariant | backend/controllers/asset.controller.js:52 | appending a valid row under the next key with an unused number keeps the asset table invariant |
| AssetController.AppendKeepsHistoryInvariant | backend/controllers/asset.controller.js:55-61 | appending a new asset and its "created" row keeps the history invariant: rows point at stored assets, keys increase, and every asset has exactly one "created" row |
| AssetController.CreateKeepsInvariant | backend/controllers/asset.controller.js:49-61 | after a successful create the tables still satisfy the store invariant: valid rows, unique numbers, increasing keys, history rows pointing at stored assets, and exactly one "created" row per asset |
| AssetController.AssetStore.constructor | backend/models/index.js:20-21 | the asset and history tables start empty with keys counting from 1 |
| AssetController.AssetStore.Create | backend/controllers/asset.controller.js:49-69 | the result is what the insert admits; on success the asset is appended and exactly one history row (new asset's id, "created", "Asset was created", the time, the caller) is appended, nothing else changes; on failure neither table changes, and only a duplicate-number refusal advances the asset key counter; the invariant is kept |
| AssetController.DuplicateNumberScenario | backend/controllers/asset.controller.js:49-67 | two creates with number "AST-001": the first succeeds with status available, the second fails with a duplicate error, and the tables hold that one asset and one "created" row; the refused insert spent key 2, so the next asset key is 3 |
| AssetDetails.ToLower | frontend/src/components/assets/AssetDetails.js:66 | lowering keeps the length, leaves no capital letter, keeps every other character, and turns each capital into the small letter that uppercases back to it |
| AssetDetails.ToLowerIdempotent | frontend/src/components/assets/AssetDetails.js:66 | lowering twice is lowering once |
| AssetDetails.ToLowerKeepsDots | frontend/src/components/assets/AssetDetails.js:66 | the lowered name has its dots at the same positions |
| AssetDetails.SegmentStart | frontend/src/components/assets/AssetDetails.js:66 | the segment starts just past the last dot, or at 0 when there is none: no dot follows it and a dot precedes it |
| AssetDetails.SegmentStartUnique | frontend/src/components/assets/AssetDetails.js:66 | only one position has those properties |
| AssetDetails.LastSegment | frontend/src/components/assets/AssetDetails.js:66 | the extension contains no dot |
| AssetDetails.LastSegmentOfExtension | frontend/src/components/assets/AssetDetails.js:66 | the extension of `stem.ext`, with ext dot-free, is ext, whatever the stem holds |
| AssetDetails.LastSegmentWithoutDot | frontend/src/components/assets/AssetDetails.js:66 | a name without a dot is its own extension |
| AssetDetails.IsImageByExtension | frontend/src/components/assets/AssetDetails.js:65-68 | `stem.ext` is an image iff lowercased ext is one of jpg, jpeg, png, gif, bmp, webp: only the final extension counts |
| AssetDetails.LastSegmentOfLower | frontend/src/components/assets/AssetDetails.js:66 | lowering the name and then taking the extension equals taking the extension and then lowering it |
| AssetDetails.IsImageIgnoresCase | frontend/src/components/assets/AssetDetails.js:65-68 | names equal up to case are both images or both not |
| AssetDetails.FinalExtensionExamples | frontend/src/components/assets/AssetDetails.js:65-68 | `a.png.pdf` is not an image and `a.pdf.png` is |
| AssetDetails.NoDotExamples | frontend/src/components/assets/AssetDetails.js:65-68 | a name without a dot is judged whole: `PNG` is an image and `readme` is not |
| AssetDetails.StatusLabel | frontend/src/components/assets/AssetDetails.js:91 | the label keeps the length and every character after the first, does not start with a small letter, and equals the status iff the status does not start with one |
| AssetDetails.StatusLabelKeepsLetters | frontend/src/components/assets/AssetDetails.js:91 | the label equals the status up to case |
| AssetDetails.StatusLabelIdempotent | frontend/src/components/assets/AssetDetails.js:91 | labelling a label changes nothing |
| AssetDetails.StatusLabelsOfEnum | frontend/src/components/assets/AssetDetails.js:91 | the four statuses are labelled Available, Assigned, Maintenance, Retired, all different |
| AssetDetails.BadgeColourOf | frontend/src/components/assets/AssetDetails.js:86-90 | the colour is red exactly for text other than available, assigned and maintenance |
| AssetDetails.BadgeColourOfStatus | frontend/src/components/assets/AssetDetails.js:86-90 | available is green, assigned blue, maintenance yellow, retired red, so the colour tells the four statuses apart |

## Left out

- HTTP plumbing is not modelled: routing, the auth middleware, response status codes, and the 500 path when the database fails.
- The routes `findOne`, `update`, `delete`, `uploadAttachment`, `getHistory` and `addHistoryEntry` are registered but have no implementation in the controller. Nothing of them is modelled.
- Query-string coercion is not modelled. `page` and `size` are taken as integers of at least 1; `size = 0` would make the page count Infinity.
- Search: `LIKE` wildcards (`%`, `_`) inside the term are not interpreted, and collation-dependent case folding is not modelled. The term is matched as a plain substring.
- `sortBy` is a closed set of columns. The source passes it unchecked to ORDER BY; the `createdAt`/`updatedAt` timestamp columns are not among the modelled columns.
- Text is sorted by code point. The database collation is not modelled.
- NULL sorts lowest, and an ENUM column sorts by declaration index, as in MySQL.
- Rows with equal sort keys come out in table order. SQL leaves that order open, and MySQL may order ties differently from one request to the next, so rows with equal keys can repeat or go missing across pages. Coverage of the result by its pages across separate requests is proved only for sort columns with distinct values (DistinctKeysFixOrder).
- The joined Category and Employee `name` columns are passed in as maps. Those tables are not modelled.
- `create` is not atomic in the source. The model neither claims atomicity nor models a failure between the two inserts.
- `id`, `createdAt` and `updatedAt` supplied in the request body are not modelled.
- AssetModel.Admit: only one error is reported when several constraints fail. Sequelize's aggregated validation messages are not modelled.
- AssetModel.Admit: assumes the database runs in strict mode. Over-long strings and out-of-range costs are refused, not truncated.
- AssetModel.Admit: `DECIMAL(10,2)` rounding of more than two fractional digits is not modelled. The cost arrives already in cents.
- AssetModel.Admit: the length limit of the `description` TEXT column is not modelled.
- AssetModel.Admit: an explicit `null` status is not modelled. The column does not set `allowNull: false`, so it would store NULL rather than the default; only an absent status gets `available`.
- AssetModel.Admit: the status is matched exactly. Under a case-insensitive collation MySQL would accept `AVAILABLE` and store `available`; the model refuses it with `InvalidStatus`.
- AssetModel.Admit: the foreign keys that `belongsTo` declares for `CategoryId` and `EmployeeId` (backend/models/index.js:27, 30) are not checked. A key pointing at no Category or Employee row is accepted, where the database would refuse it.
- AssetModel.Admit: uniqueness uses exact string equality. A case-insensitive collation would also treat `ast-001` and `AST-001` as duplicates.
- AssetDetails.ToLower, AssetDetails.StatusLabel: only ASCII letters are case-mapped. For `isImage` this gives the same answers as full Unicode lowering only because no listed extension contains `k`; `toLowerCase` maps the Kelvin sign U+212A to ASCII `k`, and no other non-ASCII character lowers to ASCII text alone. For the label, non-ASCII first characters (for example `ß`, which uppercases to two letters) are left unchanged.
- The upload progress percentage, date and cost formatting, and all other React components and services are not modelled: they are floating point, locale formatting, UI state and network calls.
