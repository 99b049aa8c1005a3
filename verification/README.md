# Media store traversal engine, modelled in Dafny

A Dafny model of the client-side engine in `src/api/awsMediaStore.ts`. The engine
talks to a paginated, hierarchical object store (AWS Elemental MediaStore). It does five things:

- authenticates a session with a one-item listing probe;
- lists one folder by following continuation tokens (`getFiles`);
- walks a folder tree to total the count and bytes of its objects (`caluculateSizeByPath`);
- walks the tree to collect every object as an `MSFile` (`getAllFilesByPath`);
- deletes every collected object, in batches that are awaited as a unit (`deleteFilesByPath`).

The store is a finite tree of immutable values:

- `Listing` is the sequence of answers the store gives to one folder's successive listing requests.
- Each answer is a `Page` that either `Failed` (the request threw) or carries optional `Items` and an optional `NextToken`.
- The listing loops go on only while `response.NextToken` is truthy. The model's `Continues` is that test, so an empty-string token ends a listing like an absent one.
- An item's `Name` may be missing. A path built from it then reads `parent + "/undefined"`, as template interpolation renders it, and the collected `MSFile` keeps the name missing.
- A request past the end of the sequence is a failed request.
- A `FOLDER` item carries the listing of its own path, `parent + "/" + Name`.

Every walk is a pure function of this tree, so the tree also fixes which requests fail. Module layout:

| file | module | source part |
|---|---|---|
| `common.dfy` | `Common` | `Option`, `Result`, the errors an operation surfaces |
| `store.dfy` | `Store` | items, pages, listings, `MSFile`, requests, `[count, size]` totals |
| `region.dfy` | `Region` | `endpointToRegion` and the `split('.')` it relies on |
| `lister.dfy` | `Lister` | the pagination loop of `getFiles` |
| `walker.dfy` | `Walker` | `caluculateSizeByPath` and `getAllFilesByPath` |
| `deleter.dfy` | `Deleter` | the batch-and-flush loop of `deleteFilesByPath` |
| `media_store.dfy` | `MediaStore` | the session, `authenticate`, and the `client === null` guards |

Behaviour kept as written:

- `authenticate` clears the client only when the probe request throws. A probe answer without `Items` returns false but leaves the client set, so the session stays usable.
- `deleteFilesByPath` returns a boolean. It does not isolate a failed delete: `Promise.all` rejects, and the rejection ends the call. `Deleter.DeleteAll` models that as `Err(DeleteRejected)`.
- The flush test `i % 100 === 0` also fires at index 0. The first batch therefore holds one request, and the later batches hold up to 100 each. The model keeps this as written.

## Model

| member | source | states |
|---|---|---|
| Region.SplitShape | src/api/awsMediaStore.ts:21 | `split('.')` gives one more piece than there are separators, and no piece contains a separator |
| Region.JoinSplit | src/api/awsMediaStore.ts:21 | joining the pieces with the separator gives back the original endpoint string |
| Region.SplitJoin | src/api/awsMediaStore.ts:21 | splitting a join of separator-free labels gives back exactly those labels |
| Region.EndpointToRegion | src/api/awsMediaStore.ts:20-22 | a region exists exactly when the endpoint has at least three dots, and the region never contains a dot |
| Region.RegionOfLabels | src/api/awsMediaStore.ts:20-22 | for an endpoint made of dot-free labels, the region is the fourth label; with fewer than four labels there is none |
| MediaStore.Authenticate | src/api/awsMediaStore.ts:32-58 | always records the endpoint; a throwing probe clears the client and answers false; otherwise the client is set from the credentials and the endpoint's region, and the answer is whether the probe response carries `Items`; true implies a client is set |
| MediaStore.GetFiles | src/api/awsMediaStore.ts:60-86 | fails with NotAuthenticated, sending nothing, exactly when there is no client; otherwise it returns the merged listing and sends the lister's requests |
| MediaStore.CaluculateSizeByPath | src/api/awsMediaStore.ts:88-132 | fails with NotAuthenticated exactly when there is no client; otherwise it returns the count and total length of the files the collection walk finds under the path |
| MediaStore.DeleteFilesByPath | src/api/awsMediaStore.ts:134-163 | fails with NotAuthenticated, sending nothing, exactly when there is no client; otherwise it deletes the collected files by path, in order; with no rejected delete it sends one request per file, in the `Partition` batches, and answers true; a rejected delete ends the call with an error once the batch holding the first rejected request has been sent, so exactly the requests up to that batch's end are sent; a folder whose own listing fails leads to no delete and the answer true |
| Lister.GetFiles | src/api/awsMediaStore.ts:65-85 | the do-while loop returns the merged listing, or `[]` (never a partial list) when a request fails; it sends `RequestCount` requests, the first with no token and each later one with the token of the page before |
| Lister.RequestCount | src/api/awsMediaStore.ts:68-80 | requests go on while each answer succeeds and carries a truthy (present, non-empty) continuation token; they stop at the first failed answer or the first answer whose token is missing or empty |
| Lister.WalkChain | src/api/awsMediaStore.ts:68-82 | reading from page k succeeds exactly when a finished token chain starts there (every page answered, every page but the last with a truthy token, the last without one), and then yields the items of the chain's pages in page order (pages without `Items` add nothing) |
| Lister.MergeChain | src/api/awsMediaStore.ts:65-85 | a folder's listing succeeds exactly when its pages form a finished token chain from the first page (the loop ends at the first page whose token is missing or empty), and is then the concatenation of their items |
| Walker.SizeByPath | src/api/awsMediaStore.ts:94-131 | a count of zero always comes with a size of zero, so the `if (folderCount)` guard never drops bytes |
| Walker.ItemFilesUnder | src/api/awsMediaStore.ts:183-194 | every file an item contributes lies under the parent path, and its path ends in `"/" + Name` |
| Walker.FilesUnder | src/api/awsMediaStore.ts:166-202 | every collected file's path starts with `path + "/"` and ends with `"/" + Name` |
| Walker.CollectIsFlatten | src/api/awsMediaStore.ts:166-202 | collection gives `[]` when this folder's listing fails; otherwise it lists the folder and concatenates, in listing order, one `MSFile` per `OBJECT`, each subfolder's files at its position, and nothing for other items |
| Walker.FailingFolderIsSkipped | src/api/awsMediaStore.ts:184-187 | a subfolder whose own listing fails contributes nothing, and its siblings are collected as if it were absent |
| Walker.SizeMeasure | src/api/awsMediaStore.ts:107-122 | for every tree and path, the `[count, size]` total is the number of collected files and the sum of their `ContentLength`, including where requests fail |
| Walker.SizeIsMeasureOfListing | src/api/awsMediaStore.ts:94-131 | the total is `[0, 0]` when this folder's listing fails, whatever earlier pages added; otherwise it is the count and bytes of the objects in the flattened listing |
| Walker.TwoLevelTree | src/api/awsMediaStore.ts:183-194 | `root` holding `a.txt` (10 bytes) and `sub/b.txt` (20 bytes) collects `root/a.txt` then `root/sub/b.txt`, and totals `[2, 30]` |
| Walker.EmptyTokenEndsListing | src/api/awsMediaStore.ts:80 | a first page holding one 5-byte object with an empty-string token, followed by a failing page: one request is sent, the listing is that object, and the total is `[1, 5]` |
| Walker.MissingNameReadsUndefined | src/api/awsMediaStore.ts:188-193 | an object listed without a `Name` under `root` is collected with path `root/undefined`, its name missing, and its length |
| Deleter.BatchOfBounds | src/api/awsMediaStore.ts:148-153 | request i belongs to batch b exactly when it lies between batch b's first request and batch b+1's |
| Deleter.FlushEndsBatch | src/api/awsMediaStore.ts:148 | the flush test `i % 100 == 0` fires exactly at the last request of a batch |
| Deleter.PartitionCovers | src/api/awsMediaStore.ts:142-160 | taken one after another, the batches are exactly the indices 0 .. n-1, so every request is in exactly one batch, in order |
| Deleter.PartitionShape | src/api/awsMediaStore.ts:148-160 | the first batch is request 0 alone; every batch is non-empty and holds at most 100 requests; the batches between the first and the last hold exactly 100 |
| Deleter.DeleteLoop | src/api/awsMediaStore.ts:142-155 | request i deletes `files[i].path`; a rejected batch stops the loop after that batch's requests; otherwise the counter `deleted` ends equal to the number of files, with the remainder pending |
| Deleter.DeleteAll | src/api/awsMediaStore.ts:140-162 | with no rejected delete: one request per file, in file order, dispatched in the `Partition` batches, and the answer true (an empty list sends nothing and answers true); otherwise the error ends the call after the batch holding the first rejected request |

## Left out

- The AWS SDK client (`MediaStoreDataClient`, `ListItemsCommand`, `DeleteObjectCommand`, `send`) is not modelled. Its answers are inputs: the listing tree, the probe `Page`, and the set of rejected delete indices.
- The SDK's use of the region and credentials is not modelled. A missing region (fewer than four labels) affects only what the probe answers, and that answer is an input.
- `MaxResults` (500, and 1 for the probe) is not modelled. How the store splits a folder into pages is part of the input tree.
- `delay(100)` and `delay(1000)` are wall-clock throttling and are left out. Only the batch partition they separate is modelled.
- The concurrent dispatch of `Promise.all` is not modelled. A batch is an ordered group of indices, and awaiting it throws when any of its deletes is rejected.
- `console.log` output is left out.
- The `Instance` singleton is process wiring. The session is passed explicitly.
- `src/store/auth.ts` is not part of this model. It only copies three payload fields into UI state.
- Walker.SizeByPath: `ContentLength` is a natural number. The model has no `undefined` length, no `NaN`, and no loss of floating-point precision above 2^53.
- MediaStore.Authenticate: `typeof response.Items === 'object'` is also true for `null`. The model's `Items` is either present or absent, never `null`.
- Walker.SizeMeasure: the size walk and the collection walk see the same answers from the store. Two real walks could meet different transient failures.
- The listing requests of the size and collection walks are not recorded. Request traces are kept for `getFiles` and for the deletes.
- `getAllFilesByPath` has no guard of its own. It is only reached after the guard in `deleteFilesByPath`, so the model gives it none.
