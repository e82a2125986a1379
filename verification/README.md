# A Dafny model of elasto

elasto is a C client for cloud storage. This project models the parts of it that carry real state
machines, loops and arithmetic, and proves what they promise, for all inputs, all runs and every
behaviour of the network and of callbacks.

| files | models |
|---|---|
| `RingList.dfy` | the intrusive ring list and its consistency check (`ccan/list`) |
| `WorkQueue.dfy`, `WorkQueueRuns.dfy`, `Sorting.dfy` | the priority work queue, each locked section one atomic step (`libworkqueue/workqueue.c`) |
| `Exml*.dfy`, `Strings.dfy` | the streaming XML matcher (`lib/exml.c`) |
| `Chunks.dfy`, `BlockBlob.dfy`, `BlockList.dfy`, `BlockListReader.dfy` | block-blob writes against a server with uncommitted blocks (`lib/file/azure/apb_io.c`, `lib/azure_blob_req.c`) |
| `S3Object.dfy` | multipart uploads (`lib/file/amazon/s3_io.c`) |
| `Ranges.dfy`, `PageRanges.dfy` | windowed listing of page ranges (`lib/file/azure/apb_io.c`) |
| `Response.dfy`, `Resend.dfy` | response reassembly and the resend loop (`lib/conn.c`, `lib/op.c`, `lib/data.c`) |
| `CanonHeaders.dfy`, `SubResources.dfy` | canonical forms for signatures (`lib/sign.c`) |
| `Base64.dfy`, `CliPath.dfy` | base64 and path realisation (`lib/base64.c`, `client/cli_path.c`) |
| `ScatterGather.dfy`, `SparsePut.dfy` | vectored block IO and sparse upload (`tcmu/consumer.c`, `client/cli_put.c`) |
| `Basics.dfy` | optional values, bytes and errno constants shared by all |

What the code calls and does not define is a parameter: the outcome of the k-th request, the answer
of the k-th callback, the extent map of a file, the clock, whether an allocation succeeds. Code that
updates objects or buffers in place is written as classes, arrays and loops, and proved against
functions about which the theorems are stated. Strings are sequences of characters without the
terminator; buffers hold it where its place matters.

`dafny verify dfyconfig.toml` checks the whole project.

## Where code and promise differ

The model follows the code. The lemma named proves exactly when the promise holds.

- A start time whose nanoseconds add up to one second is left denormal, so such a job is due at its
  instant and not after it (`WorkQueue.StartAfterInstant`, `WorkQueue.TimeGtIsLater`).
- `workqueue_empty` does not lower the waiting count (`WorkQueueRuns.WaitingCount`).
- Job ids wrap after 2^31 jobs, so strict order holds unless two queued jobs of equal rank share an
  id (`WorkQueueRuns.OrderOnEveryRun`).
- The comment at the block guard says 100,000 blocks; the guard admits 100,001, and such a write
  fails at the server after 100,000 blocks were uploaded (`BlockBlob.BlockCount`,
  `BlockBlob.StageBlocks`).
- A retried request keeps the response bytes received so far (`Response.ReceiveAgain`).
- A retry after a redirect goes to the original connection while the request names the redirect's
  host (`Resend.GoesWhereItNames`, `Resend.RetryGoesToTheWrongHost`).
- Header names are compared over the shorter name only, so a name that is a prefix of another
  counts as equal (`CanonHeaders.SeparatesIffPrefixFree`, `CanonHeaders.PrefixBreaksOrder`).
- A second header that gives the date is tolerated; which of them is signed depends on the order of
  the headers exactly when their values differ (`CanonHeaders.OrderDoesNotMatter`,
  `CanonHeaders.DateDependsOnOrder`).
- A sixteenth listed query parameter, repeats included, is stored behind the end of an array of
  fifteen (`lib/sign.c:985-1010`; `SubResources.Select`).
- base64 decoding accepts characters outside the alphabet, and one of them at the start of a group
  ends the text as a success (`Base64.StrictExactlyOnEncodings`, `Base64.ForeignEndsText`).
- At the 10001st sibling of one name `exml_el_start_cb` has already freed the current path when
  `exml_el_encounter` fails without giving a new one, and `exml_free` frees it again
  (`lib/exml.c:704-711`, `lib/exml.c:857`); the model keeps the old path
  (`ExmlPaths.EncounterChild` says when this happens).
- A value finder on its own hears only the text between a start tag and the next tag, and only its first piece: text
  behind a child element, or in a later element that the expression also selects, is not found for it
  (`ExmlWants.OneTextExactly`, `ExmlTheorems.OneValueEach`).
- An over-long working directory is handed back unread for an empty user path, and that result cannot
  be realised again (`CliPath.RealizeAgain`, `CliPath.LongCwdIsNotIdempotent`). This is a property of
  the function: the client's working directory is always "/" (`client/elasto_client.c:336`).
- A data region that starts at a file's last byte is not uploaded, because a hole cannot be sought
  from the end of the file (`SparsePut.ArrivedWhole`).

## Model

| member | source | states |
|---|---|---|
| RingList.ListHeadInit | ccan/list/list.h:143-148 | the head alone is a consistent ring, the empty list |
| RingList.ListAdd | ccan/list/list.h:161-168 | if the links of head and list form a ring, the new node is prepended and all links form a ring again; only the two nodes and the old first node are written |
| RingList.ListAddTail | ccan/list/list.h:180-187 | the new node is appended and all links form a ring again |
| RingList.ListEmpty | ccan/list/list.h:198-202 | true exactly when the list has no node |
| RingList.ListDel | ccan/list/list.h:218-224 | exactly that node leaves the ring, wherever it is; its own links stay |
| RingList.AddThenDel | ccan/list/list.h:161-224 | deleting the node just added restores both links of every node |
| RingList.ListCheckNode | ccan/list/list.c:20-36 | terminates on every finite heap with closed next links, also on lassos; intact exactly when the nodes reached from the node form a ring, exactly when every prev link met on the way points back; otherwise NULL or an abort as the message demands |
| RingList.MoveTail | ccan/list/list.h:180-224 | list_del followed by list_add_tail moves one node between two rings and keeps both consistent and apart |
| RingList.Visit | ccan/list/list.h:161-224 | one body of a safe walk that may add a node at the head and move the visited node keeps both rings |
| RingList.WalkSafe | ccan/list/list.h:424-431 | a safe walk whose body moves nodes away and adds nodes at the head visits each original node exactly once in order and no added node; both lists are what the moves and additions make them |
| RingList.MovedAre | ccan/list/list.h:424-431 | of the nodes walked exactly those to be moved are on the other list, in list order |
| RingList.KeptAre | ccan/list/list.h:424-431 | and exactly the others stay, in list order |
| RingList.AddedAre | ccan/list/list.h:161-168 | the nodes added during the walk stand at the head, the latest first, none missing |
| WorkQueue.StartAfterInstant | libworkqueue/workqueue.c:678-699 | a job's start time is the instant `now` plus the delay; it is a normal timespec unless the nanoseconds add up to exactly one second |
| WorkQueue.TimeGtIsLater | libworkqueue/workqueue.c:164-175 | field-wise comparison is comparison of instants, except against exactly that denormal start time |
| WorkQueue.DueAfterDelay | libworkqueue/workqueue.c:678-699 | a job added without a delay is due from the first second on; one with a delay is due exactly once the delay is over, at its very end only if the nanoseconds had added up to one second |
| WorkQueue.ComparesByFields | libworkqueue/workqueue.c:183-235 | the lower priority number goes first, then the earlier start time, then the lower id, and nothing else decides |
| WorkQueue.JobCompareConsistent | libworkqueue/workqueue.c:183-235 | the comparison is a consistent three-way order on all slots, empty ones included, so qsort may use it |
| WorkQueue.TakenIsLeastDue | libworkqueue/workqueue.c:249-315 | in an ordered queue with holes every due job other than the first has a larger priority number, or the same and a later start time, or the same of both and an id not smaller |
| WorkQueue.DeadlineIsMinimum | libworkqueue/workqueue.c:261-306 | the wait deadline is the minimum of the idle limit and every queued start time |
| WorkQueue.Context.GetJob | libworkqueue/workqueue.c:249-315 | takes the first due job and counts it off, or leaves the queue alone and reports the deadline and the wait; nothing happens without both keep-running flags |
| WorkQueue.Context.AddWork | libworkqueue/workqueue.c:654-739 | -EBUSY exactly when every slot is taken; otherwise the job with the next id goes into the first hole and the slots are a sorted permutation |
| WorkQueue.AddedSlots | libworkqueue/workqueue.c:654-739 | afterwards the slots hold the jobs there were and the new one, no hole before a job, in job order |
| WorkQueue.Context.Dequeue | libworkqueue/workqueue.c:874-889 | removes the job with the id and counts it off, or -ENOENT and no change |
| WorkQueue.DequeuedById | libworkqueue/workqueue.c:874-889 | a job is dequeued exactly when a queued one has the id, and it is the first such; no other slot changes |
| WorkQueue.Context.EmptyQueue | libworkqueue/workqueue.c:433-448 | every slot cleared, the number of cleared jobs returned, the waiting count untouched |
| WorkQueueRuns.RunInv | libworkqueue/workqueue.c:327-509 | every state reachable by any interleaving of the locked sections satisfies the invariant |
| WorkQueueRuns.EachJobInOnePlace | libworkqueue/workqueue.c:249-509 | on every run each accepted job is in exactly one of queued, taken, running, finished, dequeued, discarded; it is called at most once and never if cancelled |
| WorkQueueRuns.CancelledNeverRuns | libworkqueue/workqueue.c:433-448 | a job once dequeued or discarded is never called later in the run |
| WorkQueueRuns.AfterDestroy | libworkqueue/workqueue.c:450-509 | after destroy nothing is queued, taken or running: each accepted job finished after one call or was cancelled and never called |
| WorkQueueRuns.WaitingCount | libworkqueue/workqueue.c:318-448 | the waiting count, which workqueue_get_queue_len returns, equals the occupied slots plus the jobs thrown away by empty; so the length returned is the number of queued jobs if and only if none was ever thrown away |
| WorkQueueRuns.OrderOnEveryRun | libworkqueue/workqueue.c:715-719 | in every reachable state the occupied slots are in job order, strictly so exactly when no two equal-ranked queued jobs share an id, and always within the first 2^31 accepted jobs |
| WorkQueueRuns.TakeIsLeastDue | libworkqueue/workqueue.c:279-306 | on every run a worker gets a job exactly when one is due, and every other due job has a larger priority number, or the same and a later start time, or the same of both and an id not smaller |
| Sorting.QSort | libworkqueue/workqueue.c:716-718 | for any comparison a permutation of the input, and for a consistent one a sorted permutation |
| Sorting.SortedUnique | lib/sign.c:255 | if the comparison separates the elements, every sorting of the same elements is the same sequence |
| ExmlPaths.CompareElements | lib/exml.c:128-177 | the in-step token loop computes the comparison of the two token lists |
| ExmlPaths.ElCmpIsTotalOrder | lib/exml.c:128-177 | a strict total order on token lists: zero only for equal lists, antisymmetric, transitive |
| ExmlPaths.DescendantFirst | lib/exml.c:128-177 | a descendant's path sorts before its ancestor's |
| ExmlPaths.IndexedInjective | lib/exml.c:208-246 | name and index can be read back from an indexed token |
| ExmlPaths.DecIsDecimal | lib/exml.c:208-246 | the index is written in decimal without zeros in front |
| ExmlPaths.EncounterIs | lib/exml.c:183-259 | for a child of an indexed parent the tree and path afterwards: first child at index 0, a further one at the raised counter of the first, and the second search never finds the new path |
| ExmlPaths.EncounterChild | lib/exml.c:183-259 | the next child of one name gets the next free index under a new path, and opening fails exactly beyond index 9999 |
| ExmlPaths.EncounterCounts | lib/exml.c:183-259 | opening a child changes the count of its own name under its own parent by one and no other count |
| ExmlPaths.EncounterKeepsOk | lib/exml.c:183-259 | the tree holds exactly the counted children with gap-free indices below known parents, before and after |
| ExmlPaths.EndUndoesStart | lib/exml.c:722-748 | the end callback cuts the path back to exactly what it was before the start callback |
| ExmlPaths.DocumentRun | lib/exml.c:682-748 | for every document the elements opened are exactly its paths with their attributes in document order, each text is seen under its own element, the path ends at the root; parsing stops exactly when some parent has over 10000 children of one name, having met a part of the same |
| ExmlPaths.DocPathsDistinct | lib/exml.c:184-251 | no two elements of a document have the same indexed path |
| ExmlXPath.FinderPathCmp | lib/exml.c:510-579 | the token loop matches exactly when every token matches: equal, wildcard, or same name without index |
| ExmlXPath.NameSelects | lib/exml.c:554-568 | a token without index selects exactly the instances of its name |
| ExmlXPath.RelativeScope | lib/exml.c:510-579 | a search below an indexed path matches exactly the paths that start with that very instance |
| ExmlXPath.AbsoluteIsFixed | lib/exml.c:872-959 | an absolute expression parses to the same search wherever the parser stands |
| ExmlXPath.RelativeExpands | lib/exml.c:894-905 | "./name" becomes the current element's path followed by the name |
| ExmlXPath.AbsoluteExpands | lib/exml.c:897-906 | a plain absolute expression becomes itself with a closing separator |
| ExmlXPath.PathExpands | lib/exml.c:894-946 | an absolute expression is accepted exactly when it has no '*' or a single one that is a whole component |
| ExmlXPath.AttributeExpands | lib/exml.c:910-929 | path[@name] searches for the path and there for the attribute |
| ExmlXPath.AttributeRefused | lib/exml.c:910-929 | an attribute without its closing bracket, or with text behind it, is refused |
| ExmlXPath.RelativeIsAbsolute | lib/exml.c:894-904 | every relative expression means the absolute one that begins with the current path |
| ExmlXPath.WildcardSelects | lib/exml.c:510-579 | a '*' between two paths selects exactly any one component there |
| ExmlFinders.StepKeeps | lib/exml.c:581-748 | every parser event keeps the invariants, whatever the callbacks do and ask for: exact lists, searches that come from where they were asked for, values that come from their element; this also when parsing stops |
| ExmlFinders.Lifecycle | lib/exml.c:429-748 | the same over every event sequence |
| ExmlTheorems.FindersAreConserved | lib/exml.c:581-680 | each finder created is on exactly one list and was handled once exactly when it is a founder; the finder count equals the list's length |
| ExmlTheorems.FindersMoveForward | lib/exml.c:581-680 | a finder that left the unfound list never returns to it and a handled one stays handled, in parses that go on and in stopped ones |
| ExmlTheorems.OneValueEach | lib/exml.c:323-470 | unless parsing was stopped, a finder that looks for a value has taken exactly one, at the path recorded for it, when it is a founder and none otherwise |
| ExmlTheorems.SucceedsExactlyWhenFound | lib/exml.c:750-843 | parsing succeeds exactly when it was not stopped and every required finder was handled |
| ExmlTheorems.ParsedPaths | lib/exml.c:802-843 | parsing a document with any finders meets exactly its elements, attributes and texts, and a stopped parse a part of them |
| ExmlTheorems.KeptTextIsOwn | lib/exml.c:429-508 | every value a finder takes in any parse, stopped or not, is character data directly inside an element of the document that its search selects, or the attribute of that element that it asks for |
| ExmlTheorems.SearchesAreAsked | lib/exml.c:969-1012 | every finder of any parse searches for what its expression means where it was asked for, at the root or inside an element of the document |
| ExmlFinders.AttrSearchIs | lib/exml.c:472-508 | an attribute finder gets the first non-empty value of that name, and nothing exactly when there is none |
| ExmlFound.FirstHitServes | lib/exml.c:429-680 | from any point of any parse that is not stopped, an unfound finder is served by the first element opened from then on that it takes: its callback runs there, or it keeps the attribute's value, or it keeps the text the element's content begins with |
| ExmlWants.FirstElementServes | lib/exml.c:429-680 | the same for a whole document and each finder asked for beforehand |
| ExmlWants.TextReachesItsFinder | lib/exml.c:429-470 | whoever asks for a text gets it: when the first element the request selects begins with text and the parse is not stopped, the finder is handled and has that very text from that very element |
| ExmlWants.AttrReachesItsFinder | lib/exml.c:472-508 | whoever asks for an attribute gets its value from the first selected element that has one |
| ExmlWants.StringsAreParsed | lib/exml.c:750-843 | when only strings are asked for, a parse is stopped exactly by over 10000 children of one name, and it succeeds if the document has each required value |
| ExmlWants.OneTextExactly | lib/exml.c:429-843 | one required text is found if and only if no parent has over 10000 children of one name and the first selected element's content begins with text |
| ExmlWants.SecondChild | lib/exml.c:183-259 | the paths of a small document, written out: indices count from 0 among children of one name |
| ExmlReplies.StoppedOnlyByNumbers | lib/exml.c:682-843 | when no callback and no conversion refuses, the result is -EIO exactly for over 10000 children of one name |
| ExmlReplies.RefusalStops | lib/exml.c:323-648 | a refusal stops the parse: unless it was stopped, every value handed over was taken and every path callback that ran did not refuse |
| ExmlReadd.FiresOncePerMatch | lib/exml.c:581-680 | a path callback that asks for its own path again fires exactly once per matching element in document order, whatever else is asked for meanwhile |
| ExmlReadd.SearchFires | lib/exml.c:650-680 | one walk over the finders fires such a callback exactly when the current path matches, although it adds finders to the walked list |
| ExmlScope.RelativeFinderScope | lib/exml.c:894-904 | a "./x" expression parsed inside an element selects exactly x inside that element instance |
| ExmlScope.RelativeStaysInside | lib/exml.c:894-904 | whenever in a parse a "./x" finder is asked for, by the caller or by a callback, every value it takes lies at x inside the very element instance where it was asked for |
| ExmlScope.DocPathsAreIndexed | lib/exml.c:184-251 | every document path consists of indexed tokens |
| ExmlBlobs.BlobListIsComplete | lib/azure_blob_req.c:946-1006 | listing blobs makes one entry for each blob element, in document order |
| ExmlBlobs.FindersOfListing | lib/azure_blob_req.c:946-1040 | the finders of a listing, stopped or not, are the caller's one and for each run of the blob callback in turn the five it asks for at its path |
| ExmlBlobs.BlobEntriesAreOwn | lib/azure_blob_req.c:946-1006 | when a listing succeeds, entry k has exactly one name, one length and one type, and each, like the lease status if there is one, is text of the document directly inside ./Name, ./Properties/Content-Length and so on of blob element k |
| ExmlBlobs.BlobsAreApart | lib/azure_blob_req.c:946-1006 | no place in the document lies inside two blob elements, so no text reaches two entries |
| ExmlCode.XmlDoc.FinderInit | lib/exml.c:969-1012 | a new finder, with the search its expression means here, goes to the head of the list and is counted; a bad expression changes nothing |
| ExmlCode.XmlDoc.ValStash | lib/exml.c:323-427 | one text is converted, kept or handed to the callback |
| ExmlCode.XmlDoc.AttrLookup | lib/exml.c:472-508 | the first non-empty value of the attribute |
| ExmlCode.XmlDoc.PathFoundHandle | lib/exml.c:581-648 | the state afterwards is that of the specified step for path, attribute and value finders, failures included; what that step gives each finder is stated on documents by `ExmlWants.FirstElementServes` |
| ExmlCode.XmlDoc.FindersSearch | lib/exml.c:650-680 | the safe walk handles exactly the matching finders listed at its start |
| ExmlCode.XmlDoc.ElEncounter | lib/exml.c:183-259 | find-or-insert with the index suffix, as specified, -1 included |
| ExmlCode.XmlDoc.StartCb | lib/exml.c:682-720 | the state afterwards is that of a start event, stops included, and the path is that of the open elements again |
| ExmlCode.XmlDoc.EndCb | lib/exml.c:722-748 | the state afterwards is that of an end event, stops included; closing the open element leaves the path of those around it |
| ExmlCode.XmlDoc.DataCb | lib/exml.c:429-470 | the state afterwards is that of a text event |
| ExmlCode.XmlDoc.WalkFree | lib/exml.c:750-795 | succeeds exactly when no required finder is left, and then empties all lists |
| ExmlCode.XmlDoc.ParseEnd | lib/exml.c:819-843 | -EIO after a stop, -ENOENT when a required finder is left, else 0 and empty lists |
| ExmlCode.DocumentIsBalanced | lib/exml.c:802-815 | the events of every document open and close elements in balance, which is all that the callbacks rely on |
| ExmlCode.XmlDoc.Deliver | lib/exml.c:809-815 | delivering balanced events through the callbacks leaves the state of the specified run, with text dropped while no data handler is set and nothing delivered after a stop |
| ExmlCode.XmlDoc.Parse | lib/exml.c:802-843 | the result is that of the specified run, and the values handed out are its values |
| ExmlCode.ParseDocument | lib/exml.c:802-843 | for every document and all callbacks the objects' parse returns 0 exactly when it was not stopped and every required finder was handled, and every value handed to a finder is its own; unless it was stopped, every text or attribute asked for that the document has in the first place selected has reached a finder made from that request; for strings only, it returns 0 unless a required value is not there |
| Chunks.PiecesJoin | lib/file/azure/apb_io.c:523-549 | the pieces of a transfer joined are the transfer |
| Chunks.PieceLengths | lib/file/azure/apb_io.c:525 | every piece but the last is exactly the maximum, and none is empty or longer |
| Chunks.PieceAt | lib/file/azure/apb_io.c:523-549 | piece k is the part of the source from k times the maximum on |
| Chunks.PieceCount | lib/file/amazon/s3_io.c:364-392 | the number of pieces is the length divided by the maximum, rounded up |
| Chunks.DataOut | lib/file/azure/apb_io.c:265-303 | hands out exactly the requested part of the source, or fails the two length checks |
| BlockBlob.BlockIds | lib/file/azure/apb_io.c:417 | ids of different blocks differ, and all have the same length |
| BlockBlob.BlockIdIs | lib/file/azure/apb_io.c:417 | an id is the word block and the number in six decimal digits |
| BlockBlob.PutBlock | lib/file/azure/apb_io.c:395-453 | one block is put under its id, unless it is too long or the source lacks it |
| BlockBlob.BlockCount | lib/file/azure/apb_io.c:510-518 | at most 100001 blocks pass the guard, and 100001 exactly when 100000 whole blocks leave a remainder |
| BlockBlob.StageBlocks | lib/file/azure/apb_io.c:521-549 | the staged blocks are the pieces of the source in order, the content untouched; over a perfect network staging succeeds exactly when the source suffices and at most 100000 blocks are needed |
| BlockBlob.Finish | lib/file/azure/apb_io.c:455-482 | the body sent for any such upload fits its buffer, and the list the service reads from that text commits the blocks in order |
| BlockBlob.StagedReadsBack | lib/file/azure/apb_io.c:455-482 | the service reads from the body sent exactly the ids of the staged blocks, in order, each to be looked for among the uncommitted ones |
| BlockBlob.PutRequests | lib/file/azure/apb_io.c:521-549 | block k carries the k-th stretch of the source under the k-th id |
| BlockBlob.FwriteMulti | lib/file/azure/apb_io.c:496-563 | atomic: success leaves exactly the source bytes, a failure the old content or the complete new one, and the blob never held anything else; the service knows the block list only from the text sent |
| BlockBlob.Fwrite | lib/file/azure/apb_io.c:565-636 | a write replaces the whole blob in one step by all of the source or not at all, never shortens it, and over a perfect network succeeds exactly under the listed conditions |
| BlockList.BodyFits | lib/azure_blob_req.c:1541-1563 | the body for blocks with ids of at most 64 bytes is shorter than the buffer made for their number |
| BlockList.PrintEntry | lib/azure_blob_req.c:1586-1624 | one entry moves from what is to be written to the buffer; an unknown state is refused |
| BlockList.BodyFill | lib/azure_blob_req.c:1552-1645 | succeeds exactly when all states are known and the body is shorter than the capacity; the final length is that of the bytes written, which are the body that `BlockList.BodyReadsBack` reads |
| BlockList.BodyDeterminesList | lib/azure_blob_req.c:1552-1645 | two lists with the same body are the same list: ids, states and order can be read back |
| BlockList.BodyReadsBack | lib/azure_blob_req.c:1552-1645 | a reader with the service's own tag names reads from the body exactly the ids in order, each under Committed, Uncommitted or Latest as its state says |
| S3Object.StartUpload | lib/file/amazon/s3_io.c:187-221 | an upload id is obtained exactly when the exchange succeeds; the upload then exists and is empty |
| S3Object.PutPart | lib/file/amazon/s3_io.c:223-278 | one part is put under its number, which must lie in 1..10000, if the source has it |
| S3Object.CompletesOnlyIf | lib/file/amazon/s3_io.c:43-46 | the server accepts the completion of all pieces exactly when there is one and no part but the last is under 5MB |
| S3Object.Assembled | lib/file/amazon/s3_io.c:280-306 | completing an upload that holds all pieces makes the object exactly the source |
| S3Object.StageParts | lib/file/amazon/s3_io.c:360-392 | the stored parts are the pieces of the source numbered from 1 in list order |
| S3Object.CompletedRequests | lib/file/amazon/s3_io.c:360-392 | in a completed upload part k + 1 is the k-th stretch of the source and the completion lists the part numbers from 1 on |
| S3Object.AbortUpload | lib/file/amazon/s3_io.c:308-332 | once an abort has arrived the upload is gone, and the object is untouched |
| S3Object.FwriteMulti | lib/file/amazon/s3_io.c:346-414 | atomic; an upload whose id was obtained ends with a confirmed completion or an issued abort; a success made exactly the requests for parts 1..n in order |
| S3Object.Fwrite | lib/file/amazon/s3_io.c:416-485 | a write replaces the whole object in one step by all of the source or not at all, never shortens it, and over a perfect network succeeds exactly under the listed conditions |
| PageRanges.WindowsMerge | lib/file/azure/apb_io.c:813-826 | the runs of two adjacent windows merge to the runs of both |
| PageRanges.HandOver | lib/file/azure/apb_io.c:776-787 | every range of a response reaches the callback in order; a range that ends before it starts fails |
| PageRanges.FlistRanges | lib/file/azure/apb_io.c:796-830 | however many windows are used, the reports merge to the runs of the whole range and cover exactly its allocated bytes |
| Response.TakenAll | lib/conn.c:222-293 | a growing buffer takes every chunk; one of fixed size takes all exactly when the total fits and never more than its size |
| Response.Data.IovGrow | lib/data.c:90-118 | grows by the amount asked for and keeps the contents; refused for callbacks and foreign buffers |
| Response.Rsp.WriteAllocErr | lib/conn.c:98-125 | afterwards the error buffer has room for the chunk, or the announced length, with its contents kept |
| Response.Rsp.WriteAllocStd | lib/conn.c:131-188 | allocates or grows to what the chunk needs; refuses exactly a requester's buffer shorter than the announced length |
| Response.Rsp.WriteErr | lib/conn.c:190-220 | the chunk is appended, or -E2BIG and nothing changes when it does not fit |
| Response.Rsp.WriteStd | lib/conn.c:222-293 | the chunk is appended or given to the callback, or refused with nothing changed |
| Response.Rsp.WriteCb | lib/conn.c:309-368 | a chunk is appended to what was received exactly when its sink takes it; otherwise the request is cancelled with its error code and nothing is lost or written |
| Response.Rsp.Receive | lib/conn.c:309-368 | over any chunk sequence what is received is the concatenation of the chunks up to the first refused one |
| Response.ReceiveNew | lib/conn.c:131-188 | without Content-Length no chunk is refused; with it the body is cut off exactly when it is longer; a prefix is received in any case, as data for a status of 0 or 200 to 299 and in the error buffer for any other |
| Response.ReceiveInto | lib/conn.c:309-368 | a status of 0 or 200 to 299 brings the body to the requester: into a buffer exactly when announced length and body fit, to a callback chunk by chunk at increasing offsets up to the first refusal; any other status leaves the requester's data untouched and fills the error buffer |
| Response.TakenIs | lib/conn.c:309-368 | the chunks taken are those before the first refusal, each at its offset in the body |
| Response.ReceiveAgain | lib/op.c:482-490 | after a retry the new body goes behind the old bytes, into a buffer that no longer grows or to the callback at offsets that go on; so it arrives as sent exactly when nothing had been received and the sink takes every chunk |
| Resend.DeleteUndoesAdd | lib/op.c:196-227 | deleting by key undoes adding at the end exactly when no earlier header has the key or only copies follow it |
| Resend.Op.HdrAdd | lib/op.c:80-93 | one header more at the end, the count kept equal to the length |
| Resend.Op.HdrDel | lib/op.c:196-227 | the first header with the key goes, or -ENOENT and no change; the count stays equal to the length |
| Resend.Op.DupHdrsDel | lib/op.c:411-426 | the headers the connection layer added go and exactly the builder's remain |
| Resend.SendPrepare | lib/conn.c:704-722 | the request carries one Content-Length and, if signed, one Authorization behind the builder's headers |
| Resend.ReqRedirect | lib/op.c:429-465 | succeeds exactly for a 307 answer with an endpoint and fewer than two redirects before; then the endpoint is the new host and the headers are the builder's |
| Resend.ReqRetry | lib/op.c:468-493 | succeeds exactly with fewer than two retries before, and then the headers are the builder's |
| Resend.Follow | lib/conn.c:1034-1066 | goes on exactly after a redirect or a lost connection within its limit, when the connection works; otherwise it ends with the result the answer, the limit or the connection gives; each further send costs one redirect or one retry and starts from the builder's headers |
| Resend.Txrx | lib/conn.c:969-1086 | the number of sends and the result are exactly what the environment leads to: at most five sends, each with exactly the builder's headers, one Content-Length, at most one Authorization, the host named and the host connected to; when everything but the answers works, they alone decide: it is sent again after each lost connection and each redirect while fewer than two of the kind came before, and the first other answer gives the result |
| Resend.AnswersDecide | lib/conn.c:1034-1068 | stated on the answers' fields: a loop in which all else works stops after n sends with a result if and only if the first n - 1 answers are redirects or lost connections, at most two of each, and the last gives that result, 0 for a success, or is the third of its kind, -ETIMEDOUT or -ELOOP |
| Resend.StopsOnce | lib/conn.c:1034-1068 | number of sends and result are determined |
| Resend.LostThenAnswered | lib/conn.c:1053-1066 | a lost connection and then a success are two sends and the result 0 |
| Resend.PreparedIs | lib/conn.c:704-722 | the headers sent, written out |
| Resend.NamedByLastRedirect | lib/op.c:429-465 | a send names the endpoint of the last redirect before it, or the original host if there was none |
| Resend.GoesWhereItNames | lib/conn.c:1034-1066 | a send goes to the host it names exactly when it is the first, directly follows a redirect, or still names the original host |
| Resend.RetryGoesToTheWrongHost | lib/conn.c:1034-1066 | a redirect and then a lost connection: the third send names the endpoint and goes to the original host |
| CanonHeaders.ComparesEqual | lib/sign.c:93-101 | two headers compare equal exactly when one name is a prefix of the other |
| CanonHeaders.SeparatesIffPrefixFree | lib/sign.c:93-101 | the comparison separates a set of headers exactly when no name is a prefix of another, and then it is a total order |
| CanonHeaders.PrefixBreaksOrder | lib/sign.c:93-101 | for any name and two different one-character extensions of it the comparison of the three is not transitive |
| CanonHeaders.PrefixBreaksVendorOrder | lib/sign.c:93-101 | so for x-ms-a, x-ms-ac and x-ms-ab |
| CanonHeaders.OrderDoesNotMatter | lib/sign.c:126-287 | the order in which headers were added does not matter: to the canonical string when vendor names are distinct and prefix-free, to the other signed values when the headers that give the date agree |
| CanonHeaders.VendorCounts | lib/sign.c:168-200 | each line is signed as often as there are headers with it whose name begins with the vendor's prefix in either case, the vendor's date apart when it is signed on its own |
| CanonHeaders.ValuesAre | lib/sign.c:178-228 | content type, MD5, length and range are each the value of the header of that name; the date is the vendor date header's when that trumps and is there, else the first Date's |
| CanonHeaders.NamesAscend | lib/sign.c:93-101 | the names on the signed lines ascend in byte order |
| CanonHeaders.DateDependsOnOrder | lib/sign.c:178-228 | if they do not agree, some order of the same headers signs another date |
| CanonHeaders.LengthPermuted | lib/sign.c:195-259 | the length summed before sorting is that of the sorted lines |
| CanonHeaders.NeighboursDiffer | lib/sign.c:268-280 | with distinct, prefix-free names no header is collapsed into its neighbour |
| CanonHeaders.Collect | lib/sign.c:168-244 | the vendor entries in list order, their exact total length, and the other values; no value is set twice |
| CanonHeaders.WriteLines | lib/sign.c:259-288 | for any entries, repeated or prefix-related names included, the text written is the entries with each collapsed one behind a comma, and it fits the buffer of hdr_str_len + 1 |
| CanonHeaders.PairCollapses | lib/sign.c:264-287 | a header given twice becomes one line with both values |
| CanonHeaders.CanonHdrsGen | lib/sign.c:125-328 | for every header list that passes the assertions the string is a sorting of the vendor entries with collapses and fits its buffer; with distinct, prefix-free names it is the sorted vendor headers, one a line, and fills the buffer exactly |
| SubResources.KeptExactly | lib/sign.c:916-973 | exactly the parameters with a listed name are kept, each as often as it occurs |
| SubResources.ParameterOrderDoesNotMatter | lib/sign.c:978-1052 | the same parameters in any order give the same string |
| SubResources.ParametersAscend | lib/sign.c:1026-1027 | the parameters of the string ascend in byte order |
| SubResources.CanonSubReadsBack | lib/sign.c:1027-1048 | the string reads back as just the signed parameters, sorted |
| SubResources.Included | lib/sign.c:916-973 | tells whether the first parameter is listed and splits it into name and value, whatever follows |
| SubResources.Select | lib/sign.c:990-1016 | the listed parameters in query order and their exact total length, or an overrun exactly when there are more than fifteen of them, repeats included |
| SubResources.SubGet | lib/sign.c:978-1052 | exactly for at most fifteen listed parameters the array is not overrun, and then the sorted string fits its buffer with one place to spare |
| Base64.RoundTrip | lib/base64.c:163-204 | decoding an encoding gives back the bytes (section 4 of RFC 4648) |
| Base64.EncodeInjective | lib/base64.c:52-95 | no two byte sequences share an encoding |
| Base64.SymbolIsListed | lib/base64.c:39-50 | the sixty-four symbols are those of the table of section 4 of RFC 4648 |
| Base64.EncodedSymbol | lib/base64.c:52-95 | each position of an encoding holds the symbol for its six bits of the bytes, or '=' where there is no byte |
| Base64.EncodingFits | lib/base64.c:60-63 | the encoding and its terminator fit size * 4 / 3 + 4 |
| Base64.EncodeBuf | lib/base64.c:52-95 | -1 exactly for an invalid size, else the buffer holds the encoding and its terminator and the length is returned |
| Base64.DecodeBounded | lib/base64.c:185-204 | what is decoded is never longer than three quarters of the text |
| Base64.StrictExactlyOnEncodings | lib/base64.c:163-204 | a string decodes and re-encodes to itself exactly when it has whole groups of alphabet characters, '=' only for the last one or two, and no spare bits set |
| Base64.ForeignEndsText | lib/base64.c:196-203 | a character outside the alphabet where a group should begin ends the decoding of what precedes it as a success, whatever follows |
| Base64.DecodeIsNotStrict | lib/base64.c:163-204 | two texts that decode although they are no encodings: one with a foreign character inside a group, one with it behind a group |
| Base64.DecodeBuf | lib/base64.c:185-204 | the loop writes exactly the decoded bytes, or fails exactly when the text does not decode |
| Base64.UrlForm | lib/base64.c:102-159 | the URL form has no '+', '/' or '=', percent-decodes to the plain encoding and has the computed length |
| Base64.HtmlEncodeBuf | lib/base64.c:102-159 | the buffer holds exactly the URL form and its terminator |
| CliPath.RealizedIsCanonical | client/cli_path.c:196-266 | a result has no empty, "." or ".." component exactly when the user path was not empty or the working directory is itself canonical |
| CliPath.WalkFails | client/cli_path.c:77-125 | the walk fails exactly when some part of the components from the start on steps above the root |
| CliPath.RealizeFails | client/cli_path.c:196-266 | realising fails exactly on such a step or on a length check |
| CliPath.RealizeAgain | client/cli_path.c:196-266 | realising a canonical path from "/" is the identity exactly when it leaves room for the one-byte working directory in the length check |
| CliPath.RealizeIsIdempotent | client/cli_path.c:196-266 | so it is the identity on every result for a non-empty user path |
| CliPath.LongCwdIsNotIdempotent | client/cli_path.c:196-266 | a working directory too long to be realised again, handed back unread for an empty user path; a property of the function, which the client never reaches |
| CliPath.RealizeComposes | client/cli_path.c:196-266 | realising relative to a realised directory is realising the joined path |
| CliPath.UpUndoesDown | client/cli_path.c:94-105 | a component followed by "..", at the end of a path or inside it, changes neither the result nor the failure: ".." drops the last component |
| CliPath.DotStays | client/cli_path.c:106-107 | "." components and repeated separators change nothing |
| CliPath.PlainPath | client/cli_path.c:108-114 | plain components are appended to the directory in order, and an absolute path ignores it |
| CliPath.PathEnts.Parse | client/cli_path.c:77-125 | the entry list afterwards is that of the components read from left to right, or -EINVAL above the root; `CliPath.UpUndoesDown` and `CliPath.PlainPath` say what that list is |
| CliPath.PathEnts.RenderFree | client/cli_path.c:127-194 | the buffer of PATH_MAX is never overrun; the path rendered is the entries', or -EINVAL exactly when it does not fit |
| CliPath.Realize | client/cli_path.c:196-266 | the whole operation computes the specified result, errors included, which `CliPath.UpUndoesDown`, `CliPath.DotStays` and `CliPath.PlainPath` describe on the strings themselves |
| ScatterGather.GatherOfScatter | tcmu/consumer.c:181-213 | gathering from separate regions gives back what was spread over them |
| ScatterGather.GatherAt | tcmu/consumer.c:125-131 | byte j of a region stands behind all bytes of the regions before it |
| ScatterGather.PatchAt | tcmu/consumer.c:143-179 | a flat write changes the bytes written over and no other |
| ScatterGather.MemcpyFromIovec | tcmu/consumer.c:125-131 | the first bytes of the regions in order |
| ScatterGather.WritevMisaligned | tcmu/consumer.c:90-141 | the rest of a write goes out as one aligned call or not at all |
| ScatterGather.Writev | tcmu/consumer.c:143-179 | for any division the effect is one flat write of the first len bytes; every backend call is block-aligned, the assertion holds, and a failure leaves a whole number of blocks written |
| ScatterGather.MemcpyIntoIovec | tcmu/consumer.c:204-210 | the buffer spread over the regions as far as it goes |
| ScatterGather.ReadvMisaligned | tcmu/consumer.c:181-213 | one aligned call whose bytes are spread over the regions |
| ScatterGather.Readv | tcmu/consumer.c:215-251 | for any division the regions together receive exactly the blocks asked for, by aligned calls only |
| ScatterGather.WriteThenRead | tcmu/consumer.c:143-251 | a write and a read of the same blocks under any two divisions transfer the same bytes |
| SparsePut.ArrivedWhole | client/cli_put.c:219-292 | the upload is complete exactly when no data region starts at the last byte or that byte is zero |
| SparsePut.Remote.PutRange | client/cli_put.c:136-157 | one range of the file is written at its own place |
| SparsePut.PutNext | client/cli_put.c:231-286 | sends exactly the next run of data, or finds that nothing more can be sent |
| SparsePut.SeekDataPut | client/cli_put.c:219-292 | terminates; the ranges sent are increasing, disjoint, in bounds and cover exactly the data, a lone last byte apart; the remote file becomes the local one up to that byte, and a failing write leaves all earlier ranges in place |

## Left out

- libevent, expat, OpenSSL and HMAC, sockets and system calls: only their results appear, as parameters.
- qsort: taken as some sorted permutation; the comparison's consistency, which it needs, is proved.
- Work-queue liveness and wake-ups: workers wait under another mutex than the queue's, so only safety is stated; the running-status queries would only add reads.
- `list_check`, the other list macros and the poisoning that a debug build does in `list_del`: they add nothing to the node check and the safe walk.
- Failing allocations: they succeed, except where a member takes the outcome as a parameter.
- Callback data sources (`abb_fwrite_multi_cb_data_out_cb` and its twin): a source that fails ends a write like a refused request.
- S3Object.FwriteMulti: does not model the text of the completion body; it is filled like the block list's, whose proof would be repeated.
- BlockBlob.Connection.SendRecv: models one request as taking effect at most once; resending is the subject of `Resend`, and a block put twice under one id is one block.
- Resend.Txrx: does not model the request body of a resend, whose offset is not rewound, nor the reuse of a signed URL; it requires builder headers without Content-Length and Authorization, which holds for every request builder of the repository, and `Resend.DeleteUndoesAdd` says when deletion is exact without that.
- CanonHeaders.CanonHdrsGen: once a header was collapsed, the next comparison reads a value as if it were a header; when that value holds no colon the outcome is left open, and everything is proved for both.
- The Azure query-parameter form of a signature (`canon_query_params_gen`): parameters without a value are not handled there either.
- ExmlCode.XmlDoc.StartCb: requires element names without '[' and '*', which XML names cannot contain.
- ExmlCode.XmlDoc.Deliver: stops delivering at once when a callback stops the parser; expat may still deliver an end or a text callback that was due, after which the result is -EIO all the same.
- ExmlCode.XmlDoc.Parse: requires events that open and close elements in balance; a text that is no XML ends with expat's error, for which exml_parse returns -EIO.
- Conversions of found values to numbers and dates: an oracle decides whether they succeed.
- ScatterGather.Readv: regions are parts of one memory array; what a failed read leaves in memory is not stated.
- SparsePut.SeekDataPut: the local file does not change during the upload and lseek fails only with ENXIO.
- AFS writes and the remaining request constructors, stat, unlink and directory wrappers: the same chunking again, or branching without hard properties.
- Command line parsing, the terminal and credential files.
