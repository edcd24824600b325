# A verified model of the SAGA default advert adaptor

The advert adaptor stores a hierarchical name space in three relational tables (nodes, metadata,
data) whose schema enforces little more than the node ids. That names are unique, that the nodes
form a tree, that directories hold no data and that an attribute has one row is up to the order in
which the code checks and inserts. This project models that code in Dafny and proves what it keeps:
in one statement, in one transaction, over retries while others commit, and over every interleaving of
the transactions of any number of open objects. It also models four self-contained algorithms next to it: the wildcard compiler, the
selection of the error to report, the layout of messages and the unescaping of configuration values.

Verify with `dafny verify dfyconfig.toml`. The C++ code itself is not executed.

## How it is organised

| file | what it models |
|---|---|
| Text, Errors | splitting and joining; error codes |
| Schema | the tables, the SQL statements, the SQLite triggers, the invariants `Base` and `Tree` |
| Walk, Growth, Removal | `find`, creating and not, and `remove_node`, as functions on tables, and what they mean |
| Operations, Retry | each `*_db` function as one clean run (`Perform`), and `execute` around it (`Executed`) |
| Locations | the path text an object carries and the node it is on |
| Runs | any number of objects and calls on one database as a state machine, one event a transaction: `Next`, `Run` |
| Connections, Pool, Handles, Entries, Recursion, Directories | the classes with their fields, loops and retries, each method proved against the functions above |
| Listing | which paths a recursive listing reports |
| Exceptions, Messages, Unescape, Regex, Patterns | the four algorithms; the unescaper's module is called Unescaping |

Two invariants are kept apart. `Base` needs no hypothesis: every row has a smaller parent number,
ids are below the counter and never reused, (parent, name) is unique, names are plain, a node has one
metadata row per key. `Tree` adds that parents are live directories, the root is there and data
belongs to live leaves. `Tree` is not kept by the code unconditionally, so what is proved is exactly
when it is: per insert, per walk, per removal, per operation, per event and per run. Two
hypotheses a caller can see to are shown to be enough: H, no walk continues past a leaf, and R, the root is
not removed.

## What the code does that its comments and names do not say

* `find` never checks that an intermediate component is a directory: an entry can get children
  (Growth.EntryGetsChild).
* `.` and `..` do not refresh the is_dir flag; it is wrong exactly after climbing out of a leaf
  (Growth.FlagRightIff). The test for the last component forgives one trailing `.`, not two
  (Growth.DotsMakeDirectory).
* `remove_directory` does not protect the root (Runs.RootCanGo).
* A retried `list` reports a single match once per attempt that reached it (Retry.SingleMatchCount,
  Retry.ListRightIff).
* A call that looks its node up keeps the number over a retry, even if the path leads elsewhere by then. When
  its caller can tell is Retry.BoundNumberShowsIff and, on trees, Runs.BoundNumberInTrees.
* Exclusive constructors, and `make_dir` with Exclusive, can open what was there: because another opener came
  between the look and the creation, or, with nobody else at work, because the path climbs back with `..` out
  of a directory that is only now created (Runs.ExclusiveOpenIff, Runs.ExclusiveOpensAnothers,
  Runs.ExclusiveClimbsBack, Directories.ExclusiveDirIff).
* Attribute calls do not ask whether the node still exists, so metadata may belong to removed nodes.
* A recursive listing overwrites the kind of its own handle; if what it looks at last is an entry, the
  assertion of the next `list` fails (Directories.NextListFailsIff,
  Directories.FoundBelowSelf). A listing that fails half-way does so too (Directories.HalfWayFails).
* The "Database inconsistency" error can be reached: a location such as /x/../a dangles when x is
  removed (Locations.LocationCanDangle, Directories.DanglingFails).
* `change_dir` to a path that does not exist throws nothing, and moves the location but not the node. If
  the path comes to be, recursive listings mix the two directories (Runs.StrayIsReachable,
  Directories.StrayReports).
* In `get_top_message` the branch that would record a NotImplemented message is never taken, because
  the default text is not empty.
* Wildcard literals and escapes are copied raw into the regular expression.

## Model

| member | source | states |
|---|---|---|
| Text.RoundTrip | adaptors/default/advert/common_helpers.hpp:413-445 | splitting at a separator undoes joining exactly when every piece is non-empty and free of the separator |
| Text.TokenizeValues | adaptors/default/advert/common_helpers.hpp:415-428 | appends exactly the non-empty pieces between commas, in order, to what the vector held |
| Text.ConcatValues | adaptors/default/advert/common_helpers.hpp:432-445 | the values in order with one comma between neighbours and none at the ends |
| Schema.InitialIsTree | adaptors/default/advert/advert_database_connection.cpp:1409-1453 | the tables as created (one row, the root, with its two time stamps and nothing else) satisfy every invariant |
| Schema.InsertKeepsBase | adaptors/default/advert/advert_database_connection.cpp:1455-1466 | insert with its trigger, after a lookup that found nothing, keeps ids fresh, names unique and one metadata row per key; the lookup then finds the new id |
| Schema.InsertStamps | adaptors/default/advert/advert_database_connection.cpp:1455-1467 | the insert trigger adds a ctime and a utime row for the new node and sets the utime of its parent; every other metadata row stays |
| Schema.DeleteKeepsBase | adaptors/default/advert/advert_database_connection.cpp:1483-1492 | delete with its trigger keeps the same invariants |
| Schema.DeleteUnrecords | adaptors/default/advert/advert_database_connection.cpp:1483-1492 | the delete trigger takes the metadata of the node and no other, and sets the utime of its parent, which stays |
| Walk.LookIsResolve | adaptors/default/advert/advert_database_connection.cpp:273-363 | find without create changes no table; it returns the node the path denotes, 0 when a component is missing, IncorrectURL for ".." at the root, NoSuccess for ".." at a node that is gone |
| Walk.ResolveConcat | adaptors/default/advert/advert_database_connection.cpp:292-357 | walking a path is walking its first part and then its second part from there |
| Walk.FindNormalized | adaptors/default/advert/advert_database_connection.cpp:289-357 | in every reachable state (no tree shape needed) a path that find resolves is resolved to the same node after dropping "." and cancelling every name/.. |
| Walk.ReduceIsPathOf | adaptors/default/advert/advert_database_connection.cpp:289-357 | in a tree, walking from a node edits its chain of names exactly as lexical normalisation edits text, and ends at a live node |
| Walk.SameNodeIffSameNormalForm | adaptors/default/advert/advert_database_connection.cpp:289-357 | in a tree two resolvable paths lead to the same node if and only if they have the same normal form, which is the chain of names of that node |
| Walk.PathOfResolves | adaptors/default/advert/advert_database_connection.cpp:292-357 | the chain of names of a live node leads back to it |
| Growth.OldPathsKept | adaptors/default/advert/advert_database_connection.cpp:325-357 | every path that resolved before a creating walk resolves to the same node afterwards |
| Growth.MakeGrows | adaptors/default/advert/advert_database_connection.cpp:325-357 | a creating walk only adds: no row or data changes, no id is reused, old metadata changes in utime values only, the base invariant is kept |
| Growth.MakeResolves | adaptors/default/advert/advert_database_connection.cpp:325-360 | in the tables it leaves, the path resolves to the node a creating find returned, and a plain find reports the flag it returned |
| Growth.FoundIsLook | adaptors/default/advert/advert_database_connection.cpp:325-357 | when every component exists the create arguments make no difference |
| Growth.EndIsOldIff | adaptors/default/advert/advert_database_connection.cpp:292-357 | a creating find ends on a node that had been there, whatever it created on its way, if and only if its path, once every name/.. is cancelled, led to one before; then it is that one |
| Growth.NewRowsOnPath | adaptors/default/advert/advert_database_connection.cpp:346-355 | each row a creating walk adds is the node some prefix of the path leads to; it is a directory exactly if a directory was asked for or, where the path first reaches it, more than one "." or another component follows |
| Growth.CreatedKind | adaptors/default/advert/advert_database_connection.cpp:263-271 | the kind of every node that a creating find adds, by the place where the path first reaches it |
| Growth.NewParentIsDirectory | adaptors/default/advert/advert_database_connection.cpp:325-352 | a row that a creating walk adds and then adds another one below is a directory, whatever was asked for |
| Growth.MakeWithoutParents | adaptors/default/advert/advert_database_connection.cpp:292-357 | a create without parents, exactly: a path that is there is only walked; where only the last component is missing, one trailing "." forgiven, one row of the kind asked for is added there; otherwise NoSuccess, or the error of walking the path |
| Growth.DotsMakeDirectory | adaptors/default/advert/advert_database_connection.cpp:263-271 | under H and with an entry asked for, "/a/." creates an entry and "/a/./." a directory |
| Growth.MakeIsMkdirP | adaptors/default/advert/advert_database_connection.cpp:273-363 | create with parents is mkdir -p: the path resolves to the returned node, old paths and rows stay, new rows lie on the path, new rows with new rows below them are directories, doing it again changes nothing and answers the same; without create_parents at most one row is added, below one that was there |
| Growth.MakeKeepsTreeIff | adaptors/default/advert/advert_database_connection.cpp:325-357 | a creating walk keeps the tree shape if and only if every insert happens under a directory, which the code never looks at |
| Growth.FlagRightIff | adaptors/default/advert/advert_database_connection.cpp:302-324 | the is_dir that find returns is the stored flag of the node it returns, except exactly for paths that climb with ".." out of a leaf and of which normalisation leaves something |
| Growth.FlagWrong | adaptors/default/advert/advert_database_connection.cpp:302-324 | such a path: /d/e/.. with the entry e leads to the directory d and reports no directory |
| Growth.FindUnderH | adaptors/default/advert/advert_database_connection.cpp:273-363 | under H a find, creating or not, inserts under directories only, keeps the tree, and its flag is the stored flag of its node |
| Growth.HIsThroughDirs | adaptors/default/advert/advert_database_connection.cpp:292-357 | H holds of a walk that does not throw if and only if, in the tables it leaves, the path goes on by a name or by ".." from directories only |
| Growth.EntryGetsChild | adaptors/default/advert/advert_database_connection.cpp:325-357 | without H: "/e/x" is created below the entry e, and the tables are no tree any more |
| Removal.PrunedKeepsBase | adaptors/default/advert/advert_database_connection.cpp:503-600 | removing an entry or a directory keeps the base invariant and changes no surviving node or data row; exactly the metadata of the nodes removed is gone, the utime of the parent is there and says now, every other metadata row is as it was |
| Removal.PrunedKeepsTreeIff | adaptors/default/advert/advert_database_connection.cpp:503-600 | removing keeps the tree if and only if the target is not the root and has no children (removed as an entry) or no data (removed as a directory) |
| Removal.UnderIffPrefix | adaptors/default/advert/advert_database_connection.cpp:537-590 | the recursion reaches a node exactly if its path starts with the path of the target |
| Removal.DoomedIsSubtree | adaptors/default/advert/advert_database_connection.cpp:503-600 | the deleted nodes are the target and all its descendants; of data rows, theirs |
| Removal.SubtreeRemovalIsExact | adaptors/default/advert/advert_database_connection.cpp:503-600 | remove_directory on a directory other than the root takes exactly the subtree, its metadata and data; every other row stays but for the utime of the parent; the tree is kept |
| Removal.PathsAfterRemoval | adaptors/default/advert/advert_database_connection.cpp:503-600 | afterwards a path, whatever its components, leads nowhere if some prefix of it led into the subtree, and otherwise leads or fails as it did before |
| Operations.PerformKeepsBase | adaptors/default/advert/advert_database_connection.cpp:434-1281 | whatever node number a caller has cached, every operation keeps the base invariant, changes no node row and reuses no id |
| Operations.CheckedIff | adaptors/default/advert/advert_database_connection.cpp:609-625 | of the operations on a node, exactly remove, remove_directory, list, store and retrieve refuse one that is not there, with BadParameter |
| Operations.PerformKeepsTreeIff | adaptors/default/advert/advert_database_connection.cpp:434-1281 | an operation that commits keeps the tree if and only if the caller was careful: inserts under directories, no root removal, no children under a removed entry, no data on directories |
| Operations.CreatedKindIff | adaptors/default/advert/advert_database_connection.cpp:443-484 | a create that commits a tree returns the node its path resolves to, of the kind asked for unless, exactly, the path climbs out of a leaf and normalisation leaves something of it |
| Operations.GetAfterSet | adaptors/default/advert/advert_database_connection.cpp:1035-1129 | get_attribute after set_attribute returns the value and the vector flag; no other key, node or data row changes |
| Operations.GetAfterRemove | adaptors/default/advert/advert_database_connection.cpp:1141-1185 | after remove_attribute the attribute cannot be fetched, exactly one row is gone and all others stay |
| Operations.CountOnce | adaptors/default/advert/advert_database_connection.cpp:1440-1446 | a node has at most one metadata row per key although the table has no key |
| Operations.RetrieveAfterStore | adaptors/default/advert/advert_database_connection.cpp:1197-1281 | retrieve_data returns what store_data stored; other data rows, all nodes and all metadata but the utime of the node stay |
| Operations.ListIsExact | adaptors/default/advert/advert_database_connection.cpp:664-733 | list into an empty vector reports exactly the matching names that a lookup below the directory finds, each once, and changes nothing |
| Operations.FreshAttributes | adaptors/default/advert/advert_database_connection.cpp:1437-1440 | in a new database the root has a ctime and a utime and no other attribute |
| Retry.ExecutedIsLastAttempt | adaptors/default/advert/advert_database_connection.cpp:170-239 | each attempt begins on its own tables; the call is a clean run of the last attempt on the tables as that attempt finds them, with the references the earlier ones left, or NoSuccess with the tables of the last begin |
| Retry.CreateRetries | adaptors/default/advert/advert_database_connection.cpp:170-239 | a retried create is one clean run on the tables of its last attempt; only the number left by a refusal may differ |
| Retry.CachedRetries | adaptors/default/advert/advert_database_connection.cpp:170-239 | a cached node number survives every failure; but for list the call is one clean run on the tables of its last attempt |
| Retry.BoundNumberShowsIff | adaptors/default/advert/advert_database_connection.cpp:170-239 | the caller of a call without a number can tell its outcome (tables, answer or error) from a clean run on the last tables if and only if an earlier attempt bound a number and that is not hidden there: NumberHidden says, operation by operation, when path and number come to the same |
| Retry.NumberHiddenIff | adaptors/default/advert/advert_database_connection.cpp:609-653 | acting by number and acting by path give the caller the same if and only if the path leads to the number, both find nothing alive, both are refused with one error, or both nodes read alike, or hold alike what is stored |
| Retry.BindIgnoresStamp | adaptors/default/advert/advert_database_connection.cpp:292-357 | what an attempt finds or creates does not depend on the time it runs at |
| Retry.BoundNumberWasFound | adaptors/default/advert/advert_database_connection.cpp:609-653 | such a number is one that the path led to when an earlier attempt looked |
| Retry.FirstNumberDecides | adaptors/default/advert/advert_database_connection.cpp:609-653 | a failed attempt that had bound a node makes the next attempt work on that node, for attribute calls as well; one that had bound none leaves the next to the path |
| Retry.StaleNumberRefused | adaptors/default/advert/advert_database_connection.cpp:609-625 | /a is replaced between two attempts to remove it: the second is refused although /a is there |
| Retry.ExecutedKeepsBase | adaptors/default/advert/advert_database_connection.cpp:170-239 | with other connections committing between the attempts, the base invariant is kept, rows do not change and ids are not reused |
| Retry.RetryIsInvisible | adaptors/default/advert/advert_database_connection.cpp:170-239 | if nobody else commits meanwhile, any number of resolvable failures before a clean attempt gives the tables, node and answer of one clean run of every operation but list; a failure that is not resolvable gives NoSuccess |
| Retry.ListRightIff | adaptors/default/advert/advert_database_connection.cpp:664-733 | the vector the caller gets from a retried list, called with an empty one, holds the matches of the tables it commits on exactly if there are several or no failed attempt that reached the vector had found anything |
| Retry.ListRetryVisibleIff | adaptors/default/advert/advert_database_connection.cpp:664-733 | on any tables nobody else changes, a retried list through a cached node answers as one clean run exactly if there is not just one match or no failed attempt had reached the vector |
| Retry.SingleMatchCount | adaptors/default/advert/advert_database_connection.cpp:713-713 | on tables nobody else changes and through a cached node, a single match is reported once by every failed attempt that had reached the vector and once by the last one |
| Retry.SingleMatchTwice | adaptors/default/advert/advert_database_connection.cpp:713-713 | one entry in the root, one failure after the append: the entry is reported twice |
| Retry.LeftoversAreReported | adaptors/default/advert/advert_database_connection.cpp:700-733 | several matches, then a failure, then a single match: the caller gets what the first query had left in the vector, and the match |
| Runs.RunKeepsBase | adaptors/default/advert/advert_database.hpp:30-351 | over every interleaving of the transactions of every object and call: ids are never reused, rows never change, names are unique below a parent, one metadata row per key, every handle has a node number once allotted |
| Runs.StaleHandlesNeverAlias | adaptors/default/advert/advert_database.hpp:171-204 | after any run, remove, remove_directory, list, store and retrieve through a cached number act on the row first resolved if it is still there, else throw BadParameter; no other row has its place |
| Runs.RemovedNeverReturns | adaptors/default/advert/advert_database_connection.cpp:1424-1424 | a removed node never comes back; if it was the root the tables are never a tree again |
| Runs.RootCanGo | adaptors/default/advert/advert_database_connection.cpp:636-653 | remove_directory on "/" commits, and the root row is gone |
| Runs.OpenAtIsOpenStep | adaptors/default/advert/advert.cpp:105-145 | an object that a constructor opens, with its probe and all its attempts, is one that a single event opens on the tables of the last attempt |
| Runs.RetriedCallOverRuns | adaptors/default/advert/advert_database_connection.cpp:170-239 | a call with a node reference of its own, begun, failed any number of times and finished in a run in which any other events come between, commits what Executed says for the tables and failures found in that run, and these meet its hypotheses |
| Runs.CallsAreEvents | adaptors/default/advert/advert_database.hpp:135-204 | every call that an open entry or directory object makes through its cached node is an event of a run, with the outcome of Executed |
| Runs.FullPathLeads | adaptors/default/advert/advertdirectory.cpp:1037-1039 | a relative path given to a directory object leads where walking it from the node that the location leads to leads, an absolute one where it leads from the root; remove, make_dir and change_dir build it alike |
| Runs.BoundNumberInTrees | adaptors/default/advert/advert_database_connection.cpp:170-239 | while the tables are trees a number bound earlier never makes a call act on another node than the path leads to; its caller can tell if and only if the node is gone and the path leads somewhere, or the node lives and the path leads nowhere, or the path cannot be walked (but for retrieve on a node without data when the error is the same) |
| Runs.ExclusiveOpenIff | adaptors/default/advert/advert.cpp:109-134 | an exclusive constructor succeeds only if nothing was there when it looked; it opens an old node all the same if and only if, on the tables its last attempt begins on, the path leads to one once every name/.. is cancelled |
| Runs.ExclusiveOpensAnothers | adaptors/default/advert/advert.cpp:109-134 | another opener makes /a between the look and the creation: the exclusive constructor opens it |
| Runs.ExclusiveClimbsBack | adaptors/default/advert/advert.cpp:109-134 | nobody else at work, a tree, H: an exclusive constructor for the missing /a/b/.. makes b and opens the old /a |
| Runs.NextKeepsTreeIff | adaptors/default/advert/advert_database.hpp:135-204 | one event of any kind keeps the tree if and only if it was a careful one |
| Runs.RunKeepsTreeIff | adaptors/default/advert/advert_database.hpp:135-204 | the tables are a tree in every state of a run if and only if every step was careful |
| Runs.HAndRIsCareful | adaptors/default/advert/advert_database_connection.cpp:273-363 | under H and R every event is careful |
| Runs.NextKeepsTruth | adaptors/default/advert/advert_database.hpp:66-132 | under H and R an event keeps the tree and keeps every handle, and every number a call has bound, on a node of its class, handles with the right kind, directory kinds as long as there is no forced find |
| Runs.RunUnderHAndR | adaptors/default/advert/advert_database.hpp:66-132 | the same over every run, from the fresh tables or any truthful state |
| Runs.LocationOverRuns | adaptors/default/advert/advertdirectory.cpp:1122-1152 | over every run on trees the location of an object whose node lives leads to that node or nowhere if its last move was to a path that was there, or spells the path of the node, and elsewhere or nowhere otherwise |
| Runs.FitsWithoutStrayMoves | adaptors/default/advert/advertdirectory.cpp:1122-1152 | a run without change_dir to missing paths never leads a location astray |
| Runs.StrayIsReachable | adaptors/default/advert/advertdirectory.cpp:1122-1152 | three ordinary calls put an object on node 2 with a location that leads to node 3 |
| Locations.SettledIff | adaptors/default/advert/advert_database_connection.cpp:289-357 | a path text that leads somewhere leads to a live node exactly if its normal form is the chain of names of that node |
| Locations.SettledStays | adaptors/default/advert/advert_database_connection.cpp:289-357 | nothing that happens to the tables changes that while the node lives |
| Locations.LocationNeverMisleads | adaptors/default/advert/advert_database_connection.cpp:289-357 | a path text that led to a node leads to it or nowhere, as long as the node lives |
| Locations.LocationCanDangle | adaptors/default/advert/advertdirectory.cpp:711-732 | it can lead nowhere while the node lives and still has a child: /x/../a once x is removed |
| Connections.Connection.GetNodeId | adaptors/default/advert/advert_database_connection.cpp:243-258 | found exactly if there is a row with that name and parent; then the id is that of the only such row and the flag its stored one |
| Connections.Connection.Find | adaptors/default/advert/advert_database_connection.cpp:273-363 | the loop leaves the tables, node and flag of the recursive walk, or throws its error; in tables that satisfy the base invariant |
| Connections.Connection.FindEntry | adaptors/default/advert/advert_database_connection.cpp:375-391 | the node, 0 when missing, AlreadyExists (or 0) when it is a directory |
| Connections.Connection.FindDirectory | adaptors/default/advert/advert_database_connection.cpp:396-411 | the node, 0 when missing, AlreadyExists (or 0) when it is an entry |
| Connections.Connection.RemoveNode | adaptors/default/advert/advert_database_connection.cpp:503-600 | the recursive loop removes exactly the doomed nodes, their metadata and data, stamps the parent, and terminates |
| Connections.Connection.RemoveChildren | adaptors/default/advert/advert_database_connection.cpp:537-590 | the loop over the children removes each child with all below it and nothing else |
| Connections.Connection.CreateEntryDb | adaptors/default/advert/advert_database_connection.cpp:443-457 | the outcome of Perform; AlreadyExists when the path is a directory |
| Connections.Connection.CreateDirectoryDb | adaptors/default/advert/advert_database_connection.cpp:470-484 | the outcome of Perform; AlreadyExists when the path is an entry |
| Connections.Connection.RemoveDb | adaptors/default/advert/advert_database_connection.cpp:609-625 | the outcome of Perform; BadParameter for a node that is gone |
| Connections.Connection.RemoveDirectoryDb | adaptors/default/advert/advert_database_connection.cpp:636-653 | the outcome of Perform; BadParameter for a node that is gone |
| Connections.Connection.ListDb | adaptors/default/advert/advert_database_connection.cpp:664-733 | the outcome of Perform: one match is appended to the vector, several replace what it held, none leaves it |
| Connections.Connection.SetAttributeDb | adaptors/default/advert/advert_database_connection.cpp:1080-1129 | insert or overwrite after counting the rows |
| Connections.Connection.RemoveAttributeDb | adaptors/default/advert/advert_database_connection.cpp:1141-1185 | DoesNotExist when there is no such row |
| Connections.Connection.GetAttributeDb | adaptors/default/advert/advert_database_connection.cpp:1035-1069 | value and vector flag, NoSuccess when there is no such row |
| Connections.Connection.StoreDataDb | adaptors/default/advert/advert_database_connection.cpp:1197-1239 | insert or update, BadParameter for a node that is gone |
| Connections.Connection.RetrieveDataDb | adaptors/default/advert/advert_database_connection.cpp:1249-1281 | the stored text, NoSuccess when there is none |
| Connections.Connection.Execute | adaptors/default/advert/advert_database_connection.cpp:170-239 | the loop over attempts, each on the tables as it finds them, with the references that failed ones left: the outcome of Executed, and its tables |
| Handles.Database.ExistsEntry | adaptors/default/advert/advert_database.hpp:82-97 | a cached node answers at once; otherwise node and kind follow find_entry; both assertions hold |
| Handles.Database.ExistsDirectory | adaptors/default/advert/advert_database.hpp:98-113 | the same for directories |
| Handles.Database.FindForced | adaptors/default/advert/advert_database.hpp:114-132 | the cached node stays, the kind is overwritten by what the path leads to, as the ForcedFind event of Runs does |
| Handles.Database.CreateEntry | adaptors/default/advert/advert_database.hpp:135-143 | the outcome of Executed; node and kind afterwards are those of the handle in Runs |
| Handles.Database.CreateDirectory | adaptors/default/advert/advert_database.hpp:144-152 | the outcome of Executed; node and kind afterwards are those of the handle in Runs |
| Handles.Database.Remove | adaptors/default/advert/advert_database.hpp:171-180 | the outcome of Executed; node and kind afterwards are those of the handle in Runs |
| Handles.Database.RemoveDirectory | adaptors/default/advert/advert_database.hpp:181-190 | the outcome of Executed; node and kind afterwards are those of the handle in Runs |
| Handles.Database.List | adaptors/default/advert/advert_database.hpp:191-204 | lists by cached node, or by path when forced, into the vector given; the assertion about the kind holds whenever the call succeeds on a handle whose kind is not entry |
| Handles.Database.Attribute | adaptors/default/advert/advert_database.hpp:219-253 | the outcome of Executed; node and kind afterwards are those of the handle in Runs |
| Handles.Database.Data | adaptors/default/advert/advert_database.hpp:312-329 | the outcome of Executed; node and kind afterwards are those of the handle in Runs |
| Handles.Database.ChangeDirectory | adaptors/default/advert/advert_database.hpp:299-309 | moves node and kind together, or neither, as the ChangeDir event of Runs does |
| Handles.Database.EnterScope | adaptors/default/advert/advert_database.hpp:364-371 | borrows a connection nobody else holds, to the right database |
| Handles.Database.LeaveScope | adaptors/default/advert/advert_database.hpp:372-376 | gives it back |
| Entries.EntryObject.Init | adaptors/default/advert/advert.cpp:55-145 | the constructor opens the node OpenAt says, with kind entry, or throws its error and leaves the tables as they were |
| Entries.EntryObject.Call | adaptors/default/advert/advert.cpp:478-495 | what attribute and data calls have in common: IncorrectState when closed; get and retrieve are refused without the Read mode, set, remove and store without Write; otherwise one executed operation through the cached node, which stays cached |
| Entries.EntryObject.GetAttribute | adaptors/default/advert/advert.cpp:355-386 | the value, or IncorrectState when the attribute is a vector |
| Entries.EntryObject.SetVectorAttribute | adaptors/default/advert/advert.cpp:455-474 | stores the comma-joined text with the vector flag |
| Entries.EntryObject.GetVectorAttribute | adaptors/default/advert/advert.cpp:389-428 | splits the stored text, IncorrectState when it is not a vector |
| Entries.EntryObject.Remove | adaptors/default/advert/advert.cpp:667-691 | BadParameter with the recursive flag; removes and closes, or leaves the object as it was |
| Entries.EntryObject.Close | adaptors/default/advert/advert.cpp:694-714 | closed, node forgotten |
| Entries.VectorRoundTripIff | adaptors/default/advert/advert.cpp:389-474 | storing and fetching a vector gives it back if and only if every element is non-empty and free of commas |
| Listing.FoundFromIs | adaptors/default/advert/advertdirectory.cpp:703-775 | the nodes a recursive listing visits are exactly those all of whose names below the start match, each once, none before a node below it |
| Listing.ListingIsComplete | adaptors/default/advert/advertdirectory.cpp:703-775 | a text is reported if and only if it spells a relative path below the start whose first component matches the first pattern and all others the inner one |
| Listing.ListingIsOrdered | adaptors/default/advert/advertdirectory.cpp:703-775 | no text twice, and no path before a path inside it |
| Listing.LastKindIff | adaptors/default/advert/advertdirectory.cpp:711-737 | the last look-up of a recursive listing finds an entry exactly if going to the youngest match every time leads to one |
| Recursion.EntryIsFound | adaptors/default/advert/advertdirectory.cpp:711-732 | looking up the built path text gives the child of that name in the directory the path text leads to, and its flag; nothing if there is none, and the error of walking the text where that is stuck |
| Recursion.Visit | adaptors/default/advert/advertdirectory.cpp:711-736 | one turn of either loop: succeeds exactly if the path text leads to a directory with a child of that name; then reports what is below that child, and the child; otherwise NoSuccess ("Database inconsistency") or the error of walking the text, and the kind stays |
| Recursion.VisitAll | adaptors/default/advert/advertdirectory.cpp:711-737 | the loop succeeds exactly if there are no names or all of them are found where the path text leads; then it reports those children; in any case the kind left in the handle is that of the last child found before one is missing |
| Recursion.FindRecursive | adaptors/default/advert/advertdirectory.cpp:703-737 | find_recursive terminates; BadParameter for a directory that is gone; otherwise succeeds exactly if nothing matches or all matching names are found where the path text leads, and reports what is there; the error and the kind it leaves otherwise |
| Recursion.ListRecursive | adaptors/default/advert/advertdirectory.cpp:741-775 | the same for list_recursive, where the pattern applies to the first component only |
| Recursion.ViaIs | adaptors/default/advert/advertdirectory.cpp:711-737 | seen through a path text that leads to m, the report on n holds exactly the matching paths below m that start with the name of a matching child of n |
| Recursion.ViaRightIff | adaptors/default/advert/advertdirectory.cpp:711-737 | it is the report on n exactly if below these names the two directories have the same matching paths |
| Directories.DirectoryObject.Init | adaptors/default/advert/advertdirectory.cpp:58-150 | the constructor opens the node OpenAt says, with kind directory, or throws its error and leaves the tables as they were |
| Directories.OpenByCases | adaptors/default/advert/advert.cpp:92-150 | undisturbed and under H, both constructors: a relative path is IncorrectURL; what is there is opened if it is of the class and Exclusive does not come with a create flag, AlreadyExists otherwise; what is missing is DoesNotExist without a create flag |
| Directories.DirectoryObject.MakeDir | adaptors/default/advert/advertdirectory.cpp:1154-1196 | the outcome of MadeDir; afterwards the path given, walked from where the location leads if it is relative, leads to the directory; the object itself is unchanged |
| Directories.MadeDirIsThere | adaptors/default/advert/advertdirectory.cpp:1154-1196 | once made the directory is there: the same call changes nothing, an exclusive one throws AlreadyExists; nothing that was there is lost |
| Directories.MadeDirByCases | adaptors/default/advert/advertdirectory.cpp:1154-1196 | make_dir without CreateParents, undisturbed and under H, for every place the path leads to: made if only the last name is missing, answered if it is a directory, each error otherwise |
| Directories.ExclusiveDirIff | adaptors/default/advert/advertdirectory.cpp:1175-1196 | make_dir with Exclusive finds nothing when it looks, and yet answers for an old directory if and only if the path, once every name/.. is cancelled, leads to one on the tables of its last attempt |
| Directories.DirectoryObject.RemoveEntry | adaptors/default/advert/advertdirectory.cpp:1022-1076 | the outcome of RemovedEntry; the node removed is one that the path given, walked from where the location leads if it is relative, led to at the begin of some attempt; the object itself is unchanged |
| Directories.RemovedEntryIsExact | adaptors/default/advert/advertdirectory.cpp:1022-1076 | under H the node the path leads to, or led to at an earlier attempt, is removed: an entry alone, and only without the recursive flag; a directory with its whole subtree, and only with it; their metadata goes, the parent is stamped, every other row of the three tables stays |
| Directories.RemovedEntryByCases | adaptors/default/advert/advertdirectory.cpp:1044-1075 | undisturbed and under H: removed if the recursive flag fits the kind of what the path leads to; BadParameter if not, or if it leads nowhere; the error of walking the path |
| Directories.DirectoryObject.ChangeDir | adaptors/default/advert/advertdirectory.cpp:1122-1152 | on success the location leads where the path given leads, walked from where the old location leads if it is relative, and the node is that one; a path that leads nowhere moves the location only and throws nothing |
| Directories.DirectoryObject.FindBelow | adaptors/default/advert/advertdirectory.cpp:831-877 | IncorrectState when closed, PermissionDenied by mode; otherwise what FoundBelow says: the node is listed by number and its children are looked up below the location, wherever that leads; answer, error, and the kind the handle keeps either way |
| Directories.NextListFailsIff | adaptors/default/advert/advert_database.hpp:192-208 | wherever the location leads and whether the listing succeeded or not: the assertion of the next list fails if and only if some matching name was found there before one was missing, and the last one found is an entry or a directory from which going to the youngest match every time leads to an entry |
| Directories.FoundBelowSelf | adaptors/default/advert/advertdirectory.cpp:703-737 | if the location leads to the node the answer is its complete listing, without fail; the assertion of the next list then fails exactly if going to the youngest match every time leads to an entry |
| Directories.FoundElsewhereIff | adaptors/default/advert/advertdirectory.cpp:703-737 | wherever the location leads, the answer is right exactly if that directory has a child of every matching name with the same matching paths below |
| Directories.StrayFails | adaptors/default/advert/advertdirectory.cpp:721-728 | an object on /a with a location that leads to an empty /b fails with "Database inconsistency" |
| Directories.HalfWayFails | adaptors/default/advert/advertdirectory.cpp:711-728 | if /a holds the entries x and y and /b only an entry x, the find fails at y and leaves the kind entry, so the assertion of the next list fails |
| Directories.DanglingFails | adaptors/default/advert/advertdirectory.cpp:721-728 | a location that leads nowhere, as in LocationCanDangle, while something below the node matches: the find fails |
| Directories.StrayReports | adaptors/default/advert/advertdirectory.cpp:711-737 | and if /b holds x with y in it, reports x/y, which is not below /a |
| Pool.KeyOrder | adaptors/default/advert/advert_database_connection_cache.hpp:29-36 | operator< is a strict order in which only equal keys are equivalent |
| Pool.KeyLessIff | adaptors/default/advert/advert_database_connection_cache.hpp:29-36 | keys are ordered by type, then by the first character in which the connect strings differ |
| Pool.ConnectionCache.FindKey | adaptors/default/advert/advert_database_connection_cache.hpp:75-75 | finds an entry with the key if there is one |
| Pool.ConnectionCache.Aquire | adaptors/default/advert/advert_database_connection_cache.hpp:70-87 | a connection of the type and connect string asked for that nobody else holds: one taken out of the pool if there is one, else a new one |
| Pool.ConnectionCache.Release | adaptors/default/advert/advert_database_connection_cache.hpp:89-109 | the connection is pooled and no longer held; an entry that was pooled before is there, as often as before, if and only if at most 60 seconds have passed since its creation; nothing is pooled twice or both pooled and held |
| Pool.ReleaseIsExact | adaptors/default/advert/advert_database_connection_cache.hpp:89-109 | of every entry release leaves as many as before for 60 seconds from its creation and none later, and one more of the entry brought back |
| Pool.InsertedSplits | adaptors/default/advert/advert_database_connection_cache.hpp:107-108 | the new entry comes behind those with its key, and the others keep their places |
| Exceptions.LastKnownGood | saga/impl/exception_list.cpp:32-41 | the adaptor recorded with the first exception that has a stored object of known type |
| Exceptions.GetError | saga/impl/exception_list.cpp:46-85 | the code of the selected exception, where unset adaptor ids equal nothing; NotImplemented when none is significant |
| Exceptions.GetTopMessage | saga/impl/exception_list.cpp:171-217 | the message of the selected exception; the name of NotImplemented when none is significant |
| Exceptions.SelectsOne | saga/impl/exception_list.cpp:46-85 | the selection rule picks at most one exception |
| Exceptions.SomethingSelected | saga/impl/exception_list.cpp:46-85 | it picks one if and only if some exception is significant |
| Exceptions.GoodWins | saga/impl/exception_list.cpp:66-82 | with a last known good adaptor the first exception that carries its id, and is neither NotImplemented nor an AdaptorDeclined to be ignored, is the one selected |
| Exceptions.ErrorAndMessage | saga/impl/exception_list.cpp:27-44 | both loops report the same exception |
| Exceptions.CodeIgnoresOrder | saga/impl/exception_list.cpp:74-84 | without an exception from a last known good adaptor that is set, the code does not depend on the order of the list |
| Exceptions.LeastWins | saga/impl/exception_list.cpp:66-85 | without a last known good adaptor the code reported is the least of the significant ones, whatever ids the exceptions carry |
| Exceptions.LessSpecificIsHidden | saga/impl/exception_list.cpp:74-84 | without one, what is less specific than some exception in the list is not reported: NoSuccess only if nobody threw IncorrectURL, BadParameter, AlreadyExists, DoesNotExist, IncorrectState or PermissionDenied |
| Messages.SkipRun | saga/impl/exception_list.cpp:98-101 | the inner loop steps over exactly the run of newlines |
| Messages.IndentMessage | saga/impl/exception_list.cpp:87-112 | terminates with every index in range and equals the reference layout |
| Messages.IndentedIsSingle | saga/impl/exception_list.cpp:87-112 | the result never has two adjacent newlines |
| Messages.IndentedStartsWithText | saga/impl/exception_list.cpp:87-112 | the result does not begin with a line of spaces |
| Messages.ThreeLines | saga/impl/exception_list.cpp:87-112 | of three lines the second is indented by two spaces and the last is not |
| Messages.IndentedKeepsInk | saga/impl/exception_list.cpp:87-112 | no character but blanks is lost, added or reordered |
| Unescaping.Unescape | saga/impl/logging.cpp:82-116 | the chunk-copying loop equals the one-character decoder on every text, with its cursors in range, and terminates |
| Unescaping.DecodeByCases | saga/impl/logging.cpp:87-106 | for any rest of the text: a backslash before a backslash, a quote or a question mark goes, before n it becomes a newline, before any other character it stays, and so does every other character |
| Unescaping.DecodeEscape | saga/impl/logging.cpp:89-106 | decoding undoes escaping of backslash, quote, question mark and newline |
| Unescaping.DecodeIsIdentityIff | saga/impl/logging.cpp:87-114 | a text is left alone if and only if it holds no escape sequence |
| Patterns.RegexFromCharacterSet | adaptors/default/advert/common_helpers.hpp:448-480 | emits the text of the set and stops at the closing bracket, or throws NoSuccess on an empty or unclosed set |
| Patterns.RegexFromStringChoice | adaptors/default/advert/common_helpers.hpp:482-515 | emits the text of the choice and stops at the closing brace, or throws NoSuccess on an empty alternative before a comma or an unclosed choice |
| Patterns.RegexFromPattern | adaptors/default/advert/common_helpers.hpp:517-557 | the scanner emits the text of exactly the items of the pattern, or throws NoSuccess on a malformed one |
| Patterns.ItemsReMatches | adaptors/default/advert/common_helpers.hpp:517-557 | the expression built from the items matches exactly the strings the wildcards denote |
| Patterns.ReadsBackIff | adaptors/default/advert/common_helpers.hpp:517-557 | the emitted text reads back as that expression if and only if no literal, set or alternative character is regular-expression syntax where it stands |
| Patterns.CompilationPreservesMeaning | adaptors/default/advert/common_helpers.hpp:517-557 | then the emitted text, as a regular expression, matches exactly the strings the pattern denotes |
| Patterns.RawCopiesChangeMeaning | adaptors/default/advert/common_helpers.hpp:542-553 | otherwise it need not: "." also matches "x", and an escaped star is no expression at all |

## Left out

- Operations.PerformKeepsBase: one time stamp `now` per transaction stands for current_timestamp in every trigger the transaction fires.
- Patterns.RegexFromPattern: patterns in which a `[` is the last character read are excluded, because the scanner steps past the end of the text there.
- Patterns.CompilationPreservesMeaning: the exact condition is proved for the expression that is read back (Patterns.ReadsBackIff); that the sets of strings differ whenever a syntax character is copied raw is not claimed, and is not so (a raw dot next to a set that no character is in changes nothing).
- Patterns.ItemsReMatches: the dot matches every character, as in Boost.Regex, one of the libraries saga/saga/util.hpp chooses from; where the dot excludes newlines, `*` and `?` do not match them either. Character classes, escapes and collation inside brackets are not part of the reader; a bracket that would need them counts as unreadable.
- Retry.ExecutedIsLastAttempt: rollback is assumed to succeed and sleeping between attempts is dropped; failures, and what others commit between the attempts, are inputs, at the granularity of an attempt.
- Walk.LookIsResolve: the selects of one find are one step, also where find is called outside a transaction (the probes of constructors, of make_dir and of remove, forced finds, change_dir).
- Directories.DirectoryObject.RemoveEntry: the two look-ups before the removal, like the one before make_dir's creation, see the tables as the call finds them.
- Recursion.FindRecursive: recursive listings are modelled without database failures and on a tree that does not change meanwhile.
- Listing.ListingIsComplete: matching a name with a regular expression inside the database is a predicate parameter.
- Pool.ConnectionCache.Release: one clock reading serves all age tests of a call; the mutex and the balancing of the multimap are dropped; of several entries with one key the first is taken.
- Pool.ConnectionCache.Aquire: opening a new connection is assumed to succeed.
- Exceptions.LastKnownGood: an object of unknown type has no last known good adaptor.
- Exceptions.GetError: two copies of one unset adaptor id would get one value when compared; the ids of adaptors are set before they are copied, so an unset id is taken to equal no other.
- Entries.EntryObject.Init: the path of the URL is a text already unescaped; hosts, schemes, ini files and monitoring are dropped, and so is the mode flag reset after creation.
- Handles.Database.FindForced: the unforced form is not modelled; the recursive listings use the forced one.
- Messages.IndentMessage: the branch that copies a line is a method of its own (WriteLine).
- attribute_exists, list_attributes, find_attributes and the unforced exists: they read only, and would repeat what get_attribute and list show.
- verify_status and the opened flag of a connection: plumbing.
- Non-recursive list and find, get_num_entries, get_entry, move and copy of the directory object: wrappers around list.
- Connect strings, SOCI, SQL text and the PostgreSQL and MySQL back ends: their schema and triggers are not part of this model.
- get_message and get_all_messages: concatenations of what Messages lays out.
