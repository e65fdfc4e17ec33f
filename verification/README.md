# Tagsistant, verified

Tagsistant is a semantic file system: a path such as `store/music/-/live/{/rock/jazz/}/@/song` is a
query over tags, relations between tags widen or narrow it, and ordinary file operations change the
tags of objects. This project models the logic behind that in Dafny and proves what it promises and,
where it breaks a promise, exactly when.

| module | what it models |
|---|---|
| `QueryGrammar`, `QueryCompiler` | the token loop that turns a path into an OR list of AND lists with `related` and `negated` chains, as a class that grows the tree in place |
| `QueryEvaluator`, `QueryMeaning` | which object a name stands for in a query, what tag groups and negations mean |
| `Reasoner`, `ReasonedQuery` | the search over the relation graph whose work queue is the chain it appends to, and what it makes of a query |
| `AliasExpansion` | the loop that rewrites `=alias` until none is left |
| `Schema`, `TagKey`, `Tables` | the tables and the tag-id cache, statement by statement |
| `Runs`, `TagStore` | the file operations as functions on the tables and as methods that change them, and all runs of them |
| `ObjectLife` | which steps of a run give an object its tags, take them, and take the object |
| `TableChanges` | what each operation does to every row of the other tables, and what objects are called after a run |
| `Archive` | what the calls on disk let through, and the files that belong to the objects |
| `Deduplication` | merging objects with equal content, on backends that do and do not abort a clashing update |
| `CreateLookup` | what a path creates, it finds again |
| `ConnectionPool` | the reader/writer lock, the pool of connections and its mutex, with any number of threads |
| `InodeCodec`, `ArchiveLayout`, `Listing` | inodes inside names, directories of the archive, homonyms in listings |
| `OptionParser` | the option parser that works in place on `argv` and on string buffers |

Code that changes things step by step is a class or a loop (`QueryTree`, `Reasoning`, `Store`,
`Directory`, `FuseArgs`, `Context`, `ExpandPath`). Each of its methods is proved against a function of
the old state, and the properties are lemmas about that function. The connection pool, where threads
interleave, is a transition system.

## Where the code does not do what it says

* **Negation.** The parser chains negated tags through `negated`, the evaluator follows `next`, and
  looks at the first AND node only (`src/path_resolution.c:362-395`). Of all the negations of an AND set
  one counts: see `QueryEvaluator.CompiledAndMeans`, `QueryMeaning.NegationGap` and
  `QueryMeaning.SecondNegationPassedOver`.
* **Groups.** A group stands for alternatives (ChangeLog:76-97), but at the head of an AND set it excludes
  by relation what its first member excludes, whichever member an object has.
  `QueryMeaning.GroupsAgreeIff` says for each object when that makes a difference,
  `QueryMeaning.GroupBarsMore` and `QueryMeaning.GroupBarsLess` give queries where it does.
* **Malformed queries.** Two kinds of path make the program follow a null pointer: a `+` inside an open
  group, followed by a tag (`src/path_resolution.c:591-602, 700-706`), see `QueryCompiler.NullNodeIff` and
  `QueryCompiler.PlusInGroupCrashes`; and a plus or a query without tags, when its name is resolved
  (`src/path_resolution.c:362`), see `QueryCompiler.EmptyEntryIff` and `QueryEvaluator.ResolveName`.
* **Special matches.** A triple tag with another operator than `eq`, in the query or brought in by the
  reasoner, seems to match as inode 1. An AND set of nothing else gives inode 1 for any name, even without
  any object (`QueryEvaluator.BlindSetGivesOne`); `QueryEvaluator.NamesObjectsIff` says which sets are safe.
* **Homonyms.** Of two objects with one name, one may hide the other: `QueryEvaluator.HomonymsHide`.
* **Relations.** Each anchor of the pattern for relations belongs to one alternative only
  (`src/path_resolution.h:41`), so `includesX` gets through to `mkdir`, which creates and caches the second
  tag before it gives up: `Runs.LetThroughIsLoose`, `Runs.MakeRelationSoundIff`. And `mkdir` makes relations
  between triple tags that no `rmdir` removes (`src/fuse_operations/rmdir.c:109-132`): `Runs.RemovableIff`.
* **Deleting part of a triple tag.** `rmdir store/ns:/k` first caches the id of some ns:/k=v for that path and
  then deletes the taggings and relations of this id, while the row stays
  (`src/fuse_operations/rmdir.c:63-66`, `src/sql.c:816-876`): `Runs.PartialDeletionTakesOthers` and
  `Runs.PartialDeletionExample`. `Tables.Db.DeletesOnlyIff` says when a deletion hits no other tag.
* **Hard links.** They are made outside any transaction (`src/fuse_operations/link.c:44-45`), so a link that
  fails on disk leaves an object without a file: `Archive.FailedLinkLeavesHusk`, `Archive.TiedIff`.
* **Names and the tag cache.** A rolled-back transaction leaves the ids of tags it created in the cache;
  a tag rename below a triple tag drops the wrong entry (`src/fuse_operations/rename.c:118-122`).
  `Runs.StepSoundIff` gives the exact condition for each operation.
* **Object rename.** The tables are changed for a source that resolves to no object, too
  (`src/fuse_operations/rename.c:60-80`): `Runs.RenameSoundIff`.  The rename on disk then fails and undoes
  it, unless the archive holds a file without an object: `Archive.RenamesSafeIffNoStray`.  Only a
  deduplicated file whose unchecked removal fails (`src/path_resolution.c:1641-1642`) is such a file:
  `Archive.NoStrayIff`.
* **Deduplication.** The comment at `src/deduplication.c:88` expects rows that collide with the unique
  constraint to be left behind one by one.  SQLite and MySQL abort the whole statement, and the
  `delete` that follows then loses tags: `Deduplication.LosingMerge`.  Both are modelled;
  `Deduplication.KernelConservesIff` and `Deduplication.PassConservesIff` say exactly when nothing is lost,
  and copies that share no tag, or all of them, never lose any (`Deduplication.AlikePassIsLossless`).
  A pass in an order other than by increasing inode may leave copies:
  `Deduplication.OnePerContentIffSmallestFirst`.
* **Inodes above 2^31.** They are printed with `%d` and not read back: `InodeCodec.RoundTripIffSigned`.
* **Listings.** A stored name that looks like another object's prefixed name shadows it:
  `Listing.DistinctIffNoImpostor`.
* **Alias names.** A pass on one alias also rewrites the head of a longer name: `=a/=ab` goes wrong unless the
  texts happen to agree (`AliasExpansion.PrefixNamesMisfireIff`).  `AliasExpansion.PassIsSubstitutionIff` says
  for all paths when a pass replaces references and nothing else.
* **Keys of the tag cache.** A tag whose name, key or value holds the separator shares its key with
  another tag, and only such a tag does: `TagKey.CleanIffKeyIsOwn`.
* **The number of connections** shown in the statistics is updated outside the mutex and may be too
  small, never too large: `ConnectionPool.CounterMayUnderstate`, `ConnectionPool.EveryRun`.

## Model

| member | source | states |
|---|---|---|
| `QueryGrammar.TokensOfWritten` | src/path_resolution.c:576-687 | a query written as path elements, up to the delimiter, is cut back into exactly its tokens, triple tags taking four elements |
| `QueryGrammar.WritesQuery` | src/path_resolution.c:576-640 | for every query, the path it is written as, element by element, with `{`, `}`, `-` and `+` |
| `QueryGrammar.DelimiterEnds` | src/path_resolution.c:576 | whatever starts with `@` ends the query, and nothing else does |
| `QueryCompiler.QueryTree.constructor` | src/path_resolution.c:1351-1365 | a fresh tree has no nodes, no pending negation, no error |
| `QueryCompiler.QueryTree.AddTag` | src/path_resolution.c:642-726 | a tag goes to the negated chain, the related chain or the spine, with the reasoner's reply, or fails for want of a tag to negate |
| `QueryCompiler.QueryTree.ReadTriple` | src/path_resolution.c:647-676 | a namespace takes key, operator and value as far as the path goes; other operators than `eq` force inodes into names |
| `QueryCompiler.PartialTriplesRead` | src/path_resolution.c:647-676 | the paths `ns:`, `ns:/k` and `ns:/k/o` are one tag with exactly the components given, and the reasoner is not asked |
| `QueryCompiler.CompleteTripleReads` | src/path_resolution.c:647-740 | `ns:/k/o/v` is one tag with all its components and the reasoner's reply |
| `QueryCompiler.OperatorsAre` | src/path_resolution.c:654-668 | the four operators by their texts; any other text is none |
| `QueryCompiler.PartialTripleNoted` | src/path_resolution.c:633-676 | the notes after a triple tag that ends the path early have its namespace and key, as far as they go |
| `QueryCompiler.TripleNoted` | src/path_resolution.c:651-676 | the notes with an operator: one that is none of the four leaves the noted one, and all but `eq` make names need inodes |
| `QueryCompiler.QueryTree.Turn` | src/path_resolution.c:578-750 | one turn of the loop is one step of the token machine, error message included |
| `QueryCompiler.QueryTree.ParseToken` | src/path_resolution.c:576-752 | a turn keeps the promise of the whole path and notes the last element it took |
| `QueryCompiler.QueryTree.ParseTokens` | src/path_resolution.c:576-752 | the loop computes the run of the token machine and stops at the delimiter |
| `QueryCompiler.QueryTree.ParseStore` | src/path_resolution.c:523-757 | outcome, tree, pending negation, notes, last tag and cursor (right after the delimiter) for every path |
| `QueryCompiler.StopsAtFirstOffence` | src/path_resolution.c:580-640 | the loop stops at the first token that is wrong in view of the tokens before it, with the message for what is wrong there, and succeeds without one |
| `QueryCompiler.NullNodeIff` | src/path_resolution.c:591-602 | the loop follows a null pointer exactly when a tag comes after a `+` in an open group that already has members, and nothing before it is refused |
| `QueryCompiler.PlusInGroupCrashes` | src/path_resolution.c:700-706 | every path that starts with `{/a/+/b/@` is one, for all tags a and b |
| `QueryCompiler.EmptyEntryIff` | src/path_resolution.c:591-602 | an OR entry without tags is left exactly by a `+` with no tag since the last one, or when no tag follows the last one |
| `QueryCompiler.ParseInvertsWriting` | src/path_resolution.c:576-752 | parsing the tokens of any well-formed query rebuilds exactly that query |
| `QueryCompiler.ParseWrittenPath` | src/path_resolution.c:523-757 | the same for a whole path; what follows the delimiter is left untouched |
| `QueryCompiler.RunGroup` | src/path_resolution.c:604-624 | a tag group becomes one spine node with all its members in the related chain |
| `QueryCompiler.GroupOfTwo` | src/path_resolution.c:700-740 | `{/c/d/}` as the parser builds it, chains in their order |
| `QueryCompiler.NegatedTwice` | src/path_resolution.c:687-740 | `a/-/b/-/c` as the parser builds it, chains in their order |
| `QueryCompiler.OrEntries` | src/path_resolution.c:591-602 | one OR entry per `+`, and one more, on every token sequence that parses |
| `QueryCompiler.SpineIsPositive` | src/path_resolution.c:686-715 | no spine node is ever negated |
| `QueryEvaluator.CheckSingleTagging` | src/path_resolution.c:195-219 | a match, which for operators other than `eq` is inode 1, or 0 only if no object of that name has the tag |
| `QueryEvaluator.CheckWithRelated` | src/path_resolution.c:315-334 | the first match among a tag and its related chain, or 0 only if none of them matches |
| `QueryEvaluator.GuessInode` | src/path_resolution.c:266-411 | for every AND set, ALL and special matches included: what it returns is what the set gives; it returns whatever the set gives when each check has one answer, and otherwise misses it only where two tags can be answered with different inodes |
| `QueryEvaluator.ResolveName` | src/path_resolution.c:1469-1478 | the first OR entry that gives an inode, 0 if none does, or a null pointer if an entry without tags comes first |
| `QueryEvaluator.GivesOrdinary` | src/path_resolution.c:266-411 | without special matches an AND set gives objects of that name that satisfy it, and all of them if names are unique |
| `QueryEvaluator.HomonymsHide` | src/path_resolution.c:336-346 | two objects of one name, of which the second has both tags of a query that may miss it |
| `QueryEvaluator.SpecialGivesOne` | src/path_resolution.c:201-203 | a triple tag with another operator than `eq`, written or reasoned, makes inode 1 of every answer it has a part in |
| `QueryEvaluator.BlindSetGivesOne` | src/path_resolution.c:201-203 | a set of such tags only gives inode 1 for every name, with no object at all in the tables |
| `QueryEvaluator.NamesObjectsIff` | src/path_resolution.c:266-411 | without ALL, what a set gives always bears the name exactly when some tag, with its related tags, has no special match, or the negated tag that counts has one |
| `QueryEvaluator.CompiledHolds` | src/path_resolution.c:292-352 | the spine of a compiled AND set asks for exactly its tags and groups |
| `QueryEvaluator.FirstNegated` | src/path_resolution.c:687-699 | which item ends up at the head of the first node's negated chain |
| `QueryEvaluator.CompiledAndMeans` | src/path_resolution.c:266-411 | the exact meaning of a compiled AND set: all tags and groups hold, and one negation counts |
| `QueryMeaning.ExpansionsAreChoices` | ChangeLog:76-97 | an expansion keeps the items in place and picks one tag of each group, and every such pick is one |
| `QueryMeaning.ExpandedMeans` | ChangeLog:76-97 | what the expansion of an AND set accepts: each choice of the first tag is barred by itself |
| `QueryMeaning.GroupsAgreeIff` | ChangeLog:76-97 | an AND set and its expansion agree on an object exactly when it lacks something anyway, or the first member's bar agrees with those of the members it has |
| `QueryMeaning.GroupsAbbreviate` | ChangeLog:76-97 | they agree on every object when the tags that may stand first bring the same bar, whatever other relations there are |
| `QueryMeaning.GroupBarsMore` | ChangeLog:76-97 | a group that misses an object its expansion finds |
| `QueryMeaning.GroupBarsLess` | ChangeLog:76-97 | a group that finds an object its expansion misses |
| `QueryMeaning.ExpansionPreservesMeaning` | ChangeLog:76-97 | replacing all groups of a query by `+`-separated AND sets changes nothing about what it accepts |
| `QueryMeaning.PlainExpansionPreservesMeaning` | ChangeLog:76-97 | with reasoning off it changes nothing for any query |
| `QueryMeaning.DocumentedExpansion` | ChangeLog:81-87 | `t1/{/t2/t3/}` expands to `t1/t2/+/t1/t3` |
| `QueryMeaning.ExpansionIsPlain` | ChangeLog:76-97 | the expansion is a well-formed query without groups |
| `QueryMeaning.FirstNegationAsDocumented` | src/path_resolution.c:359-395 | negation means what it says when the only negated tag comes right after the first tag |
| `QueryMeaning.NegationGap` | src/path_resolution.c:359-395 | in general the evaluator accepts too much, by exactly the negations further on |
| `QueryMeaning.SecondNegationPassedOver` | src/path_resolution.c:359-395 | a concrete query that accepts an object it negates |
| `QueryMeaning.LookUpPath` | src/path_resolution.c:1461-1490 | from the text of a path to an inode: the one in the name, or what some AND set of the query gives, for every well-formed query |
| `QueryMeaning.LookUpOrdinary` | src/path_resolution.c:1461-1490 | without special matches that is an object of that name the query accepts, and every such object when names are unique |
| `QueryMeaning.AllGivesByName` | src/path_resolution.c:293-309 | an AND set that begins with ALL gives every object of the name, or the inode in the name, whatever follows and whatever the tables hold for ALL |
| `QueryMeaning.AllFindsByName` | src/path_resolution.c:293-309 | `store/ALL/@/name` finds exactly the objects of that name |
| `QueryMeaning.AllAfterTag` | src/path_resolution.c:292-309 | `a/ALL` gives the objects of the name if one of them carries a, and nothing otherwise |
| `QueryMeaning.OtherOperatorsGiveOne` | src/path_resolution.c:201-203 | a single triple tag with `gt`, `lt`, `inc` or an unknown operator gives inode 1 and nothing else |
| `QueryMeaning.EqualGivesCarriers` | src/path_resolution.c:195-219 | a single tag without relations gives exactly the objects of the name that carry it |
| `Reasoner.Reasoning.Matches` | src/reasoner.c:80-134 | the duplicate check answers whether the tag is the start or in one of its chains |
| `Reasoner.Reasoning.AddReasonedTag` | src/reasoner.c:109-170 | duplicates are ignored, other tags are appended to the chain that `negate` selects |
| `Reasoner.Reasoning.PositiveRows` | src/reasoner.c:270-283 | tags the node includes, and its equivalents in both directions |
| `Reasoner.Reasoning.NegativeRows` | src/reasoner.c:289-297 | tags the node excludes |
| `Reasoner.Reasoning.FollowPositive` | src/reasoner.c:270-283 | afterwards every positive edge of the current node is followed, nothing unreachable is added |
| `Reasoner.Reasoning.FollowNegative` | src/reasoner.c:288-297 | after the first node exactly the banned tags are known, later nodes change no answer |
| `Reasoner.Reasoning.Inner` | src/reasoner.c:220-340 | exact answer on every relation graph, cycles included, by a measure that drops by one per call; `added_tags` is the number of nodes |
| `Reasoner.Reason` | src/path_resolution.c:727-740 | the related chain is the set of reachable tags, each once and without the start; the negated chain is the set of banned tags |
| `Reasoner.Graph.ClosedContainsReachable` | src/reasoner.c:220-306 | a set closed under the allowed edges holds every reachable tag |
| `Reasoner.Graph.PositiveIff` | src/reasoner.c:270-283 | which rows make a positive edge |
| `Reasoner.Graph.NegativeIff` | src/reasoner.c:288-297 | which rows make a negative one |
| `Reasoner.Graph.EquivalentsReachEachOther` | src/reasoner.c:270-283 | equivalent tags lead to each other, whatever is excluded |
| `Reasoner.Graph.IncludedIsReached` | src/reasoner.c:270-283 | an included tag is reached, and `includes` alone does not lead back |
| `ReasonedQuery.WordMeans` | src/path_resolution.c:315-334 | a tag in a query matches the objects with a tag the relations lead to |
| `ReasonedQuery.ReasonedAndMeans` | src/path_resolution.c:266-411 | the meaning of an AND set told by the relation graph, when the first tag excludes nothing |
| `ReasonedQuery.ExcludingAndMeans` | src/path_resolution.c:359-395 | when it excludes something, one excluded tag bars objects and no written negation has a say |
| `AliasExpansion.ScanRewrite` | src/path_resolution.c:1284-1296 | rewriting the text by one alias is substituting its reference in the parsed path, for all paths |
| `AliasExpansion.EveryRunComputesMeaning` | src/path_resolution.c:1264-1311 | whichever alias is rewritten first, runs are bounded and end in full recursive substitution |
| `AliasExpansion.LoopNeverLeaves` | src/path_resolution.c:1275-1303 | a path that mentions an alias in a loop mentions one after every pass |
| `AliasExpansion.FinishesIffNoLoop` | src/path_resolution.c:1275-1303 | the rewriting can stop exactly when the path mentions no alias in a loop |
| `AliasExpansion.FindReference` | src/path_resolution.c:1270-1278 | the leftmost match of the alias expression, or nothing |
| `AliasExpansion.CompressSlashes` | src/path_resolution.c:1305-1309 | computes the compressed path in one sweep |
| `AliasExpansion.CompressNormal` | src/path_resolution.c:1305-1309 | no two slashes in a row remain, and compressing again changes nothing |
| `AliasExpansion.CompressKeepsElements` | src/path_resolution.c:1305-1309 | the elements between the slashes stay as they are |
| `AliasExpansion.CompressKeepsEnds` | src/path_resolution.c:1305-1309 | so do a slash at the beginning and one at the end |
| `AliasExpansion.UnknownVanishes` | src/path_resolution.c:1232-1256 | an alias that is not in the table vanishes from the path |
| `AliasExpansion.KnownStands` | src/path_resolution.c:1232-1256 | one that is in the table stands for its query |
| `AliasExpansion.ExpandPath` | src/path_resolution.c:1264-1315 | terminates, and returns the fully substituted path without repeated slashes |
| `AliasExpansion.PassIsSubstitutionIff` | src/path_resolution.c:1280-1292 | for every path: a pass replaces the references to its alias and nothing else exactly when no other reference has `=name` in it, or the alias stands for itself |
| `AliasExpansion.PrefixNamesMisfireIff` | src/path_resolution.c:1275-1303 | the whole run on `=a/=ab`, for all such names and texts, and exactly when its result is the one that is meant |
| `AliasExpansion.PrefixNamesMisfire` | src/path_resolution.c:1275-1303 | two aliases for which it is not |
| `TagKey.CacheKeyInjective` | src/sql.h:118 | the key of a tag without the separator in it is no other tag's, whatever that one holds |
| `TagKey.CleanIffKeyIsOwn` | src/sql.h:118 | a tag shares its key with no other tag exactly when none of its components holds the separator |
| `TagKey.CleanIff` | src/sql.h:118 | what it is not to hold the separator |
| `TagKey.CacheKeyIs` | src/sql.h:118 | the key, with its separators written out |
| `TagKey.UncleanKeysCollide` | src/sql.h:118 | a flat tag and a triple tag that share a key |
| `Tables.Db.TagKeeps` | src/sql.c:885-908 | tagging adds exactly one tag to one object, creates at most that row, keeps ids and a correct cache |
| `Tables.Db.UntagKeeps` | src/sql.c:917-932 | untagging takes exactly one tag from one object and changes nothing else |
| `Tables.Db.DeleteKeeps` | src/sql.c:860-876 | a deletion takes the row of its tag and the taggings of the id it fetched, whosever that is; all other tags stay, with their ids (for relations see `TableChanges`) |
| `Tables.Db.DeletesOnlyIff` | src/sql.c:860-876 | it takes its own tag and no other from the objects exactly when the fetched id is its own or tags nobody |
| `Tables.Db.CreateKeeps` | src/sql.c:728-741 | creating a tag adds its row only, and existing rows keep their ids |
| `Tables.Db.FetchKeeps` | src/sql.c:800-839 | a lookup adds right cache entries only |
| `Tables.Db.TagAllKeeps` | src/path_resolution.c:1709-1731 | the same for all the tags of a path |
| `Tables.Db.UntagAllKeeps` | src/path_resolution.c:1709-1731 | the same for all the tags of a path |
| `Tables.Db.DeleteAllKeeps` | src/fuse_operations/rmdir.c:22-35 | the same for all the tags of a path, partly given triple tags included |
| `Runs.CachedLookUpIsPlain` | src/sql.c:800-839 | for flat tags and complete triples the cached lookup returns what the table says |
| `Runs.AnswersIff` | src/sql.c:816-827 | a lookup returns the id of a row with the name, and with the key and the value if they are given, or 0 if there is none |
| `Runs.LookUpKeeps` | src/sql.c:800-839 | any lookup, partial triples included, leaves the cache right |
| `Runs.CreateKeeps` | src/utils.c:115-159 | creating an object keeps integrity, and the object exists with grown tags |
| `Runs.CreateCarries` | src/utils.c:115-159 | who carries which tag after a creation |
| `Runs.UnlinkKeeps` | src/fuse_operations/unlink.c:58-75 | an object is deleted exactly when its last tag goes; no other object or tag is touched |
| `Runs.SurvivesWhileTagged` | src/fuse_operations/unlink.c:58-75 | over any sequence of removals an object survives exactly while some tag of its was never removed (over runs of all operations, see `LivesUntilTaken`) |
| `Runs.RenameCarries` | src/fuse_operations/rename.c:62-80 | old tags minus the source path's plus the destination path's |
| `Runs.RenameSoundIff` | src/fuse_operations/rename.c:60-80 | integrity is kept exactly when the source resolves, or nothing changes, or nothing is tagged |
| `Runs.RollbackSoundIff` | src/path_resolution.c:1645-1654 | after a rollback the cache is right exactly when no tag had been created |
| `Runs.FailedCreateSoundIff` | src/path_resolution.c:1645-1654 | the same for a creation that fails on disk |
| `Runs.FailedRenameSoundIff` | src/path_resolution.c:1645-1654 | the same for an object rename that fails on disk |
| `Runs.RenameTagSoundIff` | src/fuse_operations/rename.c:105-123 | a tag rename keeps the cache right exactly when its path holds no triple, or the tag was not cached, or nothing was renamed |
| `Runs.RelateKeeps` | src/fuse_operations/mkdir.c:81-133 | the row added to the relations has the ids of the two tags, both existing |
| `Runs.LetThroughIsLoose` | src/path_resolution.h:41 | the parser lets all relations through, and texts that are none |
| `Runs.LetThroughIff` | src/path_resolution.h:41 | the texts that get through, written out |
| `Runs.MakeRelationSoundIff` | src/fuse_operations/mkdir.c:81-118 | integrity and cache are kept exactly when the second tag existed, or the first did and the relation is one; otherwise the roll-back leaves a wrong entry |
| `Runs.UnrelateKeeps` | src/fuse_operations/rmdir.c:112-116 | between flat tags exactly the named relation goes |
| `Runs.RemoveRelationKeeps` | src/fuse_operations/rmdir.c:105-133 | integrity is kept, whatever the tags and the relation text |
| `Runs.RemovableIff` | src/fuse_operations/rmdir.c:105-133 | some `rmdir` removes a relation exactly when it is between flat tags |
| `Runs.StepSoundIff` | src/fuse_operations/rename.c:60-123 | any operation keeps integrity and cache exactly when it is none of the harmful steps listed in `Harmless` |
| `Runs.RunKeepsSound` | src/sql.c:800-932 | every run of harmless steps keeps them |
| `Runs.EveryRunIsSound` | src/sql.c:800-932 | from empty tables, after any such run: no dangling tagging or relation, and lookups through the cache answer like the table |
| `Runs.PartialDeletionTakesOthers` | src/fuse_operations/rmdir.c:63-66 | on all tables without the cache entry: reading and deleting a partly given triple tag takes a complete one from its objects |
| `Runs.PartialDeletionExample` | src/fuse_operations/rmdir.c:63-66 | tables on which that happens |
| `ObjectLife.StepObjects` | src/fuse_operations/unlink.c:58-75 | for every operation: which object it brings and which it takes away |
| `ObjectLife.LivesUntilTaken` | src/fuse_operations/unlink.c:58-75 | over any run of all operations an object is there exactly until a step takes it: through a path with all the tags it still has, through ALL, or in favour of a copy |
| `ObjectLife.StepCarries` | src/fuse_operations/rename.c:62-80 | for every operation: which tags every object has afterwards |
| `ObjectLife.RunCarries` | src/fuse_operations/rename.c:62-80 | after any run an object has exactly the tags it had or was given and that no step has taken since |
| `TableChanges.DeletedRelations` | src/sql.c:873-876 | deleting the tags of a path takes exactly the relations with one of the fetched ids at either end |
| `TableChanges.StepRelations` | src/fuse_operations/mkdir.c:120-133 | for every operation: which relation it adds or takes, and that every other row of `relations` stays as often as it is there |
| `TableChanges.StepRows` | src/sql.c:728-741 | for every operation: which rows of `tags` there are afterwards |
| `TableChanges.StepIds` | src/fuse_operations/rename.c:110-116 | for every operation: every row of `tags` stays under its id, renamed or not, unless its tag is deleted |
| `TableChanges.StepNames` | src/fuse_operations/rename.c:68-74 | for every operation: what each object is called and which checksum it has afterwards; new objects get the next inode |
| `TableChanges.StepNumbers` | src/utils.c:132-137 | for every operation: the next inode is taken by a new object, and by nothing else |
| `TableChanges.StepCache` | src/sql.c:800-876 | for every operation: about which flat tags and complete triple tags something is cached afterwards, rolled back or not |
| `TableChanges.RunNames` | src/fuse_operations/rename.c:68-74 | after any run an object is called what the last step that named it said, or what it was called before |
| `Archive.NoStrayIff` | src/path_resolution.c:1641-1654 | a step leaves a file without an object exactly when it is a deduplication whose removal fails |
| `Archive.NoHuskIff` | src/fuse_operations/link.c:44-79 | a step leaves an object without a file exactly when it is a hard link that fails |
| `Archive.TiedIff` | src/path_resolution.c:1641-1654 | objects and files stay the same set exactly when neither happens |
| `Archive.FailedLinkLeavesHusk` | src/fuse_operations/link.c:44-79 | a hard link that fails keeps the tables sound and its object in them |
| `Archive.StepSoundOnDiskIff` | src/fuse_operations/rename.c:94-95 | with the disk's say in what is committed, the harmless steps no longer depend on the source of a rename |
| `Archive.RenamesSafeIffNoStray` | src/fuse_operations/rename.c:60-95 | committed object renames keep integrity exactly as long as no file lacks its object |
| `Archive.EveryRunOnDisk` | src/fuse_operations/unlink.c:85-89 | from nothing, every run of harmless steps that leave no stray file keeps the tables sound and every file with its object, and every object with its file unless a hard link failed |
| `TagStore.Store.constructor` | src/sql.c:378-515 | empty tables and an empty cache |
| `TagStore.Store.GetTagId` | src/sql.c:800-839 | the cached id, or else the row's, which is then cached |
| `TagStore.Store.CreateTag` | src/sql.c:728-741 | adds the row unless it exists |
| `TagStore.Store.DeleteTag` | src/sql.c:860-876 | the state is `Deleted` of the old one |
| `TagStore.Store.TagObject` | src/sql.c:885-908 | the state is `Tagged` of the old one |
| `TagStore.Store.UntagObject` | src/sql.c:917-932 | the state is `Untagged` of the old one |
| `TagStore.Store.TraverseTag` | src/path_resolution.c:1709-1731 | two nested loops tag with every spine tag in order |
| `TagStore.Store.TraverseUntag` | src/path_resolution.c:1709-1731 | two nested loops untag every spine tag in order |
| `TagStore.Store.CreateAndTagObject` | src/utils.c:115-159 | an object found by name or a new one gains the tags of the path |
| `TagStore.Store.LinkObject` | src/fuse_operations/link.c:64-79 | a new object with the tags of the path, whatever happens on disk |
| `TagStore.Store.UnlinkObject` | src/fuse_operations/unlink.c:42-110 | the whole new state, through ALL or not, and after a failure on disk; the disk is asked exactly when the row went |
| `TagStore.Store.RemoveTags` | src/fuse_operations/rmdir.c:63-66 | all the tags of an incomplete path are deleted |
| `TagStore.Store.RenameObject` | src/fuse_operations/rename.c:60-98 | the whole new state, rollback included |
| `TagStore.Store.RenameTag` | src/fuse_operations/rename.c:105-123 | the whole new state, with the unique constraint and the entry dropped from the cache |
| `TagStore.Store.MakeRelation` | src/fuse_operations/mkdir.c:81-133 | the whole new state; it succeeds exactly when the first tag exists and the relation is one |
| `TagStore.Store.RemoveRelation` | src/fuse_operations/rmdir.c:105-133 | the whole new state; it succeeds exactly when both tags are flat and exist and the relation is one |
| `TagStore.Store.MoveTagging` | src/deduplication.c:83-91 | row by row, as the source expects it: each row moves unless its target row exists |
| `TagStore.Store.UpdateTagging` | src/deduplication.c:83-91 | the same on backends that pass over a clash and on those that abort the statement |
| `TagStore.Store.FirstWithChecksum` | src/deduplication.c:59-64 | the smallest inode with the checksum, or 0 |
| `TagStore.Store.FindDuplicates` | src/deduplication.c:55-110 | the merge on either kind of backend, and whether the object stays |
| `TagStore.Store.DeduplicationKernel` | src/deduplication.c:158-187 | the checksum is stored, then the object is merged |
| `TagStore.Store.DeduplicationLoop` | src/deduplication.c:237-256 | the queue is worked off in its order |
| `Deduplication.KernelKeepsClasses` | src/deduplication.c:55-110 | on either kind of backend tags stay within their class of equal contents, no class dies out, and an object only yields to a smaller copy |
| `Deduplication.KernelConservesIff` | src/deduplication.c:55-110 | a step keeps every tag of every class exactly when it merges nothing, or its update goes through, or another copy has each tag of the object |
| `Deduplication.PassConservesIff` | src/deduplication.c:237-256 | a pass in any order keeps every tag exactly when each of its steps does: what is lost never comes back |
| `Deduplication.PassConserves` | src/deduplication.c:83-91 | row by row, as the source expects it, no pass loses a tag |
| `Deduplication.AlikePassIsLossless` | src/deduplication.c:83-91 | copies that share no tag or all of them never lose one, in any order and on either kind of backend |
| `Deduplication.LosingMerge` | src/deduplication.c:83-91 | a merge that loses a tag when the update fails as a whole, and does not when it passes rows over |
| `Deduplication.PassOutcome` | src/deduplication.c:307-321 | exactly which objects a pass leaves and which checksums they carry, in any order |
| `Deduplication.LosersByPosition` | src/deduplication.c:62-97 | an object goes exactly when a smaller copy was visited before it |
| `Deduplication.OnePerContentIffSmallestFirst` | src/deduplication.c:307-321 | one object per content remains exactly when the smallest of each content is visited first |
| `Deduplication.SmallestStays` | src/deduplication.c:62-97 | then the survivors are the smallest inodes of their contents |
| `Deduplication.InheritedIffLossless` | src/deduplication.c:83-91 | and each inherits the tags of all the copies exactly when every merge is lossless |
| `Deduplication.IncreasingIsSmallestFirst` | src/deduplication.c:307-321 | increasing inode order is such an order |
| `Deduplication.FailureKeepsTagsIff` | src/deduplication.c:83-91 | after an update that fails as a whole the kept object has the tags of both exactly when they shared none or it had them all |
| `CreateLookup.TreeTagsOfQuery` | src/path_resolution.c:1709-1731 | what a path tags an object with: the tags and the first of each group, neither negated tags nor later members |
| `CreateLookup.TripleIsGiven` | src/path_resolution.c:1709-1731 | creating through `ns:/k/eq/v` gives the object exactly the tag ns:/k=v |
| `CreateLookup.FlatTagsAreGiven` | src/path_resolution.c:1709-1731 | creating through `a/-/b/{/c/d/}` gives it a and c, neither b nor d |
| `CreateLookup.CreatedIsAccepted` | src/utils.c:115-159 | an AND set of the path accepts the object created through the path exactly when the path does not give the tag it excludes |
| `CreateLookup.CreatedIsAcceptedIff` | src/utils.c:115-159 | the same for the whole query |
| `CreateLookup.LookUpCreated` | src/path_resolution.c:1461-1490 | parsing the path again and resolving the name finds the new object, or nothing if every AND set defeats itself |
| `ConnectionPool.Pool.WriterIsAlone` | src/sql.c:227-231 | a thread with a transaction shares the database with nobody |
| `ConnectionPool.Pool.AdmitsIff` | src/sql.c:227-231 | who may enter: anyone when nobody is inside, a reader also besides readers |
| `ConnectionPool.Pool.WaitsIff` | src/sql.c:234-259 | only the mutex makes a thread inside wait, before it looks for a connection and before it gives one back |
| `ConnectionPool.Pool.NoDeadlock` | src/sql.c:222-371 | while threads are inside, one of them can take a step |
| `ConnectionPool.Pool.StepKeeps` | src/sql.c:222-371 | every step keeps locks and threads in agreement and every connection in exactly one place |
| `ConnectionPool.Pool.CounterKeeps` | src/sql.c:326 | the counter never overstates the connections |
| `ConnectionPool.Pool.ExactUnlessStale` | src/sql.c:326 | an exact counter stays exact except for overtaken updates |
| `ConnectionPool.Pool.LagKeeps` | src/sql.c:326 | a counter that lags behind never catches up |
| `ConnectionPool.ExactIffNoStale` | src/sql.c:326 | over any run, an exact counter ends exact just when no update was overtaken |
| `ConnectionPool.Pool.AllInUse` | src/sql.c:236-262 | a thread that finds the pool empty: all connections are with other threads |
| `ConnectionPool.Pool.BoundKeeps` | src/sql.c:236-326 | connections never outnumber the threads of the busiest moment |
| `ConnectionPool.VisitReuses` | src/sql.c:236-371 | a lone thread is given the connection in front of the pool and puts it back there |
| `ConnectionPool.VisitMakes` | src/sql.c:264-371 | one that finds none makes one, counts it, and leaves it in the pool |
| `ConnectionPool.EveryRun` | src/sql.c:222-371 | all of this for every interleaving; once all threads have left no connection is lost, and the counter is exact just when no update was overtaken |
| `ConnectionPool.CounterMayUnderstate` | src/sql.c:326 | a run of two readers after which two connections count as one |
| `InodeCodec.RoundTrip` | src/path_resolution.c:227-255 | extracting and stripping undo prefixing, for all names and inodes from 1 below 2^31 |
| `InodeCodec.RoundTripIffSigned` | src/path_resolution.c:227-255 | over the 32-bit range the bound is exact |
| `InodeCodec.ExtractsPrefix` | src/path_resolution.c:233-238 | digits and `___` in front are the inode, and are taken off |
| `InodeCodec.ExtractsLeftmost` | src/path_resolution.c:239-244 | without them the leftmost path element that has them gives the inode, and nothing is taken off |
| `InodeCodec.ExtractsNothing` | src/path_resolution.c:227-255 | where neither is there, the inode is 0 and the name stays |
| `InodeCodec.ReadsAnyNumber` | src/path_resolution.c:237 | any number in front is read in 64 bits, where it saturates, and kept in 32 |
| `InodeCodec.StoredNames` | src/path_resolution.c:1005 | stored names, with the upper half of the inodes as negative numbers |
| `InodeCodec.WithInodeInjective` | src/path_resolution.c:1005 | a prefixed name determines inode and name, over the 32-bit range |
| `InodeCodec.ParseInvertsDecimal` | src/path_resolution.c:234-244 | reading back what was printed in decimal |
| `InodeCodec.DecimalDigits` | src/path_resolution.c:1005 | decimal notation, digit by digit |
| `ArchiveLayout.SameDirectoryIffCongruent` | src/path_resolution.c:986-1017 | two objects share a directory exactly when their inodes agree modulo 1000 |
| `ArchiveLayout.DirectoryByDigits` | src/path_resolution.c:986-1000 | a directory for each digit of the inode modulo 1000, the last one first |
| `ArchiveLayout.DistinctPaths` | src/path_resolution.c:986-1017 | different inodes never share a full path, whatever the names |
| `Listing.Directory.StoreFiller` | src/fuse_operations/readdir.c:93-130 | homonyms, or all objects if forced, are listed with their inodes, in order |
| `Listing.ShownAt` | src/fuse_operations/readdir.c:93-130 | one entry per object |
| `Listing.DistinctIffNoImpostor` | src/fuse_operations/readdir.c:93-130 | all entries differ exactly when inodes are forced or no single name spells another's prefixed name |
| `Listing.EveryEntryDecodes` | src/fuse_operations/readdir.c:93-130 | prefixed entries decode to their own object |
| `OptionParser.FuseArgs.AddArg` | src/compat/fuse_opt.c:46-63 | appends in a grown array that ends in null |
| `OptionParser.FuseArgs.InsertArg` | src/compat/fuse_opt.c:65-78 | inserts at a position and shifts the rest |
| `OptionParser.FirstComma` | src/compat/fuse_opt.c:257-273 | the next comma of a buffer, or its end |
| `OptionParser.Context.ProcessRealOptionGroup` | src/compat/fuse_opt.c:257-273 | overwriting commas in place gathers the pieces in order |
| `OptionParser.Context.ProcessOptionGroup` | src/compat/fuse_opt.c:275-291 | the same with and without commas |
| `OptionParser.Context.ProcessOne` | src/compat/fuse_opt.c:293-313 | what one argument does to groups, other arguments and cursor, and when it fails |
| `OptionParser.Context.Emit` | src/compat/fuse_opt.c:323-334 | the gathered group goes in front, a separator left last goes away |
| `OptionParser.Context.OptParse` | src/compat/fuse_opt.c:315-337 | succeeds exactly when the arguments have a normal form, and yields it |
| `OptionParser.FuseOptParse` | src/compat/fuse_opt.c:339-364 | the same through the public function, and what stays unchanged on failure |
| `OptionParser.NormalIsNormal` | src/compat/fuse_opt.c:315-337 | parsing its own output changes nothing |
| `OptionParser.NormalGathersPieces` | src/compat/fuse_opt.c:95-113 | the single `-o` holds all comma pieces of all groups in input order, none with a comma in it |
| `OptionParser.SeparatorWithoutGroup` | src/compat/fuse_opt.c:332-335 | without an option group a `--` goes if nothing follows it, and stays if something does |
| `OptionParser.SeparatorWithGroup` | src/compat/fuse_opt.c:326-335 | with one it stays, and the group goes in front of everything else |
| `OptionParser.GroupsAreJoined` | src/compat/fuse_opt.c:326-330 | groups from all over the command line, written together or apart, become one, joined by commas |
| `OptionParser.FailsIffBareOptionLast` | src/compat/fuse_opt.c:80-88 | parsing fails exactly when the last argument is a `-o` that the parser looks at by itself and that lacks its group |
| `OptionParser.JoinSplit` | src/compat/fuse_opt.c:95-113 | joining undoes splitting at commas |

## Left out

* Linked lists are sequences: the chains of a query tree, the pool and `argv` strings. Shared nodes,
  freeing and failed allocation are not captured. Where the source updates in place, so do the classes,
  but nodes of a chain are values inside them.
* The parser asks for tag ids and for the reasoner's reply through functions (`Services`); the effect of
  those lookups on the tag cache is modelled apart, in `Runs` and `TagStore`. `ReasonedQuery` ties the
  reply to the reasoner.
* QueryEvaluator.CheckSingleTagging: among objects of the same name the last row of the SQL result
  counts; which one that is stays open.
* QueryMeaning.LookUpPath: the object path has one element; paths below a directory object, and the
  splitting of the path into at most 512 elements, are not modelled. The tag check after an extracted
  inode has no effect, because its reset to 0 is ignored (`src/path_resolution.c:1044, 1547-1548`).
* CreateLookup.LookUpCreated: reasoning is off, as with `@@`, and the new name is not yet in use; two
  objects of one name may hide each other.
* AliasExpansion.ExpandPath: alias names hold no regular-expression characters and none is a prefix of
  another; the expression is compiled from the name itself. Paths that mention an alias in a loop are
  excluded because the source then does not return.
* TagStore.Store.RemoveRelation: a null name in a query is taken to match no tag; the C library may print it
  as `(null)`, and then a tag of that name would be meant.
* Runs.MakeRelationSoundIff: relations between flat tags and complete triple tags; a triple tag on the right
  that is only partly given is created without a relation.
* Archive.TiedIff: the archive is a set of inodes; that a file's name also has to match is left out, which
  lets the model commit renames and removals that the disk would refuse, never the other way round.
* Runs.EveryRunIsSound: starts from empty tables and takes steps that are harmless in the exact sense of
  `StepSoundIff`. Autotagging, which tags objects the same way, is not an operation of its own.
* Runs.RollbackSoundIff: a rollback is taken to restore the four tables and their counters, as SQLite does.
* Runs.RenameTagSoundIff: renames of flat tags; a rename below `tags/` has no last tag to rename and is
  left out, and so are renames of namespaces.
* Tables.Db.FetchKeeps: cache entries of partly specified triples are allowed in the cache but nothing is
  claimed about them, because a missing and an empty component share a key.
* Ids and inodes do not overflow in the tables; only `InodeCodec`, `ArchiveLayout` and `Listing` have the
  32-bit width.
* SQL text, quoting, libdbi and the differences between SQLite and MySQL: queries are operations on maps
  and sets, with the unique constraints of the schema and either reaction to a clash in an update.
* Deduplication.PassOutcome: SHA-1 is a function of the object that never gives the blank checksum,
  contents do not change during a pass, and the path of a queued object resolves to the object.
* Listing.DistinctIffNoImpostor: the module that fills the data set is not part of this model; it is taken
  to give each name a non-empty list of distinct inodes.
* ConnectionPool.EveryRun: connections stay alive, every release gives the flag that the acquisition was
  given, and steps are interleaved without weak memory effects. The dedicated connection of
  `tagsistant_fix_checksums` (`src/deduplication.c:310, 320`), which is taken as a reader and released as a
  writer, is left out.
* ConnectionPool.Pool.NoDeadlock: says that some thread can go on, not that each one eventually does.
* OptionParser.FuseOptParse: the option table is empty and there is no callback; templates and formatted
  parameters are left out.
* ArchiveLayout.DistinctPaths: paths are strings; the files themselves are not modelled.
* Out of scope: the caches for query trees, AND sets and reasoning, which are compiled out; statistics and
  logging, which change nothing; the INI file; the plugins, whose tags come from outside; and the FUSE
  glue, which only passes requests on.
