# GConf: a verified model

GConf is a hierarchical configuration store: a client library with a cache, a daemon that is reached
over D-Bus, and backends that keep the values on disk. This project models its hard parts in Dafny and
proves what they keep.

**The markup backend** (`Markup*.dfy`). Files are sequences of start, end and text events. `MarkupPrinter`
is the writer and `MarkupParser` the stack machine that reads; `MarkupReader` is the same machine as an
object whose stacks change in place, proved against it. `MarkupMirror` shows that the stacks match the open
elements of typed documents, `MarkupAborts` on which others the reader aborts, and `MarkupRoundTrip` exactly
what comes back from a file. `MarkupLocaleFiles` and `MarkupLocales` do the same for the files that hold the
descriptions of other locales and are loaded on demand, and `MarkupLocaleAnswers` says which answers survive
that. `MarkupSync*` model the lazily loaded tree with its dirty flags over a disk on which any save may fail,
and lead to durability: a sync returns TRUE exactly if all its saves succeed, and then the files answer every
key as the changes to it left it, cleaned of local schemas that no longer apply; that is what the callers put
there whenever the schemas of a key keep one type. Files that already hold such local schemas are part of
that model, and what a reload then answers is stated exactly. What a change does is said over the fields of
the entry (`MarkupEntries`), and `MarkupSyncRuns` carries the last change of a key into the files;
`MarkupSyncPrune` says which directories go. `MarkupTree` has the loops of that sync, and `MarkupMergedSync`
the sync of a subtree that is kept in one main file and a file for each other locale.

**Change notification** (`Database`, `Engine`, `ClientDirs`, `Client`, `ClientObject`). The server walks
from a key to the root by chopping a buffer and queues messages; the client registers only its topmost
directories, caches what it reads and handles messages in order. The proofs run from the walk over the
registration invariant to cache coherence and to exactly one message and one callback per change. `Keys`
and `KeyWalk` relate keys as strings to lists of components.

**Listeners** (`Listener*.dfy`). The sorted tree, the flat array with recycled indices and the reference
counts, under additions, removals and notifications that callbacks interrupt.

**The rest.** `Codec` and `ValueCodec`: quoting and the text form of values. `XmlOrder`, `XmlFiles`,
`XmlCache`: the cache of the XML backend, its negative cache and its sync loop, which loses no value. `ChangeSets`: commit and
revert. `Locale`: locale variants. `Basics`, `Values`, `Decimal`, `CString` are shared.

## Where the code falls short

Each of these is proved, with the exact condition where one is named.

- A markup tree comes back from its file exactly if it is re-readable; lists of schemas and nested lists
  are written but not read, blank texts and blank long descriptions are lost
  (`MarkupRoundTrip.ParseUndoesPrint`).
- An item without a type takes a pointer from the value stack that it did not put there, and a default
  without a type leaves one. The parser fails an assertion exactly when that is noticed later
  (`MarkupAborts.AbortsExactly`), as for an empty default without a type; two such elements may cancel
  out (`MarkupAborts.UntypedDefaultAccepted`).
- A sync drops local schemas whose default is not of the type that the schema has now, with their
  descriptions, and so loses what a caller put there in the cases of `MarkupEntries.CleanKeepsAnswer`; two
  changes are enough (`MarkupSyncRuns.TwoEditsLose`). In a directory that is loaded but not flagged it
  drops them from memory alone (`MarkupSyncFiles.UnflaggedClean`), and a reload brings them back although the
  sync returned TRUE (`MarkupSyncRuns.StaleFileDeparts`), with another answer exactly in the cases of
  `MarkupSyncFiles.ReloadAnswers`.
- Merging a locale file into a local schema that already exists loses the long description
  (`MarkupLocales.LongDescLost`), and a locale in which nothing has both descriptions gets no file; what
  comes back is stated by `MarkupLocaleAnswers.AnswerComesBack`.
- When the file of a locale cannot be written the sync of a merged subtree still returns TRUE, and the file
  is not written later (`MarkupMergedSync.MissedLocale`).
- When the registration of a new directory fails, directories below it have lost theirs
  (`ClientDirs.FailedAddLoses`), and after a removal without a server those that the removed one alone
  covered stay without (`ClientObject.GConfClient.RemoveDir`); a message already under way for a dropped registration is lost, which
  harms the cache exactly in the cases of `Client.LostMessage` and `Client.DroppedQueue`.
- A change of the root key is told twice (`Database.MessagesPerDirectory`), and several connections on one
  directory are called as often as the square of their number (`Engine.CallbacksAreSquares`).
- A message that carries the cached value still counts as a change if the cached entry has a schema name or
  the default flag or is not writable (`ClientObject.SpuriousChange`).
- `gconf_client_recursive_unset` evicts all keys but the proper ancestors of the one that was unset
  (`ClientObject.GConfClient.RecursiveUnset`).
- The flat listener array is written out of bounds at index 0xFFFFFF (`Listeners.AddInBounds`), and a key
  that is not valid loses an index for good (`Listeners.InvalidKeyLosesIndex`).
- The codec drops owners, makes absent schema texts empty and moves a lone second part of a pair
  (`ValueCodec.RoundTripExact`).
- `dircmp` has cycles on keys with characters below the slash (`XmlOrder.DircmpCycles`).
- A directory of the XML backend can get stuck, its file gone and its directory left, exactly when its list
  of subdirectories misses one that is there (`XmlCache.XmlCache.DirSync`), and that state is reachable
  (`XmlCache.StuckExample`).
- A revert loses committed keys that could not be read when it was prepared (`ChangeSets.RevertRestores`).

## Model

| member | source | states |
|---|---|---|
| `MarkupRoundTrip.ParseUndoesPrint` | backends/markup-tree.c:3574-3657 | Whatever the layout of the file, parsing what save_tree wrote rebuilds the same tree, in the same order, if and only if the tree is re-readable; for one directory and for a merged subtree |
| `MarkupRoundTrip.LoadPrinted` | backends/markup-tree.c:2663-3571 | For every tree, re-readable or not: what comes back from its file, or that the parser rejects it (lists of schemas, nested lists) |
| `MarkupRoundTrip.EntryFixed` | backends/markup-tree.c:4139-4225 | An entry comes back unchanged exactly if its value, its descriptions and its defaults are re-readable |
| `MarkupRoundTrip.RunNoBlank` | backends/markup-tree.c:3506-3517 | White space between elements never changes what is read |
| `MarkupPrinter.PlainElements` | backends/markup-tree.c:3689-3872 | The element of an integer, boolean or float holds type and text in its tag; a string has its text in an element of its own |
| `MarkupPrinter.SchemaTag` | backends/markup-tree.c:3689-3872 | The tag of a schema has its type, the known parts of a list or pair type, and its owner |
| `MarkupPrinter.CompoundElements` | backends/markup-tree.c:3875-3947 | A list holds its elements, a pair its parts, each in an element of its own and in order |
| `MarkupPrinter.EntryTag` | backends/markup-tree.c:4139-4195 | The tag of an entry has its name and time of change, and schema name and user if there are any |
| `MarkupMirror.StartMirrors` | backends/markup-tree.c:3265-3342 | A start tag fails no assertion in a state whose stacks mirror the open elements, and keeps the mirror exactly if the element carries a type wherever it holds a value |
| `MarkupMirror.EndMirrors` | backends/markup-tree.c:3345-3480 | An end tag fails no assertion and keeps the mirror |
| `MarkupMirror.TextMirrors` | backends/markup-tree.c:3506-3571 | Text fails no assertion and keeps the mirror |
| `MarkupMirror.NodeMirrors` | backends/markup-tree.c:2024-2108 | A properly nested element leaves the state, value and directory stacks as it found them |
| `MarkupMirror.DocumentUnwinds` | backends/markup-tree.c:3345-3480 | Every properly nested document in which each value element has a type is read without a failed assertion, and afterwards every stack has unwound |
| `MarkupAborts.AbortsExactly` | backends/markup-tree.c:2663-3571 | For every properly nested document that is not rejected: an assertion of the reader fails if and only if the element tree breaks (an element without a type has taken away a pointer that is needed later); and after any document that is read every stack has unwound |
| `MarkupAborts.EntryKids` | backends/markup-tree.c:3139-3262 | The children of an entry are read without a failed assertion exactly if none of them breaks by itself and none follows one that took away the pointer of the entry |
| `MarkupAborts.LocalKids` | backends/markup-tree.c:2896-2952 | The same for the children of a local schema, by the types and the loose items of its defaults |
| `MarkupAborts.DefaultKids` | backends/markup-tree.c:3021-3136 | A default with a type keeps its pointer on top of the value stack exactly if it holds no item without a type |
| `MarkupMirror.UntypedDefaultAborts` | backends/markup-tree.c:3427-3441 | One such document: a default without a type and nothing in it |
| `MarkupAborts.UntypedDefaultAccepted` | backends/markup-tree.c:3427-3441 | A default without a type that is read: it holds a list item without a type |
| `MarkupReader.LocateAttributes` | backends/markup-tree.c:2119-2215 | The loop accepts exactly the attribute lists with known names, none of them twice |
| `MarkupReader.ReadTree` | backends/markup-tree.c:3574-3657 | On any layout of the events a tree is written as, the loop over the mutable reader returns that tree if and only if it is re-readable; on any nested document that is no error, an assertion fails if and only if the document breaks |
| `MarkupLocaleFiles.ReadLocaleFile` | backends/markup-tree.c:2772-2813 | Reading the file written for one locale of a tree into a tree of the same shape changes exactly the entries that have that locale, each by one merge, and nothing else |
| `MarkupLocaleFiles.EmptyMerge` | backends/markup-tree.c:4292-4325 | A directory that is left out of a locale file is one the file would not change |
| `MarkupLocaleFiles.FileNotEmpty` | backends/markup-tree.c:4093-4114 | A locale that gets a file is not "C" and its file is not empty |
| `MarkupLocaleFiles.HasFileIs` | backends/markup-tree.c:4092-4114 | A locale gets a file if and only if it is not "C" and some entry has a local schema in it with both descriptions |
| `MarkupLocales.MergedFor` | backends/markup-tree.c:3378-3412 | What merging one local schema leaves for each locale; into an existing one of the same locale the short description is copied and the long one is lost |
| `MarkupLocales.LoadedFor` | backends/markup-tree.c:1362-1387 | The local schema of each locale after the main file and any sequence of locale files |
| `MarkupLocales.LocalSurvives` | backends/markup-tree.c:3378-3412 | A local schema comes back from the files unchanged if and only if its default and long description are re-readable and, for another locale than "C", it does not have both (or has a default alone, if its file was not loaded) |
| `MarkupLocales.LongDescLost` | backends/markup-tree.c:3391-3399 | Asked for any list of locales whose files are loaded, the long description differs from the original one if and only if the best locale is not "C", has both a default and a long description, and what stands in for it differs |
| `MarkupLocales.LongDescLostExample` | backends/markup-tree.c:3391-3399 | One such entry |
| `MarkupLocales.ScanLocals` | backends/markup-tree.c:1750-1776 | The scan finds the first local schema of the wanted locale and of "C" unless they were found before |
| `MarkupLocales.MergedTree.constructor` | backends/markup-tree.c:490-531 | Loading the main file of a written subtree gives the tree without the other locales, which are listed as not loaded |
| `MarkupLocales.MergedTree.EnsureSchemaDescsLoaded` | backends/markup-tree.c:1414-1459 | Afterwards the locale is loaded or has no file; no file is read twice |
| `MarkupLocales.MergedTree.EnsureAllSchemaDescsLoaded` | backends/markup-tree.c:1390-1430 | Afterwards every locale that has a file is loaded |
| `MarkupLocales.MergedTree.GetValue` | backends/markup-tree.c:1704-1809 | Loading descriptions on demand, in any earlier state of loading and over any of the locale files, gives for every entry and locale list the answer of the tree with all these files loaded: a plain value itself, a schema with the parts of the first locale that has some, else of "C"; if everything the entry says can be written, and was, that of the tree before it was written |
| `MarkupLocaleAnswers.AnswerComesBack` | backends/markup-tree.c:1704-1809 | For every entry, locale list and set of locale files: the answer from the files is the one before they were written if and only if the types of the schema, the default that is used, and the descriptions of the best locale or equal ones of "C" are kept |
| `MarkupMergedSync.PrunedAt` | backends/markup-tree.c:993-1014 | Deleting useless directories all through a merged subtree hides no entry |
| `MarkupMergedSync.MergedDir.SaveTree` | backends/markup-tree.c:4534-4604 | It reports an error exactly if the main file was not saved; of the locale files exactly those are new whose save succeeded, and their errors are dropped by the inverted test |
| `MarkupMergedSync.MergedDir.Sync` | backends/markup-tree.c:1099-1263 | A sync of a merged subtree returns TRUE, with no flag left, if and only if the main file was saved, whatever became of the locale files |
| `MarkupMergedSync.AllWritten` | backends/markup-tree.c:4565-4601 | After the main file was saved, all locale files are the ones to write if and only if each that was not saved was there already |
| `MarkupMergedSync.SyncAndReload` | backends/markup-tree.c:1099-1263 | Sync, reload, ask: after TRUE the answer is the one in memory if and only if what the locale files that were written say of the entry is enough |
| `MarkupMergedSync.MissedLocale` | backends/markup-tree.c:4549-4555 | A locale file that cannot be written: the sync returns TRUE, the reload changes the answer, and a later sync writes nothing |
| `MarkupSyncInv.EditInv` | backends/markup-tree.c:706-788 | Any change keeps the invariant that an unflagged loaded directory holds its file, or that file cleaned, and that a flag is known to all ancestors |
| `MarkupSyncInv.ListedAre` | backends/markup-tree.c:579-680 | Listing a directory finds exactly the subdirectories with a file whose name begins with neither a dot nor a percent sign, not loaded yet |
| `MarkupSyncInv.SyncInv` | backends/markup-tree.c:1099-1263 | A sync keeps that invariant and the soundness of the files, whichever saves fail |
| `MarkupSyncInv.DroppedInv` | backends/markup-tree.c:930-991 | Deleting useless subdirectories from memory and disk keeps the invariant |
| `MarkupSyncInv.SaveInv` | backends/markup-tree.c:1140-1175 | Cleaning, dropping useless entries and saving keeps the invariant and the soundness of the files, also when the save fails |
| `MarkupSyncLocal.SyncLocal` | backends/markup-tree.c:1099-1263 | What a sync does to a directory depends only on the files at or below it |
| `MarkupSyncLocal.SyncFrame` | backends/markup-tree.c:1099-1263 | A sync changes no file elsewhere |
| `MarkupSyncViews.CleanViewIsDisk` | backends/markup-tree.c:534-680 | Where no sync is needed, memory holds at every path what the file there holds, cleaned or not, and nothing where there is no file |
| `MarkupSyncViews.LookInvView` | backends/markup-tree.c:311-377 | Looking a directory up loads lazily, keeps the invariant and changes no answer |
| `MarkupSyncViews.EditView` | backends/markup-tree.c:1462-1701 | A change is seen under its own key, and every other key answers as before |
| `MarkupSyncViews.EditQueues` | backends/markup-tree.c:1592-1615 | A change raises the flags and queues a sync unless it unsets an entry that has no value |
| `MarkupSyncViews.SyncView` | backends/markup-tree.c:1099-1263 | A sync, complete or not, changes what is seen of a key exactly where it comes to a directory whose entries are in memory: it cleans the entry, and drops it if the directory is flagged and nothing is left |
| `MarkupSyncFiles.SyncSucceeds` | backends/markup-tree.c:1140-1205 | The sync of a directory leaves nothing to do if and only if every save that it has to make, there and below, succeeds |
| `MarkupSyncFiles.SyncReturnsTrue` | backends/markup-tree.c:388-403 | A sync of the tree returns TRUE if and only if it makes all its saves; in particular if no save fails |
| `MarkupSyncFiles.SyncRewrites` | backends/markup-tree.c:1140-1175 | A sync leaves each file as it was, gone, or with nothing in it to clean |
| `MarkupSyncFiles.UnflaggedFile` | backends/markup-tree.c:1099-1263 | A directory without a flag keeps its file, unless it is deleted |
| `MarkupSyncFiles.FlaggedFile` | backends/markup-tree.c:1140-1175 | When all its saves succeed, a sync leaves every directory that had a flag with a file that has nothing to clean, or none |
| `MarkupSyncPrune.SyncedEmpty` | backends/markup-tree.c:930-991 | A sync leaves nothing in a directory it comes to if and only if its entries hold nothing and it is flagged (or there are none), and all its subdirectories are deleted or there are none |
| `MarkupSyncPrune.EmptyDirsGo` | backends/markup-tree.c:1207-1262 | In every directory a sync comes to, a subdirectory is gone from memory and its file from disk if and only if nothing is left in it; one that stays has a file once TRUE is returned |
| `MarkupSyncPrune.UnsetLeafGoes` | backends/markup-tree.c:930-991 | A directory without subdirectories whose entries were all unset is deleted with its file |
| `MarkupSyncPrune.FullDirStays` | backends/markup-tree.c:930-991 | A directory with an entry that holds something stays, with its file |
| `MarkupSyncFiles.UnflaggedClean` | backends/markup-tree.c:1112-1135 | Where a sync comes to a directory without a flag it cleans memory alone: afterwards an entry in memory differs from the one in the file if and only if that has something to clean |
| `MarkupSyncFiles.ReloadAnswers` | backends/markup-tree.c:166-173 | After a sync that leaves nothing to do, a rebuilt tree finds each entry as memory has it or not yet cleaned, and answers the same for a list of locales if and only if memory was not cleaned either or cleaning is harmless for these locales |
| `MarkupSyncRuns.RunKeepsInv` | backends/markup-tree.c:283-293 | The invariant holds after every run of changes, lookups and syncs with failing saves |
| `MarkupSyncRuns.FlagsRemember` | backends/markup-tree.c:821-832 | A loaded directory whose entries differ from its file, by more than a cleaning, has entries_need_save, and all its proper ancestors have some_subdir_needs_sync |
| `MarkupSyncRuns.RunFacts` | backends/markup-tree.c:1462-1701 | In any run from any sound files, whatever saves fail, every key holds exactly the value, local schemas and schema name that its changes leave when it is cleaned by each sync that comes to it and finds it in memory |
| `MarkupSyncRuns.SyncedReloads` | backends/markup-tree.c:388-403 | After any run a sync returns TRUE if and only if its saves succeed, and then a fresh tree answers every key as memory does if and only if memory was not cleaned where the file was not, or cleaning is harmless for the locales asked for |
| `MarkupSyncRuns.ReachedReloads` | backends/markup-tree.c:1112-1135 | Where the sync that returned TRUE comes and finds the entries in memory, the fresh tree answers as memory does if and only if cleaning what the file holds is harmless for these locales |
| `MarkupSyncRuns.CleanRun` | backends/markup-tree.c:836-878 | For a key whose file has nothing to clean at first, in any run: its file never gets anything to clean, and every sync may count as one that cleans it |
| `MarkupSyncRuns.ChangesAreDurable` | backends/markup-tree.c:388-403 | After any run, a sync returns TRUE if and only if its saves succeed, and then a key whose file had nothing to clean at first answers from the files, for any locales, as its changes and the cleanings in between determine |
| `MarkupSyncRuns.FlaggedIsDurable` | backends/markup-tree.c:388-403 | From any sound files, stale or not: a directory that was changed since it was saved last answers from the files, after a sync that made its saves, as its changes and the syncs that came to it determine |
| `MarkupEntries.CleanKeepsAnswer` | backends/markup-tree.c:836-878 | Cleaning keeps the answer of an entry for a list of locales if and only if the best local schema has no default of another type, and the "C" one has none either unless nothing is taken from it |
| `MarkupEntries.CleanIs` | backends/markup-tree.c:836-878 | A clean keeps all local schemas of an entry without a value, none beside a plain value, and beside a schema exactly those whose default, if any, has its type |
| `MarkupSyncRuns.CallersChangesAreDurable` | backends/markup-tree.c:836-878 | The durable answer is what the callers last put there if and only if cleaning that is harmless for the locales asked for, when at the earlier syncs every default had the type of its schema; the sync returns TRUE if and only if its saves succeed |
| `MarkupSyncRuns.OneTypeIsDurable` | backends/markup-tree.c:388-403 | What a caller put there is there after a sync that made its saves, for every key without schemas and every key whose schemas and defaults are all set with one type |
| `MarkupSyncRuns.TwoEditsLose` | backends/markup-tree.c:1482-1590 | Two allowed changes after which a sync that makes all its saves, and returns TRUE, loses the description that the first one set |
| `MarkupSyncRuns.StaleFileDeparts` | backends/markup-tree.c:1112-1135 | A file with a default of another type than its schema, looked at before something below is set and synced: TRUE is returned, memory and file differ, and a reload changes the answer |
| `MarkupEntries.ChangeKeepsOnePerLocale` | backends/markup-tree.c:1462-1677 | No change gives an entry two local schemas for one locale |
| `MarkupEntries.EntryValueAnswers` | backends/markup-tree.c:1704-1809 | An entry without a value answers nothing and a plain value answers itself, for every list of locales; a schema answers the types and owner of the main schema, the locale of the first one of the list that has a local schema, or "C", and each localized part from that local schema, else from the "C" one, else from the main schema |
| `MarkupEntries.PlainSet` | backends/markup-tree.c:1473-1496 | Setting a value that is not a schema makes it the answer for every list of locales and leaves no local schema; name and schema name stay |
| `MarkupEntries.SchemaSet` | backends/markup-tree.c:1497-1584 | Setting a schema leaves its types and owner in the main schema and its default and descriptions in the local schema of its locale, and every other local schema as it was |
| `MarkupEntries.ValueUnset` | backends/markup-tree.c:1592-1665 | Unsetting for no locale, or what is not a schema, leaves no value, and of a schema no local schema; without a value there is nothing to do |
| `MarkupEntries.LocaleUnset` | backends/markup-tree.c:1631-1653 | Unsetting a schema for one locale drops the local schema of that locale and nothing else |
| `MarkupEntries.SchemaNamed` | backends/markup-tree.c:1679-1701 | Naming a schema changes the name and nothing else |
| `MarkupSyncRuns.PlainIsDurable` | backends/markup-tree.c:388-403 | From any sound files, stale or not: after a sync that made its saves, a key that holds no schema at the end of the run answers its value from the files for every list of locales, and every key its schema name |
| `MarkupSyncRuns.LastSetIsDurable` | backends/markup-tree.c:388-403 | If the last change of a key set a plain value, the files answer it after a sync that returns TRUE, which is one that makes all its saves |
| `MarkupSyncRuns.LastUnsetIsDurable` | backends/markup-tree.c:388-403 | If the last change unset the key, the files hold no value for it |
| `MarkupSyncRuns.LastNameIsDurable` | backends/markup-tree.c:388-403 | If the last change named a schema, the files answer that name |
| `MarkupSyncRuns.LastSchemaIsDurable` | backends/markup-tree.c:388-403 | If the last change set a schema with a default of its own type, the files answer its types, owner, default and descriptions for its locale |
| `MarkupTree.CleanOldLocalSchemas` | backends/markup-tree.c:836-878 | The loop keeps exactly the local schemas that still apply, in order |
| `MarkupTree.DeleteUselessEntries` | backends/markup-tree.c:1017-1053 | The loop keeps exactly the entries that hold something, in order, and says whether one went |
| `MarkupTree.Tree.DeleteUselessSubdirs` | backends/markup-tree.c:930-991 | The loop drops exactly the useless subdirectories and their files |
| `MarkupTree.Tree.SyncSubdirs` | backends/markup-tree.c:1180-1205 | The loop syncs those that need it, one after the other on the changing disk, and says whether one still needs it |
| `MarkupTree.Tree.SyncOneDir` | backends/markup-tree.c:1099-1263 | The method computes the new directory and the new disk of the specification, and returns TRUE exactly if no flag is left |
| `MarkupTree.Tree.Sync` | backends/markup-tree.c:388-403 | The sync of the specification; TRUE exactly if all its saves succeed, and then a fresh tree over the files answers every key and locale list as this one does, if and only if memory was not cleaned where the file was not or that is harmless |
| `Keys.ValidKeyIs` | gconf/gconf.c:2584-2665 | Valid are exactly the keys whose components are non-empty and made of allowed characters |
| `Keys.CheckKey` | gconf/gconf.c:2584-2665 | The character loop decides validity |
| `Keys.KeyIsBelowIs` | gconf/gconf.c:2782-2801 | The prefix test on strings is the component-wise ancestor test |
| `KeyWalk.WalkIs` | gconf/gconf-internals.c:81-112 | Chopping a valid key up to the root meets exactly the directories above it and the key itself, each once, except that the root key meets the root twice |
| `KeyWalk.LastSlashIs` | gconf/gconf-internals.c:81-124 | The last slash of a key separates its directory from its last component |
| `Database.Database.HandleAddNotify` | gconf/gconf-database-dbus.c:683-727 | The sender is added once more under the directory and nowhere else |
| `Database.Database.HandleRemoveNotify` | gconf/gconf-database-dbus.c:758-796 | One registration of the sender is taken from the directory and nothing else changes; an empty directory leaves the table |
| `Database.Database.NotifyListeners` | gconf/gconf-database-dbus.c:893-978 | The loop that chops the key in its buffer queues, for every client, the messages of the walk, in its order |
| `Database.MessagesPerDirectory` | gconf/gconf-database-dbus.c:893-978 | A change tells a client once per registration at the key or above it and not otherwise; a change of the root key tells everything twice |
| `Database.OneMessage` | gconf/gconf-database-dbus.c:893-978 | If at most one directory of the walk has the client, once, it is sent at most one message, with that directory |
| `Database.Database.RecursiveUnset` | gconf/gconf-database.c:1480-1620 | All keys are unset before the first of them is notified; afterwards each of them answers its default, no other answer changes, and every message carries the answer of its key |
| `Database.Database.ValueOf` | gconf/gconf-database.c:1302-1350 | A query answers the value that is set, else the default, else nothing |
| `Database.Database.Set` | gconf/gconf-database.c:1352-1409 | Afterwards the key answers the value, no other answer changes, and the messages of the walk carry it |
| `Database.Database.Unset` | gconf/gconf-database.c:1411-1505 | Afterwards the key answers its default or nothing, no other answer changes, and the messages of the walk carry that |
| `Engine.Engine.InsertCnxn` | gconf/gconf-dbus.c:711-728 | A new connection is put first in the list of its directory and in the table of ids |
| `Engine.Engine.RemoveCnxn` | gconf/gconf-dbus.c:731-751 | Exactly that connection leaves both tables |
| `Engine.Engine.NotifyAdd` | gconf/gconf-dbus.c:1021-1052 | A new id, in both tables and registered at the server, and the tables agree; if the request fails nothing stays but the used id |
| `Engine.Engine.NotifyRemove` | gconf/gconf-dbus.c:1055-1104 | Only that connection goes, the server has one registration less for its directory, and the tables agree |
| `Engine.Engine.Matches` | gconf/gconf-dbus.c:2341-2415 | A message calls every connection of its directory, in order |
| `Engine.CallbacksAreSquares` | gconf/gconf-dbus.c:2341-2415 | With several connections on one directory a change makes as many callbacks as the square of their number |
| `ClientDirs.TopmostIs` | gconf/gconf-client.c:485-535 | The registered directories are exactly those without a watched proper ancestor if and only if none is below another and together they cover every watched directory |
| `ClientDirs.OneAbove` | gconf/gconf-client.c:485-521 | At most one registered directory lies above any key |
| `ClientDirs.AddUnderTopmost` | gconf/gconf-client.c:538-601 | A directory below a registered one is watched without registration and the invariant is kept |
| `ClientDirs.AddTopTopmost` | gconf/gconf-client.c:538-601 | Registering a directory after dropping those below it keeps the invariant |
| `ClientDirs.FailedAddLoses` | gconf/gconf-client.c:509-577 | When the registration of a new topmost directory fails, the invariant is lost if and only if some watched directory is below it |
| `ClientDirs.FailedAddExample` | gconf/gconf-client.c:509-577 | Adding /a above /a/b with a failed registration |
| `ClientDirs.RemoveKeeps` | gconf/gconf-client.c:660-694 | Removing a directory leaves an antichain; what it covered is what is to be registered again |
| `ClientObject.GConfClient.SetupOverlaps` | gconf/gconf-client.c:485-535 | In any order of the table: a registered directory above is found, or all registered below are dropped; the assertion that a second one is never found holds |
| `ClientObject.GConfClient.AddDir` | gconf/gconf-client.c:538-601 | Adding keeps all invariants when the registration succeeds; when it fails, exactly which registrations are lost |
| `ClientObject.GConfClient.ReAddNotifies` | gconf/gconf-client.c:609-645 | In any order of the table, afterwards exactly the topmost directories are registered; without a server, if and only if every one was covered before |
| `ClientObject.GConfClient.RemoveDir` | gconf/gconf-client.c:697-722 | Counts go down by one; the last removal re-registers what is topmost now and evicts the keys below; without a server the rest stays registered at the top if and only if no directory was covered by the removed one alone |
| `ClientObject.GConfClient.KeyBeingMonitored` | gconf/gconf-client.c:845-876 | The loop that chops the key in its buffer ends and decides whether some watched directory is at or above the key |
| `ClientObject.GConfClient.Preload` | gconf/gconf-client.c:922-975 | The keys found are cached with the server's values and no other entry changes; the cache stays within the watched directories and coherent |
| `ClientObject.GConfClient.AllEntries` | gconf/gconf-client.c:1117-1146 | The entries of a directory are cached exactly if it is watched; the cache stays within the watched directories and coherent |
| `KeyWalk.AboveLinear` | gconf/gconf.c:2782-2801 | Two directories above one key are comparable |
| `ClientDirs.VisitRegistered` | gconf/gconf-client.c:485-521 | Visiting the table in any order, a registered directory above the new one and one below it are never both met |
| `ClientObject.VisitOne` | gconf/gconf-client.c:496-502 | A second registered directory above the new one is never met, so the assertion holds |
| `Client.DrainedIsCurrent` | gconf/gconf-client.c:1976-2035 | When nothing is under way every cached value is what the server answers: the value that is set, else the default, else nothing |
| `Client.ChangeCoherent` | gconf/gconf-client.c:392-416 | A change at the server keeps the cache coherent with what is under way |
| `Client.DeliverCoherent` | gconf/gconf-client.c:392-416 | Handling the oldest message keeps coherence |
| `Client.ExactlyOneMessage` | gconf/gconf-database-dbus.c:893-978 | One change of a key other than the root sends a client exactly one message if it watches a directory at or above it, however many overlap, and none otherwise |
| `Client.ExactlyOneCallback` | gconf/gconf-dbus.c:2341-2415 | And that message makes exactly one callback |
| `Client.RootTells` | gconf/gconf-database-dbus.c:893-978 | For the root key the same answer comes twice, which is harmless for the cache |
| `Client.DroppedIsDeaf` | gconf/gconf-client.c:504-519 | A message sent for a directory whose registration was dropped calls nobody |
| `Client.LostMessage` | gconf/gconf-client.c:504-519 | Losing the oldest message keeps coherence if and only if a later one for its key is under way, or the key is not cached, or its cached value is the same already |
| `Client.DroppedQueue` | gconf/gconf-client.c:504-519 | Whatever is under way, losing all messages for directories that are no longer registered keeps coherence if and only if each cached key whose last message is among them has its value already |
| `Client.LostMessageExample` | gconf/gconf-client.c:504-519 | A cache that such a loss leaves out of date |
| `ClientObject.GConfClient.CacheEntry` | gconf/gconf-client.c:1976-2035 | The cache is unchanged exactly if an equal entry was there; otherwise the new entry replaces it, keeping the old schema name where asked |
| `ClientObject.GConfClient.Get` | gconf/gconf-client.c:1265-1325 | A cached key answers from the cache; another answers the value set at the server, else the default, else nothing, and is cached exactly if it is watched; coherence is kept |
| `ClientObject.GConfClient.Set` | gconf/gconf-client.c:1030-1046 | The server answers the value and queues its messages, which carry it; the key leaves the cache, coherence is kept; a refusal changes nothing |
| `ClientObject.GConfClient.Unset` | gconf/gconf-client.c:1049-1069 | The same for unset: the server answers the default or nothing, and the messages carry that |
| `ClientObject.GConfClient.RecursiveUnset` | gconf/gconf-client.c:981-1094 | All keys are unset and answer their defaults; the cache keeps exactly the proper ancestors of the key, because the test has its arguments reversed |
| `ClientObject.GConfClient.Deliver` | gconf/gconf-client.c:392-416 | One message makes one callback, which puts its value in the cache, writable and not a default and with the schema name that was there, changes no other entry, and queues a local notification exactly if the entry changed |
| `ClientObject.SpuriousChange` | gconf/gconf-client.c:1976-2035 | A message with the cached value still counts as a change if and only if the cached entry has a schema name, the default flag or is not writable |
| `ClientObject.SpuriousExample` | gconf/gconf-client.c:1976-2035 | A cached schema name makes the same value news |
| `ListenerTree.InsertOk` | gconf/gconf-listeners.c:330-427 | Insertion keeps siblings strictly sorted and leaves no useless node |
| `ListenerTree.InsertHere` | gconf/gconf-listeners.c:330-427 | A listener is added at its own path, in front of those already there, and nowhere else |
| `ListenerTree.RemoveOk` | gconf/gconf-listeners.c:483-530 | Removal deletes exactly the nodes that became useless and keeps the order |
| `ListenerTree.RemoveHere` | gconf/gconf-listeners.c:483-530 | A listener is taken from its own path and nowhere else |
| `ListenerTree.OnTheWayIs` | gconf/gconf-listeners.c:596-662 | The walk down a key meets exactly the listeners of its ancestors, root first |
| `ListenerTree.InOrderIs` | gconf/gconf-listeners.c:764-795 | The traversal of the tree meets exactly the listeners there are |
| `Listeners.AddInBounds` | gconf/gconf-listeners.c:286-327 | At a valid key the write to the flat array stays in bounds if and only if an index is recycled or the next one is below 0xFFFFFF |
| `Listeners.WriteOutOfBoundsExample` | gconf/gconf-listeners.c:286-327 | 0xFFFFFF additions in a row reach the write out of bounds |
| `Listeners.AddInv` | gconf/gconf-listeners.c:330-427 | Adding keeps the representation invariant: slots and nodes agree, live and free indices partition those given out, the count is right |
| `Listeners.RemoveInv` | gconf/gconf-listeners.c:430-530 | Removing keeps it |
| `Listeners.RemoveIfIs` | gconf/gconf-listeners.c:798-827 | remove_if keeps it and removes exactly the chosen listeners |
| `Listeners.InvalidKeyLosesIndex` | gconf/gconf-listeners.c:286-356 | A key that is not valid loses an index: it is neither in use nor recycled |
| `Listeners.StaleIdIgnored` | gconf/gconf-listeners.c:430-482 | An id changes nothing exactly if no live listener has it |
| `Listeners.StaleIdHarmless` | gconf/gconf-listeners.c:303-327 | Within 256 allocations, counted over all tables since they share the byte, the id of a removed listener removes nothing |
| `ListenerNotify.CollectsAncestors` | gconf/gconf-listeners.c:596-662 | The list taken at the start holds each live listener on an ancestor of the key once, those of an ancestor before those below |
| `ListenerNotify.RunInv` | gconf/gconf-listeners.c:574-662 | Every state reachable by additions, removals, nested notifications and returns keeps the invariant, with reference counts equal to what holds them |
| `ListenerNotify.NotifyIsExact` | gconf/gconf-listeners.c:574-662 | Whatever the callbacks do, each listener on the key's path at the start has one turn, root first, at which it is called if and only if it was not removed before; nobody else is called, and none of them is freed while the notification runs |
| `ListenerNotify.RunTurns` | gconf/gconf-listeners.c:574-593 | In any run of callbacks, each turn of a notification decides by what was removed before that turn |
| `ListenerNotify.FreedExactlyOnce` | gconf/gconf-listeners.c:247-261 | A listener is freed at most once, and exactly when it is removed and in no list under way |
| `ListenerTable.FindSibling` | gconf/gconf-listeners.c:366-400 | The walk over the siblings stops where the specification says, and finds a node exactly if the name is there |
| `ListenerTable.InsertNode` | gconf/gconf-listeners.c:358-415 | The descent builds the tree of the specification |
| `ListenerTable.ListenerTable.AddListener` | gconf/gconf-listeners.c:144-159 | On the mutable table: the invariant is kept and the id is new, below the bound on indices |
| `ListenerTable.ListenerTable.RemoveListener` | gconf/gconf-listeners.c:162-174 | On the mutable table: exactly the specified removal, and the invariant is kept |
| `ListenerTable.ListenerTable.TakeSnapshot` | gconf/gconf-listeners.c:596-640 | The walk over the tree collects the list of the specification and takes one reference for each member |
| `Codec.UnquoteQuote` | gconf/gconf-internals.c:1613-1769 | Unquoting a quoted text followed by anything gives the text and stops exactly at what follows |
| `Codec.QuoteForm` | gconf/gconf-internals.c:1613-1668 | A quoted text has a backslash before each quotation mark and backslash of the text, and nothing else between the quotation marks |
| `Codec.QuoteString` | gconf/gconf-internals.c:1613-1668 | The loop writes the quoted text and stays within twice the length plus four |
| `Codec.UnquoteStringInPlace` | gconf/gconf-internals.c:1690-1769 | In place: the text is written, the write position stays behind the read position, and what follows the quotes is not touched |
| `ValueCodec.DecodeEncode` | gconf/gconf-internals.c:1871-2223 | For every value that can be made, at any depth of lists, pairs and schema defaults, decoding its encoding gives its normal form |
| `ValueCodec.RoundTripExact` | gconf/gconf-internals.c:1871-2223 | The round trip gives the value back unchanged if and only if, throughout it, no schema has an owner or lacks a text, no pair has a second part alone, and floats survive their text form |
| `ValueCodec.PlainForms` | gconf/gconf-internals.c:2074-2098 | The text of an integer is its decimal form, of a boolean "bt" or "bf", of a float and a string their own text, each after its letter |
| `ValueCodec.ListForm` | gconf/gconf-internals.c:2162-2192 | The text of a list grows by a comma and the quoted text of each element |
| `ValueCodec.PairForm` | gconf/gconf-internals.c:2194-2212 | A pair gives the quoted texts of its parts up to the first that is missing |
| `ValueCodec.SchemaForm` | gconf/gconf-internals.c:2098-2158 | A schema gives the letters of its four types, then locale, descriptions and default, quoted and with commas between |
| `ValueCodec.NormalFixed` | gconf/gconf-internals.c:1871-2223 | A value is its own normal form exactly if it is exact |
| `ValueCodec.LeadingComma` | gconf/gconf-internals.c:2000-2018 | The comma in front of an encoded list is passed over by a first round that finds nothing |
| `ValueCodec.DecodeEncodeElems` | gconf/gconf-internals.c:1985-2025 | The elements of a list come back in order |
| `XmlOrder.DircmpIsCompare` | backends/xml-cache.c:195-245 | On distinct keys the result is a lexicographic comparison in which the end of a key sorts after a slash and before any other character |
| `XmlOrder.DescendantsFirst` | backends/xml-cache.c:195-245 | Every descendant sorts before its ancestors |
| `XmlOrder.DircmpTotal` | backends/xml-cache.c:195-245 | Distinct keys are never equal, and the answer does not depend on which is asked about first |
| `XmlOrder.DircmpCycles` | backends/xml-cache.c:195-245 | Three keys form a cycle if and only if, in some rotation, the first is below the second and the third continues the last component of the second with a character below the slash |
| `XmlOrder.DircmpTransitive` | backends/xml-cache.c:195-245 | Without such characters the comparison is transitive, so a strict total order |
| `XmlOrder.CycleExample` | backends/xml-cache.c:195-245 | Three valid keys in a cycle: /a/b, /a, /a-c |
| `XmlFiles.EnsuredIs` | backends/xml-dir.c:1215-1310 | Creating a directory on disk makes it and its missing ancestors and changes nothing else |
| `XmlFiles.ChildrenAre` | backends/xml-dir.c:833-905 | A listing finds exactly the directories with a file that lie directly below the directory |
| `XmlCache.XmlCache.Lookup` | backends/xml-cache.c:350-441 | In every reachable state, without creation it succeeds exactly for directories on disk; with creation it makes the directory and its ancestors and none of them stays in the negative cache; no value changes |
| `XmlCache.XmlCache.SetValue` | backends/xml-dir.c:585-613 | A reader of the directory sees the value under its name, and every other value as before; the directory is pending |
| `XmlCache.XmlCache.UnsetValue` | backends/xml-dir.c:706-755 | A reader of the directory sees no value under the name, and every other value as before |
| `XmlCache.XmlCache.GetValue` | backends/xml-dir.c:621-680 | A query answers the value that is pending in the cache, else the one in the file, else nothing |
| `XmlCache.XmlCache.AddToParent` | backends/xml-cache.c:533-549 | A cached parent with a list has the child in it afterwards; the invariant between cache, negative cache and disk is kept, and no file is touched |
| `XmlCache.XmlCache.RemoveFromParent` | backends/xml-cache.c:511-530 | The parent is cached and dirty afterwards and its list does not have the directory; creating it makes at most the root |
| `XmlCache.XmlCache.DirSync` | backends/xml-dir.c:394-583 | A directory without a pending sync is left alone; one without values and known subdirectories is deleted, unless it gets stuck with its file gone, which is if and only if the list of subdirectories misses what is there; any other is saved and succeeds exactly if the save does. No value changes, and what was not saved is still pending |
| `XmlCache.XmlCache.SyncOne` | backends/xml-cache.c:157-189 | The same within the cache: a deleted directory leaves it and its parent is told; the values of every directory stay what they were |
| `XmlCache.XmlCache.Pass` | backends/xml-cache.c:248-290 | In any order and past any failure: a pass that deleted something leaves fewer directories on disk; one that did not and did not fail leaves nothing pending; it fails only for a directory that got stuck or a refused save that is still pending; the values of every directory stay, and a file that was written holds them |
| `XmlCache.XmlCache.Sync` | backends/xml-cache.c:248-290 | The repetition ends. On success the file of every directory holds the values that a reader saw before the sync, and nothing is pending. In any case no value is lost (it is in the file, or in the cache and pending), files of directories that were not pending keep their content, and a directory leaves the disk only without values and subdirectories. If every save succeeds it returns TRUE exactly if no directory got stuck |
| `XmlCache.StuckExample` | backends/xml-cache.c:434-441 | A reachable cache in which deleting a directory gets stuck |
| `ChangeSets.RevertRestores` | gconf/gconf-changeset.c:568-627 | A reverse set taken before a commit restores the state, wherever the commit stopped, if and only if no committed key was lost for want of reading it |
| `ChangeSets.RevertLosesExample` | gconf/gconf-changeset.c:568-627 | A key that could not be read, and was set by the commit, is gone after the revert |
| `ChangeSets.RevertAlwaysRestores` | gconf/gconf-changeset.c:568-627 | With every key readable it always does |
| `ChangeSets.LeftoverCompletes` | gconf/gconf-changeset.c:505-559 | The changes that are left when the committed ones are removed complete the commit |
| `ChangeSets.ChangeSet.Commit` | gconf/gconf-changeset.c:505-559 | In any order, the engine has exactly the committed keys applied; with remove_committed the set is exactly the rest |
| `ChangeSets.ChangeSet.VisitAll` | gconf/gconf-changeset.c:479-502 | In any order of the table: none of the committed keys is one that is refused, and the visit ends well exactly if no key is refused |
| `ChangeSets.ChangeSet.ReverseOf` | gconf/gconf-changeset.c:568-627 | The loop builds the reverse set of what can be read |
| `ChangeSets.CommitAndRevert` | gconf/gconf-changeset.c:479-627 | Reverse, commit until something refuses, commit the reverse: the engine is as before |
| `ChangeSets.CommitInTwo` | gconf/gconf-changeset.c:505-559 | A commit that stopped and then its leftover reach the state of a full commit |
| `Locale.ExplodePartitions` | gconf/gconf-locale.c:207-256 | The components make up the name exactly, each begins with its mark, and each mark is the first one from where the component before it begins: so the language ends at the first underscore, or without one at the first dot or else at sign |
| `Locale.VariantsAre` | gconf/gconf-locale.c:271-310 | Counting the masks visits exactly the subsets of the components that are there |
| `Locale.VariantsMember` | gconf/gconf-locale.c:271-310 | A string is a variant if and only if it is the name with some of its components left out |
| `Locale.VariantsEnds` | gconf/gconf-locale.c:271-310 | The list begins with the name and ends with the bare language |
| `Locale.ComputeLocaleVariants` | gconf/gconf-locale.c:271-310 | The prepending loop gives that list |
| `Locale.SplitMember` | gconf/gconf-locale.c:333-402 | The result holds exactly "C" and the variants of each name of the list |
| `Locale.SplitLocale` | gconf/gconf-locale.c:333-402 | Every write to the scratch buffer stays within strlen + 1, and the result is that list |

## Left out

General:

- File formats below the level of element events, escaping, file modes, `mkdir`, `rename`, `fsync`, the D-Bus transport, timeouts, main loops and GObject signals: replaced by events, a disk that maps paths to contents, saves that may fail, and queues.
- Floats are finite doubles, a mantissa and an exponent; their text form is a parameter with its inverse (MarkupTypes.SomeFaithful shows that there is one); strings hold no NUL and UTF-8 validation is taken as done; a string pointer that is NULL where `printf` prints "(null)" is not modelled.
- `subst_variables`, `gconf_concat_dir_and_key`, `gconf_escape_key` and the marshalling in `gconf/gconf-dbus-utils.c`: they would only add easy members.
- LDAP, libxml and CORBA code, locks, logging, dialogs, examples and the shell of the daemon.
- The sources behind the database (`gconf/gconf-sources.c`) are a map from key to value with a map of defaults.

Markup backend:

- Pointers on the value stack are access paths from their owner, because the values form trees without sharing.
- What a failed parse leaves of a tree is not modelled; a file with a parse error stands for no tree.
- Names, schema names and user names are taken to need no escaping in attributes, as the writer assumes.
- MarkupSyncRuns.ChangesAreDurable: for a key whose file has nothing to clean at first; any other is durable when it was changed (MarkupSyncRuns.FlaggedIsDurable), and otherwise MarkupSyncRuns.SyncedReloads says when the files answer as memory does.
- MarkupSyncRuns.CallersChangesAreDurable: the modification time and user of an entry are not among what is followed through a run.
- MarkupSyncInv.SyncInv: removing the file and the directory of a useless subdirectory succeeds; the files at the start load without error, to entries that can be written and read back, with no name twice in a directory.
- Directories in the sync model are values addressed by their path, edited recursively where the code follows parent pointers; merged trees are not mixed into the runs of syncs.
- MarkupMergedSync.SyncAndReload: the whole subtree is loaded, the locale files that were there before are of the same content, and the conversion of a directory that was not merged is left out; deleting in the tree is a function where the code loops over lists.
- MarkupRoundTrip.LoadPrinted: a directory loaded into one that already has subdirectories puts those in reverse order before the new ones, as the reader's list reversal does.
- MarkupLocaleFiles.ReadLocaleFile: the reader in locale mode is a step machine on values, not an object; names are unique within a directory.
- MarkupLocales.MergedTree.GetValue: the tree is not changed between loading and asking; entries are addressed by path where the code holds a pointer.
- MarkupLocales.LocalSurvives: with at most one local schema per locale, which every change keeps (MarkupEntries.ChangeKeepsOnePerLocale).

Notification:

- Server restart and reconnection, and clients that vanish from the bus.
- The counter `nr_of_notifications`; ids that wrap around after 2^32 connections.
- ClientObject.GConfClient.AddDir: keeps the cache coherent when no message is under way; Client.DroppedQueue says what happens otherwise.
- ClientObject.GConfClient.RemoveDir: the same.
- ClientObject.GConfClient.AllEntries: the entries are those that the server lists, given as their keys; a failed call caches nothing and is left out.
- The comparison of values is a parameter of which only reflexivity is used; the preload is given as the list of keys it finds.
- Local listeners of the client, error handling modes and the value-changed signal: the list of queued notifications is modelled, what is done with it is not.

Listeners:

- Notification is a step machine in which a callback may do any sequence of operations; `ltable_destroy` and destroy functions that call back into the table are not modelled.
- Listeners.StaleIdHarmless: other tables appear only through the allocations that move the shared uniqueness byte.

XML backend, change sets, locales:

- XmlCache.XmlCache.Sync: passes visit the directories in any order, since the order of `dircmp` is proved separately; what happens after a sync that left a directory without its file is not modelled.
- Entries of the XML backend with only a schema name, times of access, and the parsing of its files.
- ChangeSets.ChangeSet.Commit: the list of keys to remove is the set of committed keys.
- The cache of locale lists and its expiry.
