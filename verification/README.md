# Caucus: a verified model of its harder parts

Caucus is a conferencing server. People write items and responses in conferences; several
servers can exchange items; access is decided by group files; text is kept in partfiles and in
counted character strings of one or two bytes per character. This project models six parts of
it in Dafny and proves what they keep. `dafny verify dfyconfig.toml` checks everything.

| part | files |
|---|---|
| Partfile update | `Partfiles`, `Repaging`, `ItemUpdates`, `Directories`, `Opening`, `Reading`, `TextBuffers`, `Responses`, `PartUpdate`, `Stored`, `Capacity`, `PartRuns` |
| Identity of items across hosts | `Identity`, `Network`, `Subjects` |
| Group files that include each other | `Graph`, `GroupFiles`, `GroupLines`, `Groups`, `GroupNumbers`, `GroupUsers`, `GroupAgreement` |
| Lists of item-by-response rectangles | `Rlists`, `RlistOr` |
| Chix strings, Japanese codecs, collation | `Text`, `Lines`, `Numbers`, `Chixen`, `ChixStrings`, `ChixSearch`, `ChixThin`, `Codecs`, `Jix`, `Collation` |
| Variable files and tables | `Blocks`, `VarFiles`, `VarTables` |

## How it is modelled

Code that changes state is a class or a method with loops, proved against a function of the
inputs; what the code is for is then proved about that function.

*Partfiles.* A response is a header and the lines behind it; on disk the header stands as it is
and every other line has one blank before it. A *page* is a partfile of whole responses, or one
response that goes on in further partfiles, named by the number of its lines that come before.
`LayoutDisk` gives the partfiles of a list of pages, `Content` the responses they hold.
`UpdatePart` follows the code of `updatepart` on a text buffer (an array of lines, with start and
stop indices that the compaction moves) and leaves the partfiles `Changed`. Reading those in the
order of their names always gives the old responses with the new one in place (`ChangedReads`).
The partfiles are also a layout again, within bounds, a response being cut only where it begins
its own partfile, with one exception. When the response is the last in the buffer, the lines it
gives up are counted as free twice (`CV2/db/updatepa.c:297-299`), and it can be taken to fit
behind other responses where it does not: it is then cut although its header is inside another
partfile. `LayoutIff` proves that this happens exactly under the condition `Misfit`, computable
from the old partfile and the new text; it never happens to a new response or one that is first
in its partfile. `MisjudgedExample` is an input, and `ContinuationGoesStale` the consequence: the
text still reads right, but the next update of that response leaves the old continuation behind.
Two limits are not checked by the source. The buffer has a slot for each response of a partfile:
every run of updates keeps within the slots if and only if there are at least `suggest_max - 9` of
them (`SlotsIff`), and the buffers of the programs, with 201 slots where 241 are needed, are left
by a run of nothing but additions (`SlotsOverflow`). A listing shows at most `PDIRMAX - 3`
partfiles: it is complete if and only if there are no more (`ListingCompleteIff`), it can miss the
very partfile that an update is for (`ListingMisses`), and the test that should freeze such an
item never succeeds, because the number of parts stays below `PDIRMAX`. `UpdatePart` requires
what these lemmas are about, and `UpdateAll` carries out whole runs that meet it.

*Identity.* A host is a table of items, each local or imported under (original host, original
number), and a table of host names. `Network` makes any number of hosts a state machine: create,
send, deliver anything ever sent to anyone (again, late, or back to its origin), delete, respond.
The name that a host has is a constant of that host, as the documentation of `getmyhost` has it.
The function itself returns the empty name in this version (`CV2/db/getmyhos.c:66-67`), and an
import under an empty name is never recognised again: `DuplicateIgnoredIff` says so exactly.
`send_item` decides by the original number where `getoitem` decides by the original host;
`ShippedAsKnownIff` gives the tables on which they agree, `ShippedAsKnown` that every reachable
table is one.

*Groups.* A directory is a map from names to lines. `Search` is `groupmatch` as a function, with one
history for the whole search; `Visit` is `users_by_group`, with one history per path. Both are
proved against reachability in the include graph, which may have cycles. Permission values are
sets of bits. The history and the list of files to search keep them as 16-bit numbers
(`CV2/include/namelist.h:16-20`), so a file that is found in the history comes back with bit 15
copied into all higher bits. The answer has every bit of a reachable file, and no others but those
copies; it is the bitwise or if the files have bits 16 to 31 whenever they have bit 15
(`GroupMatchAll`), and every value that breaks this rule has an include graph that gets it wrong
(`DiamondRightIff`, with `SignBitExample`). With permissions on include lines, `FileValue` gives the
value of a file exactly in terms of the searches of the files it includes. Whether a reduced name is accepted (wildcards, hosts) is
a parameter of the query, and so is the reduction; for one-byte text the reduction is the change
to small letters. `groupmatch` compares reduced names and `users_by_group` lists names as they are
written: the two agree for all users if and only if every name listed is listed in small letters
too (`ListedAsMatchedIff`, with `CapitalExample`).

*Rlists.* A list is the sequence of its nodes; a node means a set of (item, response) pairs, with
-1 as the highest response. Lists that are sorted, disjoint and merged as far as possible are
unique for their meaning (`CanonicalUnique`), which gives the laws of `or_rlist` node for node.
A node whose item bounds are out of order by more than one can take items away in `and_isince`;
`HandledRightIff` says exactly which nodes are handled right.

*Chix.* A chix is a byte array with a width, a capacity and a cached length; `text` is the ghost
sequence of its character values. Every operation is proved to stay inside the array, to keep the
terminator and the cache, and to do the sequence operation on `text`. `chxcatval` leaves a wrong
cached length exactly when the value, cut to the width, is zero. The Japanese decoders are fed a
byte at a time; the encoders fill a bounded buffer and are called again.
With room for fewer than three bytes the encoders convert nothing and still return 0, which
means "finished" (`ZeroMeansDoneIff`); for one-byte chix the limit is two (`ThinZeroMeansDoneIff`).
`ChixThin` has the branches that are compiled when all characters have one byte, under the contracts
of the general ones. `chxcat` of a chix with itself runs out of the buffer unless the chix is empty
(`ChxCatSelf`).

Comparison is a total order if and only if the collation rules are one-to-one (`TotalOrderIff`).
Comparison up to the length of an abbreviation finds the strings that begin with it if and only if
moreover no character has the value 0; under the rules set up at the start "!" has
(`AbbreviationsIff`, `InitAbbreviations`).

*Variables.* A variable file is lines; after any calls of `a_chg_var` it is a finite map. A value
loses a final newline and nothing else.

## Model

| member | source | states |
|---|---|---|
| PartUpdate.UpdatePart | CV2/db/updatepa.c:96-379 | From a layout within bounds, whose page has no more responses than the buffer has slots and whose partfiles a listing shows: the partfiles afterwards are exactly `Changed` (continuations of the old text gone, the response placed, every other partfile untouched), all buffer accesses are in bounds, and the item is not frozen |
| PartRuns.UpdateAll | CV2/db/updatepa.c:96-379 | A run of updates within those limits, none misjudged, leaves exactly the partfiles of the pages that the run computes |
| Capacity.SlotsIff | CV2/db/updatepa.c:281-287 | Every run of updates of a new item keeps within the response slots if and only if there are at least `suggest_max - 9` |
| Capacity.TooMany | CV2/db/updatepa.c:281-287 | With fewer slots, adding responses of a header only overflows them |
| Capacity.SlotsOverflow | CV2/include/textbuf.h:35-36 | With the sizes that the programs use there is such a run |
| Capacity.RunFitsIn | CV2/db/updatepa.c:296-303 | A page never gets more than `suggest_max - 10` responses, so a run never needs more slots |
| Capacity.ListingMisses | CV2/sys2/syspdir.c:184-185 | Of `PDIRMAX - 2` partfiles a listing can miss the one that a response begins, and the update opens the one before |
| Capacity.CrowdGrows | CV2/db/updatepa.c:301-310 | Items with one partfile for each response, as many as one likes, come about by additions |
| PartUpdate.ChangedReads | CV2/db/updatepa.c:22-36 | Reading the partfiles in order gives the old responses with this one replaced by, or followed by, header, title and trimmed lines, in every case |
| Stored.ResponseStored | CV2/db/updatepa.c:246-252 | Line by line: before and behind the response the item reads as it did, and between there are the header, a blank and the title if there is one, and for each line of the text a blank and the line without the blanks at its end |
| Stored.BlockLines | CV2/db/updatepa.c:327-340 | The lines of one response as it is stored, by position |
| Stored.PartsAreFull | CV2/db/updatepa.c:339-369 | A response that begins a partfile has exactly the partfiles at the multiples of `suggest_max - 5` below its number of lines |
| PartUpdate.NewOrFirstIsLayout | CV2/db/updatepa.c:281-310 | For a new response, or one first in its partfile, the result is a layout within bounds without exception |
| Reading.TornReads | CV2/db/updatepa.c:312-371 | Even a misjudged update leaves partfiles that read as the responses with this one in place |
| Reading.PlacedReads | CV2/db/updatepa.c:342-369 | A response cut behind others reads as a whole |
| ItemUpdates.LayoutIff | CV2/db/updatepa.c:296-310 | The partfiles after an update are a layout if and only if the response is not one that counts its own lines as free twice, is taken to fit behind others, and does not |
| ItemUpdates.MisjudgedExample | CV2/db/updatepa.c:297-299 | A response of 101 lines behind one of one line, changed to 301 lines: the result is no layout |
| ItemUpdates.TornDisk | CV2/db/updatepa.c:350-364 | A misjudged response has a continuation but no partfile that begins with it |
| Opening.ContinuationGoesStale | CV2/db/updatepa.c:136-143 | After a misjudged update the next update of that response does not remove the continuation |
| ItemUpdates.NewOrFirstIsPlaced | CV2/db/updatepa.c:281-310 | New responses, and those first in their partfile, are never misjudged |
| ItemUpdates.UpdatedContent | CV2/db/updatepa.c:152-174 | The new pages hold the old responses with one replaced or added; no partfile has more than `suggest_max - 5` lines; only a response alone on its page is continued |
| ItemUpdates.UpdatedDisk | CV2/db/updatepa.c:264-371 | The partfiles written, on top of the old ones, are those of the new pages |
| ItemUpdates.RunKeeps | CV2/db/updatepa.c:22-36 | After any number of updates the pages hold what the same updates make of a plain list of responses (the layout alone, apart from the limits of buffer and listing) |
| ItemUpdates.AddsRun | CV2/db/updatepa.c:125-133 | A run that only adds responses, of any lengths, never misjudges one in the layout |
| ItemUpdates.WhereIs | CV2/db/updatepa.c:122-133 | The page of a response holds it, or is the last and takes it in, or the response begins a page because the last one is continued |
| Repaging.WritesArePages | CV2/db/updatepa.c:196-371 | What is written for one page is a layout of the new pages |
| Repaging.RepagedOk | CV2/db/updatepa.c:196-371 | The pages that replace one page hold its responses with one replaced or added, within bounds |
| Repaging.OwnOk | CV2/db/updatepa.c:342-369 | A response that begins its own partfile: the parts together are the response, each at most `suggest_max - 5` lines, more than one exactly when it is longer |
| Repaging.StaysIff | CV2/db/updatepa.c:186-196 | A response that is not the last stays in place exactly when its text and the others have fewer than `suggest_max - 10` lines together |
| Repaging.JoinsIff | CV2/db/updatepa.c:281-310 | A new response joins the last partfile exactly when its text and the responses there have fewer than `suggest_max - 10` lines together, and otherwise begins its own |
| Repaging.MisfitNeeds | CV2/db/updatepa.c:296-299 | A misjudged response is neither new nor first, and has text |
| Partfiles.ReadsBack | CV2/resp/storetex.c:71-124 | Any ordered listing of a layout's partfiles reads as every response in turn: header, then each line behind one blank |
| Partfiles.ContentUnique | CV2/resp/loadtext.c:104-180 | Two layouts with the same partfiles hold the same responses |
| Partfiles.ContinuationHasStart | CV2/db/updatepa.c:136-143 | In a layout every continuation belongs to a response that begins a partfile |
| Opening.OpensLayout | CV2/db/updatepa.c:119-133 | An update opens the partfile where the page of its response begins, or a new one behind a continued last response |
| Opening.TrimmedLayout | CV2/db/updatepa.c:136-143 | The deletion loop removes exactly the continuations of that page |
| Opening.WrittenOver | CV2/db/updatepa.c:196-371 | The writes replace the opened page and touch no other |
| Directories.SysPdir | CV2/sys2/syspdir.c:120-188 | A strictly ordered listing of existing partfiles: all of them, or exactly `PDIRMAX - 3` if there are more |
| Directories.ListingCompleteIff | CV2/sys2/syspdir.c:184-185 | Every listing is complete if and only if there are at most `PDIRMAX - 3` partfiles |
| Directories.SlipIn | CV2/sys2/syspdir.c:166-183 | A new name is put in its place: order kept, nothing lost |
| Directories.PartNum | CV2/resp/partnum.c:16-38 | The last partfile whose name is not after the response; a first one is invented for an item without any |
| Directories.PartStore.OpenPart | CV2/db/updatepa.c:119-143 | On any set of partfiles and any listing of it: which one is opened, exactly which are removed, and that the number of parts stays below `PDIRMAX` |
| PartUpdate.UpdateInside | CV2/db/updatepa.c:189-259 | Case A: the file is the old responses with the new one in place, and `l_used` stays below `suggest_max` |
| TextBuffers.Textbuf.Compact | CV2/db/updatepa.c:198-218 | Swapping and clearing lines leaves every other response as it was and frees exactly the lines of this one |
| TextBuffers.Textbuf.ShiftResponse | CV2/db/updatepa.c:206-216 | One response moves down; lines below and lines after it are unchanged |
| TextBuffers.Textbuf.AddLine | CV2/db/updatepa.c:383-394 | One line is added at the end of the buffer and to the entry; nothing else changes |
| TextBuffers.Textbuf.LoadText | CV2/resp/loadtext.c:66-196 | Loading what was written for responses, with any '+' lines in between, gives these responses packed in order |
| TextBuffers.PlainKeeps | CV2/resp/loadtext.c:124-164 | Exactly the lines that start with '+' are skipped |
| TextBuffers.Textbuf.StoreText | CV2/resp/storetex.c:52-129 | The file of a range of entries is the blocks of their responses |
| TextBuffers.Textbuf.constructor | CV2/resp/maketext.c:57-124 | At least 20 responses and 100 lines, and one more of each |
| PartUpdate.PutText | CV2/db/updatepa.c:350-371 | Lines go to the buffer while there is room, then in pieces to partfiles named by the number of lines before them |
| PartUpdate.FlowedIs | CV2/db/updatepa.c:350-371 | Line by line writing equals dealing the lines out in pieces |
| PartUpdate.PieceIs | CV2/db/updatepa.c:356-366 | The extra blank on the first line of a continuation and the blank that storetext adds to the others come to one blank on every line |
| PartUpdate.AddLast | CV2/db/updatepa.c:312-371 | Case D: header, title and text behind the responses in the buffer, cut where it overflows |
| PartUpdate.UpdateLoaded | CV2/db/updatepa.c:152-371 | The four cases together write exactly `Writes` |
| Text.ChxTrim | CV2/chx/chxtrim.c:58-84 | The longest prefix that does not end in a blank |
| Responses.CountLines | CV2/db/updatepa.c:178-180 | The number of lines of the text |
| Network.RunSafe | CV2/db/chgditem.c:188-209 | In every run over any hosts each table stays consistent: distinct identities, authentic imports, no slot for the host itself |
| Network.NextSafe | CV2/db/chgditem.c:188-260 | Each step keeps that, and only adds to what is known of an item |
| Network.RunGrows | CV2/db/createit.c:55-75 | Along a run items keep their numbers and identities, and deleted ones stay deleted |
| Network.OneItemPerIdentity | CV2/db/chgditem.c:188-209 | In every reachable state a host has at most one item per (original host, original number) |
| Network.ToLocalOfIdentity | CV2/db/iorigtol.c:80-101 | Looking up the identity of an item finds that item, and says whether it is deleted |
| Network.IdentityOfToLocal | CV2/db/getoitem.c:60-67 | What a lookup finds has the identity looked up, and finding nothing means no item has it |
| Network.ShippedAsKnown | CV2/db/senditem.c:97-105 | `send_item` ships every item of a reachable table under the identity `getoitem` gives |
| Network.ShippedAsKnownIff | CV2/db/senditem.c:97-105 | On any table they agree for an item if and only if it has both an original host and a positive original number, or neither |
| Network.NewItemExactly | CV2/db/chgditem.c:188-209 | On any consistent table: an import that is there is left alone under its number; anything else is refused with DCFULL if and only if the table is full, and otherwise becomes the next item, without responses, under the identity delivered, or under this host and its own number if it is local |
| Network.EchoIgnored | CV2/db/iorigtol.c:83-86 | What comes back to its own host is left alone |
| Network.HopsKeepIdentity | CV2/db/chgditem.c:188-209 | What is delivered to a host that has it or is not full is there, and is shipped on, under the identity it was sent with, for the rest of the run |
| Network.DeleteExactly | CV2/db/chgditem.c:245-260 | Deletion marks the item, if it is there and readable, and changes no other; success means that the item is marked afterwards |
| Network.ResponseExactly | CV2/db/chgdresp.c:171-234 | A response to an item that is there gets the next number, and no other item changes |
| Network.NeverResurrected | CV2/db/chgditem.c:190-195 | Once an item is deleted, no later item on that host has its identity, however often it is delivered |
| Network.DuplicateIgnoredIff | CV2/db/chgditem.c:190-209 | On any host, named or not, a second delivery changes nothing if and only if the host name that comes with it is not empty |
| Identity.Intern | CV2/db/createit.c:57-72 | Interning a name never moves another, reuses its slot, and gives slot 0 to no name |
| Identity.Master.GetOItem | CV2/db/getoitem.c:51-67 | The identity of a local number |
| Identity.Master.SendItemIdentity | CV2/db/senditem.c:97-105 | The identity an item is shipped under |
| Identity.Master.IorigToLocal | CV2/db/iorigtol.c:66-101 | First item of the identity, 0 if none; success unless it is missing or deleted |
| Identity.Master.InternHost | CV2/db/createit.c:57-72 | The search and the addition at the end implement `Intern` on the array of names |
| Identity.Master.CreateItem | CV2/db/createit.c:44-75 | One more item, with its origin; the others and the names already there are kept |
| Identity.Master.ChgDitemNew | CV2/db/chgditem.c:188-209 | Duplicate test, limit and creation: new table, number and error code |
| Identity.Master.ChgDitemDelete | CV2/db/chgditem.c:245-260 | Deletion marks one item and nothing else; an unreadable item is an error |
| Identity.Master.ChgDrespNew | CV2/db/chgdresp.c:171-234 | A new response gets the next number; a missing item is an error, and a deleted one is left alone without one |
| Subjects.SubjectsTravel | CV2/db/scansubj.c:61-103 | A list printed on one host and parsed on any host marks exactly that host's copies of the listed items |
| Subjects.SubjectsRoundTrip | CV2/db/sendsubj.c:99-107 | On the same host printing and parsing is the identity on sets of items |
| Subjects.SubjectText | CV2/db/sendsubj.c:99-107 | The text has one line per listed item, with its identity |
| Subjects.ScanSubject | CV2/db/scansubj.c:61-103 | Any text: exactly the items that its words mark under the sign asked for |
| Subjects.ScanWord | CV2/db/scansubj.c:82-96 | One word, with or without a host: the item it marks, if any |
| Subjects.MarkedIff | CV2/db/scansubj.c:82-96 | An item is marked exactly by a word that begins with the sign and names it |
| Subjects.SignedWord | CV2/db/scansubj.c:89-93 | Sign, number, '@' and host name the item with that identity, whichever the sign |
| Subjects.LocalWord | CV2/db/scansubj.c:89-93 | Without a host the number is that of an item here |
| Subjects.OtherSignMarksNothing | CV2/db/scansubj.c:89 | A printed list marks nothing under the other sign |
| Subjects.LibraryBlanksArePlain | CV2/chx/chxinit.c:50-88 | The separator tables of the library meet what the round trip needs of them |
| Groups.GroupMatchAll | CV2/conf/groupmat.c:87-224 | From an empty history, on every include graph: nonzero exactly when a reachable file matches; with `searchall` only bits of reachable files or of their include lines, and copies of bit 15 above it; without permissions on include lines every bit of a reachable file, and so exactly the union if that has bits 16 to 31 whenever it has bit 15 |
| Groups.FileValue | CV2/conf/groupmat.c:148-209 | What a file new to the history gives: its own value, and for each include line, searched with the history that the lines before have left, the permission on the line if that and the included file's value are above zero, and otherwise that value; without `searchall` up to the first that gives something; and what the history then has |
| Groups.NotSearched | CV2/conf/groupmat.c:116-142 | A file on another host gives nothing, one in the history what is stored first under its name, and one that cannot be read nothing, with an entry under the name asked for |
| Groups.PermissionOverrides | CV2/conf/groupmat.c:201-202 | A file of one include line gives its permission, and not the included file's, if both are above zero |
| Groups.GroupMatch | CV2/conf/groupmat.c:111-209 | With any history: terminates, and value and history are those of `Search` |
| Groups.SearchFinds | CV2/conf/groupmat.c:111-209 | From any sound history the search keeps it sound, and has been through what it newly enters |
| Groups.FromScratch | CV2/conf/groupmat.c:187-209 | A search that starts with no history covers all that is reachable |
| Groups.SearchingStep | CV2/conf/groupmat.c:198-204 | Taking in one included file, searched or found in the history, keeps the value sound and the cover complete, also inside a cycle |
| GroupNumbers.DiamondRightIff | CV2/conf/groupmat.c:122-126 | For every line that names users, in a file that is included twice: the value found is the file's if and only if storing it as a 16-bit number adds no bit |
| GroupNumbers.DiamondValue | CV2/conf/groupmat.c:206-209 | The value found is that of the file joined with that of the file as the history has it |
| GroupNumbers.SignBitExample | CV2/conf/groupmat.c:122-126 | "roth 32768", included twice, comes out as 0xFFFF8000 |
| GroupFiles.FitsShortIff | CV2/include/namelist.h:16-20 | A value has bits 16 to 31 or not bit 15, if and only if storing it adds no bit |
| GroupFiles.ScanGroupFile | CV2/conf/groupmat.c:148-175 | The lines of a file, read to the end or to the first match: value and the list of files to search |
| GroupFiles.FirstIsSome | CV2/conf/groupmat.c:150-175 | Stopping at the first match finds something exactly when reading on would, and nothing else |
| GroupFiles.FirstIsFirst | CV2/conf/groupmat.c:150-175 | Without `searchall` a file gives the value of the first line that matches |
| GroupFiles.DirectIsUnion | CV2/conf/groupmat.c:167-174 | With `searchall` it gives the bits of all lines that match |
| GroupFiles.ScanGroupLine | CV2/conf/groupmat.c:151-174 | Comment, include or name: names and permissions from the reduced line, the included file from the line as it is |
| GroupLines.CommentLine | CV2/conf/groupmat.c:151 | A line that starts with '#' says nothing |
| GroupLines.OneWordLine | CV2/conf/groupmat.c:155-165 | A word is a name, or after '<' a file to include |
| GroupLines.TwoWordLine | CV2/conf/groupmat.c:155-156 | What follows it is the permission |
| GroupLines.ReducedLine | CV2/conf/groupmat.c:152-174 | A line that is reduced to a name and a permission gives the permission, or 1 if it has no bits, to those whom the reduced name accepts |
| GroupLines.IncludedName | CV2/conf/groupmat.c:159-163 | The included file is named by the line as it is written, by at most 200 characters |
| GroupFiles.GroupMatchPerm | CV2/conf/groupmat.c:226-246 | The union of the values of the permission words |
| GroupLines.PermsAreUnion | CV2/conf/groupmat.c:236-242 | Several permission words give all their bits together |
| GroupLines.NumberPerm | CV2/conf/groupmat.c:237 | A number gives its bits |
| GroupLines.NamedPerm | CV2/conf/groupmat.c:238-240 | A name gives the bits of the number that follows its first place in the table |
| GroupLines.UnknownPerm | CV2/conf/groupmat.c:238 | A name that the table does not have gives none |
| GroupLines.BitsStep | CV2/conf/groupmat.c:237-240 | Which bits a number has, from the lowest up |
| GroupLines.PositiveIs | CV2/conf/groupmat.c:201 | Above zero, as bits, is above zero as a 32-bit number |
| GroupLines.ShortIsShort | CV2/include/namelist.h:16-20 | What the history keeps of a value is C's conversion to a 16-bit number |
| GroupFiles.Resolve | CV2/conf/groupmat.c:116-120 | A name with this host, or no host, gives the bare file name; another host gives none |
| GroupLines.NameWithHost | CV2/conf/groupmat.c:116-120 | "name@host" is the file `name` exactly when the host is this one |
| GroupUsers.UsersOfReachable | CV2/conf/usersbygroup.c:38-87 | The list has exactly the users named in reachable files, each once |
| GroupAgreement.MatchedIffSomeListed | CV2/conf/groupmat.c:150-175 | For any comparison of names: `groupmatch` accepts exactly when the list of `users_by_group` has a name whose reduced form is accepted |
| GroupAgreement.ListedIffMatched | CV2/conf/usersbygroup.c:45-79 | A user is listed exactly when `groupmatch` accepts that user, if of the names in the files only that user's is accepted |
| GroupAgreement.ListedAsMatchedIff | CV2/conf/usersbygroup.c:56-66 | Without wildcards this holds for all users if and only if every name listed is listed in small letters too |
| GroupAgreement.ExactlyMatched | CV2/conf/groupmat.c:152-169 | Without wildcards `groupmatch` accepts exactly the users whose names are listed in some mixture of small and capital letters |
| GroupAgreement.LoweredReadAlike | CV2/chx/jixreduc.c:114-118 | The reduction of one-byte text changes the letters of the name on a line, and not what the line is |
| GroupAgreement.CapitalExample | CV2/conf/usersbygroup.c:56-66 | The line "Roth" lists "Roth" and lets "roth" in |
| GroupUsers.UsersByGroup | CV2/conf/usersbygroup.c:38-87 | The recursion with a history in text form implements `Visit`, and terminates on every graph |
| GroupUsers.ScanUsers | CV2/conf/usersbygroup.c:54-67 | Users not yet listed are added, include targets collected, over the text buffers |
| GroupUsers.VisitFinds | CV2/conf/usersbygroup.c:73-79 | A search with a history finds exactly what paths outside the history reach |
| GroupUsers.VisitKeeps | CV2/conf/usersbygroup.c:63-66 | Users already listed stay in place, and no user is listed twice |
| Text.TableFind | CV2/glyph/tablefin.c:19-40 | The position of the first word equal to the one sought, -1 if there is none |
| RlistOr.OrRlist | CV2/api/orrlist.c:53-130 | Terminates on all lists; on sorted ones the result is canonical and has for each item the smallest interval that covers both |
| RlistOr.CanonicalUnique | CV2/api/orrlist.c:95-127 | Canonical lists that agree at every item are the same nodes |
| RlistOr.OrCommutes | CV2/api/orrlist.c:70-127 | Node for node |
| RlistOr.OrAssociates | CV2/api/orrlist.c:70-127 | Node for node |
| RlistOr.OrIdempotent | CV2/api/orrlist.c:70-127 | A canonical list combined with itself is itself |
| RlistOr.FixUp | CV2/api/orrlist.c:124-127 | The last pass changes only bounds that stand for the highest response |
| RlistOr.RlOfSelect | CV2/api/rlofsele.c:51-86 | Terminates although it steps back, and gives the canonical list of the selected responses |
| RlistOr.OrOfSelects | CV2/api/rlofsele.c:60-85 | `or_rlist` of two such lists is the list of the pointwise union, node for node |
| RlistOr.SelectsCombine | CV2/api/andrlist.c:78-102 | `or_rlist` and `and_rlist` of two such lists mean the union and the intersection of the selections |
| RlistOr.AtMeans | CV2/api/orrlist.c:76-95 | Interval per item and set of pairs are the same meaning on sorted lists |
| Rlists.AndRlist | CV2/api/andrlist.c:62-104 | The nested loops give the nonempty meets of all pairs of nodes |
| Rlists.AndMeansIntersection | CV2/api/andrlist.c:78-104 | On any lists, overlapping or not, that means exactly the intersection |
| Rlists.AddToRlist | CV2/api/addtorl.c:55-72 | The first node that the item extends is stretched, or a node is added |
| Rlists.AndIsince | CV2/gen/andisinc.c:101-107 | The loop, built on the merging of `add_to_rlist`, gives `Since` |
| Rlists.SinceMeansRestriction | CV2/gen/andisinc.c:101-107 | Means exactly the restriction to items from `since` on |
| Rlists.HandledRightIff | CV2/gen/andisinc.c:101-107 | Exactly which nodes, behind arbitrary ordered ones, keep that true |
| Rlists.UnorderedNodeClips | CV2/gen/andisinc.c:101-107 | Every other node has a list in front of which it takes away an item |
| Codecs.EncodeInvertsDecode | CV2/chx/sjisofji.c:85-104 | Encoding what was decoded gives back every well-formed Shift_JIS or two-byte EUC stream, well-formed by the byte ranges of the codes |
| Codecs.DecodeInvertsEncode | CV2/chx/jixofsji.c:158-192 | Decoding what was encoded gives back every string of characters of the code, behind any text |
| Codecs.SjisRoundTrip | CV2/chx/sjisofji.c:94-99 | Lead and trail bytes of both banks correspond to rows and cells 1 to 94, one to one |
| Codecs.SjisExact | CV2/chx/jixofsji.c:158-192 | The bytes that Annex 1 of JIS X 0208 gives for row and cell are decoded to that character, and it is encoded as them |
| Codecs.EucExact | CV2/chx/jixofeuc.c:159-179 | Two bytes of EUC are decoded to the character of these two bytes, and it is encoded as them |
| Codecs.FirstByteIs | CV2/chx/jixofeuc.c:159-173 | For every byte and both codes: whether it is dropped, begins a character or is one, and the code returned |
| Codecs.PairRoundTrip | CV2/chx/eucofjix.c:85-94 | A two-byte character of either code survives decoding and encoding |
| Codecs.CharRoundTrip | CV2/chx/jixofeuc.c:159-179 | The bytes of a character decode to that character |
| Codecs.DecodeConcat | CV2/chx/jixofsji.c:119-193 | Decoding in two calls equals decoding in one, from any state, also inside a character |
| Codecs.ChunksAreWhole | CV2/chx/jixofeuc.c:119-180 | So for any cutting into pieces |
| Codecs.BackspaceErases | CV2/chx/jixofsji.c:137-152 | A backspace behind a complete character removes exactly that character |
| Codecs.BackspaceCode | CV2/chx/jixofsji.c:137-148 | The code of a backspace is 4 or 3 as the erased character is of double or single width, and 5 at the start |
| Codecs.BackspaceInside | CV2/chx/jixofsji.c:140-151 | Between the two bytes of a character it takes away the character before, and the second byte then makes one without a row |
| Codecs.ResumedIsWhole | CV2/chx/sjisofji.c:86-104 | With room for three bytes or more, calls resumed until 0 give the whole encoding |
| Codecs.CallProgresses | CV2/chx/eucofjix.c:86-94 | Such a call converts something unless it is finished |
| Codecs.CallFits | CV2/chx/sjisofji.c:86-104 | A call writes at most `n` bytes, the terminator included |
| Codecs.ZeroMeansDoneIff | CV2/chx/sjisofji.c:86-104 | A returned 0 means that everything was converted if and only if `n` is at least 3 or nothing was left |
| Jix.Reader.Read | CV2/chx/jixofsji.c:79-197 | Over the bytes of the chix, with resizing, the static position and state: the text and the code are those of `Decode`; an uninitialised chix is refused |
| Jix.Reader.FeedByte | CV2/chx/jixofeuc.c:123-180 | One byte, in either state |
| Jix.Reader.Erase | CV2/chx/jixofsji.c:140-152 | Backspace over a complete character, or over half of one |
| Jix.Reader.ClearNext | CV2/chx/jixofsji.c:131-135 | The terminator written ahead changes neither text nor state |
| Jix.Reader.MakeRoom | CV2/chx/jixofsji.c:127-129 | Growing keeps text and position |
| Jix.WriteWide | CV2/chx/sjisofji.c:80-104 | The bounded loop implements `EncodeCall` on the bytes of the chix |
| Jix.WriteThin | CV2/chx/sjisofji.c:73-78 | One-byte chix are copied |
| Jix.ThinEncodesItself | CV2/chx/sjisofji.c:73-78 | Which is what the general encoding does with one-byte characters |
| Jix.ThinResumedIsWhole | CV2/chx/sjisofji.c:73-78 | With room for two bytes or more, thin calls resumed until 0 give the whole text |
| Jix.ThinCallFills | CV2/chx/sjisofji.c:73-78 | A thin call copies as many bytes as there is room for |
| Jix.ThinZeroMeansDoneIff | CV2/chx/sjisofji.c:73-78 | For a thin chix a returned 0 means that everything was copied if and only if `n` is at least 2 or nothing was left |
| Jix.Write | CV2/chx/sjisofji.c:66-104 | Argument checks, then the branch for the width |
| Chixen.Chxcapc | CV2/chx/chxcapc.c:83-105 | Copies up to `n` characters, promoted to the wider type, and a terminator; writes nothing beyond |
| Chixen.ChxcapcThin | CV2/chx/chxcapc.c:76-82 | The one-byte form does the same at width 1 |
| Chixen.TextUnique | CV2/chx/chxlen.c:71-96 | Bytes determine the text |
| ChixStrings.Chix.constructor | CV2/chx/chxalloc.c:75-137 | Empty, at least 63 characters, a legal width |
| ChixStrings.Chix.Len | CV2/chx/chxlen.c:52-107 | The length, and the cache is filled with it |
| ChixStrings.Chix.Value | CV2/chx/chxvalue.c:56-89 | The character, 0 past the end |
| ChixStrings.Chix.Clear | CV2/chx/chxclear.c:43-66 | Empty text, exact cache |
| ChixStrings.Chix.Resize | CV2/chx/chxresiz.c:59-115 | Text kept through growth and promotion; never narrower, never smaller |
| ChixStrings.ChxCat | CV2/chx/chxcat.c:53-81 | Concatenation over mixed widths, exact cache, in bounds |
| ChixStrings.ChxCatSub | CV2/chx/chxcatsu.c:55-98 | Appends the substring, cut to what there is; a chix appended to itself is left alone |
| ChixStrings.SubIs | CV2/chx/chxcatsu.c:81-89 | Which characters the substring has, for any position and count |
| ChixStrings.ChxCatVal | CV2/chx/chxcatv.c:53-113 | Appends one character; the cached length is right if and only if the cut value is not zero |
| ChixStrings.ChxCpy | CV2/chx/chxcpy.c:51-94 | Copies text, also of a chix onto itself; the wider width stays |
| ChixStrings.ChxCatSelf | CV2/chx/chxcat.c:70-78 | Appending a chix to itself stays inside the buffer if and only if it is empty |
| ChixThin.LenThin | CV2/chx/chxlen.c:70-83 | The one-byte form of `chxlen` |
| ChixThin.ValueThin | CV2/chx/chxvalue.c:76-80 | The one-byte form of `chxvalue` |
| ChixThin.ClearThin | CV2/chx/chxclear.c:58-63 | The one-byte form of `chxclear` |
| ChixThin.ChxCatValThin | CV2/chx/chxcatv.c:73-97 | The one-byte form of `chxcatval`, with the same exception for a value that is cut to zero |
| ChixThin.ChxCpyThin | CV2/chx/chxcpy.c:79-91 | The one-byte form of `chxcpy` |
| ChixThin.ChxIndexThin | CV2/chx/chxindex.c:82-96 | The one-byte form of `chxindex` |
| ChixSearch.ChxScan | CV2/chx/chxscan.c:91-104 | The first position where two strings differ, and the characters there, for any widths |
| ChixSearch.ChxScanThin | CV2/chx/chxscan.c:81-89 | The one-byte form gives the same |
| ChixSearch.ChxIndex | CV2/chx/chxindex.c:60-111 | The least match at or after `pos`, -1 if none |
| Numbers.Index | CV2/chx/chxindex.c:99-107 | Least matching position, and none means none |
| ChixSearch.ChxAlter | CV2/chx/chxalter.c:61-96 | Exactly the first match is replaced |
| ChixSearch.ChxReplace | CV2/chx/chxrepla.c:57-118 | The text before `pos`, then the leftmost non-overlapping substitution from there |
| ChixSearch.ReplacedByIndex | CV2/chx/chxrepla.c:94-107 | The substitution is: up to the least match, the new text, and on behind the match, never rescanning |
| ChixSearch.ReplacedBySelf | CV2/chx/chxrepla.c:94-107 | Replacing a string by itself changes nothing |
| Text.ChxToken | CV2/chx/chxtoken.c:67-166 | The n-th word, its start, and the rest of the line from there; -1 when there are fewer |
| Text.ChxNextWord | CV2/chx/chxnextw.c:47-126 | The next word from `pos`: with `ChxToken`, iterating gives the same words and starts |
| Text.WordsAreRuns | CV2/chx/chxtoken.c:127-166 | Every word is a maximal run of non-blanks, in order |
| Text.RunsAreWords | CV2/chx/chxtoken.c:127-166 | Every maximal run is a word |
| Lines.ChxNextLine | CV2/chx/chxnextl.c:66-140 | The next line, and whether a newline ended it |
| Lines.LinesOfUnlines | CV2/chx/chxnextl.c:93-140 | Lines written with newlines are read back |
| Lines.JoinLinesIff | CV2/api/agetvar.c:75-85 | Splitting into lines and joining them gives the text back if and only if it does not end in a newline |
| Numbers.ChxInt4 | CV2/chx/chxint4.c:60-135 | Blanks, sign and digits: value and end |
| Numbers.SignedDecimal | CV2/chx/chxint4.c:124-134 | A printed number with a plus sign is read back, to its end |
| Numbers.NegativeDecimal | CV2/chx/chxint4.c:124-134 | So is one with a minus sign |
| Numbers.NumberIs | CV2/chx/chxint4.c:107-134 | Blanks before a number are passed over, and it ends with its digits |
| Numbers.NoNumber | CV2/chx/chxint4.c:124-134 | Without digits there is no number, and the position stays |
| Numbers.ChxBreak | CV2/chx/chxbreak.c:53-91 | Splits at the first match; without one everything is in front |
| Numbers.BreakAtFirst | CV2/chx/chxbreak.c:80-90 | A mark that the front does not contain is where the split is |
| Collation.ChxCompare | CV2/chx/chxcompa.c:67-103 | The comparison on the bytes is the one on texts |
| Collation.TotalOrderIff | CV2/chx/chxcompa.c:87-102 | Zero only for equal strings, and transitive: each if and only if the rules are one-to-one on nonzero characters |
| Collation.LimitedIs | CV2/chx/chxcompa.c:87-102 | Up to a length: 0 if the strings agree so far, otherwise as the first characters that differ collate, with the end of a string as the value 0 |
| Collation.PrefixesIff | CV2/chx/chxcompa.c:90 | Strings that are long enough compare as equal if they begin alike, and under one-to-one rules only then |
| Collation.AbbreviationIff | CV2/chx/chxcompa.c:87-102 | Under one-to-one rules an abbreviation finds exactly the strings that begin with it, and those that end inside it before a character of the value 0 |
| Collation.AbbreviationsIff | CV2/chx/chxcompa.c:87-102 | Only the former, for all strings, if and only if no character has the value 0 |
| Collation.InitAbbreviations | CV2/chx/chxinit.c:61-63 | Under the rules set up at the start the exceptions are those that end before a "!" |
| Collation.CmpAntisymmetric | CV2/chx/chxcompa.c:87-102 | For all rules |
| Collation.CmpTransitive | CV2/chx/chxcompa.c:87-102 | For one-to-one rules |
| Collation.CmpZeroIsEqual | CV2/chx/chxcompa.c:87-102 | For one-to-one rules |
| Collation.InitRulesOrder | CV2/chx/chxinit.c:61-63 | The rules set up at the start are one-to-one |
| Collation.RuleList.Apply | CV2/chx/chxcolla.c:112-119 | The last rule that fits decides |
| Collation.RuleAdded | CV2/chx/chxcolla.c:112-119 | A rule added last decides for its range, in its steps, and for nothing else |
| Collation.RuleList.AddRule | CV2/chx/chxcolla.c:102-108 | One rule more, at the end |
| VarFiles.GetAfterChanges | CV2/api/agetvar.c:75-85 | After any changes a variable reads as the last value set, without a final newline; deleted and unknown ones read as empty |
| VarFiles.FileIsBlocks | CV2/api/achgvar.c:87-111 | After any changes the file is blocks with distinct names, and as a map it is the map of the changes |
| VarFiles.ChangedBlocks | CV2/api/achgvar.c:87-111 | One change: that variable set or deleted, all others untouched |
| VarFiles.KeptBlocks | CV2/api/achgvar.c:98-111 | The copying loop drops exactly the block of the variable, whatever the flag holds before it is first set |
| VarFiles.FoundInBlocks | CV2/api/agetvar.c:75-85 | Reading a file of blocks is looking the name up |
| VarFiles.VarFile.ChgVar | CV2/api/achgvar.c:55-122 | The rewriting of the file, and the empty name refused |
| VarFiles.VarFile.GetVar | CV2/api/agetvar.c:54-92 | The reading loop, a missing file, and the empty name refused |
| VarTables.LoadAfterChanges | CV2/api/agetvart.c:69-93 | A table loaded after any changes is the same map |
| VarTables.FileBeginsWithName | CV2/api/agetvart.c:83-93 | A file that changes have made begins with a name, without which loading uses a slot number that is not set |
| VarTables.TableIsMap | CV2/api/agetvart.c:69-93 | A table that shows the blocks of a file is their map |
| VarTables.SavedMap | CV2/api/achgvart.c:91-103 | Writing a table keeps its map, apart from empty values and final newlines |
| VarTables.Vartab.Load | CV2/api/agetvart.c:59-99 | Any number of lines, through any doublings: the table shows the blocks of the file |
| VarTables.Vartab.Save | CV2/api/achgvart.c:60-109 | The lines written are the blocks of the named, nonempty slots |
| VarTables.Vartab.Find | CV2/api/vartfind.c:39-54 | The slot of a name, new and empty if it was not there; the other slots keep theirs |
| VarTables.Vartab.New | CV2/api/vartfind.c:57-75 | A slot reused or added, room made when little is left |
| VarTables.Vartab.Expand | CV2/api/vartfind.c:78-115 | Twice the room, the same contents |
| Blocks.FileOfInjective | CV2/api/agetvart.c:69-93 | A file of blocks is made of one list of blocks only |

## Left out

- PartUpdate.UpdatePart: does not model the '+' lines (length, origin, attachment, properties, copied from) that storetext writes behind a header; loading skips them, as modelled in `LoadText`. What happens beyond the two limits that `SlotsIff` and `ListingCompleteIff` describe is writing outside an array, or up to the order of the directory, and is not modelled further.
- TextBuffers.Textbuf.LoadText: requires the responses of the partfile to fit the slots; the source writes outside the array otherwise.
- Directories.SysPdir: the decoding of file names into numbers is not modelled.
- Rlists.AndRlist: lists are sequences of nodes; sharing between linked lists is not modelled. The same holds for `OrRlist`, `RlOfSelect`, `AddToRlist` and `AndIsince`.
- Rlists.AndIsince: `matchdate`, which turns a date into an item number, is the parameter `since`.
- Groups.GroupMatch: `jixreduce` and `equal_id` are the parameters `reduce` and `accepts`, and the redirection mark is taken to be "<". The names of included files are cut to 200 characters, as at `CV2/conf/groupmat.c:162`.
- GroupAgreement.ListedAsMatchedIff: the reduction of two-byte text, with its tables of Japanese characters, is not modelled.
- Subjects.ScanSubject: marks a set of items where the source marks an array; that the array is long enough is not modelled.
- Identity.Master.CreateItem: the fixed size of the table of host names, which the source does not check, is not modelled.
- Identity.Master.ChgDitemNew: one conference; text, title and author of an item and the title and author indexes are not part of an item's identity.
- Text.ChxToken: works on character values, not on the bytes of a chix; so do `ChxNextWord`, `ChxNextLine`, `ChxBreak`, `ChxInt4` and `ChxTrim`.
- Numbers.ChxInt4: does not model overflow of 32-bit integers.
- ChixStrings.ChxCat: a chix appended to itself is `ChxCatSelf`, since the result is outside the buffer unless it is empty.
- VarTables.Vartab.Load: requires that the file does not begin with a value line, for which the source uses variables that are not set; `FileBeginsWithName` says that changes make no such file.
- Jix.Reader.Read: the check that the argument is a chix, and the unused output sequence, are not modelled.
- The message partfiles, which are not written when empty (`CV2/db/updatepa.c:267-268`), and the original host of a response under `C_LINK`.
- The XT_CHANGE action of `chg_ditem` and `chg_dresp`, which changes text only.
- `chxofraw`, `chxformat`: large tables and formats.
- Locks, units, the file system, memory exhaustion and error reporting.
- The command interface, the web interface, caches, SQL, and the password and directory tools.
