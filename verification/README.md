# A verified model of Joruri Mail

Joruri Mail is a web client for IMAP that keeps, in a database, a picture of what lives elsewhere: the mailbox
list, cached message headers and filter targets mirror the IMAP server, groups and users mirror an LDAP tree, and
the group tree travels through CSV files. This project models the code that keeps such pictures in step and proves
when they agree. Where the code and its intent part ways, the exact condition is proved, and for the ones a user can
meet a lemma gives an input or a state that fails: `ChildNotRenamed`, `CapturedOnTheWay`, `HeaderLeftBehind`,
`HeaderReused`, `FlaggedNeighbourLost`, `FlaggedMailStays`, `SpelledReferenceChanges`, `SurrogateReferenceRaises`,
`DescendingRangeLost`, `FailedOpenForgotten`, `MatchReportedTwice`, `UnmatchedMailMoved`, `FirstMailShownUnchecked`,
`ListedSenderLost`, `NewGroupLost` and `SecondRunDisables`.

State that the program updates in place is held in classes (`Database` and `Mailbox`, `Session`, `Filter`,
`Account`, `Contents`, `Staging`, `Directory`, `Importer`, `Items`, ...). Each of their methods is proved equal to a
function of the old state; the theorems are about those functions and about runs of steps.

## Mailboxes

A mailbox is a name split by one delimiter. `MailboxTree` describes what a save with its callbacks does to rows,
filters, cached headers and records in memory; `MailboxForest` the parent links that `make_tree` builds and the rows a
save reaches through them; `MailboxRename` shows that the recursion is the prefix rewrite of RENAME (section 6.3.5 of
RFC 3501) exactly when every mailbox below the renamed one validates and hangs on a row, nothing stored below it dangles
and no stored reference is taken along twice, for which `MailboxCapture` has an example; `MailboxRecords` holds the
records and the transaction; `MailboxOrder`, `MailboxSync` and `MailboxRuns` cover the ordering, the rebuild from the
server listing, and runs of create, rename, delete and sync with rollbacks. The table of cached headers (`CacheTable`)
is the same in these modules and in those of the header cache.

Names may repeat in the table, for example when a mailbox is created whose name a rename had left behind: an index by
name then finds the last row listed, children hang on that one, and a sync leaves the other copies as they are. The
theorems that compare names with the server's say where they need names to be unique.

Names hold no newline and no backslash; all mailboxes of an account share one single-character delimiter; decoding
from modified UTF-7 works segment by segment and is a parameter, as is the server's ordering of equal keys. RENAME
of INBOX, which the server treats specially, is excluded. The server creates no mailbox twice, and moves none onto
another or below itself; what the table holds does not matter for that.

## Messages

A server mailbox is (UIDNEXT, uid -> message), UIDs never being reused (section 2.3.1.1 of RFC 3501) and UIDVALIDITY
fixed. `MailMoves` compares the two ways of moving mail, `HeaderCache` says what a cached header shows, `MailStore`
is the session with server and cache, `Paging` the listing pages and links, `ImapSelection` the record of the open
mailbox. `CacheRuns` joins everything in one state, the server with the tables of mailboxes, filters and cached
headers: its runs mix mail operations, requests on mailboxes with their recursion over the stored tree, syncs, and
arrivals, expunges and new mailboxes from outside. A rename rewrites only what its recursion reaches, so cached headers
can stay under a name the server no longer has; exactly when is proved, that a sync removes them, and that until then a
new mailbox of that name would show them as its own. A cached row is
decoded once more when it is built than it is encoded, so the cache is transparent exactly for headers without a literal
numeric character reference and for addresses that survive joining and splitting on newlines, and it raises exactly
when a reference names no character.

## Filters

`FilterEngine` is the engine with its match lists, `FilterOutcome` and `FilterResults` what it leaves,
`FilterSchedule` the cap of one request, `FilterApply` and `FilterCarry` the use of one filter on several mailboxes,
`FilterRecents` the watermark for new mail, `SpamFilter` the bounded sender list. Match lists are never cleared.
Within one mailbox that changes nothing but the reported count; across mailboxes it moves mail that does not match,
and the exact condition is proved. What conditions and rules mean is stated in `FilterRules`. Letter case is folded by
a parameter `low`, and a pattern is a function on texts.

## MIME trees

`MimeTree` is the walk with its shared list and stack of open multipart/alternative nodes (section 5.1.4 of RFC 2046),
`MimeGroups` the conservation theorems, `MimeWalk` the closures on the heap, `MimeAlternatives` what the section of an
alternative shows. `MimePaths` names parts by the path to them, and `MimeFound` says on these paths which texts are
shown and which attachments listed. Decoded bodies are opaque strings with a blank test.

## Organisation

`LdapStaging`, `LdapSync`, `LdapMirror`, `LdapRun` and `LdapResult` follow one synchronisation from the LDAP tree
through the staging table to groups, users and deletions with cascades; `LdapTree` tells on the tree what is staged,
`LdapOrder` in which order rows are followed, and `LdapCallbacks` whom the callbacks of destroyed groups disable. The
database may destroy siblings and stale groups in any order; the theorems hold for each. A group whose `ldap` is not 1
is left as it is but still serves as a parent, so new groups can come to lie below a stale one; which groups a cascade
takes is read off the tables before the run. Codes and accounts, unique by validation, key the tables. `Tree` holds
the walks over parent links, `TreeOrder` their order, `GroupCsv` and `GroupCsvTrip` export and import of the group
tree, `AddressGroups` the choice of a new parent.

## Texts and names

`Utf8mb4` is the entity printer and parser, `FileNames` the truncation and uniqueness of attachment names, where the
number of bytes of a character is a parameter that gives one byte to ASCII. The extension of a name that ends in a dot
is the dot, as in Ruby 2.7 and later.

## Model

| member | source | states |
|---|---|---|
| `MailboxNames.RenameThrough` | app/models/webmail/mailbox.rb:256-274 | a rename carried from parent to child, each child rewriting with its own old and new name, composes to one rewrite with the name at the top |
| `MailboxNames.AncestorBelow` | app/models/webmail/mailbox.rb:108-114 | the parent name of a path below `a` is `a` or the parent of the lower part under `a` |
| `MailboxNames.SiblingsApart` | app/models/webmail/mailbox.rb:108-114 | two different siblings have no descendant in common |
| `MailboxTree.TitleIs` | app/models/webmail/mailbox.rb:250-254 | a title validates if and only if it has a character that is not white space and none of . / # and backslash |
| `MailboxTree.SaveEffect` | app/models/webmail/mailbox.rb:15-33 | the recursion of validation and callbacks changes exactly the rows it reaches, one after another, each by the one top-level rewrite, and every filter and cached header goes along with each of these rows whose old name it has at that moment |
| `MailboxForest.ReachesAll` | app/models/webmail/mailbox.rb:250-275 | the walk reaches everything under the renamed name if and only if every mailbox there validates and hangs on a stored parent |
| `MailboxForest.ReachedIff` | app/models/webmail/mailbox.rb:250-275 | with repeated names too, the walk reaches a mailbox if and only if it has a row that validates and so does, for each name on the way up to the renamed record, the row children of that name are linked to |
| `MailboxRename.FollowIs` | app/models/webmail/mailbox.rb:260-268 | a filter or cached header that names a row the walk saves ends at its renamed name if and only if no row saved later still has that name |
| `MailboxRename.RenameIsPrefixRename` | app/models/concerns/webmail/mailboxes/imap.rb:28-35 | whatever the new name, the database rename equals the server's prefix rename on rows, filters and cached headers if and only if the subtree is renamable, nothing stored below it dangles and no stored reference is taken along twice; titles of other rows keep |
| `MailboxRename.ApartNoClash` | app/models/webmail/mailbox.rb:256-268 | nothing is taken along twice when neither name lies under the other, or when nothing lies under the new name |
| `MailboxCapture.CapturedOnTheWay` | app/models/webmail/mailbox.rb:260-275 | renaming A.b to A with A.b.b.c and A.b.c below: a filter on A.b.b.c ends on A.c, not on A.b.c |
| `MailboxRename.NamesMatchServer` | app/models/concerns/webmail/mailboxes/imap.rb:28-35 | after the request the set of stored names is the server's set after RENAME if and only if the subtree was renamable |
| `MailboxRename.ChildNotRenamed` | app/models/webmail/mailbox.rb:250-275 | a child with a title that does not validate keeps its old name when its parent is renamed, unlike on the server |
| `MailboxRename.AncestorRenamed` | app/models/webmail/mailbox.rb:108-114 | taking the parent and renaming commute, except at the renamed mailbox |
| `MailboxRename.TreeKept` | app/models/concerns/webmail/mailboxes/imap.rb:174-183 | make_tree on the renamed rows gives every other mailbox the same parent as before |
| `MailboxRename.RenameInjective` | app/models/webmail/mailbox.rb:256-258 | a rename to a free name merges no two names |
| `MailboxRename.RenameThereAndBack` | app/models/concerns/webmail/mailboxes/imap.rb:28-35 | renaming to a free, unmentioned name and back restores rows, filters and cached headers |
| `MailboxRecords.Mailbox.Save` | app/models/webmail/mailbox.rb:15-19 | saving a record whose children are linked in memory does to rows, filters, cached headers and records what the specification of the recursion says |
| `MailboxRecords.Mailbox.UpdateChildren` | app/models/webmail/mailbox.rb:270-275 | the loop over children assigns the rewritten name and saves each child in turn |
| `MailboxRecords.MakeTree` | app/models/concerns/webmail/mailboxes/imap.rb:174-183 | each record's children are the records whose parent name is its name, in list order, unless a later record has the same name, and its parent is the last record with its parent name |
| `MailboxRecords.LinkedRepresents` | app/models/concerns/webmail/mailboxes/imap.rb:174-183 | the linked objects represent the tree the names describe, also when names repeat |
| `MailboxRecords.RenameMailbox` | app/models/concerns/webmail/mailboxes/imap.rb:28-35 | a request ends with the specified tables, or with all tables unchanged when the server refuses |
| `MailboxOrder.SortListPermutes` | app/models/concerns/webmail/mailboxes/imap.rb:165-172 | each mailbox comes out as often as its group is configured, so the result is a permutation if and only if every group that occurs is configured once |
| `MailboxOrder.DistinctOrdersPermute` | app/models/concerns/webmail/mailboxes/imap.rb:18-18 | distinct orders with the catch-all give a permutation |
| `MailboxOrder.GroupsInOrder` | app/models/concerns/webmail/mailboxes/imap.rb:165-172 | with distinct orders a mailbox never comes before one whose configured entry, that of its first segment or else the catch-all, stands earlier, and under one entry none comes before one with a smaller decoded, lower-cased name |
| `MailboxOrder.SortListExists` | app/models/concerns/webmail/mailboxes/imap.rb:165-172 | there is such a list for all mailboxes and orders |
| `MailboxOrder.AncestorSortsFirst` | app/models/concerns/webmail/mailboxes/imap.rb:165-167 | a mailbox's decoded, lower-cased name sorts strictly before those of its inferiors |
| `MailboxOrder.KeyBelow` | app/models/concerns/webmail/mailboxes/imap.rb:51-60 | the key of a mailbox is that of its parent, the delimiter and its own title, translated for the first two segments, all in lower case |
| `MailboxOrder.ParentsFirst` | app/models/concerns/webmail/mailboxes/imap.rb:165-172 | no mailbox comes after one of its inferiors |
| `MailboxOrder.InferiorsDeletedFirst` | app/controllers/webmail/admin/mails_controller.rb:373-378 | the reversed loop that empties the trash deletes no mailbox before one of its inferiors |
| `MailboxSync.DestroyMissing` | app/models/concerns/webmail/mailboxes/imap.rb:93-94 | of each name the server no longer lists exactly the row an index by name finds goes, and every filter and cached header of these names |
| `MailboxSync.SyncMailboxes` | app/models/concerns/webmail/mailboxes/imap.rb:86-116 | afterwards the rows are the listed mailboxes, sort_no counting 1..n in listing order and names that stay keeping their row, and besides exactly the rows of repeated names that no index by name finds, unchanged |
| `MailboxRuns.DestroyTree` | app/models/webmail/mailbox.rb:277-287 | destroying a record destroys its children first and drops filters and cached headers of each name |
| `MailboxRuns.DestroyEffect` | app/models/webmail/mailbox.rb:21-25 | the cascade removes exactly the subtree's rows and disables exactly the filters and headers of its names |
| `MailboxRuns.DeleteDescendants` | app/controllers/webmail/admin/mailboxes_controller.rb:74-75 | the loop over a record and its descendants deletes their names on the server in order until it refuses one; with the first accepted deletion the tables lose the whole subtree, and nothing more with the later ones |
| `MailboxRuns.DestroyAgain` | app/models/webmail/mailbox.rb:277-287 | destroying a record whose row a cascade already took changes nothing more |
| `MailboxRuns.DeleteRequest` | app/controllers/webmail/admin/mailboxes_controller.rb:70-78 | loading the records and running that loop leaves the specified tables |
| `MailboxRuns.SyncMethodIsStep` | app/models/concerns/webmail/mailboxes/imap.rb:86-116 | after a sync the stored names equal the server's, each once, if and only if no name was repeated before |
| `MailboxRuns.FollowHasRow` | app/models/webmail/mailbox.rb:260-275 | wherever a rename takes a reference to a row, and however often, there is a row of that name |
| `MailboxRuns.RunKeepsLive` | app/models/concerns/webmail/mailboxes/imap.rb:20-42 | over every run of create, rename, delete and sync, failures with rollback and names that repeat included, an enabled filter whose target was live and every cached header still name a mailbox of the table |
| `MailServer.DeliverAdds` | app/models/concerns/webmail/mails/imap.rb:271-285 | a mailbox that receives messages holds exactly those more, copy for copy |
| `MailServer.TakeOut` | app/models/concerns/webmail/mails/imap.rb:271-285 | the messages picked and the messages left make up the mailbox |
| `MailMoves.MovesAgree` | app/models/concerns/webmail/mails/imap.rb:271-285 | moving by MOVE and by COPY reach the same store if and only if no other source message is flagged deleted, and report the same count if and only if every UID is given once and exists |
| `MailMoves.NumbersReported` | app/models/concerns/webmail/mails/imap.rb:206-223 | deleting, and moving by COPY, report the messages that exist; copying, and moving by MOVE, the UIDs given; moving to the same mailbox none |
| `MailMoves.FlaggedNeighbourLost` | app/models/concerns/webmail/mails/imap.rb:276-285 | a message that somebody else flagged deleted goes when its neighbour is moved by COPY, and stays with MOVE |
| `MailMoves.MoveConserves` | app/models/concerns/webmail/mails/imap.rb:271-274 | MOVE conserves every message over source and destination and leaves other mailboxes alone |
| `MailMoves.CopyMoveConserves` | app/models/concerns/webmail/mails/imap.rb:276-285 | a copying move loses exactly the source messages that were flagged deleted before and not moved |
| `MailMoves.CopyAdds` | app/models/concerns/webmail/mails/imap.rb:206-213 | copying adds exactly the existing messages to the destination and changes nothing else |
| `MailMoves.TrashConserves` | app/models/concerns/webmail/mailboxes/mail.rb:27-33 | outside the trash, trash_mails loses no message |
| `MailMoves.TrashInTrashDestroys` | app/models/concerns/webmail/mailboxes/mail.rb:27-38 | inside the trash it destroys the given messages and those already flagged deleted, and nothing else |
| `HeaderCache.LinesRoundTrip` | app/models/concerns/webmail/mails/node.rb:10-20 | joining and splitting an address list is the identity if and only if the list is clean: no empty trailing address and no newline in an address |
| `HeaderCache.RowRoundTrip` | app/models/webmail/mail.rb:504-523 | a cached mail shows the header it was stored from if and only if the header is clean |
| `HeaderCache.RowRaises` | app/models/webmail/mail_node.rb:20-32 | storing a header raises if and only if a reference in one of its columns names no character, and reading it back if and only if one in the parsed column does |
| `HeaderCache.ViewIsHeader` | app/models/concerns/webmail/mails/node.rb:6-24 | what a listing shows is the server's header if and only if every reference in it names a character and, once it is cached, it is clean; showing it raises if and only if a reference, or for a cached header one that parsing makes, names no character |
| `MailStore.SortItems` | app/models/concerns/webmail/mails/imap.rb:136-137 | the items are put in the order of the requested UIDs |
| `MailStore.Session.LoadFromCache` | app/models/webmail/mail.rb:453-465 | the cached rows of the mailbox among the UIDs, read back with the flags of the moment |
| `MailStore.Session.Fetch` | app/models/webmail/mail.rb:467-530 | cached rows first, then the missing UIDs from the server, whose rows are stored; without the cache, the server's answer |
| `MailStore.Session.Find` | app/models/concerns/webmail/mails/imap.rb:127-138 | each requested message once, in request order, with its view and current flags; raises exactly when a requested header holds a reference that names no character, and keeps the cache sound |
| `MailStore.Session.MoveMails` | app/models/concerns/webmail/mailboxes/mail.rb:18-21 | cached rows of the moved UIDs go and the server moves |
| `MailStore.Session.EmptyMails` | app/models/concerns/webmail/mailboxes/mail.rb:40-44 | the mailbox ends empty unless every message in it was already flagged deleted, when nothing happens |
| `MailStore.FetchResult` | app/models/webmail/mail.rb:467-530 | a fetch succeeds exactly when every requested header can be shown, shows each message once and keeps every cached row sound |
| `MailStore.ListingIsDirect` | app/models/concerns/webmail/mails/imap.rb:127-138 | a listing through the cache equals the one without it if and only if every cached header in it is clean and every reference in the others names a character |
| `MailStore.SpelledReferenceChanges` | app/models/webmail/mail.rb:467-530 | a subject spelling the reference of an emoji is shown as sent and cached by the first fetch, and comes back as the emoji in the second |
| `MailStore.FlaggedMailStays` | app/models/concerns/webmail/mailboxes/mail.rb:40-44 | emptying a mailbox whose only message is flagged deleted does nothing |
| `CacheRuns.RunKeepsInv` | app/models/concerns/webmail/mailboxes/mail.rb:18-44 | over every run of fetch, move, copy, delete, trash, flagging, mailbox requests with whatever their recursion reaches, syncs and changes from outside, each cached (mailbox, uid) is unique and, where the server has the mailbox, below UIDNEXT and equal to the header while the message exists, and it and every live filter name a row of the mailbox table, as long as no mailbox comes to a name under which a header was left |
| `CacheRuns.CreateStep` | app/models/concerns/webmail/mailboxes/imap.rb:20-26 | creating a mailbox keeps the cache sound if and only if no cached header was left under its name |
| `CacheRuns.RenameKeepsOnServer` | app/models/webmail/mailbox.rb:266-275 | for names that do not lie under each other an accepted rename leaves every cached header on a mailbox of the server if and only if each mailbox at or below the old name that has cached headers is linked through rows that validate; for any names it does if besides no header is taken along twice |
| `CacheRuns.RenamableLinked` | app/models/webmail/mailbox.rb:250-275 | where names are unique, a renamable subtree leaves no cached header behind |
| `CacheRuns.SyncStep` | app/models/concerns/webmail/mailboxes/imap.rb:86-116 | a sync leaves no cached header of a mailbox the server does not have |
| `CacheRuns.RunStaysOnServer` | app/models/concerns/webmail/mailboxes/imap.rb:20-42 | from any state in which cached headers are of mailboxes the server has, all of this holds over every run in which no rename leaves a header behind or takes one along twice, whatever names the table holds |
| `CacheRuns.HeaderLeftBehind` | app/models/webmail/mailbox.rb:266-275 | A with a child whose stored title does not validate: renaming A leaves a cached header under the old name |
| `CacheRuns.HeaderReused` | app/models/concerns/webmail/mailboxes/imap.rb:20-26 | a header left under a name the server has no longer breaks the cache when a mailbox of that name is created |
| `Paging.PartialReadBack` | lib/plugins/exts/net/imap.rb:88-97 | a PARTIAL answer is read back as sent if and only if no range in it descends |
| `Paging.DescendingRangeLost` | lib/plugins/exts/net/imap.rb:88-97 | of the answer 3:1 nothing is read back |
| `Paging.EsortIsSort` | app/models/concerns/webmail/mails/imap.rb:243-269 | the ESORT path and the SORT path give the same page and total |
| `Paging.PagesCover` | app/models/concerns/webmail/mails/imap.rb:256-269 | the pages put together are the sorted list, each entry once |
| `Paging.StarredPermutes` | app/models/concerns/webmail/mails/imap.rb:259-266 | the starred order is a permutation of the unstarred one with flagged mail first |
| `Paging.StarredInOrder` | app/models/concerns/webmail/mails/imap.rb:259-266 | flagged mails, and the others, stay in the order of the sorted list |
| `Paging.LinksInverse` | app/models/concerns/webmail/mails/imap.rb:159-175 | next and previous links are inverse |
| `Paging.NextVisitsAll` | app/models/concerns/webmail/mails/imap.rb:159-175 | next visits every mail in order, with its position and the total, and then ends |
| `ImapSelection.Connection.ExamineUnlessOpened` | app/models/concerns/webmail/mails/imap.rb:128-128 | opens a mailbox unless it is believed open; on success it is the one believed open |
| `ImapSelection.BeliefIsRight` | lib/plugins/exts/net/imap.rb:4-35 | after any run of select, examine and close the tracked mailbox is the server's selected one, except exactly when opening failed while another was open and nothing has succeeded since |
| `ImapSelection.FailedOpenForgotten` | lib/plugins/exts/net/imap.rb:4-35 | after opening a and failing to open b the connection believes in a while nothing is selected |
| `FilterRules.First` | app/models/webmail/filter.rb:228-233 | the first rule that matches, all earlier ones not matching |
| `FilterRules.ConditionAdded` | app/models/webmail/filter.rb:92-101 | adding a condition to an "and" rule keeps exactly the mails that match both, adding one to an "or" rule those that match either; without conditions "and" matches all and "or" none |
| `FilterRules.ContainsIs` | app/models/webmail/filter_condition.rb:25-26 | "contains" holds exactly when the folded text has the folded value as a part |
| `FilterRules.LacksOne` | app/models/webmail/filter_condition.rb:27-28 | on a column with one text "does not contain" holds exactly when "contains" does not |
| `FilterRules.LacksSome` | app/models/webmail/filter_condition.rb:27-28 | for recipients it asks that one of them lacks the value, not that all do |
| `FilterRules.OtherOperators` | app/models/webmail/filter_condition.rb:29-34 | "equals" asks that the value is one of the texts, a pattern that one text matches it, and an unknown operator matches nothing |
| `FilterEngine.Select` | app/models/webmail/filter.rb:228-234 | the loop with its break adds the UID to the list of the first matching filter and to no other |
| `FilterEngine.PerformAction` | app/models/webmail/filter.rb:103-117 | the action moves or trashes the listed UIDs and reports them; an unknown action reports none |
| `FilterEngine.ApplySlice` | app/models/webmail/filter.rb:220-244 | one slice: fetch, record, then every filter with a list acts on all of it |
| `FilterEngine.ApplyUids` | app/models/webmail/filter.rb:212-218 | slices of 256 one after another, lists kept |
| `FilterOutcome.RecordIs` | app/models/webmail/filter.rb:222-234 | a list gains exactly the fetched UIDs whose first match is its filter |
| `FilterOutcome.PerformCarries` | app/models/webmail/filter.rb:103-117 | with no message flagged deleted, an action carries out one fate on its UIDs, by MOVE or by COPY alike |
| `FilterOutcome.SlicesOutcome` | app/models/webmail/filter.rb:212-244 | for lists that agree with first-match selection, after every slice exactly the listed messages have met their fates |
| `FilterResults.AfterSlices` | app/models/webmail/filter.rb:212-244 | after slice k the messages acted on are exactly the first matches among slices 1..k; the source lost those that leave, every other mailbox gained exactly those sent to it, and unmatched ones stay |
| `FilterResults.SlicesAgree` | app/models/webmail/filter.rb:212-218 | any two slice sizes, 256 and unsliced included, leave the same mailboxes |
| `FilterResults.WhoStays` | app/models/webmail/filter.rb:228-241 | a message stays if and only if it was not asked for, matches no filter, or its first match keeps it |
| `FilterResults.FailedConditionStays` | app/models/webmail/filter.rb:92-101 | a message that fails one condition of an "and" filter stays |
| `FilterResults.HeadersDropped` | app/models/webmail/filter.rb:103-117 | exactly the cached headers of requested messages go whose first match moves mail or, where there is a trash, deletes it |
| `FilterResults.ListsByFirstMatch` | app/models/webmail/filter.rb:222-241 | a UID is on the list of its first match and on no other, so no message is handled by two filters |
| `FilterResults.CountIsRight` | app/models/webmail/filter.rb:66-76 | the reported number is the number of listed messages if and only if no slice but the last matches anything |
| `FilterResults.MatchReportedTwice` | app/models/webmail/filter.rb:212-241 | 257 UIDs and a match in the first slice: the reported number is wrong |
| `FilterResults.JobFinishes` | app/jobs/webmail/filter_job.rb:4-12 | handling some UIDs now and the rest in a job with the same filters is one pass over all of them |
| `FilterSchedule.ScheduleMailUids` | app/models/webmail/filter.rb:191-210 | the first min(cap, total) UIDs are processed in order and the rest delayed in order, each under its mailbox |
| `FilterSchedule.PerMailbox` | app/models/webmail/filter.rb:191-210 | per mailbox the processed and delayed UIDs together are the given ones, in order |
| `FilterSchedule.CountsAddUp` | app/models/webmail/filter.rb:66-81 | exactly min(cap, total) are processed, and processed plus delayed is the total |
| `FilterApply.Apply` | app/models/webmail/filter.rb:58-81 | apply schedules the undeleted UIDs, applies the filter to each mailbox with the list it carries, and reports processed plus delayed equal to the total |
| `FilterApply.UndeletedIs` | app/models/webmail/filter.rb:58-64 | the UIDs scheduled for a mailbox are exactly those not flagged deleted, each once and highest first |
| `FilterCarry.OneApply` | app/models/webmail/filter.rb:220-244 | a filter that arrives with a list acts on what exists of it besides its own matches and leaves with both |
| `FilterCarry.ScheduledReady` | app/models/webmail/filter.rb:58-81 | what apply schedules meets the conditions of the theorems on the loop over mailboxes |
| `FilterCarry.ApplyAcross` | app/models/webmail/filter.rb:72-76 | every mailbox other than the destination loses exactly the UIDs it has that matched there or in an earlier mailbox |
| `FilterCarry.CarryHarmless` | app/models/webmail/filter.rb:72-76 | a mailbox ends as with a fresh filter if and only if no UID matched earlier exists there without matching there |
| `FilterCarry.AppliedIff` | app/models/webmail/filter.rb:66-76 | the number reported is zero if and only if nothing matched in any mailbox; with every mailbox of at most 256 UIDs it grows by all that the filter has matched so far |
| `FilterCarry.UnmatchedMailMoved` | app/models/webmail/filter.rb:228-241 | two mailboxes and one filter for which a message that matches nothing is moved |
| `FilterRecents.Account.ApplyRecents` | app/models/webmail/filter.rb:151-189 | one call: the range above the watermark, unseen UIDs highest first, schedule, filters, jobs, new watermark and the bound for the INBOX index |
| `FilterRecents.CallRecords` | app/models/webmail/filter.rb:151-189 | a call that finds a new UIDNEXT records one check from the watermark to UIDNEXT - 1, processes the first min(cap, total) of the UIDs offered and queues exactly the rest under INBOX; any other call changes nothing |
| `FilterRecents.CallOutcome` | app/models/webmail/filter.rb:168-173 | such a call leaves exactly those processed messages that some filter matches to the fates of their first matches, changes no other message, and drops exactly the cached headers of those taken away |
| `FilterRecents.CallAndJob` | app/jobs/webmail/filter_job.rb:4-12 | after the job for the queued UIDs, with the same filters, exactly what was offered has met the fates of the first matches: the cap does not change the result |
| `FilterRecents.RunKeepsInv` | app/models/webmail/filter.rb:151-189 | in every state of every run the ranges checked are consecutive from 1 and end at the watermark, which stays below UIDNEXT |
| `FilterRecents.CoveredOnce` | app/models/webmail/filter.rb:154-168 | every UID up to the watermark lies in exactly one range, and no other UID in any |
| `FilterRecents.OfferedOnce` | app/models/webmail/filter.rb:168-181 | no message is offered to the filters twice |
| `FilterRecents.NothingMissed` | app/models/webmail/filter.rb:167-181 | a check with an enabled filter processes or delays each unseen message of its range and no other |
| `FilterRecents.IndexShowsChecked` | app/controllers/webmail/admin/mails_controller.rb:29-37 | the INBOX index shows only UIDs some check has covered, also later, except exactly when INBOX was empty at the call and its first message has arrived since |
| `FilterRecents.FirstMailShownUnchecked` | app/controllers/webmail/admin/mails_controller.rb:29-37 | an empty INBOX whose first message arrives after the call: the index shows it although no check covered it |
| `SpamFilter.AddressOccurs` | app/models/concerns/webmail/mails/base.rb:532-537 | the extracted address is part of the From text it comes from |
| `SpamFilter.AddressIs` | app/models/concerns/webmail/mails/base.rb:532-537 | the address is what stands between the first bracket that is closed on its line and the last one closing there, or the whole text without such brackets |
| `SpamFilter.Filter.DeleteExceededConditions` | app/models/webmail/filter.rb:83-90 | nothing goes within the limit; above it exactly the surplus goes, rows that no other row sorts before |
| `SpamFilter.Filter.RegisterSpams` | app/models/webmail/filter.rb:263-279 | one row per new sender, all with the same sort_no behind the last, then eviction |
| `SpamFilter.Bounded` | app/models/webmail/filter.rb:263-279 | no sender twice, at most the configured number of conditions, and the evicted ones have the smallest sort_no |
| `SpamFilter.StaysIff` | app/models/webmail/filter.rb:83-90 | a row stays whatever rows of equal sort_no the database picks if and only if at least as many rows sort strictly before it as have to go |
| `SpamFilter.ListedSenderStays` | app/models/webmail/filter.rb:263-279 | a listed sender, registered again or not, is sure to stay listed if and only if the rows before its own and the maximum together make up for the rows and the new senders |
| `SpamFilter.NewSenderStays` | app/models/webmail/filter.rb:263-279 | a new sender is sure to be listed afterwards if and only if there are no more new senders than the maximum |
| `SpamFilter.NewSendersMatch` | app/models/webmail/filter_condition.rb:21-27 | if no more new senders come than the maximum, the filter matches the From of every item whose sender was new |
| `SpamFilter.ListedSenderLost` | app/models/webmail/filter.rb:83-90 | with room for one sender, a listed sender registered again together with a new one is no longer matched |
| `MimeTree.VisitKeeps` | app/models/concerns/webmail/mails/base.rb:293-361 | every call leaves the stack of open alternatives as it found it, numbers sections by position, and changes no earlier section except to fill blanks of the innermost open alternative |
| `MimeGroups.TextsKept` | app/models/concerns/webmail/mails/base.rb:270-361 | the sections gain each non-blank text exactly as often as the tree offers it as the group of a reached multipart or as a body shown on its own |
| `MimeGroups.HtmlsKept` | app/models/concerns/webmail/mails/base.rb:282-361 | the same for html |
| `MimeGroups.ChildInText` | app/models/concerns/webmail/mails/base.rb:270-280 | every text/plain child that is not an attachment is part of its group's text |
| `MimeGroups.TextsJoin` | app/models/concerns/webmail/mails/base.rb:270-280 | the group text of two lists of children one after the other is both texts with a newline between, if no text is blank |
| `MimeGroups.HtmlsJoin` | app/models/concerns/webmail/mails/base.rb:282-291 | the group html of two lists of children is both htmls one after the other |
| `MimeGroups.OneChild` | app/models/concerns/webmail/mails/base.rb:270-291 | a single child gives its group its text, or its html in a paragraph, unless it is an attachment |
| `MimeGroups.Displayed` | app/models/concerns/webmail/mails/base.rb:363-363 | a whole message: empty stack, sections numbered by position, every group in exactly one slot |
| `MimeFound.ShownFound` | app/models/concerns/webmail/mails/base.rb:293-361 | as many sections have a non-blank text, or html, as there are paths in the tree to parts that offer it, through multiparts with less than five above them in their message and through messages that are shown |
| `MimeAlternatives.AlternativeShows` | app/models/concerns/webmail/mails/base.rb:327-361 | the section of a multipart/alternative shows its own group or, where that is blank, the first non-blank group of the multiparts below it outside further alternatives, for text and html alike |
| `MimeGroups.DepthLimit` | app/models/concerns/webmail/mails/base.rb:327-358 | a body five multiparts down is shown, one six down is not |
| `MimeWalk.Contents.Search` | app/models/concerns/webmail/mails/base.rb:293-361 | the recursive closure on the shared lists computes the walk, terminates, and keeps the objects already in the list |
| `MimeWalk.InlineContents` | app/models/concerns/webmail/mails/base.rb:264-374 | the sections of the walk, each with html but no text given the converted html as text |
| `MimeWalk.Collector.Attached` | app/models/concerns/webmail/mails/base.rb:210-246 | the files of a part are appended to whatever was found before, numbered by position |
| `MimeFound.FilesFound` | app/models/concerns/webmail/mails/base.rb:210-243 | listed are exactly the attachments with a name that is not blank, no such part above them, and only multiparts on the way with less than five above them in their message, each as often as it occurs and in message order |
| `LdapStaging.Staging.CreateSynchros` | app/models/sys/ldap_synchro.rb:64-114 | the entry, its users and its children become rows; an entry that does not validate is left out with all below it |
| `LdapStaging.StageHolds` | app/models/sys/ldap_synchro.rb:64-114 | staging adds exactly the groups and users of the tree, each below its own parent, parents first |
| `LdapTree.GroupsAre` | app/models/sys/ldap_synchro.rb:64-88 | a group is staged if and only if a path leads to it on which every entry has a code and a name, below the entry above it |
| `LdapTree.UsersAre` | app/models/sys/ldap_synchro.rb:90-110 | a user is staged below such a group if and only if it has an account and a name |
| `LdapTree.StageSize` | app/models/sys/ldap_synchro.rb:64-114 | each staged entry and user has one row |
| `LdapSync.SaveGroup` | app/models/sys/user.rb:270-292 | whatever relations a user had, exactly the one to the given group is left |
| `LdapSync.Directory.DoSynchro` | app/models/sys/ldap_synchro.rb:116-174 | the recursion over rows saves group, users and children as specified |
| `LdapMirror.GroupStep` | app/models/sys/ldap_synchro.rb:118-139 | the group's part of do_synchro places a row's group below its parent, leaves a group that does not take part as it is, and disturbs no other group |
| `LdapMirror.SyncKeeps` | app/models/sys/ldap_synchro.rb:116-174 | the recursion places the row and all rows below it and leaves placed groups alone |
| `LdapMirror.AllReached` | app/models/sys/ldap_synchro.rb:53-54 | the calls for the top rows reach every group row |
| `LdapMirror.SyncFollows` | app/models/sys/ldap_synchro.rb:142-168 | each visited user that takes part ends with the name and the group of its last visit and keeps all else, others untouched |
| `LdapOrder.QueryOrdered` | app/models/sys/ldap_synchro.rb:9-17 | children and users of a row come by sort number, then code, then id, each once |
| `LdapOrder.VisitedIff` | app/models/sys/ldap_synchro.rb:116-174 | the recursion visits exactly the user rows |
| `LdapOrder.LastListing` | app/models/sys/ldap_synchro.rb:142-173 | the row an account follows is its last listing: every other row that names it belongs to a group above, to an earlier sibling or what lies below one, or to the same group and comes before it there |
| `LdapRun.Destroy` | app/models/sys/group.rb:11-26 | destroying a group removes exactly it and everything below it, each group after those below it, and users are as the callbacks in that order leave them |
| `LdapRun.DeleteStale` | app/models/sys/ldap_synchro.rb:57-57 | the stale groups go with everything below them; only for a stale group that a cascade already took does the callback run again |
| `LdapCallbacks.CalledBackIs` | app/models/sys/group.rb:104-113 | whatever callbacks run, a user is disabled if and only if its record can be saved and some callback for one of its groups finds exactly one of its relations left |
| `LdapCallbacks.DisabledIff` | app/models/sys/group.rb:104-113 | a user in no group twice: with none of its groups left it is disabled if and only if one was deleted; with one left, if and only if a callback for a group already deleted ran when that one was the only one left; with more left never |
| `LdapCallbacks.OnlyRelation` | app/models/sys/group.rb:104-113 | a user whose only relation is to a group is disabled if and only if that group goes and the record can be saved |
| `LdapCallbacks.SecondRunDisables` | app/models/sys/group.rb:104-113 | a user of two groups: the callback that runs again for the one a cascade took disables it although it still belongs to the other |
| `LdapResult.Synchronize` | app/models/sys/ldap_synchro.rb:44-60 | versions cleared, rows followed, stale users and then stale groups deleted with their cascades and callbacks; terminates |
| `LdapResult.TakenIff` | app/models/sys/ldap_synchro.rb:56-57 | the cascades take a group if and only if, on the tables before the run, the way up from it, by the rows for groups that take part and by stored parents for others, meets a group that takes part, has a parent and is in no row |
| `LdapResult.GroupLostIff` | app/models/sys/ldap_synchro.rb:56-57 | this for the group of each row; the root is never taken |
| `LdapResult.NoNewCycle` | app/models/sys/ldap_synchro.rb:118-139 | if all groups of the rows take part, following the rows makes no cycle where there was none, so the deletions end |
| `LdapResult.NoneLost` | app/models/sys/ldap_synchro.rb:56-57 | if every group the directory names is new or takes part, none of them comes to lie below a group that is gone |
| `LdapResult.TreeMirrored` | app/models/sys/ldap_synchro.rb:116-139 | every entry whose group takes part and is not doomed has its group, named alike, below the group of the entry above it and, unless that one does not take part, one level down |
| `LdapResult.ExactlyTheEntries` | app/models/sys/ldap_synchro.rb:44-60 | the groups that take part and are not a root are exactly the directory's entries that take part and are not doomed |
| `LdapResult.EveryEntryStays` | app/models/sys/ldap_synchro.rb:44-60 | if every entry's group is new or takes part, every entry qualifies |
| `LdapResult.ExactlyTheUsers` | app/models/sys/ldap_synchro.rb:142-168 | the users that take part are exactly those the directory lists whose record can be saved, each with the name of one of its listings and one relation, to the group of that listing, which is there and the user enabled as before unless it was doomed |
| `LdapResult.UsersMirror` | app/models/sys/ldap_synchro.rb:56-57 | that user has the name and the group of the row of its last listing, keeps all else, and ends disabled if and only if the group is taken or it was disabled before; users that take part and are not listed are deleted |
| `LdapResult.LocalUser` | app/models/sys/ldap_synchro.rb:56-57 | a user that does not take part keeps all but its version and whether it is enabled, which the callbacks decide |
| `LdapResult.LocalUserDisabled` | app/models/sys/ldap_synchro.rb:57-57 | it ends disabled if it can be saved, is in no group twice, and all its groups come to lie at or below a group that is gone |
| `LdapResult.LocalUserKept` | app/models/sys/ldap_synchro.rb:57-57 | it stays as it was if one of its groups stays and none of them is itself gone from the directory |
| `LdapResult.NewGroupLost` | app/models/sys/ldap_synchro.rb:129-139 | a group that does not take part below a stale group, with an entry under it: the cascade takes the new group |
| `Tree.Items.PushDescendants` | lib/sys/model/tree.rb:15-21 | the array handed down gains the record and, child by child, its pruned descendants |
| `Tree.DescendantsAre` | lib/sys/model/tree.rb:15-21 | a record is listed if and only if nothing on its way up to the start is excluded by the block |
| `Tree.DescendantsOnce` | lib/sys/model/tree.rb:15-21 | no record is listed twice |
| `Tree.DescendantsOrdered` | lib/sys/model/tree.rb:15-21 | every listed record but the first stands after its parent |
| `TreeOrder.DescendantsInOrder` | lib/sys/model/tree.rb:15-21 | a record comes before all below it, and siblings, each with all below it, in the order asked for |
| `Tree.WalksInverse` | lib/sys/model/tree.rb:10-21 | a is an ancestor of x if and only if x is a descendant of a |
| `AddressGroups.ParentOptions` | app/models/webmail/address_group.rb:43-47 | the options are the pruned descendants of the user's other roots |
| `AddressGroups.OptionsAre` | app/models/webmail/address_group.rb:43-47 | the options are exactly the groups that are not the group itself or below it |
| `AddressGroups.OptionsInOrder` | app/models/webmail/address_group.rb:43-47 | the options come in tree order, roots and siblings in the order asked for |
| `AddressGroups.MovedIs` | app/models/webmail/address_group.rb:53-61 | a moved group gets the level below its new parent's, or the first; nothing else about it or other groups changes |
| `AddressGroups.SafeIffOffered` | app/models/webmail/address_group.rb:43-47 | a move keeps every group below a root without a cycle if and only if the parent is one of the options |
| `AddressGroups.EditsKeepRooted` | app/models/webmail/address_group.rb:43-47 | any sequence of moves chosen from the options keeps all groups below a root |
| `GroupCsv.ExportGroups` | app/controllers/sys/admin/groups/export_controller.rb:24-49 | one row per group that is not a root, in pre-order |
| `GroupCsv.Importer.ImportGroups` | app/controllers/sys/admin/groups/import_controller.rb:42-80 | the row loop with its counters |
| `GroupCsv.RowOutcome` | app/controllers/sys/admin/groups/import_controller.rb:43-79 | a row fails if and only if it names no code or no parent that is there, or would change something and lacks a required column; otherwise its group is stored under that parent with its columns |
| `GroupCsv.CountsAre` | app/controllers/sys/admin/groups/import_controller.rb:72-78 | the counters are the numbers of rows added, updated and failed, and as many groups are new as rows were added |
| `GroupCsvTrip.ExportImported` | app/controllers/sys/admin/groups/import_controller.rb:42-80 | importing an export where only the roots exist stores, under its parent and with its columns, every group whose whole chain validates, and no other; no row fails if and only if all validate |
| `GroupCsvTrip.SecondImport` | app/controllers/sys/admin/groups/import_controller.rb:73-79 | importing the same rows again changes nothing and counts nothing as added or updated |
| `GroupCsvTrip.EveryGroupListed` | app/controllers/sys/admin/groups/export_controller.rb:30-30 | the export lists every group |
| `GroupCsvTrip.ExportInOrder` | app/controllers/sys/admin/groups/export_controller.rb:30-30 | the export is in tree order, roots and siblings in the order asked for |
| `Utf8mb4.Encode` | lib/util/string.rb:43-45 | no printed code point is above 0xFFFF |
| `Utf8mb4.DecodeEncode` | lib/util/string.rb:43-51 | parsing does not see whether a text was printed first |
| `Utf8mb4.DecodesIff` | lib/util/string.rb:47-51 | parsing raises if and only if some literal reference names no character: a surrogate or a number above 0x10FFFF |
| `Utf8mb4.DigitsAre` | lib/util/string.rb:47-51 | a reference is written in the ten decimal digits or the twenty-two hexadecimal ones, and names a character if and only if its number is one |
| `Utf8mb4.HeadIs` | lib/util/string.rb:47-48 | the parser sees a reference exactly where 5 or 6 hexadecimal digits follow an ampersand, a number sign and an x, or 5 to 7 decimal digits the first two, and a semicolon ends them |
| `Utf8mb4.HexCase` | lib/util/string.rb:47-51 | letter case does not matter in a hexadecimal reference |
| `Utf8mb4.RoundTrip` | lib/util/string.rb:43-51 | printing then parsing is the identity if and only if the text holds no literal reference |
| `Utf8mb4.ColumnRoundTrip` | app/models/webmail/mail_node.rb:20-32 | a column survives the cache if and only if it holds no literal reference, otherwise it comes back shorter or raises |
| `Utf8mb4.ColumnRaises` | app/models/webmail/mail_node.rb:20-32 | storing a column raises if and only if a reference in it names no character, reading it back if and only if one in the parsed text does |
| `Utf8mb4.ColumnIsDecodedTwice` | app/models/webmail/mail_node.rb:7-8 | what is read back is the value parsed twice |
| `Utf8mb4.SurrogateReferenceRaises` | lib/util/string.rb:47-51 | a text naming the surrogate 55296 raises on every store |
| `FileNames.TruncateByteSize` | lib/util/file.rb:46-55 | the longest prefix that leaves room for the extension, then the extension |
| `FileNames.Filesystemize` | lib/util/file.rb:26-35 | forbidden characters replaced one for one, then the byte limit |
| `FileNames.ReplacedIs` | lib/util/file.rb:27-27 | exactly the separators, quotes, wildcards and line breaks are replaced |
| `FileNames.ExtIs` | lib/util/file.rb:46-55 | the extension starts with the last dot that follows another character than a dot, and is empty when there is none |
| `FileNames.CutIs` | lib/util/file.rb:26-55 | the result is a prefix of the base with the whole extension, and keeps the limit if and only if no cut was needed or the extension fits |
| `FileNames.UniqueFilenames` | lib/util/file.rb:57-72 | the loops compute the numbered names |
| `FileNames.UniquesDistinct` | lib/util/file.rb:57-72 | up to 256 names become pairwise distinct |
| `FileNames.KeptOrNumbered` | lib/util/file.rb:57-72 | a name no earlier result takes is kept; any other gets the smallest number from 1 to 255 before its extension that makes it free, or is repeated when there is none |
| `FileNames.DecValue` | lib/util/file.rb:62-63 | the number is written in decimal |
| `FileNames.CopiesDistinct` | lib/util/file.rb:57-72 | copies of one name become distinct if and only if there are at most 256 |
| `FileNames.ZipNames` | app/models/webmail/mail.rb:338-345 | at most 256 attachment names become distinct names of at most 254 bytes, provided the extensions of the names that are cut fit |
| `FileNames.ZipNamesClean` | app/models/webmail/mail.rb:338-345 | no name in the zip contains a separator or a line break |

## Left out

- Sockets, login, LDAP and SMTP connections, SQL and the job queue: the server, the tables and the queue are maps and sequences.
- Controllers, views, sessions and permissions, apart from the INBOX bound, the trash loop and the CSV code.
- `update_child_level_no` of groups and address groups: whether it fires depends on how the framework tracks changes in an after-save callback.
- `ref_mailbox` and `ref_uid` of cached rows in virtual mailboxes: renames never rewrite them.
- UIDVALIDITY changes, and two requests of one user racing on the watermark or the tables: the code has no mechanism for either.
- Expiry of cached headers and the batch deletion of old mail.
- The job for the delayed part of applying one filter runs all enabled filters, not only that one; `FilterResults.JobFinishes` covers the jobs of new mail, whose filters are the same.
- Errors of the server while a filter acts: the code logs them and reports no UID for that filter; commands are taken to succeed.
- Character set detection, HTML sanitising, conversion of html to text and address parsing: they belong to libraries.
- The text mail and html mail helpers built on the sections, thumbnails and human-readable sizes.
- Users in CSV files, and the character conversion of exported files, which is taken as identity.
- Truncation of names by number of characters, used only for the file name of a zip.
- LDAP runs that stage no group or no user, which stop before changing anything, and a missing root group, which raises.
- Directories whose rows close a cycle through groups that do not take part: destroying a stale group on the cycle would not end.
- Other clients that rename or delete mailboxes between two syncs: a name used again would come with a new UIDVALIDITY.
- FilterOutcome.SlicesOutcome: assumes no message of the mailbox is flagged deleted beforehand and that the trash mailbox counts as inside the trash, because expunging takes flagged messages of others along; `MailMoves.MovesAgree` gives the exact condition for that.
- FilterRecents.CallOutcome: assumes the same of INBOX; the check that is recorded, the UIDs processed and the queue do not depend on it (`FilterRecents.CallRecords`).
- MailboxRename.RenameIsPrefixRename: excludes a blank name and the old name itself, which the server refuses and for which no callback runs.
- MailboxRename.NamesMatchServer: for a new name above or below the old one asks that nothing lies under it; there a mailbox left behind can have the name another one moves to.
- CacheRuns.RenameKeepsOnServer: one way only when one name lies under the other, for the same reason.
- CacheRuns.RunKeepsInv: a rename to a name under which headers or mailboxes lie is covered from states with every cached header on the server; from others a header left behind can be taken for one of the renamed mailbox.
- LdapResult.ExactlyTheUsers: the order of rows with equal sort numbers follows code points, where a database may collate differently.
- Tree.Items.PushDescendants: needs parent links without a cycle; on a cycle the program does not terminate.
