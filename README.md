# Trash-mail intake daemon, modelled in Dafny

This project models the core of `python/mailserver3.py`, an SMTP daemon that takes mail for throw-away
addresses. It models two parts of that file.

- `TrashmailHandler.handle_DATA` handles one message:
  - it decodes the Subject from its header fragments;
  - it walks the MIME parts into plain-text bodies, HTML bodies and attachments;
  - it lower-cases and checks every recipient and matches its domain against the configured rules;
  - for each accepted recipient it writes `../data/<em>/<base>.json` and the files under
    `../data/<em>/attachments/`;
  - it answers `250 OK` or `500 Could not process your message`.
- `cleanup()` deletes the `.json` files under `../data/` that are older than the retention threshold.

Modules, one file each:

- `Common` (`common.dfy`): `Option`, bytes, and the string helpers `str.index`, `str.rindex`,
  `startswith` and `endswith`.
- `Routing` (`routing.dfy`): lower-casing, the address pattern, `split('@')[1]`, the domain rules
  and the loop that sets `found`, and the per-recipient verdict.
- `Mime` (`mime.dfy`): the subject loop, the part walk, `bytes.strip()`, `'\n'.join`, and the whole
  `try` block as one `Parse` result.
- `Timestamp` (`timestamp.dfy`): `str(int(round(time.time() * 1000)))`.
- `Storage` (`storage.dfy`): the directory layout, the `DataDir` class (a map of files and a set of
  directories, changed in place by `mkdir`, `open`/`write` and `remove`), and the functions
  `StoreOne` and `StoreAll`. These say what the recipient loop does to the tree.
- `Config` (`config.dfy`): the module-level settings as a `Settings` class.
- `Handler` (`handler.dfy`): the recipient loop and `HandleData`, proved against `Parse`,
  `Mailboxes` and `StoreAll`.
- `Retention` (`retention.dfy`): `Cleanup`, proved against the function `Swept`.

## Source behaviour worth knowing

- `cleanup()` never assigns `LAST_CLEANUP`. It stays at 0, so every hourly call after startup is a
  full sweep. `Cleanup` does not modify `Settings`, and `Retention.SweepNotRateLimited` states the
  consequence.
- A rule containing `*` whose suffix test fails can still match by plain equality: the `elif`
  tests every rule, starred or not. `Routing.RuleMatches` keeps both tests.
- `os.walk` lists every file under `../data/`, attachments included. An attachment whose name
  ends in `.json` is therefore swept like a record (`Retention.JsonAttachmentSwept`).
- A message without a Subject header fails: `decode_header(None)` raises and the reply is `500`. So does
  a Subject holding a malformed encoded word, on which `decode_header` raises too.
- A Subject that mixes plain text with encoded words also fails. `decode_header` returns the
  plain runs as `bytes` with no charset, and `str += bytes` raises (`Mime.MixedHeaderFails`).
- A `text/plain` part (without a disposition) or a `text/html` part with no payload makes
  `.strip()` raise, so the reply is `500`. Any other part with no payload is dropped.
- The recipient check lets `/` and `..` through in the domain: `a@b.com/../../c.json` passes, and
  its mailbox path then leads out of `../data/`.
- Python's `$` also matches before one final newline, so `a@b.cc\n` passes the recipient check,
  and the newline becomes part of the domain and the mailbox name.

## Model

| member | source | states |
|---|---|---|
| Routing.Lower | python/mailserver3.py:98 | `em.lower()`, on ASCII letters |
| Routing.IsAddress | python/mailserver3.py:99 | the executable reading of the recipient pattern: a non-empty local part and a domain, both free of `@` and whitespace, the domain ending in an alphanumeric top-level label |
| Routing.MatchesRecipientPattern | python/mailserver3.py:99 | `re.match` of the recipient pattern, including a final newline that `$` lets through |
| Routing.DomainOf | python/mailserver3.py:103 | `em.split('@')[1]`: the text between the first and the second `@` |
| Routing.RuleMatches | python/mailserver3.py:106-109 | one iteration of the rule loop: the star-suffix test, else plain equality |
| Routing.KnownDomain | python/mailserver3.py:104-109 | `found` after the rule loop: some rule matches |
| Routing.Route | python/mailserver3.py:97-112 | the verdict for one recipient: invalid, discarded, or delivered to its lower-cased mailbox |
| Routing.PatternMatch | python/mailserver3.py:99 | the regex read directly: a run of characters other than `@` and whitespace, `@`, another such run, `.`, and alphanumerics to the end |
| Routing.IsAddressIffPattern | python/mailserver3.py:99 | the executable address check accepts exactly the strings of the form local `@` domain `.` label: non-empty runs without `@` or whitespace and an alphanumeric last label |
| Routing.AddressMatchesPattern | python/mailserver3.py:99 | every accepted address has such an `@` and `.` split |
| Routing.PatternWitnessIsAddress | python/mailserver3.py:99 | every such split makes the address acceptable |
| Routing.AddressHasOneAt | python/mailserver3.py:99 | an accepted address holds exactly one `@` |
| Routing.TopLevelLabelOfSplit | python/mailserver3.py:99 | a domain with a `.` followed only by alphanumerics ends in a valid top-level label |
| Routing.LowerIdempotent | python/mailserver3.py:98 | lower-casing twice is lower-casing once, and leaves no upper-case ASCII letter |
| Routing.LowerOfSameIgnoringCase | python/mailserver3.py:98 | recipients that differ only in letter case lower-case to the same string |
| Routing.DomainOfAddress | python/mailserver3.py:103 | for an accepted address, `split('@')[1]` is everything after the `@`, free of `@` and whitespace, with a top-level label |
| Routing.DomainOfNewlineAddress | python/mailserver3.py:99-103 | when `$` lets a final newline through, the domain is the address's domain plus that newline |
| Routing.RemoveStars | python/mailserver3.py:106 | `replace('*', '')` leaves no star, never lengthens, and is the identity on star-free rules |
| Routing.RemoveStarsConcat | python/mailserver3.py:106 | `replace('*', '')` of two pieces is the two pieces' results in order, so with RemoveStarsChar it keeps every non-star character in its place |
| Routing.RemoveStarsChar | python/mailserver3.py:106 | a single star is dropped and any other single character kept |
| Routing.StarRule | python/mailserver3.py:106-109 | any rule holding a star, wherever it stands, matches every domain other than the rule itself iff the domain ends with the rule minus its stars |
| Routing.FindDomain | python/mailserver3.py:104-109 | the rule loop sets `found` iff some configured rule matches the domain |
| Routing.ExactRule | python/mailserver3.py:108 | a star-free rule matches exactly the domain equal to it |
| Routing.WildcardRule | python/mailserver3.py:106-109 | `*` + suffix matches any domain iff the domain ends with the suffix |
| Routing.WildcardCovers | python/mailserver3.py:106 | `*` + suffix matches every domain that ends with the suffix |
| Routing.WildcardExcludesBareDomain | python/mailserver3.py:106-109 | for a star-free `d`, `*.d` matches `sub.d` for every non-empty `sub` but not `d` itself |
| Routing.ExampleWildcardSubdomain | python/mailserver3.py:104-109 | `*.example.com` matches `mail.example.com` |
| Routing.ExampleWildcardNestedSubdomain | python/mailserver3.py:104-109 | `*.example.com` matches `a.b.example.com` |
| Routing.ExampleWildcardBareDomain | python/mailserver3.py:104-109 | `*.example.com` does not match `example.com` |
| Routing.RouteDelivers | python/mailserver3.py:97-112 | a recipient is stored iff its lower-cased form passes the pattern and, with discarding on, its domain is known; its mailbox is then its lower-cased form |
| Routing.NoDiscardDeliversAllValid | python/mailserver3.py:110-112 | with discarding off, every recipient that passes the pattern is stored, whatever the rules |
| Routing.RouteIgnoresCase | python/mailserver3.py:98-115 | recipients that differ only in letter case get the same verdict, domain and mailbox |
| Routing.RouteOfLower | python/mailserver3.py:98 | routing an already lower-cased recipient gives the same verdict |
| Routing.NotAnAddressIsInvalid | python/mailserver3.py:99-101 | `not-an-address` is rejected as invalid, whatever the rules and the discard setting |
| Timestamp.FilenameBase | python/mailserver3.py:95 | `str(int(round(time.time() * 1000)))` for a given clock reading |
| Timestamp.IntToString | python/mailserver3.py:95 | `str` of an integer, with a minus sign when negative |
| Timestamp.Round | python/mailserver3.py:95 | `round` gives an integer within one half of its argument, and an even one on a tie |
| Timestamp.NatToString | python/mailserver3.py:95 | `str` of a natural number is non-empty, all digits, without a leading zero |
| Timestamp.DecimalRoundTrip | python/mailserver3.py:95 | `int(str(n)) == n` |
| Timestamp.FilenameBaseShape | python/mailserver3.py:95 | the file-name token is non-empty and holds no `/`; after the epoch it is all digits and reads back as the rounded millisecond count |
| Mime.DecodeFragment | python/mailserver3.py:38-46 | one header fragment: decoded with its charset, taken as it is when it is text, a failure otherwise |
| Mime.SubjectOf | python/mailserver3.py:36-46 | the subject: the fragments' decodings concatenated, or a failure if any fragment fails |
| Mime.AssembleSubject | python/mailserver3.py:36-46 | the subject loop yields the concatenation of the decoded fragments, and fails iff some fragment fails to decode |
| Mime.SubjectPrefixFails | python/mailserver3.py:43-46 | once a leading run of fragments fails, the whole subject fails |
| Mime.SubjectFailsIff | python/mailserver3.py:36-46 | the subject fails exactly when one of its fragments fails |
| Mime.SubjectConcat | python/mailserver3.py:36-42 | the subject of two runs of fragments is the first run's subject followed by the second's, and fails if either fails |
| Mime.SingleCharsetSubject | python/mailserver3.py:39-40 | a header in one declared charset decodes to what that charset gives for its bytes |
| Mime.PlainSubject | python/mailserver3.py:41-42 | a header without encoded words is taken as it is |
| Mime.MixedHeaderFails | python/mailserver3.py:37-46 | a bytes fragment without a charset makes the whole subject fail |
| Mime.LeadingSpaces | python/mailserver3.py:63 | the bytes `strip()` drops in front are whitespace, up to the first non-whitespace byte |
| Mime.TrailingSpaces | python/mailserver3.py:63 | the bytes `strip()` drops at the end are whitespace, back to the last non-whitespace byte |
| Mime.Strip | python/mailserver3.py:63 | `strip()` returns the slice of the payload that starts after its leading whitespace, drops only whitespace after its end, and has no whitespace at either end |
| Mime.MainType | python/mailserver3.py:55 | `get_content_maintype()`: the content type up to its `/` |
| Mime.KindOf | python/mailserver3.py:55-66 | the branch a part takes: container, body text, HTML, or attachment |
| Mime.Fills | python/mailserver3.py:55-75 | a part feeds an output: a body or HTML part with a payload, or an attachment-kind part with a payload |
| Mime.BreaksWalk | python/mailserver3.py:62-66 | a body or HTML part without a payload, on which `.strip()` raises |
| Mime.TextOf | python/mailserver3.py:63 | a body or HTML part's text: its payload stripped and decoded as UTF-8 with replacement |
| Mime.AttachmentOf | python/mailserver3.py:69-75 | an attachment entry: the part's file name, or `untitled`, and its payload |
| Mime.TextParts | python/mailserver3.py:50-63 | `text_parts`: the stripped, decoded body texts in walk order |
| Mime.HtmlParts | python/mailserver3.py:51-66 | `html_parts`: the stripped, decoded HTML texts in walk order |
| Mime.Attachments | python/mailserver3.py:52-75 | `attachments`: the named payloads of the other parts, in walk order |
| Mime.WalkParts | python/mailserver3.py:50-75 | the walk loop fails iff some text or HTML part has no payload, and otherwise returns the body texts, the HTML texts and the attachments that `TextParts`, `HtmlParts` and `Attachments` give |
| Mime.WalkFailsStep | python/mailserver3.py:62-66 | one more part breaks the walk iff the walk had broken or this part breaks it |
| Mime.WalkStep | python/mailserver3.py:54-75 | one more part adds to exactly the output its kind selects: body, HTML or attachment |
| Mime.PositionsFill | python/mailserver3.py:54-75 | every listed walk position is a part that feeds that output |
| Mime.PositionsIncreasing | python/mailserver3.py:54-75 | the positions feeding an output strictly increase, in walk order |
| Mime.PositionsComplete | python/mailserver3.py:54-75 | every part that feeds an output has its position listed |
| Mime.PositionsExact | python/mailserver3.py:54-75 | the listed positions are exactly the parts feeding an output, in walk order |
| Mime.AttachmentsInWalkOrder | python/mailserver3.py:67-75 | the k-th attachment (key `file<k>`) comes from the k-th attachment-kind part with a payload; its name is the file name or `untitled` |
| Mime.TextsInWalkOrder | python/mailserver3.py:61-63 | the k-th body text is the stripped, decoded payload of the k-th `text/plain` part without a disposition |
| Mime.HtmlsInWalkOrder | python/mailserver3.py:64-66 | the k-th HTML text is the stripped, decoded payload of the k-th `text/html` part, whatever its disposition |
| Mime.SlotsPartitionLeaves | python/mailserver3.py:54-75 | a part feeds at most one output, and every non-multipart part with a payload feeds one |
| Mime.Join | python/mailserver3.py:77-78 | `'\n'.join` |
| Mime.SplitLinesExtend | python/mailserver3.py:77-78 | appending newline-free text to a string extends its last line |
| Mime.SplitLinesNewline | python/mailserver3.py:77-78 | a final newline starts a new, empty line |
| Mime.SplitJoin | python/mailserver3.py:77-78 | `'\n'.join` loses nothing: splitting the joined body at newlines gives back the newline-free parts |
| Mime.Parse | python/mailserver3.py:34-82 | the `try` block's outcome: the content, or a failure that leads to `500` |
| Mime.ParseMessage | python/mailserver3.py:34-82 | decoding fails iff `decode_header` raises on the Subject (a missing header or a malformed encoded word, both given as `None`), a fragment fails, or a text or HTML part has no payload; otherwise it gives the subject, the joined bodies and the attachments |
| Storage.MailboxPath | python/mailserver3.py:114-115 | the mailbox directory `../data/<em>` |
| Storage.AttachmentDir | python/mailserver3.py:119-120 | the attachment directory `../data/<em>/attachments` |
| Storage.StoredName | python/mailserver3.py:125 | the listed attachment name `<base>-<name>` |
| Storage.AttachmentPath | python/mailserver3.py:122 | the attachment file `../data/<em>/attachments/<base>-<name>` |
| Storage.RecordPath | python/mailserver3.py:128 | the record file `../data/<em>/<base>.json` |
| Storage.WriteAttachments | python/mailserver3.py:118-125 | the files after one recipient's attachment loop |
| Storage.RecordFor | python/mailserver3.py:86-93 | the record written for a recipient: `savedata` with `n` rounds of attachment names |
| Storage.StoreOne | python/mailserver3.py:114-129 | the tree after one delivery: directories, attachment files, then the record |
| Storage.StoreAll | python/mailserver3.py:97-129 | the tree after the recipient loop: one delivery per delivered mailbox, in order |
| Storage.StoredNames | python/mailserver3.py:118-125 | one recipient's attachment loop lists `<base>-<name>` for each attachment, in order |
| Storage.AttachmentPathInjective | python/mailserver3.py:122 | within one mailbox and message, different attachment names give different files |
| Storage.RecordPathNotAttachment | python/mailserver3.py:122-128 | the record never lands on an attachment file of the same message |
| Storage.DataDir.MakeDir | python/mailserver3.py:115 | `mkdir` adds the directory and changes no file |
| Storage.DataDir.WriteFile | python/mailserver3.py:122-124 | writing a file sets that path's content and time and changes nothing else |
| Storage.DataDir.Remove | python/mailserver3.py:146 | `os.remove` deletes that file and nothing else |
| Storage.WriteAttachmentsFrame | python/mailserver3.py:118-125 | the attachment loop leaves every other path as it was |
| Storage.WriteAttachmentsLast | python/mailserver3.py:118-125 | each attachment file holds the last attachment with that name: a later one overwrites an earlier one |
| Storage.WriteAttachmentsKeys | python/mailserver3.py:118-125 | the attachment loop creates exactly its own attachment files |
| Storage.StoreOneEffect | python/mailserver3.py:114-129 | after one delivery the record and every attachment file are in place, and the mailbox directory exists, plus `attachments/` only when there are attachments |
| Storage.StoreNothing | python/mailserver3.py:97-129 | with no recipient delivered, the tree is unchanged |
| Storage.StoreAllDirsSnoc | python/mailserver3.py:114-120 | one more delivery adds its mailbox directory, and its `attachments/` directory when there are attachments |
| Storage.StoreAllDirs | python/mailserver3.py:114-120 | the loop creates exactly the delivered mailboxes' directories, and their `attachments/` directories only when the message has attachments |
| Storage.StoreAllFrame | python/mailserver3.py:97-129 | every path the loop does not write keeps its old entry or stays absent |
| Storage.WrittenSnoc | python/mailserver3.py:97-129 | the paths written for one more mailbox are its record and its attachment files |
| Storage.StoreAllKeys | python/mailserver3.py:97-129 | the loop's new files are exactly the delivered mailboxes' records and attachment files |
| Storage.RecordOfNthRecipient | python/mailserver3.py:91-129 | the record of the i-th delivered recipient lists every original recipient and i rounds of attachment names, i·N names in all, because `edata` is shared |
| Storage.LastRecord | python/mailserver3.py:118-129 | the last delivered recipient's record lists K·N names for K recipients and N attachments |
| Storage.RecordPathInjective | python/mailserver3.py:128 | different mailboxes get different record paths for one token |
| Storage.RecordPathNotAnyAttachment | python/mailserver3.py:122-128 | with a token and an attachment name free of `/`, no record path is an attachment path of any mailbox |
| Storage.WrittenRecordsCarryRecipients | python/mailserver3.py:93-129 | after the recipient loop every path it wrote is present, stamped with the handling time, and every record among them carries the full `rcpttos` |
| Storage.FinalRecord | python/mailserver3.py:97-129 | after the recipient loop, the record of a mailbox not delivered to again later is the one its own delivery wrote, with j + 1 rounds of names for the j-th delivery (from 0) |
| Storage.DuplicateMailboxRecord | python/mailserver3.py:97-129 | a mailbox delivered twice keeps only the later record, which lists more names when there are attachments |
| Storage.ListedNamesAreStoredNames | python/mailserver3.py:125 | every listed name is `<base>-<name>` of one of the message's attachments |
| Config.Settings.constructor | python/mailserver3.py:15-19 | the settings start as no discarding, no domains, sweep off and last sweep 0 |
| Handler.Mailboxes | python/mailserver3.py:97-112 | the mailboxes the recipient loop stores into, in recipient order |
| Handler.Template | python/mailserver3.py:86-93 | `savedata` before the recipient loop, with an empty attachment list |
| Handler.Accept | python/mailserver3.py:98-112 | the head of the recipient loop accepts a recipient iff routing delivers it, under its lower-cased name |
| Handler.StoreMessage | python/mailserver3.py:114-129 | one delivery makes the directories, writes the attachments, appends N names to the shared list and writes the record, which reports the list as it then stands |
| Handler.StoreForRecipients | python/mailserver3.py:86-129 | the recipient loop leaves the tree as `StoreAll` over the delivered mailboxes, in order, with the token computed once |
| Handler.HandleData | python/mailserver3.py:22-133 | a message that fails to decode gets `500` and nothing is written; otherwise every delivered recipient is stored and the reply is `250 OK`, however many were stored |
| Handler.MailboxesSnoc | python/mailserver3.py:97-112 | one more recipient extends the mailbox list by its lower-cased form exactly when routing delivers it |
| Handler.StoreAllSnoc | python/mailserver3.py:97-129 | one more delivered mailbox is one more delivery, whose record lists one more round of names |
| Handler.MailboxesSound | python/mailserver3.py:97-112 | every mailbox stored into belongs to a recipient that routing delivers there |
| Handler.MailboxesComplete | python/mailserver3.py:97-112 | every recipient routing delivers has its lower-cased form among the mailboxes |
| Handler.UndeliveredAddsNothing | python/mailserver3.py:99-112 | an invalid or discarded recipient adds no mailbox |
| Handler.NoDeliveryNoWrites | python/mailserver3.py:97-133 | when no recipient is delivered, nothing is written |
| Handler.OnlyInvalidRecipient | python/mailserver3.py:99-101 | a message for `not-an-address` alone stores nothing |
| Handler.RecordsCarryAllRecipients | python/mailserver3.py:93 | every record carries the full original recipient list, the sender and the subject |
| Retention.SweepDue | python/mailserver3.py:136-137 | the guard: the setting is on and a day has passed since `LAST_CLEANUP` |
| Retention.Expired | python/mailserver3.py:140-145 | a file the sweep removes: under `../data/`, named `*.json`, strictly older than the threshold |
| Retention.Swept | python/mailserver3.py:135-147 | the files left after `cleanup()` |
| Retention.Cleanup | python/mailserver3.py:135-147 | the sweep leaves exactly the files `Swept` keeps, and leaves the directories and `LAST_CLEANUP` alone |
| Retention.SweptExactly | python/mailserver3.py:136-146 | a file survives iff the sweep is off, early, or the file is not an expired `.json` file under `../data/`; survivors are unchanged |
| Retention.SweepOffOrEarly | python/mailserver3.py:136-137 | with the setting off, or within a day of `LAST_CLEANUP`, nothing is removed |
| Retention.SweepKeepsOthers | python/mailserver3.py:142 | files not named `*.json` are never removed |
| Retention.SweptIsSubmap | python/mailserver3.py:140-147 | the sweep only removes: no path is added and no entry changed |
| Retention.SweepIdempotent | python/mailserver3.py:135-147 | a second sweep at the same time removes nothing more |
| Retention.SweepNotRateLimited | python/mailserver3.py:135-147 | since `LAST_CLEANUP` is never advanced, a due sweep stays due later, and a second sweep after the first removes exactly what a single sweep at the later time would |
| Retention.ExactAgeKept | python/mailserver3.py:145 | the age test is strict: a file exactly `days` days old stays |
| Retention.FreshFilesSurvive | python/mailserver3.py:145 | files written at the sweep's own time survive it |
| Retention.ThirtyDayThreshold | python/mailserver3.py:145 | with 30 days, a 40-day-old record goes and 10- and 1-day-old records stay |
| Retention.JsonAttachmentSwept | python/mailserver3.py:142 | an old attachment named `*.json` is removed like a record |

## Left out

- The aiosmtpd `Controller`, asyncio, the `__main__` start-up, the hourly sleep loop and logging
  (python/mailserver3.py:1-13 and 149-188). These are process and network plumbing.
- Reading `config.ini` (python/mailserver3.py:157-169). `Settings` fields are set by the caller.
  `domains` is taken as already lower-cased, and the retention threshold is a `nat` in which 0 is
  off. In the daemon it is a `bool`, so it is in practice 1 day.
- The `email` library: `parseaddr`, `message_from_bytes`, `walk`, `get_content_type`,
  `get_filename`, `get_payload(decode=True)` and `decode_header`. Their results are inputs
  (`Envelope`, `Message`, `Part`, `Fragment`).
- Character-set codecs and UTF-8 decoding with `errors='replace'`. These are function parameters.
- Routing.Lower: lower-cases ASCII letters only, because Unicode case mapping is not modelled.
- `time.time()` and file modification times are exact `real` values. Floating-point rounding of
  `time.time() * 1000` is not modelled.
- Every file of one delivery is stamped with the single clock reading `now`, the same reading that
  gives the file-name token, where the source stamps each file at its own write time.
  `Retention.FreshFilesSurvive` depends on this.
- Retention.Cleanup: reads the clock once, where the source reads it again for every file, and
  the order in which `os.walk` visits files is left open.
- Race conditions between concurrent sessions, and between the handler and the sweep.
- File-system failures. `mkdir` or `open` failing (a path that exists as a file, a missing
  `../data`), and `os.remove` failing, propagate out of the source uncaught. The model's operations
  always succeed.
- `os.path.exists` on a mailbox path that exists as a plain file. The model checks only its set of
  directories.
- Paths are compared as strings: `.` and `..` parts, and `/` inside a recipient or an attachment
  name, are not resolved. Two different keys can then name one file, and a recipient can write
  outside its mailbox or outside `../data/`, where `os.walk` never looks. `Storage.StoreAllFrame`
  and `Retention.SweepKeepsOthers` hold for the string keys, not for the files those keys name.
- Storage.FinalRecord and Storage.DuplicateMailboxRecord: stated only for a token and attachment
  names without `/`. A `/` in an attachment name can make its path coincide with another mailbox's
  record path, and the string model does not resolve it (see the line on paths above).
- `json.dump`'s text. A record is the `StoredRecord` datatype.
- Directories that `cleanup()` leaves behind, and paths outside `../data/`, which it never
  visits: the model's sweep keeps every path outside `../data/`.
