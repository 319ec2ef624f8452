# Verified models of the parsing, text and arithmetic cores of rupi

This project states, in Dafny, what the deterministic cores of `rupi-core`, `rupi-compat`, the Pi
exporter and the importer's path walk compute, and proves what their documentation promises of them.
`dafny verify dfyconfig.toml` verifies all of it.

Code that changes things step by step is a method (with a class where the source has an object that
its methods update), proved equal to a specification function or to a stated result. The promises
are lemmas about those functions.

| file | models |
|---|---|
| `BoundedLines.dfy` | the resumable line reader, over a transport that cuts its buffers and fails as it likes |
| `Json.dfy`, `JsonTree.dfy`, `Package.dfy`, `Manifests.dfy`, `BrokenManifests.dfy`, `PackageParser.dfy` | the hand-written JSON reader: as functions of the unread bytes, against a printer of RFC 8259 text, against what a manifest declares, on texts that break off, and as the cursor class |
| `CivilTime.dfy`, `Timestamps.dfy` | dates and time stamps, written and read |
| `PiExport.dfy`, `ActivePath.dfy` | the fold of a trace into linked entries, and the path an importer takes through entries |
| `Substitute.dfy`, `Arguments.dfy` | prompt templates and typed arguments, scanner against grammar |
| `Redact.dfy`, `PrivateKeys.dfy`, `KeyPrefixes.dfy` | three redaction passes |
| `Scalars.dfy`, `Frontmatter.dfy`, `FrontmatterPrint.dfy` | the values of fields, `extract` and `strip`, and files that are printed and read back |
| `Sha256.dfy`, `KnownDigest.dfy` | the in-place hash against FIPS 180-4, and the digest of its example word by word |
| `ContextPolicy.dfy` | thresholds, decisions, and runs of decisions |
| `SkillScan.dfy`, `SkillResults.dfy`, `SkillFiles.dfy`, `Xml.dfy` | the skill walk over a graph of directories with links, what makes a file a skill, and the escaping of the listing |
| `InputRows.dfy` | painting the rows of the input line |
| `Text.dfy` | shared vocabulary |

## Where the code departs from what it says

- The day arithmetic at src/export_pi.rs:296 divides by 1 461 where its algorithm needs 1 460. It is
  right on every day but 29 February. There the subtraction at line 298 goes below zero: a build that checks
  overflow stops, and one that does not (the release profile, Cargo.toml:84-89) writes a stamp the importer refuses
  (`CivilTime.WrittenDivisorIs`, `Timestamps.TimestampRoundTrip`, `Timestamps.WrappingRoundTrip`).
- A refusal after an overflow says that the request exceeds the compact threshold, also when it does not
  (`ContextPolicy.RefusalIsTrueIff`), a reduction says that recent messages exceed their target, also when they
  do not (`ContextPolicy.ReductionIsTrueIff`), and a compaction says that a threshold is exceeded that may only be
  reached (`ContextPolicy.CompactionIsTrueIff`). The cooldown comment at crates/rupi-core/src/context.rs:364-367
  speaks of a checkpoint suggestion where the code warns, which is why severity is not monotone
  (`ContextPolicy.SeverityIsMonotoneIff`).
- `strip` accepts an indented fence and `extract` does not (`Frontmatter.AgreeExactly`,
  `Frontmatter.SameClosingLine`, `FrontmatterPrint.PrintedIsRemovedIff`).
- A line of a block scalar that stands less far in than the first one loses the front of its text
  (`Scalars.UnindentedKeepsTextIff`).
- An empty line in the middle of the buffer stops the row walk from keeping step, against
  src/interactive.rs:1037-1040: rows behind it keep their text and lose their roles
  (`InputRows.DisplayIsMatchedIff`).
- `$0`, and a position too large for the machine word inside braces, read the first argument
  (`Substitute.PositionMeansArgument`).
- A late error in a manifest keeps what was read before it, against
  crates/rupi-compat/src/package.rs:892-894 (`Manifests.LateErrorIsEmptyIff` for values of the wrong type,
  `BrokenManifests.BrokenIsEmptyIff` for texts that stop being JSON).
- A secret that overlaps the marker of literals or that of the environment, such as one that begins with a closing
  bracket, can be spelled again by a later marker and the text beside it (`Redact.LiteralsRemoveIff`).

## Model

| member | source | states |
|---|---|---|
| `BoundedLines.BoundedLineReader.TakeLine` | crates/rupi-core/src/bounded.rs:142-150 | hands over the line in progress, cut or complete, and leaves the reader empty |
| `BoundedLines.BoundedLineReader.Retain` | crates/rupi-core/src/bounded.rs:101-130 | keeps as much of a stretch as the limit allows; rejects exactly when the line would grow past it, and then owns what it owned before |
| `BoundedLines.BoundedLineReader.Finish` | crates/rupi-core/src/bounded.rs:90-138 | a finished line is the first line of what was pending, framing consumed |
| `BoundedLines.BoundedLineReader.Turn` | crates/rupi-core/src/bounded.rs:86-139 | one turn of the loop either settles the line or moves bytes from the transport to the reader, losing none |
| `BoundedLines.BoundedLineReader.ReadLine` | crates/rupi-core/src/bounded.rs:70-140 | whatever the transport offers and whenever it fails, a delivered line is the first bounded line of the pending bytes; a failed call leaves them as they were; a zero limit is refused; rejection means the content is too long |
| `BoundedLines.ReadAll` | crates/rupi-core/src/bounded.rs:70-151 | over any schedule of cuts and failures, a retrying caller in truncating mode gets exactly the bounded split of the bytes |
| `BoundedLines.ContentLengthIs` | crates/rupi-core/src/bounded.rs:98-99 | the split position is the first newline, or the end, and no other index is |
| `BoundedLines.UntruncatedLinesAreLossless` | crates/rupi-core/src/bounded.rs:63-69 | when no line is cut, the lines put together are the input |
| `BoundedLines.LinesOfContents` | crates/rupi-core/src/bounded.rs:63-69 | each content between newlines is one line, whole with its newline or cut to its first bytes, and a rest behind the last newline is another |
| `BoundedLines.ContentsExist` | crates/rupi-core/src/bounded.rs:63-69 | and every input is such contents |
| `BoundedLines.LinesAreBounded` | crates/rupi-core/src/bounded.rs:63-69 | every line is non-empty, holds at most the limit plus its newline, and only the last may lack a newline without being cut |
| `BoundedLines.LinesOfConcat` | crates/rupi-core/src/bounded.rs:70-140 | splitting commutes with cutting the input behind a newline |
| `BoundedLines.FirstLineFrom` | crates/rupi-core/src/bounded.rs:86-139 | what a retained prefix without newline, followed by anything, must be answered with |
| `JsonTree.DecodeEncode` | crates/rupi-compat/src/package.rs:1074-1087 | a UTF-8 sequence of the announced width decodes to the character it encodes |
| `JsonTree.DecodedIsEncoded` | crates/rupi-compat/src/package.rs:1074-1087 | and no other bytes decode: no overlong sequence, no surrogate, no stray byte |
| `JsonTree.AlphabetIs` | crates/rupi-compat/src/package.rs:1136-1207 | the bytes the reader knows by name, its white space, its delimiters and its hexadecimal digits are those characters |
| `JsonTree.ReadString` | crates/rupi-compat/src/package.rs:994-1090 | a string of any characters, each raw, behind a backslash by its letter in the table of section 7 of RFC 8259 or by itself, or in hexadecimal digits of either case, reads back as those characters, ending at its closing quote |
| `JsonTree.SurrogateIsRefused` | crates/rupi-compat/src/package.rs:1050-1066 | half of a surrogate pair written as an escape is an error with its code point |
| `JsonTree.SkipNestedValue` | crates/rupi-compat/src/package.rs:1136-1177 | inside any brackets of one kind, a whole value of any nesting leaves the depth count where it was |
| `JsonTree.SkipPrintedValue` | crates/rupi-compat/src/package.rs:1130-1190 | skipping any printed value stops exactly behind it, though each bracket kind is counted alone; only a literal needs a delimiter behind it |
| `JsonTree.ReadStringArray` | crates/rupi-compat/src/package.rs:1093-1127 | an array of any values reads as the strings among them, in order |
| `Package.ParsePrinted` | crates/rupi-compat/src/package.rs:913-929 | every printed JSON document: an object yields exactly what its members declare, up to the first of a wrong type, plus one warning then; any other value yields the empty manifest and one warning |
| `Package.LiteralKindIs` | crates/rupi-compat/src/package.rs:1193-1208 | a value that is no string, array or object is named after what its first character can begin |
| `Package.ObjectAgrees` | crates/rupi-compat/src/package.rs:1211-1341 | a printed object, top level or `pi`, is read as what it declares whatever its other members carry |
| `Package.MembersAgree` | crates/rupi-compat/src/package.rs:1277-1340 | the member loop against the declaration, member by member |
| `Manifests.OthersDeclareNothing` | crates/rupi-compat/src/package.rs:1315-1320 | unrelated keys, wherever they stand and whatever they carry, declare nothing |
| `Manifests.ManifestRoundTrip` | crates/rupi-compat/src/package.rs:913-929 | any manifest, printed in any order, spelling and white space, with repeated, unknown and unrelated keys, comes back: each field as the last member of its key declares it, with one warning for each unknown `pi` key and each `extensions`, in order |
| `Manifests.ObjectIsRead` | crates/rupi-compat/src/package.rs:913-929 | every printed object is its members up to the first of the wrong type: fields by the last of their key, warnings one by one, and one `Malformed` more exactly when there is such a member |
| `Manifests.ManifestIsPrintable` | crates/rupi-compat/src/package.rs:913-929 | every manifest is what some printed object declares |
| `Manifests.LateErrorIsEmptyIff` | crates/rupi-compat/src/package.rs:890-894 | a value of the wrong type leaves an empty manifest and a single warning if and only if nothing in front of it set a text, called for a warning, or left a list of paths that holds one |
| `Package.MembersContinue` | crates/rupi-compat/src/package.rs:1277-1340 | whatever stands behind printed members, the loop comes there with what they declare, or has stopped at the first of a wrong type |
| `Manifests.LateErrorKeepsName` | crates/rupi-compat/src/package.rs:890-894 | a concrete text whose version has the wrong type and whose name stays in the manifest |
| `BrokenManifests.BrokenIsRead` | crates/rupi-compat/src/package.rs:890-929 | a text that breaks behind printed members, at a separator or at the key, the colon or the value of the next one, in the outer object or inside a `pi` object, is read as the members in front of the break, what the break itself is warned of, and one `Malformed` |
| `BrokenManifests.BrokenIsEmptyIff` | crates/rupi-compat/src/package.rs:890-894 | such a text leaves an empty manifest and a single warning if and only if the members in front of the break leave no trace and no unknown `pi` key was met at it |
| `BrokenManifests.TruncatedKeepsName` | crates/rupi-compat/src/package.rs:890-894 | a concrete text that ends behind a comma and whose name stays in the manifest |
| `PackageParser.Parser.ExpectByte` | crates/rupi-compat/src/package.rs:975-990 | the cursor method is the suffix function; the cursor stays inside the text |
| `PackageParser.Parser.ReadHex` | crates/rupi-compat/src/package.rs:1050-1066 | four hexadecimal digits, or an error at the first other byte, or an unrepresentable code point |
| `PackageParser.Parser.ReadChar` | crates/rupi-compat/src/package.rs:1014-1087 | one escape or one UTF-8 character, bounds respected |
| `PackageParser.Parser.ParseString` | crates/rupi-compat/src/package.rs:994-1090 | the string loop is `Json.ParseString` on the unread bytes |
| `PackageParser.Parser.SkipBrackets` | crates/rupi-compat/src/package.rs:1136-1177 | the depth loop is `Json.SkipNested` on the unread bytes |
| `PackageParser.Parser.SkipValue` | crates/rupi-compat/src/package.rs:1130-1190 | skipping is `Json.SkipValue` on the unread bytes, on every input |
| `PackageParser.Parser.ValueKindAhead` | crates/rupi-compat/src/package.rs:1193-1208 | looks at the kind of the next value without moving |
| `PackageParser.Parser.ParseStringArray` | crates/rupi-compat/src/package.rs:1093-1127 | the array loop is `Json.ParseStringArray` on the unread bytes |
| `PackageParser.Parser.ParseField` | crates/rupi-compat/src/package.rs:1283-1321 | the value of one member is recorded or skipped as the key says |
| `PackageParser.Parser.ParseExtensions` | crates/rupi-compat/src/package.rs:1297-1314 | an array of extensions is recorded and counted, anything else is skipped and counted as none |
| `PackageParser.Parser.ParseMember` | crates/rupi-compat/src/package.rs:1278-1321 | key, colon and value of one member |
| `PackageParser.Parser.ParseObject` | crates/rupi-compat/src/package.rs:1211-1341 | the member loop with its shared report, on every input |
| `PackageParser.ParseText` | crates/rupi-compat/src/package.rs:913-929 | the whole reader terminates on every input and is `Package.ParseText`: a late error keeps what was read before it |
| `CivilTime.CorrectDivisorIsCalendar` | src/export_pi.rs:288-306 | with 1 460 the conversion is the Gregorian calendar counted day by day, and the importer numbers it back |
| `CivilTime.CivilFromDaysInverts` | src/export_pi.rs:288-306 | with 1 460 every day gives a valid date that the importer reads as that day |
| `CivilTime.DaysFromEpochInverts` | crates/rupi-store/src/pi_import.rs:360-379 | every valid date has a number, and the exporter with 1 460 undoes the numbering |
| `CivilTime.DaysFromEpochOfNextDay` | crates/rupi-store/src/pi_import.rs:360-379 | one calendar day on adds one to the number |
| `CivilTime.AcceptedDates` | crates/rupi-store/src/pi_import.rs:360-379 | a date has a number if and only if its month is one of twelve and its day one of thirty-one, and the days of a month count on, past its end too |
| `CivilTime.WrittenDivisorIs` | src/export_pi.rs:295-306 | with 1 461 as written: right off 29 February; on it the subtraction goes below zero unless the year is divisible by 400, and then the date is 1 March |
| `CivilTime.WrittenDivisorCollides` | src/export_pi.rs:295-306 | two days share a stamp exactly when the first is the leap day of a year divisible by 400 and the second is the day after |
| `CivilTime.CivilWrappingIs` | src/export_pi.rs:295-306 | with 64-bit arithmetic that wraps the date is the checked one, and where that stops a month and a day of no calendar |
| `CivilTime.LeapDayUnderflows` | src/export_pi.rs:295-306 | day 789, 29 February 1972, in both builds |
| `CivilTime.LeapDayCollides` | src/export_pi.rs:295-306 | days 11 016 and 11 017 both come out as 1 March 2000 |
| `Timestamps.SplitZoneOfClock` | crates/rupi-store/src/pi_import.rs:331-357 | a printed clock ends in its zone mark and shows no offset |
| `Timestamps.IsToMillisReads` | crates/rupi-store/src/pi_import.rs:306-324 | whatever date is printed, the importer reads that date and time, within its signed range |
| `Timestamps.StampIsRead` | crates/rupi-store/src/pi_import.rs:306-357 | any date, any time of day with any number of decimals or none, and any zone are read as the instant they name, to the nearest millisecond |
| `Timestamps.StampHasShape` | src/export_pi.rs:306-313 | a stamp has the shape of section 5.6 of RFC 3339, 24 characters with their marks and digits, exactly up to the year 9999, and shows the date that was computed and the time of day |
| `Timestamps.StampOfZero` | src/export_pi.rs:287-314 | the stamp of the first instant, character for character |
| `Timestamps.TimestampRoundTrip` | src/export_pi.rs:287-314 | in a build that checks overflow: a stamp exists and reads back exactly off leap days and within the signed range, is a day late on leap days of years divisible by 400, and is not written on the others |
| `Timestamps.WrappingRoundTrip` | src/export_pi.rs:287-314 | in a build that does not: a stamp is always written, the checked one where there is one; on leap days of years not divisible by 400 the importer refuses it, and otherwise it reads as before |
| `PiExport.Chain.PushEntry` | src/export_pi.rs:200-207 | an entry is appended with the last identifier as its parent |
| `PiExport.RenderTrace` | src/export_pi.rs:98-165 | the loop with its shared variables is the fold of the step function |
| `PiExport.FoldIs` | src/export_pi.rs:111-165 | in front of every event the fold holds the entries of the spans complete so far and the open reply |
| `PiExport.RenderIs` | src/export_pi.rs:98-165 | the entries are those of the spans of the trace, stated in positions of the trace alone |
| `PiExport.EntriesSay` | src/export_pi.rs:111-165 | event by event: a reply has the identifier of its first delta, the time of the completion that closes it, else of that delta, the deltas of its span as text, and the model of the last request in front of it, else its own, else the one of its completion |
| `PiExport.ModelBeforeIs` | src/export_pi.rs:131-147 | the model in force is that of the last request event, and there is none before the first |
| `PiExport.ReplyIsDatedAtItsEnd` | src/export_pi.rs:143-153 | a concrete trace of a delta and its completion and the entry they make |
| `PiExport.EntriesAreChained` | src/export_pi.rs:196-207 | each entry names the one in front of it, the first names none |
| `PiExport.SpansTile` | src/export_pi.rs:111-165 | spans are in order and disjoint and hold every user message and every assistant delta |
| `PiExport.ConversationIsConserved` | src/export_pi.rs:111-165 | assistant text put together is all deltas put together; user entries are all user messages in order |
| `PiExport.LossesAreCounted` | src/export_pi.rs:111-162 | every other event is in the header, a reasoning total, the attachment total, or counted once under its kind, in counters of 32 and 64 bits that wrap |
| `ActivePath.ActivePath` | crates/rupi-store/src/pi_import.rs:215-269 | the walk with its visited set and reversed list is the function `Active`; it always ends |
| `ActivePath.LeastIsLeast` | crates/rupi-store/src/pi_import.rs:231-243 | the repeated identifier reported is the first in string order |
| `ActivePath.ActiveIs` | crates/rupi-store/src/pi_import.rs:215-269 | for every file: in its order when it is empty or an identifier is; else refused for the first identifier, in string order, that two entries have; else the outcome is true of it: a way from the newest entry to a root, a loop met on it, or a parent that is nowhere |
| `ActivePath.PathIffWayToRoot` | crates/rupi-store/src/pi_import.rs:244-269 | with distinct identifiers the path is returned if and only if it is the way from the newest entry to a root |
| `ActivePath.ExportIsAllActive` | src/export_pi.rs:196-207 | the importer takes an exported file whole and in order if and only if its entry identifiers are distinct or one is empty |
| `ActivePath.ExportIsImportedWhole` | src/export_pi.rs:98-207 | a trace whose event identifiers are distinct is imported whole and in order after its export |
| `Substitute.SubstituteLoop` | crates/rupi-compat/src/substitute.rs:28-51 | the index loop only moves forward and is the recursive scanner |
| `Substitute.JoinIsLayout` | crates/rupi-compat/src/substitute.rs:153-155 | arguments are joined by one space: each stands at its place, a space in front of all but the first, and nothing else |
| `Substitute.WordCharsAre` | crates/rupi-compat/src/substitute.rs:161-163 | the characters that go on with a word are the ASCII letters and digits and the underscore |
| `Substitute.ParsePrints` | crates/rupi-compat/src/substitute.rs:53-151 | every text is the print of a well-formed template, character for character |
| `Substitute.ParseOfPrint` | crates/rupi-compat/src/substitute.rs:53-151 | and of no other template |
| `Substitute.FirstPieceOfPrint` | crates/rupi-compat/src/substitute.rs:55-83 | a printed piece is read back as the first piece when what follows does not merge with it |
| `Substitute.UnreadMeansNoSpelling` | crates/rupi-compat/src/substitute.rs:86-121 | braces are left verbatim exactly when no known piece is spelled like them |
| `Substitute.BetweenIsSlice` | crates/rupi-compat/src/substitute.rs:138-151 | the slice taken is the arguments at positions from N up to N+L |
| `Substitute.SubstituteIsEval` | crates/rupi-compat/src/substitute.rs:28-51 | substituting any text is evaluating its pieces one by one, so argument text is never scanned again |
| `Substitute.SubstitutePrinted` | crates/rupi-compat/src/substitute.rs:28-151 | for every well-formed template its print substitutes to its meaning |
| `Substitute.PositionMeansArgument` | crates/rupi-compat/src/substitute.rs:128-134 | a position names the documented argument if and only if it is at least 1 and fits the machine word, or reading the first argument instead makes no difference |
| `Substitute.ZeroReadsFirst` | crates/rupi-compat/src/substitute.rs:128-134 | `$0` reads the first argument |
| `Substitute.TooLargeReadsFirst` | crates/rupi-compat/src/substitute.rs:95-99 | so does a position of twenty-one digits in braces |
| `Redact.ApplyLiterals` | crates/rupi-core/src/redact.rs:163-176 | the loop over candidates, with its count, is the sequential replacement |
| `Redact.MarkersAre` | crates/rupi-core/src/redact.rs:43-60 | the six markers, character for character |
| `Redact.ReplaceCreatesNothing` | crates/rupi-core/src/redact.rs:170-176 | a replacement creates no text that does not overlap the marker |
| `Redact.ReplaceCreatesNothingIff` | crates/rupi-core/src/redact.rs:170-176 | a text can be created by a replacement if and only if it overlaps the marker |
| `Redact.BracketFreeOverlap` | crates/rupi-core/src/redact.rs:58-60 | a text without brackets overlaps a marker if and only if the marker spells it inside |
| `Redact.ReplaceRemovesIff` | crates/rupi-core/src/redact.rs:170-176 | one replacement removes its own secret from every text if and only if the secret cannot survive at a marker, for every secret |
| `Redact.ReplaceLeavesOnlyMarkers` | crates/rupi-core/src/redact.rs:170-176 | text by text: a secret that reaches over no end of the marker is left behind by its own replacement if and only if it was there and the marker spells it |
| `Redact.LiteralsRemoveAll` | crates/rupi-core/src/redact.rs:163-176 | after the pass no candidate is in the text that overlaps none of the markers put in from its turn on |
| `Redact.Candidates` | crates/rupi-core/src/redact.rs:237-253 | the loops of the method collect and sort the specified candidates |
| `Redact.CandidatesAre` | crates/rupi-core/src/redact.rs:235-253 | candidates are exactly the literals and scanned values that are long enough; longer ones come first, and those of one length keep their order |
| `Redact.PolicyRemoves` | crates/rupi-core/src/redact.rs:163-176 | under any policy a candidate that overlaps neither marker of the pass is removed from every text |
| `Redact.LiteralsRemoveIff` | crates/rupi-core/src/redact.rs:163-176 | a secret is removed from every text under every policy of a given least length that has it as a candidate, if and only if it overlaps neither the marker of literals nor, when it has two characters or more, that of the environment |
| `Redact.OverlapComesBack` | crates/rupi-core/src/redact.rs:235-253 | one that overlaps such a marker comes back under a policy with one more candidate of its own length, in a text that did not hold it |
| `Redact.LiteralsCreateNothing` | crates/rupi-core/src/redact.rs:163-176 | no later replacement brings back an absent secret that overlaps none of the markers |
| `Redact.BracketedSecretComesBack` | crates/rupi-core/src/redact.rs:235-253 | a concrete text and two literals of eight characters under the least length of eight: the first is not in the text and is in the output |
| `Redact.ReplaceIsJoin` | crates/rupi-core/src/redact.rs:170-176 | a replacement puts the marker where the secret stood between the same stretches, none of which holds the secret, and counts those places |
| `Redact.LiteralsCountMarkers` | crates/rupi-core/src/redact.rs:163-176 | the count is the number of markers put in, whatever the secrets: opening brackets of the output and of the secrets taken out are those of the text and one for each replacement |
| `PrivateKeys.RedactPrivateKeys` | crates/rupi-core/src/redact.rs:312-337 | the line loop is the rendering of the text's blocks, with their number as its count |
| `PrivateKeys.BeginIs` | crates/rupi-core/src/redact.rs:315-322 | a line begins a key when white space alone is in front of the opening and it names a private key |
| `PrivateKeys.EndIs` | crates/rupi-core/src/redact.rs:323-329 | a line ends one when it says so anywhere |
| `PrivateKeys.FirstKeyIsWithheld` | crates/rupi-core/src/redact.rs:312-337 | in front of the first key every line stays, the key goes as one block up to its first END line, and behind it all starts anew |
| `PrivateKeys.KeyIsShown` | crates/rupi-core/src/redact.rs:312-337 | text, a key over some lines and more text: the key becomes one marker line and counts one |
| `PrivateKeys.RestIsShown` | crates/rupi-core/src/redact.rs:312-337 | text without the beginning of a key stays, and a key that never ends goes to the end of the text |
| `PrivateKeys.BlocksAre` | crates/rupi-core/src/redact.rs:312-337 | the blocks are well formed, lose no line and keep the order; only the last may be unterminated |
| `PrivateKeys.ShownAreLines` | crates/rupi-core/src/redact.rs:312-337 | what is written is made of whole lines, none of which begins a key |
| `PrivateKeys.RedactTwice` | crates/rupi-core/src/redact.rs:312-337 | a second pass changes nothing and counts nothing, behind an unterminated block too |
| `KeyPrefixes.RedactKeyPrefixes` | crates/rupi-core/src/redact.rs:433-459 | the buffered scan is the rendering of the text's maximal runs, with the number of keys as its count |
| `KeyPrefixes.KeyIs` | crates/rupi-core/src/redact.rs:461-470 | a token is a key under a prefix when both minimums fit behind it |
| `KeyPrefixes.TokenCharsAre` | crates/rupi-core/src/redact.rs:306-308 | the characters of tokens are the ASCII letters and digits and six marks |
| `KeyPrefixes.ListedAre` | crates/rupi-core/src/redact.rs:114-134 | the listed prefixes by the number of characters they ask for |
| `KeyPrefixes.MatchIsLongest` | crates/rupi-core/src/redact.rs:114-134 | the prefix a key is reported under is the longest listed one that makes it a key |
| `KeyPrefixes.KeyShown` | crates/rupi-core/src/redact.rs:433-459 | a key of the longer of two nested prefixes, whatever stands behind it, and the signs around it |
| `KeyPrefixes.RunsSpellText` | crates/rupi-core/src/redact.rs:449-458 | the runs spell the text, so what is not a key stays in place |
| `KeyPrefixes.RunsOfOriginal` | crates/rupi-core/src/redact.rs:449-458 | the runs of a text are the only ones it has |
| `KeyPrefixes.MarkerIsNoKey` | crates/rupi-core/src/redact.rs:440-442 | neither word of a marker is a key, for every listed prefix and every minimum |
| `KeyPrefixes.ExpandedAllIs` | crates/rupi-core/src/redact.rs:433-470 | what is written splits into runs none of which is a key |
| `KeyPrefixes.RedactTwice` | crates/rupi-core/src/redact.rs:433-470 | a second pass changes nothing and counts nothing |
| `Scalars.FoldLines` | crates/rupi-compat/src/frontmatter.rs:206-227 | the folding loop; what it makes of lines is stated by `Scalars.FoldedBlock` |
| `Scalars.BlockValue` | crates/rupi-compat/src/frontmatter.rs:189-236 | the value of a block scalar; stated by `Scalars.FoldedBlock` and `Scalars.LiteralBlock` |
| `Scalars.IndentIs` | crates/rupi-compat/src/frontmatter.rs:190-195 | a block is measured by its first line that is not blank, and by nothing when all are |
| `Scalars.IndentOfIs` | crates/rupi-compat/src/frontmatter.rs:190-195 | the indentation of a line is what trimming its front takes off, in bytes |
| `Scalars.FoldedBlock` | crates/rupi-compat/src/frontmatter.rs:202-235 | a folded block is its lines joined by a space, or by as many breaks as there are blank lines between them, without the blank lines around them |
| `Scalars.LayoutExists` | crates/rupi-compat/src/frontmatter.rs:202-223 | any lines are so laid out |
| `Scalars.UnindentedKeepsTextIff` | crates/rupi-compat/src/frontmatter.rs:187-200 | taking the indentation off keeps the text of a line if and only if it is blank, stands at least as far in, or cannot be cut there |
| `Scalars.ShallowLineLosesText` | crates/rupi-compat/src/frontmatter.rs:187-200 | a concrete block whose second line stands less far in and loses its first characters |
| `Scalars.LiteralBlock` | crates/rupi-compat/src/frontmatter.rs:189-233 | a literal block loses its whole indentation and the empty lines behind it, and nothing else of its lines, empty ones in front and between included |
| `Scalars.UnescapeLoop` | crates/rupi-compat/src/frontmatter.rs:252-266 | the escape loop is the recursive unescaping |
| `Scalars.SpellingIsRead` | crates/rupi-compat/src/frontmatter.rs:252-266 | characters spelled in any mix, as they are, by the letters n and t, or behind a backslash by themselves, are read; a backslash at the end is nothing |
| `Scalars.SpellingExists` | crates/rupi-compat/src/frontmatter.rs:252-266 | and every text is such a spelling |
| `Scalars.UnquoteReads` | crates/rupi-compat/src/frontmatter.rs:247-277 | any value comes back from double quotes with escapes and from single quotes doubled; a text that is not between quotes is itself |
| `Scalars.DoubledIsRead` | crates/rupi-compat/src/frontmatter.rs:270-275 | doubling single quotes and reading them gives the value back |
| `Frontmatter.ExtractText` | crates/rupi-compat/src/frontmatter.rs:117-176 | the line loop with its pending block is the recursive reading |
| `Frontmatter.StripText` | crates/rupi-compat/src/frontmatter.rs:97-114 | the offset loop is `Strip`, which `Frontmatter.StripIs` characterises |
| `Frontmatter.ExtractIs` | crates/rupi-compat/src/frontmatter.rs:117-176 | `extract` finds a block exactly when the first line and a later one are fences at column zero, whatever scalars are open, and reads the lines between |
| `Frontmatter.RemovedIs` | crates/rupi-compat/src/frontmatter.rs:97-114 | `strip` removes exactly up to the second fence, indented or not |
| `Frontmatter.StripIs` | crates/rupi-compat/src/frontmatter.rs:97-114 | what is left is the text behind that fence without its run of carriage returns and line feeds, or all of the text |
| `Frontmatter.BlankLineIsDropped` | crates/rupi-compat/src/frontmatter.rs:107-110 | a concrete file with a blank line behind its block |
| `Frontmatter.LineTextIs` | crates/rupi-compat/src/frontmatter.rs:117-122 | a line break of either kind is no part of a line |
| `Frontmatter.BomIsIgnored` | crates/rupi-compat/src/frontmatter.rs:97-118 | a byte order mark in front changes nothing |
| `Frontmatter.NothingIsSaid` | crates/rupi-compat/src/frontmatter.rs:129-160 | comments, stray indented or blank lines, lines without a colon and lines with nothing in front of it set no field and end what was open |
| `Frontmatter.FoundIsRemoved` | crates/rupi-compat/src/frontmatter.rs:97-176 | a block that is found is one that is removed |
| `Frontmatter.AgreeWithoutIndentedFences` | crates/rupi-compat/src/frontmatter.rs:97-176 | without an indented fence, removed if and only if found |
| `Frontmatter.AgreeExactly` | crates/rupi-compat/src/frontmatter.rs:97-176 | they part exactly when the first line is an indented fence or every later fence is |
| `Frontmatter.SameClosingLine` | crates/rupi-compat/src/frontmatter.rs:97-176 | they close a found block at the same line if and only if no line above is an indented fence |
| `Frontmatter.IndentedFenceParts` | crates/rupi-compat/src/frontmatter.rs:103-108 | a concrete file that is stripped and not found |
| `FrontmatterPrint.PrintedIsFound` | crates/rupi-compat/src/frontmatter.rs:117-176 | every field, on a line in any spelling or in a block, is read as its value, later ones winning |
| `FrontmatterPrint.OpensBlockIff` | crates/rupi-compat/src/frontmatter.rs:156-170 | a value opens a block if and only if it is a bar or an arrow, alone or with a minus behind it and blanks between |
| `FrontmatterPrint.FieldIsRead` | crates/rupi-compat/src/frontmatter.rs:124-176 | a field, on its line or in the indented lines below it, sets its key to its value and closes what was open |
| `FrontmatterPrint.PrintedIsRemovedIff` | crates/rupi-compat/src/frontmatter.rs:97-114 | `strip` gives the body, but for the run of line breaks in front of it, if and only if no line of a block looks like a fence |
| `FrontmatterPrint.HiddenFenceShown` | crates/rupi-compat/src/frontmatter.rs:97-114 | a concrete block that holds an indented fence: reading it gives its value, and stripping ends there |
| `Scalars.EscapeIsRead` | crates/rupi-compat/src/frontmatter.rs:248-266 | escaping any value and unescaping gives it back |
| `FrontmatterPrint.RoundTrip` | crates/rupi-compat/src/frontmatter.rs:97-176 | any fields come back from `extract`, and any body from `strip` but for the run of line breaks in front of it |
| `Sha256.ConstantsAreRoots` | crates/rupi-core/src/hash.rs:9-22 | the tables are the fractions of the cube and square roots of the numbers listed beside them, as sections 4.2.2 and 5.3.3 of FIPS 180-4 define |
| `Sha256.ListedAreThePrimes` | crates/rupi-core/src/hash.rs:9-22 | those numbers rise, and up to the last of them they are the primes and nothing else |
| `KnownDigest.DigestOfAbc` | crates/rupi-core/src/hash.rs:43-112 | the digest of "abc", the example of FIPS 180-4 and of the test: schedule and rounds word by word, so that every function of section 4.1.2 and every constant is held to an answer from outside |
| `KnownDigest.HashOfConcat` | crates/rupi-core/src/hash.rs:62-106 | the hash value goes on from block to block |
| `Sha256.PadLength` | crates/rupi-core/src/hash.rs:39-47 | the padded length is the least multiple of 64 with room for the length |
| `Sha256.PadIsInjective` | crates/rupi-core/src/hash.rs:39-47 | padding loses nothing, whatever the length |
| `Sha256.PadMessage` | crates/rupi-core/src/hash.rs:41-47 | the padding loop is the padding of section 5.1.1 |
| `Sha256.ExpandSchedule` | crates/rupi-core/src/hash.rs:50-61 | the array is filled with the message schedule of section 6.2.2 |
| `Sha256.CompressBlock` | crates/rupi-core/src/hash.rs:63-101 | the rounds on eight variables and the sums into the hash array are the compression of section 6.2.2 |
| `Sha256.OutputBytes` | crates/rupi-core/src/hash.rs:104-108 | the digest has 32 bytes, and each four of them, most significant first, are a hash word |
| `Sha256.WordBytesSpell` | crates/rupi-core/src/hash.rs:104-107 | the four bytes of a word, most significant first, spell the word |
| `Sha256.Sha256` | crates/rupi-core/src/hash.rs:35-109 | the in-place program is the recursive digest, for every input |
| `ContextPolicy.NormalizedIsLadder` | crates/rupi-core/src/context.rs:340-362 | normalising gives warn ≤ reduce ≤ compact < checkpoint < window and recent target < compact, leaves alone exactly the ladders, and is idempotent |
| `ContextPolicy.NormalizedIsNearest` | crates/rupi-core/src/context.rs:340-362 | no ladder is nearer to the requested thresholds, the compact threshold first |
| `ContextPolicy.DerivedInWholeNumbers` | crates/rupi-core/src/context.rs:235-319 | before normalising, the thresholds are what division of whole numbers gives from the hundredths of the profile |
| `ContextPolicy.ThresholdsAreMonotone` | crates/rupi-core/src/context.rs:298-320 | a larger window never lowers a threshold |
| `ContextPolicy.LargeWindowsAreAlike` | crates/rupi-core/src/context.rs:290-303 | from 192 000 on the thresholds do not depend on the window |
| `ContextPolicy.ProfilesAreOrdered` | crates/rupi-core/src/context.rs:235-260 | aggressive, balanced and relaxed have rising thresholds in every window |
| `ContextPolicy.ThresholdsAreLadder` | crates/rupi-core/src/context.rs:322-338 | under any overrides the thresholds in force are a ladder |
| `ContextPolicy.WarningIs` | crates/rupi-core/src/context.rs:399-454 | there is no configuration warning if and only if the window has room and the requested thresholds, each its override or else the own one, are a ladder, which is then in force; a warning carries the window and the thresholds in force |
| `ContextPolicy.NoOverridesNoWarning` | crates/rupi-core/src/context.rs:415-454 | without overrides there is none, after a change of window as well |
| `ContextPolicy.DecisionIs` | crates/rupi-core/src/context.rs:461-580 | each action if and only if the request lies in its band, with the boundary, the cooldown and the overflow as they are; its level, its reason and the numbers it carries |
| `ContextPolicy.StructuralActionsWait` | crates/rupi-core/src/context.rs:461-580 | structural actions come only at safe boundaries and, but for an overflow, after the cooldown of their level |
| `ContextPolicy.CooldownsDouble` | crates/rupi-core/src/context.rs:368-375 | each level waits twice as long as the one before it, the first none |
| `ContextPolicy.TargetIsQuiet` | crates/rupi-core/src/context.rs:160-171 | once a compaction reaches its target, the next decision is neither structural nor a refusal unless there is an overflow |
| `ContextPolicy.RefusalIsTrueIff` | crates/rupi-core/src/context.rs:461-498 | what a refusal says, with its numbers, is so if and only if the window is too small, no overflow was reported, or the request exceeds the compact threshold; at a safe boundary with room it never is |
| `ContextPolicy.ReductionIsTrueIff` | crates/rupi-core/src/context.rs:550-563 | a reduction is wrong to say that recent messages exceed their target if and only if the request lies in the reducing band and they do not |
| `ContextPolicy.ReductionWithoutRecent` | crates/rupi-core/src/context.rs:550-563 | a concrete state reduced for recent messages of which there are none |
| `ContextPolicy.CompactionIsTrueIff` | crates/rupi-core/src/context.rs:524-539 | a compaction is wrong to say that the threshold is exceeded if and only if it is just reached, at a safe boundary, after the cooldown and without an overflow |
| `ContextPolicy.CompactionAtThreshold` | crates/rupi-core/src/context.rs:524-539 | a concrete state compacted for exceeding a threshold that is just reached |
| `ContextPolicy.RefusalBelowThreshold` | crates/rupi-core/src/context.rs:475-498 | a concrete state refused at 10 tokens of 64 000 |
| `ContextPolicy.SeverityIsMonotoneIff` | crates/rupi-core/src/context.rs:500-580 | for every state, more tokens never make the decision milder if and only if the window is too small, or after an overflow the boundary is not safe, or without one no cooldown runs at a safe boundary or neither compaction nor reduction can come up |
| `ContextPolicy.SeverityDrops` | crates/rupi-core/src/context.rs:500-524 | a concrete state where 64 000 tokens are compacted and 70 400 are only warned about |
| `ContextPolicy.CooldownsFit` | crates/rupi-core/src/context.rs:368-375 | over every run the cooldowns of all structural actions carried out fit into its time |
| `ContextPolicy.SecondCompaction` | crates/rupi-core/src/context.rs:368-375 | a concrete run: half a minute after a compaction a second one is carried out, and a millisecond earlier none |
| `SkillScan.CheckNameIs` | crates/rupi-compat/src/skill.rs:512-539 | a name is warned about, once and for its first fault, exactly when it is not up to 64 lowercase letters, digits and single inner hyphens |
| `SkillFiles.FileIs` | crates/rupi-compat/src/skill.rs:435-509 | a file is a skill if and only if its block has a name and a description; the skill is field by field what the block says, and the warnings are exactly those for its faults |
| `SkillFiles.PrintedSkillIsFound` | crates/rupi-compat/src/skill.rs:435-509 | a file printed with any fields in front of any body is found as the skill they declare |
| `SkillFiles.WordsOfLayout` | crates/rupi-compat/src/skill.rs:501-504 | the allowed tools are the words of the field, however white space stands around them |
| `SkillFiles.LayoutOfText` | crates/rupi-compat/src/skill.rs:501-504 | and every text is words with white space around them |
| `SkillFiles.SkillShown` | crates/rupi-compat/src/skill.rs:250-302 | a printed skill in its directory is what a scan of the location finds, beside a file that is none |
| `SkillScan.Scanner.Collect` | crates/rupi-compat/src/skill.rs:435-509 | one candidate adds a skill or its warnings, first found wins |
| `SkillScan.Scanner.WalkDirectory` | crates/rupi-compat/src/skill.rs:376-433 | the recursive walk absorbs the events of the directory, in name order, and ends on every graph |
| `SkillScan.Scanner.WalkEntry` | crates/rupi-compat/src/skill.rs:405-432 | one entry: a skill directory, a directory to go into, a candidate file, or nothing |
| `SkillScan.Scanner.Visit` | crates/rupi-compat/src/skill.rs:330-374 | one location or declared path |
| `SkillScan.Discover` | crates/rupi-compat/src/skill.rs:250-302 | all places in their order |
| `SkillResults.ScanIs` | crates/rupi-compat/src/skill.rs:481-508 | whatever was visited, the skills kept are the first of their names, the names are theirs, and the duplicate warnings are one for each other skill, naming the first |
| `SkillResults.WinnersAre` | crates/rupi-compat/src/skill.rs:481-508 | kept names are pairwise different and are all names there are; kept and warned-about skills add up |
| `SkillResults.WinnersAreFirst` | crates/rupi-compat/src/skill.rs:481-495 | the kept skill of a name is the first that has it |
| `SkillResults.NamesAreDistinct` | crates/rupi-compat/src/skill.rs:250-302 | the same over a whole scan of any disk |
| `SkillResults.VisitsAreReached` | crates/rupi-compat/src/skill.rs:376-433 | a walk comes by exactly what ways down through readable directories without a skill file lead to, within the depth bound |
| `SkillResults.SkillFileIs` | crates/rupi-compat/src/skill.rs:415-421 | a directory is a skill if and only if its entry of that name leads to a file |
| `SkillResults.PlaceVisitsAre` | crates/rupi-compat/src/skill.rs:323-374 | a location contributes what its walk reaches; a declared path is a skill, a walk or a file, or is reported as missing |
| `SkillResults.AllVisitsOfConcat` | crates/rupi-compat/src/skill.rs:250-302 | places are visited in their order |
| `SkillResults.EntriesVisitsOfConcat` | crates/rupi-compat/src/skill.rs:405-432 | and the entries of a directory in theirs |
| `SkillResults.BottomIsReported` | crates/rupi-compat/src/skill.rs:385-390 | the depth warning is given if and only if a way down is one directory longer than the bound |
| `SkillResults.CyclesAreReported` | crates/rupi-compat/src/skill.rs:385-415 | a link back to a directory above is always reported |
| `SkillResults.SortedIsAscending` | crates/rupi-compat/src/skill.rs:401-404 | sorting gives ascending names |
| `SkillResults.SortedIsUnique` | crates/rupi-compat/src/skill.rs:401-404 | sorting distinct names does not depend on their order |
| `SkillResults.ScanIgnoresOrder` | crates/rupi-compat/src/skill.rs:401-405 | skills, warnings and their order are the same for every order of every directory |
| `Xml.EscapedIsMapped` | crates/rupi-compat/src/skill.rs:227-234 | the five replacements one behind the other are one map over the characters |
| `Xml.EscapedHasNoMarkup` | crates/rupi-compat/src/skill.rs:227-234 | no angle bracket or quote is left |
| `Xml.DecodedIsOriginal` | crates/rupi-compat/src/skill.rs:227-234 | an entity decoder gives the original back |
| `Arguments.ParseArguments` | crates/rupi-compat/src/prompt.rs:363-393 | the character loop is the recursive machine |
| `Arguments.ReadPrints` | crates/rupi-compat/src/prompt.rs:349-393 | every string is made of spaces, bare characters, quoted stretches and perhaps an unclosed one |
| `Arguments.ReadOfPrint` | crates/rupi-compat/src/prompt.rs:349-393 | in one way |
| `Arguments.ParseIsEval` | crates/rupi-compat/src/prompt.rs:363-393 | the machine computes the arguments those items mean |
| `Arguments.ArgumentsKeepText` | crates/rupi-compat/src/prompt.rs:363-393 | no argument is empty, and together they are the input without quoting marks and unquoted space |
| `Arguments.SpelledAreRead` | crates/rupi-compat/src/prompt.rs:363-393 | arguments spelled in any mix of bare and quoted stretches, with space between, come back; an empty quoted one does not |
| `Arguments.RoundTrip` | crates/rupi-compat/src/prompt.rs:363-393 | every list of non-empty arguments over any characters is what some string reads as |
| `InputRows.PushPaints` | crates/rupi-tui/src/line.rs:62-71 | merging or not, a push paints its text behind the rest |
| `InputRows.PushKeepsCompact` | crates/rupi-tui/src/line.rs:62-71 | neighbouring segments never share a role, and no pushed segment is empty |
| `InputRows.Classify` | src/interactive.rs:1010-1027 | the search loop is the recursive search |
| `InputRows.ClassifiedAreRuns` | src/interactive.rs:1010-1027 | for any tokens the runs are in order, disjoint, inside the line, and hold the text of their tokens |
| `InputRows.ClassifyIsExact` | src/interactive.rs:998-1027 | with only blanks between tokens that start with none, each is found where it really is |
| `InputRows.SegmentRow` | src/interactive.rs:1080-1099 | each character of a row has the role of the run over it, or that of plain text |
| `InputRows.InputRows` | src/interactive.rs:1041-1072 | each row is painted as its decoration and its match say |
| `InputRows.RowIsKept` | src/interactive.rs:1031-1035 | a painted row reads as the row if and only if it starts with its decoration, whatever the classifier reports |
| `InputRows.DecorationIs` | src/interactive.rs:1041-1052 | the first row has the prompt in front, every other one spaces |
| `InputRows.MatchesAdvance` | src/interactive.rs:1037-1040 | matched rows follow the buffer in order and paint no character twice |
| `InputRows.DisplayIsMatchedIff` | src/interactive.rs:1041-1072 | the rows in which a buffer is displayed are all matched with the characters they show if and only if no empty line but the first has text somewhere behind it |
| `InputRows.DisplayIsPaintedTruly` | src/interactive.rs:1041-1072 | when they are, each painted row has the roles of the runs over the characters it shows |
| `InputRows.EmptyLineLosesRow` | src/interactive.rs:1053-1068 | the buffer of three lines whose middle one is empty, whose last row loses its roles |

## Left out

- Files, terminals, signals, the network, processes and clocks. The transport of the line reader is a
  list of outcomes chosen by the adversary, the disk of the skill scan a finite graph, elapsed time an input.
- `BoundedLines.ReadAll`: models a caller in truncating mode that retries; what a rejecting caller does
  next is its own affair, since the code asks it to close the transport. `reserve` and the error texts have no counterpart.
- `Package.ParsePrinted`: states the class of a late error for wrongly typed members and not its text; errors
  carry the number of unread bytes where the code prints a position, and the path parameter is dropped.
- Unknown escapes in front of a byte that is not ASCII (package.rs): the reader then stands inside a character; no printed text leads there.
- `Timestamps.IsToMillisReads`: seconds are decimal digits with an optional fraction, rounded exactly; other spellings that an
  `f64` parser accepts, `f64` rounding and `i64` overflow of absurd dates are not modelled.
- `PiExport.LossesAreCounted`: counters wrap as in a build without overflow checks; one with them stops instead. The sentences that
  report losses, the JSON text of entries and the order of the report lines are not modelled.
- `ActivePath.ActivePath`: starts from entries already parsed; JSON Lines parsing, damaged lines and what is made of entries afterwards are left out.
- `Substitute.SubstituteLoop`, `Arguments.ParseArguments`, `InputRows.SegmentRow`: positions count characters where the code counts UTF-8 bytes on character boundaries.
- `BrokenManifests.BrokenIsRead`: the members in front of the break are JSON; values the reader steps over though they are none, such as
  `[}]`, are not.
- `Redact.Candidates`: the scanned values of the environment are an input, under the conditions the scan puts on values; which names look
  secret is left out.
- `Redact.ApplyLiterals`: replacement counts are unbounded. The URL and authorization heuristics and the JSON walk are left out.
- `FrontmatterPrint.RoundTrip`: keys are non-empty, trimmed, free of colons and line breaks and do not start a comment, which is what a flat
  block can hold.
- `Sha256.PadIsInjective`: the recorded length wraps at 2^64 bits as in the code.
- `ContextPolicy.DerivedInWholeNumbers`, `ContextPolicy.ThresholdsAreMonotone`: fractions are exact reals, so `f64` rounding can move a threshold by one token; reason texts
  are reduced to the numbers in them.
- `ContextPolicy.CooldownsFit`: the runtime that carries actions out is an arbitrary choice for each step of whether history was rewritten.
- `SkillScan.Discover`: settings, package discovery and the choice of locations are inputs; directory entries that cannot be read one by one and the texts of
  I/O errors are dropped.
- `InputRows.InputRows`: the classifier is an arbitrary function and the width of the prompt an input; terminal colours and caret placement are left out.
  A rendered line is a value that is replaced where the source pushes onto it in place, so aliasing is not captured.
- `add_file` and prompt discovery, `TurnLoop`, the store, session records, replay, MCP, the editor, command-line flags, configuration and capability tables:
  not modelled.
