# notes_tool, modelled in Dafny

`notes_tool` audits and repairs a directory of notes.  A note is a text
file whose stem reads `SPHERE PROJECT Subject`; its text is a header of
`Name: value` lines, then a body.  The tool checks each note (filename
grammar, subject field, tags field, line ends, annex directory), prints
warnings or tag counts, and in `repair` mode offers the repairs one by one
on the console, with the answers yes, all, file, skip and quit.

This project models, as Dafny, the core of `notes_tool.cpp`:

- the answer words of the repair prompt (`answers.dfy`);
- the character classes, lower-casing and trimming the grammars rely on
  (`chars.dfy`), and the key order of `std::set`/`std::map` (`order.dfy`);
- the filename grammar of `parse_filename` (`filename.dfy`), the tag
  grammar `is_tag`/`parse_tags`/`print_tags` (`tags.dfy`), and the
  header-field grammar of `parse_header_field`, a direct reading of the
  ECMAScript regular expression `(\S+):(.*)\n?`, whose `.` matches any
  character but the four line terminators LF, CR, U+2028 and U+2029
  (`headerfield.dfy`);
- `Note::parse_text`, the `getline` loops that split a text into a header
  map and a body, and the serialisation that `Note::write` prints
  (`notetext.dfy`), with the round trip between them;
- the `Note` class with its load, tag parsing and write against a file
  store (`notes.dfy`);
- the nine checks and the messages they produce (`checks.dfy`);
- the three healers, as functions on note values and as methods that
  update a `Note` and write it (`healers.dfy`);
- the visitors: the tag-frequency counters of `accumulate_tags`, the
  warning and tag-printing visitors, and the interactive repair state
  machine of `HealerVisitor` with its scope answer carried across healers
  and files (`visitors.dfy`);
- `visit`: the split of a listing into directories and files, the pairing
  of each file with its annex directory, and the order and gating of the
  reports to the visitor (`walk.dfy`).

The file system is a map from path to text (`Notes.Disk`); a directory
listing is given as a sequence of entries with their kind, stem,
extension and emptiness; the console is a sequence of typed lines
(`Visitors.Console`).

## Model

| member | source | states |
|---|---|---|
| Answers.IsInputByChars | notes_tool.cpp:140-145 | a line answers `word` exactly when, compared character by character after lower-casing, it is the whole word or its first letter (both directions) |
| Answers.IsInputIgnoresCase | notes_tool.cpp:140-145 | lower-casing the typed line first changes no answer |
| Answers.AnswerLength | notes_tool.cpp:140-145 | an accepted line is one character long or as long as the word |
| Answers.AnswersExclusive | notes_tool.cpp:147-170 | no line is more than one of yes, all, file, skip and quit |
| Answers.DeclinesAreNoAnswer | notes_tool.cpp:147-170 | the empty line, `n` and `no` are none of the five answers |
| Answers.AnswerExamples | notes_tool.cpp:140-170 | `A`, `ALL`, `All`, `Y`, `FILE`, `s`, `Quit` are answers; `ye` and `yess` are not yes |
| Chars.Lower | notes_tool.cpp:142-143 | `to_lower` keeps the length and lower-cases every character in place |
| Chars.RunEnd | notes_tool.cpp:203 | the length of the leading `\S` run: no whitespace before it, whitespace at it |
| Chars.TrimLeft | notes_tool.cpp:282-285 | a suffix of the input that starts with non-whitespace; everything dropped is whitespace |
| Chars.TrimRight | notes_tool.cpp:282-285 | a prefix of the input that ends with non-whitespace; everything dropped is whitespace |
| Chars.Trim | notes_tool.cpp:282-285 | `boost::algorithm::trim` yields a string with no whitespace at either end |
| Chars.TrimTrimmed | notes_tool.cpp:282-285 | trimming a string with no whitespace at its ends returns it unchanged |
| Chars.TrimLeadingWs | notes_tool.cpp:282-285 | whitespace in front of a trimmed string is exactly what trimming removes |
| Order.LessTotal | notes_tool.cpp:257 | the string order of `std::set` and `std::map` keys is total |
| Order.LessTransitive | notes_tool.cpp:257 | the string order is transitive |
| Order.LeastExists | notes_tool.cpp:257 | a non-empty set of strings has a least element |
| Order.SortedElems | notes_tool.cpp:257 | iterating a `std::set` visits its elements in strictly ascending order, each once, and exactly them |
| Order.AscendingDistinct | notes_tool.cpp:257 | an ascending sequence repeats no element |
| Filename.SplitStem | notes_tool.cpp:203-208 | `Some` with the groups exactly when the stem matches `(\S+) (\S+) ([\S ]+)`, and those groups are the only match |
| Filename.MatchFirstRun | notes_tool.cpp:203 | in a match, the first group is the stem's leading `\S` run and the second the next run, each followed by one space |
| Filename.MatchUnique | notes_tool.cpp:203 | the regular expression matches a stem in at most one way |
| Filename.ParseWellFormed | notes_tool.cpp:199-222 | a stem that matches and whose subject has no space at either end parses to `#T1`, `#T2` and the subject |
| Filename.ParsedIsWellFormed | notes_tool.cpp:199-222 | a stem that parses is well-formed and the name holds its three parts |
| Filename.SubjectSpaceKeepsSphereAndProject | notes_tool.cpp:211-217 | when the subject starts or ends with a space, parsing fails yet sphere and project stay assigned and the subject does not |
| Filename.NoMatchLeavesNameEmpty | notes_tool.cpp:201-209 | when the stem does not match, parsing fails with all three parts unassigned |
| Filename.OtherWhitespaceFails | notes_tool.cpp:203-209 | a tab, CR, LF or other non-space whitespace anywhere in the stem makes it fail with an empty name |
| Filename.LeadingSpaceFails | notes_tool.cpp:203-209 | a stem starting with a space fails with an empty name |
| Filename.TrailingSpaceFails | notes_tool.cpp:216-217 | a stem ending with a space fails |
| Filename.DoubleSpaceAfterSphereFails | notes_tool.cpp:203-209 | two spaces after the sphere make the stem fail with an empty name |
| Filename.DoubleSpaceAfterProjectFails | notes_tool.cpp:211-217 | two spaces after the project fail, with sphere and project assigned |
| Filename.NoSubjectFails | notes_tool.cpp:203-209 | a sphere and a project without a subject fail with an empty name |
| Filename.NoProjectFails | notes_tool.cpp:203-209 | a single word fails with an empty name |
| Filename.ParseWords | notes_tool.cpp:199-222 | three words joined by single spaces parse to `#T1`, `#T2`, `R` when `R` has no space at its ends |
| Filename.ParseSimpleExample | fix_notes_tests.cpp:3-18 | `inro desktop The subject` gives `#inro`, `#desktop`, `The subject` |
| Filename.ParseAccentedExample | fix_notes_tests.cpp:20-29 | accented letters are ordinary subject characters |
| Filename.ParseAnyCharacterExample | fix_notes_tests.cpp:31-46 | punctuation and `#` are ordinary characters in every part |
| Filename.ParseMissingPartExamples | fix_notes_tests.cpp:48-88 | an empty stem, a missing subject or project, and the stem of `.md` fail |
| Filename.ParseSpaceExamples | fix_notes_tests.cpp:55-109 | a leading space, a trailing space and two spaces between sphere and project fail |
| Filename.ParseDoubleSpaceExamples | fix_notes_tests.cpp:90-102 | two spaces before the subject, or a subject of one space, fail |
| Filename.ParseOtherWhitespaceExamples | fix_notes_tests.cpp:111-130 | a tab, a CR or an LF inside the sphere fails |
| Tags.CountWs | notes_tool.cpp:231 | the whitespace count is zero exactly when the string has no whitespace |
| Tags.Count | notes_tool.cpp:232 | the count of `c` is zero exactly when `c` does not occur |
| Tags.IsTag | notes_tool.cpp:227-233 | a tag is at least two characters, starts with `#`, has no whitespace and no `#` after the first character (both directions) |
| Tags.TokensAreWords | notes_tool.cpp:240-243 | every word the stream extracts is non-empty and holds no whitespace |
| Tags.ParseTokens | notes_tool.cpp:243-247 | the word list gives a set exactly when every word is a tag, and then the set holds exactly those words |
| Tags.ParseTags | notes_tool.cpp:235-251 | succeeds exactly when every extracted word is a tag; then the output holds exactly the words; on failure the output is empty |
| Tags.PrintTags | notes_tool.cpp:253-268 | the result is the tags in ascending order joined by single spaces |
| Tags.SpacedDone | notes_tool.cpp:262-265 | erasing the last character of the loop's output leaves the single-space join |
| Tags.TokensSkipWs | notes_tool.cpp:243 | whitespace before the text changes no extracted word |
| Tags.TokensCollapse | notes_tool.cpp:243 | any non-empty run of whitespace separates two words, however long |
| Tags.TokensOfJoin | notes_tool.cpp:243 | extracting the words of a single-space join gives back the words |
| Tags.PrintParseRoundTrip | notes_tool.cpp:235-268 | for any set of tags, parsing the printed field succeeds with the same set |
| Tags.PrintNonTagFails | notes_tool.cpp:235-268 | a set holding a whitespace-free word that is no tag prints to a field that does not parse |
| Tags.PrintTagsNoTrailingSpace | notes_tool.cpp:253-268 | the printed field of a set of tags never ends with whitespace |
| Tags.IsTagExamples | fix_notes_tests.cpp:228-235 | `#inro` is a tag; `#`, the empty string, `#in#ro` and `#in ro` are not |
| Tags.ParseTwoTags | fix_notes_tests.cpp:213-226 | two tags separated by any run of whitespace parse to the set of both |
| Tags.ParseTagsRejectsBareWord | fix_notes_tests.cpp:204-211 | `inro` does not parse |
| Tags.ParseTagsRejectsLoneHash | fix_notes_tests.cpp:204-211 | `#inro #` does not parse |
| Tags.ParseTagsRejectsSecondHash | fix_notes_tests.cpp:204-211 | `#hash#hash` does not parse |
| Tags.ParseTagsEmpty | fix_notes_tests.cpp:197-202 | the empty field parses to the empty set |
| HeaderField.LastColon | notes_tool.cpp:275 | the greatest index below `n` holding a colon, at least 1; none when there is no such colon |
| HeaderField.ParseHeaderField | notes_tool.cpp:273-288 | a parsed name is a non-empty run of non-whitespace; a parsed body is trimmed and holds no line terminator |
| HeaderField.ParseHeaderFieldIsGreedyMatch | notes_tool.cpp:275-285 | succeeds exactly when some colon splits the line as `(\S+):(.*)\n?` requires, and then takes the greediest such colon, with the body trimmed |
| HeaderField.NoMatchNoField | notes_tool.cpp:275-279 | without a colon in the leading run that leaves a single line after it, no colon splits the line and parsing fails |
| HeaderField.GreediestSplitIsLastColon | notes_tool.cpp:275 | every split of the line lies at or before the last colon of the leading run |
| HeaderField.ParseFieldLine | notes_tool.cpp:273-288 | a printed `name: body` line parses back to the same name and body |
| HeaderField.ParsePrinted | notes_tool.cpp:273-288 | a printed field line with or without one final line feed parses back to its field |
| HeaderField.ParseHeaderFieldRejects | fix_notes_tests.cpp:132-145 | `""`, `"\n"`, `"   \n"`, `"# Subject"` and `"# Subject\n"` are no fields |
| HeaderField.ParseHeaderFieldSubject | fix_notes_tests.cpp:147-152 | `Sujet: le sujet` gives the name `Sujet` and the body `le sujet` |
| HeaderField.ParseHeaderFieldFinalLf | fix_notes_tests.cpp:154-156 | the final line feed after a printed field is ignored |
| HeaderField.ParseHeaderFieldTwoColons | fix_notes_tests.cpp:158-160 | `Sujet: avec deux : points` keeps the second colon in the body |
| HeaderField.ParseUnspacedField | notes_tool.cpp:275-281 | in a line without whitespace the name runs up to the last colon, colons included; the line is a field exactly when the body after that colon holds no line terminator |
| HeaderField.ParseHeaderFieldGreedyName | notes_tool.cpp:275-281 | `a:b:c` gives the name `a:b` and the body `c` |
| HeaderField.FieldLineRejected | notes_tool.cpp:275-279 | a printed `name: body` line whose body holds a line terminator (other than one final line feed) is no field |
| HeaderField.ParseHeaderFieldLineSeparator | notes_tool.cpp:275-279 | `Sujet: un` U+2028 `deux` is no field: `.` does not match the line separator |
| HeaderField.CarriageReturnRejects | notes_tool.cpp:275-279 | a carriage return after the colon that ends the leading run makes the line no field |
| NoteText.LineEnd | notes_tool.cpp:328 | the index of the first line feed, or the length when there is none; no line feed before it |
| NoteText.Lines | notes_tool.cpp:328 | a text yields no line exactly when it is empty |
| NoteText.JoinLines | notes_tool.cpp:345-359 | lines each followed by a line feed: empty exactly when there are no lines, and never unterminated |
| NoteText.GetLineNext | notes_tool.cpp:328 | a `getline` on a stream with lines pending succeeds with the next line; the stream stays good after the last line exactly when it was terminated |
| NoteText.GetLineEnd | notes_tool.cpp:358 | with nothing pending `getline` fails, and empties the line only when the stream was still good |
| NoteText.ReadLine | notes_tool.cpp:328 | one `getline`: the next pending line, or failure leaving the line as the stream state dictates |
| NoteText.FirstLine | notes_tool.cpp:325-328 | the first `getline` from a text holds its first line, or fails on an empty text |
| NoteText.NextLine | notes_tool.cpp:328 | the next `getline` after a successful one holds the next line of the text |
| NoteText.FirstPending | notes_tool.cpp:358 | the first `getline` of the second loop holds the first pending line |
| NoteText.NextPending | notes_tool.cpp:358 | the next `getline` of the second loop holds the next pending line |
| NoteText.ReadAtBoundary | notes_tool.cpp:328-340 | where the header run ends, the line variable holds the line that ended it and the lines after it are pending |
| NoteText.ParseLines | notes_tool.cpp:332 | one parse result per line |
| NoteText.FieldRun | notes_tool.cpp:328-340 | the leading run of lines that are fields: all fields before it, no field at it |
| NoteText.Fields | notes_tool.cpp:334 | storing well-formed fields yields a header of well-formed entries |
| NoteText.SplitText | notes_tool.cpp:320-360 | the header is well-formed and the body is empty or ends with a line feed |
| NoteText.HeaderOf | notes_tool.cpp:328-340 | the header is the fields of the leading run of field lines |
| NoteText.SerializeParts | notes_tool.cpp:400-407 | the printed text is the field lines in key order, an empty line when there is a header, then the body |
| NoteText.LinesOfJoin | notes_tool.cpp:328 | reading back joined lines gives the same lines, whatever follows |
| NoteText.JoinOfLines | notes_tool.cpp:358-359 | joining the lines of a text gives the text back, plus the final line feed it may lack |
| NoteText.FieldRunIs | notes_tool.cpp:328-340 | the run ends exactly at the first line that is no field |
| NoteText.FieldsOfEntries | notes_tool.cpp:334 | storing one field per key of `h` with its body builds `h` restricted to those keys |
| NoteText.SplitTextProducible | notes_tool.cpp:320-360 | every split has a well-formed header, a terminated body, and without a header a body whose first line is no field |
| NoteText.SerializeSplits | notes_tool.cpp:320-407 | parsing the printed text of a producible header and body gives them back |
| NoteText.SplitTextNoHeader | notes_tool.cpp:342-359 | when the first line is no field, there is no header and every line is in the body |
| NoteText.SplitTextBlankSeparator | notes_tool.cpp:347-359 | an empty line after a header run is dropped and the body is every line after it |
| NoteText.SerializedLines | notes_tool.cpp:400-407 | the lines of a printed note whose field names and bodies hold no line feed are its field lines, one empty line, then the body's lines |
| NoteText.BrokenFieldLost | notes_tool.cpp:320-407 | a field printed on one line that does not parse back (its body holds a CR or a line or paragraph separator) ends the header run, so its name is missing from the reparsed header |
| NoteText.SerializedFields | notes_tool.cpp:400-402 | the printed field lines parse back to the header map |
| NoteText.RoundTrip | notes_tool.cpp:320-407 | parsing what was printed from a parsed text gives the same header and body |
| NoteText.WriteIdempotent | notes_tool.cpp:393-407 | printing a note again after reloading it prints the same text |
| NoteText.FieldsKeys | notes_tool.cpp:334 | a name is in the header exactly when some parsed field has it |
| NoteText.FieldsLastWins | notes_tool.cpp:334 | the stored body of a name is the one of its last field |
| NoteText.SplitFieldBlock | notes_tool.cpp:320-360 | field lines, an empty line and a body: the header holds the fields, the last of a name winning, and the body is kept as it is |
| NoteText.SplitHeaderOnly | notes_tool.cpp:320-360 | a text of terminated field lines only gives an empty body |
| NoteText.SplitUnterminatedLastField | notes_tool.cpp:328-356 | a last field line without a line feed is stored in the header and also copied into the body |
| NoteText.SplitTextAllFields | notes_tool.cpp:328-359 | when every line is a field, the body is empty unless the last line lacks its line feed, and then it is that line |
| NoteText.SplitEmptyTexts | fix_notes_tests.cpp:163-176 | `""` and `"\n"` give no header and the body `"\n"` |
| NoteText.SplitTwoFieldsExample | fix_notes_tests.cpp:178-195 | the two-field note gives both entries and the body `Le corps\nest ici.\n` |
| Notes.TagsOf | notes_tool.cpp:235-251 | the tags `::parse_tags` leaves are all tags |
| Notes.HeaderTags | notes_tool.cpp:381-390 | the tags read from the header are all tags, and none without a tags field |
| Notes.NoteOf | notes_tool.cpp:298-306 | the loaded note keeps file and text, takes its name from the stem, has a well-formed header, a terminated body, and only tags |
| Notes.Reloaded | notes_tool.cpp:298-407 | reloading a written note keeps its file and name |
| Notes.LoadedIsCoherent | notes_tool.cpp:298-306 | a freshly loaded note is coherent |
| Notes.ReloadCoherent | notes_tool.cpp:298-407 | reloading a coherent note after writing it changes nothing but its text |
| Notes.LoadText | notes_tool.cpp:363-379 | the text is read exactly when the file exists and is not empty, and is its contents |
| Notes.Disk.Put | notes_tool.cpp:395 | writing a file replaces its contents and nothing else |
| Notes.Note.constructor | notes_tool.cpp:298-306 | the new note is the one `NoteOf` describes |
| Notes.Note.ParseText | notes_tool.cpp:320-360 | the header and body become the split of the text; other fields are unchanged |
| Notes.Note.ParseTags | notes_tool.cpp:381-390 | with a tags field the tags become those parsed from it; otherwise they stay; nothing else changes |
| Notes.Note.Write | notes_tool.cpp:393-407 | the note's file now holds its printed header and body |
| Notes.Print | notes_tool.cpp:400-407 | the streamed text is the serialisation of header and body |
| Notes.PrintFields | notes_tool.cpp:400-403 | the first loop streams one field line per entry, in key order |
| Notes.ReadText | notes_tool.cpp:320-360 | the two loops of `parse_text` produce the split of the text |
| Notes.ReadHeader | notes_tool.cpp:325-340 | the first loop builds the header of the leading field run and stops on the line that ended it |
| Notes.FirstBodyLine | notes_tool.cpp:342-356 | the line that ended the run goes into the body when there is no header or it is not blank |
| Notes.ReadBody | notes_tool.cpp:342-359 | the body is that first line, if kept, then every pending line |
| Notes.ReadLines | notes_tool.cpp:358-359 | the second loop appends every pending line with a line feed |
| Notes.ReloadAfterWrite | notes_tool.cpp:298-407 | reloading a note after writing it gives back the same name, header, body and tags |
| Checks.HasSubjectField | notes_tool.cpp:512-530 | passes exactly when the header has the subject field |
| Checks.HeaderSubject | notes_tool.cpp:526-532 | the subject field's value when present, empty otherwise |
| Checks.NameSubject | notes_tool.cpp:548-561 | the filename's subject when assigned, empty otherwise |
| Checks.MatchingSubjects | notes_tool.cpp:539-559 | fails exactly when both subjects exist and differ |
| Checks.NonEmptyAnnex | notes_tool.cpp:568-584 | passes exactly when there is no annex or the annex is not empty |
| Checks.Extension | notes_tool.cpp:586-596 | passes exactly when the extension is `.md` |
| Checks.FilenameFormat | notes_tool.cpp:598-609 | passes exactly when the stem parses |
| Checks.HasTagsField | notes_tool.cpp:611-625 | passes exactly when the header has the tags field |
| Checks.Eol | notes_tool.cpp:627-637 | passes exactly when the text holds no carriage return |
| Checks.FilenameTag | notes_tool.cpp:639-654 | passes exactly when the filename tag is absent or among the note's tags |
| Checks.SphereFilenameTag | notes_tool.cpp:656-662 | passes exactly when there is no sphere or it is among the tags |
| Checks.ProjectFilenameTag | notes_tool.cpp:664-670 | passes exactly when there is no project or it is among the tags |
| Checks.CheckMessages | notes_tool.cpp:897-912 | the nine messages, one per check `WarningVisitor::file` runs |
| Checks.Failing | notes_tool.cpp:820-828 | exactly the non-empty messages: each warning is a non-empty message, every non-empty message is a warning, and there are none exactly when every message is empty |
| Checks.FailingConcat | notes_tool.cpp:820-828 | checks run one after the other warn in that order: the warnings of two runs are those of the first, then those of the second |
| Checks.FailingSplit | notes_tool.cpp:820-828 | the warnings of nine checks are each check's own warning, if it fails, in order |
| Checks.Warnings | notes_tool.cpp:893-915 | at most nine warnings, each the non-empty message of one of the checks, and every check that fails has its message among them |
| Checks.WarningsInOrder | notes_tool.cpp:893-915 | the warnings are the messages of the failing checks in the order `WarningVisitor::file` runs them: annex, extension, filename, subject field, tags field, subject match, line ends, sphere tag, project tag |
| Checks.NoWarningsIffAllPass | notes_tool.cpp:893-915 | a note draws no warning exactly when all nine conditions hold |
| Checks.WellNamedNoteWarnings | notes_tool.cpp:893-915 | a well-named note with matching subject and tags, no annex, `.md` and no CR draws no warning |
| Checks.MismatchExample | notes_tool.cpp:539-559 | a subject field differing from the filename's subject gives `subject mismatch` while the field check passes |
| Checks.NoSubjectNoMismatch | notes_tool.cpp:548-552 | a stem that does not parse leaves no subject, so the mismatch check passes |
| Healers.Message | notes_tool.cpp:698-782 | a healer's message is empty exactly when it is satisfied |
| Healers.EraseCr | notes_tool.cpp:786-787 | the result holds no carriage return, and a string without one is unchanged |
| Healers.EraseCrKeepsOthers | notes_tool.cpp:786-787 | every other character is kept as often as it occurs |
| Healers.HealEol | notes_tool.cpp:784-789 | after the line-end repair the healer is satisfied, the body has no CR, the body keeps its other characters, and file, name, header and tags are unchanged |
| Healers.HealSubject | notes_tool.cpp:704-708 | after the subject repair the healer is satisfied, the subject field is the filename's subject (empty when none), and nothing else changes |
| Healers.HealTags | notes_tool.cpp:752-758 | after the tags repair the healer is satisfied, the tags gain sphere and project, the tags field is their printed form, and nothing else changes |
| Healers.Heal | notes_tool.cpp:704-789 | every repair leaves its healer satisfied and keeps file and name |
| Healers.UnsatisfiedTagsHaveNames | notes_tool.cpp:722-733 | the tags healer is only unsatisfied when the stem parsed, so all three name parts exist |
| Healers.HealTagsKeepsSubject | notes_tool.cpp:704-758 | the tags repair does not undo a satisfied subject |
| Healers.HealSubjectSatisfiedNoOp | notes_tool.cpp:704-708 | repairing a satisfied subject leaves the header unchanged |
| Healers.NamePartsAreWords | notes_tool.cpp:199-222 | sphere and project are non-empty runs of non-whitespace and the subject is trimmed; when the stem holds no line terminator, neither does any part |
| Healers.PrintedTagsFieldGood | notes_tool.cpp:756 | the printed tags field is trimmed and on one line, and is a valid field body exactly when no tag holds a line terminator |
| Healers.SerializeNoCr | notes_tool.cpp:400-407 | a note printed from a parsed header and a body without CR holds no CR |
| Healers.EolHealDurable | notes_tool.cpp:784-789 | after the line-end repair writes the note, the reloaded note is satisfied |
| Healers.EolHealRevealsHeader | notes_tool.cpp:784-789 | a CR-terminated field line loads as body only; after the repair the reload finds a header, so the reloaded note differs from the repaired one |
| Healers.HealSubjectCoherent | notes_tool.cpp:704-708 | the subject repair keeps a coherent note coherent exactly when the filename's subject holds no line or paragraph separator |
| Healers.SubjectHealDurable | notes_tool.cpp:704-708 | reloading the written note gives the repaired note back, and the healer stays satisfied, exactly when the subject holds no line or paragraph separator |
| Healers.SubjectHealLost | notes_tool.cpp:704-708 | when the subject holds a line or paragraph separator the written subject line does not parse back: the reload has no subject field and the healer is unsatisfied again |
| Healers.HealTagsProducible | notes_tool.cpp:752-758 | the tags repair keeps the header and body in a form parsing can produce exactly when sphere and project hold no line or paragraph separator |
| Healers.HealTagsCoherent | notes_tool.cpp:752-758 | the tags repair keeps a coherent note coherent exactly when sphere and project hold no line or paragraph separator |
| Healers.CoherentTagsOneLine | notes_tool.cpp:381-390 | the tags parsed from a loaded note hold no line terminator |
| Healers.HealTagsFieldGood | notes_tool.cpp:752-758 | the repaired header is well-formed exactly when sphere and project hold no line or paragraph separator |
| Healers.TagsFieldReparses | notes_tool.cpp:752-758 | a tags field printed from a set of tags parses back to that set |
| Healers.TagsHealDurable | notes_tool.cpp:752-758 | reloading the written note gives it back exactly when sphere and project hold no line or paragraph separator; the healer stays satisfied exactly when, for a filename that matches, they hold none |
| Healers.TagsHealBroken | notes_tool.cpp:752-758 | when sphere or project holds a line or paragraph separator the written tags line does not parse back: the reload has no tags field and no tags |
| Healers.TagsHealLost | notes_tool.cpp:752-758 | a sphere or project that is no tag (`#a#b`, `#b#c`) is still written into the tags field; the reload parses no tags at all and the healer is unsatisfied again; header and body survive the reload when the name parts are on one line |
| Healers.MissingSphereUnsatisfied | notes_tool.cpp:722-733 | a parsed stem whose sphere is not among the tags leaves the tags healer unsatisfied |
| Healers.ReloadedTagsLost | notes_tool.cpp:381-390 | a tags field that does not parse reloads with the same header and body and no tags |
| Healers.HealEolNote | notes_tool.cpp:784-789 | the note becomes `HealEol` of itself and its file holds the printed note |
| Healers.HealSubjectNote | notes_tool.cpp:704-708 | the note becomes `HealSubject` of itself and its file holds the printed note |
| Healers.HealTagsNote | notes_tool.cpp:752-758 | the note becomes `HealTags` of itself and its file holds the printed note |
| Healers.HealNote | notes_tool.cpp:1002 | the note becomes `Heal(k, …)` of itself and its file holds the printed note |
| Healers.RepairableHasNames | notes_tool.cpp:722-755 | a note the tags healer would repair has both name parts, so the repair's dereferences are safe |
| Healers.HealEolWritesText | notes_tool.cpp:784-789 | the text the line-end repair writes is never empty, so the file can be loaded again |
| Visitors.Inc | notes_tool.cpp:868-876 | `++m[k]` adds `k` to the keys, raises its count by one and leaves every other count alone |
| Visitors.IncAll | notes_tool.cpp:870-876 | counting a set of keys raises each of them by exactly one and no other |
| Visitors.Accumulate | notes_tool.cpp:865-877 | the note's sphere and project each gain one count; every other tag that is not (by then) a known sphere or project gains one count, and only those keys are added |
| Visitors.OwnNameNotOther | notes_tool.cpp:865-877 | a tag equal to the note's own sphere or project is never counted as an other tag |
| Visitors.CountsDependOnOrder | notes_tool.cpp:870-876 | the other-tag counts depend on the order the notes are loaded in: a tag counted before it becomes a sphere keeps its count, one seen after is not counted |
| Visitors.Console.Prompt | notes_tool.cpp:996-997 | one prompt is shown and the next typed line is read and consumed (the empty line once the console is exhausted) |
| Visitors.Ask | notes_tool.cpp:994-998 | under the scope `all` or `file` nothing happens; otherwise the answer becomes the next typed line, that line is consumed and one prompt is counted; files are never touched |
| Visitors.Respond | notes_tool.cpp:1000-1009 | the healer repairs exactly when the answer is yes, file or all, and then leaves the healer satisfied and writes the printed note; it signals quit exactly for a quit answer that does not accept; otherwise note and files are unchanged |
| Visitors.HealAt | notes_tool.cpp:973-1012 | `heal<H>` keeps the note's file and name; quit means the answer was quit and nothing was repaired; either note and files are unchanged, or the healer was unsatisfied, the note is now `Heal(k, n)` with the healer satisfied, and the note's file holds its printed text |
| Visitors.HealAtSkip | notes_tool.cpp:975-978 | under `skip` a healer reports true and changes nothing, without a prompt |
| Visitors.HealAtSatisfied | notes_tool.cpp:980-1011 | a satisfied healer reports false and changes nothing, without a prompt |
| Visitors.HealAtScoped | notes_tool.cpp:994-1005 | under `all` or `file` no prompt is shown, the note ends satisfied, and the healer reports true exactly when it was unsatisfied |
| Visitors.HealAtPrompts | notes_tool.cpp:987-1011 | with no scope, an unsatisfied healer prompts once and acts on the typed line: repair on yes/file/all, quit on quit, nothing otherwise |
| Visitors.OtherAnswerDeclinesOnce | notes_tool.cpp:1000-1011 | an answer that is none of the words declines this repair only: the next unsatisfied healer prompts again |
| Visitors.RepairFile | notes_tool.cpp:943-969 | `HealerVisitor::file`: a halt leaves the answer quit; a file that goes on leaves the scope cleared or `all` |
| Visitors.RepairLoaded | notes_tool.cpp:947-961 | after the first load, the first loaded note is the one given, and the same halt and scope facts hold |
| Visitors.Reload | notes_tool.cpp:949-952 | the reload fails exactly when the file cannot be read, and otherwise appends the note as read now |
| Visitors.RepairRest | notes_tool.cpp:954-961 | the subject and tags healers load nothing and never fail to load; halt leaves quit, otherwise the scope is cleared or `all` |
| Visitors.EndOfFile | notes_tool.cpp:958-961 | the scope is cleared unless it is `all`; console, prompts and files are kept |
| Visitors.AllSuppressesPrompts | notes_tool.cpp:994-998 | once the scope is `all`, a whole file is repaired with no prompt, no line read, no quit, and the scope stays `all` |
| Visitors.SkipStopsLaterHealers | notes_tool.cpp:954-961 | after `skip` at the subject healer, the tags healer neither prompts nor writes and the scope is cleared |
| Visitors.SkipAtEolSkipsFile | notes_tool.cpp:947-961 | after `skip` at the line-end healer there is no reload, no later prompt or write, and the scope is cleared |
| Visitors.SkipStopsRest | notes_tool.cpp:954-961 | under `skip` the rest of the file changes nothing but clearing the scope |
| Visitors.EolRepairReloads | notes_tool.cpp:949-952 | an accepted line-end repair makes the later healers see the note as reloaded from the repaired text, with no carriage return left |
| Visitors.ReloadNeverFails | notes_tool.cpp:949-952 | the reload after the line-end repair never fails to load |
| Visitors.RepairLoadErrorOnlyAtStart | notes_tool.cpp:943-969 | repairing a file fails to load exactly when its text cannot be read at the start |
| Visitors.NoteWarnings | notes_tool.cpp:893-915 | one warning line per failing check of the note, in check order |
| Visitors.Visitor.AccumulateTags | notes_tool.cpp:865-877 | the counters become `Accumulate` of the old counters and the note; nothing else changes |
| Visitors.Visitor.LoadNote | notes_tool.cpp:811-818 | no note exactly when the file cannot be read; otherwise a fresh note built from the text, whose tags are counted |
| Visitors.Visitor.Directory | notes_tool.cpp:885-891 | every visitor lets the walk go on; the warning visitor adds an orphan-directory warning; the call is recorded |
| Visitors.Visitor.Audit | notes_tool.cpp:893-915 | `WarningVisitor::file`: never halts; a load error changes nothing; otherwise the note is counted and one warning per failing check is appended |
| Visitors.Visitor.HealStep | notes_tool.cpp:973-1012 | the method agrees with `HealAt` on result, quit, note and session |
| Visitors.Visitor.Unsatisfied | notes_tool.cpp:987-1011 | the method agrees with `Respond` after `Ask` |
| Visitors.Visitor.Answered | notes_tool.cpp:1000-1011 | the method agrees with `Respond` |
| Visitors.Visitor.HealFile | notes_tool.cpp:943-969 | the method agrees with `RepairFile`, and the counters have counted every note it loaded, in order |
| Visitors.Visitor.RepairLoadedOf | notes_tool.cpp:947-961 | the method agrees with `RepairLoaded`, counters included |
| Visitors.Visitor.ReloadOf | notes_tool.cpp:949-952 | the method agrees with `Reload`, counters included |
| Visitors.Visitor.RepairRestOf | notes_tool.cpp:954-961 | the method agrees with `RepairRest` |
| Visitors.Visitor.File | notes_tool.cpp:893-969 | each visitor's `file`: the call is recorded; the warning and tag-printing visitors never halt, prompt or write; the healer agrees with `RepairFile`; under `all` nothing halts or prompts |
| Visitors.CountOthers | notes_tool.cpp:870-876 | the loop over the note's tags in set order counts each other tag once |
| Visitors.CountTagsIsIncAll | notes_tool.cpp:870-876 | counting distinct tags one by one equals counting their set, whatever the order |
| Visitors.AccumulateSnoc | notes_tool.cpp:811-818 | counting one more loaded note at the end is one more `Accumulate` |
| Walk.DirsOfMembers | notes_tool.cpp:441-450 | the directories kept are exactly the directory entries whose filename is not ignored |
| Walk.FilesOfMembers | notes_tool.cpp:441-450 | the files kept are exactly the regular-file entries whose filename is not ignored |
| Walk.Partition | notes_tool.cpp:441-450 | the first loop gives the kept directories and files, in listing order |
| Walk.FirstStem | notes_tool.cpp:461-463 | `find_if`: the first directory with the stem, or the end when there is none |
| Walk.FindStem | notes_tool.cpp:461-463 | the loop finds the index `FirstStem` characterises |
| Walk.Erase | notes_tool.cpp:465-469 | `erase` removes one element: one shorter, the same multiset less that element |
| Walk.Pair | notes_tool.cpp:455-471 | one file per regular file, and no more directories left than there were |
| Walk.PairKeepsFiles | notes_tool.cpp:455-471 | each file keeps the path, stem and extension of its entry, and an annex it takes has its stem |
| Walk.PairConserves | notes_tool.cpp:455-471 | no directory is lost or duplicated: those left over and the annexes taken make up the directories |
| Walk.LeftoverMeansPaired | notes_tool.cpp:455-471 | a directory left over whose stem some file has means that file already took an annex |
| Walk.RestShrinks | notes_tool.cpp:455-471 | the directories left over are among the kept directories |
| Walk.TakeAnnex | notes_tool.cpp:457-469 | one turn of the loop gives the file with its annex and the directories left |
| Walk.PairFiles | notes_tool.cpp:455-471 | the loop gives the pairing `Pair` describes |
| Walk.GatedAfter | notes_tool.cpp:473-489 | reports that all let the walk go on, put before a gated run of calls, keep it gated |
| Walk.OrphanWarnings | notes_tool.cpp:474-476 | one orphan-directory warning per leftover directory, in order |
| Walk.LoadedNotes | notes_tool.cpp:479-489 | at most one note per file: the files whose text loads, in order; a load failure skips the file and the walk goes on |
| Walk.RepairWalk | notes_tool.cpp:479-491 | the repair walk over an empty file list succeeds with session and counters unchanged; otherwise each file is repaired from the session the one before left, until one answers quit |
| Walk.RepairWalkUnderAll | notes_tool.cpp:479-491 | under the scope `all` the repair walk goes through every file and keeps the scope, the console and the prompt count |
| Walk.LoadedNotesStep | notes_tool.cpp:479-489 | one more file adds its note to the loaded notes exactly when its text loads |
| Walk.NotesWarningsSnoc | notes_tool.cpp:479-489 | one more loaded note adds its warnings after those of the notes before it |
| Walk.ReportDirs | notes_tool.cpp:473-476 | every leftover directory is reported in order and lets the walk go on; the warning visitor adds one orphan-directory warning per directory, in order; scope and counters are unchanged |
| Walk.ReportFiles | notes_tool.cpp:478-489 | the files are reported in order until one stops the walk; a checking visitor goes through all, leaves scope, console and files unchanged, counts the tags of the loaded notes and (the warning visitor) appends their warnings; the repair visitor ends where `RepairWalk` ends; under `all` nothing stops it |
| Walk.WalkedAll | notes_tool.cpp:479-491 | once every file is reported, the walk state is the one `ReportFiles` promises, for checking and repair visitors alike |
| Walk.ReportFile | notes_tool.cpp:481-488 | one file reported: the call is recorded, and the walk state moves on by that file, or the repair walk ends here on quit |
| Walk.CheckFile | notes_tool.cpp:481-488 | a checking visitor reports one file without stopping, keeps scope, console and files, and the counters and warnings move on by that file's note |
| Walk.CheckedStep | notes_tool.cpp:481-488 | counting and warning one more loaded note gives the counters and warnings of the loaded notes one file further |
| Walk.CheckGate | notes_tool.cpp:483 | a checking visitor's `file` never stops the walk, keeps scope, console and files, and counts (and warns about) the note when its text loads |
| Walk.RepairStep | notes_tool.cpp:481-488 | the repair visitor's `file` on one file: the warnings are unchanged, and the walk is the rest of `RepairWalk`, or ends here on quit |
| Walk.Plan | notes_tool.cpp:439-471 | the first two loops give the pairing of the kept files and directories, and the reports in order |
| Walk.Visit | notes_tool.cpp:437-492 | the visitor sees the leftover directories, then the files with their annexes, in order, up to the first that stops the walk; a checking visitor succeeds, leaves scope, console and files unchanged, counts the tags of the loaded notes, and (the warning visitor) prints the orphan-directory warnings then each loaded note's warnings; the repair visitor ends with the result, session and counters of `RepairWalk`; under `all` nothing stops it |

## Left out

- File I/O streams: a file is read through `LoadText` on the map of paths to texts. A missing path or an empty text cannot be loaded, because streaming zero characters sets `failbit` and the stream throws.
- Write failures are not modelled: `Note::write` always succeeds and replaces the file's text.
- `load_ignore` and the regular expressions of `.notesignore` are not modelled. The ignore patterns are given as the set of filenames they match, beside the fixed `\.notesignore` pattern.
- `boost::filesystem` is not modelled: the directory listing, each entry's kind, its stem and extension, and whether a directory is empty are given as data.
- Locale: whitespace is the six characters of the C locale, and lower-casing is ASCII only. Wide-character classification beyond that is not modelled.
- Console output is kept only as the warning lines and the prompt count. Left out: the text of `REPAIRED!`, the prompt's wording, `print_tags` with its `setw` column formatting, and the `<no tags>` line.
- Console input: every typed line is taken to end with a newline, and a console with no lines left reads the empty line.
- The message of an `IOStreamError` that `visit` prints on `cerr` is not modelled. The load failure itself is modelled, and the walk goes on after it.
- The `directory` gate of `visit` is modelled, but it never stops the walk: every visitor's `directory` returns true.
- `quit_signal` is modelled as the `Halt` result of a file, not as an exception.
- `user_main`, `main`, `help`, the argument parsing, `normal_main`, `print_tags_main` and `heal_main` are not modelled: each only chooses a visitor and calls `visit(".")`.
- The unit-test driver of `fix_notes_tests.cpp` is not modelled. Its test cases are stated as example lemmas.
- Healers.TagsHealLost: promises that header and body survive the reload only when sphere and project hold no line or paragraph separator; otherwise the tags line is itself lost, as `Healers.TagsHealBroken` states.
- Visitors.Visitor.File: for the tag-printing visitor it states the counters and the result, not the note object it builds and drops.
