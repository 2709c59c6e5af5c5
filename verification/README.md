# Swift proposal header parser, in Dafny

This project models the header parser of `swift-proposal-analyzer` and the value types it produces. The parser reads the first lines of a Swift Evolution proposal and builds a `Proposal` record from them: title, `SE-NNNN` identifier, authors, review status and file name. Finally it sorts the records by identifier.

Everything is a pure function over `seq<char>`. Each place where the Swift code stops the process becomes an explicit `ParseError` in a `Result`:

- `fatalError` for an unknown status or version;
- force-unwrapping a missing header line;
- slicing past the end of a line;
- `Int(...)!` on a non-numeric identifier;
- `lines[0]` on an empty file.

Modules and the files that hold them:

- `Results`, `Errors` (results.dfy): `Option`, `Result` and `ParseError`.
- `Strings` (strings.dfy) models the Foundation string operations the parser uses:
  - `hasPrefix`;
  - `localizedCaseInsensitiveContains`;
  - `trimmingCharacters(in:)`;
  - `components(separatedBy:)`;
  - `joined(separator:)`.
  
  Each comes with a reference characterisation: `IsTrimOf` for trimming, and an inverse for splitting.
- `Lines` (lines.dfy): `enumerateLines`, with round trips for LF and CR LF text.
- `Decimal` and `StringOrder` (decimal.dfy):
  - Swift's `Int(String)` over 64-bit `Int`, and integer interpolation;
  - `<` on `String` as lexicographic order, proved to be a strict total order that agrees with numeric order on equal-length digit strings.
- `Proposals` (proposal.dfy): `SwiftVersion`, `Status` (with `==`, `description` and the three fixed lists), the `Proposal` record, its `description`, and `number`.
- `Parser` (parser.dfy): `proposalLines`, the header scan, the field extractors, the two classification cascades, `proposalFrom`, and parsing a list of files.
- `Sorting` (sorting.dfy): the sort step of `parseProposals`.
- `Examples` (examples.dfy): the header of SE-0068 and a few other concrete documents.

Behaviour worth noting:

- The title is always the first line of the file, even when that line is blank (`Parser.swift:50`).
- A missing author line is a parse error, `MissingAuthorLine`. The Swift code force-unwraps `nil` there (`Parser.swift:77-78`), so there is no empty author list.
- A missing identifier line is likewise an error (`MissingIdentifierLine`).
- The title is `nameFromLine` of the whitespace-trimmed first line. It strips `#` and spaces from both ends (`Parser.swift:125-127`), so a trailing `#` is removed too (`Parser.NameFromClosedHeading`).
- Records are sorted by `seNumber` with string `<` (`Parser.swift:27-29`). The numeric suffix plays no part in the comparison. `Proposals.NumberOrderAgrees` shows that the two orders agree on canonical `SE-NNNN` identifiers. Swift's `sorted` is not documented as stable, so no order among equal identifiers is claimed.
- `versionFromString` returns `.v3_0_1` (`Parser.swift:195`), a case the `SwiftVersion` enumeration lacks. The model adds `V3_0_1`, displayed as `3.0.1`. `allItems`, `allImplemented` and `allAccepted` are kept exactly as listed, so none of them contains `Implemented(V3_0_1)`; `Proposals.StatusLists` states this.
- The parser passes `[Author]` values and `fileContents:` to an initialiser that takes `[String]` and has no such parameter. The model uses plain name strings and no file contents.

Failures surface in the order the Swift code would trap, as `Parser.ProposalFromIdentifierStage`, `Parser.ProposalFromAuthorStage` and `Parser.ProposalFromStatusStage` state:

1. an empty file;
2. the identifier line (missing, or shorter than 20 characters);
3. the author line (missing, or too short for its label);
4. the status line (missing, an unknown status, or an implemented status with an unknown version).

## Model

| member | source | states |
|---|---|---|
| Parser.ProposalLines | swift-proposal-analyzer.playground/Sources/Parser.swift:110-122 | the window is a prefix of the file's lines, of at most n lines (at least one when the file has any, even for n < 1); fewer than n lines means the whole file |
| Lines.SplitLines | swift-proposal-analyzer.playground/Sources/Parser.swift:113-120 | no enumerated line contains a line feed, and a text has no lines exactly when it is empty |
| Lines.SplitLinesTerminated | swift-proposal-analyzer.playground/Sources/Parser.swift:113-120 | round trip: LF-terminated lines are enumerated back exactly (a final LF adds no empty line) |
| Lines.SplitLinesCRLF | swift-proposal-analyzer.playground/Sources/Parser.swift:113-120 | CR LF counts as one terminator: CR LF-terminated text gives back the same lines |
| Lines.SplitLinesUnterminated | swift-proposal-analyzer.playground/Sources/Parser.swift:113-120 | a last line without a terminator is still enumerated: LF-terminated lines followed by an unterminated non-empty line give back all of them |
| Parser.ScanHeader | swift-proposal-analyzer.playground/Sources/Parser.swift:56-72 | each filled slot holds a line that starts with that slot's label |
| Strings.StartsWithConcat | swift-proposal-analyzer.playground/Sources/Parser.swift:57-71 | `hasPrefix` holds exactly when the string is the prefix followed by some remainder |
| Parser.ScanHeaderFindsLastMatches | swift-proposal-analyzer.playground/Sources/Parser.swift:56-72 | last occurrence wins: each of the four slots holds the last window line starting with its label, and is empty exactly when no line has that label |
| Parser.LabelsExclusive | swift-proposal-analyzer.playground/Sources/Parser.swift:57-71 | no line starts with both "* Author:" and "* Authors:"; the identifier and status labels exclude each other and both author labels |
| Parser.SlotIsLastLine | swift-proposal-analyzer.playground/Sources/Parser.swift:56-72 | a filled slot is the line at the window's unique last index carrying the label |
| Strings.Trim | swift-proposal-analyzer.playground/Sources/Parser.swift:92-96 | trimming removes exactly the maximal border drawn from the set: the result is a slice whose outside lies in the set and whose ends do not |
| Strings.TrimUnique | swift-proposal-analyzer.playground/Sources/Parser.swift:92-96 | the trim is unique, so trimming is fully determined by the reference characterisation |
| Strings.TrimIdempotent | swift-proposal-analyzer.playground/Sources/Parser.swift:92-96 | trimming a trimmed string changes nothing |
| Strings.TrimBorder | swift-proposal-analyzer.playground/Sources/Parser.swift:161-162 | a middle wrapped in characters of the set is recovered exactly by trimming |
| Parser.NameFromLine | swift-proposal-analyzer.playground/Sources/Parser.swift:125-127 | the title is the whitespace-trim of the trim of the line by `#` and space, both from both ends; so it has no whitespace at either end |
| Parser.NameFromHeading | swift-proposal-analyzer.playground/Sources/Parser.swift:125-127 | round trip: a Markdown heading of any level gives back its text ("# Sample" gives "Sample") |
| Parser.NameFromClosedHeading | swift-proposal-analyzer.playground/Sources/Parser.swift:125-127 | round trip: a closed heading such as "# Title #" gives back its text, the closing marks stripped too |
| Parser.SeNumberFromLine | swift-proposal-analyzer.playground/Sources/Parser.swift:130-134 | succeeds iff the line has at least 20 characters, else fails naming the line; the result is the trim of the 7 characters at offset 13 |
| Parser.SeNumberFromProposalLine | swift-proposal-analyzer.playground/Sources/Parser.swift:130-134 | round trip: "* Proposal: [" followed by a 7-character identifier yields that identifier, whatever follows |
| Strings.JoinLength | swift-proposal-analyzer.playground/Sources/Proposal.swift:142 | a join of n ≥ 1 parts is as long as the parts together plus n - 1 separators |
| Strings.Split | swift-proposal-analyzer.playground/Sources/Parser.swift:140 | splitting yields at least one piece and no piece contains a separator |
| Strings.SplitCount | swift-proposal-analyzer.playground/Sources/Parser.swift:140 | the number of pieces is the number of separators plus one |
| Strings.JoinSplit | swift-proposal-analyzer.playground/Sources/Parser.swift:140 | joining the pieces with the separator restores the string |
| Strings.SplitJoin | swift-proposal-analyzer.playground/Sources/Parser.swift:140 | splitting a join of separator-free pieces restores the pieces, in order and with duplicates |
| Parser.AuthorsFromLine | swift-proposal-analyzer.playground/Sources/Parser.swift:137-155 | succeeds iff the line is at least as long as the label offset (10 single, 11 multiple), else fails naming the line; the number of authors is the number of commas after the offset plus one |
| Parser.AuthorsFromEntries | swift-proposal-analyzer.playground/Sources/Parser.swift:137-155 | a line whose text after the label offset is comma-free entries joined by commas yields exactly one name per entry, each the name of its entry, in order |
| Parser.AuthorNames | swift-proposal-analyzer.playground/Sources/Parser.swift:143-152 | one name per entry, in entry order |
| Parser.AuthorName | swift-proposal-analyzer.playground/Sources/Parser.swift:143-151 | a name never contains a bracket and, when non-empty, has no whitespace at either end |
| Parser.AuthorNamePlain | swift-proposal-analyzer.playground/Sources/Parser.swift:148-151 | an entry without brackets names its whole trimmed text |
| Parser.AuthorNameBracketed | swift-proposal-analyzer.playground/Sources/Parser.swift:144-147 | an entry with a bracket names the trimmed text between its first bracket and the next bracket (or the end) |
| Parser.AuthorNameOfLink | swift-proposal-analyzer.playground/Sources/Parser.swift:144-147 | an entry holding a Markdown link, after bracket-free lead-in text, names the link text |
| Parser.SingleAuthorLink | swift-proposal-analyzer.playground/Sources/Parser.swift:137-155 | round trip: "* Author: [name](url)" yields exactly [name] |
| Parser.MultipleAuthorLinks | swift-proposal-analyzer.playground/Sources/Parser.swift:137-155 | round trip: "* Authors: " followed by links separated by ", " yields their names in order |
| Parser.StatusText | swift-proposal-analyzer.playground/Sources/Parser.swift:158-162 | the status text is the part after the 10-character label with whitespace and `*` trimmed from both ends |
| Parser.StatusFromLine | swift-proposal-analyzer.playground/Sources/Parser.swift:158-183 | a line shorter than 10 characters fails naming the line; a status line is classified by its trimmed status text |
| Parser.StatusFromText | swift-proposal-analyzer.playground/Sources/Parser.swift:164-182 | failures are an unknown status naming the line or an unknown version naming the text; a text containing "Accepted" is never implemented, deferred, rejected or withdrawn; an implemented status needs "Implemented" and no "Accepted" |
| Strings.ContainsCIAsLowerSlice | swift-proposal-analyzer.playground/Sources/Parser.swift:164-198 | case-insensitive containment holds exactly when the lower-cased phrase occurs as a slice of the lower-cased text |
| Parser.FirstMatch | swift-proposal-analyzer.playground/Sources/Parser.swift:164-182 | the index of the first phrase of a priority list that occurs in the text, or none when no phrase occurs |
| Parser.StatusFollowsRuleTable | swift-proposal-analyzer.playground/Sources/Parser.swift:164-182 | first match wins: the status is the rule of the first status phrase found, in the order Active Review, Awaiting Review, Accepted, Implemented, Deferred, Rejected, Withdrawn |
| Parser.UnknownStatusExactly | swift-proposal-analyzer.playground/Sources/Parser.swift:164-181 | the parse fails with an unknown status (naming the line) exactly when none of the seven phrases occurs |
| Parser.StatusPhrasesFirstMatchUnambiguous | swift-proposal-analyzer.playground/Sources/Parser.swift:164-179 | no status phrase contains an earlier one, so every rule can fire |
| Parser.VersionFromText | swift-proposal-analyzer.playground/Sources/Parser.swift:186-202 | a failure is an unknown version naming the text |
| Parser.VersionFollowsRuleTable | swift-proposal-analyzer.playground/Sources/Parser.swift:186-201 | most specific first: the version is the one of the first phrase found among Swift 2.2, 2.3, 3.1, 3.0.1, 3.0, 3 |
| Parser.UnknownVersionExactly | swift-proposal-analyzer.playground/Sources/Parser.swift:186-200 | the version lookup fails exactly when none of the six phrases occurs |
| Parser.VersionPhrasesMostSpecificFirst | swift-proposal-analyzer.playground/Sources/Parser.swift:188-197 | no version phrase contains a phrase tried before it, so no longer phrase is shadowed by a shorter one |
| Parser.VersionPhrasesReachable | swift-proposal-analyzer.playground/Sources/Parser.swift:188-198 | each phrase on its own selects its own version: "Swift 3.0.1" gives 3.0.1, "Swift 3.1" gives 3.1, "Swift 3.0" and "Swift 3" give 3.0 |
| Parser.PlainSwift3 | swift-proposal-analyzer.playground/Sources/Parser.swift:194-198 | version 3.0 is chosen only for text mentioning "Swift 3" and not "Swift 3.0.1" |
| Parser.ProposalFrom | swift-proposal-analyzer.playground/Sources/Parser.swift:47-90 | a parsed record keeps the given file name and the caller's word count; a file with no lines fails with EmptyFile |
| Parser.FromHeader | swift-proposal-analyzer.playground/Sources/Parser.swift:74-89 | a record built from the scanned header lines keeps the given title, file name and word count |
| Parser.ProposalFromIdentifierStage | swift-proposal-analyzer.playground/Sources/Parser.swift:56-75 | a non-empty window with no identifier line fails with MissingIdentifierLine; a too-short last identifier line fails with that line's error, before any author or status check |
| Parser.ProposalFromAuthorStage | swift-proposal-analyzer.playground/Sources/Parser.swift:61-78 | after a good identifier line: no author line of either label fails with MissingAuthorLine; a failing preferred author line (the single-author one if present, else the multiple-author one) fails with its error, before any status check |
| Parser.ProposalFromStatusStage | swift-proposal-analyzer.playground/Sources/Parser.swift:69-89 | after good identifier and author lines: no status line fails with MissingStatusLine; otherwise the result is the status line's error, or exactly the record of the first line's title, the identifier, the authors, that status, the file name and the word count |
| Parser.ProposalFromNeedsHeaderLines | swift-proposal-analyzer.playground/Sources/Parser.swift:50-80 | a successful parse has a first line and an identifier line, an author line (either label) and a status line in the first ten lines; a missing one makes the parse fail |
| Parser.ProposalFromReadsLastLabelledLines | swift-proposal-analyzer.playground/Sources/Parser.swift:48-80 | each field of a parsed record comes from the right line: title from the first line; identifier, authors and status from the last line with their label; a single-author line (offset 10) takes precedence over a multiple-author line (offset 11) |
| Parser.StandardHeaderMarkers | swift-proposal-analyzer.playground/Sources/Parser.swift:56-72 | in a standard header, lines 1, 2 and 3 are the last lines with the identifier, single-author and status labels, and no line has the multiple-author label |
| Parser.StandardHeaderWindow | swift-proposal-analyzer.playground/Sources/Parser.swift:110-122 | the ten-line window of a standard header's LF-terminated text is exactly its four lines |
| Parser.StandardHeaderScan | swift-proposal-analyzer.playground/Sources/Parser.swift:56-72 | scanning a standard header fills the identifier, single-author and status slots with lines 1, 2 and 3 and leaves the multiple-author slot empty |
| Parser.StandardHeaderTitle | swift-proposal-analyzer.playground/Sources/Parser.swift:125-127 | the trimmed first line of a standard header gives back the title |
| Parser.StandardHeaderStatus | swift-proposal-analyzer.playground/Sources/Parser.swift:158-162 | a standard status line is classified by exactly the text between its emphasis marks |
| Parser.StandardHeaderLines | swift-proposal-analyzer.playground/Sources/Parser.swift:113-120 | a standard header's lines contain no line feed and end in no carriage return |
| Parser.ProposalFromStandardHeader | swift-proposal-analyzer.playground/Sources/Parser.swift:47-90 | round trip: a document written as heading, identifier link, author link and emphasised status parses into exactly those title, identifier, author and classified status |
| Parser.ParseAll | swift-proposal-analyzer.playground/Sources/Parser.swift:21-25 | on success one record per file, each the parse of that file, in file order; on failure the error of the first file that fails, with its name, and every earlier file parses |
| Sorting.Insert | swift-proposal-analyzer.playground/Sources/Parser.swift:27-29 | inserting adds exactly the one record (multiset union) |
| Sorting.InsertKeepsSorted | swift-proposal-analyzer.playground/Sources/Parser.swift:27-29 | inserting into a list sorted by identifier keeps it sorted |
| Sorting.SortBySeNumber | swift-proposal-analyzer.playground/Sources/Parser.swift:27-29 | the result is a permutation of the records and is non-decreasing by identifier under string `<` |
| Sorting.SortSortedDistinct | swift-proposal-analyzer.playground/Sources/Parser.swift:27-29 | records already in strictly increasing identifier order are left as they are |
| Sorting.ParseProposals | swift-proposal-analyzer.playground/Sources/Parser.swift:18-30 | on success the result is a sorted permutation of the per-file parses; on failure it is the first file's failure |
| Sorting.ParseProposalsMembers | swift-proposal-analyzer.playground/Sources/Parser.swift:18-30 | a record is in the sorted result iff it is the parse of some file, and there is one record per file |
| StringOrder.LessIrreflexive | swift-proposal-analyzer.playground/Sources/Parser.swift:28 | no identifier sorts before itself |
| StringOrder.LessTransitive | swift-proposal-analyzer.playground/Sources/Parser.swift:28 | the comparator is transitive |
| StringOrder.LessTotal | swift-proposal-analyzer.playground/Sources/Parser.swift:28 | any two different identifiers are ordered one way or the other |
| StringOrder.LessAsymmetric | swift-proposal-analyzer.playground/Sources/Parser.swift:28 | no two identifiers are each before the other |
| StringOrder.LessOrEqualTransitive | swift-proposal-analyzer.playground/Sources/Parser.swift:28 | the non-strict order the sort produces is transitive |
| StringOrder.LessCommonPrefix | swift-proposal-analyzer.playground/Sources/Parser.swift:28 | a shared prefix such as "SE-" does not change the order |
| StringOrder.LessDigitsNumeric | swift-proposal-analyzer.playground/Sources/Parser.swift:28 | for digit strings of equal length, string order is numeric order |
| Proposals.VersionText | swift-proposal-analyzer.playground/Sources/Proposal.swift:25-29 | a version prints as a digit, a point and a digit, possibly followed by more |
| Proposals.VersionTextInjective | swift-proposal-analyzer.playground/Sources/Proposal.swift:25-29 | different versions print differently |
| Proposals.StatusLists | swift-proposal-analyzer.playground/Sources/Proposal.swift:41-67 | allAccepted is [accepted] followed by allImplemented; every element of allImplemented is implemented and is in allItems; allItems holds every status except implemented(3.0.1), each once |
| Proposals.StatusEquals | swift-proposal-analyzer.playground/Sources/Proposal.swift:76-97 | the hand-written `==` is structural equality: implemented(v1) equals implemented(v2) iff v1 = v2, different cases never equal, hence reflexive and symmetric |
| Proposals.Description | swift-proposal-analyzer.playground/Sources/Proposal.swift:99-111 | every status has a non-empty description |
| Proposals.DescriptionSingleLine | swift-proposal-analyzer.playground/Sources/Proposal.swift:99-111 | every status description fits on one line, including implemented(v) for every version |
| Proposals.DescriptionInjective | swift-proposal-analyzer.playground/Sources/Proposal.swift:99-111 | different statuses have different descriptions |
| Proposals.HashValue | swift-proposal-analyzer.playground/Sources/Proposal.swift:70-74 | the hash of a status equals the hash of the description of every status `==` to it |
| Proposals.HashAgreesWithEquality | swift-proposal-analyzer.playground/Sources/Proposal.swift:70-74 | statuses that are `==` have equal hash values, for any string hash |
| Proposals.Describe | swift-proposal-analyzer.playground/Sources/Proposal.swift:139-148 | a record's description starts with its identifier, ": ", its title and a line feed, and ends with a line feed; `Proposals.DescribeLines` gives its full line structure |
| Proposals.DescribeIsTerminated | swift-proposal-analyzer.playground/Sources/Proposal.swift:139-148 | a record's description is its five labelled lines, each followed by a line feed |
| Proposals.DescribeLines | swift-proposal-analyzer.playground/Sources/Proposal.swift:139-148 | when every field fits on one line, enumerating the description's lines gives back exactly the five labelled lines |
| Proposals.JoinSingleLine | swift-proposal-analyzer.playground/Sources/Proposal.swift:142 | joining single-line author names keeps them on one line |
| Proposals.Number | swift-proposal-analyzer.playground/Sources/Proposal.swift:157-163 | an identifier shorter than 3 characters fails; otherwise the number is `Int` of the remainder after the first three characters: it succeeds exactly when `Decimal.ParseInt` accepts that remainder, with its value, and fails naming the remainder when it does not |
| Proposals.NumberOfIdentifier | swift-proposal-analyzer.playground/Sources/Proposal.swift:157-163 | "SE-" followed by four digits numbers the proposal by the value of those digits |
| Proposals.NumberOrderAgrees | swift-proposal-analyzer.playground/Sources/Proposal.swift:157-163 | for canonical identifiers, string order is the order of their numbers |
| Decimal.ParseInt | swift-proposal-analyzer.playground/Sources/Proposal.swift:161 | `Int(String)` accepts exactly an optional `+` or `-` followed by at least one digit whose value fits in 64 bits: a digit string and a `+`-signed one give their decimal value, a `-`-signed one gives its negation, and every such representable string parses |
| Decimal.NatToDecimal | swift-proposal-analyzer.playground/Sources/Proposal.swift:145 | the word count prints as its shortest decimal digits |
| Decimal.ParseRendered | swift-proposal-analyzer.playground/Sources/Proposal.swift:145 | parsing a printed count gives it back |
| Examples.IdentifierOfSE0068 | swift-proposal-analyzer.playground/Sources/Parser.swift:130-134 | "* Proposal: [SE-0068](0068-universal-self.md)" yields "SE-0068" |
| Examples.AuthorsOfSE0068 | swift-proposal-analyzer.playground/Sources/Parser.swift:137-155 | "* Author: [Erica Sadun](http://github.com/erica)" yields ["Erica Sadun"] |
| Examples.TwoAuthors | swift-proposal-analyzer.playground/Sources/Parser.swift:137-155 | a two-link multiple-author line yields both names in order |
| Examples.AcceptedWithRevisions | swift-proposal-analyzer.playground/Sources/Parser.swift:164-170 | "Accepted with revisions" is accepted |
| Examples.StatusOfSE0068 | swift-proposal-analyzer.playground/Sources/Parser.swift:158-170 | "* Status: **Accepted with revisions**" is accepted |
| Examples.PatchReleaseVersion | swift-proposal-analyzer.playground/Sources/Parser.swift:186-195 | "Implemented (Swift 3.0.1)" gives 3.0.1, not 3.0 |
| Examples.NumberOfSE0003 | swift-proposal-analyzer.playground/Sources/Proposal.swift:157-163 | "SE-0003" is proposal 3 |
| Examples.NumberOfSE0068 | swift-proposal-analyzer.playground/Sources/Proposal.swift:157-163 | "SE-0068" is proposal 68 |
| Examples.OrderOfIdentifiers | swift-proposal-analyzer.playground/Sources/Parser.swift:27-29 | SE-0003 sorts before SE-0068 and not after it, as their numbers 3 and 68 say |
| Examples.SampleDocument | swift-proposal-analyzer.playground/Sources/Parser.swift:47-90 | the document "# Sample", "* Proposal: [SE-0001](...)", "* Author: [Jane Doe](url)", "* Status: **Accepted**" parses to title Sample, SE-0001, [Jane Doe], accepted |
| Examples.SortingScenario | swift-proposal-analyzer.playground/Sources/Parser.swift:27-29 | records numbered SE-0100, SE-0003, SE-0068 sort to SE-0003, SE-0068, SE-0100 |

## Left out

- `proposalFiles` and the directory half of `parseProposals` (`Parser.swift:18-25, 33-44`): listing a directory and reading files with `try!` is I/O. `Parser.ParseAll` takes (file name, contents) pairs in a given order. The Swift dictionary's iteration order is unspecified, so which failing file the source would stop at first is too.
- `wordCount(fromFile:)` (`Parser.swift:99-108`): it depends on Unicode punctuation and symbol character sets. The caller supplies it as a function `countWords: string -> nat`.
- `githubURL` (`Proposal.swift:150-155`): Foundation URL construction.
- The `Double` raw values of `SwiftVersion` (`Proposal.swift:18-23`): no floating point. The printed raw value is a literal table, plus "3.0.1" for the added case.
- The concrete `hashValue` (`Proposal.swift:70-74`): Swift's string hash is opaque. The hash is a function of the description through a caller-supplied string hash.
- Unicode and locale details:
  - `localizedCaseInsensitiveContains` is ASCII case-folded substring search.
  - `.whitespacesAndNewlines` is space, tab, LF and CR.
  - `enumerateLines` ends lines at LF and CR LF only. A lone CR and the Unicode line and paragraph separators are not terminators here.
  - String offsets count Unicode scalar values, not grapheme clusters.
  - String `<`, `==` and `hasPrefix` compare code points one by one, with no canonical equivalence: `"e\u{301}"` and `"\u{e9}"` differ here, while Swift treats them as equal. On the ASCII identifiers and labels the parser handles the two agree.
- Sorting.SortBySeNumber: fixes the order of identifiers and the multiset of records but not the order among records with equal identifiers, since Swift's `sorted` does not promise stability. The function is an insertion sort, whose order among ties is one of the orders Swift might produce.
- Lines.SplitLines: the round trips cover text with only LF terminators, only CR LF terminators, or an unterminated last line after LF terminators. Text that mixes LF and CR LF is enumerated by the same function, but no round-trip lemma covers it.
- The `Proposal` initialiser and the `Author` value type: the record is a datatype constructor, and authors are their name strings.
- `Proposal.wordCount` is an `Int` in Swift but a `nat` here: a count of words is never negative.
- The SE-0068 playground page (`Pages/SE-0068.xcplaygroundpage/Contents.swift`) is a Markdown document with no logic. Its header lines appear in the `Examples` module as concrete inputs.
