/** The proposal header parser: it cuts a document into its first lines, finds
    the labelled header lines, extracts the title, identifier, authors and
    status from them by fixed offsets, and classifies the status text. */
module Parser {
  import opened Results
  import opened Errors
  import opened Strings
  import opened Lines
  import opened Proposals

  // ---------------------------------------------------------------------
  // Header window (`proposalLines`)
  // ---------------------------------------------------------------------

  /** Only this many leading lines are searched for header fields. */
  const HeaderLineBudget: int := 10

  /** `proposalLines(numberOfLines, fromFile:)`: the enumeration stops once
      `numberOfLines` lines have been collected, and the count is compared only after the
      first line is appended, so a budget below one still yields one line. */
  function ProposalLines(numberOfLines: int, file: string): (lines: seq<string>)
    ensures |lines| <= if numberOfLines < 1 then 1 else numberOfLines
    ensures |lines| <= |SplitLines(file)| && lines == SplitLines(file)[..|lines|]
    ensures |lines| < numberOfLines || |lines| < 1 ==> lines == SplitLines(file)
  {
    var all := SplitLines(file);
    var budget := if numberOfLines < 1 then 1 else numberOfLines;
    if |all| <= budget then all else all[..budget]
  }

  // ---------------------------------------------------------------------
  // Header scan (the loop of `proposalFrom`)
  // ---------------------------------------------------------------------

  const ProposalLabel: string := "* Proposal:"
  const SingleAuthorLabel: string := "* Author:"
  const MultipleAuthorLabel: string := "* Authors:"
  /** The trailing space keeps "* Status:" lines of other shapes out. */
  const StatusLabel: string := "* Status: "

  /** The most recent line seen for each marker, if any. */
  datatype HeaderLines = HeaderLines(
    identifier: Option<string>,
    singleAuthor: Option<string>,
    multipleAuthor: Option<string>,
    status: Option<string>)

  /** A marker's slot after one more line: the line replaces the slot when it
      carries the marker. */
  function Latest(found: Option<string>, line: string, marker: string): Option<string> {
    if StartsWith(line, marker) then Some(line) else found
  }

  /** One iteration of the scan loop: four independent prefix tests. */
  function ScanLine(h: HeaderLines, line: string): HeaderLines {
    HeaderLines(
      Latest(h.identifier, line, ProposalLabel),
      Latest(h.singleAuthor, line, SingleAuthorLabel),
      Latest(h.multipleAuthor, line, MultipleAuthorLabel),
      Latest(h.status, line, StatusLabel))
  }

  /** The scan loop over the header window, top to bottom. */
  function ScanHeader(lines: seq<string>): (h: HeaderLines)
    ensures h.identifier.Some? ==> StartsWith(h.identifier.value, ProposalLabel)
    ensures h.singleAuthor.Some? ==> StartsWith(h.singleAuthor.value, SingleAuthorLabel)
    ensures h.multipleAuthor.Some? ==> StartsWith(h.multipleAuthor.value, MultipleAuthorLabel)
    ensures h.status.Some? ==> StartsWith(h.status.value, StatusLabel)
    decreases |lines|
  {
    if |lines| == 0 then HeaderLines(None, None, None, None)
    else ScanLine(ScanHeader(lines[..|lines| - 1]), lines[|lines| - 1])
  }

  /** Some line of `lines` starts with `marker`. */
  predicate HasLine(lines: seq<string>, marker: string) {
    exists i :: 0 <= i < |lines| && StartsWith(lines[i], marker)
  }

  /** Line `i` is the last line of `lines` that starts with `marker`. */
  predicate IsLastAt(lines: seq<string>, marker: string, i: int) {
    && 0 <= i < |lines|
    && StartsWith(lines[i], marker)
    && forall j :: i < j < |lines| ==> !StartsWith(lines[j], marker)
  }

  /** `found` is the last line of `lines` carrying `marker`, or `None` when no
      line carries it. */
  ghost predicate IsLastMatch(lines: seq<string>, marker: string, found: Option<string>) {
    match found
    case None => !HasLine(lines, marker)
    case Some(l) => exists i :: IsLastAt(lines, marker, i) && lines[i] == l
  }

  /** There is at most one last line with a given marker. */
  lemma LastAtUnique(lines: seq<string>, marker: string, i: int, j: int)
    requires IsLastAt(lines, marker, i) && IsLastAt(lines, marker, j)
    ensures i == j
  {
  }

  lemma LastMatchStep(lines: seq<string>, line: string, marker: string, found: Option<string>)
    requires IsLastMatch(lines, marker, found)
    ensures IsLastMatch(lines + [line], marker, Latest(found, line, marker))
  {
    var all := lines + [line];
    assert forall i :: 0 <= i < |lines| ==> all[i] == lines[i];
    if StartsWith(line, marker) {
      assert IsLastAt(all, marker, |lines|) && all[|lines|] == line;
    } else if found.Some? {
      var i :| IsLastAt(lines, marker, i) && lines[i] == found.value;
      assert IsLastAt(all, marker, i) && all[i] == found.value;
    } else {
      assert !HasLine(all, marker);
    }
  }

  /** Last occurrence wins: each slot of the scan holds the last line of the
      window with that slot's marker, and is empty only when no line has it. */
  lemma {:induction false} ScanHeaderFindsLastMatches(lines: seq<string>)
    ensures IsLastMatch(lines, ProposalLabel, ScanHeader(lines).identifier)
    ensures IsLastMatch(lines, SingleAuthorLabel, ScanHeader(lines).singleAuthor)
    ensures IsLastMatch(lines, MultipleAuthorLabel, ScanHeader(lines).multipleAuthor)
    ensures IsLastMatch(lines, StatusLabel, ScanHeader(lines).status)
    decreases |lines|
  {
    if |lines| > 0 {
      var init := lines[..|lines| - 1];
      var last := lines[|lines| - 1];
      var h := ScanHeader(init);
      ScanHeaderFindsLastMatches(init);
      assert lines == init + [last];
      LastMatchStep(init, last, ProposalLabel, h.identifier);
      LastMatchStep(init, last, SingleAuthorLabel, h.singleAuthor);
      LastMatchStep(init, last, MultipleAuthorLabel, h.multipleAuthor);
      LastMatchStep(init, last, StatusLabel, h.status);
    }
  }

  /** No line is both a single-author and a multiple-author line, and the
      identifier and status labels exclude every other marker. */
  lemma LabelsExclusive(line: string)
    ensures !(StartsWith(line, SingleAuthorLabel) && StartsWith(line, MultipleAuthorLabel))
    ensures !(StartsWith(line, ProposalLabel) && StartsWith(line, StatusLabel))
    ensures StartsWith(line, ProposalLabel) ==>
      !StartsWith(line, SingleAuthorLabel) && !StartsWith(line, MultipleAuthorLabel)
    ensures StartsWith(line, StatusLabel) ==>
      !StartsWith(line, SingleAuthorLabel) && !StartsWith(line, MultipleAuthorLabel)
  {
    if StartsWith(line, SingleAuthorLabel) {
      assert line[8] == SingleAuthorLabel[8];
    }
    if StartsWith(line, ProposalLabel) {
      assert line[2] == 'P';
    }
    if StartsWith(line, StatusLabel) {
      assert line[2] == 'S';
    }
  }

  // ---------------------------------------------------------------------
  // Field extractors
  // ---------------------------------------------------------------------

  /** Markdown heading markers and the space after them. */
  const HeadingMarks: set<char> := {'#', ' '}

  /** `name` is `line` with `#` and spaces trimmed from both ends, then
      whitespace trimmed from both ends of what is left. */
  ghost predicate IsNameOf(name: string, line: string) {
    exists mid :: IsTrimOf(mid, line, HeadingMarks) && IsTrimOf(name, mid, Whitespace)
  }

  /** `nameFromLine`: strip `#` and spaces from both ends, then whitespace. */
  function NameFromLine(line: string): (name: string)
    ensures IsNameOf(name, line)
    ensures |name| > 0 ==> name[0] !in Whitespace && name[|name| - 1] !in Whitespace
  {
    Trim(Trim(line, HeadingMarks), Whitespace)
  }

  /** Round trip: a Markdown heading of any level yields its text, when the
      text has no heading marks or whitespace at either end. */
  lemma NameFromHeading(level: nat, text: string)
    requires |text| > 0
    requires text[0] !in HeadingMarks + Whitespace && text[|text| - 1] !in HeadingMarks + Whitespace
    ensures NameFromLine(seq(level, _ => '#') + " " + text) == text
  {
    var marks := seq(level, _ => '#');
    var line := marks + " " + text;
    assert text == line[level + 1..|line|];
    assert IsTrimOf(text, line, HeadingMarks);
    TrimUnique(Trim(line, HeadingMarks), text, line, HeadingMarks);
    assert text == text[0..|text|];
    assert IsTrimOf(text, text, Whitespace);
    TrimUnique(Trim(text, Whitespace), text, text, Whitespace);
  }

  /** Round trip for a closed heading such as "# Title #": the closing
      marks are stripped as well as the opening ones. */
  lemma NameFromClosedHeading(level: nat, text: string, closing: nat)
    requires |text| > 0
    requires text[0] !in HeadingMarks + Whitespace && text[|text| - 1] !in HeadingMarks + Whitespace
    ensures NameFromLine(seq(level, _ => '#') + " " + text + " " + seq(closing, _ => '#')) == text
  {
    var open, close := seq(level, _ => '#') + " ", " " + seq(closing, _ => '#');
    assert forall k :: 0 <= k < |open| ==> open[k] in HeadingMarks;
    assert forall k :: 0 <= k < |close| ==> close[k] in HeadingMarks;
    Regroup(open + text, " ", seq(closing, _ => '#'));
    TrimBorder(open, text, close, HeadingMarks);
    TrimNoop(text, Whitespace);
  }

  const IdentifierOffset: nat := 13
  const IdentifierLength: nat := 7

  /** `seNumberFromLine`: the seven characters at offset 13, trimmed. A line
      shorter than 20 characters makes the slice fail. */
  function SeNumberFromLine(line: string): (r: Result<string, ParseError>)
    ensures r.Ok? <==> |line| >= IdentifierOffset + IdentifierLength
    ensures r.Err? ==> r.error == TooShort(line, IdentifierOffset + IdentifierLength)
    ensures r.Ok? ==> IsTrimOf(r.value, line[IdentifierOffset..IdentifierOffset + IdentifierLength], Whitespace)
  {
    if |line| < IdentifierOffset + IdentifierLength then
      Err(TooShort(line, IdentifierOffset + IdentifierLength))
    else
      Ok(Trim(line[IdentifierOffset..IdentifierOffset + IdentifierLength], Whitespace))
  }

  /** Round trip: an identifier written in the standard header line
      "* Proposal: [<id>]..." is read back exactly. */
  lemma SeNumberFromProposalLine(id: string, rest: string)
    requires |id| == IdentifierLength
    requires id[0] !in Whitespace && id[|id| - 1] !in Whitespace
    ensures SeNumberFromLine("* Proposal: [" + id + rest) == Ok(id)
  {
    var line := "* Proposal: [" + id + rest;
    var slice := line[IdentifierOffset..IdentifierOffset + IdentifierLength];
    assert slice == id;
    assert id == id[0..|id|];
    assert IsTrimOf(id, id, Whitespace);
    TrimUnique(Trim(id, Whitespace), id, id, Whitespace);
  }

  const SingleAuthorOffset: nat := 10
  const MultipleAuthorOffset: nat := 11
  const Brackets: set<char> := {'[', ']'}

  /** The name in one comma-separated author entry: the text after the first
      bracket up to the next bracket when there is a bracket, otherwise the
      whole entry; trimmed either way. */
  function AuthorName(entry: string): (name: string)
    ensures NoneIn(name, Brackets)
    ensures |name| > 0 ==> name[0] !in Whitespace && name[|name| - 1] !in Whitespace
  {
    var pieces := Split(entry, Brackets);
    var piece := if |pieces| > 1 then pieces[1] else pieces[0];
    var name := Trim(piece, Whitespace);
    assert forall k :: 0 <= k < |name| ==> name[k] in piece;
    name
  }

  /** An entry without brackets is its own name, trimmed. */
  lemma AuthorNamePlain(entry: string)
    requires NoneIn(entry, Brackets)
    ensures AuthorName(entry) == Trim(entry, Whitespace)
  {
    assert SkipOut(entry, Brackets, 0) == |entry|;
  }

  /** With its first bracket at `i` and the next bracket (or the end) at `j`,
      an entry names the trimmed text strictly between them. */
  lemma AuthorNameBracketed(entry: string, i: nat, j: nat)
    requires i < j <= |entry|
    requires entry[i] in Brackets && NoneIn(entry[..i], Brackets)
    requires NoneIn(entry[i + 1..j], Brackets) && (j == |entry| || entry[j] in Brackets)
    ensures AuthorName(entry) == Trim(entry[i + 1..j], Whitespace)
  {
    assert forall k :: 0 <= k < i ==> entry[..i][k] == entry[k];
    assert SkipOut(entry, Brackets, 0) == i;
    var rest := entry[i + 1..];
    assert forall k :: 0 <= k < j - (i + 1) ==> rest[k] == entry[i + 1..j][k];
    var second := SkipOut(rest, Brackets, 0);
    assert second == j - (i + 1);
    assert rest[..second] == entry[i + 1..j];
    assert Split(entry, Brackets)[1] == Split(rest, Brackets)[0];
    if second == |rest| {
      assert rest[..second] == rest;
    }
    assert Split(rest, Brackets)[0] == rest[..second];
  }

  /** The author names on one entry per comma. */
  function AuthorNames(entries: seq<string>): (names: seq<string>)
    ensures |names| == |entries|
    ensures forall i :: 0 <= i < |entries| ==> names[i] == AuthorName(entries[i])
  {
    seq(|entries|, i requires 0 <= i < |entries| => AuthorName(entries[i]))
  }

  /** `authorsFromLine`: drop the marker (10 characters for "* Author: ", 11 for
      "* Authors: "), split at commas and read one name per entry. */
  function AuthorsFromLine(line: string, multiple: bool): (r: Result<seq<string>, ParseError>)
    ensures var offset := if multiple then MultipleAuthorOffset else SingleAuthorOffset;
      && (r.Ok? <==> |line| >= offset)
      && (r.Err? ==> r.error == TooShort(line, offset))
      && (r.Ok? ==> |r.value| == CountIn(line[offset..], {','}) + 1)
  {
    var offset := if multiple then MultipleAuthorOffset else SingleAuthorOffset;
    if |line| < offset then Err(TooShort(line, offset))
    else
      var entries := Split(line[offset..], {','});
      SplitCount(line[offset..], {','});
      Ok(AuthorNames(entries))
  }

  /** Round trip over entries: a line whose text after the marker is comma-free
      entries joined by commas yields one name per entry, in entry order and
      with repetitions kept. */
  lemma AuthorsFromEntries(line: string, multiple: bool, entries: seq<string>)
    requires |entries| >= 1
    requires forall i :: 0 <= i < |entries| ==> NoneIn(entries[i], {','})
    requires var offset := if multiple then MultipleAuthorOffset else SingleAuthorOffset;
      |line| >= offset && line[offset..] == Join(entries, ",")
    ensures AuthorsFromLine(line, multiple) == Ok(AuthorNames(entries))
  {
    SplitJoin(entries, ',');
  }

  /** A Markdown link, the form author entries take in proposal headers. */
  function Link(name: string, url: string): string {
    "[" + name + "](" + url + ")"
  }

  /** Names that can be written in a header entry: no brackets or commas, and
      no whitespace at either end. */
  predicate PlainName(name: string) {
    && NoneIn(name, Brackets + {','})
    && (|name| > 0 ==> name[0] !in Whitespace && name[|name| - 1] !in Whitespace)
  }

  /** An entry holding a link, after any bracket-free lead-in, names the
      link's text. */
  lemma AuthorNameOfLink(lead: string, name: string, url: string)
    requires NoneIn(lead, Brackets) && PlainName(name)
    ensures AuthorName(lead + Link(name, url)) == name
  {
    var entry := lead + Link(name, url);
    var i := |lead|;
    var j := i + 1 + |name|;
    assert entry[..i] == lead;
    assert entry[i + 1..j] == name;
    assert entry[i] == '[' && entry[j] == ']';
    AuthorNameBracketed(entry, i, j);
    TrimNoop(name, Whitespace);
  }

  /** Every entry is a link, the first written as is and the others after
      ", ". */
  function SpaceEach(q: seq<string>): (r: seq<string>)
    ensures |r| == |q| && forall i :: 0 <= i < |q| ==> r[i] == " " + q[i]
  {
    seq(|q|, i requires 0 <= i < |q| => " " + q[i])
  }

  /** Joining with ", " is joining with "," after prefixing each later piece
      with a space. */
  lemma {:induction false} JoinCommaSpace(q: seq<string>)
    requires |q| >= 1
    ensures Join(q, ", ") == Join([q[0]] + SpaceEach(q[1..]), ",")
    decreases |q|
  {
    var r := [q[0]] + SpaceEach(q[1..]);
    if |q| > 1 {
      var rest := q[1..];
      JoinCommaSpace(rest);
      assert rest[1..] == q[2..];
      assert SpaceEach(rest) == [" " + rest[0]] + SpaceEach(rest[1..]);
      assert r[1..] == SpaceEach(rest);
      assert Join(SpaceEach(rest), ",") == " " + Join(rest, ", ");
    }
  }

  /** The links of a header, pairing each name with its URL. */
  function Links(names: seq<string>, urls: seq<string>): (links: seq<string>)
    requires |names| == |urls|
    ensures |links| == |names| && forall i :: 0 <= i < |names| ==> links[i] == Link(names[i], urls[i])
  {
    seq(|names|, i requires 0 <= i < |names| => Link(names[i], urls[i]))
  }

  /** A link between comma-free parts, after a comma-free lead-in, has no comma. */
  lemma LinkEntryCommaFree(lead: string, name: string, url: string)
    requires NoneIn(lead, {','}) && NoneIn(name, {','}) && NoneIn(url, {','})
    ensures NoneIn(lead + Link(name, url), {','})
  {
    var e := lead + Link(name, url);
    assert e == lead + "[" + name + "](" + url + ")";
    forall k | 0 <= k < |e| ensures e[k] != ',' {
      if k < |lead| {
        assert e[k] == lead[k];
      } else if |lead| < k <= |lead| + |name| {
        assert e[k] == name[k - |lead| - 1];
      } else if |lead| + |name| + 3 <= k < |lead| + |name| + 3 + |url| {
        assert e[k] == url[k - |lead| - |name| - 3];
      }
    }
  }

  /** Round trip: a single-author line holding one link is read back as that
      link's name. */
  lemma SingleAuthorLink(name: string, url: string)
    requires PlainName(name) && NoneIn(url, {','})
    ensures AuthorsFromLine(SingleAuthorLabel + " " + Link(name, url), false) == Ok([name])
  {
    var line := SingleAuthorLabel + " " + Link(name, url);
    var entry := Link(name, url);
    assert line[SingleAuthorOffset..] == entry;
    assert "" + entry == entry;
    LinkEntryCommaFree("", name, url);
    SplitNone(entry, {','});
    AuthorNameOfLink("", name, url);
    assert AuthorNames([entry]) == [name];
  }

  /** The entries a multiple-author line splits into: the first link as is,
      each later one after the space that follows its comma. */
  function LinkEntries(links: seq<string>): (entries: seq<string>)
    requires |links| >= 1
    ensures |entries| == |links|
  {
    [links[0]] + SpaceEach(links[1..])
  }

  /** Each entry of a list of links names its link's name. */
  lemma LinkEntriesNames(names: seq<string>, urls: seq<string>)
    requires |names| == |urls| >= 1
    requires forall i :: 0 <= i < |names| ==> PlainName(names[i]) && NoneIn(urls[i], {','})
    ensures var entries := LinkEntries(Links(names, urls));
      && (forall i :: 0 <= i < |entries| ==> NoneIn(entries[i], {','}))
      && AuthorNames(entries) == names
  {
    var links := Links(names, urls);
    var entries := LinkEntries(links);
    forall i | 0 <= i < |entries|
      ensures NoneIn(entries[i], {','})
      ensures AuthorName(entries[i]) == names[i]
    {
      var lead := if i == 0 then "" else " ";
      assert entries[i] == lead + Link(names[i], urls[i]);
      LinkEntryCommaFree(lead, names[i], urls[i]);
      AuthorNameOfLink(lead, names[i], urls[i]);
    }
  }

  /** Round trip: a multiple-author line listing links separated by ", " is
      read back as the links' names, in order. */
  lemma MultipleAuthorLinks(names: seq<string>, urls: seq<string>)
    requires |names| == |urls| >= 1
    requires forall i :: 0 <= i < |names| ==> PlainName(names[i]) && NoneIn(urls[i], {','})
    ensures AuthorsFromLine(MultipleAuthorLabel + " " + Join(Links(names, urls), ", "), true) == Ok(names)
  {
    var links := Links(names, urls);
    var line := MultipleAuthorLabel + " " + Join(links, ", ");
    assert line[MultipleAuthorOffset..] == Join(links, ", ");
    JoinCommaSpace(links);
    var entries := LinkEntries(links);
    LinkEntriesNames(names, urls);
    AuthorsFromEntries(line, true, entries);
  }

  // ---------------------------------------------------------------------
  // Status and version classification
  // ---------------------------------------------------------------------

  /** `versionFromString`: case-insensitive search for the known release
      names, most specific first ("Swift 3.0" falls through to "Swift 3"). */
  function VersionFromText(text: string): (r: Result<SwiftVersion, ParseError>)
    ensures r.Err? ==> r.error == UnknownVersion(text)
  {
    if ContainsCI(text, "Swift 2.2") then Ok(V2_2)
    else if ContainsCI(text, "Swift 2.3") then Ok(V2_3)
    else if ContainsCI(text, "Swift 3.1") then Ok(V3_1)
    else if ContainsCI(text, "Swift 3.0.1") then Ok(V3_0_1)
    else if ContainsCI(text, "Swift 3.0") || ContainsCI(text, "Swift 3") then Ok(V3_0)
    else Err(UnknownVersion(text))
  }

  /** The switch of `statusFromLine` over the cleaned status text: the first
      matching phrase decides; `line` is what an unknown status reports. */
  function StatusFromText(text: string, line: string): (r: Result<Status, ParseError>)
    ensures r.Err? ==> r.error == UnknownStatus(line) || r.error == UnknownVersion(text)
    ensures ContainsCI(text, "Accepted") ==> r.Ok? && r.value in {InReview, AwaitingReview, Accepted}
    ensures r.Ok? && r.value.Implemented? ==> ContainsCI(text, "Implemented") && !ContainsCI(text, "Accepted")
  {
    if ContainsCI(text, "Active Review") then Ok(InReview)
    else if ContainsCI(text, "Awaiting Review") then Ok(AwaitingReview)
    else if ContainsCI(text, "Accepted") then Ok(Accepted)
    else if ContainsCI(text, "Implemented") then
      var version :- VersionFromText(text);
      Ok(Implemented(version))
    else if ContainsCI(text, "Deferred") then Ok(Deferred)
    else if ContainsCI(text, "Rejected") then Ok(Rejected)
    else if ContainsCI(text, "Withdrawn") then Ok(Withdrawn)
    else Err(UnknownStatus(line))
  }

  const StatusOffset: nat := 10
  /** Whitespace and the `*` of Markdown emphasis. */
  const StatusMarks: set<char> := Whitespace + {'*'}

  /** The status text of a status line: everything after the 10-character
      label, without surrounding whitespace and emphasis marks. */
  function StatusText(line: string): (text: string)
    requires |line| >= StatusOffset
    ensures IsTrimOf(text, line[StatusOffset..], StatusMarks)
  {
    Trim(line[StatusOffset..], StatusMarks)
  }

  /** `statusFromLine`. */
  function StatusFromLine(line: string): (r: Result<Status, ParseError>)
    ensures |line| < StatusOffset ==> r == Err(TooShort(line, StatusOffset))
    ensures StartsWith(line, StatusLabel) ==> r == StatusFromText(StatusText(line), line)
  {
    if |line| < StatusOffset then Err(TooShort(line, StatusOffset))
    else StatusFromText(StatusText(line), line)
  }

  // The same two classifiers written as ordered rule tables.

  const StatusPhrases: seq<string> :=
    ["Active Review", "Awaiting Review", "Accepted", "Implemented", "Deferred", "Rejected", "Withdrawn"]

  const VersionPhrases: seq<string> :=
    ["Swift 2.2", "Swift 2.3", "Swift 3.1", "Swift 3.0.1", "Swift 3.0", "Swift 3"]

  const VersionsByPhrase: seq<SwiftVersion> := [V2_2, V2_3, V3_1, V3_0_1, V3_0, V3_0]

  /** The index of the first phrase of `phrases[from..]` occurring in `text`. */
  function FirstMatch(text: string, phrases: seq<string>, from: nat): (r: Option<nat>)
    requires from <= |phrases|
    ensures r.Some? ==> from <= r.value < |phrases| && ContainsCI(text, phrases[r.value])
    ensures r.Some? ==> forall j :: from <= j < r.value ==> !ContainsCI(text, phrases[j])
    ensures r.None? ==> forall j :: from <= j < |phrases| ==> !ContainsCI(text, phrases[j])
    decreases |phrases| - from
  {
    if from == |phrases| then None
    else if ContainsCI(text, phrases[from]) then Some(from)
    else FirstMatch(text, phrases, from + 1)
  }

  /** What each status rule yields once its phrase is the first to match. */
  function StatusOfRule(i: nat, text: string): Result<Status, ParseError>
    requires i < |StatusPhrases|
  {
    match i
    case 0 => Ok(InReview)
    case 1 => Ok(AwaitingReview)
    case 2 => Ok(Accepted)
    case 3 => (match VersionFromText(text) case Ok(v) => Ok(Implemented(v)) case Err(e) => Err(e))
    case 4 => Ok(Deferred)
    case 5 => Ok(Rejected)
    case _ => Ok(Withdrawn)
  }

  /** First match wins: the status switch is the rule table applied to the
      first of its phrases that occurs in the text. */
  lemma StatusFollowsRuleTable(text: string, line: string)
    ensures StatusFromText(text, line) ==
      match FirstMatch(text, StatusPhrases, 0)
      case None => Err(UnknownStatus(line))
      case Some(i) => StatusOfRule(i, text)
  {
    var m := FirstMatch(text, StatusPhrases, 0);
    if m.Some? {
      var i := m.value;
      assert i < 7;
      assert forall j :: 0 <= j < i ==> !ContainsCI(text, StatusPhrases[j]);
    }
  }

  /** Most specific first: the version switch is the rule table applied to
      the first of its phrases that occurs in the text. */
  lemma VersionFollowsRuleTable(text: string)
    ensures VersionFromText(text) ==
      match FirstMatch(text, VersionPhrases, 0)
      case None => Err(UnknownVersion(text))
      case Some(i) => Ok(VersionsByPhrase[i])
  {
    var m := FirstMatch(text, VersionPhrases, 0);
    if m.Some? {
      var i := m.value;
      assert i < 6;
      assert forall j :: 0 <= j < i ==> !ContainsCI(text, VersionPhrases[j]);
    }
  }

  /** An unknown status is reported exactly when no status phrase occurs. */
  lemma UnknownStatusExactly(text: string, line: string)
    ensures StatusFromText(text, line) == Err(UnknownStatus(line)) <==>
      forall i :: 0 <= i < |StatusPhrases| ==> !ContainsCI(text, StatusPhrases[i])
  {
    StatusFollowsRuleTable(text, line);
  }

  /** An unknown version is reported exactly when no version phrase occurs. */
  lemma UnknownVersionExactly(text: string)
    ensures VersionFromText(text).Err? <==>
      forall i :: 0 <= i < |VersionPhrases| ==> !ContainsCI(text, VersionPhrases[i])
  {
    VersionFollowsRuleTable(text);
  }

  /** Swift 3.0 is chosen only for a text that mentions "Swift 3" and is
      not the patch release 3.0.1. */
  lemma PlainSwift3(text: string)
    ensures VersionFromText(text) == Ok(V3_0) ==> ContainsCI(text, "Swift 3") && !ContainsCI(text, "Swift 3.0.1")
  {
    if ContainsCI(text, "Swift 3.0") {
      PrefixPhraseContained(text, "Swift 3.0", "Swift 3");
    }
  }

  /** A text containing a phrase contains each prefix of it. */
  lemma PrefixPhraseContained(text: string, long: string, short: string)
    requires StartsWith(long, short) && ContainsCI(text, long)
    ensures ContainsCI(text, short)
  {
    var i :| 0 <= i <= |text| - |long| && MatchesAt(text, long, i);
    assert forall k :: 0 <= k < |short| ==> short[k] == long[k];
    assert MatchesAt(text, short, i);
  }

  /** A phrase occurs in itself. */
  lemma ContainsSelf(p: string)
    ensures ContainsCI(p, p)
  {
    assert MatchesAt(p, p, 0);
  }

  /** No version phrase contains a phrase tried before it, so no version is
      shadowed by an earlier, shorter one. */
  lemma VersionPhrasesMostSpecificFirst()
    ensures forall i, j :: 0 <= i < j < |VersionPhrases| ==> !ContainsCI(VersionPhrases[j], VersionPhrases[i])
  {
    var p := VersionPhrases;
    MissingCharNotContained(p[2], p[0], 6);
    MissingCharNotContained(p[2], p[1], 6);
    MissingCharNotContained(p[3], p[0], 6);
    MissingCharNotContained(p[3], p[1], 6);
    MismatchEverywhere(p[3], p[2], i => if i == 0 then 8 else 0);
    MissingCharNotContained(p[4], p[0], 6);
    MissingCharNotContained(p[4], p[1], 6);
    MissingCharNotContained(p[4], p[2], 8);
    LongerNotContained(p[4], p[3]);
    forall i | 0 <= i < 5 ensures !ContainsCI(p[5], p[i]) {
      LongerNotContained(p[5], p[i]);
    }
    MismatchEverywhere(p[1], p[0], i => 8);
  }

  /** Every version phrase, on its own, selects its own version. */
  lemma VersionPhrasesReachable()
    ensures forall i :: 0 <= i < |VersionPhrases| ==> VersionFromText(VersionPhrases[i]) == Ok(VersionsByPhrase[i])
  {
    VersionPhrasesMostSpecificFirst();
    forall i | 0 <= i < |VersionPhrases|
      ensures VersionFromText(VersionPhrases[i]) == Ok(VersionsByPhrase[i])
    {
      ContainsSelf(VersionPhrases[i]);
      VersionFollowsRuleTable(VersionPhrases[i]);
    }
  }

  /** No status phrase contains a phrase tried before it. */
  lemma StatusPhrasesFirstMatchUnambiguous()
    ensures forall i, j :: 0 <= i < j < |StatusPhrases| ==> !ContainsCI(StatusPhrases[j], StatusPhrases[i])
  {
    var p := StatusPhrases;
    MissingCharNotContained(p[1], p[0], 1);
    forall i, j | 0 <= i < j < |p| && |p[j]| < |p[i]| ensures !ContainsCI(p[j], p[i]) {
      LongerNotContained(p[j], p[i]);
    }
    MissingCharNotContained(p[3], p[2], 0);
    MissingCharNotContained(p[4], p[2], 0);
    MissingCharNotContained(p[5], p[2], 0);
    MissingCharNotContained(p[6], p[2], 1);
    MissingCharNotContained(p[5], p[4], 2);
    MissingCharNotContained(p[6], p[4], 2);
    MissingCharNotContained(p[6], p[5], 2);
  }

  // ---------------------------------------------------------------------
  // Assembly (`proposalFrom`)
  // ---------------------------------------------------------------------

  /** `proposalFrom(fileContents:fileName:)`. The word count comes from the
      caller's `countWords`. Failures surface in the order the source would
      trap: no first line, then the identifier, the authors and the status. */
  function ProposalFrom(fileContents: string, fileName: string, countWords: string -> nat): (r: Result<Proposal, ParseError>)
    ensures r.Ok? ==> r.value.fileName == fileName && r.value.wordCount == countWords(fileContents)
    ensures SplitLines(fileContents) == [] ==> r == Err(EmptyFile)
  {
    var lines := ProposalLines(HeaderLineBudget, fileContents);
    if |lines| == 0 then Err(EmptyFile)
    else
      FromHeader(NameFromLine(Trim(lines[0], Whitespace)), ScanHeader(lines), fileName, countWords(fileContents))
  }

  /** The part of `proposalFrom` after the scan: reads the identifier, the
      authors (single-author line first) and the status from their slots, in
      that order, failing at the first that is missing or malformed. */
  function FromHeader(title: string, h: HeaderLines, fileName: string, wordCount: nat): (r: Result<Proposal, ParseError>)
    ensures r.Ok? ==> r.value.title == title && r.value.fileName == fileName && r.value.wordCount == wordCount
  {
    if h.identifier.None? then Err(MissingIdentifierLine)
    else
      var seNumber :- SeNumberFromLine(h.identifier.value);
      var authorLine := if h.singleAuthor.Some? then h.singleAuthor else h.multipleAuthor;
      if authorLine.None? then Err(MissingAuthorLine)
      else
        var authors :- AuthorsFromLine(authorLine.value, h.singleAuthor.None?);
        if h.status.None? then Err(MissingStatusLine)
        else
          var status :- StatusFromLine(h.status.value);
          Ok(Proposal(title, seNumber, authors, status, fileName, wordCount))
  }

  /** A slot of the scan that is filled holds the line at the window's last
      index carrying the slot's marker. */
  lemma SlotIsLastLine(lines: seq<string>, marker: string, found: Option<string>, i: int)
    requires IsLastMatch(lines, marker, found) && IsLastAt(lines, marker, i)
    ensures found == Some(lines[i])
  {
    if found.Some? {
      var k :| IsLastAt(lines, marker, k) && lines[k] == found.value;
      LastAtUnique(lines, marker, i, k);
    }
  }

  /** A successful parse has a title line and found every required label in
      the first ten lines; a missing identifier, author or status line makes
      the parse fail. */
  lemma ProposalFromNeedsHeaderLines(fileContents: string, fileName: string, countWords: string -> nat)
    ensures var window := ProposalLines(HeaderLineBudget, fileContents);
      ProposalFrom(fileContents, fileName, countWords).Ok? ==>
        && |window| > 0
        && HasLine(window, ProposalLabel)
        && (HasLine(window, SingleAuthorLabel) || HasLine(window, MultipleAuthorLabel))
        && HasLine(window, StatusLabel)
  {
    ScanHeaderFindsLastMatches(ProposalLines(HeaderLineBudget, fileContents));
  }

  /** Line `j` is the author line the parse reads, and `multiple` tells which
      marker it carries: the last single-author line, or, when there is none,
      the last multiple-author line. */
  predicate PreferredAuthorAt(window: seq<string>, j: int, multiple: bool) {
    if multiple then IsLastAt(window, MultipleAuthorLabel, j) && !HasLine(window, SingleAuthorLabel)
    else IsLastAt(window, SingleAuthorLabel, j)
  }

  /** First failure stage: with a non-empty window, a missing identifier line
      fails with `MissingIdentifierLine`, and a bad one with its own error. */
  lemma ProposalFromIdentifierStage(fileContents: string, fileName: string, countWords: string -> nat)
    ensures var window := ProposalLines(HeaderLineBudget, fileContents);
      var r := ProposalFrom(fileContents, fileName, countWords);
      && (|window| > 0 && !HasLine(window, ProposalLabel) ==> r == Err(MissingIdentifierLine))
      && (forall i :: IsLastAt(window, ProposalLabel, i) && SeNumberFromLine(window[i]).Err? ==>
            r == Err(SeNumberFromLine(window[i]).error))
  {
    var window := ProposalLines(HeaderLineBudget, fileContents);
    ScanHeaderFindsLastMatches(window);
    forall i | IsLastAt(window, ProposalLabel, i) ensures ScanHeader(window).identifier == Some(window[i]) {
      SlotIsLastLine(window, ProposalLabel, ScanHeader(window).identifier, i);
    }
  }

  /** Second failure stage: once the identifier is read, a window with neither
      author marker fails with `MissingAuthorLine`, and an author line that is
      too short fails with its own error. */
  lemma ProposalFromAuthorStage(fileContents: string, fileName: string, countWords: string -> nat, i: int)
    requires var window := ProposalLines(HeaderLineBudget, fileContents);
      IsLastAt(window, ProposalLabel, i) && SeNumberFromLine(window[i]).Ok?
    ensures var window := ProposalLines(HeaderLineBudget, fileContents);
      var r := ProposalFrom(fileContents, fileName, countWords);
      && (!HasLine(window, SingleAuthorLabel) && !HasLine(window, MultipleAuthorLabel) ==> r == Err(MissingAuthorLine))
      && (forall j, multiple :: PreferredAuthorAt(window, j, multiple) && AuthorsFromLine(window[j], multiple).Err? ==>
            r == Err(AuthorsFromLine(window[j], multiple).error))
  {
    var window := ProposalLines(HeaderLineBudget, fileContents);
    var h := ScanHeader(window);
    ScanHeaderFindsLastMatches(window);
    SlotIsLastLine(window, ProposalLabel, h.identifier, i);
    forall j, multiple | PreferredAuthorAt(window, j, multiple)
      ensures (if h.singleAuthor.Some? then h.singleAuthor else h.multipleAuthor) == Some(window[j])
      ensures h.singleAuthor.None? == multiple
    {
      if multiple {
        SlotIsLastLine(window, MultipleAuthorLabel, h.multipleAuthor, j);
      } else {
        SlotIsLastLine(window, SingleAuthorLabel, h.singleAuthor, j);
      }
    }
  }

  /** Last stage: once identifier and authors are read, a window without a
      status line fails with `MissingStatusLine`; otherwise the status line
      decides, and a recognised status completes the record from the first
      line and the three labelled lines. */
  lemma ProposalFromStatusStage(fileContents: string, fileName: string, countWords: string -> nat,
                                i: int, j: int, multiple: bool)
    requires var window := ProposalLines(HeaderLineBudget, fileContents);
      && IsLastAt(window, ProposalLabel, i) && SeNumberFromLine(window[i]).Ok?
      && PreferredAuthorAt(window, j, multiple) && AuthorsFromLine(window[j], multiple).Ok?
    ensures var window := ProposalLines(HeaderLineBudget, fileContents);
      var r := ProposalFrom(fileContents, fileName, countWords);
      && (!HasLine(window, StatusLabel) ==> r == Err(MissingStatusLine))
      && (forall k :: IsLastAt(window, StatusLabel, k) ==>
            r == match StatusFromLine(window[k])
                 case Err(e) => Err(e)
                 case Ok(status) =>
                   Ok(Proposal(NameFromLine(Trim(window[0], Whitespace)), SeNumberFromLine(window[i]).value,
                               AuthorsFromLine(window[j], multiple).value, status, fileName, countWords(fileContents))))
  {
    var window := ProposalLines(HeaderLineBudget, fileContents);
    var h := ScanHeader(window);
    ScanHeaderFindsLastMatches(window);
    SlotIsLastLine(window, ProposalLabel, h.identifier, i);
    if multiple {
      SlotIsLastLine(window, MultipleAuthorLabel, h.multipleAuthor, j);
    } else {
      SlotIsLastLine(window, SingleAuthorLabel, h.singleAuthor, j);
    }
    forall k | IsLastAt(window, StatusLabel, k) ensures h.status == Some(window[k]) {
      SlotIsLastLine(window, StatusLabel, h.status, k);
    }
  }

  /** What a successful parse read: the first line for the title and the
      scan's slots for the other fields. */
  lemma ProposalFromOkSlots(fileContents: string, fileName: string, countWords: string -> nat)
    ensures var window := ProposalLines(HeaderLineBudget, fileContents);
      var h := ScanHeader(window);
      var r := ProposalFrom(fileContents, fileName, countWords);
      r.Ok? ==>
        && |window| > 0
        && r.value.title == NameFromLine(Trim(window[0], Whitespace))
        && h.identifier.Some? && SeNumberFromLine(h.identifier.value) == Ok(r.value.seNumber)
        && (h.singleAuthor.Some? ==> AuthorsFromLine(h.singleAuthor.value, false) == Ok(r.value.authors))
        && (h.singleAuthor.None? ==>
              h.multipleAuthor.Some? && AuthorsFromLine(h.multipleAuthor.value, true) == Ok(r.value.authors))
        && h.status.Some? && StatusFromLine(h.status.value) == Ok(r.value.status)
  {
    var window := ProposalLines(HeaderLineBudget, fileContents);
    if |window| > 0 {
      FromHeaderOkSlots(NameFromLine(Trim(window[0], Whitespace)), ScanHeader(window), fileName, countWords(fileContents));
    }
  }

  /** What a successful assembly read from each slot. */
  lemma FromHeaderOkSlots(title: string, h: HeaderLines, fileName: string, wordCount: nat)
    ensures var r := FromHeader(title, h, fileName, wordCount);
      r.Ok? ==>
        && h.identifier.Some? && SeNumberFromLine(h.identifier.value) == Ok(r.value.seNumber)
        && (h.singleAuthor.Some? ==> AuthorsFromLine(h.singleAuthor.value, false) == Ok(r.value.authors))
        && (h.singleAuthor.None? ==>
              h.multipleAuthor.Some? && AuthorsFromLine(h.multipleAuthor.value, true) == Ok(r.value.authors))
        && h.status.Some? && StatusFromLine(h.status.value) == Ok(r.value.status)
  {
  }

  /** Every field of a successful parse comes from the right line: the title
      from the first line, and each labelled field from the LAST line of the
      window carrying its label, authors preferring a single-author line
      (offset 10) over a multiple-author line (offset 11). */
  lemma ProposalFromReadsLastLabelledLines(fileContents: string, fileName: string, countWords: string -> nat)
    ensures var window := ProposalLines(HeaderLineBudget, fileContents);
      var r := ProposalFrom(fileContents, fileName, countWords);
      r.Ok? ==>
        && |window| > 0
        && r.value.title == NameFromLine(Trim(window[0], Whitespace))
        && (forall i :: IsLastAt(window, ProposalLabel, i) ==> SeNumberFromLine(window[i]) == Ok(r.value.seNumber))
        && (forall i :: IsLastAt(window, SingleAuthorLabel, i) ==>
              AuthorsFromLine(window[i], false) == Ok(r.value.authors))
        && (forall i :: IsLastAt(window, MultipleAuthorLabel, i) && !HasLine(window, SingleAuthorLabel) ==>
              AuthorsFromLine(window[i], true) == Ok(r.value.authors))
        && (forall i :: IsLastAt(window, StatusLabel, i) ==> StatusFromLine(window[i]) == Ok(r.value.status))
  {
    ProposalFromOkSlots(fileContents, fileName, countWords);
    var window := ProposalLines(HeaderLineBudget, fileContents);
    var h := ScanHeader(window);
    ScanHeaderFindsLastMatches(window);
    forall i | IsLastAt(window, ProposalLabel, i) ensures h.identifier == Some(window[i]) {
      SlotIsLastLine(window, ProposalLabel, h.identifier, i);
    }
    forall i | IsLastAt(window, SingleAuthorLabel, i) ensures h.singleAuthor == Some(window[i]) {
      SlotIsLastLine(window, SingleAuthorLabel, h.singleAuthor, i);
    }
    forall i | IsLastAt(window, MultipleAuthorLabel, i) ensures h.multipleAuthor == Some(window[i]) {
      SlotIsLastLine(window, MultipleAuthorLabel, h.multipleAuthor, i);
    }
    forall i | IsLastAt(window, StatusLabel, i) ensures h.status == Some(window[i]) {
      SlotIsLastLine(window, StatusLabel, h.status, i);
    }
  }

  // ---------------------------------------------------------------------
  // Batch parse and sort (`parseProposals`)
  // ---------------------------------------------------------------------

  /** A document that failed to parse, named by its file. */
  datatype FileError = FileError(fileName: string, error: ParseError)

  /** Collects per-file results in order, stopping at the first failure and
      naming its file. */
  function Collect(names: seq<string>, results: seq<Result<Proposal, ParseError>>): (r: Result<seq<Proposal>, FileError>)
    requires |names| == |results|
    ensures r.Ok? ==> |r.value| == |results| && forall i :: 0 <= i < |results| ==> results[i] == Ok(r.value[i])
    ensures r.Err? ==>
              exists i ::
                && 0 <= i < |results|
                && results[i] == Err(r.error.error)
                && r.error.fileName == names[i]
                && forall j :: 0 <= j < i ==> results[j].Ok?
    decreases |results|
  {
    if |results| == 0 then Ok([])
    else
      match results[0]
      case Err(e) => Err(FileError(names[0], e))
      case Ok(p) =>
        match Collect(names[1..], results[1..])
        case Err(e) =>
          var i :| 0 <= i < |results[1..]|
            && results[1..][i] == Err(e.error)
            && e.fileName == names[1..][i]
            && forall j :: 0 <= j < i ==> results[1..][j].Ok?;
          assert results[i + 1] == Err(e.error) && names[i + 1] == e.fileName;
          assert forall j :: 1 <= j < i + 1 ==> results[j] == results[1..][j - 1];
          Err(e)
        case Ok(ps) => Ok([p] + ps)
  }

  /** File `i` is the first of `files` that fails to parse, and `e` names it
      and its error. */
  predicate FirstFailureAt(files: seq<(string, string)>, countWords: string -> nat, i: int, e: FileError) {
    && 0 <= i < |files|
    && ProposalFrom(files[i].1, files[i].0, countWords) == Err(e.error)
    && e.fileName == files[i].0
    && forall j :: 0 <= j < i ==> ProposalFrom(files[j].1, files[j].0, countWords).Ok?
  }

  /** Parses each (file name, contents) pair in order, stopping at the first
      document that fails. */
  function ParseAll(files: seq<(string, string)>, countWords: string -> nat): (r: Result<seq<Proposal>, FileError>)
    ensures r.Ok? ==>
              && |r.value| == |files|
              && forall i :: 0 <= i < |files| ==> ProposalFrom(files[i].1, files[i].0, countWords) == Ok(r.value[i])
    ensures r.Err? ==> exists i :: FirstFailureAt(files, countWords, i, r.error)
  {
    var names := seq(|files|, i requires 0 <= i < |files| => files[i].0);
    var results := seq(|files|, i requires 0 <= i < |files| => ProposalFrom(files[i].1, files[i].0, countWords));
    var r := Collect(names, results);
    if r.Ok? then
      assert forall i :: 0 <= i < |files| ==> results[i] == ProposalFrom(files[i].1, files[i].0, countWords);
      r
    else
      var i :| && 0 <= i < |results|
               && results[i] == Err(r.error.error)
               && r.error.fileName == names[i]
               && forall j :: 0 <= j < i ==> results[j].Ok?;
      assert forall j :: 0 <= j < i ==> results[j] == ProposalFrom(files[j].1, files[j].0, countWords);
      assert FirstFailureAt(files, countWords, i, r.error);
      r
  }

  // ---------------------------------------------------------------------
  // Round trip for a standard header
  // ---------------------------------------------------------------------

  /** The four header lines of a proposal written in the usual form: a level
      one heading, the identifier link, one author link and an emphasised
      status. */
  function StandardHeader(title: string, id: string, idRest: string, name: string, url: string, statusText: string): (lines: seq<string>)
    ensures |lines| == 4
  {
    [ "# " + title,
      "* Proposal: [" + id + idRest,
      SingleAuthorLabel + " " + Link(name, url),
      StatusLabel + "**" + statusText + "**" ]
  }

  /** The conditions under which each part of a standard header survives
      the trip through the text unchanged. */
  predicate StandardParts(title: string, id: string, idRest: string, name: string, url: string, statusText: string) {
    && |title| > 0 && title[0] !in HeadingMarks + Whitespace && title[|title| - 1] !in HeadingMarks + Whitespace
    && |id| == IdentifierLength && id[0] !in Whitespace && id[|id| - 1] !in Whitespace
    && PlainName(name) && NoneIn(url, {','})
    && |statusText| > 0 && statusText[0] !in StatusMarks && statusText[|statusText| - 1] !in StatusMarks
    && NoneIn(title, {'\n'}) && NoneIn(id, {'\n'}) && NoneIn(idRest, {'\n', '\r'})
    && NoneIn(name, {'\n'}) && NoneIn(url, {'\n'}) && NoneIn(statusText, {'\n'})
  }

  /** Which markers each line of a standard header carries. */
  lemma StandardHeaderMarkers(title: string, id: string, idRest: string, name: string, url: string, statusText: string)
    ensures var lines := StandardHeader(title, id, idRest, name, url, statusText);
      && IsLastAt(lines, ProposalLabel, 1)
      && IsLastAt(lines, SingleAuthorLabel, 2)
      && !HasLine(lines, MultipleAuthorLabel)
      && IsLastAt(lines, StatusLabel, 3)
  {
    var lines := StandardHeader(title, id, idRest, name, url, statusText);
    assert lines[1][..|ProposalLabel|] == ProposalLabel;
    assert lines[2][..|SingleAuthorLabel|] == SingleAuthorLabel;
    assert lines[3][..|StatusLabel|] == StatusLabel;
    assert lines[0][0] == '#' && lines[1][2] == 'P' && lines[2][2] == 'A' && lines[3][2] == 'S';
    assert lines[2][8] == ':';
  }

  /** No line of a standard header contains a line feed or ends in a
      carriage return. */
  lemma StandardHeaderLines(title: string, id: string, idRest: string, name: string, url: string, statusText: string)
    requires StandardParts(title, id, idRest, name, url, statusText)
    ensures var lines := StandardHeader(title, id, idRest, name, url, statusText);
      forall i :: 0 <= i < |lines| ==> NoneIn(lines[i], {'\n'}) && !EndsWithCR(lines[i])
  {
    var lf: set<char> := {'\n'};
    assert NoneIn("# ", lf) && NoneIn("* Proposal: [", lf) && NoneIn(SingleAuthorLabel + " [", lf);
    assert NoneIn("](", lf) && NoneIn(")", lf) && NoneIn(StatusLabel + "**", lf) && NoneIn("**", lf);
    NoneInAppend("# ", title, lf);
    NoneInAppend("* Proposal: [", id, lf);
    NoneInAppend("* Proposal: [" + id, idRest, lf);
    NoneInAppend(SingleAuthorLabel + " [", name, lf);
    NoneInAppend(SingleAuthorLabel + " [" + name, "](", lf);
    NoneInAppend(SingleAuthorLabel + " [" + name + "](", url, lf);
    NoneInAppend(SingleAuthorLabel + " [" + name + "](" + url, ")", lf);
    NoneInAppend(StatusLabel + "**", statusText, lf);
    NoneInAppend(StatusLabel + "**" + statusText, "**", lf);
    var lines := StandardHeader(title, id, idRest, name, url, statusText);
    assert lines[2] == SingleAuthorLabel + " [" + name + "](" + url + ")";
    assert lines[1] == "* Proposal: [" + id + idRest;
    if |idRest| == 0 {
      assert lines[1][|lines[1]| - 1] == id[|id| - 1];
    } else {
      assert lines[1][|lines[1]| - 1] == idRest[|idRest| - 1];
    }
  }

  /** The header window of a standard-header document is its four lines. */
  lemma StandardHeaderWindow(title: string, id: string, idRest: string, name: string, url: string, statusText: string)
    requires StandardParts(title, id, idRest, name, url, statusText)
    ensures var lines := StandardHeader(title, id, idRest, name, url, statusText);
      ProposalLines(HeaderLineBudget, Terminated(lines, "\n")) == lines
  {
    StandardHeaderLines(title, id, idRest, name, url, statusText);
    SplitLinesTerminated(StandardHeader(title, id, idRest, name, url, statusText));
  }

  /** The scan of a standard header fills the identifier, single-author and
      status slots with lines 1, 2 and 3. */
  lemma StandardHeaderScan(title: string, id: string, idRest: string, name: string, url: string, statusText: string)
    ensures var lines := StandardHeader(title, id, idRest, name, url, statusText);
      ScanHeader(lines) == HeaderLines(Some(lines[1]), Some(lines[2]), None, Some(lines[3]))
  {
    var lines := StandardHeader(title, id, idRest, name, url, statusText);
    var h := ScanHeader(lines);
    ScanHeaderFindsLastMatches(lines);
    StandardHeaderMarkers(title, id, idRest, name, url, statusText);
    SlotIsLastLine(lines, ProposalLabel, h.identifier, 1);
    SlotIsLastLine(lines, SingleAuthorLabel, h.singleAuthor, 2);
    SlotIsLastLine(lines, StatusLabel, h.status, 3);
  }

  /** The title line of a standard header gives back the title. */
  lemma StandardHeaderTitle(title: string, id: string, idRest: string, name: string, url: string, statusText: string)
    requires StandardParts(title, id, idRest, name, url, statusText)
    ensures NameFromLine(Trim(StandardHeader(title, id, idRest, name, url, statusText)[0], Whitespace)) == title
  {
    var line := "# " + title;
    assert line == seq(1, _ => '#') + " " + title;
    TrimNoop(line, Whitespace);
    NameFromHeading(1, title);
  }

  /** The status line of a standard header is classified by its status text. */
  lemma StandardHeaderStatus(title: string, id: string, idRest: string, name: string, url: string, statusText: string)
    requires StandardParts(title, id, idRest, name, url, statusText)
    ensures var line := StandardHeader(title, id, idRest, name, url, statusText)[3];
      StatusFromLine(line) == StatusFromText(statusText, line)
  {
    var line := StatusLabel + "**" + statusText + "**";
    assert line[StatusOffset..] == "**" + statusText + "**";
    TrimBorder("**", statusText, "**", StatusMarks);
  }

  /** Round trip: a document that starts with a standard header parses into
      the header's fields, the status text going through the status
      classifier (whose failure is the parse's failure). */
  lemma ProposalFromStandardHeader(title: string, id: string, idRest: string, name: string, url: string, statusText: string,
                                   fileName: string, countWords: string -> nat)
    requires StandardParts(title, id, idRest, name, url, statusText)
    ensures var lines := StandardHeader(title, id, idRest, name, url, statusText);
      var doc := Terminated(lines, "\n");
      ProposalFrom(doc, fileName, countWords) ==
        match StatusFromText(statusText, lines[3])
        case Ok(status) => Ok(Proposal(title, id, [name], status, fileName, countWords(doc)))
        case Err(e) => Err(e)
  {
    StandardHeaderWindow(title, id, idRest, name, url, statusText);
    StandardHeaderScan(title, id, idRest, name, url, statusText);
    StandardHeaderTitle(title, id, idRest, name, url, statusText);
    StandardHeaderStatus(title, id, idRest, name, url, statusText);
    SeNumberFromProposalLine(id, idRest);
    SingleAuthorLink(name, url);
  }
}
