// The header of SE-0068, "Expanding Swift `Self` to class members and value
// types", and a few other header lines, stated as lemmas about the parser's
// functions. Each example fixes its strings in its `requires` so that the
// parser's functions are unfolded only as far as the general lemmas need.

module Examples {
  import opened Results
  import opened Strings
  import opened Lines
  import opened Decimal
  import opened StringOrder
  import opened Proposals
  import opened Parser
  import opened Sorting

  /** "* Proposal: [SE-0068](0068-universal-self.md)" yields "SE-0068". */
  lemma IdentifierOfSE0068(id: string, rest: string)
    requires id == "SE-0068" && rest == "](0068-universal-self.md)"
    ensures SeNumberFromLine("* Proposal: [" + id + rest) == Ok(id)
  {
    SeNumberFromProposalLine(id, rest);
  }

  /** "* Author: [Erica Sadun](http://github.com/erica)" names one author. */
  lemma AuthorsOfSE0068(name: string, url: string)
    requires name == "Erica Sadun" && url == "http://github.com/erica"
    ensures AuthorsFromLine(SingleAuthorLabel + " " + Link(name, url), false) == Ok([name])
  {
    assert PlainName(name);
    SingleAuthorLink(name, url);
  }

  /** "* Authors: [Erica Sadun](...), [Chris Lattner](...)" names both, in order. */
  lemma TwoAuthors(names: seq<string>, urls: seq<string>)
    requires names == ["Erica Sadun", "Chris Lattner"]
    requires urls == ["http://github.com/erica", "http://github.com/lattner"]
    ensures AuthorsFromLine(MultipleAuthorLabel + " " + Join(Links(names, urls), ", "), true) == Ok(names)
  {
    assert PlainName(names[0]) && PlainName(names[1]);
    assert NoneIn(urls[0], {','}) && NoneIn(urls[1], {','});
    MultipleAuthorLinks(names, urls);
  }

  lemma NotActiveReview(text: string)
    requires text == "Accepted with revisions"
    ensures !ContainsCI(text, "Active Review")
  {
    MissingPairNotContained(text, "Active Review", 2);
  }

  lemma NotAwaitingReview(text: string)
    requires text == "Accepted with revisions"
    ensures !ContainsCI(text, "Awaiting Review")
  {
    MissingCharNotContained(text, "Awaiting Review", 7);
  }

  /** "Accepted with revisions" is an accepted proposal: neither review phrase
      occurs in it, and "Accepted" does. */
  lemma AcceptedWithRevisions(text: string, line: string)
    requires text == "Accepted with revisions"
    ensures StatusFromText(text, line) == Ok(Accepted)
  {
    NotActiveReview(text);
    NotAwaitingReview(text);
    assert MatchesAt(text, "Accepted", 0);
  }

  /** "* Status: **Accepted with revisions**": the emphasis marks are trimmed
      before the status is classified. */
  lemma StatusOfSE0068(text: string)
    requires text == "Accepted with revisions"
    ensures StatusFromLine(StatusLabel + "**" + text + "**") == Ok(Accepted)
  {
    var line := StatusLabel + "**" + text + "**";
    assert line[StatusOffset..] == "**" + text + "**";
    TrimBorder("**", text, "**", StatusMarks);
    AcceptedWithRevisions(text, line);
  }

  /** No earlier version phrase occurs in "Implemented (Swift 3.0.1)". */
  lemma PatchReleaseSkipsEarlierPhrases(text: string)
    requires text == "Implemented (Swift 3.0.1)"
    ensures !ContainsCI(text, "Swift 2.2") && !ContainsCI(text, "Swift 2.3")
  {
    MissingCharNotContained(text, "Swift 2.2", 6);
    MissingCharNotContained(text, "Swift 2.3", 6);
  }

  lemma PatchReleaseIsNotMinor(text: string)
    requires text == "Implemented (Swift 3.0.1)"
    ensures !ContainsCI(text, "Swift 3.1")
  {
    MismatchEverywhere(text, "Swift 3.1", i => if i == 13 then 8 else 0);
  }

  /** The patch release 3.0.1 is found before the plain 3.0 it contains. */
  lemma PatchReleaseVersion(text: string)
    requires text == "Implemented (Swift 3.0.1)"
    ensures VersionFromText(text) == Ok(V3_0_1)
  {
    PatchReleaseSkipsEarlierPhrases(text);
    PatchReleaseIsNotMinor(text);
    assert MatchesAt(text, "Swift 3.0.1", 13);
  }

  lemma NumberOfSE0068()
    ensures Number("SE-0068") == Ok(68)
  {
    NumberOfIdentifier("SE-0068");
    assert "SE-0068"[3..] == "0068";
    assert "0068"[..3] == "006" && "006"[..2] == "00" && "00"[..1] == "0" && "0"[..0] == "";
    assert DecimalValue("0068") == 68;
  }

  lemma NumberOfSE0003()
    ensures Number("SE-0003") == Ok(3)
  {
    NumberOfIdentifier("SE-0003");
    assert "SE-0003"[3..] == "0003";
    assert "0003"[..3] == "000" && "000"[..2] == "00" && "00"[..1] == "0" && "0"[..0] == "";
  }

  /** Identifiers sort by their numbers, so SE-0003 precedes SE-0068. */
  lemma OrderOfIdentifiers()
    ensures Less("SE-0003", "SE-0068") && !Less("SE-0068", "SE-0003")
  {
    NumberOfSE0003();
    NumberOfSE0068();
    assert IsIdentifier("SE-0003") && IsIdentifier("SE-0068");
    NumberOrderAgrees("SE-0003", "SE-0068");
    LessAsymmetric("SE-0003", "SE-0068");
  }

  /** A four-line document headed "# Sample", numbered SE-0001, by Jane Doe
      and accepted, parses into that record. */
  lemma SampleDocument(title: string, id: string, name: string, status: string, countWords: string -> nat)
    requires title == "Sample" && id == "SE-0001" && name == "Jane Doe" && status == "Accepted"
    ensures var doc := Terminated(StandardHeader(title, id, "](0001-sample.md)", name, "url", status), "\n");
      ProposalFrom(doc, "0001-sample.md", countWords)
        == Ok(Proposal(title, id, [name], Accepted, "0001-sample.md", countWords(doc)))
  {
    var idRest, url := "](0001-sample.md)", "url";
    assert StandardParts(title, id, idRest, name, url, status);
    ProposalFromStandardHeader(title, id, idRest, name, url, status, "0001-sample.md", countWords);
    AcceptedText(status, StandardHeader(title, id, idRest, name, url, status)[3]);
  }

  /** The bare text "Accepted" is classified as accepted. */
  lemma AcceptedText(status: string, line: string)
    requires status == "Accepted"
    ensures StatusFromText(status, line) == Ok(Accepted)
  {
    LongerNotContained(status, "Active Review");
    LongerNotContained(status, "Awaiting Review");
    ContainsSelf(status);
  }

  lemma ScenarioOrder()
    ensures !Less("SE-0068", "SE-0003") && Less("SE-0003", "SE-0100") && Less("SE-0068", "SE-0100")
  {
    assert !Less("SE-0068", "SE-0003");
    assert Less("SE-0003", "SE-0100");
  }

  lemma InsertAhead(p: Proposal, q: Proposal)
    requires !Less(q.seNumber, p.seNumber)
    ensures Insert(p, [q]) == [p, q]
  {
  }

  lemma InsertBehind(p: Proposal, q: Proposal, r: Proposal)
    requires Less(q.seNumber, p.seNumber) && Less(r.seNumber, p.seNumber)
    ensures Insert(p, [q, r]) == [q, r, p]
  {
    assert [q, r][1..] == [r] && [r][1..] == [];
    assert Insert(p, [r]) == [r, p];
  }

  lemma SortPair(b: Proposal, c: Proposal)
    requires !Less(c.seNumber, b.seNumber)
    ensures SortBySeNumber([b, c]) == [b, c]
  {
    assert [b, c][1..] == [c] && [c][1..] == [];
    InsertAhead(b, c);
  }

  /** Proposals numbered SE-0100, SE-0003 and SE-0068 come out as SE-0003,
      SE-0068, SE-0100. */
  lemma SortingScenario(ps: seq<Proposal>)
    requires |ps| == 3
    requires ps[0].seNumber == "SE-0100" && ps[1].seNumber == "SE-0003" && ps[2].seNumber == "SE-0068"
    ensures SortBySeNumber(ps) == [ps[1], ps[2], ps[0]]
  {
    ScenarioOrder();
    assert ps[1..] == [ps[1], ps[2]];
    SortPair(ps[1], ps[2]);
    InsertBehind(ps[0], ps[1], ps[2]);
  }
}
