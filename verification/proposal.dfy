/** The value types of a parsed proposal: Swift versions, review statuses with
    their equality, display text and fixed lists, and the proposal record with
    its text rendering and numeric identifier. */
module Proposals {
  import opened Results
  import opened Errors
  import opened Strings
  import opened Decimal
  import opened StringOrder
  import opened Lines

  /** The Swift releases a proposal can be implemented in. `V3_0_1` is not a
      case of the original enumeration, but the parser produces it. */
  datatype SwiftVersion = V2_2 | V2_3 | V3_0 | V3_0_1 | V3_1

  /** `SwiftVersion.description`, the printed raw value. */
  function VersionText(v: SwiftVersion): (t: string)
    ensures |t| >= 3 && IsDigit(t[0]) && t[1] == '.' && IsDigit(t[2])
    ensures forall k :: 0 <= k < |t| ==> IsDigit(t[k]) || t[k] == '.'
  {
    match v
    case V2_2 => "2.2"
    case V2_3 => "2.3"
    case V3_0 => "3.0"
    case V3_0_1 => "3.0.1"
    case V3_1 => "3.1"
  }

  /** Different versions print differently. */
  lemma VersionTextInjective(v: SwiftVersion, w: SwiftVersion)
    ensures VersionText(v) == VersionText(w) ==> v == w
  {
  }

  /** The review status of a proposal. */
  datatype Status =
    | InReview
    | AwaitingReview
    | Accepted
    | Implemented(version: SwiftVersion)
    | Deferred
    | Rejected
    | Withdrawn

  /** `Status.allItems`, as listed in the source (without `Implemented(V3_0_1)`). */
  const AllItems: seq<Status> := [
    InReview, AwaitingReview, Accepted,
    Implemented(V2_2), Implemented(V2_3), Implemented(V3_0), Implemented(V3_1),
    Deferred, Rejected, Withdrawn
  ]

  /** `Status.allImplemented`. */
  const AllImplemented: seq<Status> := [
    Implemented(V2_2), Implemented(V2_3), Implemented(V3_0), Implemented(V3_1)
  ]

  /** `Status.allAccepted`. */
  const AllAccepted: seq<Status> := [
    Accepted, Implemented(V2_2), Implemented(V2_3), Implemented(V3_0), Implemented(V3_1)
  ]

  /** The relations between the three fixed lists. */
  lemma StatusLists()
    ensures AllAccepted == [Accepted] + AllImplemented
    ensures forall i :: 0 <= i < |AllImplemented| ==> AllImplemented[i].Implemented?
    ensures forall s :: s in AllImplemented ==> s in AllItems
    ensures forall s :: s in AllItems <==> s != Implemented(V3_0_1)
    ensures forall i, j :: 0 <= i < j < |AllItems| ==> AllItems[i] != AllItems[j]
  {
    forall s ensures s in AllItems <==> s != Implemented(V3_0_1) {
      match s
      case Implemented(v) => assert v != V3_0_1 ==> s in AllImplemented;
      case _ =>
    }
  }

  /** The source's hand-written `==` on `Status`, case by case. */
  function StatusEquals(lhs: Status, rhs: Status): (eq: bool)
    ensures eq <==> lhs == rhs
  {
    match (lhs, rhs)
    case (InReview, InReview) => true
    case (AwaitingReview, AwaitingReview) => true
    case (Accepted, Accepted) => true
    case (Implemented(v1), Implemented(v2)) => v1 == v2
    case (Deferred, Deferred) => true
    case (Rejected, Rejected) => true
    case (Withdrawn, Withdrawn) => true
    case _ => false
  }

  /** `Status.description`. */
  function Description(s: Status): (d: string)
    ensures |d| > 0
  {
    match s
    case InReview => "In review"
    case AwaitingReview => "Awaiting review"
    case Accepted => "Accepted (awaiting implementation)"
    case Implemented(v) => "Implemented (" + VersionText(v) + ")"
    case Deferred => "Deferred"
    case Rejected => "Rejected"
    case Withdrawn => "Withdrawn"
  }

  /** Distinct statuses have distinct descriptions. */
  lemma DescriptionInjective(a: Status, b: Status)
    ensures Description(a) == Description(b) ==> a == b
  {
    if Description(a) == Description(b) && a.Implemented? && b.Implemented? {
      var d := Description(a);
      assert VersionText(a.version) == d[13..|d| - 1];
      assert VersionText(b.version) == d[13..|d| - 1];
      VersionTextInjective(a.version, b.version);
    }
  }

  /** `Status.hashValue`: a hash of the description, for some string hash. */
  function HashValue(s: Status, hashString: string -> int): (h: int)
    ensures forall t :: StatusEquals(s, t) ==> h == hashString(Description(t))
  {
    hashString(Description(s))
  }

  /** Equal statuses hash alike, whatever the string hash. */
  lemma HashAgreesWithEquality(a: Status, b: Status, hashString: string -> int)
    requires StatusEquals(a, b)
    ensures HashValue(a, hashString) == HashValue(b, hashString)
  {
  }

  /** A parsed proposal. */
  datatype Proposal = Proposal(
    title: string,
    seNumber: string,
    authors: seq<string>,
    status: Status,
    fileName: string,
    wordCount: nat)

  /** `Proposal.description`: five labelled lines, each ended by a line feed. */
  function Describe(p: Proposal): (d: string)
    ensures StartsWith(d, p.seNumber + ": " + p.title + "\n")
    ensures |d| > 0 && d[|d| - 1] == '\n'
  {
    p.seNumber + ": " + p.title
      + "\n" + "Author(s): " + Join(p.authors, ", ")
      + "\n" + "Status: " + Description(p.status)
      + "\n" + "Filename: " + p.fileName
      + "\n" + "Word count: " + NatToDecimal(p.wordCount)
      + "\n"
  }

  /** A field that fits on one line. */
  predicate SingleLine(s: string) {
    NoneIn(s, {'\n', '\r'})
  }

  lemma SingleLineAppend(a: string, b: string)
    requires SingleLine(a) && SingleLine(b)
    ensures SingleLine(a + b)
  {
    assert forall k :: 0 <= k < |a + b| ==> (a + b)[k] == (if k < |a| then a[k] else b[k - |a|]);
  }

  lemma {:induction false} JoinSingleLine(parts: seq<string>, sep: string)
    requires SingleLine(sep)
    requires forall i :: 0 <= i < |parts| ==> SingleLine(parts[i])
    ensures SingleLine(Join(parts, sep))
    decreases |parts|
  {
    if |parts| > 1 {
      JoinSingleLine(parts[1..], sep);
      SingleLineAppend(parts[0], sep);
      SingleLineAppend(parts[0] + sep, Join(parts[1..], sep));
    }
  }

  lemma ShortDescriptionsSingleLine()
    ensures SingleLine("In review") && SingleLine("Awaiting review") && SingleLine("Deferred")
    ensures SingleLine("Rejected") && SingleLine("Withdrawn")
    ensures SingleLine("Implemented (") && SingleLine(")")
  {
  }

  lemma AcceptedDescriptionSingleLine(d: string)
    requires d == "Accepted (awaiting implementation)"
    ensures SingleLine(d)
  {
  }

  /** A status description never breaks a line. */
  lemma DescriptionSingleLine(s: Status)
    ensures SingleLine(Description(s))
  {
    ShortDescriptionsSingleLine();
    match s
    case Accepted =>
      AcceptedDescriptionSingleLine(Description(s));
    case Implemented(v) =>
      var t := VersionText(v);
      assert SingleLine(t);
      SingleLineAppend("Implemented (", t);
      SingleLineAppend("Implemented (" + t, ")");
    case _ =>
  }

  /** The five lines of a proposal's description, as a reader of the text sees them. */
  function DescriptionLines(p: Proposal): seq<string> {
    [ p.seNumber + ": " + p.title,
      "Author(s): " + Join(p.authors, ", "),
      "Status: " + Description(p.status),
      "Filename: " + p.fileName,
      "Word count: " + NatToDecimal(p.wordCount) ]
  }

  /** The description is its five lines, each followed by a line feed. */
  lemma DescribeIsTerminated(p: Proposal)
    ensures Describe(p) == Terminated(DescriptionLines(p), "\n")
  {
    var ls := DescriptionLines(p);
    TerminatedFive(ls[0], ls[1], ls[2], ls[3], ls[4]);
    assert ls == [ls[0], ls[1], ls[2], ls[3], ls[4]];
    var x1 := ls[0] + "\n";
    AppendAssoc(x1, "Author(s): ", Join(p.authors, ", "));
    var x2 := x1 + ls[1] + "\n";
    AppendAssoc(x2, "Status: ", Description(p.status));
    var x3 := x2 + ls[2] + "\n";
    AppendAssoc(x3, "Filename: ", p.fileName);
    var x4 := x3 + ls[3] + "\n";
    AppendAssoc(x4, "Word count: ", NatToDecimal(p.wordCount));
  }

  lemma AppendAssoc(x: string, y: string, z: string)
    ensures x + (y + z) == x + y + z
  {
  }

  lemma TerminatedFive(a: string, b: string, c: string, d: string, e: string)
    ensures Terminated([a, b, c, d, e], "\n") == a + "\n" + b + "\n" + c + "\n" + d + "\n" + e + "\n"
  {
    var ls := [a, b, c, d, e];
    TerminatedSnoc([], a, "\n");
    TerminatedSnoc([a], b, "\n");
    TerminatedSnoc([a, b], c, "\n");
    TerminatedSnoc([a, b, c], d, "\n");
    TerminatedSnoc([a, b, c, d], e, "\n");
    assert [] + [a] == [a] && [a] + [b] == [a, b] && [a, b] + [c] == [a, b, c];
    assert [a, b, c] + [d] == [a, b, c, d] && [a, b, c, d] + [e] == ls;
  }

  /** Each labelled line of the description fits on one line when the fields do. */
  lemma DescriptionLinesSingle(p: Proposal)
    requires SingleLine(p.seNumber) && SingleLine(p.title) && SingleLine(p.fileName)
    requires forall i :: 0 <= i < |p.authors| ==> SingleLine(p.authors[i])
    ensures forall i :: 0 <= i < 5 ==> SingleLine(DescriptionLines(p)[i])
  {
    assert SingleLine(": ") && SingleLine(", ") && SingleLine("Author(s): ");
    assert SingleLine("Status: ") && SingleLine("Filename: ") && SingleLine("Word count: ");
    SingleLineAppend(p.seNumber, ": ");
    SingleLineAppend(p.seNumber + ": ", p.title);
    JoinSingleLine(p.authors, ", ");
    SingleLineAppend("Author(s): ", Join(p.authors, ", "));
    DescriptionSingleLine(p.status);
    SingleLineAppend("Status: ", Description(p.status));
    SingleLineAppend("Filename: ", p.fileName);
    assert SingleLine(NatToDecimal(p.wordCount));
    SingleLineAppend("Word count: ", NatToDecimal(p.wordCount));
  }

  /** When every field fits on one line, enumerating the lines of the
      description gives back exactly the five labelled lines. */
  lemma DescribeLines(p: Proposal)
    requires SingleLine(p.seNumber) && SingleLine(p.title) && SingleLine(p.fileName)
    requires forall i :: 0 <= i < |p.authors| ==> SingleLine(p.authors[i])
    ensures SplitLines(Describe(p)) == DescriptionLines(p)
  {
    var ls := DescriptionLines(p);
    DescriptionLinesSingle(p);
    forall i | 0 <= i < |ls|
      ensures NoneIn(ls[i], {'\n'}) && !EndsWithCR(ls[i])
    {
      assert SingleLine(ls[i]);
    }
    DescribeIsTerminated(p);
    SplitLinesTerminated(ls);
  }

  /** An identifier of the canonical form "SE-" followed by four digits. */
  predicate IsIdentifier(s: string) {
    |s| == 7 && s[..3] == "SE-" && AllDigits(s[3..])
  }

  /** `Proposal.number`: the identifier without its first three characters,
      read as an integer. */
  function Number(seNumber: string): (r: Result<int, ParseError>)
    ensures |seNumber| < 3 ==> r == Err(TooShort(seNumber, 3))
    ensures r.Ok? ==> |seNumber| > 3 && forall k :: 3 < k < |seNumber| ==> IsDigit(seNumber[k])
    ensures r.Err? && |seNumber| >= 3 ==> r == Err(NotANumber(seNumber[3..]))
    ensures |seNumber| >= 3 ==> (r.Ok? <==> ParseInt(seNumber[3..]).Some?)
    ensures r.Ok? ==> ParseInt(seNumber[3..]) == Some(r.value)
  {
    if |seNumber| < 3 then Err(TooShort(seNumber, 3))
    else
      var digits := seNumber[3..];
      match ParseInt(digits)
      case None => Err(NotANumber(digits))
      case Some(n) => Ok(n)
  }

  /** A canonical identifier numbers the proposal by its four digits:
      "SE-0068" is proposal 68. */
  lemma NumberOfIdentifier(s: string)
    requires IsIdentifier(s)
    ensures Number(s) == Ok(DecimalValue(s[3..]))
  {
    DecimalValueBound(s[3..]);
    assert Pow10(|s[3..]|) == 10000;
  }

  /** For canonical identifiers, the string order used to sort proposals is
      the order of their numbers. */
  lemma NumberOrderAgrees(a: string, b: string)
    requires IsIdentifier(a) && IsIdentifier(b)
    ensures Number(a).Ok? && Number(b).Ok?
    ensures Less(a, b) <==> Number(a).value < Number(b).value
  {
    NumberOfIdentifier(a);
    NumberOfIdentifier(b);
    assert a == "SE-" + a[3..] && b == "SE-" + b[3..];
    LessCommonPrefix("SE-", a[3..], b[3..]);
    LessDigitsNumeric(a[3..], b[3..]);
  }
}
