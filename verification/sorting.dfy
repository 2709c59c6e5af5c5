// The final step of `parseProposals`: ordering the parsed proposals by
// their identifier strings with Swift's `<` on `String`.

module Sorting {
  import opened Results
  import opened StringOrder
  import opened Proposals
  import opened Parser

  /** Every earlier proposal's identifier is at most every later one's. */
  predicate SortedBySeNumber(ps: seq<Proposal>) {
    forall i, j :: 0 <= i < j < |ps| ==> LessOrEqual(ps[i].seNumber, ps[j].seNumber)
  }

  /** Every proposal in `ps` has an identifier at least `key`. */
  predicate AllAtLeast(key: string, ps: seq<Proposal>) {
    forall i :: 0 <= i < |ps| ==> LessOrEqual(key, ps[i].seNumber)
  }

  /** Places `p` before the first proposal whose identifier is not below its own. */
  function Insert(p: Proposal, ps: seq<Proposal>): (r: seq<Proposal>)
    ensures multiset(r) == multiset(ps) + multiset{p}
    ensures |r| == |ps| + 1
  {
    if |ps| == 0 then [p]
    else if Less(ps[0].seNumber, p.seNumber) then
      assert ps == [ps[0]] + ps[1..];
      [ps[0]] + Insert(p, ps[1..])
    else [p] + ps
  }

  /** A lower bound of a multiset-equal sequence carries over. */
  lemma AllAtLeastPermuted(key: string, a: seq<Proposal>, b: seq<Proposal>)
    requires multiset(a) == multiset(b) && AllAtLeast(key, a)
    ensures AllAtLeast(key, b)
  {
    forall i | 0 <= i < |b| ensures LessOrEqual(key, b[i].seNumber) {
      assert b[i] in multiset(a);
      var j :| 0 <= j < |a| && a[j] == b[i];
    }
  }

  lemma {:induction false} InsertKeepsSorted(p: Proposal, ps: seq<Proposal>)
    requires SortedBySeNumber(ps)
    ensures SortedBySeNumber(Insert(p, ps))
    decreases |ps|
  {
    if |ps| == 0 {
    } else if Less(ps[0].seNumber, p.seNumber) {
      var rest := Insert(p, ps[1..]);
      InsertKeepsSorted(p, ps[1..]);
      LessAsymmetric(ps[0].seNumber, p.seNumber);
      assert AllAtLeast(ps[0].seNumber, ps[1..] + [p]);
      AllAtLeastPermuted(ps[0].seNumber, ps[1..] + [p], rest);
      var r := [ps[0]] + rest;
      forall i, j | 0 <= i < j < |r| ensures LessOrEqual(r[i].seNumber, r[j].seNumber) {
        if i > 0 {
          assert r[i] == rest[i - 1] && r[j] == rest[j - 1];
        }
      }
    } else {
      var r := [p] + ps;
      forall i, j | 0 <= i < j < |r| ensures LessOrEqual(r[i].seNumber, r[j].seNumber) {
        if i == 0 {
          LessIrreflexive(ps[0].seNumber);
          LessOrEqualTransitive(p.seNumber, ps[0].seNumber, ps[j - 1].seNumber);
        } else {
          assert r[i] == ps[i - 1] && r[j] == ps[j - 1];
        }
      }
    }
  }

  /** `allProposals.sorted { $0.seNumber < $1.seNumber }`, as an insertion sort.
      Swift does not promise a stable sort, so only the order of identifiers
      and the multiset of proposals are fixed by the contract. */
  function SortBySeNumber(ps: seq<Proposal>): (r: seq<Proposal>)
    ensures multiset(r) == multiset(ps)
    ensures |r| == |ps|
    ensures SortedBySeNumber(r)
  {
    if |ps| == 0 then []
    else
      assert ps == [ps[0]] + ps[1..];
      var rest := SortBySeNumber(ps[1..]);
      InsertKeepsSorted(ps[0], rest);
      Insert(ps[0], rest)
  }

  /** Sorting an already sorted list of distinct identifiers changes nothing. */
  lemma {:induction false} SortSortedDistinct(ps: seq<Proposal>)
    requires forall i, j :: 0 <= i < j < |ps| ==> Less(ps[i].seNumber, ps[j].seNumber)
    ensures SortBySeNumber(ps) == ps
    decreases |ps|
  {
    if |ps| > 0 {
      SortSortedDistinct(ps[1..]);
      if |ps| > 1 {
        LessAsymmetric(ps[0].seNumber, ps[1].seNumber);
      }
    }
  }

  /** `parseProposals(inDirectory:)` without the directory listing: parse
      every file, then sort by identifier. */
  function ParseProposals(files: seq<(string, string)>, countWords: string -> nat): (r: Result<seq<Proposal>, FileError>)
    ensures r.Ok? ==> SortedBySeNumber(r.value)
    ensures match ParseAll(files, countWords)
      case Ok(all) => r.Ok? && multiset(r.value) == multiset(all)
      case Err(e) => r == Err(e)
  {
    match ParseAll(files, countWords)
    case Err(e) => Err(e)
    case Ok(all) => Ok(SortBySeNumber(all))
  }

  /** Every parsed proposal is one of the files' parses, and each file's
      parse appears in the sorted result. */
  lemma ParseProposalsMembers(files: seq<(string, string)>, countWords: string -> nat)
    ensures var r := ParseProposals(files, countWords);
      r.Ok? ==>
        && |r.value| == |files|
        && (forall p :: p in r.value <==>
              exists i :: 0 <= i < |files| && ProposalFrom(files[i].1, files[i].0, countWords) == Ok(p))
  {
    var r := ParseProposals(files, countWords);
    if r.Ok? {
      var all := ParseAll(files, countWords).value;
      forall p ensures p in r.value <==> p in all {
        assert p in r.value <==> p in multiset(r.value);
        assert p in all <==> p in multiset(all);
      }
      assert |r.value| == |multiset(r.value)| == |multiset(all)| == |all|;
    }
  }
}
