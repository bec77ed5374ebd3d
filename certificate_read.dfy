/** The read of the ACM certificate data source: pick a status filter, list
    certificates, keep the identifiers whose domain is the target, describe
    each one and keep those of a requested type, then report "not found",
    "multiple" or the newest survivor's identifier. The listing and the
    description calls are parameters: `list` maps a status filter to what
    the service returned, `describe` maps an identifier to its detail or to
    a failure. */
module CertificateRead {
  import opened AcmTypes
  import opened CreationOrder

  /** The status the listing is restricted to when the caller gives none. */
  const DefaultStatus: string := "ISSUED"

  // ---------------------------------------------------------------------
  // Status filter

  /** The statuses the listing asks for: the caller's list when it was set,
      otherwise just "ISSUED". Never empty. */
  function StatusFilter(statuses: seq<string>): (filter: seq<string>)
    ensures |statuses| > 0 ==> filter == statuses
    ensures |statuses| == 0 ==> filter == ["ISSUED"]
    ensures |filter| > 0
  {
    if |statuses| > 0 then statuses else [DefaultStatus]
  }

  // ---------------------------------------------------------------------
  // Domain filter over every listed page

  /** The summaries of all pages, page after page, each in page order. */
  function Flatten(pages: seq<seq<CertificateSummary>>): (all: seq<CertificateSummary>)
  {
    if pages == [] then [] else Flatten(pages[..|pages| - 1]) + pages[|pages| - 1]
  }

  /** The identifiers of the summaries whose domain is exactly `domain`,
      in the order the summaries come. */
  function MatchingArns(summaries: seq<CertificateSummary>, domain: string): (arns: seq<string>)
    ensures |arns| <= |summaries|
  {
    if summaries == [] then []
    else
      var last := summaries[|summaries| - 1];
      MatchingArns(summaries[..|summaries| - 1], domain)
        + (if last.domainName == domain then [last.arn] else [])
  }

  /** Every summary of every page is seen, and nothing else. */
  lemma {:induction false} FlattenContains(pages: seq<seq<CertificateSummary>>, s: CertificateSummary)
    ensures s in Flatten(pages) <==> exists p :: 0 <= p < |pages| && s in pages[p]
  {
    if pages != [] {
      var init := pages[..|pages| - 1];
      FlattenContains(init, s);
      if s in Flatten(init) {
        var p :| 0 <= p < |init| && s in init[p];
        assert pages[p] == init[p];
      }
      if exists p :: 0 <= p < |pages| && s in pages[p] {
        var p :| 0 <= p < |pages| && s in pages[p];
        if p < |init| {
          assert init[p] == pages[p];
        }
      }
    }
  }

  /** An identifier is kept exactly when some summary carries it with the
      target domain: summaries for other domains never contribute. */
  lemma {:induction false} MatchingArnsContains(summaries: seq<CertificateSummary>, domain: string, a: string)
    ensures a in MatchingArns(summaries, domain) <==>
      exists k :: 0 <= k < |summaries| && summaries[k].domainName == domain && summaries[k].arn == a
  {
    if summaries != [] {
      var init := summaries[..|summaries| - 1];
      MatchingArnsContains(init, domain, a);
      if exists k :: 0 <= k < |init| && init[k].domainName == domain && init[k].arn == a {
        var k :| 0 <= k < |init| && init[k].domainName == domain && init[k].arn == a;
        assert summaries[k] == init[k];
      }
      if exists k :: 0 <= k < |summaries| && summaries[k].domainName == domain && summaries[k].arn == a {
        var k :| 0 <= k < |summaries| && summaries[k].domainName == domain && summaries[k].arn == a;
        if k < |init| {
          assert init[k] == summaries[k];
        }
      }
    }
  }

  /** Matching preserves listing order: the matches of a longer listing are
      the matches of its first part followed by those of the rest. */
  lemma {:induction false} MatchingArnsAppend(first: seq<CertificateSummary>, rest: seq<CertificateSummary>, domain: string)
    ensures MatchingArns(first + rest, domain) == MatchingArns(first, domain) + MatchingArns(rest, domain)
  {
    if rest == [] {
      assert first + rest == first;
    } else {
      var init := rest[..|rest| - 1];
      MatchingArnsAppend(first, init, domain);
      assert (first + rest)[..|first + rest| - 1] == first + init;
    }
  }

  /** Goes through every page and collects the identifiers whose domain is
      the target. The page callback never stops the listing early. */
  method CollectArns(pages: seq<seq<CertificateSummary>>, domain: string) returns (arns: seq<string>)
    ensures arns == MatchingArns(Flatten(pages), domain)
  {
    arns := [];
    var p := 0;
    while p < |pages|
      invariant 0 <= p <= |pages|
      invariant arns == MatchingArns(Flatten(pages[..p]), domain)
    {
      var page := pages[p];
      var k := 0;
      assert Flatten(pages[..p]) + page[..k] == Flatten(pages[..p]);
      while k < |page|
        invariant 0 <= k <= |page|
        invariant arns == MatchingArns(Flatten(pages[..p]) + page[..k], domain)
      {
        if page[k].domainName == domain {
          arns := arns + [page[k].arn];
        }
        assert Flatten(pages[..p]) + page[..k + 1] == (Flatten(pages[..p]) + page[..k]) + [page[k]];
        k := k + 1;
      }
      assert pages[..p + 1][..p] == pages[..p];
      assert page[..k] == page;
      p := p + 1;
    }
    assert pages[..p] == pages;
  }

  // ---------------------------------------------------------------------
  // Type filter

  /** Describes each identifier in turn and keeps, in order, the details
      whose type is one of `types`; any failed description fails the whole
      filter. */
  function KeepByType(arns: seq<string>, types: seq<string>, describe: string -> Option<CertificateDetail>)
    : (kept: Option<seq<CertificateDetail>>)
  {
    if arns == [] then Some([])
    else
      match KeepByType(arns[..|arns| - 1], types, describe)
      case None => None
      case Some(kept) =>
        match describe(arns[|arns| - 1])
        case None => None
        case Some(d) => Some(if d.certType in types then kept + [d] else kept)
  }

  /** The details the read goes on with: without a `types` argument no
      description is made and nothing is kept. */
  function CertDetails(arns: seq<string>, types: seq<string>, describe: string -> Option<CertificateDetail>)
    : (r: Option<seq<CertificateDetail>>)
    ensures |types| == 0 ==> r == Some([])
  {
    if |types| > 0 then KeepByType(arns, types, describe) else Some([])
  }

  /** The description of one of `arns` fails. */
  predicate SomeDescriptionFails(arns: seq<string>, describe: string -> Option<CertificateDetail>) {
    exists k :: 0 <= k < |arns| && describe(arns[k]).None?
  }

  /** The type filter fails exactly when one of the descriptions fails. */
  lemma {:induction false} KeepByTypeFailsIff(arns: seq<string>, types: seq<string>, describe: string -> Option<CertificateDetail>)
    ensures KeepByType(arns, types, describe).None? <==> SomeDescriptionFails(arns, describe)
  {
    if arns != [] {
      var init := arns[..|arns| - 1];
      KeepByTypeFailsIff(init, types, describe);
      if exists k :: 0 <= k < |init| && describe(init[k]).None? {
        var k :| 0 <= k < |init| && describe(init[k]).None?;
        assert arns[k] == init[k];
      }
      if exists k :: 0 <= k < |arns| && describe(arns[k]).None? {
        var k :| 0 <= k < |arns| && describe(arns[k]).None?;
        if k < |init| {
          assert init[k] == arns[k];
        }
      }
    }
  }

  /** Everything kept is the description of one of the identifiers and has
      a requested type, and each identifier adds at most one detail. */
  lemma {:induction false} KeepByTypeSound(arns: seq<string>, types: seq<string>, describe: string -> Option<CertificateDetail>)
    requires KeepByType(arns, types, describe).Some?
    ensures |KeepByType(arns, types, describe).value| <= |arns|
    ensures forall m :: 0 <= m < |KeepByType(arns, types, describe).value| ==>
      var d := KeepByType(arns, types, describe).value[m];
      d.certType in types && exists k :: 0 <= k < |arns| && describe(arns[k]) == Some(d)
  {
    if arns != [] {
      var init := arns[..|arns| - 1];
      KeepByTypeSound(init, types, describe);
      var kept := KeepByType(init, types, describe).value;
      forall m | 0 <= m < |kept|
        ensures exists k :: 0 <= k < |arns| && describe(arns[k]) == Some(kept[m])
      {
        var k :| 0 <= k < |init| && describe(init[k]) == Some(kept[m]);
        assert arns[k] == init[k];
      }
    }
  }

  /** Every successfully described identifier of a requested type is kept. */
  lemma {:induction false} KeepByTypeComplete(arns: seq<string>, types: seq<string>, describe: string -> Option<CertificateDetail>)
    requires KeepByType(arns, types, describe).Some?
    ensures forall k :: 0 <= k < |arns| ==>
              (describe(arns[k]).Some? && describe(arns[k]).value.certType in types
               ==> describe(arns[k]).value in KeepByType(arns, types, describe).value)
  {
    if arns != [] {
      var init := arns[..|arns| - 1];
      KeepByTypeComplete(init, types, describe);
      forall k | 0 <= k < |init| && describe(arns[k]).Some? && describe(arns[k]).value.certType in types
        ensures describe(arns[k]).value in KeepByType(arns, types, describe).value
      {
        assert arns[k] == init[k];
      }
    }
  }

  /** Filtering preserves identifier order: the details kept for a longer
      list are those kept for its first part followed by those of the rest. */
  lemma {:induction false} KeepByTypeAppend(first: seq<string>, rest: seq<string>, types: seq<string>,
                                            describe: string -> Option<CertificateDetail>)
    ensures KeepByType(first + rest, types, describe) ==
      match (KeepByType(first, types, describe), KeepByType(rest, types, describe))
      case (Some(a), Some(b)) => Some(a + b)
      case _ => None
  {
    if rest == [] {
      assert first + rest == first;
      if KeepByType(first, types, describe).Some? {
        assert KeepByType(first, types, describe).value + [] == KeepByType(first, types, describe).value;
      }
    } else {
      var init := rest[..|rest| - 1];
      KeepByTypeAppend(first, init, types, describe);
      assert (first + rest)[..|first + rest| - 1] == first + init;
      assert (first + rest)[|first + rest| - 1] == rest[|rest| - 1];
      if KeepByType(first, types, describe).Some? && KeepByType(init, types, describe).Some? {
        var a, b := KeepByType(first, types, describe).value, KeepByType(init, types, describe).value;
        var last := describe(rest[|rest| - 1]);
        if last.Some? && last.value.certType in types {
          assert a + (b + [last.value]) == (a + b) + [last.value];
        }
      }
    }
  }

  /** Describes the candidates one by one and keeps each whose type is one
      of `types`, stopping at the first type that matches; a failed
      description ends the read. Nothing is described when `types` is not
      set. */
  method FilterByType(arns: seq<string>, types: seq<string>, describe: string -> Option<CertificateDetail>)
    returns (certDetails: Option<seq<CertificateDetail>>)
    ensures certDetails == CertDetails(arns, types, describe)
  {
    var kept: seq<CertificateDetail> := [];
    if |types| > 0 {
      var i := 0;
      while i < |arns|
        invariant 0 <= i <= |arns|
        invariant KeepByType(arns[..i], types, describe) == Some(kept)
      {
        var description := describe(arns[i]);
        assert arns[..i + 1][..i] == arns[..i];
        if description.None? {
          KeepByTypeAppend(arns[..i + 1], arns[i + 1..], types, describe);
          assert arns[..i + 1] + arns[i + 1..] == arns;
          return None;
        }
        var d := description.value;
        ghost var before := kept;
        var j := 0;
        while j < |types|
          invariant 0 <= j <= |types|
          invariant kept == before
          invariant d.certType !in types[..j]
        {
          if d.certType == types[j] {
            kept := kept + [d];
            break;
          }
          assert types[..j + 1] == types[..j] + [types[j]];
          j := j + 1;
        }
        assert kept == if d.certType in types then before + [d] else before;
        i := i + 1;
      }
      assert arns[..i] == arns;
    }
    certDetails := Some(kept);
  }

  // ---------------------------------------------------------------------
  // The read

  /** The details surviving both filters, or None when the listing or one
      of the descriptions failed. */
  function Candidates(q: Query, list: seq<string> -> ListResult, describe: string -> Option<CertificateDetail>)
    : (details: Option<seq<CertificateDetail>>)
    ensures list(StatusFilter(q.statuses)).ListFailed? ==> details == None
    ensures |q.types| == 0 && list(StatusFilter(q.statuses)).Listed? ==> details == Some([])
  {
    match list(StatusFilter(q.statuses))
    case ListFailed => None
    case Listed(pages) => CertDetails(MatchingArns(Flatten(pages), q.domain), q.types, describe)
  }

  /** The sort at the end of the read compares survivors, and so reads their
      timestamps, only when there are two or more of them to order; those
      must then all carry a timestamp, or `timestamp` dereferences nil. */
  predicate SortableCandidates(q: Query, list: seq<string> -> ListResult, describe: string -> Option<CertificateDetail>)
  {
    match Candidates(q, list, describe)
    case None => true
    case Some(details) => |details| > 1 && q.mostRecent ==> AllTimestamped(details)
  }

  /** `arn` belongs to one of `details` that no other detail is newer than. */
  predicate IsMostRecentArn(details: seq<CertificateDetail>, arn: string) {
    AllTimestamped(details) &&
    exists k :: 0 <= k < |details| && details[k].arn == arn &&
      forall j :: 0 <= j < |details| ==> Timestamp(details[j]) <= Timestamp(details[k])
  }

  /** What a read may end with: a transport error when a call failed, "not
      found" with no survivor, the lone survivor's identifier, "multiple"
      with several survivors unless the newest is asked for, and otherwise
      the identifier of a newest survivor. */
  predicate ReadSpec(q: Query, list: seq<string> -> ListResult, describe: string -> Option<CertificateDetail>,
                     r: Outcome)
  {
    match Candidates(q, list, describe)
    case None => r == TransportError
    case Some(details) =>
      if |details| == 0 then r == NotFound
      else if |details| == 1 then r == Ok(details[0].arn)
      else if !q.mostRecent then r == Multiple
      else r.Ok? && IsMostRecentArn(details, r.arn)
  }

  /** The read: filters, checks the number of survivors, sorts them newest
      first and answers with the first one's identifier. */
  method Read(q: Query, list: seq<string> -> ListResult, describe: string -> Option<CertificateDetail>)
    returns (r: Outcome)
    requires SortableCandidates(q, list, describe)
    ensures ReadSpec(q, list, describe, r)
  {
    var listing := list(StatusFilter(q.statuses));
    if listing.ListFailed? {
      return TransportError;
    }
    var arns := CollectArns(listing.pages, q.domain);
    var filtered := FilterByType(arns, q.types, describe);
    if filtered.None? {
      return TransportError;
    }
    var certDetails := filtered.value;
    if |certDetails| == 0 {
      return NotFound;
    }
    if |certDetails| > 1 && !q.mostRecent {
      return Multiple;
    }
    var sorted := new CertificateDetail[|certDetails|](k requires 0 <= k < |certDetails| => certDetails[k]);
    assert sorted[..] == certDetails;
    Sort(sorted);
    if |certDetails| > 1 {
      HeadIsMostRecent(certDetails, sorted[..]);
    } else {
      assert sorted[..][0] in multiset(sorted[..]);
    }
    r := Ok(sorted[0].arn);
  }

  /** The description service fills a creation or an import time on every
      certificate it describes. */
  ghost predicate DescribesTimestamped(describe: string -> Option<CertificateDetail>) {
    forall a :: describe(a).Some? ==> HasTimestamp(describe(a).value)
  }

  /** With a describer that always gives timestamps, every survivor has one. */
  lemma CertDetailsTimestamped(arns: seq<string>, types: seq<string>, describe: string -> Option<CertificateDetail>)
    requires DescribesTimestamped(describe)
    ensures CertDetails(arns, types, describe).Some? ==> AllTimestamped(CertDetails(arns, types, describe).value)
  {
    if |types| > 0 && KeepByType(arns, types, describe).Some? {
      KeepByTypeSound(arns, types, describe);
    }
  }

  /** Against a description service that always fills a timestamp, every
      read can run to the end. */
  lemma TimestampedDescriberIsSortable(q: Query, list: seq<string> -> ListResult,
                                       describe: string -> Option<CertificateDetail>)
    requires DescribesTimestamped(describe)
    ensures SortableCandidates(q, list, describe)
  {
    match list(StatusFilter(q.statuses))
    case ListFailed =>
    case Listed(pages) =>
      CertDetailsTimestamped(MatchingArns(Flatten(pages), q.domain), q.types, describe);
  }

  // ---------------------------------------------------------------------
  // Properties of the read

  /** Without a `types` argument a read whose listing succeeds always ends
      with "not found", however many certificates match the domain. */
  lemma ReadWithoutTypesIsNotFound(q: Query, list: seq<string> -> ListResult,
                                   describe: string -> Option<CertificateDetail>, r: Outcome)
    requires |q.types| == 0 && list(StatusFilter(q.statuses)).Listed?
    requires ReadSpec(q, list, describe, r)
    ensures r == NotFound
  {
  }

  /** A read ends with a transport error exactly when the listing fails or,
      with a `types` argument, the description of a matching identifier
      fails. */
  lemma ReadTransportErrorIff(q: Query, list: seq<string> -> ListResult,
                              describe: string -> Option<CertificateDetail>, r: Outcome)
    requires ReadSpec(q, list, describe, r)
    ensures r == TransportError <==>
      match list(StatusFilter(q.statuses))
      case ListFailed => true
      case Listed(pages) =>
        |q.types| > 0 && SomeDescriptionFails(MatchingArns(Flatten(pages), q.domain), describe)
  {
    match list(StatusFilter(q.statuses))
    case ListFailed =>
    case Listed(pages) =>
      KeepByTypeFailsIff(MatchingArns(Flatten(pages), q.domain), q.types, describe);
  }

  /** The identifier a successful read answers with is that of a described
      certificate of a requested type, listed under the target domain. */
  lemma ReadOkIsListedCandidate(q: Query, list: seq<string> -> ListResult,
                                describe: string -> Option<CertificateDetail>, arn: string)
    requires ReadSpec(q, list, describe, Ok(arn))
    ensures list(StatusFilter(q.statuses)).Listed?
    ensures exists p, s, d ::
              (0 <= p < |list(StatusFilter(q.statuses)).pages| &&
               s in list(StatusFilter(q.statuses)).pages[p] &&
               s.domainName == q.domain && describe(s.arn) == Some(d) && d.certType in q.types && d.arn == arn)
  {
    var pages := list(StatusFilter(q.statuses)).pages;
    var summaries := Flatten(pages);
    var arns := MatchingArns(summaries, q.domain);
    var details := KeepByType(arns, q.types, describe).value;
    KeepByTypeSound(arns, q.types, describe);
    assert exists m :: 0 <= m < |details| && details[m].arn == arn by {
      if |details| == 1 {
        assert details[0].arn == arn;
      }
    }
    var m :| 0 <= m < |details| && details[m].arn == arn;
    var d := details[m];
    var k :| 0 <= k < |arns| && describe(arns[k]) == Some(d);
    MatchingArnsContains(summaries, q.domain, arns[k]);
    var i :| 0 <= i < |summaries| && summaries[i].domainName == q.domain && summaries[i].arn == arns[k];
    var s := summaries[i];
    FlattenContains(pages, s);
    var p :| 0 <= p < |pages| && s in pages[p];
  }

  /** With exactly one survivor the read answers with its identifier,
      whether or not the newest was asked for and whether or not the
      survivor carries a timestamp. */
  lemma ReadSingleCandidate(q: Query, list: seq<string> -> ListResult,
                            describe: string -> Option<CertificateDetail>, d: CertificateDetail, r: Outcome)
    requires Candidates(q, list, describe) == Some([d])
    ensures SortableCandidates(q, list, describe)
    ensures ReadSpec(q, list, describe, r) <==> r == Ok(d.arn)
  {
  }

  /** Two successful reads of the same services give the same identifier or
      the identifiers of two survivors of equal timestamp. */
  lemma ReadAnswersAgreeUpToTies(q: Query, list: seq<string> -> ListResult,
                                 describe: string -> Option<CertificateDetail>, a: string, b: string)
    requires ReadSpec(q, list, describe, Ok(a)) && ReadSpec(q, list, describe, Ok(b))
    ensures Candidates(q, list, describe).Some?
    ensures var details := Candidates(q, list, describe).value;
      a == b ||
      exists i, j ::
        (0 <= i < |details| && 0 <= j < |details| &&
         details[i].arn == a && details[j].arn == b && HasTimestamp(details[i]) && HasTimestamp(details[j]) &&
         Timestamp(details[i]) == Timestamp(details[j]))
  {
  }
}
