/** Worked reads against a fixed pair of certificates for one domain: one
    issued by the service in January 2023, one imported in June 2023. */
module ReadScenarios {
  import opened AcmTypes
  import opened CreationOrder
  import opened CertificateRead

  const Domain: string := "example.com"
  const IssuedArn: string := "arn:issued"
  const ImportedArn: string := "arn:imported"

  /** Both certificates on one page, plus one for another domain. */
  function Listing(filter: seq<string>): ListResult {
    Listed([[CertificateSummary(Domain, IssuedArn), CertificateSummary("other.example.com", "arn:other")],
            [CertificateSummary(Domain, ImportedArn)]])
  }

  /** The issued certificate has only a creation time, the imported one
      only an import time (dates written yyyymmdd). */
  function Describe(arn: string): Option<CertificateDetail> {
    if arn == IssuedArn then Some(CertificateDetail(IssuedArn, "AMAZON_ISSUED", Some(20230101), None))
    else if arn == ImportedArn then Some(CertificateDetail(ImportedArn, "IMPORTED", None, Some(20230601)))
    else None
  }

  /** The listing yields the two identifiers for the domain, in order. */
  lemma {:induction false} ListedArns(q: Query)
    requires q.domain == Domain
    ensures Listing(StatusFilter(q.statuses)).Listed?
    ensures MatchingArns(Flatten(Listing(StatusFilter(q.statuses)).pages), Domain) == [IssuedArn, ImportedArn]
  {
    var pages := Listing(StatusFilter(q.statuses)).pages;
    assert pages[..1][..0] == [];
    assert Flatten(pages[..1]) == pages[0];
    assert pages[..2][..1] == pages[..1];
    var all := Flatten(pages);
    assert all == pages[0] + pages[1];
    assert all[..2] == pages[0] && all[..2][..1] == all[..1] && all[..1][..0] == [];
    assert MatchingArns(all[..1], Domain) == [IssuedArn];
    assert MatchingArns(all[..2], Domain) == [IssuedArn];
  }

  /** What the type filter keeps of the two identifiers. */
  lemma {:induction false} KeptDetails(types: seq<string>)
    requires types == ["AMAZON_ISSUED"] || types == ["AMAZON_ISSUED", "IMPORTED"]
    ensures KeepByType([IssuedArn, ImportedArn], types, Describe) ==
      Some([Describe(IssuedArn).value] + (if "IMPORTED" in types then [Describe(ImportedArn).value] else []))
  {
    var issued, imported := Describe(IssuedArn).value, Describe(ImportedArn).value;
    assert issued.certType in types;
    assert ImportedArn[5] != IssuedArn[5];
    assert "IMPORTED"[0] != "AMAZON_ISSUED"[0];
    var first := [IssuedArn];
    assert first[..|first| - 1] == [];
    assert KeepByType(first, types, Describe) == Some([] + [issued]);
    assert [] + [issued] == [issued];
    var arns := [IssuedArn, ImportedArn];
    assert arns[..|arns| - 1] == first;
    assert arns[|arns| - 1] == ImportedArn;
    if "IMPORTED" in types {
      assert imported.certType in types;
      assert KeepByType(arns, types, Describe) == Some([issued] + [imported]);
    } else {
      assert types == ["AMAZON_ISSUED"];
      assert imported.certType !in types;
      assert KeepByType(arns, types, Describe) == Some([issued]);
      assert [issued] + [] == [issued];
    }
  }

  lemma {:induction false} BothCandidates(q: Query)
    requires q.domain == Domain && q.types == ["AMAZON_ISSUED", "IMPORTED"]
    ensures Candidates(q, Listing, Describe) == Some([Describe(IssuedArn).value, Describe(ImportedArn).value])
  {
    ListedArns(q);
    KeptDetails(q.types);
    assert "IMPORTED" in q.types;
    var issued, imported := Describe(IssuedArn).value, Describe(ImportedArn).value;
    assert [issued] + [imported] == [issued, imported];
  }

  /** A type filter that excludes the newer certificate leaves the older. */
  lemma {:induction false} TypeFilterExcludesImported(q: Query, r: Outcome)
    requires q.domain == Domain && q.types == ["AMAZON_ISSUED"]
    requires ReadSpec(q, Listing, Describe, r)
    ensures r == Ok(IssuedArn)
  {
    ListedArns(q);
    KeptDetails(q.types);
    assert "IMPORTED" !in q.types by { assert "IMPORTED"[0] != "AMAZON_ISSUED"[0]; }
    assert [Describe(IssuedArn).value] + [] == [Describe(IssuedArn).value];
    ReadSingleCandidate(q, Listing, Describe, Describe(IssuedArn).value, r);
  }

  /** Asking for the newest of both answers with the imported certificate,
      whose import time stands in for its missing creation time. */
  lemma {:induction false} MostRecentPicksImported(q: Query, r: Outcome)
    requires q.domain == Domain && q.types == ["AMAZON_ISSUED", "IMPORTED"] && q.mostRecent
    requires ReadSpec(q, Listing, Describe, r)
    ensures r == Ok(ImportedArn)
  {
    BothCandidates(q);
    var details := [Describe(IssuedArn).value, Describe(ImportedArn).value];
    var k :| 0 <= k < |details| && details[k].arn == r.arn &&
      forall j :: 0 <= j < |details| ==> Timestamp(details[j]) <= Timestamp(details[k]);
    assert Timestamp(details[1]) <= Timestamp(details[k]);
  }

  /** Without asking for the newest, the two survivors are an error. */
  lemma {:induction false} BothWithoutMostRecentIsMultiple(q: Query, r: Outcome)
    requires q.domain == Domain && q.types == ["AMAZON_ISSUED", "IMPORTED"] && !q.mostRecent
    requires ReadSpec(q, Listing, Describe, r)
    ensures r == Multiple
  {
    BothCandidates(q);
  }

  /** With no listed summary for the domain, a read with a `types` argument
      ends with "not found": nothing is described, so nothing can fail. */
  lemma NoMatchingSummaryIsNotFound(q: Query, list: seq<string> -> ListResult,
                                    describe: string -> Option<CertificateDetail>, r: Outcome)
    requires |q.types| > 0 && list(StatusFilter(q.statuses)).Listed?
    requires MatchingArns(Flatten(list(StatusFilter(q.statuses)).pages), q.domain) == []
    requires ReadSpec(q, list, describe, r)
    ensures r == NotFound
  {
  }
}
