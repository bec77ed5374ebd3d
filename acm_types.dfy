/** Values exchanged between the ACM certificate data source and the two
    service calls it makes: the paginated certificate listing and the
    per-certificate description. */
module AcmTypes {

  datatype Option<+T> = None | Some(value: T)

  /** One entry of a listing page: the certificate's domain and identifier. */
  datatype CertificateSummary = CertificateSummary(domainName: string, arn: string)

  /** What a description returns about one certificate. Timestamps are
      instants on an integer clock; only their order is ever used. */
  datatype CertificateDetail = CertificateDetail(
    arn: string,
    certType: string,
    createdAt: Option<int>,
    importedAt: Option<int>)

  /** The outcome of listing certificates for a status filter: every page
      the service returned, or a service failure. */
  datatype ListResult = Listed(pages: seq<seq<CertificateSummary>>) | ListFailed

  /** The data source's arguments. An empty `statuses` or `types` list
      stands for an argument that is not set: the schema lookup used for
      both reports an empty list as absent. */
  datatype Query = Query(
    domain: string,
    statuses: seq<string>,
    types: seq<string>,
    mostRecent: bool)

  /** How a read ends: the chosen certificate's identifier, or one of the
      three kinds of error the read reports. */
  datatype Outcome = Ok(arn: string) | NotFound | Multiple | TransportError

  /** A detail on which the recency timestamp is defined. */
  predicate HasTimestamp(c: CertificateDetail) {
    c.createdAt.Some? || c.importedAt.Some?
  }

  predicate AllTimestamped(s: seq<CertificateDetail>) {
    forall k :: 0 <= k < |s| ==> HasTimestamp(s[k])
  }
}
