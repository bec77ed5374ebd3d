# ACM certificate lookup, modelled in Dafny

This project models the read of the `aws_acm_certificate` data source of the
Terraform AWS provider. Given a domain name, optional certificate statuses,
optional certificate types and a `most_recent` flag, the read finds exactly
one certificate in AWS Certificate Manager and reports its ARN, or fails.

The read works in these steps:

1. It chooses the status filter: the caller's `statuses`, or `["ISSUED"]`.
2. It lists certificates page by page and collects the ARNs whose domain
   equals the target.
3. When `types` is set, it describes each collected ARN and keeps the
   details whose type is in `types`. When `types` is not set, it keeps
   nothing.
4. With no survivor it fails with "not found". With several survivors and
   `most_recent` unset it fails with "multiple".
5. Otherwise it sorts the survivors newest first (creation time, else
   import time) and answers with the first one's ARN.

The project has four modules:

- `AcmTypes` (`acm_types.dfy`): summaries, details, the query, the listing
  result and the outcome `Ok(arn) | NotFound | Multiple | TransportError`.
- `CreationOrder` (`creation_order.dfy`): the `timestamp` helper, the
  `byCreationDateDescending` interface (`Less`, `Swap`) and an in-place
  sort of an `array` through that interface.
- `CertificateRead` (`certificate_read.dfy`): the status default, the
  page-by-page domain filter (`CollectArns`), the type filter with its
  early `break` (`FilterByType`), and `Read`. `ReadSpec` states what a read
  may answer, and lemmas state the listed properties about it.
- `ReadScenarios` (`read_scenarios.dfy`): three worked reads against two
  certificates for `example.com`, and the read of a domain that no listed
  summary carries.

The two service calls are parameters of `Read`. `list` maps a status
filter to the pages the service returned, or to a failure.
`describe` maps an ARN to its detail, or to a failure. Timestamps are
integers, because only their order is compared.

`statuses` and `types` are sequences, and the empty sequence stands for an
argument that is not set. The schema's `GetOk` reports an empty list as
absent, so the Go read cannot tell the two apart either.

## Model

| member | source | states |
|---|---|---|
| `CreationOrder.Timestamp` | aws/data_source_aws_acm_certificate.go:29-35 | the recency is `CreatedAt` when present and `ImportedAt` otherwise; it is defined only when one of them is present |
| `CreationOrder.Less` | aws/data_source_aws_acm_certificate.go:20-23 | `Less(i, j)` holds when `b[j]`'s timestamp is strictly before `b[i]`'s; it never holds of an element and itself, nor of two elements with equal timestamps |
| `CreationOrder.LessIsStrictWeakOrder` | aws/data_source_aws_acm_certificate.go:20-23 | `Less(i, j)` holds when `b[j]` is strictly older than `b[i]`; it is irreflexive, asymmetric and transitive, and two elements are incomparable exactly when their timestamps are equal |
| `CreationOrder.Swap` | aws/data_source_aws_acm_certificate.go:25-27 | exchanges `a[i]` and `a[j]`, leaves every other element unchanged, and keeps the multiset of elements |
| `CreationOrder.Sort` | aws/data_source_aws_acm_certificate.go:130 | after sorting in place, no element is `Less` than one before it, and the array is a permutation of its input; nothing is said about the order of equal timestamps; timestamps are needed only when there are two or more elements to compare |
| `CreationOrder.HeadIsMostRecent` | aws/data_source_aws_acm_certificate.go:130-131 | the first element of a sorted permutation of a non-empty list is an element of that list, and no element of the list has a later timestamp |
| `CertificateRead.StatusFilter` | aws/data_source_aws_acm_certificate.go:74-80 | the filter is the caller's statuses when they are set, and exactly `["ISSUED"]` otherwise; it is never empty |
| `CertificateRead.FlattenContains` | aws/data_source_aws_acm_certificate.go:83-91 | a summary is scanned exactly when it is on one of the listed pages: every page is consumed |
| `CertificateRead.MatchingArnsContains` | aws/data_source_aws_acm_certificate.go:84-88 | an ARN is collected exactly when some scanned summary carries it with a domain equal to the target; other domains never contribute |
| `CertificateRead.MatchingArnsAppend` | aws/data_source_aws_acm_certificate.go:82-91 | collecting keeps listing order: the ARNs of a longer listing are those of its first part followed by those of the rest |
| `CertificateRead.CollectArns` | aws/data_source_aws_acm_certificate.go:82-91 | the nested page and summary loops collect exactly the matching ARNs of all pages, in listing order |
| `CertificateRead.CertDetails` | aws/data_source_aws_acm_certificate.go:96-100 | when `types` is not set, no description is made and the retained details are empty |
| `CertificateRead.KeepByTypeFailsIff` | aws/data_source_aws_acm_certificate.go:102-109 | the type filter fails exactly when the description of one of the collected ARNs fails |
| `CertificateRead.KeepByTypeSound` | aws/data_source_aws_acm_certificate.go:111-116 | every retained detail has a type in `types` and is the description of a collected ARN; each ARN adds at most one detail |
| `CertificateRead.KeepByTypeComplete` | aws/data_source_aws_acm_certificate.go:102-117 | every collected ARN whose description has a type in `types` has that description retained |
| `CertificateRead.KeepByTypeAppend` | aws/data_source_aws_acm_certificate.go:102-117 | the retained details keep ARN order, and a failure anywhere fails the whole filter |
| `CertificateRead.FilterByType` | aws/data_source_aws_acm_certificate.go:96-118 | the loops over ARNs and type strings, with the `break` after the first matching type, retain exactly the filter's details, or stop at the first failed description |
| `CertificateRead.Read` | aws/data_source_aws_acm_certificate.go:68-134 | the read answers as `ReadSpec` allows: a transport error when a call fails, "not found" with no survivor, the lone survivor's ARN, "multiple" with several survivors and `most_recent` unset, and otherwise the ARN of a survivor that no other survivor is newer than; it needs timestamps only on the survivors the sort compares |
| `CertificateRead.TimestampedDescriberIsSortable` | aws/data_source_aws_acm_certificate.go:29-35 | when every description carries a creation or an import time, every read can run to the end without a nil dereference in `timestamp` |
| `CertificateRead.ReadWithoutTypesIsNotFound` | aws/data_source_aws_acm_certificate.go:99-121 | without `types`, a read whose listing succeeds always ends with "not found" |
| `CertificateRead.ReadTransportErrorIff` | aws/data_source_aws_acm_certificate.go:92-109 | a read ends with a transport error exactly when the listing fails, or `types` is set and the description of a collected ARN fails |
| `CertificateRead.ReadOkIsListedCandidate` | aws/data_source_aws_acm_certificate.go:82-131 | the answered ARN is that of a described detail of a type in `types`, whose summary is on a listed page with a domain equal to the target |
| `CertificateRead.ReadSingleCandidate` | aws/data_source_aws_acm_certificate.go:120-131 | with exactly one survivor the read can run, and answers with its ARN and nothing else, whatever `most_recent` is and whether or not the survivor has a timestamp |
| `CertificateRead.ReadAnswersAgreeUpToTies` | aws/data_source_aws_acm_certificate.go:130-131 | two answers that the read may give are equal, or are ARNs of survivors with the same timestamp, so only ties are left open by the unstable sort |
| `ReadScenarios.TypeFilterExcludesImported` | aws/data_source_aws_acm_certificate.go:111-127 | with types `["AMAZON_ISSUED"]`, the newer imported certificate is filtered out and the issued one is answered |
| `ReadScenarios.MostRecentPicksImported` | aws/data_source_aws_acm_certificate.go:20-35 | with both types and `most_recent` set, the imported certificate is answered, because its import time stands in for its missing creation time and is later |
| `ReadScenarios.BothWithoutMostRecentIsMultiple` | aws/data_source_aws_acm_certificate.go:124-127 | with both types and `most_recent` unset, the two survivors give "multiple" |
| `ReadScenarios.NoMatchingSummaryIsNotFound` | aws/data_source_aws_acm_certificate.go:82-121 | for any services and arguments with `types` set, a successful listing in which no summary has the target domain ends with "not found" |

## Left out

- The schema registration `dataSourceAwsAcmCertificate` (lines 37-66) is declarative framework wiring with no behaviour of its own.
- `ListCertificatesPages`, `DescribeCertificate` and the client connection are network calls. They are the parameters `list` and `describe`. The pages a failed listing delivered before failing are not modelled, because the read discards them.
- `d.SetId(time.Now().UTC().String())` reads the wall clock and is left out. `d.Set("arn", …)` becomes the `Ok(arn)` outcome.
- The error message texts and their `errwrap` wrapping are left out. Only the error kind is modelled.
- `Len` is the length of the slice. The model uses `|b|` directly.
- The algorithm of Go's `sort.Sort` is not modelled. `Sort` is a selection sort that compares only with `Less` and moves elements only with `Swap`. Only the postconditions of `sort.Sort` are claimed: sorted by `Less` and a permutation. Stability is not claimed, because `sort.Sort` is not stable.
- `Read` requires a creation or an import time on every survivor when two or more survive and `most_recent` is set. Only then does the sort call `Less`, and `timestamp` dereferences its result without a nil check. Survivors that are never compared, and details the type filter drops, need no timestamp.
- `expandStringList` is not part of this model. If it drops empty strings, an argument such as `types = [""]` counts as set for `GetOk` but expands to an empty list. The Go read then describes every matching ARN and keeps none, so it can end with a transport error where the model, given the expanded empty list, describes nothing. Likewise `statuses = [""]` would list with no status filter at all. The model takes `statuses` and `types` as the already expanded lists.
- `time.Time` is replaced by integer timestamps, because only `Before` is used on them.
- Pointer dereferences of summary and detail fields are taken to succeed. The service always fills the domain, ARN and type.

## Notes on the behaviour

- The read sorts with `sort.Sort`, which is not stable, so the order of
  equal timestamps is not fixed. `ReadSpec` allows any newest survivor, and
  `ReadAnswersAgreeUpToTies` bounds the choice to ties.
- Without `types` the read never retains a detail, so it always ends with
  "not found" once the listing succeeds. This looks unintended, but it is
  the code's behaviour, and `ReadWithoutTypesIsNotFound` states it.
