/** The recency order on certificate details: the `timestamp` helper, the
    `byCreationDateDescending` sort interface (Less and Swap) and the
    in-place sort the read applies to its surviving details. */
module CreationOrder {
  import opened AcmTypes

  /** A certificate's recency: when it was created, or, for a certificate
      the service did not create, when it was imported. Undefined (the Go
      helper dereferences a nil pointer) when neither is known. */
  function Timestamp(c: CertificateDetail): (t: int)
    requires HasTimestamp(c)
    ensures c.createdAt == Some(t) || (c.createdAt == None && c.importedAt == Some(t))
  {
    match c.createdAt
    case Some(created) => created
    case None => c.importedAt.value
  }

  /** `b[i]` goes before `b[j]` in the sorted slice: `b[j]` is strictly older.
      An element is never Less than itself, nor than one of equal timestamp. */
  predicate Less(b: seq<CertificateDetail>, i: int, j: int): (less: bool)
    requires 0 <= i < |b| && 0 <= j < |b|
    requires HasTimestamp(b[i]) && HasTimestamp(b[j])
    ensures less ==> i != j && b[i] != b[j] && Timestamp(b[i]) != Timestamp(b[j])
  {
    Timestamp(b[j]) < Timestamp(b[i])
  }

  /** Less is a strict weak order: irreflexive, asymmetric, transitive, and
      two elements are incomparable exactly when their timestamps agree. */
  lemma LessIsStrictWeakOrder(b: seq<CertificateDetail>)
    requires AllTimestamped(b)
    ensures forall i :: 0 <= i < |b| ==> !Less(b, i, i)
    ensures forall i, j :: 0 <= i < |b| && 0 <= j < |b| && Less(b, i, j) ==> !Less(b, j, i)
    ensures forall i, j, k :: 0 <= i < |b| && 0 <= j < |b| && 0 <= k < |b| ==>
              (Less(b, i, j) && Less(b, j, k) ==> Less(b, i, k))
    ensures forall i, j :: 0 <= i < |b| && 0 <= j < |b| ==>
      (!Less(b, i, j) && !Less(b, j, i) <==> Timestamp(b[i]) == Timestamp(b[j]))
  {
  }

  /** Newest first: no element is Less than an element before it. With two
      or more elements this needs every element's timestamp; with fewer,
      nothing is compared. */
  predicate SortedByCreationDateDescending(b: seq<CertificateDetail>) {
    forall i, j :: 0 <= i < j < |b| ==> HasTimestamp(b[i]) && HasTimestamp(b[j]) && !Less(b, j, i)
  }

  /** Exchanges `a[i]` and `a[j]` and leaves every other element alone. */
  method Swap(a: array<CertificateDetail>, i: int, j: int)
    requires 0 <= i < a.Length && 0 <= j < a.Length
    modifies a
    ensures a[i] == old(a[j]) && a[j] == old(a[i])
    ensures forall k :: 0 <= k < a.Length && k != i && k != j ==> a[k] == old(a[k])
    ensures multiset(a[..]) == multiset(old(a[..]))
  {
    a[i], a[j] := a[j], a[i];
  }

  /** Sorts `a` newest first, comparing with Less and moving elements only
      with Swap. The result is a permutation of the input; equal
      timestamps may come out in any order. A slice of fewer than two
      elements is never compared, so only longer ones need timestamps. */
  method Sort(a: array<CertificateDetail>)
    requires a.Length > 1 ==> AllTimestamped(a[..])
    modifies a
    ensures SortedByCreationDateDescending(a[..])
    ensures multiset(a[..]) == multiset(old(a[..]))
  {
    var i := 0;
    while i < a.Length
      invariant 0 <= i <= a.Length
      invariant multiset(a[..]) == multiset(old(a[..]))
      invariant a.Length > 1 ==> AllTimestamped(a[..])
      invariant forall p, q :: 0 <= p < q < i ==> Timestamp(a[q]) <= Timestamp(a[p])
      invariant forall p, q :: 0 <= p < i <= q < a.Length ==> Timestamp(a[q]) <= Timestamp(a[p])
    {
      var newest := i;
      var k := i + 1;
      while k < a.Length
        invariant i <= newest < a.Length && i < k <= a.Length
        invariant a.Length > 1 ==> forall q :: i <= q < k ==> Timestamp(a[q]) <= Timestamp(a[newest])
      {
        if Less(a[..], k, newest) {
          newest := k;
        }
        k := k + 1;
      }
      Swap(a, i, newest);
      i := i + 1;
    }
  }

  /** After the sort, the first element is one of the input's elements and
      no input element is newer than it. */
  lemma {:induction false} HeadIsMostRecent(input: seq<CertificateDetail>, sorted: seq<CertificateDetail>)
    requires AllTimestamped(sorted) && SortedByCreationDateDescending(sorted)
    requires multiset(sorted) == multiset(input) && |input| > 0
    ensures AllTimestamped(input) && |sorted| > 0
    ensures sorted[0] in input
    ensures forall j :: 0 <= j < |input| ==> Timestamp(input[j]) <= Timestamp(sorted[0])
  {
    assert |sorted| == |multiset(sorted)| == |multiset(input)| == |input|;
    forall j | 0 <= j < |input|
      ensures HasTimestamp(input[j]) && Timestamp(input[j]) <= Timestamp(sorted[0])
    {
      assert input[j] in multiset(input);
      assert input[j] in sorted;
      var m :| 0 <= m < |sorted| && sorted[m] == input[j];
      assert m == 0 || !Less(sorted, m, 0);
    }
    assert sorted[0] in multiset(sorted);
  }
}
