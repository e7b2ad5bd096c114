/**
 * The read side of the service: `providers_for_zip`, `attach_names` and the
 * bodies of the two endpoints. Each takes the service's maps as arguments and
 * changes none of them.
 */
module Lookup {
  import opened Wrappers
  import opened Text
  import opened Ids
  import opened Tables
  import opened ZipIndex

  /** The name given to an id that the provider directory does not know. */
  const UnknownProvider := "Unknown provider"

  /** The `source` query parameter when the caller gives none. */
  const DefaultSource := "unique"

  /** The stored ids of a padded ZIP, or none (`dict.get(z, [])`). */
  function StoredIds(zipToProviders: map<string, seq<nat>>, z: string): (r: seq<nat>)
    ensures z in zipToProviders ==> r == zipToProviders[z]
    ensures z !in zipToProviders ==> r == []
  {
    if z in zipToProviders then zipToProviders[z] else []
  }

  /**
   * `providers_for_zip`: pad the ZIP, fetch its ids and counties (none when
   * the ZIP is unknown) and return the ids distinct and ascending.
   */
  function ProvidersForZip(zipToProviders: map<string, seq<nat>>, zipToCounties: map<string, seq<string>>, zip: string)
    : (r: (seq<nat>, seq<string>))
    ensures StrictlyAscending(r.0)
    ensures forall y :: y in r.0 <==> ZFill(zip, ZipWidth) in zipToProviders && y in zipToProviders[ZFill(zip, ZipWidth)]
    ensures ZFill(zip, ZipWidth) !in zipToProviders ==> r.0 == []
    ensures ZFill(zip, ZipWidth) !in zipToCounties ==> r.1 == []
    ensures ZFill(zip, ZipWidth) in zipToCounties ==> r.1 == zipToCounties[ZFill(zip, ZipWidth)]
  {
    var z := ZFill(zip, ZipWidth);
    var counties := if z in zipToCounties then zipToCounties[z] else [];
    (SortedDistinct(StoredIds(zipToProviders, z)), counties)
  }

  /** A stored list that is already strictly ascending comes back exactly as stored, order included. */
  lemma LookupReturnsStoredList(zipToProviders: map<string, seq<nat>>, zipToCounties: map<string, seq<string>>, zip: string)
    requires ZFill(zip, ZipWidth) in zipToProviders && StrictlyAscending(zipToProviders[ZFill(zip, ZipWidth)])
    ensures ProvidersForZip(zipToProviders, zipToCounties, zip).0 == zipToProviders[ZFill(zip, ZipWidth)]
  {
    SortedDistinctOfAscending(zipToProviders[ZFill(zip, ZipWidth)]);
  }

  /** Asking for a ZIP or for its padded form gives the same answer. */
  lemma LookupIgnoresPadding(zipToProviders: map<string, seq<nat>>, zipToCounties: map<string, seq<string>>, zip: string)
    ensures ProvidersForZip(zipToProviders, zipToCounties, ZFill(zip, ZipWidth)) == ProvidersForZip(zipToProviders, zipToCounties, zip)
  {
    ZFillIdempotent(zip, ZipWidth);
  }

  /**
   * Looking up the ZIP of a row of the direct source finds exactly the ids of
   * the rows with that ZIP, provided no two different ZIPs of the file pad to
   * the same key.
   */
  lemma LookupFindsRows(cols: seq<string>, rows: seq<Row>, i: nat, zipToCounties: map<string, seq<string>>)
    requires i < |rows| && Cell(cols, rows[i], ZipColumn).Some? && RowId(cols, rows[i]).Some?
    requires NoPaddingCollision(cols, rows)
    ensures var z := Cell(cols, rows[i], ZipColumn).value;
            var ids := ProvidersForZip(Grouped(cols, rows), zipToCounties, z).0;
            forall y :: y in ids <==>
              exists j :: 0 <= j < |rows| && Cell(cols, rows[j], ZipColumn) == Some(z) && RowId(cols, rows[j]) == Some(y)
  {
    GroupedLookup(cols, rows, i);
  }

  // ---------------------------------------------------------------------
  // Names
  // ---------------------------------------------------------------------

  /** One element of the `providers` list of a response. */
  datatype ProviderEntry = ProviderEntry(id: nat, name: string)

  function EntryIds(entries: seq<ProviderEntry>): (r: seq<nat>)
    ensures |r| == |entries| && forall i :: 0 <= i < |entries| ==> r[i] == entries[i].id
  {
    seq(|entries|, i requires 0 <= i < |entries| => entries[i].id)
  }

  /** The directory's name for an id, or the placeholder. */
  function NameOf(idToName: map<nat, string>, id: nat): (r: string)
    ensures id in idToName ==> r == idToName[id]
    ensures id !in idToName ==> r == UnknownProvider
  {
    if id in idToName then idToName[id] else UnknownProvider
  }

  /**
   * `attach_names`: one entry per distinct id, in ascending id order, each
   * carrying the directory's name for the id or "Unknown provider".
   */
  function AttachNames(idToName: map<nat, string>, ids: seq<nat>): (r: seq<ProviderEntry>)
    ensures StrictlyAscending(EntryIds(r))
    ensures forall y :: y in EntryIds(r) <==> y in ids
    ensures forall i :: 0 <= i < |r| ==>
              (r[i].id in idToName ==> r[i].name == idToName[r[i].id])
              && (r[i].id !in idToName ==> r[i].name == UnknownProvider)
  {
    var s := SortedDistinct(ids);
    var r := seq(|s|, i requires 0 <= i < |s| => ProviderEntry(s[i], NameOf(idToName, s[i])));
    assert EntryIds(r) == s;
    r
  }

  /** On ids that are already distinct and ascending, one entry per id, in the same order. */
  lemma AttachNamesKeepsIds(idToName: map<nat, string>, ids: seq<nat>)
    requires StrictlyAscending(ids)
    ensures EntryIds(AttachNames(idToName, ids)) == ids
  {
    AscendingUnique(EntryIds(AttachNames(idToName, ids)), ids);
  }

  // ---------------------------------------------------------------------
  // Responses
  // ---------------------------------------------------------------------

  /** The body of a `/api/providers/by-zip` response. */
  datatype ByZipResponse = ByZipResponse(
    zip: string,
    counties: seq<string>,
    providers: seq<ProviderEntry>,
    providersCount: nat,
    source: string)

  /** The body of a `/health` response. */
  datatype HealthReport = HealthReport(ok: bool, providersLoaded: bool, providersCount: nat, zipsLoaded: nat)

  /**
   * `api_providers_by_zip`: the padded ZIP, its counties, its providers with
   * names, their number, and the `source` parameter echoed back. The query
   * validation of the framework admits only ZIPs of 3 to 10 characters.
   */
  function ByZip(idToName: map<nat, string>, zipToProviders: map<string, seq<nat>>,
                 zipToCounties: map<string, seq<string>>, zip: string, source: Option<string>): (r: ByZipResponse)
    requires 3 <= |zip| <= 10
    ensures r.zip == ZFill(zip, ZipWidth) && |r.zip| == if |zip| < ZipWidth then ZipWidth else |zip|
    ensures r.providersCount == |r.providers|
    ensures EntryIds(r.providers) == ProvidersForZip(zipToProviders, zipToCounties, zip).0
    ensures forall i :: 0 <= i < |r.providers| ==>
              var e := r.providers[i];
              (e.id in idToName ==> e.name == idToName[e.id]) && (e.id !in idToName ==> e.name == UnknownProvider)
    ensures r.counties == ProvidersForZip(zipToProviders, zipToCounties, zip).1
    ensures source.Some? ==> r.source == source.value
    ensures source.None? ==> r.source == DefaultSource
  {
    var (ids, counties) := ProvidersForZip(zipToProviders, zipToCounties, zip);
    AttachNamesKeepsIds(idToName, ids);
    ByZipResponse(ZFill(zip, ZipWidth), counties, AttachNames(idToName, ids), |ids|, source.GetOr(DefaultSource))
  }

  /** `health`: always ok, with the sizes of the directory and of the ZIP index. */
  function Health(idToName: map<nat, string>, zipToProviders: map<string, seq<nat>>): (r: HealthReport)
    ensures r.ok
    ensures r.providersLoaded <==> idToName != map[]
    ensures r.providersCount == |idToName| && r.zipsLoaded == |zipToProviders|
  {
    HealthReport(true, |idToName| > 0, |idToName|, |zipToProviders|)
  }
}
