/**
 * The service's module-level state: the provider directory and the two ZIP
 * maps, with the loaders that replace them at start-up.
 */
module Service {
  import opened Wrappers
  import opened Text
  import opened Ids
  import opened Tables
  import opened Dicts
  import opened Directory
  import opened ZipIndex
  import opened Lookup

  /** A ZIP index whose keys are padded ZIPs and whose id lists are strictly ascending. */
  predicate WellFormed(idx: Index) {
    forall k :: k in idx.providers ==> ZFill(k, ZipWidth) == k && StrictlyAscending(idx.providers[k])
  }

  /** The direct source always yields a well-formed index. */
  lemma DirectIndexWellFormed(fileExists: bool, t: Table)
    ensures WellFormed(DirectIndex(fileExists, t))
  {
    if DirectIndex(fileExists, t).providers != map[] {
      DirectIndexGrouped(fileExists, t);
      var cols := NormalizeColumns(t.header);
      forall k | k in Grouped(cols, t.rows)
        ensures ZFill(k, ZipWidth) == k && StrictlyAscending(Grouped(cols, t.rows)[k])
      {
        var z := GroupedShape(cols, t.rows, k);
      }
    }
  }

  class Service {
    /** Provider id to display name. */
    var idToName: map<nat, string>
    /** Padded ZIP to the provider ids serving it. */
    var zipToProviders: map<string, seq<nat>>
    /** Padded ZIP to its county names. */
    var zipToCounties: map<string, seq<string>>

    /** The ZIP maps are well formed. */
    predicate Valid()
      reads this
    {
      WellFormed(Index(zipToProviders, zipToCounties))
    }

    /** Before any loading all three maps are empty. */
    constructor()
      ensures idToName == map[] && zipToProviders == map[] && zipToCounties == map[]
      ensures Valid()
    {
      idToName, zipToProviders, zipToCounties := map[], map[], map[];
    }

    /**
     * On a valid service, looking up a stored ZIP (or any ZIP that pads to
     * it) returns the stored id list exactly, order included.
     */
    lemma ValidLookup(zip: string)
      requires Valid() && ZFill(zip, ZipWidth) in zipToProviders
      ensures ProvidersForZip(zipToProviders, zipToCounties, zip).0 == zipToProviders[ZFill(zip, ZipWidth)]
    {
      LookupReturnsStoredList(zipToProviders, zipToCounties, zip);
    }

    /**
     * `load_provider_names`: replace the directory by what the provider list
     * yields when the file is there and has a `provider_id` column and a name
     * column; every failure leaves it empty, as the reset at the start of the
     * function does (`LoadDirectory` starts from the empty map).
     */
    method LoadProviderNames(fileExists: bool, t: Table)
      modifies this
      ensures fileExists && ReadDirectory(t).Success? ==> idToName == ReadDirectory(t).value
      ensures !fileExists || ReadDirectory(t).Failure? ==> idToName == map[]
      ensures zipToProviders == old(zipToProviders) && zipToCounties == old(zipToCounties)
    {
      var m := LoadDirectory(fileExists, t);
      idToName := m;
    }

    /**
     * `load_zip_to_providers`: take both maps from the direct source when it
     * found any ZIP; otherwise from the county merge (whose result is passed
     * in) when that found any; otherwise keep the maps as they were.
     */
    method LoadZipToProviders(uniqueExists: bool, unique: Table, merged: Index)
      modifies this
      ensures var direct := DirectIndex(uniqueExists, unique);
              direct.providers != map[] ==> zipToProviders == direct.providers && zipToCounties == direct.counties
      ensures var direct := DirectIndex(uniqueExists, unique);
              direct.providers == map[] && merged.providers != map[] ==>
                zipToProviders == merged.providers && zipToCounties == merged.counties
      ensures var direct := DirectIndex(uniqueExists, unique);
              direct.providers == map[] && merged.providers == map[] ==>
                zipToProviders == old(zipToProviders) && zipToCounties == old(zipToCounties)
      ensures idToName == old(idToName)
      ensures old(Valid()) && WellFormed(merged) ==> Valid()
    {
      var m1, c1 := LoadFromUnique(uniqueExists, unique);
      DirectIndexWellFormed(uniqueExists, unique);
      if m1 != map[] {
        zipToProviders, zipToCounties := m1, c1;
        return;
      }
      var m2, c2 := merged.providers, merged.counties;
      if m2 != map[] {
        zipToProviders, zipToCounties := m2, c2;
        return;
      }
    }

    /**
     * Start-up: load the directory, then the ZIP maps, trying the county merge
     * second. Since the merge yields nothing, the ZIP maps end up as the direct
     * index when it found any ZIP, and as they were otherwise.
     */
    method Startup(providerListExists: bool, providerList: Table, uniqueExists: bool, unique: Table,
                   byCountyExists: bool, crosswalkExists: bool)
      modifies this
      requires Valid()
      ensures providerListExists && ReadDirectory(providerList).Success? ==> idToName == ReadDirectory(providerList).value
      ensures !providerListExists || ReadDirectory(providerList).Failure? ==> idToName == map[]
      ensures var direct := DirectIndex(uniqueExists, unique);
              direct.providers != map[] ==> zipToProviders == direct.providers && zipToCounties == map[]
      ensures DirectIndex(uniqueExists, unique).providers == map[] ==>
                zipToProviders == old(zipToProviders) && zipToCounties == old(zipToCounties)
      ensures Valid()
    {
      LoadProviderNames(providerListExists, providerList);
      LoadZipToProviders(uniqueExists, unique, CountyMerge(byCountyExists, crosswalkExists));
    }
  }
}
