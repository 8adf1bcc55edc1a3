/**
 * The continent table and the country-code index built from it
 * (src/data/continents.js): every continent's list of ISO 3166-1 alpha-3
 * codes, and a lookup from code to continent id filled by a nested loop over
 * the table in its declared order.
 */
module Continents {

  /** A continent's id (the key in the table), display name and codes. */
  datatype Continent = Continent(id: string, name: string, countries: seq<string>)

  /** The table, in declaration order, which is also the order in which
      `Object.entries` visits it. */
  const Table: seq<Continent> := [
    Continent("asia", "Asia",
      ["CHN", "IND", "JPN", "KOR", "PRK", "MNG", "KAZ", "UZB", "TKM", "TJK", "KGZ", "AFG",
       "PAK", "BGD", "LKA", "NPL", "BTN", "MMR", "THA", "VNM", "LAO", "KHM", "MYS", "IDN",
       "PHL", "SGP", "BRN", "TLS", "IRQ", "IRN", "SYR", "JOR", "LBN", "ISR", "PSE", "SAU",
       "YEM", "OMN", "ARE", "QAT", "BHR", "KWT", "GEO", "ARM", "AZE", "TUR"]),
    Continent("europe", "Europe",
      ["GBR", "FRA", "DEU", "ITA", "ESP", "PRT", "NLD", "BEL", "LUX", "CHE", "AUT", "POL",
       "CZE", "SVK", "HUN", "ROU", "BGR", "GRC", "SRB", "HRV", "SVN", "BIH", "MNE", "MKD",
       "ALB", "NOR", "SWE", "FIN", "DNK", "EST", "LVA", "LTU", "BLR", "UKR", "MDA", "IRL",
       "ISL"]),
    Continent("africa", "Africa",
      ["DZA", "AGO", "BEN", "BWA", "BFA", "BDI", "CMR", "CPV", "CAF", "TCD", "COM", "COG",
       "COD", "CIV", "DJI", "EGY", "GNQ", "ERI", "ETH", "GAB", "GMB", "GHA", "GIN", "GNB",
       "KEN", "LSO", "LBR", "LBY", "MDG", "MWI", "MLI", "MRT", "MUS", "MAR", "MOZ", "NAM",
       "NER", "NGA", "RWA", "STP", "SEN", "SYC", "SLE", "SOM", "ZAF", "SSD", "SDN", "SWZ",
       "TZA", "TGO", "TUN", "UGA", "ZMB", "ZWE"]),
    Continent("north-america", "North America",
      ["USA", "CAN", "MEX", "GTM", "BLZ", "HND", "SLV", "NIC", "CRI", "PAN", "CUB", "JAM",
       "HTI", "DOM", "TTO", "BHS", "BRB", "GRD", "ATG", "DMA", "KNA", "LCA", "VCT"]),
    Continent("south-america", "South America",
      ["BRA", "ARG", "CHL", "COL", "PER", "VEN", "ECU", "BOL", "PRY", "URY", "GUY", "SUR"]),
    Continent("oceania", "Oceania",
      ["AUS", "NZL", "PNG", "FJI", "SLB", "VUT", "WSM", "TON", "FSM", "PLW", "MHL", "KIR",
       "NRU", "TUV"])
  ]

  // ---------------------------------------------------------------------
  // The index, as the loop builds it
  // ---------------------------------------------------------------------

  /** Storing `id` under each of `codes`, first to last. */
  function AssignAll(m: map<string, string>, id: string, codes: seq<string>): map<string, string> {
    if codes == [] then m else AssignAll(m, id, codes[..|codes| - 1])[codes[|codes| - 1] := id]
  }

  /** The index after visiting the continents of `table` in order. */
  function IndexOf(table: seq<Continent>): map<string, string> {
    if table == [] then map[]
    else AssignAll(IndexOf(table[..|table| - 1]), table[|table| - 1].id, table[|table| - 1].countries)
  }

  /** The nested `forEach`: starting from an empty object, each continent
      writes its id under each of its codes. */
  method BuildIndex(table: seq<Continent>) returns (index: map<string, string>)
    ensures index == IndexOf(table)
  {
    index := map[];
    var i := 0;
    while i < |table|
      invariant 0 <= i <= |table|
      invariant index == IndexOf(table[..i])
    {
      var id, codes := table[i].id, table[i].countries;
      var j := 0;
      while j < |codes|
        invariant 0 <= j <= |codes|
        invariant index == AssignAll(IndexOf(table[..i]), id, codes[..j])
      {
        assert codes[..j + 1][..j] == codes[..j];
        index := index[codes[j] := id];
        j := j + 1;
      }
      assert codes[..j] == codes;
      assert table[..i + 1][..i] == table[..i];
      i := i + 1;
    }
    assert table[..i] == table;
  }

  // ---------------------------------------------------------------------
  // What the index holds
  // ---------------------------------------------------------------------

  /** Assigning a list of codes adds exactly those codes, maps each of them to
      `id`, and leaves every other entry alone. */
  lemma {:induction false} AssignAllSpec(m: map<string, string>, id: string, codes: seq<string>)
    ensures var r := AssignAll(m, id, codes);
      && (forall c :: c in r <==> c in m || c in codes)
      && (forall c :: c in codes ==> r[c] == id)
      && (forall c :: c in m && c !in codes ==> r[c] == m[c])
  {
    if codes != [] {
      var init := codes[..|codes| - 1];
      AssignAllSpec(m, id, init);
      assert forall c :: c in codes <==> c in init || c == codes[|codes| - 1];
    }
  }

  /** `code` is listed by the continent at position `i`. */
  predicate ListedAt(table: seq<Continent>, code: string, i: int) {
    0 <= i < |table| && code in table[i].countries
  }

  /** The index has an entry for a code exactly when some continent lists
      it. */
  lemma {:induction false} IndexKeys(table: seq<Continent>, code: string)
    ensures code in IndexOf(table) <==> exists i :: ListedAt(table, code, i)
  {
    if table != [] {
      var n := |table|;
      var init := table[..n - 1];
      IndexKeys(init, code);
      AssignAllSpec(IndexOf(init), table[n - 1].id, table[n - 1].countries);
      if code in IndexOf(table) {
        if code in table[n - 1].countries {
          assert ListedAt(table, code, n - 1);
        } else {
          var i :| ListedAt(init, code, i);
          assert init[i] == table[i];
          assert ListedAt(table, code, i);
        }
      }
      if i :| ListedAt(table, code, i) {
        if i < n - 1 {
          assert init[i] == table[i];
          assert ListedAt(init, code, i);
        }
      }
    }
  }

  /** An entry is the id of the last continent, in table order, that lists
      the code. */
  lemma {:induction false} IndexValue(table: seq<Continent>, code: string)
    requires code in IndexOf(table)
    ensures exists i :: ListedAt(table, code, i) && IndexOf(table)[code] == table[i].id
                        && forall k :: i < k < |table| ==> code !in table[k].countries
  {
    var n := |table|;
    var init := table[..n - 1];
    AssignAllSpec(IndexOf(init), table[n - 1].id, table[n - 1].countries);
    if code in table[n - 1].countries {
      assert ListedAt(table, code, n - 1);
    } else {
      IndexValue(init, code);
      var i :| ListedAt(init, code, i) && IndexOf(init)[code] == init[i].id
               && forall k :: i < k < n - 1 ==> code !in init[k].countries;
      assert init[i] == table[i];
      assert ListedAt(table, code, i);
      forall k | i < k < n
        ensures code !in table[k].countries
      {
        if k < n - 1 {
          assert init[k] == table[k];
        }
      }
    }
  }

  /** Every listed code leads back to a continent that lists it. */
  lemma IndexMapsToListingContinent(table: seq<Continent>, code: string, i: nat)
    requires ListedAt(table, code, i)
    ensures code in IndexOf(table)
    ensures exists k :: ListedAt(table, code, k) && IndexOf(table)[code] == table[k].id
  {
    IndexKeys(table, code);
    IndexValue(table, code);
  }

  /** When the last continent to list a code is at position `i`, the code
      maps to that continent's id. */
  lemma IndexLastWins(table: seq<Continent>, code: string, i: nat)
    requires ListedAt(table, code, i)
    requires forall k :: i < k < |table| ==> code !in table[k].countries
    ensures code in IndexOf(table) && IndexOf(table)[code] == table[i].id
  {
    IndexKeys(table, code);
    IndexValue(table, code);
    var j :| ListedAt(table, code, j) && IndexOf(table)[code] == table[j].id
             && forall k :: j < k < |table| ==> code !in table[k].countries;
    assert !(j < i) && !(i < j);
  }
}
