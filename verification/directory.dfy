/**
 The directory side of the reconciliation: distinguished names, the entries a
 search returns, and the exact common-name search that Lock, Unlock and
 Activate run against the directory base.
 */
module Directory {
  import opened Wrappers

  /** A distinguished name, compared as an exact string. */
  type Dn = string

  /** One entry of a directory search: its common name and distinguished name. */
  datatype Entry = Entry(cn: string, dn: Dn)

  const CnPrefix: string := "(cn="

  /** The exact-match filter on a common name: `(cn=<name>)`. */
  function CnFilter(cn: string): string
  {
    CnPrefix + cn + ")"
  }

  /**
   The directory accepts a filter only when it is one parenthesised cn
   clause; it answers with the name the clause asks for.
   */
  function ParseCnFilter(filter: string): (r: Option<string>)
    ensures r.Some? ==> CnFilter(r.value) == filter
    ensures r.Some? ==> |r.value| + |CnPrefix| + 1 == |filter|
  {
    if |filter| >= |CnPrefix| + 1 && filter[..|CnPrefix|] == CnPrefix && filter[|filter| - 1] == ')' then
      var name := filter[|CnPrefix|..|filter| - 1];
      assert CnPrefix + name + ")" == filter by {
        assert filter == filter[..|CnPrefix|] + name + filter[|filter| - 1..];
      }
      Some(name)
    else
      None
  }

  /** Parsing the filter that CnFilter builds gives back the name it was built from. */
  lemma CnFilterRoundTrip(cn: string)
    ensures ParseCnFilter(CnFilter(cn)) == Some(cn)
  {
    var f := CnFilter(cn);
    assert f[..|CnPrefix|] == CnPrefix;
    assert f[|CnPrefix|..|f| - 1] == cn;
  }

  /** What a search for at most one person returns. */
  datatype SearchResult = Found(dn: Dn) | NoEntry | MalformedFilter

  /**
   A search of the directory (keyed by common name) with a filter: a filter
   the directory cannot read is refused, otherwise the first match or nothing.
   */
  function Search(directory: map<string, Dn>, filter: string): (r: SearchResult)
    ensures r.MalformedFilter? <==> ParseCnFilter(filter).None?
    ensures r.Found? ==> exists cn :: cn in directory && CnFilter(cn) == filter && directory[cn] == r.dn
    ensures r.NoEntry? ==> forall cn :: CnFilter(cn) == filter ==> cn !in directory
  {
    match ParseCnFilter(filter)
    case None => MalformedFilter
    case Some(cn) =>
      if cn in directory then Found(directory[cn])
      else
        assert forall other :: CnFilter(other) == filter ==> other == cn by {
          forall other | CnFilter(other) == filter
            ensures other == cn
          {
            CnFilterRoundTrip(other);
          }
        }
        NoEntry
  }

  /** The exact-cn lookup of one user: found precisely when the directory holds that cn. */
  function FindUser(directory: map<string, Dn>, cn: string): (r: SearchResult)
    ensures r.Found? <==> cn in directory
    ensures r.Found? ==> r.dn == directory[cn]
    ensures !r.MalformedFilter?
  {
    CnFilterRoundTrip(cn);
    Search(directory, CnFilter(cn))
  }
}
