/**
 * `StoreManager`: the table of catalog sources and the policy that decides which
 * sources may enter it. The table starts with one reserved Official source under
 * the id "default", which can be neither removed nor retyped. Whether a URL
 * parses (`url::Url::parse`) is the parameter `urlParses`.
 */
module Manager {
  import opened Wrappers
  import opened Text
  import opened Maps
  import opened StoreModels
  import opened StoreErrors

  const DefaultId: string := "default"

  /** The reserved source every table starts with. */
  const DefaultSource: StoreSource := StoreSource(
    DefaultId,
    "Local Arcadia Store",
    Official,
    "https://github.com/tiagozaccaro/arcadia-app/blob/main/arcadia-store/store-manifest.json",
    true,
    0)

  const HttpsPrefix: string := "https://"

  /** The blocklist of `validate_custom_url`, in the order it is scanned. */
  const BlockedDomains: seq<string> :=
    ["localhost", "127.0.0.1", "0.0.0.0", "10.0.0.0/8", "172.16.0.0/12", "192.168.0.0/16"]

  // ---- validate_custom_url ----

  /** The blocklist loop: names the first token, in list order, that occurs in `url`. */
  function CheckBlocklist(url: string, domains: seq<string>): (r: Result<(), StoreError>)
    ensures r.Ok? <==> forall i :: 0 <= i < |domains| ==> !Contains(url, domains[i])
    ensures r.Err? ==> exists i :: 0 <= i < |domains| && Contains(url, domains[i])
                                  && (forall j :: 0 <= j < i ==> !Contains(url, domains[j]))
                                  && r.error == Security("Blocked domain: " + domains[i])
  {
    if domains == [] then Ok(())
    else if Contains(url, domains[0]) then Err(Security("Blocked domain: " + domains[0]))
    else
      var r := CheckBlocklist(url, domains[1..]);
      assert r.Err? ==> exists i :: 1 <= i < |domains| && Contains(url, domains[i])
                                  && (forall j :: 1 <= j < i ==> !Contains(url, domains[j]))
                                  && r.error == Security("Blocked domain: " + domains[i]) by {
        if r.Err? {
          var i :| 0 <= i < |domains| - 1 && Contains(url, domains[1..][i])
                   && (forall j :: 0 <= j < i ==> !Contains(url, domains[1..][j]))
                   && r.error == Security("Blocked domain: " + domains[1..][i]);
          assert domains[i + 1] == domains[1..][i];
          forall j | 1 <= j < i + 1 ensures !Contains(url, domains[j]) {
            assert domains[j] == domains[1..][j - 1];
          }
        }
      }
      r
  }

  /**
   * `validate_custom_url`: the case-sensitive "https://" prefix is checked first,
   * then the blocklist as raw substrings of the whole URL.
   */
  function ValidateCustomUrl(url: string): (r: Result<(), StoreError>)
    ensures !StartsWith(url, HttpsPrefix) ==> r == Err(Security("Custom sources must use HTTPS"))
    ensures StartsWith(url, HttpsPrefix) ==> r == CheckBlocklist(url, BlockedDomains)
    ensures r.Ok? <==> (StartsWith(url, HttpsPrefix)
                        && forall i :: 0 <= i < |BlockedDomains| ==> !Contains(url, BlockedDomains[i]))
    ensures r.Err? ==> r.error.Security?
  {
    if !StartsWith(url, HttpsPrefix) then Err(Security("Custom sources must use HTTPS"))
    else CheckBlocklist(url, BlockedDomains)
  }

  /** A string lacking one of the characters of `t` does not contain `t`. */
  lemma MissingCharNotContained(s: string, t: string, k: int)
    requires 0 <= k < |t| && t[k] !in s
    ensures !Contains(s, t)
  {
  }

  /**
   * Every blocked token holds an `l` or a `0`, so an HTTPS URL with neither
   * character passes, whatever host it names.
   */
  lemma HttpsWithoutLOrZeroAccepted(url: string)
    requires StartsWith(url, HttpsPrefix)
    requires 'l' !in url && '0' !in url
    ensures ValidateCustomUrl(url).Ok?
  {
    MissingCharNotContained(url, BlockedDomains[0], 0);
    MissingCharNotContained(url, BlockedDomains[1], 4);
    MissingCharNotContained(url, BlockedDomains[2], 0);
    MissingCharNotContained(url, BlockedDomains[3], 1);
    MissingCharNotContained(url, BlockedDomains[4], 7);
    MissingCharNotContained(url, BlockedDomains[5], 8);
  }

  /** The blocklist is literal text: the link-local metadata address is not refused. */
  lemma BlocklistMissesLinkLocal()
    ensures ValidateCustomUrl("https://169.254.169.254/").Ok?
  {
    var a := "https://169.254.169.254/";
    assert a[..8] == HttpsPrefix;
    HttpsWithoutLOrZeroAccepted(a);
  }

  /** The blocklist is literal text: the IPv6 loopback address is not refused. */
  lemma BlocklistMissesIpv6Loopback()
    ensures ValidateCustomUrl("https://[::1]/").Ok?
  {
    var b := "https://[::1]/";
    assert b[..8] == HttpsPrefix;
    HttpsWithoutLOrZeroAccepted(b);
  }

  /** The blocklist scans the whole URL: a path that spells a token is refused. */
  lemma BlocklistMatchesPaths()
    ensures ValidateCustomUrl("https://example.com/localhost-notes") == Err(Security("Blocked domain: localhost"))
  {
    var c := "https://example.com/localhost-notes";
    assert c[..8] == HttpsPrefix;
    assert OccursAt(c, BlockedDomains[0], 20);
    assert Contains(c, BlockedDomains[0]);
    assert CheckBlocklist(c, BlockedDomains) == Err(Security("Blocked domain: " + BlockedDomains[0]));
    assert "Blocked domain: " + BlockedDomains[0] == "Blocked domain: localhost";
  }

  // ---- validate_source ----

  /**
   * `validate_source`: the name must hold a non-whitespace character; a URL of
   * whitespace only is allowed for Official sources alone; any other URL must
   * parse, and a Custom source's URL must pass `validate_custom_url`.
   */
  function ValidateSource(source: StoreSource, urlParses: string -> bool): (r: Result<(), StoreError>)
    ensures Blank(source.name) ==> r == Err(Validation("Source name cannot be empty"))
    ensures !Blank(source.name) && Blank(source.baseUrl) ==>
              r == if source.sourceType == Official then Ok(()) else Err(Validation("Base URL cannot be empty"))
    ensures !Blank(source.name) && !Blank(source.baseUrl) && !urlParses(source.baseUrl) ==>
              r == Err(Validation("Invalid URL format"))
    ensures !Blank(source.name) && !Blank(source.baseUrl) && urlParses(source.baseUrl) ==>
              r == if source.sourceType == Custom then ValidateCustomUrl(source.baseUrl) else Ok(())
  {
    TrimEmptyIffBlank(source.name);
    TrimEmptyIffBlank(source.baseUrl);
    if Trim(source.name) == [] then Err(Validation("Source name cannot be empty"))
    else if Trim(source.baseUrl) == [] then
      if source.sourceType != Official then Err(Validation("Base URL cannot be empty")) else Ok(())
    else if !urlParses(source.baseUrl) then Err(Validation("Invalid URL format"))
    else if source.sourceType == Custom then ValidateCustomUrl(source.baseUrl)
    else Ok(())
  }

  /**
   * For a Custom source with a proper name and a parsing URL, the policy raises a
   * security error exactly when the URL lacks the "https://" prefix or contains a
   * blocked token.
   */
  lemma CustomSourceSecurity(source: StoreSource, urlParses: string -> bool)
    requires source.sourceType == Custom
    requires !Blank(source.name) && !Blank(source.baseUrl) && urlParses(source.baseUrl)
    ensures (ValidateSource(source, urlParses).Err? && ValidateSource(source, urlParses).error.Security?)
            <==> (!StartsWith(source.baseUrl, HttpsPrefix)
                  || exists i :: 0 <= i < |BlockedDomains| && Contains(source.baseUrl, BlockedDomains[i]))
    ensures ValidateSource(source, urlParses).Ok? || ValidateSource(source, urlParses).error.Security?
  {
  }

  // ---- list_sources ----

  predicate SortedByPriority(s: seq<StoreSource>) {
    forall i, j :: 0 <= i < j < |s| ==> s[i].priority <= s[j].priority
  }

  /** Puts `x` in front of the first element of `s` whose priority is not lower. */
  function InsertByPriority(x: StoreSource, s: seq<StoreSource>): (r: seq<StoreSource>)
    ensures multiset(r) == multiset(s) + multiset{x}
  {
    if s == [] then [x]
    else if x.priority <= s[0].priority then [x] + s
    else
      assert s == [s[0]] + s[1..];
      [s[0]] + InsertByPriority(x, s[1..])
  }

  /** Inserting keeps any lower bound that `x` and every element of `s` respect. */
  lemma {:induction false} InsertKeepsBound(x: StoreSource, s: seq<StoreSource>, p: int)
    requires p <= x.priority
    requires forall i :: 0 <= i < |s| ==> p <= s[i].priority
    ensures forall i :: 0 <= i < |InsertByPriority(x, s)| ==> p <= InsertByPriority(x, s)[i].priority
  {
    if s != [] && x.priority > s[0].priority {
      InsertKeepsBound(x, s[1..], p);
    }
  }

  lemma {:induction false} InsertKeepsSorted(x: StoreSource, s: seq<StoreSource>)
    requires SortedByPriority(s)
    ensures SortedByPriority(InsertByPriority(x, s))
  {
    if s != [] && x.priority > s[0].priority {
      var tail := InsertByPriority(x, s[1..]);
      InsertKeepsSorted(x, s[1..]);
      InsertKeepsBound(x, s[1..], s[0].priority);
      assert InsertByPriority(x, s) == [s[0]] + tail;
    }
  }

  /** The stable sort `sort_by_key(|s| s.priority)`, as insertion sort. */
  function SortByPriority(s: seq<StoreSource>): (r: seq<StoreSource>)
    ensures SortedByPriority(r)
    ensures multiset(r) == multiset(s)
  {
    if s == [] then []
    else
      assert s == [s[0]] + s[1..];
      InsertKeepsSorted(s[0], SortByPriority(s[1..]));
      InsertByPriority(s[0], SortByPriority(s[1..]))
  }

  /**
   * With the reserved source at priority 0 and two sources at 1 and 5, any sorted
   * listing of the three is reserved, then 1, then 5.
   */
  lemma ListedInPriorityOrder(r: seq<StoreSource>, d: StoreSource, x: StoreSource, y: StoreSource)
    requires d.priority == 0 && x.priority == 1 && y.priority == 5
    requires multiset(r) == multiset{d, x, y}
    requires SortedByPriority(r)
    ensures r == [d, x, y]
  {
    assert |r| == 3 by {
      assert |multiset(r)| == |r|;
    }
    assert d in multiset(r) && x in multiset(r) && y in multiset(r);
    assert forall z :: z in r ==> z == d || z == x || z == y by {
      forall z | z in r ensures z == d || z == x || z == y {
        assert z in multiset(r);
      }
    }
    assert r[0] in r && r[1] in r && r[2] in r;
  }

  /** The filter `get_enabled_sources` applies. */
  predicate IsEnabled(s: StoreSource) {
    s.enabled
  }

  /**
   * The table's invariant: the reserved id is present and Official, and every
   * source is stored under its own id.
   */
  predicate WellKeyed(m: map<string, StoreSource>) {
    && DefaultId in m
    && m[DefaultId].sourceType == Official
    && forall id :: id in m ==> m[id].id == id
  }

  /** Storing a source under its id keeps the invariant unless it would retype the reserved source. */
  lemma StoreKeepsWellKeyed(m: map<string, StoreSource>, source: StoreSource)
    requires WellKeyed(m)
    requires source.id != DefaultId || source.sourceType == Official
    ensures WellKeyed(m[source.id := source])
  {
  }

  /** Removing any id but the reserved one keeps the invariant. */
  lemma RemoveKeepsWellKeyed(m: map<string, StoreSource>, id: string)
    requires WellKeyed(m) && id != DefaultId
    ensures WellKeyed(m - {id})
  {
  }

  class StoreManager {
    var sources: map<string, StoreSource>

    /** The reserved Official source is present, and every source is stored under its own id. */
    ghost predicate Valid()
      reads this
    {
      WellKeyed(sources)
    }

    /** `new`: a table holding only the reserved source. */
    constructor ()
      ensures Valid()
      ensures sources == map[DefaultId := DefaultSource]
      ensures sources[DefaultId].enabled && sources[DefaultId].priority == 0
    {
      sources := map[DefaultId := DefaultSource];
    }

    /** `add_source`: a new id is admitted when the policy accepts the source. */
    method AddSource(source: StoreSource, urlParses: string -> bool) returns (r: Result<(), StoreError>)
      requires Valid()
      modifies this
      ensures Valid()
      ensures source.id in old(sources) ==> r == Err(Validation("Source with this ID already exists"))
      ensures source.id !in old(sources) ==> r == ValidateSource(source, urlParses)
      ensures sources == if r.Ok? then old(sources)[source.id := source] else old(sources)
    {
      if source.id in sources {
        return Err(Validation("Source with this ID already exists"));
      }
      r := ValidateSource(source, urlParses);
      if r.Ok? {
        StoreKeepsWellKeyed(sources, source);
        sources := sources[source.id := source];
      }
    }

    /** `remove_source`: the reserved id is refused; any other id, present or not, is dropped. */
    method RemoveSource(id: string) returns (r: Result<(), StoreError>)
      requires Valid()
      modifies this
      ensures Valid()
      ensures id == DefaultId ==> r == Err(Validation("Cannot remove default source"))
      ensures id != DefaultId ==> r == Ok(())
      ensures sources == if id == DefaultId then old(sources) else old(sources) - {id}
    {
      if id == DefaultId {
        return Err(Validation("Cannot remove default source"));
      }
      RemoveKeepsWellKeyed(sources, id);
      sources := sources - {id};
      r := Ok(());
    }

    /** `update_source`: replaces a present source when the policy accepts it; the reserved one stays Official. */
    method UpdateSource(source: StoreSource, urlParses: string -> bool) returns (r: Result<(), StoreError>)
      requires Valid()
      modifies this
      ensures Valid()
      ensures source.id !in old(sources) ==> r == Err(Validation("Source not found"))
      ensures source.id in old(sources) && source.id == DefaultId && source.sourceType != Official ==>
                r == Err(Validation("Cannot change type of default source"))
      ensures source.id in old(sources) && (source.id != DefaultId || source.sourceType == Official) ==>
                r == ValidateSource(source, urlParses)
      ensures sources == if r.Ok? then old(sources)[source.id := source] else old(sources)
    {
      if source.id !in sources {
        return Err(Validation("Source not found"));
      }
      if source.id == DefaultId && source.sourceType != Official {
        return Err(Validation("Cannot change type of default source"));
      }
      r := ValidateSource(source, urlParses);
      if r.Ok? {
        StoreKeepsWellKeyed(sources, source);
        sources := sources[source.id := source];
      }
    }

    /** `get_source`. */
    function GetSource(id: string): (r: Option<StoreSource>)
      reads this
      ensures r == None <==> id !in sources
      ensures r.Some? ==> r.value == sources[id]
    {
      if id in sources then Some(sources[id]) else None
    }

    /** `list_sources`: every source once, ascending by priority; ties in no particular order. */
    method ListSources() returns (r: seq<StoreSource>, ghost order: seq<string>)
      ensures |r| == |sources|
      ensures forall x :: x in r <==> x in sources.Values
      ensures SortedByPriority(r)
      ensures Enumerates(sources, order)
      ensures multiset(r) == multiset(ValuesOf(sources, order))
    {
      var collected;
      collected, order := Snapshot(sources);
      r := SortByPriority(collected);
      assert |r| == |multiset(r)|;
      forall x ensures x in r <==> x in collected {
        assert x in r <==> x in multiset(r);
        assert x in collected <==> x in multiset(collected);
      }
    }

    /** `get_enabled_sources`: the enabled sources, filtered from one snapshot (not sorted). */
    method GetEnabledSources() returns (r: seq<StoreSource>, ghost order: seq<string>)
      ensures forall x :: x in r <==> x in sources.Values && x.enabled
      ensures Enumerates(sources, order)
      ensures r == Filter(ValuesOf(sources, order), IsEnabled)
    {
      var all;
      all, order := Snapshot(sources);
      r := Filter(all, IsEnabled);
      FilterSelects(all, IsEnabled);
    }
  }
}
