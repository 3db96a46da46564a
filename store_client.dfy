/**
 * `ExtensionStoreClient`: catalog queries, the security check on store-origin
 * manifests, and the checksum gate on downloaded packages. The HTTP round trip
 * (send a GET, decode the body) is the parameter `get`, from a URL to what the
 * transport and the JSON decoder deliver; MD5 is the parameter `md5`, from the
 * package bytes to the raw 16-byte digest; `urlencoding::encode` is `encode`.
 */
module Client {
  import opened Wrappers
  import opened Text
  import opened Models
  import opened StoreModels
  import opened StoreErrors

  // ---- validate_manifest_security ----

  /** Permissions a store-origin manifest may never request, in the order the source lists them. */
  const DangerousPermissions: seq<string> := ["filesystem", "native"]

  /** The permission loop: reports the first permission, in list order, that is dangerous. */
  function CheckDangerous(perms: seq<string>): (r: Result<(), StoreError>)
    ensures r.Ok? <==> forall i :: 0 <= i < |perms| ==> perms[i] !in DangerousPermissions
    ensures r.Err? ==> exists i :: 0 <= i < |perms| && perms[i] in DangerousPermissions
                                  && (forall j :: 0 <= j < i ==> perms[j] !in DangerousPermissions)
                                  && r.error == Security("Dangerous permission requested: " + perms[i])
  {
    if perms == [] then Ok(())
    else if perms[0] in DangerousPermissions then Err(Security("Dangerous permission requested: " + perms[0]))
    else
      var r := CheckDangerous(perms[1..]);
      assert r.Err? ==> exists i :: 1 <= i < |perms| && perms[i] in DangerousPermissions
                                  && (forall j :: 1 <= j < i ==> perms[j] !in DangerousPermissions)
                                  && r.error == Security("Dangerous permission requested: " + perms[i]) by {
        if r.Err? {
          var i :| 0 <= i < |perms| - 1 && perms[1..][i] in DangerousPermissions
                   && (forall j :: 0 <= j < i ==> perms[1..][j] !in DangerousPermissions)
                   && r.error == Security("Dangerous permission requested: " + perms[1..][i]);
          assert perms[i + 1] == perms[1..][i];
          forall j | 1 <= j < i + 1 ensures perms[j] !in DangerousPermissions {
            assert perms[j] == perms[1..][j - 1];
          }
        }
      }
      r
  }

  /** The name check: a store-origin name may hold neither ".." nor "/". */
  predicate BadName(name: string) {
    Contains(name, "..") || Contains(name, "/")
  }

  /**
   * `validate_manifest_security`: the name is checked first, then the entry point,
   * then the permissions; every rejection is a security error.
   */
  function ValidateManifestSecurity(m: ExtensionManifest): (r: Result<(), StoreError>)
    ensures BadName(m.name) ==> r == Err(Security("Invalid extension name"))
    ensures !BadName(m.name) && Contains(m.entryPoint, "..") ==> r == Err(Security("Invalid entry point"))
    ensures !BadName(m.name) && !Contains(m.entryPoint, "..") ==> r == CheckDangerous(m.permissions)
    ensures r.Ok? <==> (&& !Contains(m.name, "..") && !Contains(m.name, "/") && !Contains(m.entryPoint, "..")
                        && forall i :: 0 <= i < |m.permissions| ==> m.permissions[i] !in DangerousPermissions)
    ensures r.Err? ==> r.error.Security?
  {
    if Contains(m.name, "..") || Contains(m.name, "/") then Err(Security("Invalid extension name"))
    else if Contains(m.entryPoint, "..") then Err(Security("Invalid entry point"))
    else CheckDangerous(m.permissions)
  }

  // ---- download_manifest ----

  /**
   * `download_manifest`: a fetched manifest reaches the caller only when it passes
   * the security check; otherwise the caller sees the check's error, or the
   * transport's error when the fetch itself failed.
   */
  function DownloadManifest(manifestUrl: string, get: string -> Result<ExtensionManifest, StoreError>)
    : (r: Result<ExtensionManifest, StoreError>)
    ensures get(manifestUrl).Err? ==> r == get(manifestUrl)
    ensures r.Ok? <==> get(manifestUrl).Ok? && ValidateManifestSecurity(get(manifestUrl).value).Ok?
    ensures r.Ok? ==> r.value == get(manifestUrl).value
    ensures get(manifestUrl).Ok? && ValidateManifestSecurity(get(manifestUrl).value).Err? ==>
              r == Err(ValidateManifestSecurity(get(manifestUrl).value).error)
  {
    match get(manifestUrl)
    case Err(e) => Err(e)
    case Ok(m) =>
      match ValidateManifestSecurity(m)
      case Err(e) => Err(e)
      case Ok(_) => Ok(m)
  }

  /** A store manifest that asks for "native" never reaches the caller. */
  lemma NativeManifestRejected(manifestUrl: string, get: string -> Result<ExtensionManifest, StoreError>)
    requires get(manifestUrl).Ok? && get(manifestUrl).value.permissions == ["native"]
    ensures DownloadManifest(manifestUrl, get).Err?
    ensures DownloadManifest(manifestUrl, get).error.Security?
  {
    assert get(manifestUrl).value.permissions[0] in DangerousPermissions;
  }

  // ---- download_extension ----

  /** The digest `format!("{:x}", md5::compute(data))` renders. */
  function ComputedChecksum(data: seq<byte>, md5: seq<byte> -> seq<byte>): string {
    LowerHex(md5(data))
  }

  /**
   * `download_extension`: the bytes are handed back, unchanged, exactly when their
   * rendered digest equals the store-declared checksum character for character.
   */
  function DownloadExtension(packageUrl: string, checksum: string,
                             get: string -> Result<seq<byte>, StoreError>, md5: seq<byte> -> seq<byte>)
    : (r: Result<seq<byte>, StoreError>)
    ensures get(packageUrl).Err? ==> r == get(packageUrl)
    ensures r.Ok? <==> get(packageUrl).Ok? && ComputedChecksum(get(packageUrl).value, md5) == checksum
    ensures r.Ok? ==> r.value == get(packageUrl).value
    ensures get(packageUrl).Ok? && ComputedChecksum(get(packageUrl).value, md5) != checksum ==>
              r == Err(Security("Checksum mismatch"))
  {
    match get(packageUrl)
    case Err(e) => Err(e)
    case Ok(data) =>
      if ComputedChecksum(data, md5) != checksum then Err(Security("Checksum mismatch")) else Ok(data)
  }

  /**
   * The comparison is case-sensitive against a lower-case rendering: a checksum
   * with any character other than `0`-`9`, `a`-`f`, or of the wrong length,
   * rejects every package.
   */
  lemma MalformedChecksumRejectsAll(packageUrl: string, checksum: string,
                                    get: string -> Result<seq<byte>, StoreError>, md5: seq<byte> -> seq<byte>)
    requires get(packageUrl).Ok?
    requires (exists i :: 0 <= i < |checksum| && !IsLowerHexDigit(checksum[i]))
             || |checksum| != 2 * |md5(get(packageUrl).value)|
    ensures DownloadExtension(packageUrl, checksum, get, md5) == Err(Security("Checksum mismatch"))
  {
  }

  /** Two packages the same checksum admits have the same digest. */
  lemma ChecksumPinsDigest(a: seq<byte>, b: seq<byte>, checksum: string, md5: seq<byte> -> seq<byte>)
    requires ComputedChecksum(a, md5) == checksum && ComputedChecksum(b, md5) == checksum
    ensures md5(a) == md5(b)
  {
    LowerHexInjective(md5(a), md5(b));
  }

  // ---- fetch_extensions ----

  /** The sort token sent for each option. */
  function SortToken(sort: SortOption): (t: string)
    ensures t in {"name", "downloads", "rating", "newest"}
  {
    match sort
    case Name => "name"
    case DownloadCount => "downloads"
    case Rating => "rating"
    case Newest => "newest"
  }

  /** Distinct sort options send distinct tokens. */
  lemma SortTokenInjective(a: SortOption, b: SortOption)
    ensures SortToken(a) == SortToken(b) ==> a == b
  {
  }

  function SortParam(sort: SortOption): string {
    "&sort=" + SortToken(sort)
  }

  function TypeParam(filters: StoreFilters): string {
    if filters.extensionType.Some? then "&type=" + TypeToString(filters.extensionType.value) else ""
  }

  function TagsParam(filters: StoreFilters): string {
    if filters.tags.Some? then "&tags=" + Join(filters.tags.value, ',') else ""
  }

  function SearchParam(filters: StoreFilters, encode: string -> string): string {
    if filters.search.Some? then "&search=" + encode(filters.search.value) else ""
  }

  /** The optional parameters, in the order they are appended; each begins with '&'. */
  function FilterParams(filters: StoreFilters, encode: string -> string): (r: string)
    ensures r != [] ==> r[0] == '&'
  {
    TypeParam(filters) + TagsParam(filters) + SearchParam(filters, encode)
  }

  /** The catalog query: page and limit always, then type, tags and search when given, then the sort. */
  function QueryUrl(baseUrl: string, filters: StoreFilters, sort: SortOption, page: u32, limit: u32,
                    encode: string -> string): string
  {
    baseUrl + "/extensions?page=" + Dec(page) + "&limit=" + Dec(limit) + FilterParams(filters, encode) + SortParam(sort)
  }

  /** `fetch_extensions`: builds the query string piece by piece and sends one GET. */
  method FetchExtensions(baseUrl: string, filters: StoreFilters, sort: SortOption, page: u32, limit: u32,
                         encode: string -> string, get: string -> Result<seq<StoreExtension>, StoreError>)
    returns (r: Result<seq<StoreExtension>, StoreError>)
    ensures r == get(QueryUrl(baseUrl, filters, sort, page, limit, encode))
  {
    var url := baseUrl + "/extensions?page=" + Dec(page) + "&limit=" + Dec(limit);
    ghost var u0 := url;
    if filters.extensionType.Some? {
      url := url + ("&type=" + TypeToString(filters.extensionType.value));
    }
    ghost var u1 := url;
    if filters.tags.Some? {
      url := url + ("&tags=" + Join(filters.tags.value, ','));
    }
    ghost var u2 := url;
    if filters.search.Some? {
      url := url + ("&search=" + encode(filters.search.value));
    }
    ghost var u3 := url;
    url := url + ("&sort=" + SortToken(sort));
    assert u1 == u0 + TypeParam(filters) && u2 == u1 + TagsParam(filters) && u3 == u2 + SearchParam(filters, encode);
    Regroup(u0, TypeParam(filters), TagsParam(filters), SearchParam(filters, encode));
    r := get(url);
  }

  lemma Regroup(a: string, b: string, c: string, d: string)
    ensures a + b + c + d == a + (b + c + d)
  {
  }

  lemma Regroup3(a: string, b: string, c: string)
    ensures a + b + c == a + (b + c)
  {
  }

  lemma PrefixOfConcat(a: string, b: string)
    ensures StartsWith(a + b, a)
  {
    assert (a + b)[..|a|] == a;
  }

  predicate EndsWith(s: string, suffix: string) {
    |suffix| <= |s| && s[|s| - |suffix|..] == suffix
  }

  /** A numeral followed by a non-digit, after any prefix, reads back as its number. */
  lemma NumeralReadBack(prefix: string, n: nat, tail: string)
    requires tail == [] || !IsDigit(tail[0])
    ensures (prefix + Dec(n) + tail)[|prefix|..] == Dec(n) + tail
    ensures ParseDec(TakeDigits((prefix + Dec(n) + tail)[|prefix|..])) == n
  {
    assert (prefix + Dec(n) + tail)[|prefix|..] == Dec(n) + tail;
    DecReadBack(n, tail);
  }

  /** The query's head: the base URL, the path and the page key. */
  function PageKey(baseUrl: string): string {
    baseUrl + "/extensions?page="
  }

  /** Everything before the limit's numeral. */
  function LimitKey(baseUrl: string, page: u32): string {
    PageKey(baseUrl) + Dec(page) + "&limit="
  }

  /** The page can be read back from the text after its key. */
  lemma QueryUrlCarriesPage(baseUrl: string, filters: StoreFilters, sort: SortOption, page: u32, limit: u32,
                            encode: string -> string)
    ensures StartsWith(QueryUrl(baseUrl, filters, sort, page, limit, encode), PageKey(baseUrl))
    ensures ParseDec(TakeDigits(QueryUrl(baseUrl, filters, sort, page, limit, encode)[|PageKey(baseUrl)|..])) == page
  {
    var url := QueryUrl(baseUrl, filters, sort, page, limit, encode);
    var tail := Dec(limit) + FilterParams(filters, encode) + SortParam(sort);
    var rest := "&limit=" + tail;
    assert url == LimitKey(baseUrl, page) + tail;
    Regroup3(PageKey(baseUrl) + Dec(page), "&limit=", tail);
    NumeralReadBack(PageKey(baseUrl), page, rest);
    Regroup3(PageKey(baseUrl), Dec(page), rest);
    PrefixOfConcat(PageKey(baseUrl), Dec(page) + rest);
  }

  /** The limit can be read back from the text after its key. */
  lemma QueryUrlCarriesLimit(baseUrl: string, filters: StoreFilters, sort: SortOption, page: u32, limit: u32,
                             encode: string -> string)
    ensures StartsWith(QueryUrl(baseUrl, filters, sort, page, limit, encode), LimitKey(baseUrl, page))
    ensures ParseDec(TakeDigits(QueryUrl(baseUrl, filters, sort, page, limit, encode)[|LimitKey(baseUrl, page)|..])) == limit
  {
    var key, f, t := LimitKey(baseUrl, page), FilterParams(filters, encode), SortParam(sort);
    assert QueryUrl(baseUrl, filters, sort, page, limit, encode) == key + Dec(limit) + f + t;
    Regroup3(key + Dec(limit), f, t);
    assert (f + t)[0] == '&' by {
      if f == [] {
        assert f + t == t;
      }
    }
    NumeralReadBack(key, limit, f + t);
  }

  /** The last character of each sort parameter, distinct for distinct options. */
  function SortMark(sort: SortOption): char {
    match sort
    case Name => 'e'
    case DownloadCount => 's'
    case Rating => 'g'
    case Newest => 't'
  }

  /** No sort parameter is a suffix of another's. */
  lemma SortParamsSuffixFree(a: SortOption, b: SortOption)
    ensures EndsWith(SortParam(a), SortParam(b)) ==> a == b
  {
    var s, t := SortParam(a), SortParam(b);
    assert s[|s| - 1] == SortMark(a);
    assert t[|t| - 1] == SortMark(b);
    if EndsWith(s, t) {
      assert s[|s| - 1] == t[|t| - 1];
    }
  }

  /** The query ends with the sort parameter, and the sort option can be read back from it. */
  lemma QueryUrlEndsWithSort(baseUrl: string, filters: StoreFilters, sort: SortOption, page: u32, limit: u32,
                             encode: string -> string, other: SortOption)
    ensures EndsWith(QueryUrl(baseUrl, filters, sort, page, limit, encode), SortParam(sort))
    ensures EndsWith(QueryUrl(baseUrl, filters, sort, page, limit, encode), SortParam(other)) ==> other == sort
  {
    var url := QueryUrl(baseUrl, filters, sort, page, limit, encode);
    var s, o := SortParam(sort), SortParam(other);
    assert url[|url| - |s|..] == s;
    if EndsWith(url, o) {
      if |o| <= |s| {
        assert s[|s| - |o|..] == url[|url| - |o|..];
        SortParamsSuffixFree(sort, other);
      } else {
        assert o[|o| - |s|..] == url[|url| - |s|..];
        SortParamsSuffixFree(other, sort);
      }
    }
  }

  /** The tags filter can be read back from its parameter when no tag contains a comma. */
  lemma TagsParamReadBack(filters: StoreFilters)
    requires filters.tags.Some? && filters.tags.value != []
    requires forall i :: 0 <= i < |filters.tags.value| ==> ',' !in filters.tags.value[i]
    ensures TagsParam(filters)[..6] == "&tags="
    ensures Split(TagsParam(filters)[6..], ',') == filters.tags.value
  {
    assert TagsParam(filters)[6..] == Join(filters.tags.value, ',');
    SplitJoin(filters.tags.value, ',');
  }

  /**
   * Tags are joined but not percent-encoded, unlike the search text: a tag that
   * holds `&` sends what reads as one more parameter.
   */
  lemma TagsNotEncoded(baseUrl: string, page: u32, limit: u32, encode: string -> string)
    requires encode("y") == "y"
    ensures QueryUrl(baseUrl, StoreFilters(None, Some(["x&search=y"]), None), Name, page, limit, encode)
            == QueryUrl(baseUrl, StoreFilters(None, Some(["x"]), Some("y")), Name, page, limit, encode)
  {
    var one := StoreFilters(None, Some(["x&search=y"]), None);
    var two := StoreFilters(None, Some(["x"]), Some("y"));
    assert FilterParams(one, encode) == "&tags=x&search=y";
    assert FilterParams(two, encode) == "&tags=x&search=y";
  }

  /** An empty tag list and a list of one empty tag both send `&tags=`, so they build the same query. */
  lemma EmptyTagListIsOneEmptyTag(baseUrl: string, extensionType: Option<ExtensionType>, search: Option<string>,
                                  sort: SortOption, page: u32, limit: u32, encode: string -> string)
    ensures QueryUrl(baseUrl, StoreFilters(extensionType, Some([]), search), sort, page, limit, encode)
            == QueryUrl(baseUrl, StoreFilters(extensionType, Some([""]), search), sort, page, limit, encode)
    ensures TagsParam(StoreFilters(extensionType, Some([]), search)) == "&tags="
  {
    assert TagsParam(StoreFilters(extensionType, Some([]), search)) == "&tags=";
    assert TagsParam(StoreFilters(extensionType, Some([""]), search)) == "&tags=";
  }
}
