# Arcadia extension trust boundary, in Dafny

This project models the part of the Arcadia extension system that decides what
extension content gets in, plus the two in-memory tables that decision feeds:

- **The store-source table** (`Manager`, from `src/store/manager.rs`). `StoreManager`
  holds a map of catalog sources, keyed by id. It starts with one reserved Official
  source, `"default"`, and guards every insert with the source policy:
  - the name must not be blank after trimming;
  - a blank URL is allowed only for Official sources;
  - any other URL must parse;
  - a Custom source's URL must start with `https://` and must contain none of six
    blocked tokens.

  The class keeps an invariant: `"default"` is present and Official, and every source
  is stored under its own id.
- **The store client** (`Client`, from `src/store/client.rs`):
  - the security check on manifests that come from a store;
  - the rule that `download_manifest` returns only manifests that pass that check;
  - the MD5 checksum gate on downloaded packages;
  - the catalog query string, together with lemmas that read page, limit and sort
    back out of it, and the tags back out of their own parameter.
- **General manifest validation** (`Manifest`, from `src/manifest.rs`): the first
  violated rule wins.
- **The extension registry** (`Registry`, from `src/registry.rs`): an upsert/remove
  map with filtered snapshots.
- **The extension-kind names** (`Models`, from `src/models.rs`), together with the
  record types.

Helper modules:
- `Text`: Unicode trimming as Rust's `char::is_whitespace` defines it, substring
  search, decimal and lower-case hex rendering with their inverses, and comma
  join/split.
- `Maps`: enumerating a map's keys, the snapshot loop that collects the values in
  that order (`Maps.Snapshot`), and sequence filtering.
- `Wrappers`: `Option` and `Result`.

A `HashMap` iteration runs in an order the program cannot predict. The snapshot
methods therefore draw each next key by nondeterministic choice and return, as a ghost
output, the order `order` in which they visited the keys. Their results are stated as
functions of the map and `order`.

Foreign code appears as function parameters:
- `urlParses` is `url::Url::parse(..).is_ok()`;
- `md5` is the raw MD5 digest;
- `encode` is `urlencoding::encode`;
- `get` is one HTTP GET followed by JSON (or byte) decoding.

What the proofs show about the code as written:
- `list_sources` sorts ascending by priority, and ties come out in hash-map order,
  not in insertion order. `get_enabled_sources` and the registry snapshots are not
  sorted at all. The contracts therefore promise a permutation (and, where the code
  sorts, sortedness), never a particular order.
- The blocklist is a literal substring scan of the whole URL. The CIDR-looking
  tokens such as `10.0.0.0/8` match only their literal text. `https://169.254.169.254/`
  and `https://[::1]/` are accepted (`Manager.BlocklistMissesLinkLocal`,
  `Manager.BlocklistMissesIpv6Loopback`). Any HTTPS URL with no `l` and no `0` is
  accepted (`Manager.HttpsWithoutLOrZeroAccepted`). A path that spells `localhost` is
  refused (`Manager.BlocklistMatchesPaths`).
- The checksum comparison is exact and case-sensitive against the lower-case
  rendering. A checksum with an upper-case digit, or of the wrong length, rejects
  every package (`Client.MalformedChecksumRejectsAll`).
- Tags are joined with commas but not percent-encoded, while the search text is
  encoded. A tag holding `&` therefore adds query parameters: the tag list
  `["x&search=y"]` builds the same query as the tag `x` with search text `y`
  (`Client.TagsNotEncoded`). So the tags cannot in general be read back out of the
  query, only out of their parameter when the list is non-empty and no tag holds a
  comma (`Client.TagsParamReadBack`). An empty tag list still sends `&tags=`, so it
  builds the same query as a list holding one empty tag
  (`Client.EmptyTagListIsOneEmptyTag`).
- `validate_manifest` does not trim, so a name of one space passes
  (`Manifest.WhitespaceNameAccepted`), while `validate_source` does trim.

## Model

| member | source | states |
|---|---|---|
| Models.TypeFromString | src/models.rs:11-20 | "data_source" and "game_library" map to their kinds, exactly; every other string, "theme" included, maps to Theme |
| Models.TypeToString | src/models.rs:22-31 | the rendered name is one of the three wire names and reads back, through `From`, as the same kind |
| Models.TypeToStringInjective | src/models.rs:22-31 | distinct kinds render to distinct names |
| Models.TypeStringRoundTrip | src/models.rs:11-31 | rendering what `From` read gives back a wire name unchanged, and "theme" for any other string |
| Manifest.CheckPermissions | src/manifest.rs:22-28 | Ok iff every permission is in the five-name whitelist; otherwise the error names the first permission, in list order, outside it |
| Manifest.ValidateManifest | src/manifest.rs:11-31 | empty name, then empty version, then empty entry point are reported in that order, with their messages; then the permission check; Ok iff all three fields are non-empty and every permission is whitelisted |
| Manifest.WhitespaceNameAccepted | src/manifest.rs:12-14 | a name of one blank passes, because the check does not trim |
| Maps.Snapshot | src/registry.rs:28 | the collect loop returns one entry per key, exactly the stored values, in a visiting order `order` that lists every key once |
| Maps.InSnapshot | src/registry.rs:27-28 | a value is in a snapshot that visits every key iff the map stores it under some key |
| Maps.SnapshotValues | src/registry.rs:27-28 | a snapshot that visits every key holds every stored value and nothing else |
| Maps.FilterSelects | src/registry.rs:31-33 | `filter` keeps exactly the elements that satisfy the predicate, each with its multiplicity |
| Registry.ExtensionRegistry.constructor | src/registry.rs:9-13 | the new registry is empty |
| Registry.ExtensionRegistry.Get | src/registry.rs:23-25 | None exactly when the id is not registered, otherwise the stored record |
| Registry.ExtensionRegistry.Register | src/registry.rs:15-17 | upsert: `get(e.id)` is `e` afterwards, every other id is unchanged, and the size grows by one only for a new id |
| Registry.ExtensionRegistry.Unregister | src/registry.rs:19-21 | `get(id)` is None afterwards, every other id is unchanged, an absent id leaves the map as it was, and the size drops by one only for a present id |
| Registry.ExtensionRegistry.Update | src/registry.rs:35-37 | reports whether the id is present, applies the caller's change to that record alone, and changes nothing else |
| Registry.ExtensionRegistry.GetAll | src/registry.rs:27-29 | one entry per key, holding exactly the stored values; precisely, the values in the visiting order `order`, which lists every key once |
| Registry.ExtensionRegistry.GetEnabled | src/registry.rs:31-33 | holds exactly the stored values that are enabled; precisely, the enabled filter of one snapshot |
| Registry.DisabledRecordNotListed | src/registry.rs:15-33 | after re-registering an id with a disabled record, an enabled record with that id is no longer listed as enabled, provided every other key holds a record with its own id (as `register` alone keeps; `get_mut` can break it) |
| Registry.TwoRegisteredOneEnabled | src/registry.rs:15-33 | registering an enabled `a` and a disabled `b` gives a snapshot of two, whose enabled filter is exactly `[a]` |
| Client.CheckDangerous | src/store/client.rs:78-84 | Ok iff no permission is "filesystem" or "native"; otherwise the error names the first such permission in list order |
| Client.ValidateManifestSecurity | src/store/client.rs:70-86 | a name holding ".." or "/" is refused first, then an entry point holding ".."; then the permission check; Ok iff none applies; every error is a security error |
| Client.DownloadManifest | src/store/client.rs:49-54 | a fetched manifest is returned unchanged iff it passes the security check; otherwise the fetch error or the check's error is returned |
| Client.NativeManifestRejected | src/store/client.rs:49-54 | a store manifest asking for "native" is refused with a security error |
| Client.DownloadExtension | src/store/client.rs:56-68 | the bytes come back unchanged iff their lower-case hex MD5 equals the checksum; otherwise "Checksum mismatch", or the fetch error |
| Client.MalformedChecksumRejectsAll | src/store/client.rs:62-65 | a checksum with a character outside `0`-`9`/`a`-`f`, or not twice the digest length, rejects every package |
| Client.ChecksumPinsDigest | src/store/client.rs:62-65 | two packages accepted under one checksum have the same MD5 digest |
| Client.SortToken | src/store/client.rs:30-35 | each sort option maps to one of the four tokens |
| Client.SortTokenInjective | src/store/client.rs:30-35 | distinct sort options send distinct tokens |
| Client.FilterParams | src/store/client.rs:21-29 | the optional parameters are empty or begin with `&` |
| Client.FetchExtensions | src/store/client.rs:18-40 | the step-by-step appends build exactly `QueryUrl`, and the result is the GET of that URL |
| Client.QueryUrlCarriesPage | src/store/client.rs:19 | the query starts with the base URL and the page key, and the digits after the key read back as `page` |
| Client.QueryUrlCarriesLimit | src/store/client.rs:19 | the digits after the limit key read back as `limit` |
| Client.SortParamsSuffixFree | src/store/client.rs:30-35 | no sort parameter is a suffix of another |
| Client.QueryUrlEndsWithSort | src/store/client.rs:30-35 | the query ends with the sort parameter, and it ends with no other option's parameter |
| Client.TagsParamReadBack | src/store/client.rs:24-26 | for a non-empty tag list in which no tag contains a comma, splitting the tags parameter at commas gives back the list |
| Client.TagsNotEncoded | src/store/client.rs:24-29 | tags are sent unencoded: with no type filter, any base URL, page and limit, sort by name, and an `encode` that leaves `y` unchanged (as percent-encoding does), the tag `x&search=y` builds the same query as the tag `x` with search text `y` |
| Client.EmptyTagListIsOneEmptyTag | src/store/client.rs:24-26 | an empty tag list sends `&tags=` and builds the same query as a list holding one empty tag |
| Text.TrimEmptyIffBlank | src/store/manager.rs:72-75 | `trim().is_empty()` holds iff every character is Unicode whitespace |
| Text.SplitJoin | src/store/client.rs:25 | splitting a comma join of a non-empty list of comma-free parts gives back the parts |
| Text.DecReadBack | src/store/client.rs:19 | a decimal numeral followed by a non-digit parses back to its number |
| Text.LowerHexInjective | src/store/client.rs:62 | distinct digests render to distinct hex strings |
| Manager.CheckBlocklist | src/store/manager.rs:100-106 | Ok iff no token occurs in the URL; otherwise the error names the first token, in list order, that occurs |
| Manager.ValidateCustomUrl | src/store/manager.rs:94-109 | the HTTPS prefix is checked before the blocklist; Ok iff the prefix is present and no token occurs; every error is a security error |
| Manager.HttpsWithoutLOrZeroAccepted | src/store/manager.rs:101-106 | an HTTPS URL with no `l` and no `0` passes the blocklist |
| Manager.BlocklistMissesLinkLocal | src/store/manager.rs:101-106 | `https://169.254.169.254/` is accepted |
| Manager.BlocklistMissesIpv6Loopback | src/store/manager.rs:101-106 | `https://[::1]/` is accepted |
| Manager.BlocklistMatchesPaths | src/store/manager.rs:102-105 | `https://example.com/localhost-notes` is refused as "Blocked domain: localhost" |
| Manager.ValidateSource | src/store/manager.rs:71-92 | blank name first; then a blank URL passes iff Official; then an unparsable URL is refused; then a Custom URL goes through the custom check, and every other URL passes |
| Manager.CustomSourceSecurity | src/store/manager.rs:85-88 | for a well-named Custom source with a parsing URL, a security error arises iff the prefix is missing or a token occurs, and no other error arises |
| Manager.InsertByPriority | src/store/manager.rs:63 | inserting adds exactly one occurrence of the element |
| Manager.InsertKeepsBound | src/store/manager.rs:63 | inserting keeps a lower bound on the priority |
| Manager.InsertKeepsSorted | src/store/manager.rs:63 | inserting into a priority-sorted list keeps it sorted |
| Manager.SortByPriority | src/store/manager.rs:63 | the sort gives a list sorted by priority that is a permutation of its input |
| Manager.ListedInPriorityOrder | src/store/manager.rs:61-65 | any sorted permutation of sources at priorities 0, 1 and 5 is in that order |
| Manager.StoreKeepsWellKeyed | src/store/manager.rs:49-53 | storing a source under its id keeps the table invariant unless the reserved source would be retyped |
| Manager.RemoveKeepsWellKeyed | src/store/manager.rs:37-41 | removing any id but the reserved one keeps the table invariant |
| Manager.StoreManager.constructor | src/store/manager.rs:10-25 | the table holds exactly the reserved source: Official, enabled, priority 0, under "default"; the invariant holds |
| Manager.StoreManager.AddSource | src/store/manager.rs:28-35 | a present id is refused first; then the policy decides; the source is stored under its id only on success, and otherwise the table is unchanged; the invariant is kept |
| Manager.StoreManager.RemoveSource | src/store/manager.rs:37-43 | "default" is refused and nothing changes; any other id, present or absent, gives Ok and only that key goes |
| Manager.StoreManager.UpdateSource | src/store/manager.rs:45-55 | an absent id is refused, then retyping "default" away from Official, then the policy; the table changes only on success; the invariant is kept |
| Manager.StoreManager.GetSource | src/store/manager.rs:57-59 | None exactly when the id is absent, otherwise the stored source |
| Manager.StoreManager.ListSources | src/store/manager.rs:61-65 | one entry per key, holding exactly the stored sources, sorted ascending by priority: a permutation of a snapshot |
| Manager.StoreManager.GetEnabledSources | src/store/manager.rs:67-69 | holds exactly the stored sources that are enabled; precisely, the enabled filter of one snapshot, in its order |

## Left out

- HTTP and JSON (`reqwest`, `serde_json`): each fetch is the parameter `get`, which yields the decoded value or an error.
- `fetch_extension_details` (src/store/client.rs:42-47): it is one GET with no checks, so it has nothing beyond `get` to model.
- MD5: the digest is the parameter `md5`. Its lower-case hex rendering (`{:x}`) is modelled concretely.
- Client.DownloadExtension: the model does not claim that a single changed byte flips the verdict. That depends on MD5 having no collisions, which an abstract digest cannot carry. Only the exact-equality gate is proved.
- `url::Url::parse`: the parameter `urlParses`.
- `urlencoding::encode`: the parameter `encode`. It is not given a definition.
- The debug `eprintln!` in `StoreManager::new`: it is output only.
- `parse_manifest` (src/manifest.rs:5-9): a file read followed by serde decoding.
- Serde derives and renames. The derived `Deserialize` for `ExtensionType` does not use the `From<String>` fallback, so the model makes no claim about how unknown type names decode.
- `src/traits.rs` (`ExtensionImpl`, `ExtensionContext`): an async trait and an application handle.
- The `Display`/`From` conversions on the error types that wrap foreign errors. The errors are plain datatypes holding a message.
- The `rating: f32` fields of the store records, because they are floating point.
- The `Extension`, `ExtensionPermission` and `ExtensionSetting` records (src/models.rs:70-101): no modelled operation uses them.
- The `permissions` submodule named in src/store/mod.rs is not part of this model.
- Manager.StoreManager.ListSources: `sort_by_key` sorts a local vector in place. The model sorts a sequence with a pure insertion sort, which is stable as the library sort is. Stability is not stated, because the input order is hash-map order anyway.
- Registry.ExtensionRegistry.Update: `get_mut` lends out a mutable reference. The model takes the caller's edit as a function from the old record to the new one. Since the edit can change `id`, the registry makes no key-equals-id claim.
- Integer widths: `page`, `limit` and `priority` are bounded subset types (`u32`, `i32`). No arithmetic is done on them, so they cannot wrap.
