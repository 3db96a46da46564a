/** The store's data model: catalog sources, catalog entries, query filters and sort options. */
module StoreModels {
  import opened Wrappers
  import opened Models

  type i32 = x: int | -0x8000_0000 <= x < 0x8000_0000
  type u32 = x: int | 0 <= x < 0x1_0000_0000

  datatype StoreSourceType = Official | Community | Custom

  datatype StoreSource = StoreSource(
    id: string,
    name: string,
    sourceType: StoreSourceType,
    baseUrl: string,
    enabled: bool,
    priority: i32)

  /** A catalog entry. The `rating` field (an `f32`) is not part of this model. */
  datatype StoreExtension = StoreExtension(
    id: string,
    name: string,
    version: string,
    author: string,
    description: string,
    extensionType: ExtensionType,
    downloadCount: u32,
    tags: seq<string>)

  /** A catalog entry's detail page; `rating` is again left out. */
  datatype StoreExtensionDetails = StoreExtensionDetails(
    id: string,
    name: string,
    version: string,
    author: string,
    description: string,
    extensionType: ExtensionType,
    downloadCount: u32,
    tags: seq<string>,
    manifestUrl: string,
    packageUrl: string,
    checksum: string,
    readme: string,
    screenshots: seq<string>,
    dependencies: map<string, string>)

  datatype StoreFilters = StoreFilters(
    extensionType: Option<ExtensionType>,
    tags: Option<seq<string>>,
    search: Option<string>)

  datatype SortOption = Name | DownloadCount | Rating | Newest
}
