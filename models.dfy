/** The extension data model: the extension kind and its textual names, the manifest, the registry record. */
module Models {
  import opened Wrappers

  datatype ExtensionType = Theme | DataSource | GameLibrary

  /**
   * `From<String> for ExtensionType`: the three wire names map to their kind and
   * every other string falls back to `Theme`.
   */
  function TypeFromString(s: string): (t: ExtensionType)
    ensures t == DataSource <==> s == "data_source"
    ensures t == GameLibrary <==> s == "game_library"
    ensures t == Theme <==> s != "data_source" && s != "game_library"
  {
    match s
    case "theme" => Theme
    case "data_source" => DataSource
    case "game_library" => GameLibrary
    case _ => Theme
  }

  /** `Display for ExtensionType`: reading the rendered name back gives the same kind. */
  function TypeToString(t: ExtensionType): (s: string)
    ensures TypeFromString(s) == t
    ensures s in {"theme", "data_source", "game_library"}
  {
    match t
    case Theme => "theme"
    case DataSource => "data_source"
    case GameLibrary => "game_library"
  }

  /** Distinct kinds render to distinct names. */
  lemma TypeToStringInjective(a: ExtensionType, b: ExtensionType)
    ensures TypeToString(a) == TypeToString(b) ==> a == b
  {
    assert TypeFromString(TypeToString(a)) == a;
  }

  /** Rendering what was read gives back a wire name unchanged and "theme" for anything else. */
  lemma TypeStringRoundTrip(s: string)
    ensures TypeToString(TypeFromString(s)) == if s in {"theme", "data_source", "game_library"} then s else "theme"
  {
  }

  datatype MenuSubItem = MenuSubItem(title: string, url: string)

  datatype MenuItem = MenuItem(title: string, url: string, icon: Option<string>, items: Option<seq<MenuSubItem>>)

  datatype ExtensionApis = ExtensionApis(provided: Option<seq<string>>, required: Option<seq<string>>)

  datatype ExtensionManifest = ExtensionManifest(
    name: string,
    version: string,
    author: Option<string>,
    description: Option<string>,
    extensionType: ExtensionType,
    entryPoint: string,
    permissions: seq<string>,
    dependencies: Option<map<string, string>>,
    hooks: Option<seq<string>>,
    apis: Option<ExtensionApis>,
    menuItems: Option<seq<MenuItem>>)

  /** The registry's record of an installed extension; `extensionType` is kept as text. */
  datatype ExtensionInfo = ExtensionInfo(
    id: string,
    name: string,
    version: string,
    author: Option<string>,
    description: Option<string>,
    extensionType: string,
    enabled: bool)
}
