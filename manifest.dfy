/** `validate_manifest`: the general structural check of a manifest, first violated rule wins. */
module Manifest {
  import opened Wrappers
  import opened Models
  import opened Errors

  /** The permission whitelist, in the order the source lists it. */
  const ValidPermissions: seq<string> := ["filesystem", "network", "database", "ui", "native"]

  /** The permission loop: reports the first permission, in list order, outside the whitelist. */
  function CheckPermissions(perms: seq<string>): (r: Result<(), ExtensionError>)
    ensures r.Ok? <==> forall i :: 0 <= i < |perms| ==> perms[i] in ValidPermissions
    ensures r.Err? ==> exists i :: 0 <= i < |perms| && perms[i] !in ValidPermissions
                                  && (forall j :: 0 <= j < i ==> perms[j] in ValidPermissions)
                                  && r.error == Validation("Invalid permission: " + perms[i])
  {
    if perms == [] then Ok(())
    else if perms[0] !in ValidPermissions then Err(Validation("Invalid permission: " + perms[0]))
    else
      var r := CheckPermissions(perms[1..]);
      assert r.Err? ==> exists i :: 1 <= i < |perms| && perms[i] !in ValidPermissions
                                  && (forall j :: 1 <= j < i ==> perms[j] in ValidPermissions)
                                  && r.error == Validation("Invalid permission: " + perms[i]) by {
        if r.Err? {
          var i :| 0 <= i < |perms| - 1 && perms[1..][i] !in ValidPermissions
                   && (forall j :: 0 <= j < i ==> perms[1..][j] in ValidPermissions)
                   && r.error == Validation("Invalid permission: " + perms[1..][i]);
          assert perms[i + 1] == perms[1..][i];
          forall j | 1 <= j < i + 1 ensures perms[j] in ValidPermissions {
            assert perms[j] == perms[1..][j - 1];
          }
        }
      }
      r
  }

  /**
   * `validate_manifest`. Name, version and entry point are checked for emptiness
   * as raw strings (no trimming), in that order, before any permission.
   */
  function ValidateManifest(m: ExtensionManifest): (r: Result<(), ExtensionError>)
    ensures m.name == "" ==> r == Err(Validation("Name is required"))
    ensures m.name != "" && m.version == "" ==> r == Err(Validation("Version is required"))
    ensures m.name != "" && m.version != "" && m.entryPoint == "" ==> r == Err(Validation("Entry point is required"))
    ensures m.name != "" && m.version != "" && m.entryPoint != "" ==> r == CheckPermissions(m.permissions)
    ensures r.Ok? <==> (&& m.name != "" && m.version != "" && m.entryPoint != ""
                        && forall i :: 0 <= i < |m.permissions| ==> m.permissions[i] in ValidPermissions)
  {
    if m.name == "" then Err(Validation("Name is required"))
    else if m.version == "" then Err(Validation("Version is required"))
    else if m.entryPoint == "" then Err(Validation("Entry point is required"))
    else CheckPermissions(m.permissions)
  }

  /** A name of blanks only is not empty: the check does not trim. */
  lemma WhitespaceNameAccepted(m: ExtensionManifest)
    requires m.name == " " && m.version != "" && m.entryPoint != "" && m.permissions == []
    ensures ValidateManifest(m).Ok?
  {
  }
}
