/**
 * `getName`, the helper that names a project in the resolver's messages and
 * prompts: the quoted project name from the config when the project has an
 * entry there, the bare project id otherwise.
 *
 * As written, the fallback is the id of the project being checked, not the
 * id asked about, so a root without a config entry is named after the
 * dependency under check.  `GetNameAsWritten` keeps that behaviour;
 * `GetName` is the evidently intended helper.
 */
module ProjectNames {
  import opened ResolveTypes

  /** An entry of the config's project list, with the two fields `getName` reads. */
  datatype ProjectConfig = ProjectConfig(projectId: string, projectName: string)

  /** The index of the first config entry for the project, if any. */
  function FindConfig(configs: seq<ProjectConfig>, pid: string): (r: Option<nat>)
    ensures r.Some? ==> r.value < |configs| && configs[r.value].projectId == pid
    ensures r.Some? ==> forall k :: 0 <= k < r.value ==> configs[k].projectId != pid
    ensures r.None? <==> forall k :: 0 <= k < |configs| ==> configs[k].projectId != pid
  {
    if configs == [] then None
    else if configs[0].projectId == pid then Some(0)
    else match FindConfig(configs[1..], pid)
      case None => None
      case Some(i) => Some(i + 1)
  }

  function Quoted(name: string): string
  {
    "'" + name + "'"
  }

  /** The helper as written: `checkedId` is the project the enclosing check is about. */
  function GetNameAsWritten(configs: seq<ProjectConfig>, checkedId: string, pid: string): (n: string)
    ensures FindConfig(configs, pid).None? ==> n == checkedId
    ensures FindConfig(configs, pid).Some? ==> n == GetName(configs, pid)
  {
    match FindConfig(configs, pid)
    case Some(i) => Quoted(configs[i].projectName)
    case None => checkedId
  }

  /** The helper as intended: the project asked about, by config name or else by its own id. */
  function GetName(configs: seq<ProjectConfig>, pid: string): (n: string)
    ensures FindConfig(configs, pid).None? ==> n == pid
    ensures forall i :: 0 <= i < |configs| && configs[i].projectId == pid && FindConfig(configs, pid) == Some(i) ==>
              n == Quoted(configs[i].projectName)
  {
    match FindConfig(configs, pid)
    case Some(i) => Quoted(configs[i].projectName)
    case None => pid
  }

  /**
   * As written, a root without a config entry is named after the project
   * under check: "X uses X@v" instead of "R uses X@v".
   */
  lemma AsWrittenNamesTheCheckedProject(configs: seq<ProjectConfig>, rootId: string, checkedId: string)
    requires forall k :: 0 <= k < |configs| ==> configs[k].projectId != rootId && configs[k].projectId != checkedId
    ensures GetNameAsWritten(configs, checkedId, rootId) == GetNameAsWritten(configs, checkedId, checkedId) == checkedId
  {
  }

  /** A concrete instance: no config entries, root "r", dependency "d". */
  lemma AsWrittenCounterexample()
    ensures GetNameAsWritten([], "d", "r") == "d" && GetName([], "r") == "r" && "d" != "r"
  {
    assert "d"[0] != "r"[0];
  }

  /** Intended: two different projects without config entries never get the same name. */
  lemma GetNameDistinguishesUnconfigured(configs: seq<ProjectConfig>, a: string, b: string)
    requires FindConfig(configs, a).None? && FindConfig(configs, b).None? && a != b
    ensures GetName(configs, a) != GetName(configs, b)
  {
  }

  /** Intended and as written agree exactly on the project under check itself, and on configured projects. */
  lemma AsWrittenAgreesOnConfigured(configs: seq<ProjectConfig>, checkedId: string, pid: string)
    ensures FindConfig(configs, pid).Some? || pid == checkedId ==> GetNameAsWritten(configs, checkedId, pid) == GetName(configs, pid)
    ensures FindConfig(configs, pid).None? && pid != checkedId ==> GetNameAsWritten(configs, checkedId, pid) != GetName(configs, pid)
  {
  }
}
