/**
 * The project registry behind getOrCreateProjectForDitaMap: a list of projects, each
 * recording the DITA map it translates, searched by normalised map path and extended
 * with a new project when no entry matches.  The path normaliser (File.getCanonicalPath,
 * falling back to getAbsolutePath) is a parameter, and so are the clock and the file
 * system facts the helper looks at.
 */
module Projects {
  import opened Wrappers

  /** The source language every test project gets. */
  const DefaultSrcLanguage: string := "en-US"

  const MapExtension: string := ".ditamap"

  /** A Fluenta project as createNewProjectForMap builds it; dates are clock readings. */
  datatype Project = Project(
    id: int,
    title: string,
    description: string,
    ditaMap: string,
    creationDate: int,
    lastUpdate: int,
    srcLanguage: string,
    tgtLanguages: seq<string>,
    memories: seq<int>,
    languageStatus: map<string, string>)

  /** The IOException thrown for a map file that does not exist. */
  datatype ProjectError = MapFileMissing

  predicate EndsWith(s: string, suffix: string)
  {
    |suffix| <= |s| && s[|s| - |suffix|..] == suffix
  }

  /** The project title: the map's file name without a trailing ".ditamap". */
  function MapTitle(fileName: string): (title: string)
    ensures EndsWith(fileName, MapExtension) ==> title + MapExtension == fileName
    ensures !EndsWith(fileName, MapExtension) ==> title == fileName
  {
    if EndsWith(fileName, MapExtension) then fileName[..|fileName| - |MapExtension|] else fileName
  }

  lemma MapTitleExamples()
    ensures MapTitle("sample.ditamap") == "sample"
    ensures MapTitle("sample.xml") == "sample.xml"
    ensures MapTitle(".ditamap") == ""
  {
    assert EndsWith("sample.ditamap", MapExtension);
    assert !EndsWith("sample.xml", MapExtension) by {
      assert "sample.xml"[10 - 8..] != MapExtension by {
        assert "sample.xml"[10 - 8..][0] == 'm';
      }
    }
  }

  /** createNewProjectForMap. */
  function CreateNewProjectForMap(id: int, fileName: string, mapPath: string, targetLanguages: seq<string>, date: int): Project
  {
    Project(id, MapTitle(fileName), "Test project for " + mapPath, mapPath, date, date,
      DefaultSrcLanguage, targetLanguages, [], map[])
  }

  /** The registry the controller keeps; `Add` is ProjectsManager.add. */
  class ProjectsManager {
    var projects: seq<Project>

    constructor (projects: seq<Project>)
      ensures this.projects == projects
    {
      this.projects := projects;
    }

    method Add(project: Project)
      modifies this
      ensures projects == old(projects) + [project]
    {
      projects := projects + [project];
    }
  }

  /** The index of the first project, from index `i` on, whose normalised map path is `key`. */
  function FindByMap(projects: seq<Project>, normalize: string -> string, key: string, i: nat): (r: Option<nat>)
    requires i <= |projects|
    ensures r.Some? ==> (i <= r.value < |projects| && normalize(projects[r.value].ditaMap) == key &&
      forall j :: i <= j < r.value ==> normalize(projects[j].ditaMap) != key)
    ensures r.None? ==> forall j :: i <= j < |projects| ==> normalize(projects[j].ditaMap) != key
    decreases |projects| - i
  {
    if i == |projects| then None
    else if normalize(projects[i].ditaMap) == key then Some(i)
    else FindByMap(projects, normalize, key, i + 1)
  }

  /** getOrCreateProjectForDitaMap as a function of the registry: the result and the new
      project list. */
  function GetOrCreate(projects: seq<Project>, normalize: string -> string, id: int, mapExists: bool,
                       mapPath: string, fileName: string, targetLanguages: seq<string>, now: int): (Result<Project, ProjectError>, seq<Project>)
  {
    if !mapExists then (Err(MapFileMissing), projects)
    else match FindByMap(projects, normalize, normalize(mapPath), 0)
      case Some(i) => (Ok(projects[i]), projects)
      case None =>
        var newProject := CreateNewProjectForMap(id, fileName, mapPath, targetLanguages, now);
        (Ok(newProject), projects + [newProject])
  }

  /** getOrCreateProjectForDitaMap: `mapPath` is the map's absolute path and `fileName`
      its last path segment. */
  method GetOrCreateProjectForDitaMap(manager: ProjectsManager, normalize: string -> string, id: int, mapExists: bool,
                                      mapPath: string, fileName: string, targetLanguages: seq<string>, now: int)
    returns (r: Result<Project, ProjectError>)
    modifies manager
    ensures (r, manager.projects) == GetOrCreate(old(manager.projects), normalize, id, mapExists, mapPath, fileName, targetLanguages, now)
  {
    if !mapExists {
      return Err(MapFileMissing);
    }
    var projects := manager.projects;
    var normalizedMapPath := normalize(mapPath);
    for i := 0 to |projects|
      invariant FindByMap(projects, normalize, normalizedMapPath, i) == FindByMap(projects, normalize, normalizedMapPath, 0)
    {
      if normalize(projects[i].ditaMap) == normalizedMapPath {
        return Ok(projects[i]);
      }
    }
    var newProject := CreateNewProjectForMap(id, fileName, mapPath, targetLanguages, now);
    manager.Add(newProject);
    return Ok(newProject);
  }

  /** A missing map file is the only failure, and it leaves the registry alone. */
  lemma GetOrCreateFails(projects: seq<Project>, normalize: string -> string, id: int, mapExists: bool,
                         mapPath: string, fileName: string, targetLanguages: seq<string>, now: int)
    ensures var (r, ps) := GetOrCreate(projects, normalize, id, mapExists, mapPath, fileName, targetLanguages, now);
      (r.Err? <==> !mapExists) && (r.Err? ==> ps == projects)
  {
  }

  /** A registered project for the same normalised map path is returned whatever id is
      asked for, and the registry is left alone. */
  lemma GetOrCreateFinds(projects: seq<Project>, normalize: string -> string, id: int,
                         mapPath: string, fileName: string, targetLanguages: seq<string>, now: int, k: nat)
    requires k < |projects| && normalize(projects[k].ditaMap) == normalize(mapPath)
    ensures var (r, ps) := GetOrCreate(projects, normalize, id, true, mapPath, fileName, targetLanguages, now);
      ps == projects && r.Ok? &&
      exists i :: 0 <= i <= k && r.value == projects[i] && normalize(projects[i].ditaMap) == normalize(mapPath) &&
        forall j :: 0 <= j < i ==> normalize(projects[j].ditaMap) != normalize(mapPath)
  {
    var i := FindByMap(projects, normalize, normalize(mapPath), 0).value;
    assert projects[i] == GetOrCreate(projects, normalize, id, true, mapPath, fileName, targetLanguages, now).0.value;
  }

  /** With no project for the map, exactly one is added: it has the given id, the map's
      absolute path, the file name without ".ditamap" as title, en-US as source, both
      dates set to the clock reading and no memories or language status yet. */
  lemma GetOrCreateAdds(projects: seq<Project>, normalize: string -> string, id: int,
                        mapPath: string, fileName: string, targetLanguages: seq<string>, now: int)
    requires forall j :: 0 <= j < |projects| ==> normalize(projects[j].ditaMap) != normalize(mapPath)
    ensures var (r, ps) := GetOrCreate(projects, normalize, id, true, mapPath, fileName, targetLanguages, now);
      r.Ok? && ps == projects + [r.value] &&
      r.value.id == id && r.value.ditaMap == mapPath && r.value.title == MapTitle(fileName) &&
      r.value.srcLanguage == "en-US" && r.value.tgtLanguages == targetLanguages &&
      r.value.description == "Test project for " + mapPath &&
      r.value.creationDate == now && r.value.lastUpdate == now &&
      r.value.memories == [] && r.value.languageStatus == map[]
  {
  }

  /** A second call for the same map (same normalised path, any id) returns the project
      the first call returned, and adds nothing. */
  lemma {:induction false} SecondCallSameProject(projects: seq<Project>, normalize: string -> string, id1: int, id2: int,
                                                 mapPath: string, mapPath2: string, fileName: string, fileName2: string,
                                                 targetLanguages: seq<string>, targetLanguages2: seq<string>, now: int, later: int)
    requires normalize(mapPath2) == normalize(mapPath)
    ensures var (r1, ps1) := GetOrCreate(projects, normalize, id1, true, mapPath, fileName, targetLanguages, now);
      GetOrCreate(ps1, normalize, id2, true, mapPath2, fileName2, targetLanguages2, later) == (r1, ps1)
  {
    var key := normalize(mapPath);
    var (r1, ps1) := GetOrCreate(projects, normalize, id1, true, mapPath, fileName, targetLanguages, now);
    match FindByMap(projects, normalize, key, 0)
    case Some(i) =>
    case None =>
      FindByMapAppended(projects, normalize, key, r1.value);
  }

  /** After appending a project with map path `key` to a list without one, the search
      finds the appended project. */
  lemma {:induction false} FindByMapAppended(projects: seq<Project>, normalize: string -> string, key: string, p: Project)
    requires FindByMap(projects, normalize, key, 0).None?
    requires normalize(p.ditaMap) == key
    ensures FindByMap(projects + [p], normalize, key, 0) == Some(|projects|)
  {
    var ps := projects + [p];
    assert ps[|projects|] == p;
    assert forall j :: 0 <= j < |projects| ==> ps[j] == projects[j];
  }

  /** No two projects share a normalised map path. */
  predicate UniqueMaps(projects: seq<Project>, normalize: string -> string)
  {
    forall i, j :: 0 <= i < j < |projects| ==> normalize(projects[i].ditaMap) != normalize(projects[j].ditaMap)
  }

  /** Find-or-create keeps the registry free of two projects for one map. */
  lemma GetOrCreateKeepsUnique(projects: seq<Project>, normalize: string -> string, id: int, mapExists: bool,
                               mapPath: string, fileName: string, targetLanguages: seq<string>, now: int)
    requires UniqueMaps(projects, normalize)
    ensures UniqueMaps(GetOrCreate(projects, normalize, id, mapExists, mapPath, fileName, targetLanguages, now).1, normalize)
  {
    var ps := GetOrCreate(projects, normalize, id, mapExists, mapPath, fileName, targetLanguages, now).1;
    if mapExists && FindByMap(projects, normalize, normalize(mapPath), 0).None? {
      forall i, j | 0 <= i < j < |ps| ensures normalize(ps[i].ditaMap) != normalize(ps[j].ditaMap) {
        if j == |projects| {
          assert ps[i] == projects[i] && ps[j].ditaMap == mapPath;
        } else {
          assert ps[i] == projects[i] && ps[j] == projects[j];
        }
      }
    }
  }
}
