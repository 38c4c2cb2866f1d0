/**
 * The project store of the web front end
 * (frontend/app/mstore/projectsStore.ts): the list of sites, the selected
 * site and the two browser-storage entries it keeps up to date.  The service
 * responses come in as parameters and `localStorage` is a map field of the
 * store; MobX and the promises around the actions are not modelled.
 */
module ProjectsStore {
  import opened Wrappers

  /** The fields of a project in a service response that the store uses. */
  datatype ProjectData = ProjectData(projectId: string, recorded: bool)

  /** A site of the list; the store changes its recording flag in place. */
  class Project {
    const id: string
    var recorded: bool

    /** `new Project(data)`, taken to keep the response's id and recording flag. */
    constructor (data: ProjectData)
      ensures id == data.projectId && recorded == data.recorded
    {
      id := data.projectId;
      recorded := data.recorded;
    }
  }

  /** `list.findIndex(site => site.id === id)`. */
  function FindIndex(list: seq<Project>, id: string): (i: int)
    ensures -1 <= i < |list|
    ensures 0 <= i ==> list[i].id == id && forall k :: 0 <= k < i ==> list[k].id != id
    ensures i == -1 <==> forall k :: 0 <= k < |list| ==> list[k].id != id
  {
    if |list| == 0 then -1
    else if list[0].id == id then 0
    else
      var i := FindIndex(list[1..], id);
      if i == -1 then -1 else i + 1
  }

  /** `list.find(site => site.id === id) ?? null`. */
  function Find(list: seq<Project>, id: string): (site: Project?)
    ensures site == null <==> FindIndex(list, id) == -1
    ensures site != null ==> site == list[FindIndex(list, id)]
  {
    var i := FindIndex(list, id);
    if i == -1 then null else list[i]
  }

  /** `list.some(site => site.recorded)`. */
  predicate AnyRecorded(list: seq<Project>)
    reads list
  {
    exists k :: 0 <= k < |list| && list[k].recorded
  }

  /** The ids of the projects of a response, in order. */
  function ProjectIds(data: seq<ProjectData>): (ids: seq<string>)
    ensures |ids| == |data|
    ensures forall k :: 0 <= k < |data| ==> ids[k] == data[k].projectId
  {
    if |data| == 0 then [] else [data[0].projectId] + ProjectIds(data[1..])
  }

  /**
   * The site that `fetchList` selects (lines 82-92), given the path's site
   * id, the stored one and the response: `None` where reading the first
   * project of an empty response throws.
   */
  function SelectSite(fromPath: string, stored: Option<string>, data: seq<ProjectData>): Option<Option<string>> {
    var ids := ProjectIds(data);
    var siteExists := stored.Some? && stored.value != "" && stored.value in ids;
    if fromPath != "" && fromPath in ids then Some(Some(fromPath))
    else if stored.None? || stored.value == "" || !siteExists then
      if stored.Some? && stored.value in ids then Some(stored)
      else if |data| == 0 then None
      else Some(Some(data[0].projectId))
    else Some(stored)
  }

  /**
   * A path id of a listed site wins; otherwise a stored id of a listed site
   * is kept; otherwise the first project of the response is selected, and an
   * empty response throws.
   */
  lemma SelectSiteRule(fromPath: string, stored: Option<string>, data: seq<ProjectData>)
    ensures var ids := ProjectIds(data);
            var pathWins := fromPath != "" && fromPath in ids;
            && (pathWins ==> SelectSite(fromPath, stored, data) == Some(Some(fromPath)))
            && (!pathWins && stored.Some? && stored.value in ids ==> SelectSite(fromPath, stored, data) == Some(stored))
            && (!pathWins && (stored.None? || stored.value !in ids) ==>
                  SelectSite(fromPath, stored, data) == if |data| == 0 then None else Some(Some(data[0].projectId)))
  {
  }

  /** `list` with `site` in place of the first site with the same id, or with `site` appended. */
  function Upsert(list: seq<Project>, site: Project): seq<Project> {
    var i := FindIndex(list, site.id);
    if i == -1 then list + [site] else list[i := site]
  }

  /**
   * Saving replaces the first site with the same id, or appends when there
   * is none: the list keeps its length or grows by one, the new site is the
   * first with its id, and every other position keeps its site.
   */
  lemma UpsertReplacesOrAppends(list: seq<Project>, site: Project)
    ensures var r := Upsert(list, site);
            && (|r| == |list| <==> exists k :: 0 <= k < |list| && list[k].id == site.id)
            && (|r| == |list| || |r| == |list| + 1)
            && FindIndex(r, site.id) != -1 && r[FindIndex(r, site.id)] == site
            && forall k :: 0 <= k < |list| && k != FindIndex(list, site.id) ==> r[k] == list[k]
  {
    var r := Upsert(list, site);
    var i := FindIndex(list, site.id);
    if i == -1 {
      assert r[|list|] == site;
    } else {
      assert r[i] == site;
    }
  }

  /** `data.map((data) => new Project(data))`: one new site per project of the response, in order. */
  method NewProjects(data: seq<ProjectData>) returns (projects: seq<Project>)
    ensures |projects| == |data|
    ensures forall k :: 0 <= k < |data| ==>
              fresh(projects[k]) && projects[k].id == data[k].projectId && projects[k].recorded == data[k].recorded
    ensures forall a, b :: 0 <= a < b < |projects| ==> projects[a] != projects[b]
  {
    projects := [];
    for i := 0 to |data|
      invariant |projects| == i
      invariant forall k :: 0 <= k < i ==>
                  fresh(projects[k]) && projects[k].id == data[k].projectId && projects[k].recorded == data[k].recorded
      invariant forall a, b :: 0 <= a < b < i ==> projects[a] != projects[b]
    {
      var site := new Project(data[i]);
      projects := projects + [site];
    }
  }

  class ProjectsStore {
    var list: seq<Project>
    var siteId: Option<string>
    var active: Project?
    var sitesLoading: bool
    /** The browser's `localStorage`. */
    var storage: map<string, string>
    /** `SITE_ID_STORAGE_KEY`. */
    const siteIdKey: string
    /** `GLOBAL_HAS_NO_RECORDINGS`. */
    const noRecordingsKey: string

    /** The two storage keys differ, and no site object is listed twice. */
    predicate Valid()
      reads this
    {
      && siteIdKey != noRecordingsKey
      && forall a, b :: 0 <= a < b < |list| ==> list[a] != list[b]
    }

    /** The no-recordings flag is `'true'` when no listed site is recorded, and absent otherwise. */
    predicate NoRecordingsFlagAgrees()
      reads this, list
    {
      if AnyRecorded(list) then noRecordingsKey !in storage
      else noRecordingsKey in storage && storage[noRecordingsKey] == "true"
    }

    /** The storage after the flag is brought in line with `list`. */
    function FlaggedStorage(): map<string, string>
      reads this, list
    {
      if AnyRecorded(list) then storage - {noRecordingsKey} else storage[noRecordingsKey := "true"]
    }

    /** The constructor: the selected site is the one stored, if any. */
    constructor (storage: map<string, string>, siteIdKey: string, noRecordingsKey: string)
      requires siteIdKey != noRecordingsKey
      ensures Valid()
      ensures this.storage == storage && this.siteIdKey == siteIdKey && this.noRecordingsKey == noRecordingsKey
      ensures siteId == (if siteIdKey in storage then Some(storage[siteIdKey]) else None)
      ensures list == [] && active == null && !sitesLoading
    {
      this.storage := storage;
      this.siteIdKey := siteIdKey;
      this.noRecordingsKey := noRecordingsKey;
      list := [];
      active := null;
      sitesLoading := false;
      siteId := if siteIdKey in storage then Some(storage[siteIdKey]) else None;
    }

    /** `setSiteId(id)`: select the site, remember it, and make the first listed site with that id active. */
    method SetSiteId(id: string)
      requires Valid()
      modifies this
      ensures Valid()
      ensures siteId == Some(id) && storage == old(storage)[siteIdKey := id]
      ensures active == Find(list, id)
      ensures list == old(list) && sitesLoading == old(sitesLoading)
      ensures old(NoRecordingsFlagAgrees()) ==> NoRecordingsFlagAgrees()
    {
      siteId := Some(id);
      storage := storage[siteIdKey := id];
      active := Find(list, id);
    }

    /** The flag step shared by `fetchList` and `updateProjectRecordingStatus`: set or remove the no-recordings flag. */
    method UpdateNoRecordingsFlag()
      requires Valid()
      modifies this
      ensures Valid() && NoRecordingsFlagAgrees()
      ensures storage == old(FlaggedStorage())
      ensures list == old(list) && siteId == old(siteId) && active == old(active) && sitesLoading == old(sitesLoading)
    {
      var hasRecordings := AnyRecorded(list);
      if !hasRecordings {
        storage := storage[noRecordingsKey := "true"];
      } else {
        storage := storage - {noRecordingsKey};
      }
    }

    /**
     * `fetchList(siteIdFromPath)`, given the projects of the response: the
     * list is rebuilt, the flag follows it and the site that `SelectSite`
     * chooses is selected when it is not empty.  `thrown` is set where reading the first project of
     * an empty response throws; the list is then already replaced and
     * nothing else has changed.  Loading is over in both cases.
     */
    method FetchList(siteIdFromPath: string, data: seq<ProjectData>) returns (thrown: bool)
      requires Valid()
      modifies this
      ensures Valid() && !sitesLoading
      ensures |list| == |data|
      ensures forall k :: 0 <= k < |data| ==>
                fresh(list[k]) && list[k].id == data[k].projectId && list[k].recorded == data[k].recorded
      ensures thrown <==> SelectSite(siteIdFromPath, old(siteId), data).None?
      ensures thrown ==> siteId == old(siteId) && active == old(active) && storage == old(storage)
      ensures !thrown ==> NoRecordingsFlagAgrees()
      ensures !thrown ==>
                var chosen := SelectSite(siteIdFromPath, old(siteId), data).value;
                var flagged := if AnyRecorded(list) then old(storage) - {noRecordingsKey}
                               else old(storage)[noRecordingsKey := "true"];
                if chosen.Some? && chosen.value != "" then
                  siteId == chosen && active == Find(list, chosen.value) && storage == flagged[siteIdKey := chosen.value]
                else
                  siteId == old(siteId) && active == old(active) && storage == flagged
    {
      sitesLoading := true;
      list := NewProjects(data);
      var choice := SelectSite(siteIdFromPath, siteId, data);
      if choice.None? {
        sitesLoading := false;
        return true;
      }
      UpdateNoRecordingsFlag();
      var chosen := choice.value;
      if chosen.Some? && chosen.value != "" {
        SetSiteId(chosen.value);
      }
      sitesLoading := false;
      return false;
    }

    /**
     * `save(projectData)`, given the saved project of the response: the new
     * site takes the place of the first site with its id, or is appended,
     * and becomes the selected and active site.
     */
    method Save(data: ProjectData)
      requires Valid()
      modifies this
      ensures Valid()
      ensures active != null && fresh(active) && active.id == data.projectId && active.recorded == data.recorded
      ensures list == Upsert(old(list), active)
      ensures siteId == Some(data.projectId) && storage == old(storage)[siteIdKey := data.projectId]
      ensures sitesLoading == old(sitesLoading)
    {
      var newSite := new Project(data);
      var index := FindIndex(list, newSite.id);
      if index != -1 {
        list := list[index := newSite];
      } else {
        list := list + [newSite];
      }
      SetSiteId(newSite.id);
      active := newSite;
    }

    /**
     * `updateProjectRecordingStatus(id, status)`: the first listed site with
     * that id takes the new status and the flag follows the list; without
     * such a site nothing changes.
     */
    method UpdateProjectRecordingStatus(id: string, status: bool)
      requires Valid()
      modifies this, list
      ensures Valid()
      ensures list == old(list) && siteId == old(siteId) && active == old(active) && sitesLoading == old(sitesLoading)
      ensures FindIndex(list, id) == -1 ==>
                storage == old(storage) && forall k :: 0 <= k < |list| ==> list[k].recorded == old(list[k].recorded)
      ensures FindIndex(list, id) != -1 ==>
                && list[FindIndex(list, id)].recorded == status
                && (forall k :: 0 <= k < |list| && k != FindIndex(list, id) ==> list[k].recorded == old(list[k].recorded))
                && NoRecordingsFlagAgrees()
                && storage == if AnyRecorded(list) then old(storage) - {noRecordingsKey}
                              else old(storage)[noRecordingsKey := "true"]
    {
      var site := Find(list, id);
      if site != null {
        site.recorded := status;
        UpdateNoRecordingsFlag();
      }
    }
  }
}
