/** The top-level component of App.tsx: the state it keeps (catalog, loading
    flag, sync error, the `modelId` of the address, the stored configuration),
    the sync that fills it, the handlers that read and edit the address, and
    the choice of the one screen that is rendered. */
module App {
  import opened Types
  import opened FormUrlEncoded
  import opened SearchParams
  import opened Catalog
  import Seqs

  /** The models with the given id. */
  function IdIs(id: string): ModelData -> bool {
    (m: ModelData) => m.id == id
  }

  /** The position of the first model with the given id, or -1. */
  function FindIndex(models: seq<ModelData>, id: string): (k: int)
    ensures -1 <= k < |models|
    ensures k >= 0 ==> models[k].id == id
    ensures forall j | 0 <= j < |models| && (k < 0 || j < k) :: models[j].id != id
  {
    Seqs.FirstWhere(models, IdIs(id))
  }

  /** `models.find(m => m.id === id)`. */
  function FindById(models: seq<ModelData>, id: string): Option<ModelData> {
    var k := FindIndex(models, id);
    if k < 0 then None else Some(models[k])
  }

  /** Some model of the catalog has this id. */
  predicate HasId(models: seq<ModelData>, id: string) {
    exists i | 0 <= i < |models| :: models[i].id == id
  }

  /** No two models of the catalog share an id. */
  predicate UniqueIds(models: seq<ModelData>) {
    forall i, j | 0 <= i < j < |models| :: models[i].id != models[j].id
  }

  /** In a catalog with distinct ids, looking a model's id up finds that model. */
  lemma FindByUniqueId(models: seq<ModelData>, m: ModelData)
    requires UniqueIds(models) && m in models
    ensures FindById(models, m.id) == Some(m)
  {
    var i :| 0 <= i < |models| && models[i] == m;
    var k := FindIndex(models, m.id);
    assert k == i;
  }

  /** What the main page shows beside the uploader. */
  datatype MainContent = Spinner | LoadError(message: string) | NeedsSetup | Gallery(models: seq<ModelData>)

  /** The screen that is rendered. */
  datatype Screen = Viewer(model: ModelData) | NotFound(id: string) | MainPage(content: MainContent)

  /** The render section: from the state to the one screen shown. */
  function SelectView(currentModelId: Option<string>, models: seq<ModelData>, isLoading: bool,
                      apiError: Option<string>, config: Option<GitHubConfig>): (s: Screen)
    // the viewer shows exactly when a non-empty id names a model of the catalog, and shows that model
    ensures s.Viewer? <==> Truthy(currentModelId) && HasId(models, currentModelId.value)
    ensures s.Viewer? ==> s.model in models && s.model.id == currentModelId.value
    // as `find` does, the viewer shows the first model with that id
    ensures s.Viewer? ==> exists k | 0 <= k < |models| :: models[k] == s.model &&
                            forall j | 0 <= j < k :: models[j].id != s.model.id
    // not-found only once loading is over
    ensures s.NotFound? <==> Truthy(currentModelId) && !HasId(models, currentModelId.value) && !isLoading
    ensures s.NotFound? ==> s.id == currentModelId.value
    // the main page: loading first, then the error, then the missing configuration, then the gallery
    ensures s.MainPage? <==> !Truthy(currentModelId) || (!HasId(models, currentModelId.value) && isLoading)
    ensures s.MainPage? ==> (s.content.Spinner? <==> isLoading)
    ensures s.MainPage? && !isLoading ==> (s.content.LoadError? <==> Truthy(apiError))
    ensures s.MainPage? && s.content.LoadError? ==> s.content.message == apiError.value
    ensures s.MainPage? && !isLoading && !Truthy(apiError) ==> (s.content.NeedsSetup? <==> config.None?)
    ensures s.MainPage? && s.content.Gallery? ==> s.content.models == models
  {
    var modelToShow := if Truthy(currentModelId) then FindById(models, currentModelId.value) else None;
    if modelToShow.Some? then Viewer(modelToShow.value)
    else if Truthy(currentModelId) && !isLoading then NotFound(currentModelId.value)
    else MainPage(
      if isLoading then Spinner
      else if Truthy(apiError) then LoadError(apiError.value)
      else if config.None? then NeedsSetup
      else Gallery(models))
  }

  /** An empty `modelId=` behaves like no `modelId` at all. */
  lemma EmptyIdIsNoId(models: seq<ModelData>, isLoading: bool, apiError: Option<string>, config: Option<GitHubConfig>)
    ensures SelectView(Some(""), models, isLoading, apiError, config) == SelectView(None, models, isLoading, apiError, config)
  {
  }

  /** The sync runs only for a configuration naming an owner and a repository. */
  predicate Syncable(config: Option<GitHubConfig>) {
    config.Some? && config.value.owner != "" && config.value.repo != ""
  }

  /** The state of the App component (the authentication gate passed). */
  class AppState {
    var models: seq<ModelData>
    var isLoading: bool
    var apiError: Option<string>
    var currentModelId: Option<string>
    var githubConfig: Option<GitHubConfig>
    /** `window.location`, as the current history entry sets it. */
    var location: Location

    /** The initial state, with the configuration read from storage. */
    constructor (storedConfig: Option<GitHubConfig>, location: Location)
      ensures models == [] && isLoading && apiError == None && currentModelId == None
      ensures githubConfig == storedConfig && this.location == location
    {
      models := [];
      isLoading := true;
      apiError := None;
      currentModelId := None;
      githubConfig := storedConfig;
      this.location := location;
    }

    /** The screen rendered for the current state. */
    function View(): Screen
      reads this
    {
      SelectView(currentModelId, models, isLoading, apiError, githubConfig)
    }

    /** The start of `fetchModelsFromRepo(config)`: without an owner and a
        repository loading just ends; otherwise the request goes out (`syncing`)
        with loading on and the catalog and error cleared, so that, whatever the
        address names, the spinner shows while the reply is awaited. */
    method BeginSync(config: Option<GitHubConfig>) returns (syncing: bool)
      modifies this`models, this`isLoading, this`apiError
      ensures syncing <==> Syncable(config)
      ensures !syncing ==> !isLoading && models == old(models) && apiError == old(apiError)
      ensures syncing ==> isLoading && models == [] && apiError == None
      ensures syncing ==> View() == MainPage(Spinner)
    {
      if config.None? || config.value.owner == "" || config.value.repo == "" {
        isLoading := false;
        return false;
      }
      isLoading := true;
      models := [];
      apiError := None;
      syncing := true;
    }

    /** The rest of `fetchModelsFromRepo` once the listing request has its
        response: the `try` block, the `catch` and the `finally`. */
    method CompleteSync(response: ListingResponse)
      modifies this`models, this`isLoading, this`apiError
      ensures !isLoading
      ensures match ListingOutcome(response)
              case Loaded(ms) => models == ms && apiError == old(apiError)
              case Failed(message) => models == [] && apiError == Some(message)
    {
      var thrown: Option<string> := None;
      label attempt: {
        if response.NetworkFailure? {
          thrown := Some(response.reason);
          break attempt;
        }
        var status, body := response.status, response.body;
        if status == 404 {
          models := [];
          break attempt;
        }
        if status == 401 {
          thrown := Some(UnauthorizedMessage);
          break attempt;
        }
        if status == 403 {
          thrown := Some(ForbiddenMessage);
          break attempt;
        }
        if !IsOk(status) {
          thrown := if body.JsonNull? then Some(body.reason) else Some(StatusMessage(status, body));
          break attempt;
        }
        if body.Unparseable? {
          thrown := Some(body.reason);
          break attempt;
        }
        if !body.EntryList? {
          models := [];
          break attempt;
        }
        models := BuildCatalog(body.entries);
      }
      if thrown.Some? {
        apiError := Some(CaughtMessage(thrown.value));
        models := [];
      }
      isLoading := false;
    }

    /** `fetchModelsFromRepo(config)`, run to completion against the response
        the listing request receives. */
    method FetchModelsFromRepo(config: Option<GitHubConfig>, response: ListingResponse)
      modifies this`models, this`isLoading, this`apiError
      ensures !isLoading
      ensures !Syncable(config) ==> models == old(models) && apiError == old(apiError)
      ensures Syncable(config) ==>
                match ListingOutcome(response)
                case Loaded(ms) => models == ms && apiError == None
                case Failed(message) => models == [] && apiError == Some(message)
    {
      var syncing := BeginSync(config);
      if syncing {
        CompleteSync(response);
      }
    }

    /** The effect that syncs whenever the configuration changes. */
    method SyncOnConfigChange(response: ListingResponse)
      modifies this`models, this`isLoading, this`apiError
      ensures !isLoading
      ensures !Syncable(githubConfig) ==> models == old(models) && apiError == old(apiError)
      ensures Syncable(githubConfig) ==>
                match ListingOutcome(response)
                case Loaded(ms) => models == ms && apiError == None
                case Failed(message) => models == [] && apiError == Some(message)
    {
      if githubConfig.Some? {
        FetchModelsFromRepo(githubConfig, response);
      } else {
        isLoading := false;
      }
    }

    /** `handlePublish`: once the delay after a commit is over, the catalog is
        synced again with the current configuration; without one, nothing happens. */
    method HandlePublish(response: ListingResponse)
      modifies this`models, this`isLoading, this`apiError
      ensures githubConfig.None? ==>
                models == old(models) && isLoading == old(isLoading) && apiError == old(apiError)
      ensures githubConfig.Some? ==> !isLoading
      ensures githubConfig.Some? && !Syncable(githubConfig) ==>
                models == old(models) && apiError == old(apiError)
      ensures Syncable(githubConfig) ==>
                match ListingOutcome(response)
                case Loaded(ms) => models == ms && apiError == None
                case Failed(message) => models == [] && apiError == Some(message)
    {
      if githubConfig.Some? {
        FetchModelsFromRepo(githubConfig, response);
      }
    }

    /** `handleUrlChange`: the `modelId` of the address becomes the current id. */
    method HandleUrlChange()
      modifies this`currentModelId
      ensures currentModelId == Get(Parse(location.query), "modelId")
    {
      currentModelId := Get(Parse(location.query), "modelId");
    }

    /** `handleCloseViewer`: every `modelId` pair leaves the address, the other
        pairs stay in their order, and the main page is shown again. */
    method HandleCloseViewer()
      modifies this`location, this`currentModelId
      ensures location.base == old(location.base) && location.fragment == old(location.fragment)
      ensures location.query == Serialize(Delete(Parse(old(location.query)), "modelId"))
      ensures Parse(location.query) == Delete(Parse(old(location.query)), "modelId")
      ensures Get(Parse(location.query), "modelId") == None
      ensures currentModelId == None && View().MainPage?
    {
      var url := new Url(location);
      url.DeleteParam("modelId");
      location := url.Href();
      currentModelId := None;
      ParseSerialize(Delete(Parse(old(location.query)), "modelId"));
      GetDelete(Parse(old(location.query)), "modelId", "modelId");
    }

    /** `handleSaveSettings`: the saved configuration becomes current. */
    method HandleSaveSettings(config: GitHubConfig)
      modifies this`githubConfig
      ensures githubConfig == Some(config)
    {
      githubConfig := Some(config);
    }
  }
}
