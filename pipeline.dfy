/** How the components fit together: a file published by the uploader comes back
    through the catalog sync with a title derived from its name, and a link
    made by a card's Share button opens that model in the app. */
module Pipeline {
  import opened Types
  import opened JsString
  import opened FormUrlEncoded
  import opened SearchParams
  import Catalog
  import ModelUploader
  import App
  import ModelCard

  /** Every space, `_` and `-` of `s` shown as a space. */
  function SeparatorsAsSpaces(s: string): (r: string)
    ensures |r| == |s|
  {
    seq(|s|, i requires 0 <= i < |s| => if s[i] in {' ', '_', '-'} then ' ' else s[i])
  }

  /** A character that some upper- or lower-case form maps to a non-space is not a space. */
  lemma NoSpaceInExtension(ext: string)
    requires ToLower(ext) in ModelUploader.SupportedFormats
    ensures ' ' !in ext
  {
    forall i | 0 <= i < |ext|
      ensures ext[i] != ' '
    {
      assert ToLower(ext)[i] != ' ';
    }
  }

  /** The name the uploader commits for `base + ext` is the timestamp, `-`, the
      base with its spaces turned into `_`, and the extension unchanged. */
  lemma UniqueFileNameParts(now: nat, base: string, ext: string)
    requires ' ' !in ext
    ensures ModelUploader.UniqueFileName(now, base + ext) ==
              Decimal(now) + "-" + ReplaceAll(base, ' ', '_') + ext
  {
    var r := ReplaceAll(base + ext, ' ', '_');
    assert r == ReplaceAll(base, ' ', '_') + ext by {
      assert forall i | |base| <= i < |base| + |ext| :: (base + ext)[i] == ext[i - |base|];
    }
  }

  /** A model published as `base + ext` is listed with the title `base`, every
      space, `_` and `-` of it shown as a space, whatever the clock read. */
  lemma PublishedTitle(now: nat, base: string, ext: string)
    requires ext in ModelUploader.SupportedFormats
    ensures Catalog.DeriveTitle(ModelUploader.UniqueFileName(now, base + ext)) == SeparatorsAsSpaces(base)
  {
    var under := ReplaceAll(base, ' ', '_');
    assert ' ' !in ext;
    UniqueFileNameParts(now, base, ext);
    assert Decimal(now) + "-" + under + ext == Decimal(now) + "-" + (under + ext);
    Catalog.StripNumeral(Decimal(now), under + ext);
    Catalog.StripKnownExtension(under, ext);
    assert Catalog.Spaced(under) == SeparatorsAsSpaces(base);
  }

  /** The last character of `s` when it ends with `p`. */
  lemma EndsWithLast(s: string, p: string)
    requires p != [] && EndsWith(s, p)
    ensures s[|s| - 1] == p[|p| - 1]
  {
    assert s[|s| - |p|..][|p| - 1] == s[|s| - 1];
  }

  /** A name ending in an extension that lower-cases to a model format passes
      the listing filter exactly when the extension is already in lower case. */
  lemma ExtensionListed(prefix: string, ext: string)
    requires ToLower(ext) in ModelUploader.SupportedFormats
    ensures Catalog.IsModelFile(prefix + ext) <==> ext in ModelUploader.SupportedFormats
  {
    var f := prefix + ext;
    assert f[|prefix|..] == ext;
    assert f[|f| - 1] == ext[|ext| - 1];
    var last := ToLower(ext)[|ext| - 1];
    assert LowerChar(ext[|ext| - 1]) == last;
    if EndsWith(f, ".glb") {
      EndsWithLast(f, ".glb");
      assert last == 'b' && ToLower(ext) == ".glb" && |ext| == 4;
      assert f[|f| - 4..] == ext;
    }
    if EndsWith(f, ".gltf") {
      EndsWithLast(f, ".gltf");
      assert last == 'f' && ToLower(ext) == ".gltf" && |ext| == 5;
      assert f[|f| - 5..] == ext;
    }
    if EndsWith(f, ".usdz") {
      EndsWithLast(f, ".usdz");
      assert last == 'z' && ToLower(ext) == ".usdz" && |ext| == 5;
      assert f[|f| - 5..] == ext;
    }
    if ext in ModelUploader.SupportedFormats {
      assert EndsWith(f, ext);
    }
  }

  /** The uploader accepts an extension in any case, but the listing keeps only the
      lower-case ones: a model published as `Rover.GLB` is committed and then never
      listed. */
  lemma ListedOnlyInLowerCase(now: nat, base: string, ext: string)
    requires ToLower(ext) in ModelUploader.SupportedFormats
    ensures ModelUploader.IsSupported(base + ext)
    ensures Catalog.IsModelFile(ModelUploader.UniqueFileName(now, base + ext)) <==> ext in ModelUploader.SupportedFormats
  {
    ModelUploader.SupportedByExtension(base, ext);
    NoSpaceInExtension(ext);
    UniqueFileNameParts(now, base, ext);
    ExtensionListed(Decimal(now) + "-" + ReplaceAll(base, ' ', '_'), ext);
  }

  /** The supported extensions are written in lower case. */
  lemma FormatsInLowerCase(ext: string)
    requires ext in ModelUploader.SupportedFormats
    ensures ToLower(ext) == ext
  {
  }

  /** Once the committed file is listed, the catalog holds its record: the blob
      sha as id, the title from the name the user picked, and no description. */
  lemma PublishedModelInCatalog(now: nat, base: string, ext: string, entries: seq<Catalog.Entry>, e: Catalog.Entry)
    requires ext in ModelUploader.SupportedFormats
    requires e in entries && e.name == ModelUploader.UniqueFileName(now, base + ext)
    ensures ModelData(e.sha, SeparatorsAsSpaces(base), "", e.downloadUrl) in Catalog.BuildCatalog(entries)
  {
    FormatsInLowerCase(ext);
    ListedOnlyInLowerCase(now, base, ext);
    Catalog.CatalogHasEveryModelFile(entries, e);
    PublishedTitle(now, base, ext);
  }

  /** A shared link read back by `handleUrlChange` names the model, and with the
      model in a catalog of distinct ids, once loading is over, the viewer shows it. */
  lemma SharedLinkOpensModel(model: ModelData, query: string, models: seq<ModelData>,
                             apiError: Option<string>, config: Option<GitHubConfig>)
    requires model.id != "" && model in models && App.UniqueIds(models)
    ensures var link := Serialize(Set(Parse(query), ModelCard.ModelIdParam, model.id));
            var id := Get(Parse(link), ModelCard.ModelIdParam);
            id == Some(model.id) && App.SelectView(id, models, false, apiError, config) == App.Viewer(model)
  {
    var q := Set(Parse(query), ModelCard.ModelIdParam, model.id);
    ParseSerialize(q);
    GetAfterSet(Parse(query), ModelCard.ModelIdParam, model.id);
    App.FindByUniqueId(models, model);
  }

  /** The whole journey of a shared link: the card builds it on one page, the app
      starts on it, reads its `modelId` and syncs. While the listing is awaited
      the spinner shows; then the viewer shows the shared model when the catalog
      has it and the not-found screen when it does not. */
  method OpenSharedLink(model: ModelData, current: Location, storedConfig: Option<GitHubConfig>,
                        response: Catalog.ListingResponse)
    returns (whileLoading: App.Screen, loaded: App.Screen)
    requires model.id != ""
    ensures whileLoading == App.MainPage(App.Spinner)
    ensures App.Syncable(storedConfig) && Catalog.ListingOutcome(response).Loaded? ==>
              var ms := Catalog.ListingOutcome(response).models;
              (App.HasId(ms, model.id) ==> loaded.Viewer? && loaded.model.id == model.id) &&
              (model in ms && App.UniqueIds(ms) ==> loaded == App.Viewer(model)) &&
              (!App.HasId(ms, model.id) ==> loaded == App.NotFound(model.id))
    ensures App.Syncable(storedConfig) && Catalog.ListingOutcome(response).Failed? ==>
              loaded == App.NotFound(model.id)
  {
    var link := ModelCard.HandleShare(model, current);
    var app := new App.AppState(storedConfig, link);
    app.HandleUrlChange();
    assert app.currentModelId == Some(model.id);
    whileLoading := app.View();
    app.SyncOnConfigChange(response);
    loaded := app.View();
    ShownOnceLoaded(model, app.models, app.apiError, app.githubConfig);
  }

  /** Once loading is over, a non-empty id shows the viewer for a model of the
      catalog with that id, and the not-found screen when there is none. */
  lemma ShownOnceLoaded(model: ModelData, ms: seq<ModelData>, apiError: Option<string>,
                        config: Option<GitHubConfig>)
    requires model.id != ""
    ensures var s := App.SelectView(Some(model.id), ms, false, apiError, config);
            (App.HasId(ms, model.id) ==> s.Viewer? && s.model.id == model.id) &&
            (model in ms && App.UniqueIds(ms) ==> s == App.Viewer(model)) &&
            (!App.HasId(ms, model.id) ==> s == App.NotFound(model.id))
  {
    if model in ms && App.UniqueIds(ms) {
      App.FindByUniqueId(ms, model);
    }
  }
}
