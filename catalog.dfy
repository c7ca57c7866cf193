/** Catalog synchronisation of App.tsx (`fetchModelsFromRepo`), as pure
    functions: the classification of a GitHub Contents-API listing response,
    the filter on model-file names, the title derived from a file name, and the
    newest-first catalog built from the listing. The state updates around it
    live in module App. */
module Catalog {
  import opened Types
  import opened JsString
  import opened Seqs

  // ---------------------------------------------------------------------
  // Listing responses
  // ---------------------------------------------------------------------

  /** One element of the listing array: the fields the application reads. */
  datatype Entry = Entry(name: string, sha: string, downloadUrl: string)

  /** The parsed body of a listing response. `OtherJson` is any JSON value that
      is neither an array nor `null` (an object, possibly with a `message` field,
      or a number, string or boolean, where `message` reads as undefined);
      `JsonNull` is the value `null`, with the message of the `TypeError` that
      reading its `message` throws; `Unparseable` is a body `response.json()`
      rejects, with the parser's error message. */
  datatype ListingBody =
    | EntryList(entries: seq<Entry>)
    | OtherJson(message: Option<string>)
    | JsonNull(reason: string)
    | Unparseable(reason: string)

  /** What `fetch` delivered: a response, or a rejection with its error message. */
  datatype ListingResponse =
    | Responded(status: nat, body: ListingBody)
    | NetworkFailure(reason: string)

  /** `response.ok`. */
  predicate IsOk(status: nat) {
    200 <= status <= 299
  }

  const UnauthorizedMessage: string :=
    "GitHub API Error (401 Unauthorized): Your Personal Access Token is incorrect or has expired. Please verify it in the settings."
  const ForbiddenMessage: string :=
    "GitHub API Error (403 Forbidden): Your Personal Access Token may not have the required \"repo\" scope, or you may have hit a rate limit. Please check your token permissions."
  const FetchFallback: string := "Failed to fetch models."
  const UnparsedErrorMessage: string := "Could not parse error response."
  const UnexpectedMessage: string := "An unexpected error occurred while fetching models."

  /** The result of one sync: the new catalog, or the text shown as `apiError`. */
  datatype SyncOutcome = Loaded(models: seq<ModelData>) | Failed(message: string)

  /** `errorData.message` of a non-ok response; an unparseable body reads as
      the object `{ message: 'Could not parse error response.' }`. */
  function ErrorDataMessage(body: ListingBody): Option<string>
    requires !body.JsonNull?
  {
    match body
    case EntryList(_) => None
    case OtherJson(m) => m
    case Unparseable(_) => Some(UnparsedErrorMessage)
  }

  /** The error thrown for a non-ok status other than 404, 401 and 403. */
  function StatusMessage(status: nat, body: ListingBody): string
    requires !body.JsonNull?
  {
    var m := ErrorDataMessage(body);
    "GitHub API Error (" + Decimal(status) + "): " + (if Truthy(m) then m.value else FetchFallback)
  }

  /** `error.message || 'An unexpected error occurred while fetching models.'`. */
  function CaughtMessage(message: string): (r: string)
    ensures r != ""
  {
    if message != "" then message else UnexpectedMessage
  }

  /** Everything `fetchModelsFromRepo` decides from one response, once the
      configuration names an owner and a repository. */
  function ListingOutcome(response: ListingResponse): (r: SyncOutcome)
    // a missing directory is an empty catalog, never an error
    ensures response.Responded? && response.status == 404 ==> r == Loaded([])
    // 401 and 403 are told apart before the generic branch
    ensures response.Responded? && response.status == 401 ==> r == Failed(UnauthorizedMessage)
    ensures response.Responded? && response.status == 403 ==> r == Failed(ForbiddenMessage)
    ensures response.Responded? && !IsOk(response.status) && response.status !in {401, 403, 404} &&
            !response.body.JsonNull? ==>
              r == Failed(StatusMessage(response.status, response.body))
    // reading `message` of a `null` error body throws, and that error is caught
    ensures response.Responded? && !IsOk(response.status) && response.status !in {401, 403, 404} &&
            response.body.JsonNull? ==>
              r == Failed(CaughtMessage(response.body.reason))
    // a successful answer that is not an array is an empty catalog, not an error
    ensures response.Responded? && IsOk(response.status) && (response.body.OtherJson? || response.body.JsonNull?) ==>
              r == Loaded([])
    ensures response.Responded? && IsOk(response.status) && response.body.EntryList? ==>
              r == Loaded(BuildCatalog(response.body.entries))
    // a rejected request and an ok reply whose body does not parse are caught errors
    ensures response.NetworkFailure? ==> r == Failed(CaughtMessage(response.reason))
    ensures response.Responded? && IsOk(response.status) && response.body.Unparseable? ==>
              r == Failed(CaughtMessage(response.body.reason))
    // every error carries a message
    ensures r.Failed? ==> r.message != ""
  {
    match response
    case NetworkFailure(reason) => Failed(CaughtMessage(reason))
    case Responded(status, body) =>
      if status == 404 then Loaded([])
      else if status == 401 then Failed(UnauthorizedMessage)
      else if status == 403 then Failed(ForbiddenMessage)
      else if !IsOk(status) then
        (if body.JsonNull? then Failed(CaughtMessage(body.reason)) else Failed(StatusMessage(status, body)))
      else match body
        case Unparseable(reason) => Failed(CaughtMessage(reason))
        case OtherJson(_) => Loaded([])
        case JsonNull(_) => Loaded([])
        case EntryList(entries) => Loaded(BuildCatalog(entries))
  }

  /** Any other non-ok status with a body that is not `null` shows
      `GitHub API Error (<status>): ` followed by GitHub's message, or by the
      fixed fallback when the body has no message. */
  lemma {:induction false} StatusMessageShape(status: nat, body: ListingBody)
    requires !IsOk(status) && status !in {401, 403, 404}
    ensures !body.JsonNull? ==>
              var r := ListingOutcome(Responded(status, body));
              r.Failed? && StartsWith(r.message, "GitHub API Error (" + Decimal(status) + "): ")
    ensures !body.JsonNull? && Truthy(ErrorDataMessage(body)) ==>
              ListingOutcome(Responded(status, body))
              == Failed("GitHub API Error (" + Decimal(status) + "): " + ErrorDataMessage(body).value)
    ensures !body.JsonNull? && !Truthy(ErrorDataMessage(body)) ==>
              ListingOutcome(Responded(status, body)) == Failed("GitHub API Error (" + Decimal(status) + "): " + FetchFallback)
  {
    if !body.JsonNull? {
      var prefix := "GitHub API Error (" + Decimal(status) + "): ";
      var m := ErrorDataMessage(body);
      var tail := if Truthy(m) then m.value else FetchFallback;
      assert StatusMessage(status, body) == prefix + tail;
      assert (prefix + tail)[..|prefix|] == prefix;
    }
  }

  // ---------------------------------------------------------------------
  // The name filter and the title
  // ---------------------------------------------------------------------

  /** The listing filter: the name ends with `.glb`, `.gltf` or `.usdz`, case-sensitively. */
  predicate IsModelFile(name: string) {
    EndsWith(name, ".glb") || EndsWith(name, ".gltf") || EndsWith(name, ".usdz")
  }

  /** The number of decimal digits `s` starts with. */
  function DigitRunLength(s: string): (k: nat)
    ensures k <= |s|
    ensures AllDigits(s[..k])
    ensures k < |s| ==> !IsDigit(s[k])
    decreases |s|
  {
    if s != [] && IsDigit(s[0]) then
      var k := 1 + DigitRunLength(s[1..]);
      assert s[..k] == [s[0]] + s[1..][..k - 1];
      k
    else 0
  }

  /** `replace(/^\d+-/, '')`: at most one leading run of digits followed by `-` is removed. */
  function StripOrderPrefix(s: string): string {
    var k := DigitRunLength(s);
    if 0 < k < |s| && s[k] == '-' then s[k + 1..] else s
  }

  /** `replace(/\.(glb|gltf|usdz)$/, '')`: the recognised extension at the very end is removed. */
  function StripExtension(s: string): string {
    if EndsWith(s, ".glb") then s[..|s| - 4]
    else if EndsWith(s, ".gltf") || EndsWith(s, ".usdz") then s[..|s| - 5]
    else s
  }

  /** `replace(/_/g, ' ').replace(/-/g, ' ')`. */
  function Spaced(s: string): string {
    ReplaceAll(ReplaceAll(s, '_', ' '), '-', ' ')
  }

  /** The title shown for a listed file name. */
  function DeriveTitle(name: string): (title: string)
    ensures '_' !in title && '-' !in title
  {
    Spaced(StripExtension(StripOrderPrefix(name)))
  }

  /** A name whose leading digits, if any, are not followed by `-` passes the
      prefix step unchanged, as `3dcar.glb` does. */
  lemma NoOrderPrefix(s: string)
    requires forall k | 0 < k < |s| && AllDigits(s[..k]) :: s[k] != '-'
    ensures StripOrderPrefix(s) == s
  {
    var k := DigitRunLength(s);
    if 0 < k < |s| {
      assert AllDigits(s[..k]);
      assert s[k] != '-';
    }
  }

  /** A leading numeral and `-` are removed, and nothing more, whatever follows. */
  lemma {:induction false} StripNumeral(digits: string, rest: string)
    requires digits != [] && AllDigits(digits)
    ensures StripOrderPrefix(digits + "-" + rest) == rest
  {
    var s := digits + "-" + rest;
    DigitRunOfNumeral(digits, "-" + rest);
    assert s == digits + ("-" + rest);
    assert s[|digits| + 1..] == rest;
  }

  lemma {:induction false} DigitRunOfNumeral(digits: string, rest: string)
    requires AllDigits(digits)
    requires rest == [] || !IsDigit(rest[0])
    ensures DigitRunLength(digits + rest) == |digits|
    decreases |digits|
  {
    if digits == [] {
      assert digits + rest == rest;
    } else {
      DigitRunOfNumeral(digits[1..], rest);
      assert (digits + rest)[1..] == digits[1..] + rest;
    }
  }

  /** Removing the extension of `base + ext` gives `base`. */
  lemma StripKnownExtension(base: string, ext: string)
    requires ext in [".glb", ".gltf", ".usdz"]
    ensures StripExtension(base + ext) == base
  {
    var s := base + ext;
    assert s[|base|..] == ext;
    assert s[..|base|] == base;
    assert s[|s| - 1] == ext[|ext| - 1];
    if ext == ".gltf" || ext == ".usdz" {
      assert !EndsWith(s, ".glb") by {
        assert s[|s| - 4..][3] == s[|s| - 1];
      }
    }
  }

  /** The three steps of the title derivation for `003-Sci_Fi-Rover.glb`. */
  lemma PrefixOfExample()
    ensures StripOrderPrefix("003-Sci_Fi-Rover.glb") == "Sci_Fi-Rover.glb"
  {
    StripNumeral("003", "Sci_Fi-Rover.glb");
    assert "003-Sci_Fi-Rover.glb" == "003" + "-" + "Sci_Fi-Rover.glb";
  }

  lemma ExtensionOfExample()
    ensures StripExtension("Sci_Fi-Rover.glb") == "Sci_Fi-Rover"
  {
    StripKnownExtension("Sci_Fi-Rover", ".glb");
    assert "Sci_Fi-Rover.glb" == "Sci_Fi-Rover" + ".glb";
  }

  lemma SeparatorsOfExample()
    ensures Spaced("Sci_Fi-Rover") == "Sci Fi Rover"
  {
    assert ReplaceAll("Sci_Fi-Rover", '_', ' ') == "Sci Fi-Rover";
    assert ReplaceAll("Sci Fi-Rover", '-', ' ') == "Sci Fi Rover";
  }

  /** `003-Sci_Fi-Rover.glb` is shown as `Sci Fi Rover`. */
  lemma TitleExampleWithPrefix()
    ensures DeriveTitle("003-Sci_Fi-Rover.glb") == "Sci Fi Rover"
  {
    PrefixOfExample();
    ExtensionOfExample();
    SeparatorsOfExample();
  }

  /** `lamp.gltf` is shown as `lamp`: no prefix to strip, no separator to replace. */
  lemma TitleExampleWithoutPrefix()
    ensures DeriveTitle("lamp.gltf") == "lamp"
  {
    assert "lamp.gltf" == "lamp" + ".gltf";
    NoOrderPrefix("lamp.gltf");
    StripKnownExtension("lamp", ".gltf");
    assert ReplaceAll("lamp", '_', ' ') == "lamp";
    assert ReplaceAll("lamp", '-', ' ') == "lamp";
  }

  // ---------------------------------------------------------------------
  // Building the catalog
  // ---------------------------------------------------------------------

  /** The record made from one listed file. */
  function ToRecord(e: Entry): (m: ModelData)
    ensures m.id == e.sha && m.fileUrl == e.downloadUrl && m.description == ""
  {
    ModelData(e.sha, DeriveTitle(e.name), "", e.downloadUrl)
  }

  /** An entry whose name passes the listing filter. */
  predicate IsModelEntry(e: Entry) {
    IsModelFile(e.name)
  }

  /** `contents.filter(...)`: the listed model files, in listing order. */
  function ModelFiles(entries: seq<Entry>): seq<Entry> {
    Filter(entries, IsModelEntry)
  }

  /** The catalog: one record per model file, newest (last listed) first. */
  function BuildCatalog(entries: seq<Entry>): seq<ModelData> {
    Reverse(Map(ModelFiles(entries), ToRecord))
  }

  /** The filter keeps every model file as often as it is listed, drops every
      other entry, and keeps the listing order. */
  lemma ModelFilesExact(entries: seq<Entry>)
    ensures forall e :: multiset(ModelFiles(entries))[e] == if IsModelFile(e.name) then multiset(entries)[e] else 0
    ensures IsSubsequence(ModelFiles(entries), entries)
  {
    forall e
      ensures multiset(ModelFiles(entries))[e] == if IsModelFile(e.name) then multiset(entries)[e] else 0
    {
      FilterMultiset(entries, IsModelEntry, e);
    }
    FilterIsSubsequence(entries, IsModelEntry);
  }

  /** An entry survives the filter exactly when it is listed and is a model file. */
  lemma ModelFilesMembers(entries: seq<Entry>, e: Entry)
    ensures e in ModelFiles(entries) <==> e in entries && IsModelFile(e.name)
  {
    FilterMembers(entries, IsModelEntry, e);
  }

  /** Position `i` of the catalog is the record of the `i`-th model file counted
      from the end of the listing. */
  lemma CatalogOrder(entries: seq<Entry>, i: nat)
    requires i < |ModelFiles(entries)|
    ensures |BuildCatalog(entries)| == |ModelFiles(entries)|
    ensures BuildCatalog(entries)[i] == ToRecord(ModelFiles(entries)[|ModelFiles(entries)| - 1 - i])
  {
    ReverseMapAt(ModelFiles(entries), ToRecord, i);
  }

  /** Every listed model file has its record in the catalog. */
  lemma CatalogHasEveryModelFile(entries: seq<Entry>, e: Entry)
    requires e in entries && IsModelFile(e.name)
    ensures ToRecord(e) in BuildCatalog(entries)
  {
    ModelFilesMembers(entries, e);
    MapReverseHas(ModelFiles(entries), ToRecord, e);
  }

  /** The listed model file a record of the catalog was made from. */
  lemma RecordSource(entries: seq<Entry>, m: ModelData) returns (e: Entry)
    requires m in BuildCatalog(entries)
    ensures e in entries && IsModelFile(e.name) && m == ToRecord(e)
  {
    e := MapReverseSource(ModelFiles(entries), ToRecord, m);
    ModelFilesMembers(entries, e);
  }

  /** Every record of the catalog comes from a listed model file. */
  lemma CatalogHasOnlyModelFiles(entries: seq<Entry>, m: ModelData)
    requires m in BuildCatalog(entries)
    ensures exists e :: e in entries && IsModelFile(e.name) && m == ToRecord(e)
  {
    var e := RecordSource(entries, m);
  }

  /** The filter keeps `a.glb` and `c.usdz` of `a.glb`, `b.png`, `c.usdz`. */
  lemma FilesOfExample(a: Entry, b: Entry, c: Entry)
    requires a.name == "a.glb" && b.name == "b.png" && c.name == "c.usdz"
    ensures ModelFiles([a, b, c]) == [a, c]
  {
    assert IsModelFile(a.name) && !IsModelFile(b.name) && IsModelFile(c.name);
    assert [c][1..] == [];
    assert Filter([c], IsModelEntry) == [c];
    assert [b, c][1..] == [c];
    assert Filter([b, c], IsModelEntry) == [c];
    assert [a, b, c][1..] == [b, c];
  }

  /** A listing of `a.glb`, `b.png`, `c.usdz` gives two records, `c` first. */
  lemma CatalogExample(a: Entry, b: Entry, c: Entry)
    requires a.name == "a.glb" && b.name == "b.png" && c.name == "c.usdz"
    ensures BuildCatalog([a, b, c]) == [ToRecord(c), ToRecord(a)]
  {
    FilesOfExample(a, b, c);
    ReverseMapAt([a, c], ToRecord, 0);
    ReverseMapAt([a, c], ToRecord, 1);
  }
}
