/** The settings form of components/GitHubSettingsModal.tsx: the fields it
    starts with, how a current configuration prefills them, and the checks
    `handleSave` runs before handing the configuration to `onSave`. */
module GitHubSettings {
  import opened Types
  import opened JsString

  const RequiredMessage: string := "Owner, Repo, PAT, and Branch fields are required."
  const FormatMessage: string :=
    "Invalid PAT format. A Personal Access Token must start with 'ghp_' (classic) or 'github_pat_' (fine-grained)."

  const DefaultOwner: string := "client96163525-collab"
  const DefaultRepo: string := "AR-View"
  const DefaultBranch: string := "main"

  /** The trimmed token starts with the classic or the fine-grained prefix. */
  predicate HasTokenPrefix(pat: string) {
    StartsWith(Trim(pat), "ghp_") || StartsWith(Trim(pat), "github_pat_")
  }

  /** What one press of Save leads to: the error shown, or the configuration saved. */
  datatype SaveOutcome = Rejected(message: string) | Accepted(config: GitHubConfig)

  /** The checks of `handleSave`, in their order. */
  function ValidateSettings(owner: string, repo: string, pat: string, branch: string, publicUrl: string): (r: SaveOutcome)
    // an accepted configuration is passed on exactly as typed, untrimmed
    ensures r.Accepted? ==> r.config == GitHubConfig(owner, repo, pat, branch, Some(publicUrl))
    ensures r.Rejected? ==> r.message in {RequiredMessage, FormatMessage}
  {
    if IsBlank(owner) || IsBlank(repo) || IsBlank(pat) || IsBlank(branch) then Rejected(RequiredMessage)
    else if !HasTokenPrefix(pat) then Rejected(FormatMessage)
    else Accepted(GitHubConfig(owner, repo, pat, branch, Some(publicUrl)))
  }

  /** The two messages are different texts. */
  lemma MessagesDiffer()
    ensures RequiredMessage != FormatMessage
  {
    assert |RequiredMessage| < 60 < |FormatMessage|;
  }

  /** The required-fields message shows exactly when one of owner, repo, PAT or
      branch is empty or made only of white space. */
  lemma RequiredFields(owner: string, repo: string, pat: string, branch: string, publicUrl: string)
    ensures ValidateSettings(owner, repo, pat, branch, publicUrl) == Rejected(RequiredMessage) <==>
              AllWhiteSpace(owner) || AllWhiteSpace(repo) || AllWhiteSpace(pat) || AllWhiteSpace(branch)
  {
    MessagesDiffer();
    TrimBlank(owner);
    TrimBlank(repo);
    TrimBlank(pat);
    TrimBlank(branch);
  }

  /** Once every required field has content, the format message shows exactly
      when the trimmed token has neither accepted prefix. */
  lemma TokenFormat(owner: string, repo: string, pat: string, branch: string, publicUrl: string)
    requires !AllWhiteSpace(owner) && !AllWhiteSpace(repo) && !AllWhiteSpace(pat) && !AllWhiteSpace(branch)
    ensures ValidateSettings(owner, repo, pat, branch, publicUrl) == Rejected(FormatMessage) <==> !HasTokenPrefix(pat)
    ensures ValidateSettings(owner, repo, pat, branch, publicUrl).Accepted? <==> HasTokenPrefix(pat)
  {
    MessagesDiffer();
    TrimBlank(owner);
    TrimBlank(repo);
    TrimBlank(pat);
    TrimBlank(branch);
  }

  /** An accepted configuration has every required field with content and a token
      with an accepted prefix. */
  lemma AcceptedIsValid(owner: string, repo: string, pat: string, branch: string, publicUrl: string)
    requires ValidateSettings(owner, repo, pat, branch, publicUrl).Accepted?
    ensures !AllWhiteSpace(owner) && !AllWhiteSpace(repo) && !AllWhiteSpace(pat) && !AllWhiteSpace(branch)
    ensures HasTokenPrefix(pat)
  {
    RequiredFields(owner, repo, pat, branch, publicUrl);
  }

  /** The token `xyz_abc` has neither accepted prefix. */
  lemma UnknownPrefix(pat: string)
    requires pat == "xyz_abc"
    ensures !HasTokenPrefix(pat)
  {
    TrimUnchanged(pat);
    assert pat[0] == 'x';
  }

  /** The token `xyz_abc` is refused with the format message. */
  lemma RejectsUnknownPrefix(owner: string, repo: string, pat: string, branch: string, publicUrl: string)
    requires !AllWhiteSpace(owner) && !AllWhiteSpace(repo) && !AllWhiteSpace(branch)
    requires pat == "xyz_abc"
    ensures ValidateSettings(owner, repo, pat, branch, publicUrl) == Rejected(FormatMessage)
  {
    UnknownPrefix(pat);
    assert !AllWhiteSpace(pat) by {
      assert !IsWhiteSpace(pat[0]);
    }
    TokenFormat(owner, repo, pat, branch, publicUrl);
  }

  /** The state of the settings dialog. */
  class SettingsForm {
    var owner: string
    var repo: string
    var pat: string
    var branch: string
    var publicUrl: string
    var error: string

    /** Mounting the dialog: the initial field values, then the prefill effect. */
    constructor (currentConfig: Option<GitHubConfig>)
      ensures currentConfig.None? ==>
                owner == DefaultOwner && repo == DefaultRepo && pat == "" && branch == DefaultBranch && publicUrl == ""
      ensures currentConfig.Some? ==> Prefilled(currentConfig.value)
      ensures error == ""
    {
      owner := DefaultOwner;
      repo := DefaultRepo;
      pat := "";
      branch := DefaultBranch;
      publicUrl := "";
      error := "";
      new;
      Prefill(currentConfig);
    }

    /** The fields hold a copy of `c`, with branch `main` for an empty one and
        an empty public URL for a missing one. */
    predicate Prefilled(c: GitHubConfig)
      reads this
    {
      && owner == c.owner && repo == c.repo && pat == c.pat
      && branch == (if c.branch != "" then c.branch else DefaultBranch)
      && publicUrl == (if Truthy(c.publicUrl) then c.publicUrl.value else "")
    }

    /** The prefill effect, run whenever the current configuration changes. */
    method Prefill(currentConfig: Option<GitHubConfig>)
      modifies this`owner, this`repo, this`pat, this`branch, this`publicUrl
      ensures currentConfig.Some? ==> Prefilled(currentConfig.value)
      ensures currentConfig.None? ==>
                owner == old(owner) && repo == old(repo) && pat == old(pat)
                && branch == old(branch) && publicUrl == old(publicUrl)
    {
      if currentConfig.Some? {
        var c := currentConfig.value;
        owner := c.owner;
        repo := c.repo;
        pat := c.pat;
        branch := if c.branch != "" then c.branch else DefaultBranch;
        publicUrl := if Truthy(c.publicUrl) then c.publicUrl.value else "";
      }
    }

    /** `handleSave`: the error is cleared, then the checks run in order; the
        configuration handed to `onSave`, when there is one, is `saved`. */
    method HandleSave() returns (saved: Option<GitHubConfig>)
      modifies this`error
      ensures match ValidateSettings(owner, repo, pat, branch, publicUrl)
              case Rejected(message) => error == message && saved.None?
              case Accepted(config) => error == "" && saved == Some(config)
    {
      error := "";
      if IsBlank(owner) || IsBlank(repo) || IsBlank(pat) || IsBlank(branch) {
        error := RequiredMessage;
        return None;
      }
      if !HasTokenPrefix(pat) {
        error := FormatMessage;
        return None;
      }
      saved := Some(GitHubConfig(owner, repo, pat, branch, Some(publicUrl)));
    }
  }
}
