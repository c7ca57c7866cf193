/** The records shared by the components (types.ts). */
module Types {

  datatype Option<+T> = None | Some(value: T)

  /** JavaScript truthiness of a string that may be absent: `null`, `undefined` and `''` are falsy. */
  predicate Truthy(s: Option<string>) {
    s.Some? && s.value != ""
  }

  /** One published model as the gallery shows it (`ModelData`). */
  datatype ModelData = ModelData(id: string, title: string, description: string, fileUrl: string)

  /** The repository settings (`GitHubConfig`); `publicUrl` is an optional field. */
  datatype GitHubConfig = GitHubConfig(
    owner: string,
    repo: string,
    pat: string,
    branch: string,
    publicUrl: Option<string>)
}
