/**
 * `get_file_stats` of scripts/update_crate.py: where the modification date
 * and size of a data file come from. The filesystem, the GitHub API, HTTP
 * HEAD requests, `mimetypes` and the notebook reader are outside the model;
 * they are the fields of `Env`, fixed for the whole run.
 */
module FileStats {
  import opened Values
  import opened Text

  /** A date and a size, each possibly null. */
  datatype Stats = Stats(date: Json, size: Json)

  /**
   * What the outside world answers.
   * - `present(p)`: `Path(p).exists()`;
   * - `localDate(p)`, `localSize(p)`: the "%Y-%m-%d" modification date and the size in bytes of an existing local file;
   * - `github(u)`: the commit date and size the GitHub API reports for a blob URL, `None` when the request itself fails;
   * - `contentLength(u)`: the Content-length header of a HEAD request (JNull when absent), `None` when the request fails;
   * - `guessType(p)`: `mimetypes.guess_type(p)[0]`;
   * - `notebookMetadata(p)`: the notebook's `metadata.rocrate` block, `None` when the notebook cannot be read.
   */
  datatype Env = Env(
    present: string -> bool,
    localDate: string -> string,
    localSize: string -> nat,
    github: string -> Option<Stats>,
    contentLength: string -> Option<Json>,
    guessType: string -> Option<string>,
    notebookMetadata: string -> Option<map<string, Json>>)

  const HTTP := "http"
  const GITHUB_HOST := "github.com"

  /** A reference is treated as a web link exactly when it starts with "http". */
  predicate IsUrl(ref: string) {
    StartsWith(ref, HTTP)
  }

  /** A GitHub link with every "/raw/" turned into "/blob/", the form the URL parser accepts. */
  function GitHubUrl(ref: string): string {
    ReplaceAll(ref, "/raw/", "/blob/")
  }

  /**
   * `get_file_stats(ref)`. A GitHub link is asked of the GitHub API, any
   * other web link of a HEAD request (and never has a date), and a local
   * path of the filesystem, which raises for a path that does not exist.
   */
  function GetFileStats(ref: string, env: Env): (r: Result<Stats>)
    ensures !IsUrl(ref) ==> (r.Ok? <==> env.present(ref))
    ensures !IsUrl(ref) && r.Ok? ==>
      r.value.date == JStr(env.localDate(ref)) && r.value.size == JInt(env.localSize(ref))
    ensures IsUrl(ref) && Contains(ref, GITHUB_HOST) ==>
      (r.Ok? <==> env.github(GitHubUrl(ref)).Some?) &&
      (r.Ok? ==> r.value == env.github(GitHubUrl(ref)).value)
    ensures IsUrl(ref) && !Contains(ref, GITHUB_HOST) ==>
      (r.Ok? <==> env.contentLength(ref).Some?) &&
      (r.Ok? ==> r.value == Stats(JNull, env.contentLength(ref).value))
    ensures r.Err? ==> r.error == (if IsUrl(ref) then TransportFailure(ref) else FileNotFound(ref))
  {
    if IsUrl(ref) then
      if Contains(ref, GITHUB_HOST) then
        match env.github(GitHubUrl(ref))
        case None => Err(TransportFailure(ref))
        case Some(stats) => Ok(stats)
      else
        match env.contentLength(ref)
        case None => Err(TransportFailure(ref))
        case Some(size) => Ok(Stats(JNull, size))
    else if env.present(ref) then
      Ok(Stats(JStr(env.localDate(ref)), JInt(env.localSize(ref))))
    else
      Err(FileNotFound(ref))
  }
}
