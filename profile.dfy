/**
 * `main`: the run from the command-line settings to the ordered repository list and
 * contact lines that the README renderer receives. Flag parsing, console output and
 * the rendering itself are not part of this model.
 */
module Profile {
  import opened Wrappers
  import opened Lines
  import opened GitHub
  import opened Selection
  import opened Ordering

  /** The settings `main` reads from its flags. */
  datatype Config = Config(username: string, excludeFile: string, priorityFile: string, contactFile: string)

  /** The failures on which `main` exits with status 1 before rendering. */
  datatype Fatal =
    | MissingUsername
    | ExcludeFileError(message: string)
    | PriorityFileError(message: string)
    | FetchFailed(error: FetchError)
    | ContactFileError(message: string)

  /** What is handed to the renderer. */
  datatype ReadmeInput = ReadmeInput(repos: seq<Repository>, contactInfo: seq<string>)

  /** Everything the run reads before rendering could be read. */
  predicate InputsReadable(config: Config, read: FileReader, source: nat -> Exchange, bound: nat)
    requires 1 <= bound && !Continues(source(bound))
  {
    && config.username != ""
    && ReadList(config.excludeFile, read).Success?
    && ReadList(config.priorityFile, read).Success?
    && FetchAll(source, bound).Success?
    && ReadList(config.contactFile, read).Success?
  }

  /**
   * `main` up to the call of `generateReadme`: each failure stops the run with the first
   * error met, in the order the inputs are read; otherwise the result is the fetched list
   * minus the excluded names, reordered by the comparator, with the contact lines.
   */
  method GenerateProfile(config: Config, read: FileReader, source: nat -> Exchange, ghost bound: nat)
    returns (r: Result<ReadmeInput, Fatal>)
    requires 1 <= bound && !Continues(source(bound))
    ensures r.Success? <==> InputsReadable(config, read, source, bound)
    ensures config.username == "" ==> r == Failure(MissingUsername)
    ensures config.username != "" && ReadList(config.excludeFile, read).Failure? ==>
      r == Failure(ExcludeFileError(ReadList(config.excludeFile, read).error))
    ensures (config.username != "" && ReadList(config.excludeFile, read).Success?
             && ReadList(config.priorityFile, read).Failure?) ==>
      r == Failure(PriorityFileError(ReadList(config.priorityFile, read).error))
    ensures (config.username != "" && ReadList(config.excludeFile, read).Success?
             && ReadList(config.priorityFile, read).Success? && FetchAll(source, bound).Failure?) ==>
      r == Failure(FetchFailed(FetchAll(source, bound).error))
    ensures (config.username != "" && ReadList(config.excludeFile, read).Success?
             && ReadList(config.priorityFile, read).Success? && FetchAll(source, bound).Success?
             && ReadList(config.contactFile, read).Failure?) ==>
      r == Failure(ContactFileError(ReadList(config.contactFile, read).error))
    ensures r.Success? ==>
      && multiset(r.value.repos)
         == multiset(Survivors(FetchAll(source, bound).value, ReadList(config.excludeFile, read).value))
      && SortedBy(r.value.repos, ReadList(config.priorityFile, read).value)
      && r.value.contactInfo == ReadList(config.contactFile, read).value
  {
    if config.username == "" {
      return Failure(MissingUsername);
    }
    var excludeList := LoadTextFile(config.excludeFile, read);
    if excludeList.Failure? {
      return Failure(ExcludeFileError(excludeList.error));
    }
    var priorityList := LoadTextFile(config.priorityFile, read);
    if priorityList.Failure? {
      return Failure(PriorityFileError(priorityList.error));
    }
    var repos;
    ghost var pages;
    repos, pages := FetchRepositories(source, bound);
    if repos.Failure? {
      return Failure(FetchFailed(repos.error));
    }
    var filteredRepos := FilterRepos(repos.value, excludeList.value);
    var a := new Repository[|filteredRepos|](i requires 0 <= i < |filteredRepos| => filteredRepos[i]);
    assert a[..] == filteredRepos;
    SortRepos(a, priorityList.value);
    var contactInfo: seq<string> := [];
    if config.contactFile != "" {
      var contact := LoadTextFile(config.contactFile, read);
      if contact.Failure? {
        return Failure(ContactFileError(contact.error));
      }
      contactInfo := contact.value;
    }
    r := Success(ReadmeInput(a[..], contactInfo));
  }
}
