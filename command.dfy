/**
 * The WP-CLI command (src/Command/DB2WP_Import_Command.php): it records the
 * home domain, enables redirects when asked and the Redirection plugin is
 * there, runs the controller over the records and merges the controller's
 * id map into its own.
 */
module Command {
  import opened Php
  import opened WordPress
  import opened UrlHelpers
  import opened Redirection
  import opened Listener
  import opened Controller

  /** How __invoke ends: the import ran, or WP_CLI::error stopped it. */
  datatype Outcome = Completed | RedirectionUnavailable

  /** The command's fields. */
  datatype CommandState = CommandState(processed: map<int, int>, doRedirect: bool, groupId: int, homeDomain: string)

  /** The listener as the command registers it, reading the command's fields. */
  function HookOf(c: CommandState): Option<Settings> {
    Some(Settings(c.doRedirect, c.groupId, c.homeDomain))
  }

  /**
   * import_from_db: a controller for the post type starts from the
   * command's id map and runs over the mapped rows; its map is then merged
   * into the command's.
   */
  function ImportFromDbSpec(o: Oracles, c: CommandState, s: Site, mapped: seq<Record>): (r: (CommandState, Site))
    ensures r.0.processed.Keys >= c.processed.Keys
    ensures forall k :: k in c.processed ==> r.0.processed[k] == c.processed[k]
    ensures r.0.(processed := c.processed) == c
    ensures r.1.groups == s.groups
    ensures !c.doRedirect ==> r.1.items == s.items
  {
    var run := RunImport(o, HookOf(c), Run(s, c.processed, EmptyMap()), mapped);
    (c.(processed := ArrayUnion(c.processed, run.processed)), run.site)
  }

  /**
   * The command's fields and the site just before the import: the home
   * domain recorded and, with the flag, redirects enabled with the importer's
   * group, found or created.
   */
  function Prepared(o: Oracles, c: CommandState, s: Site, homeUrl: string, flag: Value): (r: (CommandState, Site))
    ensures r.0.homeDomain == RemoveHttp(homeUrl)
    ensures flag != Bool(true) ==> r == (c.(homeDomain := RemoveHttp(homeUrl)), s)
  {
    var c1 := c.(homeDomain := RemoveHttp(homeUrl));
    if flag == Bool(true) then
      var (gid, groups) := GroupIdSpec(o, s.groups);
      (c1.(doRedirect := true, groupId := gid), s.(groups := groups))
    else (c1, s)
  }

  /**
   * __invoke: the home URL without its scheme becomes the home domain; a
   * do-redirect flag that is exactly true either enables redirects with the
   * importer's group or, without the Redirection plugin, stops the command.
   */
  function InvokeSpec(o: Oracles, c: CommandState, s: Site, homeUrl: string, flag: Value,
                      redirectionActive: bool, mapped: seq<Record>): (r: (Outcome, CommandState, Site))
    ensures r.1.homeDomain == RemoveHttp(homeUrl)
    ensures flag == Bool(true) && !redirectionActive ==> r.0 == RedirectionUnavailable && r.2 == s
    ensures flag != Bool(true) ==> r.0 == Completed && r.1.doRedirect == c.doRedirect && r.2.groups == s.groups
  {
    if flag == Bool(true) && !redirectionActive then (RedirectionUnavailable, c.(homeDomain := RemoveHttp(homeUrl)), s)
    else
      var (c2, s2) := Prepared(o, c, s, homeUrl, flag);
      var (c3, s3) := ImportFromDbSpec(o, c2, s2, mapped);
      (Completed, c3, s3)
  }

  /** A fresh command run without the flag writes no redirect rule and no group. */
  lemma NoFlagNoRedirects(o: Oracles, s: Site, homeUrl: string, flag: Value, redirectionActive: bool, mapped: seq<Record>)
    requires flag != Bool(true)
    ensures var r := InvokeSpec(o, CommandState(map[], false, 0, ""), s, homeUrl, flag, redirectionActive, mapped);
            r.2.items == s.items && r.2.groups == s.groups
  {
  }

  /** With the flag, the run uses the importer's group, found or created first. */
  lemma FlagUsesImporterGroup(o: Oracles, c: CommandState, s: Site, homeUrl: string, mapped: seq<Record>)
    ensures var r := InvokeSpec(o, c, s, homeUrl, Bool(true), true, mapped);
            r.0 == Completed && r.1.doRedirect && r.1.groupId == GroupIdSpec(o, s.groups).0
            && r.2.groups == GroupIdSpec(o, s.groups).1
  {
  }

  /** A fresh command ends with the controller's id map. */
  lemma FreshCommandTakesControllerMap(o: Oracles, c: CommandState, s: Site, mapped: seq<Record>)
    requires c.processed == map[]
    ensures ImportFromDbSpec(o, c, s, mapped).0.processed
            == RunImport(o, HookOf(c), Run(s, map[], EmptyMap()), mapped).processed
  {
    var p := RunImport(o, HookOf(c), Run(s, map[], EmptyMap()), mapped).processed;
    assert ArrayUnion(map[], p) == p;
  }

  class ImportCommand {
    var processedPosts: map<int, int>
    var doRedirect: bool
    var redirectionGroupId: int
    var homeUrlDomain: string

    function State(): CommandState
      reads this
    {
      CommandState(processedPosts, doRedirect, redirectionGroupId, homeUrlDomain)
    }

    constructor()
      ensures State() == CommandState(map[], false, 0, "")
    {
      processedPosts := map[];
      doRedirect := false;
      redirectionGroupId := 0;
      homeUrlDomain := "";
    }

    /**
     * __invoke, given the home URL, the do-redirect flag's value, whether
     * the Redirection plugin's classes exist, and the mapped rows.
     */
    method Invoke(host: Host, homeUrl: string, postType: Value, flag: Value, redirectionActive: bool, mapped: seq<Record>)
      returns (outcome: Outcome)
      modifies this, host
      ensures (outcome, State(), host.State())
              == InvokeSpec(host.o, old(State()), old(host.State()), homeUrl, flag, redirectionActive, mapped)
    {
      homeUrlDomain := RemoveHttp(homeUrl);
      if flag == Bool(true) {
        if !redirectionActive {
          return RedirectionUnavailable;
        }
        doRedirect := true;
        redirectionGroupId := GetRedirectionGroupId(host);
      }
      assert (State(), host.State()) == Prepared(host.o, old(State()), old(host.State()), homeUrl, flag);
      ImportFromDb(host, postType, mapped);
      return Completed;
    }

    method ImportFromDb(host: Host, postType: Value, mapped: seq<Record>)
      modifies this, host
      ensures (State(), host.State()) == ImportFromDbSpec(host.o, old(State()), old(host.State()), mapped)
    {
      var controller := new ImportController(postType);
      controller.processedPosts := processedPosts;
      controller.Import(host, HookOf(State()), mapped);
      processedPosts := ArrayUnion(processedPosts, controller.processedPosts);
    }
  }
}
