/**
 * The bridge to the Redirection plugin (src/Command/DB2WP_Import_Command.php):
 * finding or creating the importer's redirect group, building the source of
 * a redirect from the record, and adding a 301 rule only when none exists
 * for that source.
 */
module Redirection {
  import opened Php
  import opened WordPress

  const GroupName := "db2wpmigration"
  const RedirectCode := 301

  // ---------------------------------------------------------------------------
  // The importer's group

  /** The id of the first group with the given name. */
  function FirstGroupId(groups: seq<RedirectGroup>, name: string): (r: Option<int>)
    ensures r.None? <==> forall i :: 0 <= i < |groups| ==> groups[i].name != name
    ensures r.Some? ==> exists i :: 0 <= i < |groups| && groups[i].name == name && groups[i].id == r.value
                                    && forall j :: 0 <= j < i ==> groups[j].name != name
  {
    if groups == [] then None
    else if groups[0].name == name then Some(groups[0].id)
    else
      var r := FirstGroupId(groups[1..], name);
      FirstGroupIdShift(groups, name, r);
      r
  }

  /** What holds of the table without its head, and a head of another name, holds of the table. */
  lemma FirstGroupIdShift(groups: seq<RedirectGroup>, name: string, r: Option<int>)
    requires groups != [] && groups[0].name != name
    requires r.None? <==> forall i :: 0 <= i < |groups| - 1 ==> groups[1..][i].name != name
    requires r.Some? ==> exists i :: 0 <= i < |groups| - 1 && groups[1..][i].name == name && groups[1..][i].id == r.value
                                     && forall j :: 0 <= j < i ==> groups[1..][j].name != name
    ensures r.None? <==> forall i :: 0 <= i < |groups| ==> groups[i].name != name
    ensures r.Some? ==> exists i :: 0 <= i < |groups| && groups[i].name == name && groups[i].id == r.value
                                    && forall j :: 0 <= j < i ==> groups[j].name != name
  {
    if r.Some? {
      var k :| 0 <= k < |groups| - 1 && groups[1..][k].name == name && groups[1..][k].id == r.value
               && forall j :: 0 <= j < k ==> groups[1..][j].name != name;
      assert groups[k + 1] == groups[1..][k];
      forall j | 0 <= j < k + 1 ensures groups[j].name != name {
        if j > 0 {
          assert groups[j] == groups[1..][j - 1];
        }
      }
    } else {
      forall i | 0 <= i < |groups| ensures groups[i].name != name {
        if i > 0 {
          assert groups[i] == groups[1..][i - 1];
        }
      }
    }
  }

  /** A scan of the group table for the first group with the given name. */
  method FindGroupId(groups: seq<RedirectGroup>, name: string) returns (r: Option<int>)
    ensures r == FirstGroupId(groups, name)
  {
    var i := 0;
    while i < |groups|
      invariant 0 <= i <= |groups|
      invariant FirstGroupId(groups[i..], name) == FirstGroupId(groups, name)
    {
      if groups[i].name == name {
        return Some(groups[i].id);
      }
      assert groups[i..][1..] == groups[i + 1..];
      i := i + 1;
    }
    return None;
  }

  /**
   * get_redirection_group_id: the id of the first group named
   * "db2wpmigration"; when there is none a group is created, and 0 is the
   * answer when creation fails. The second component is the new group table.
   */
  function GroupIdSpec(o: Oracles, groups: seq<RedirectGroup>): (r: (int, seq<RedirectGroup>))
    ensures FirstGroupId(groups, GroupName).Some? ==> r == (FirstGroupId(groups, GroupName).value, groups)
    ensures r.1 == groups || (FirstGroupId(groups, GroupName).None? && r.1 == groups + [RedirectGroup(r.0, GroupName)])
    ensures FirstGroupId(groups, GroupName).None? && o.createGroup(groups, GroupName).Some? ==>
              r == (o.createGroup(groups, GroupName).value, groups + [RedirectGroup(o.createGroup(groups, GroupName).value, GroupName)])
    ensures FirstGroupId(groups, GroupName).None? && o.createGroup(groups, GroupName).None? ==> r == (0, groups)
  {
    match FirstGroupId(groups, GroupName)
    case Some(id) => (id, groups)
    case None =>
      match o.createGroup(groups, GroupName)
      case Some(id) => (id, groups + [RedirectGroup(id, GroupName)])
      case None => (0, groups)
  }

  /** A group appended after a table without one of its name is the first of that name. */
  lemma FirstGroupIdAppend(groups: seq<RedirectGroup>, g: RedirectGroup)
    requires FirstGroupId(groups, g.name).None?
    ensures FirstGroupId(groups + [g], g.name) == Some(g.id)
  {
    var gs := groups + [g];
    var r := FirstGroupId(gs, g.name);
    assert gs[|groups|].name == g.name;
    var k :| 0 <= k < |gs| && gs[k].name == g.name && gs[k].id == r.value
             && forall j :: 0 <= j < k ==> gs[j].name != g.name;
    assert k == |groups|;
  }

  /** Asking for the group a second time finds the group the first call found or created, and creates none. */
  lemma GroupIdIdempotent(o: Oracles, groups: seq<RedirectGroup>)
    ensures GroupIdSpec(o, GroupIdSpec(o, groups).1) == GroupIdSpec(o, groups)
  {
    if FirstGroupId(groups, GroupName).None? {
      match o.createGroup(groups, GroupName)
      case Some(id) => FirstGroupIdAppend(groups, RedirectGroup(id, GroupName));
      case None =>
    }
  }

  method GetRedirectionGroupId(host: Host) returns (id: int)
    modifies host
    ensures (id, host.groups) == GroupIdSpec(host.o, old(host.groups))
    ensures host.log == old(host.log) && host.items == old(host.items)
  {
    var found := FindGroupId(host.groups, GroupName);
    if found.Some? {
      return found.value;
    }
    var created := host.o.createGroup(host.groups, GroupName);
    if created.Some? {
      host.groups := host.groups + [RedirectGroup(created.value, GroupName)];
      return created.value;
    }
    return 0;
  }

  // ---------------------------------------------------------------------------
  // Rules

  /** Some rule of the table redirects exactly this source. */
  predicate HasRuleFor(items: seq<RedirectItem>, source: string) {
    exists i :: 0 <= i < |items| && items[i].url == source
  }

  /** The existence check of create_redirect: a scan that stops at the first rule for the source. */
  method RedirectExists(items: seq<RedirectItem>, source: string) returns (found: bool)
    ensures found <==> HasRuleFor(items, source)
  {
    var i := 0;
    while i < |items|
      invariant 0 <= i <= |items|
      invariant forall j :: 0 <= j < i ==> items[j].url != source
    {
      if items[i].url == source {
        return true;
      }
      i := i + 1;
    }
    return false;
  }

  /**
   * create_redirect: a 301 rule from source to target in the group is added
   * when no rule for the source exists, the group id is not 0, and the
   * plugin accepts the rule.
   */
  function CreateRedirectSpec(o: Oracles, items: seq<RedirectItem>, source: string, target: string, groupId: int)
    : (r: seq<RedirectItem>)
    ensures r == items || (r == items + [RedirectItem(source, target, groupId, RedirectCode)]
                           && !HasRuleFor(items, source) && groupId != 0)
    ensures HasRuleFor(items, source) || groupId == 0 ==> r == items
    ensures var rule := RedirectItem(source, target, groupId, RedirectCode);
            !HasRuleFor(items, source) && groupId != 0 ==> (r == items + [rule] <==> o.createItem(items, rule))
  {
    var rule := RedirectItem(source, target, groupId, RedirectCode);
    if !HasRuleFor(items, source) && groupId != 0 && o.createItem(items, rule) then items + [rule] else items
  }

  /** Calling create_redirect twice for the same source adds at most one rule. */
  lemma CreateRedirectOnce(o: Oracles, items: seq<RedirectItem>, source: string, t1: string, t2: string, groupId: int)
    ensures var r1 := CreateRedirectSpec(o, items, source, t1, groupId);
            var r2 := CreateRedirectSpec(o, r1, source, t2, groupId);
            |r2| <= |items| + 1 && (r1 != items ==> r2 == r1)
  {
    var r1 := CreateRedirectSpec(o, items, source, t1, groupId);
    if r1 != items {
      assert r1[|items|].url == source;
      assert HasRuleFor(r1, source);
    }
  }

  method CreateRedirect(host: Host, source: string, target: string, groupId: int)
    modifies host
    ensures host.items == CreateRedirectSpec(host.o, old(host.items), source, target, groupId)
    ensures host.log == old(host.log) && host.groups == old(host.groups)
  {
    var known := RedirectExists(host.items, source);
    if !known && groupId != 0 {
      var rule := RedirectItem(source, target, groupId, RedirectCode);
      if host.o.createItem(host.items, rule) {
        host.items := host.items + [rule];
      }
    }
  }

  // ---------------------------------------------------------------------------
  // Source and target

  /** The redirect source: the URL path, with "?" + query only when the path is not empty. */
  function RedirectSource(path: string, query: string): (r: string)
    ensures EmptyString(path) <==> r == ""
    ensures !EmptyString(path) ==> StartsWith(r, path)
  {
    if !EmptyString(path) then
      PrefixConcat(path, if !EmptyString(query) then "?" + query else "");
      path + (if !EmptyString(query) then "?" + query else "")
    else ""
  }

  /** Splits a source at its first '?' into path and query. */
  function SplitSource(s: string): (string, string) {
    match FindFrom(s, "?", 0)
    case None => (s, "")
    case Some(i) => (s[..i], s[i + 1..])
  }

  /** A path without '?' and its truthy query are read back from the source. */
  lemma {:induction false} SourceRoundTrip(path: string, query: string)
    requires !EmptyString(path) && '?' !in path
    ensures SplitSource(RedirectSource(path, query)) == (path, if EmptyString(query) then "" else query)
  {
    var s := RedirectSource(path, query);
    forall j | 0 <= j < |path| ensures !OccursAt(s, "?", j) {
      assert s[j] == path[j];
    }
    if EmptyString(query) {
      assert s == path;
    } else {
      assert s == path + "?" + query;
      assert s[|path|..|path| + 1] == "?";
      FindFromFirst(s, "?", 0, |path|);
      assert s[|path| + 1..] == query;
    }
  }

  /**
   * handle_do_redirect: when the record carries do_redirect_source, a rule
   * from its path (and query) to the path of the new post's permalink is
   * created, provided both are truthy.
   */
  function HandleDoRedirectSpec(o: Oracles, s: Site, groupId: int, postId: int, postdata: Record): (r: Site)
    ensures r.log == s.log && r.groups == s.groups
    ensures Field(postdata, "do_redirect_source") == Null ==> r == s
    ensures var v := Field(postdata, "do_redirect_source");
            var source := RedirectSource(o.sourcePath(v), o.sourceQuery(v));
            var target := o.permalinkPath(s.log, postId);
            v != Null && !EmptyString(source) && !EmptyString(target) ==>
              r.items == CreateRedirectSpec(o, s.items, source, target, groupId)
  {
    var v := Field(postdata, "do_redirect_source");
    if v == Null then s
    else
      var source := RedirectSource(o.sourcePath(v), o.sourceQuery(v));
      var target := o.permalinkPath(s.log, postId);
      if !EmptyString(source) && !EmptyString(target) then
        s.(items := CreateRedirectSpec(o, s.items, source, target, groupId))
      else s
  }

  /** No rule is attempted when the source path or the permalink path is empty. */
  lemma NoRedirectWithoutPaths(o: Oracles, s: Site, groupId: int, postId: int, postdata: Record)
    requires var v := Field(postdata, "do_redirect_source");
             EmptyString(o.sourcePath(v)) || EmptyString(o.permalinkPath(s.log, postId))
    ensures HandleDoRedirectSpec(o, s, groupId, postId, postdata) == s
  {
  }

  method HandleDoRedirect(host: Host, groupId: int, postId: int, postdata: Record)
    modifies host
    ensures host.State() == HandleDoRedirectSpec(host.o, old(host.State()), groupId, postId, postdata)
  {
    var v := Field(postdata, "do_redirect_source");
    if v != Null {
      var source := RedirectSource(host.o.sourcePath(v), host.o.sourceQuery(v));
      var target := host.o.permalinkPath(host.log, postId);
      if !EmptyString(source) && !EmptyString(target) {
        CreateRedirect(host, source, target, groupId);
      }
    }
  }
}
