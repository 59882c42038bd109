/**
 * The command's listener on 'db2wp_import_insert_post'
 * (src/Command/DB2WP_Import_Command.php): after each wp_insert_post it
 * creates the redirect, imports the media the content refers to and writes
 * the rewritten content back, and every 500th record it clears the object
 * cache. The action hands the listener the raw record, which is what its
 * fourth parameter receives.
 */
module Listener {
  import opened Php
  import opened WordPress
  import opened Media
  import opened Redirection

  /** The command's fields the listener reads. */
  datatype Settings = Settings(doRedirect: bool, groupId: int, homeDomain: string)

  /** Every this many records the object cache is cleared. */
  const CacheClearInterval := 500

  /** isset($post['post_content']) && '' != $post['post_content']. */
  predicate HasContent(post: Record) {
    var v := Field(post, "post_content");
    v != Null && !LooseEqualsWord(v, "")
  }

  /** The content with its images, then its linked documents, imported. */
  function ImportContent(o: Oracles, home: string, pid: int, log: seq<Effect>, content: string): (r: (seq<Effect>, string))
    ensures log <= r.0
  {
    var (log1, c1) := SideloadImgTagsSpec(o, home, pid, log, content);
    SideloadFilesSpec(o, home, pid, log1, c1)
  }

  /** Content whose references are all on the home domain is imported unchanged, with nothing written. */
  lemma LocalContentUnchanged(o: Oracles, home: string, pid: int, log: seq<Effect>, content: string)
    requires forall i :: 0 <= i < |ImageRefs(o, content)| ==> IsLocal(o, home, RefUrl(ImageRefs(o, content)[i]))
    requires forall h :: h in o.linkHrefs(content) ==> IsLocal(o, home, h)
    ensures ImportContent(o, home, pid, log, content) == (log, content)
  {
    LocalImagesUnchanged(o, home, pid, log, content);
    LocalFilesUnchanged(o, home, pid, log, content);
  }

  /** The work done for an inserted post: the redirect, then the content. */
  function Imported(o: Oracles, settings: Settings, s: Site, pid: int, post: Record): (r: Site)
    ensures r.groups == s.groups && s.log <= r.log
    ensures !settings.doRedirect ==> r.items == s.items
    ensures !HasContent(post) ==> r.log == s.log
    ensures HasContent(post) ==> |r.log| > |s.log| && r.log[|r.log| - 1].PostContentUpdated?
                                 && r.log[|r.log| - 1].contentPost == pid
  {
    var s1 := if settings.doRedirect then HandleDoRedirectSpec(o, s, settings.groupId, pid, post) else s;
    if HasContent(post) then
      var (log2, c) := ImportContent(o, settings.homeDomain, pid, s1.log, ToString(Field(post, "post_content")));
      s1.(log := log2 + [PostContentUpdated(pid, c)])
    else s1
  }

  /**
   * The listener: the insert's work when it succeeded, then the cache clear
   * when the record counter is a multiple of 500, whatever the insert gave.
   */
  function AfterInsert(o: Oracles, settings: Settings, s: Site, result: InsertResult, post: Record, count: int): (r: Site)
    ensures r.groups == s.groups && s.log <= r.log
    ensures result.InsertError? || !settings.doRedirect ==> r.items == s.items
    ensures count % CacheClearInterval == 0 ==> |r.log| > |s.log| && r.log[|r.log| - 1] == ObjectCacheCleared
    ensures count % CacheClearInterval != 0 ==>
              r == match result
                   case InsertError => s
                   case Inserted(pid) => Imported(o, settings, s, pid, post)
  {
    var s1 := match result
      case InsertError => s
      case Inserted(pid) => Imported(o, settings, s, pid, post);
    if count % CacheClearInterval == 0 then Emit(s1, ObjectCacheCleared) else s1
  }

  /** A failed insert leaves the site as it was, except for the periodic cache clear. */
  lemma FailedInsertOnlyClears(o: Oracles, settings: Settings, s: Site, post: Record, count: int)
    ensures AfterInsert(o, settings, s, InsertError, post, count)
            == if count % CacheClearInterval == 0 then Emit(s, ObjectCacheCleared) else s
  {
  }

  /**
   * A post with local-only content and no redirect gets its content written
   * back unchanged, and nothing else.
   */
  lemma LocalPostWrittenBack(o: Oracles, settings: Settings, s: Site, pid: int, post: Record)
    requires !settings.doRedirect && HasContent(post)
    requires var c := ToString(Field(post, "post_content"));
             (forall i :: 0 <= i < |ImageRefs(o, c)| ==> IsLocal(o, settings.homeDomain, RefUrl(ImageRefs(o, c)[i])))
             && (forall h :: h in o.linkHrefs(c) ==> IsLocal(o, settings.homeDomain, h))
    ensures Imported(o, settings, s, pid, post)
            == Emit(s, PostContentUpdated(pid, ToString(Field(post, "post_content"))))
  {
    LocalContentUnchanged(o, settings.homeDomain, pid, s.log, ToString(Field(post, "post_content")));
  }

  /** The listener against the site. */
  method OnInsertPost(host: Host, settings: Settings, result: InsertResult, post: Record, count: int)
    modifies host
    ensures host.State() == AfterInsert(host.o, settings, old(host.State()), result, post, count)
  {
    if result.Inserted? {
      var pid := result.id;
      if settings.doRedirect {
        HandleDoRedirect(host, settings.groupId, pid, post);
      }
      if HasContent(post) {
        var content := SideloadImgTags(host, settings.homeDomain, pid, ToString(Field(post, "post_content")));
        content := SideloadATagFiles(host, settings.homeDomain, pid, content);
        host.Do(PostContentUpdated(pid, content));
      }
    }
    if count % CacheClearInterval == 0 {
      host.Do(ObjectCacheCleared);
    }
  }
}
