/**
 * The import controller (src/Controller/DB2WP_Import_Controller.php): for
 * each mapped record it decides whether to skip it, map it to an existing
 * post or insert it; it keeps the external-id to post-id map, sets the
 * terms grouped per taxonomy, adds the metas, notes featured images, and
 * after the batch remaps the featured images against the final id map.
 */
module Controller {
  import opened Php
  import opened WordPress
  import opened Listener

  /** The keys wp_insert_post gets a null default for. */
  const DefaultKeys: seq<string> := [
    "import_id", "post_author", "post_date", "post_date_gmt", "post_content", "post_excerpt",
    "post_title", "post_status", "post_name", "comment_status", "ping_status", "guid",
    "post_parent", "menu_order", "post_type", "post_password"]

  const ThumbnailKey := "_thumbnail_id"

  function Defaults(): (r: map<string, Value>)
    ensures forall k :: k in r <==> k in DefaultKeys
    ensures forall k :: k in r ==> r[k] == Null
  {
    map k | k in DefaultKeys :: Null
  }

  /** The record merged over the defaults, as handed (slashed) to wp_insert_post. */
  function PostData(post: Record): (r: Record)
    ensures r.terms == post.terms && r.postmeta == post.postmeta
    ensures forall k :: k in post.fields ==> k in r.fields && r.fields[k] == post.fields[k]
    ensures forall k :: k in DefaultKeys && k !in post.fields ==> k in r.fields && r.fields[k] == Null
    ensures forall k :: k in r.fields ==> k in post.fields || k in DefaultKeys
  {
    post.(fields := ParseArgs(post.fields, Defaults()))
  }

  /** The state process_posts works on: the site, processed_posts and featured_images. */
  datatype Run = Run(site: Site, processed: map<int, int>, featured: OrderedMap<int, int>)

  /** No listener creates redirect rules. */
  predicate NoRedirects(hook: Option<Settings>) {
    hook.None? || !hook.value.doRedirect
  }

  /**
   * The record's id is already a key of the map, and is not empty: an empty
   * id is never a duplicate, and a duplicate's intval() is the key that
   * isset() found.
   */
  predicate IsDuplicate(processed: map<int, int>, id: Value): (r: bool)
    ensures Empty(id) ==> !r
    ensures r ==> IntVal(id) in processed
  {
    IssetInt(processed, id) && !Empty(id)
  }

  /**
   * get_post_type($existing) == $post['post_type'], false standing for no
   * post: a found type is compared with the string form of a non-boolean
   * post type, and no post matches exactly the empty post types.
   */
  predicate SameType(found: Option<string>, postType: Value): (r: bool)
    ensures found.Some? && !postType.Bool? ==> (r <==> ToString(postType) == found.value)
    ensures found.None? ==> (r <==> Empty(postType))
  {
    match found
    case None => Empty(postType)
    case Some(t) => LooseEqualsWord(postType, t)
  }

  /** The record is not skipped and no existing post of its type takes it: it is inserted. */
  predicate ReachesInsert(o: Oracles, log: seq<Effect>, processed: map<int, int>, post: Record) {
    var existing := o.postExists(log, Field(post, "post_title"));
    o.postTypeExists(log, Field(post, "post_type"))
    && !IsDuplicate(processed, Field(post, "extdb_id"))
    && !(existing != 0 && SameType(o.postTypeOf(log, existing), Field(post, "post_type")))
  }

  function InsertOf(o: Oracles, log: seq<Effect>, post: Record): InsertResult {
    o.insertPost(log, o.slash(PostData(post)))
  }

  function TermsOf(post: Record): seq<(string, seq<string>)> {
    match post.terms
    case None => []
    case Some(t) => t
  }

  function MetasOf(post: Record): seq<Meta> {
    match post.postmeta
    case None => []
    case Some(m) => m
  }

  // ---------------------------------------------------------------------------
  // Terms

  /** $terms_to_set: term ids per taxonomy, taxonomies in first-seen order. */
  type TermGroups = OrderedMap<string, seq<int>>

  /** The ids collected so far for a taxonomy. */
  function GroupOf(g: TermGroups, tax: string): seq<int> {
    if tax in g.values then g.values[tax] else []
  }

  /** $terms_to_set[$taxonomy][] = $id. */
  function AddTermId(g: TermGroups, tax: string, id: int): (r: TermGroups)
    requires g.Valid()
    ensures r.Valid()
    ensures GroupOf(r, tax) == GroupOf(g, tax) + [id]
    ensures forall t :: t != tax ==> GroupOf(r, t) == GroupOf(g, t)
  {
    Put(g, tax, GroupOf(g, tax) + [id])
  }

  /**
   * One term name: the term with its sanitize_title slug is reused when it
   * exists in the taxonomy, otherwise created with that slug; a failed
   * creation drops the name.
   */
  function TermStep(o: Oracles, st: (seq<Effect>, TermGroups), tax: string, name: string): (r: (seq<Effect>, TermGroups))
    requires st.1.Valid()
    ensures r.1.Valid()
    ensures var id := o.termExists(st.0, o.sanitizeTitle(name), tax);
            id != 0 ==> r == (st.0, AddTermId(st.1, tax, id))
    ensures var slug := o.sanitizeTitle(name);
            o.termExists(st.0, slug, tax) == 0 ==>
              r.0 == st.0 + [TermInserted(name, tax, slug, o.insertTerm(st.0, name, tax, slug))]
              && (o.insertTerm(st.0, name, tax, slug).TermError? ==> r.1 == st.1)
              && (o.insertTerm(st.0, name, tax, slug).TermCreated? ==>
                    r.1 == AddTermId(st.1, tax, o.insertTerm(st.0, name, tax, slug).termId))
  {
    var slug := o.sanitizeTitle(name);
    var existing := o.termExists(st.0, slug, tax);
    if existing != 0 then (st.0, AddTermId(st.1, tax, existing))
    else
      var t := o.insertTerm(st.0, name, tax, slug);
      var log1 := st.0 + [TermInserted(name, tax, slug, t)];
      match t
      case TermCreated(id) => (log1, AddTermId(st.1, tax, id))
      case TermError => (log1, st.1)
  }

  /** The names of one taxonomy, in order. */
  function NameSteps(o: Oracles, st: (seq<Effect>, TermGroups), tax: string, names: seq<string>): (r: (seq<Effect>, TermGroups))
    requires st.1.Valid()
    ensures r.1.Valid() && st.0 <= r.0
    decreases |names|
  {
    if names == [] then st
    else TermStep(o, NameSteps(o, st, tax, names[..|names| - 1]), tax, names[|names| - 1])
  }

  /** Every taxonomy of the record, in order. */
  function TaxonomySteps(o: Oracles, st: (seq<Effect>, TermGroups), terms: seq<(string, seq<string>)>): (r: (seq<Effect>, TermGroups))
    requires st.1.Valid()
    ensures r.1.Valid() && st.0 <= r.0
    decreases |terms|
  {
    if terms == [] then st
    else NameSteps(o, TaxonomySteps(o, st, terms[..|terms| - 1]), terms[|terms| - 1].0, terms[|terms| - 1].1)
  }

  /** One wp_set_post_terms per collected taxonomy, each taxonomy once. */
  function SetTermsEffects(pid: int, g: TermGroups): (r: seq<Effect>)
    requires g.Valid()
    ensures |r| == |g.keys|
    ensures forall i :: 0 <= i < |r| ==> r[i] == PostTermsSet(pid, g.values[g.keys[i]], g.keys[i])
    ensures forall i, j :: 0 <= i < j < |r| ==> r[i].taxonomy != r[j].taxonomy
  {
    seq(|g.keys|, i requires 0 <= i < |g.keys| => PostTermsSet(pid, g.values[g.keys[i]], g.keys[i]))
  }

  /**
   * The log after the record's terms are resolved and set: the term lookups
   * and inserts of every taxonomy, then one wp_set_post_terms per taxonomy
   * collected.
   */
  function AttachTerms(o: Oracles, pid: int, log: seq<Effect>, terms: seq<(string, seq<string>)>): (r: seq<Effect>)
    ensures log <= r
    ensures terms == [] ==> r == log
    ensures var g := TaxonomySteps(o, (log, EmptyMap()), terms);
            terms != [] ==> r == g.0 + SetTermsEffects(pid, g.1)
  {
    if terms == [] then log
    else
      var (log1, g) := TaxonomySteps(o, (log, EmptyMap()), terms);
      log1 + SetTermsEffects(pid, g)
  }

  /** The number of failed term inserts in a stretch of the log. */
  function FailedTermInserts(effects: seq<Effect>): nat
    decreases |effects|
  {
    if effects == [] then 0
    else
      var e := effects[|effects| - 1];
      FailedTermInserts(effects[..|effects| - 1]) + (if e.TermInserted? && e.termResult.TermError? then 1 else 0)
  }

  lemma FailedTermInsertsSnoc(effects: seq<Effect>, e: Effect)
    ensures FailedTermInserts(effects + [e]) == FailedTermInserts(effects) + (if e.TermInserted? && e.termResult.TermError? then 1 else 0)
  {
    assert (effects + [e])[..|effects|] == effects;
  }

  /**
   * The names of one taxonomy: every name adds one id to that taxonomy's
   * list, after the ids collected before, except a name whose term insert
   * failed; no other taxonomy's list changes.
   */
  lemma {:induction false} NameStepsCollect(o: Oracles, st: (seq<Effect>, TermGroups), tax: string, names: seq<string>)
    requires st.1.Valid()
    ensures var r := NameSteps(o, st, tax, names);
            |GroupOf(r.1, tax)| + FailedTermInserts(r.0[|st.0|..]) == |GroupOf(st.1, tax)| + |names|
            && GroupOf(st.1, tax) <= GroupOf(r.1, tax)
            && forall t :: t != tax ==> GroupOf(r.1, t) == GroupOf(st.1, t)
    decreases |names|
  {
    if names == [] {
      assert st.0[|st.0|..] == [];
    } else {
      var front := names[..|names| - 1];
      NameStepsCollect(o, st, tax, front);
      var mid := NameSteps(o, st, tax, front);
      var r := TermStep(o, mid, tax, names[|names| - 1]);
      if r.0 == mid.0 {
        assert r.0[|st.0|..] == mid.0[|st.0|..];
      } else {
        var e := r.0[|r.0| - 1];
        assert r.0 == mid.0 + [e];
        assert r.0[|st.0|..] == mid.0[|st.0|..] + [e];
        FailedTermInsertsSnoc(mid.0[|st.0|..], e);
      }
    }
  }

  /** The ids of names whose terms all exist. */
  function ExistingIds(o: Oracles, log: seq<Effect>, tax: string, names: seq<string>): (r: seq<int>)
    ensures |r| == |names|
    decreases |names|
  {
    if names == [] then []
    else ExistingIds(o, log, tax, names[..|names| - 1]) + [o.termExists(log, o.sanitizeTitle(names[|names| - 1]), tax)]
  }

  /** When every name of a taxonomy has a term, those terms are reused in input order and nothing is written. */
  lemma {:induction false} ExistingTermsInOrder(o: Oracles, st: (seq<Effect>, TermGroups), tax: string, names: seq<string>)
    requires st.1.Valid()
    requires forall i :: 0 <= i < |names| ==> o.termExists(st.0, o.sanitizeTitle(names[i]), tax) != 0
    ensures NameSteps(o, st, tax, names).0 == st.0
    ensures GroupOf(NameSteps(o, st, tax, names).1, tax) == GroupOf(st.1, tax) + ExistingIds(o, st.0, tax, names)
    decreases |names|
  {
    if names != [] {
      var front := names[..|names| - 1];
      var last := names[|names| - 1];
      ExistingTermsInOrder(o, st, tax, front);
      var mid := NameSteps(o, st, tax, front);
      assert o.termExists(mid.0, o.sanitizeTitle(last), tax) != 0;
    }
  }

  // ---------------------------------------------------------------------------
  // Metas

  /**
   * One meta: added when its key is truthy; a '_thumbnail_id' key also
   * notes the (int) of the value as the post's featured image.
   */
  function MetaStep(o: Oracles, pid: int, st: (seq<Effect>, OrderedMap<int, int>), m: Meta): (r: (seq<Effect>, OrderedMap<int, int>))
    requires st.1.Valid()
    ensures r.1.Valid()
    ensures Empty(m.key) ==> r == st
    ensures !Empty(m.key) ==> r.0 == st.0 + [PostMetaAdded(pid, m.key, o.maybeUnserialize(m.value))]
    ensures !LooseEqualsWord(m.key, ThumbnailKey) ==> r.1 == st.1
  {
    var value := o.maybeUnserialize(m.value);
    if Empty(m.key) then st
    else
      (st.0 + [PostMetaAdded(pid, m.key, value)],
       if LooseEqualsWord(m.key, ThumbnailKey) then Put(st.1, pid, IntVal(value)) else st.1)
  }

  function MetaSteps(o: Oracles, pid: int, st: (seq<Effect>, OrderedMap<int, int>), metas: seq<Meta>): (r: (seq<Effect>, OrderedMap<int, int>))
    requires st.1.Valid()
    ensures r.1.Valid() && st.0 <= r.0
    decreases |metas|
  {
    if metas == [] then st
    else MetaStep(o, pid, MetaSteps(o, pid, st, metas[..|metas| - 1]), metas[|metas| - 1])
  }

  /** A meta that is noted as featured image. */
  predicate IsThumbnailMeta(m: Meta) {
    !Empty(m.key) && LooseEqualsWord(m.key, ThumbnailKey)
  }

  /** The last '_thumbnail_id' meta of a record decides its featured image. */
  lemma {:induction false} LastThumbnailWins(o: Oracles, pid: int, st: (seq<Effect>, OrderedMap<int, int>), metas: seq<Meta>, k: nat)
    requires st.1.Valid()
    requires k < |metas| && IsThumbnailMeta(metas[k])
    requires forall j :: k < j < |metas| ==> !IsThumbnailMeta(metas[j])
    ensures var f := MetaSteps(o, pid, st, metas).1;
            pid in f.values && f.values[pid] == IntVal(o.maybeUnserialize(metas[k].value))
    decreases |metas|
  {
    var front := metas[..|metas| - 1];
    if k < |metas| - 1 {
      LastThumbnailWins(o, pid, st, front, k);
    }
  }

  // ---------------------------------------------------------------------------
  // One record, the batch

  /**
   * One record of process_posts; count is the listener's record counter,
   * the record's position in the batch counting from 1.
   */
  function ProcessPost(o: Oracles, hook: Option<Settings>, st: Run, post: Record, count: int): (r: Run)
    requires st.featured.Valid()
    ensures r.featured.Valid()
    ensures st.site.log <= r.site.log && r.site.groups == st.site.groups
    ensures NoRedirects(hook) ==> r.site.items == st.site.items
    ensures var log := st.site.log;
            !o.postTypeExists(log, Field(post, "post_type")) || IsDuplicate(st.processed, Field(post, "extdb_id")) ==> r == st
    ensures var log := st.site.log;
            var existing := o.postExists(log, Field(post, "post_title"));
            o.postTypeExists(log, Field(post, "post_type")) && !IsDuplicate(st.processed, Field(post, "extdb_id"))
            && existing != 0 && SameType(o.postTypeOf(log, existing), Field(post, "post_type"))
            ==> r == st.(processed := st.processed[IntVal(Field(post, "extdb_id")) := existing])
    ensures ReachesInsert(o, st.site.log, st.processed, post) ==>
              match InsertOf(o, st.site.log, post)
              case InsertError => r.processed == st.processed && r.featured == st.featured
              case Inserted(pid) => r.processed == st.processed[IntVal(Field(post, "extdb_id")) := pid]
    ensures ReachesInsert(o, st.site.log, st.processed, post) && InsertOf(o, st.site.log, post).InsertError? ==>
              r.site == FailedInsertSite(o, hook, st.site, post, count)
  {
    var log := st.site.log;
    var postType := Field(post, "post_type");
    var id := Field(post, "extdb_id");
    if !o.postTypeExists(log, postType) then st
    else if IsDuplicate(st.processed, id) then st
    else
      var existing := o.postExists(log, Field(post, "post_title"));
      if existing != 0 && SameType(o.postTypeOf(log, existing), postType) then
        st.(processed := st.processed[IntVal(id) := existing])
      else InsertRecord(o, hook, st, post, count)
  }

  /**
   * A record that reaches wp_insert_post: the insert, the listener, then on
   * success the id mapping, the terms and the metas.
   */
  function InsertRecord(o: Oracles, hook: Option<Settings>, st: Run, post: Record, count: int): (r: Run)
    requires st.featured.Valid()
    ensures r.featured.Valid()
    ensures st.site.log <= r.site.log && r.site.groups == st.site.groups
    ensures NoRedirects(hook) ==> r.site.items == st.site.items
    ensures match InsertOf(o, st.site.log, post)
            case InsertError => r.processed == st.processed && r.featured == st.featured
            case Inserted(pid) => r.processed == st.processed[IntVal(Field(post, "extdb_id")) := pid]
    ensures InsertOf(o, st.site.log, post).InsertError? ==> r.site == FailedInsertSite(o, hook, st.site, post, count)
  {
    var result := InsertOf(o, st.site.log, post);
    var s1 := Emit(st.site, PostInserted(o.slash(PostData(post)), result));
    var s2 := if hook.Some? then AfterInsert(o, hook.value, s1, result, post, count) else s1;
    match result
    case InsertError => st.(site := s2)
    case Inserted(pid) =>
      var (log4, featured) := TermsAndMetas(o, pid, s2.log, st.featured, post);
      Run(s2.(log := log4), st.processed[IntVal(Field(post, "extdb_id")) := pid], featured)
  }

  /**
   * The site after a failed wp_insert_post: the attempted insert, then only
   * the listener's periodic cache clear; no mapping, term or meta is written.
   */
  function FailedInsertSite(o: Oracles, hook: Option<Settings>, s: Site, post: Record, count: int): Site {
    Site(s.log + [PostInserted(o.slash(PostData(post)), InsertError)]
           + (if hook.Some? && count % CacheClearInterval == 0 then [ObjectCacheCleared] else []),
         s.items, s.groups)
  }

  /** The terms, then the metas, of an inserted record. */
  function TermsAndMetas(o: Oracles, pid: int, log: seq<Effect>, featured: OrderedMap<int, int>, post: Record)
    : (r: (seq<Effect>, OrderedMap<int, int>))
    requires featured.Valid()
    ensures log <= r.0 && r.1.Valid()
  {
    var log3 := AttachTerms(o, pid, log, TermsOf(post));
    MetaSteps(o, pid, (log3, featured), MetasOf(post))
  }

  /**
   * A record with an empty extdb_id (null, false, 0, "" or "0") is never a
   * duplicate, and whatever it maps to is written under the key 0.
   */
  lemma EmptyIdWritesKeyZero(o: Oracles, hook: Option<Settings>, st: Run, post: Record, count: int)
    requires st.featured.Valid()
    requires Empty(Field(post, "extdb_id"))
    ensures !IsDuplicate(st.processed, Field(post, "extdb_id"))
    ensures var r := ProcessPost(o, hook, st, post, count);
            r.processed == st.processed || (0 in r.processed && r.processed == st.processed[0 := r.processed[0]])
  {
  }

  /** The records of the batch in order, the i-th with counter i + 1. */
  function ProcessAll(o: Oracles, hook: Option<Settings>, st: Run, posts: seq<Record>): (r: Run)
    requires st.featured.Valid()
    ensures r.featured.Valid()
    ensures st.site.log <= r.site.log && r.site.groups == st.site.groups
    ensures NoRedirects(hook) ==> r.site.items == st.site.items
    ensures st.processed.Keys <= r.processed.Keys
    decreases |posts|
  {
    if posts == [] then st
    else ProcessPost(o, hook, ProcessAll(o, hook, st, posts[..|posts| - 1]), posts[|posts| - 1], |posts|)
  }

  lemma ProcessAllNext(o: Oracles, hook: Option<Settings>, st: Run, posts: seq<Record>, i: nat)
    requires st.featured.Valid() && i < |posts|
    ensures ProcessAll(o, hook, st, posts[..i + 1]) == ProcessPost(o, hook, ProcessAll(o, hook, st, posts[..i]), posts[i], i + 1)
  {
    assert posts[..i + 1][..i] == posts[..i];
  }

  // ---------------------------------------------------------------------------
  // Featured images and the run

  /** The update for one featured image: when its value was imported under another id. */
  function RemapOne(pid: int, value: int, processed: map<int, int>): seq<Effect> {
    if value in processed && processed[value] != value then [ThumbnailUpdated(pid, processed[value])] else []
  }

  /** The updates of remap_featured_images, in the order of the featured images. */
  function RemapUpdates(keys: seq<int>, values: map<int, int>, processed: map<int, int>): (r: seq<Effect>)
    requires forall k :: k in keys ==> k in values
    ensures |r| <= |keys|
    ensures forall e :: e in r ==> e.ThumbnailUpdated?
    decreases |keys|
  {
    if keys == [] then []
    else
      var n := |keys|;
      RemapUpdates(keys[..n - 1], values, processed) + RemapOne(keys[n - 1], values[keys[n - 1]], processed)
  }

  /**
   * Exactly the featured images whose value is a key of processed_posts
   * mapping to another id are updated, to that id.
   */
  lemma {:induction false} RemapExactly(keys: seq<int>, values: map<int, int>, processed: map<int, int>, pid: int, id: int)
    requires forall k :: k in keys ==> k in values
    ensures ThumbnailUpdated(pid, id) in RemapUpdates(keys, values, processed)
            <==> pid in keys && values[pid] in processed && processed[values[pid]] == id && id != values[pid]
    decreases |keys|
  {
    if keys != [] {
      var n := |keys|;
      var front := keys[..n - 1];
      RemapExactly(front, values, processed, pid, id);
      assert keys == front + [keys[n - 1]];
      assert forall k :: k in keys <==> k in front || k == keys[n - 1];
    }
  }

  /** The writes of import_end, given the taxonomies it finds. */
  function EndEffects(taxonomies: seq<string>): (r: seq<Effect>)
    ensures |r| == |taxonomies| + 3 && r[0] == ObjectCacheFlushed
    ensures r[|r| - 2..] == [TermCountingDeferred(false), CommentCountingDeferred(false)]
    ensures forall i :: 1 <= i < |r| - 2 ==> r[i] == TermHierarchyRebuilt(taxonomies[i - 1])
  {
    var rebuilds := HierarchyRebuilds(taxonomies);
    var r := [ObjectCacheFlushed] + rebuilds + [TermCountingDeferred(false), CommentCountingDeferred(false)];
    assert forall i :: 1 <= i < |r| - 2 ==> r[i] == rebuilds[i - 1];
    r
  }

  lemma HierarchyRebuildsNext(taxonomies: seq<string>, i: int)
    requires 0 <= i < |taxonomies|
    ensures HierarchyRebuilds(taxonomies[..i + 1]) == HierarchyRebuilds(taxonomies[..i]) + [TermHierarchyRebuilt(taxonomies[i])]
  {
    assert taxonomies[..i + 1][..i] == taxonomies[..i];
  }

  lemma EndEffectsLog(log: seq<Effect>, taxonomies: seq<string>)
    ensures log + [ObjectCacheFlushed] + HierarchyRebuilds(taxonomies) + [TermCountingDeferred(false)] + [CommentCountingDeferred(false)]
            == log + EndEffects(taxonomies)
  {
  }

  /** One hierarchy rebuild per taxonomy, in order. */
  function HierarchyRebuilds(taxonomies: seq<string>): (r: seq<Effect>)
    ensures |r| == |taxonomies|
    ensures forall i :: 0 <= i < |r| ==> r[i] == TermHierarchyRebuilt(taxonomies[i])
  {
    if taxonomies == [] then []
    else HierarchyRebuilds(taxonomies[..|taxonomies| - 1]) + [TermHierarchyRebuilt(taxonomies[|taxonomies| - 1])]
  }

  /** import_end: the cache flush, the hierarchy rebuilds, then counting restored. */
  function ImportEndSpec(o: Oracles, s: Site): (r: Site)
    ensures r.items == s.items && r.groups == s.groups && s.log <= r.log
  {
    Site(s.log + EndEffects(o.taxonomies(s.log + [ObjectCacheFlushed])), s.items, s.groups)
  }

  /**
   * import_end writes in order: the object cache flush, the hierarchy
   * rebuild of each taxonomy listed after the flush, then term and comment
   * counting restored.
   */
  lemma ImportEndOrder(o: Oracles, s: Site)
    ensures var r := ImportEndSpec(o, s);
            var taxonomies := o.taxonomies(s.log + [ObjectCacheFlushed]);
            |r.log| == |s.log| + |taxonomies| + 3 && r.log[|s.log|] == ObjectCacheFlushed
            && (forall i :: 0 <= i < |taxonomies| ==> r.log[|s.log| + 1 + i] == TermHierarchyRebuilt(taxonomies[i]))
            && r.log[|r.log| - 2..] == [TermCountingDeferred(false), CommentCountingDeferred(false)]
  {
    EndEffectsAppended(s.log, o.taxonomies(s.log + [ObjectCacheFlushed]));
  }

  lemma EndEffectsAppended(log: seq<Effect>, taxonomies: seq<string>)
    ensures log <= log + EndEffects(taxonomies)
    ensures var r := log + EndEffects(taxonomies);
            |r| == |log| + |taxonomies| + 3 && r[|log|] == ObjectCacheFlushed
            && (forall i :: 0 <= i < |taxonomies| ==> r[|log| + 1 + i] == TermHierarchyRebuilt(taxonomies[i]))
            && r[|r| - 2..] == [TermCountingDeferred(false), CommentCountingDeferred(false)]
  {
    var e := EndEffects(taxonomies);
    var r := log + e;
    assert r[..|log|] == log;
    forall i | 0 <= i < |taxonomies| ensures r[|log| + 1 + i] == TermHierarchyRebuilt(taxonomies[i]) {
      assert r[|log| + 1 + i] == e[1 + i];
    }
    assert r[|r| - 2..] == e[|e| - 2..];
  }

  /**
   * import: counting deferred, cache invalidation suspended around
   * process_posts only, featured images remapped after the whole batch, and
   * counting restored at the end.
   */
  function RunImport(o: Oracles, hook: Option<Settings>, st: Run, mapped: seq<Record>): (r: Run)
    requires st.featured.Valid()
    ensures r.featured.Valid()
    ensures r.site.groups == st.site.groups && st.processed.Keys <= r.processed.Keys
    ensures NoRedirects(hook) ==> r.site.items == st.site.items
  {
    var s1 := Emit(Emit(st.site, TermCountingDeferred(true)), CommentCountingDeferred(true));
    var s2 := Emit(s1, CacheInvalidationSuspended(true));
    var p := ProcessAll(o, hook, st.(site := s2), mapped);
    var s3 := Emit(p.site, CacheInvalidationSuspended(false));
    var updates := RemapUpdates(p.featured.keys, p.featured.values, p.processed);
    var s4 := s3.(log := s3.log + updates);
    Run(ImportEndSpec(o, s4), p.processed, p.featured)
  }

  /**
   * The phases of an import in its log: counting deferred and cache
   * invalidation suspended first; once invalidation is re-enabled no post is
   * inserted, and the featured images are remapped right after it against
   * the final id map of the whole batch; counting restored last.
   */
  lemma RunImportOrder(o: Oracles, hook: Option<Settings>, st: Run, mapped: seq<Record>)
    requires st.featured.Valid()
    ensures var r := RunImport(o, hook, st, mapped);
            var n := |st.site.log|;
            |r.site.log| >= n + 3
            && r.site.log[..n + 3] == st.site.log + [TermCountingDeferred(true), CommentCountingDeferred(true), CacheInvalidationSuspended(true)]
    ensures var r := RunImport(o, hook, st, mapped);
            var updates := RemapUpdates(r.featured.keys, r.featured.values, r.processed);
            exists k :: |st.site.log| + 3 <= k < |r.site.log| && r.site.log[k] == CacheInvalidationSuspended(false)
                        && k + 1 + |updates| <= |r.site.log| && r.site.log[k + 1..k + 1 + |updates|] == updates
                        && forall j :: k < j < |r.site.log| ==> !r.site.log[j].PostInserted? && !r.site.log[j].CacheInvalidationSuspended?
    ensures var r := RunImport(o, hook, st, mapped);
            r.site.log[|r.site.log| - 2..] == [TermCountingDeferred(false), CommentCountingDeferred(false)]
  {
    var s1 := Emit(Emit(st.site, TermCountingDeferred(true)), CommentCountingDeferred(true));
    var s2 := Emit(s1, CacheInvalidationSuspended(true));
    var p := ProcessAll(o, hook, st.(site := s2), mapped);
    var s3 := Emit(p.site, CacheInvalidationSuspended(false));
    var updates := RemapUpdates(p.featured.keys, p.featured.values, p.processed);
    var s4 := s3.(log := s3.log + updates);
    var end := EndEffects(o.taxonomies(s4.log + [ObjectCacheFlushed]));
    assert RunImport(o, hook, st, mapped).site.log == p.site.log + [CacheInvalidationSuspended(false)] + updates + end;
    RunOrderLemma(st.site.log, s2.log, p.site.log, updates, end);
  }

  /**
   * A featured image whose value was imported under another id gets that id
   * as its thumbnail after cache invalidation is re-enabled.
   */
  lemma ThumbnailRemappedAfterBatch(o: Oracles, hook: Option<Settings>, st: Run, mapped: seq<Record>, pid: int)
    requires st.featured.Valid()
    ensures var r := RunImport(o, hook, st, mapped);
            var f := r.featured;
            pid in f.keys && f.values[pid] in r.processed && r.processed[f.values[pid]] != f.values[pid] ==>
              exists k :: 0 <= k < |r.site.log| && r.site.log[k] == CacheInvalidationSuspended(false)
                          && ThumbnailUpdated(pid, r.processed[f.values[pid]]) in r.site.log[k + 1..]
  {
    RunImportOrder(o, hook, st, mapped);
    var r := RunImport(o, hook, st, mapped);
    RemappedInLog(r.site.log, r.featured.keys, r.featured.values, r.processed, pid);
  }

  lemma RemappedInLog(log: seq<Effect>, keys: seq<int>, values: map<int, int>, processed: map<int, int>, pid: int)
    requires forall k :: k in keys ==> k in values
    requires var updates := RemapUpdates(keys, values, processed);
             exists k :: 0 <= k < |log| && log[k] == CacheInvalidationSuspended(false)
                         && k + 1 + |updates| <= |log| && log[k + 1..k + 1 + |updates|] == updates
    ensures pid in keys && values[pid] in processed && processed[values[pid]] != values[pid] ==>
              exists k :: 0 <= k < |log| && log[k] == CacheInvalidationSuspended(false)
                          && ThumbnailUpdated(pid, processed[values[pid]]) in log[k + 1..]
  {
    var updates := RemapUpdates(keys, values, processed);
    var k :| 0 <= k < |log| && log[k] == CacheInvalidationSuspended(false)
             && k + 1 + |updates| <= |log| && log[k + 1..k + 1 + |updates|] == updates;
    if pid in keys && values[pid] in processed && processed[values[pid]] != values[pid] {
      var e := ThumbnailUpdated(pid, processed[values[pid]]);
      RemapExactly(keys, values, processed, pid, processed[values[pid]]);
      var i :| 0 <= i < |updates| && updates[i] == e;
      assert log[k + 1..][i] == e;
    }
  }

  /** The positions of the phases in the log of a run. */
  lemma RunOrderLemma(log0: seq<Effect>, log2: seq<Effect>, logP: seq<Effect>, updates: seq<Effect>, end: seq<Effect>)
    requires log2 == log0 + [TermCountingDeferred(true), CommentCountingDeferred(true), CacheInvalidationSuspended(true)]
    requires log2 <= logP
    requires forall e :: e in updates ==> e.ThumbnailUpdated?
    requires |end| >= 3 && end[|end| - 2..] == [TermCountingDeferred(false), CommentCountingDeferred(false)]
    requires end[0] == ObjectCacheFlushed && forall i :: 1 <= i < |end| - 2 ==> end[i].TermHierarchyRebuilt?
    ensures var log := logP + [CacheInvalidationSuspended(false)] + updates + end;
            var n := |log0|;
            |log| >= n + 3 && log[..n + 3] == log2
            && log[|logP|] == CacheInvalidationSuspended(false) && n + 3 <= |logP|
            && log[|logP| + 1..|logP| + 1 + |updates|] == updates
            && (forall j :: |logP| < j < |log| ==> !log[j].PostInserted? && !log[j].CacheInvalidationSuspended?)
            && log[|log| - 2..] == [TermCountingDeferred(false), CommentCountingDeferred(false)]
  {
    var log := logP + [CacheInvalidationSuspended(false)] + updates + end;
    assert log[..|log0| + 3] == logP[..|log0| + 3];
    forall j | |logP| < j < |log| ensures !log[j].PostInserted? && !log[j].CacheInvalidationSuspended? {
      var base := |logP| + 1 + |updates|;
      if j < base {
        assert log[j] == updates[j - |logP| - 1];
        assert log[j] in updates;
      } else {
        assert log[j] == end[j - base];
      }
    }
    assert log[|log| - 2..] == end[|end| - 2..];
  }

  // ---------------------------------------------------------------------------
  // The controller

  class ImportController {
    /** The post type handed to the mapper. */
    const postType: Value
    var posts: seq<Record>
    var processedPosts: map<int, int>
    var featuredImages: OrderedMap<int, int>

    ghost predicate Valid()
      reads this
    {
      featuredImages.Valid()
    }

    function State(host: Host): Run
      reads this, host
    {
      Run(host.State(), processedPosts, featuredImages)
    }

    constructor(postType: Value)
      ensures Valid() && this.postType == postType
      ensures posts == [] && processedPosts == map[] && featuredImages == EmptyMap()
    {
      this.postType := postType;
      posts := [];
      processedPosts := map[];
      featuredImages := EmptyMap();
    }

    /** import: the mapper's output, given as the records it produced. */
    method Import(host: Host, hook: Option<Settings>, mapped: seq<Record>)
      requires Valid()
      modifies this, host
      ensures Valid() && posts == []
      ensures State(host) == RunImport(host.o, hook, old(State(host)), mapped)
    {
      ImportStart(host, mapped);
      host.Do(CacheInvalidationSuspended(true));
      ProcessPosts(host, hook);
      host.Do(CacheInvalidationSuspended(false));
      RemapFeaturedImages(host);
      ImportEnd(host);
    }

    method ImportStart(host: Host, mapped: seq<Record>)
      modifies this, host
      ensures posts == mapped
      ensures processedPosts == old(processedPosts) && featuredImages == old(featuredImages)
      ensures host.State() == Emit(Emit(old(host.State()), TermCountingDeferred(true)), CommentCountingDeferred(true))
    {
      posts := mapped;
      host.Do(TermCountingDeferred(true));
      host.Do(CommentCountingDeferred(true));
    }

    method ImportEnd(host: Host)
      modifies host
      ensures host.State() == ImportEndSpec(host.o, old(host.State()))
    {
      host.Do(ObjectCacheFlushed);
      var taxonomies := host.o.taxonomies(host.log);
      ghost var start := host.log;
      var i := 0;
      while i < |taxonomies|
        invariant 0 <= i <= |taxonomies|
        invariant host.State() == old(host.State()).(log := start + HierarchyRebuilds(taxonomies[..i]))
      {
        HierarchyRebuildsNext(taxonomies, i);
        host.Do(TermHierarchyRebuilt(taxonomies[i]));
        i := i + 1;
      }
      assert taxonomies[..i] == taxonomies;
      host.Do(TermCountingDeferred(false));
      host.Do(CommentCountingDeferred(false));
      EndEffectsLog(old(host.log), taxonomies);
    }

    method RemapFeaturedImages(host: Host)
      requires Valid()
      modifies host
      ensures host.State() == old(host.State()).(log := old(host.log) + RemapUpdates(featuredImages.keys, featuredImages.values, processedPosts))
    {
      var keys := featuredImages.keys;
      var i := 0;
      while i < |keys|
        invariant 0 <= i <= |keys|
        invariant host.State() == old(host.State()).(log := old(host.log) + RemapUpdates(keys[..i], featuredImages.values, processedPosts))
      {
        assert keys[..i + 1][..i] == keys[..i];
        var pid := keys[i];
        var value := featuredImages.values[pid];
        if value in processedPosts {
          var newId := processedPosts[value];
          if newId != value {
            host.Do(ThumbnailUpdated(pid, newId));
          }
        }
        i := i + 1;
      }
      assert keys[..i] == keys;
    }

    method ProcessPosts(host: Host, hook: Option<Settings>)
      requires Valid()
      modifies this, host
      ensures Valid() && posts == []
      ensures State(host) == ProcessAll(host.o, hook, old(State(host)), old(posts))
    {
      var all := posts;
      ghost var start := State(host);
      var i := 0;
      while i < |all|
        invariant 0 <= i <= |all| && Valid()
        invariant State(host) == ProcessAll(host.o, hook, start, all[..i])
      {
        ProcessAllNext(host.o, hook, start, all, i);
        ProcessOne(host, hook, all[i], i + 1);
        i := i + 1;
      }
      assert all[..i] == all;
      posts := [];
    }

    /** The body of the process_posts loop. */
    method ProcessOne(host: Host, hook: Option<Settings>, post: Record, count: int)
      requires Valid()
      modifies this, host
      ensures Valid() && posts == old(posts)
      ensures State(host) == ProcessPost(host.o, hook, old(State(host)), post, count)
    {
      var o := host.o;
      var postType := Field(post, "post_type");
      var id := Field(post, "extdb_id");
      if !o.postTypeExists(host.log, postType) || IsDuplicate(processedPosts, id) {
        return;
      }
      var existing := o.postExists(host.log, Field(post, "post_title"));
      if existing != 0 && SameType(o.postTypeOf(host.log, existing), postType) {
        processedPosts := processedPosts[IntVal(id) := existing];
        return;
      }
      var data := o.slash(PostData(post));
      var result := o.insertPost(host.log, data);
      host.Do(PostInserted(data, result));
      if hook.Some? {
        OnInsertPost(host, hook.value, result, post, count);
      }
      if result.InsertError? {
        return;
      }
      var pid := result.id;
      processedPosts := processedPosts[IntVal(id) := pid];
      AddTerms(host, pid, TermsOf(post));
      AddMetas(host, pid, MetasOf(post));
    }

    /** The terms part of process_posts: $terms_to_set built in nested loops, then set. */
    method AddTerms(host: Host, pid: int, terms: seq<(string, seq<string>)>)
      modifies host
      ensures host.State() == old(host.State()).(log := AttachTerms(host.o, pid, old(host.log), terms))
    {
      if terms == [] {
        return;
      }
      var o := host.o;
      var toSet: TermGroups := EmptyMap();
      var i := 0;
      while i < |terms|
        invariant 0 <= i <= |terms| && toSet.Valid()
        invariant (host.log, toSet) == TaxonomySteps(o, (old(host.log), EmptyMap()), terms[..i])
        invariant host.items == old(host.items) && host.groups == old(host.groups)
      {
        assert terms[..i + 1][..i] == terms[..i];
        toSet := ResolveNames(host, terms[i].0, terms[i].1, toSet);
        i := i + 1;
      }
      assert terms[..i] == terms;
      SetTerms(host, pid, toSet);
    }

    /** The inner loop over one taxonomy's term names. */
    method ResolveNames(host: Host, tax: string, names: seq<string>, toSet: TermGroups) returns (r: TermGroups)
      requires toSet.Valid()
      modifies host
      ensures (host.log, r) == NameSteps(host.o, (old(host.log), toSet), tax, names)
      ensures host.items == old(host.items) && host.groups == old(host.groups)
    {
      var o := host.o;
      r := toSet;
      var j := 0;
      while j < |names|
        invariant 0 <= j <= |names| && r.Valid()
        invariant (host.log, r) == NameSteps(o, (old(host.log), toSet), tax, names[..j])
        invariant host.items == old(host.items) && host.groups == old(host.groups)
      {
        assert names[..j + 1][..j] == names[..j];
        var name := names[j];
        var slug := o.sanitizeTitle(name);
        var termId := o.termExists(host.log, slug, tax);
        if termId == 0 {
          var t := o.insertTerm(host.log, name, tax, slug);
          host.Do(TermInserted(name, tax, slug, t));
          if t.TermCreated? {
            r := AddTermId(r, tax, t.termId);
          }
        } else {
          r := AddTermId(r, tax, termId);
        }
        j := j + 1;
      }
      assert names[..j] == names;
    }

    /** wp_set_post_terms for each collected taxonomy. */
    method SetTerms(host: Host, pid: int, toSet: TermGroups)
      requires toSet.Valid()
      modifies host
      ensures host.State() == old(host.State()).(log := old(host.log) + SetTermsEffects(pid, toSet))
    {
      var k := 0;
      while k < |toSet.keys|
        invariant 0 <= k <= |toSet.keys|
        invariant host.State() == old(host.State()).(log := old(host.log) + SetTermsEffects(pid, toSet)[..k])
      {
        var tax := toSet.keys[k];
        host.Do(PostTermsSet(pid, toSet.values[tax], tax));
        assert SetTermsEffects(pid, toSet)[..k + 1] == SetTermsEffects(pid, toSet)[..k] + [PostTermsSet(pid, toSet.values[tax], tax)];
        k := k + 1;
      }
      assert SetTermsEffects(pid, toSet)[..k] == SetTermsEffects(pid, toSet);
    }

    /** The meta part of process_posts. */
    method AddMetas(host: Host, pid: int, metas: seq<Meta>)
      requires Valid()
      modifies this, host
      ensures Valid() && posts == old(posts) && processedPosts == old(processedPosts)
      ensures (host.log, featuredImages) == MetaSteps(host.o, pid, (old(host.log), old(featuredImages)), metas)
      ensures host.items == old(host.items) && host.groups == old(host.groups)
    {
      var i := 0;
      while i < |metas|
        invariant 0 <= i <= |metas| && Valid()
        invariant posts == old(posts) && processedPosts == old(processedPosts)
        invariant (host.log, featuredImages) == MetaSteps(host.o, pid, (old(host.log), old(featuredImages)), metas[..i])
        invariant host.items == old(host.items) && host.groups == old(host.groups)
      {
        assert metas[..i + 1][..i] == metas[..i];
        var key := metas[i].key;
        var value := host.o.maybeUnserialize(metas[i].value);
        if !Empty(key) {
          host.Do(PostMetaAdded(pid, key, value));
          if LooseEqualsWord(key, ThumbnailKey) {
            featuredImages := Put(featuredImages, pid, IntVal(value));
          }
        }
        i := i + 1;
      }
      assert metas[..i] == metas;
    }
  }
}
