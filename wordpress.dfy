/**
 * The WordPress site the importer talks to. Every call that reads the site
 * is an oracle whose answer may depend on everything written so far (the
 * effect log); every call that writes it appends an Effect. The Redirection
 * plugin's rule and group tables are kept as sequences.
 */
module WordPress {
  import opened Php

  /** One entry of a record's 'postmeta' list. */
  datatype Meta = Meta(key: Value, value: Value)

  /**
   * A record as the mapper hands it over: its scalar fields, and the
   * optional 'terms' (taxonomy => term names) and 'postmeta' arrays.
   */
  datatype Record = Record(fields: map<string, Value>,
                           terms: Option<seq<(string, seq<string>)>>,
                           postmeta: Option<seq<Meta>>)

  /** $record[$k]: null when the key is missing. */
  function Field(r: Record, k: string): (v: Value)
    ensures k !in r.fields ==> v == Null
  {
    if k in r.fields then r.fields[k] else Null
  }

  datatype InsertResult = Inserted(id: int) | InsertError
  datatype TermResult = TermCreated(termId: int) | TermError
  datatype MediaResult = MediaCreated(id: int) | MediaError
  datatype MediaKind = Images | Files

  /** An image described inside a [gallery] shortcode. */
  datatype GalleryImage = GalleryImage(url: string, title: string, caption: string, alt: string, description: string)

  /** A rule of the Redirection plugin: a 301 from url to target in a group. */
  datatype RedirectItem = RedirectItem(url: string, target: string, groupId: int, code: int)
  datatype RedirectGroup = RedirectGroup(id: int, name: string)

  /** A write to the site. */
  datatype Effect =
    | TermCountingDeferred(deferTerms: bool)
    | CommentCountingDeferred(deferComments: bool)
    | CacheInvalidationSuspended(suspend: bool)
    | PostInserted(data: Record, result: InsertResult)
    | TermInserted(name: string, taxonomy: string, slug: string, termResult: TermResult)
    | PostTermsSet(postId: int, termIds: seq<int>, taxonomy: string)
    | PostMetaAdded(metaPost: int, key: Value, value: Value)
    | ThumbnailUpdated(thumbPost: int, thumbnailId: int)
    | ObjectCacheFlushed
    | TermHierarchyRebuilt(hierarchy: string)
    | MediaSideloaded(url: string, parent: int, kind: MediaKind, mediaResult: MediaResult)
    | AttachmentDetailsUpdated(attachment: int, title: string, excerpt: string, content: string, alt: string)
    | PostContentUpdated(contentPost: int, newContent: string)
    | ObjectCacheCleared

  /**
   * What the site answers. Functions of the effect log read the database;
   * the others are pure WordPress or PHP helpers that are not modelled.
   */
  datatype Oracles = Oracles(
    postTypeExists: (seq<Effect>, Value) -> bool,
    postExists: (seq<Effect>, Value) -> int,                 // post_exists(title): 0 when none
    postTypeOf: (seq<Effect>, int) -> Option<string>,        // get_post_type: None for false
    insertPost: (seq<Effect>, Record) -> InsertResult,
    sanitizeTitle: string -> string,
    termExists: (seq<Effect>, string, string) -> int,        // term id of slug in taxonomy, 0 when none
    insertTerm: (seq<Effect>, string, string, string) -> TermResult,
    maybeUnserialize: Value -> Value,
    slash: Record -> Record,                                 // wp_slash
    taxonomies: seq<Effect> -> seq<string>,
    parseHost: string -> string,                             // parse_url(.., PHP_URL_HOST), "" when none
    parsePort: string -> int,                                // parse_url(.., PHP_URL_PORT), 0 when none
    urlDecode: string -> string,
    sanitizeFileName: string -> string,
    entityDecode: string -> string,                          // html_entity_decode(.., ENT_QUOTES)
    galleryImages: string -> seq<GalleryImage>,              // descriptors in [gallery ids="..."]
    galleryToken: GalleryImage -> string,                    // base64_encode(json_encode(descriptor))
    imgSources: string -> seq<string>,                       // <img> src and srcset URLs
    linkHrefs: string -> seq<string>,                        // <a> href values
    findMedia: (seq<Effect>, string, MediaKind) -> int,      // get_media_from_gallery: 0 when none
    sideload: (seq<Effect>, string, int, MediaKind) -> MediaResult,
    attachmentUrl: (seq<Effect>, int) -> string,             // wp_get_attachment_url: "" for false
    sourcePath: Value -> string,                             // wp_parse_url(..)['path'], "" when unset
    sourceQuery: Value -> string,                            // wp_parse_url(..)['query'], "" when unset
    permalinkPath: (seq<Effect>, int) -> string,             // path of get_permalink(id), "" when none
    createGroup: (seq<RedirectGroup>, string) -> Option<int>, // Red_Group::create: id, or None for false
    createItem: (seq<RedirectItem>, RedirectItem) -> bool     // Red_Item::create succeeded
  )

  /** The state of the site. */
  datatype Site = Site(log: seq<Effect>, items: seq<RedirectItem>, groups: seq<RedirectGroup>)

  function Emit(s: Site, e: Effect): (r: Site)
    ensures r.log == s.log + [e] && r.items == s.items && r.groups == s.groups
  {
    s.(log := s.log + [e])
  }

  /** The site as the importer's methods see it: the oracles and the mutable tables. */
  class Host {
    const o: Oracles
    var log: seq<Effect>
    var items: seq<RedirectItem>
    var groups: seq<RedirectGroup>

    function State(): Site
      reads this
    {
      Site(log, items, groups)
    }

    constructor(o: Oracles, items: seq<RedirectItem>, groups: seq<RedirectGroup>)
      ensures this.o == o && log == [] && this.items == items && this.groups == groups
    {
      this.o := o;
      log := [];
      this.items := items;
      this.groups := groups;
    }

    method Do(e: Effect)
      modifies this
      ensures State() == Emit(old(State()), e)
    {
      log := log + [e];
    }
  }
}
