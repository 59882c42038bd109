/**
 * Importing the media a post's content refers to
 * (sideload_img_tags and sideload_a_tag_files in
 * src/Command/DB2WP_Import_Command.php). The URL lists that the regular
 * expressions and the DOM crawler extract are oracles; each reference then
 * passes the same gates (not on the home domain, a full http/ftp URL, an
 * attachment found or created) before the content is rewritten with
 * str_replace.
 */
module Media {
  import opened Php
  import opened WordPress
  import opened UrlHelpers

  /** The document extensions whose links are imported. */
  const FileExtAllowed: seq<string> := ["doc", "docx", "odt", "pdf", "xls", "xlsx", "ods", "ppt", "pptx", "txt"]

  /** The URL matches ^(http|ftp)s?:// without regard to case. */
  predicate HasRemoteScheme(url: string) {
    var u := Lower(url);
    StartsWith(u, "http://") || StartsWith(u, "https://") || StartsWith(u, "ftp://") || StartsWith(u, "ftps://")
  }

  /** is_wp_domain_match on the URL's host and port. */
  predicate IsLocal(o: Oracles, home: string, url: string) {
    IsWpDomainMatch(o.parseHost(url), o.parsePort(url), home)
  }

  /** The gates a reference passes before the media library is searched. */
  predicate Eligible(o: Oracles, home: string, url: string) {
    !IsLocal(o, home, url) && !EmptyString(url) && HasRemoteScheme(url)
  }

  /** The file name under which the media library is searched for a URL. */
  function MediaName(o: Oracles, url: string): string {
    SanitizeFilename(o.urlDecode(GetBasename(url)), o.sanitizeFileName)
  }

  /**
   * The attachment for a reference: an existing one, or else one sideloaded
   * from the entity-decoded, trimmed URL; 0 when there is none. The second
   * component is the log after the attempt.
   */
  function Attachment(o: Oracles, log: seq<Effect>, pid: int, url: string, kind: MediaKind): (r: (int, seq<Effect>))
    ensures r.1 == log || r.1 == log + [MediaSideloaded(o.entityDecode(Trim(url)), pid, kind, o.sideload(log, o.entityDecode(Trim(url)), pid, kind))]
    ensures o.findMedia(log, MediaName(o, url), kind) != 0 ==> r == (o.findMedia(log, MediaName(o, url), kind), log)
    ensures r.1 != log ==> o.findMedia(log, MediaName(o, url), kind) == 0 && !EmptyString(o.entityDecode(Trim(url)))
    ensures var decoded := o.entityDecode(Trim(url));
            var res := o.sideload(log, decoded, pid, kind);
            o.findMedia(log, MediaName(o, url), kind) == 0 && !EmptyString(decoded) ==>
              r.1 == log + [MediaSideloaded(decoded, pid, kind, res)]
              && r.0 == (if res.MediaCreated? then res.id else 0)
    ensures o.findMedia(log, MediaName(o, url), kind) == 0 && EmptyString(o.entityDecode(Trim(url))) ==> r == (0, log)
  {
    var found := o.findMedia(log, MediaName(o, url), kind);
    if found != 0 then (found, log)
    else
      var decoded := o.entityDecode(Trim(url));
      if EmptyString(decoded) then (0, log)
      else
        var res := o.sideload(log, decoded, pid, kind);
        var log1 := log + [MediaSideloaded(decoded, pid, kind, res)];
        match res
        case MediaCreated(id) => (id, log1)
        case MediaError => (0, log1)
  }

  /** A sideload that fails yields no attachment. */
  lemma FailedSideloadHasNoAttachment(o: Oracles, log: seq<Effect>, pid: int, url: string, kind: MediaKind)
    requires o.findMedia(log, MediaName(o, url), kind) == 0
    requires o.sideload(log, o.entityDecode(Trim(url)), pid, kind) == MediaError
    ensures Attachment(o, log, pid, url, kind).0 == 0
  {
  }

  // ---------------------------------------------------------------------------
  // Images

  /** An image reference: a [gallery] descriptor or an <img> URL. */
  datatype ImageRef = GalleryRef(image: GalleryImage) | TagRef(src: string)

  function RefUrl(r: ImageRef): string {
    match r
    case GalleryRef(g) => g.url
    case TagRef(u) => u
  }

  /** The image references of a content, gallery descriptors first. */
  function ImageRefs(o: Oracles, content: string): (r: seq<ImageRef>)
    ensures |r| == |o.galleryImages(content)| + |o.imgSources(content)|
    ensures forall i :: 0 <= i < |o.galleryImages(content)| ==> r[i] == GalleryRef(o.galleryImages(content)[i])
    ensures forall j :: 0 <= j < |o.imgSources(content)| ==>
              r[|o.galleryImages(content)| + j] == TagRef(o.imgSources(content)[j])
  {
    seq(|o.galleryImages(content)|, i requires 0 <= i < |o.galleryImages(content)| => GalleryRef(o.galleryImages(content)[i]))
    + seq(|o.imgSources(content)|, i requires 0 <= i < |o.imgSources(content)| => TagRef(o.imgSources(content)[i]))
  }

  /**
   * One image reference: with an attachment, a gallery token becomes the
   * attachment id, the URL becomes the attachment's URL when it has one, and
   * a gallery attachment gets the descriptor's title, caption, description
   * and alt text.
   */
  function ImageStep(o: Oracles, home: string, pid: int, st: (seq<Effect>, string), ref: ImageRef): (r: (seq<Effect>, string))
    ensures !Eligible(o, home, RefUrl(ref)) ==> r == st
    ensures Attachment(o, st.0, pid, RefUrl(ref), Images).0 == 0 ==> r.1 == st.1
    ensures ref.TagRef? && r.1 != st.1 ==>
              !EmptyString(o.attachmentUrl(Attachment(o, st.0, pid, RefUrl(ref), Images).1,
                                           Attachment(o, st.0, pid, RefUrl(ref), Images).0))
    ensures st.0 <= r.0
    ensures var att := Attachment(o, st.0, pid, RefUrl(ref), Images);
            Eligible(o, home, RefUrl(ref)) && att.0 == 0 ==> r == (att.1, st.1)
    ensures var att := Attachment(o, st.0, pid, RefUrl(ref), Images);
            var u := o.attachmentUrl(att.1, att.0);
            var c1 := if ref.GalleryRef? then StrReplace(o.galleryToken(ref.image), IntToString(att.0), st.1) else st.1;
            Eligible(o, home, RefUrl(ref)) && att.0 != 0 ==>
              r.1 == (if EmptyString(u) then c1 else StrReplace(RefUrl(ref), u, c1))
              && (ref.TagRef? ==> r.0 == att.1)
              && (ref.GalleryRef? ==> r.0 == att.1 + [AttachmentDetailsUpdated(att.0, Trim(ref.image.title), Trim(ref.image.caption),
                                                                              Trim(ref.image.description), Trim(ref.image.alt))])
  {
    var url := RefUrl(ref);
    if !Eligible(o, home, url) then st
    else
      var (id, log1) := Attachment(o, st.0, pid, url, Images);
      if id == 0 then (log1, st.1)
      else
        var c1 := if ref.GalleryRef? then StrReplace(o.galleryToken(ref.image), IntToString(id), st.1) else st.1;
        var u := o.attachmentUrl(log1, id);
        var c2 := if !EmptyString(u) then StrReplace(url, u, c1) else c1;
        var log2 := if ref.GalleryRef? then
          log1 + [AttachmentDetailsUpdated(id, Trim(ref.image.title), Trim(ref.image.caption),
                                           Trim(ref.image.description), Trim(ref.image.alt))]
        else log1;
        (log2, c2)
  }

  /** The references processed in order; the log only grows. */
  function ImageSteps(o: Oracles, home: string, pid: int, st: (seq<Effect>, string), refs: seq<ImageRef>)
    : (r: (seq<Effect>, string))
    ensures st.0 <= r.0
    decreases |refs|
  {
    if refs == [] then st
    else ImageStep(o, home, pid, ImageSteps(o, home, pid, st, refs[..|refs| - 1]), refs[|refs| - 1])
  }

  /** Processing one more reference is one more step. */
  lemma ImageStepsNext(o: Oracles, home: string, pid: int, st: (seq<Effect>, string), refs: seq<ImageRef>, i: nat)
    requires i < |refs|
    ensures ImageSteps(o, home, pid, st, refs[..i + 1]) == ImageStep(o, home, pid, ImageSteps(o, home, pid, st, refs[..i]), refs[i])
  {
    assert refs[..i + 1][..i] == refs[..i];
  }

  /** sideload_img_tags: the log and the content after every image reference is processed. */
  function SideloadImgTagsSpec(o: Oracles, home: string, pid: int, log: seq<Effect>, content: string): (r: (seq<Effect>, string))
    ensures log <= r.0
  {
    ImageSteps(o, home, pid, (log, content), ImageRefs(o, content))
  }

  /** References that do not pass the gates change neither the site nor the content. */
  lemma {:induction false} IneligibleImagesUnchanged(o: Oracles, home: string, pid: int, st: (seq<Effect>, string), refs: seq<ImageRef>)
    requires forall i :: 0 <= i < |refs| ==> !Eligible(o, home, RefUrl(refs[i]))
    ensures ImageSteps(o, home, pid, st, refs) == st
    decreases |refs|
  {
    if refs != [] {
      IneligibleImagesUnchanged(o, home, pid, st, refs[..|refs| - 1]);
    }
  }

  /** Content whose image references are all on the home domain comes back unchanged, with nothing written. */
  lemma LocalImagesUnchanged(o: Oracles, home: string, pid: int, log: seq<Effect>, content: string)
    requires forall i :: 0 <= i < |ImageRefs(o, content)| ==> IsLocal(o, home, RefUrl(ImageRefs(o, content)[i]))
    ensures SideloadImgTagsSpec(o, home, pid, log, content) == (log, content)
  {
    IneligibleImagesUnchanged(o, home, pid, (log, content), ImageRefs(o, content));
  }

  /** When the content changed, some reference passed the gates. */
  lemma {:induction false} ChangedImagesWereEligible(o: Oracles, home: string, pid: int, st: (seq<Effect>, string), refs: seq<ImageRef>)
    requires ImageSteps(o, home, pid, st, refs).1 != st.1
    ensures exists i :: 0 <= i < |refs| && Eligible(o, home, RefUrl(refs[i]))
    decreases |refs|
  {
    var front := refs[..|refs| - 1];
    var last := refs[|refs| - 1];
    var mid := ImageSteps(o, home, pid, st, front);
    if mid.1 != st.1 {
      ChangedImagesWereEligible(o, home, pid, st, front);
      var i :| 0 <= i < |front| && Eligible(o, home, RefUrl(front[i]));
      assert refs[i] == front[i];
    } else {
      assert ImageStep(o, home, pid, mid, last).1 != mid.1;
      assert Eligible(o, home, RefUrl(refs[|refs| - 1]));
    }
  }

  /** One image reference, against the site. */
  method SideloadImage(host: Host, home: string, pid: int, content: string, ref: ImageRef) returns (newContent: string)
    modifies host
    ensures (host.log, newContent) == ImageStep(host.o, home, pid, (old(host.log), content), ref)
    ensures host.items == old(host.items) && host.groups == old(host.groups)
  {
    var o := host.o;
    var url := RefUrl(ref);
    newContent := content;
    if !Eligible(o, home, url) {
      return;
    }
    var id := o.findMedia(host.log, MediaName(o, url), Images);
    if id == 0 {
      var decoded := o.entityDecode(Trim(url));
      if EmptyString(decoded) {
        return;
      }
      var res := o.sideload(host.log, decoded, pid, Images);
      host.Do(MediaSideloaded(decoded, pid, Images, res));
      if res.MediaError? {
        return;
      }
      id := res.id;
    }
    if id != 0 {
      if ref.GalleryRef? {
        newContent := StrReplace(o.galleryToken(ref.image), IntToString(id), newContent);
      }
      var u := o.attachmentUrl(host.log, id);
      if !EmptyString(u) {
        newContent := StrReplace(url, u, newContent);
      }
      if ref.GalleryRef? {
        host.Do(AttachmentDetailsUpdated(id, Trim(ref.image.title), Trim(ref.image.caption),
                                         Trim(ref.image.description), Trim(ref.image.alt)));
      }
    }
  }

  /** sideload_img_tags. */
  method SideloadImgTags(host: Host, home: string, pid: int, content: string) returns (newContent: string)
    modifies host
    ensures (host.log, newContent) == SideloadImgTagsSpec(host.o, home, pid, old(host.log), content)
    ensures host.items == old(host.items) && host.groups == old(host.groups)
  {
    var refs := ImageRefs(host.o, content);
    newContent := content;
    var i := 0;
    while i < |refs|
      invariant 0 <= i <= |refs|
      invariant (host.log, newContent) == ImageSteps(host.o, home, pid, (old(host.log), content), refs[..i])
      invariant host.items == old(host.items) && host.groups == old(host.groups)
    {
      ImageStepsNext(host.o, home, pid, (old(host.log), content), refs, i);
      newContent := SideloadImage(host, home, pid, newContent, refs[i]);
      i := i + 1;
    }
    assert refs[..i] == refs;
  }

  // ---------------------------------------------------------------------------
  // Linked documents

  /** The lower-cased extension of the link is on the allow-list. */
  predicate AllowedFile(href: string) {
    Lower(GetFileExtension(href)) in FileExtAllowed
  }

  /** The hrefs that keep accepts, in their order and with their repeats. */
  function Filter(keep: string -> bool, hrefs: seq<string>): (r: seq<string>)
    ensures forall h :: h in r ==> keep(h) && h in hrefs
    ensures forall h :: h in hrefs && keep(h) ==> h in r
    ensures |r| <= |hrefs|
  {
    if hrefs == [] then []
    else
      assert hrefs == [hrefs[0]] + hrefs[1..];
      (if keep(hrefs[0]) then [hrefs[0]] else []) + Filter(keep, hrefs[1..])
  }

  /** Filtering a list in two pieces filters each piece. */
  lemma {:induction false} FilterAppend(keep: string -> bool, a: seq<string>, b: seq<string>)
    ensures Filter(keep, a + b) == Filter(keep, a) + Filter(keep, b)
    decreases |a|
  {
    if a == [] {
      assert a + b == b;
    } else {
      assert (a + b)[0] == a[0] && (a + b)[1..] == a[1..] + b;
      FilterAppend(keep, a[1..], b);
    }
  }

  /** An accepted href is kept as often as it occurs; any other not at all. */
  lemma {:induction false} FilterCount(keep: string -> bool, hrefs: seq<string>, h: string)
    ensures multiset(Filter(keep, hrefs))[h] == if keep(h) then multiset(hrefs)[h] else 0
    decreases |hrefs|
  {
    if hrefs != [] {
      FilterCount(keep, hrefs[1..], h);
      assert hrefs == [hrefs[0]] + hrefs[1..];
    }
  }

  /** The links the crawler keeps: the hrefs with an allowed extension, in document order. */
  function AllowedLinks(hrefs: seq<string>): (r: seq<string>)
    ensures forall h :: h in r ==> AllowedFile(h) && h in hrefs
    ensures forall h :: h in hrefs && AllowedFile(h) ==> h in r
    ensures |r| <= |hrefs|
  {
    Filter(AllowedFile, hrefs)
  }

  /**
   * Filtering a list in two pieces filters each piece, keeping document
   * order.
   */
  lemma AllowedLinksAppend(a: seq<string>, b: seq<string>)
    ensures AllowedLinks(a + b) == AllowedLinks(a) + AllowedLinks(b)
  {
    FilterAppend(AllowedFile, a, b);
  }

  /** A link appended to the document is kept, after the earlier ones, iff its extension is allowed. */
  lemma AllowedLinksSnoc(a: seq<string>, h: string)
    ensures AllowedLinks(a + [h]) == AllowedLinks(a) + (if AllowedFile(h) then [h] else [])
  {
    FilterAppend(AllowedFile, a, [h]);
    assert [h][1..] == [];
  }

  /** An allowed link is kept as often as it occurs; any other link not at all. */
  lemma AllowedLinksCount(hrefs: seq<string>, h: string)
    ensures multiset(AllowedLinks(hrefs))[h] == if AllowedFile(h) then multiset(hrefs)[h] else 0
  {
    FilterCount(AllowedFile, hrefs, h);
  }

  /** One document link: with an attachment that has a URL, the link becomes that URL. */
  function FileStep(o: Oracles, home: string, pid: int, st: (seq<Effect>, string), url: string): (r: (seq<Effect>, string))
    ensures !Eligible(o, home, url) ==> r == st
    ensures Attachment(o, st.0, pid, url, Files).0 == 0 ==> r.1 == st.1
    ensures r.1 != st.1 ==> !EmptyString(o.attachmentUrl(r.0, Attachment(o, st.0, pid, url, Files).0))
    ensures st.0 <= r.0
    ensures var att := Attachment(o, st.0, pid, url, Files);
            var u := o.attachmentUrl(att.1, att.0);
            Eligible(o, home, url) ==>
              r == (att.1, if att.0 == 0 || EmptyString(u) then st.1 else StrReplace(url, u, st.1))
  {
    if !Eligible(o, home, url) then st
    else
      var (id, log1) := Attachment(o, st.0, pid, url, Files);
      if id == 0 then (log1, st.1)
      else
        var u := o.attachmentUrl(log1, id);
        (log1, if !EmptyString(u) then StrReplace(url, u, st.1) else st.1)
  }

  /** The allowed links processed in order; the log only grows. */
  function FileSteps(o: Oracles, home: string, pid: int, st: (seq<Effect>, string), links: seq<string>)
    : (r: (seq<Effect>, string))
    ensures st.0 <= r.0
    decreases |links|
  {
    if links == [] then st
    else FileStep(o, home, pid, FileSteps(o, home, pid, st, links[..|links| - 1]), links[|links| - 1])
  }

  lemma FileStepsNext(o: Oracles, home: string, pid: int, st: (seq<Effect>, string), links: seq<string>, i: nat)
    requires i < |links|
    ensures FileSteps(o, home, pid, st, links[..i + 1]) == FileStep(o, home, pid, FileSteps(o, home, pid, st, links[..i]), links[i])
  {
    assert links[..i + 1][..i] == links[..i];
  }

  /** sideload_a_tag_files. */
  function SideloadFilesSpec(o: Oracles, home: string, pid: int, log: seq<Effect>, content: string): (r: (seq<Effect>, string))
    ensures log <= r.0
  {
    FileSteps(o, home, pid, (log, content), AllowedLinks(o.linkHrefs(content)))
  }

  lemma {:induction false} IneligibleFilesUnchanged(o: Oracles, home: string, pid: int, st: (seq<Effect>, string), links: seq<string>)
    requires forall i :: 0 <= i < |links| ==> !Eligible(o, home, links[i])
    ensures FileSteps(o, home, pid, st, links) == st
    decreases |links|
  {
    if links != [] {
      IneligibleFilesUnchanged(o, home, pid, st, links[..|links| - 1]);
    }
  }

  /** Content whose document links are all on the home domain comes back unchanged, with nothing written. */
  lemma LocalFilesUnchanged(o: Oracles, home: string, pid: int, log: seq<Effect>, content: string)
    requires forall h :: h in o.linkHrefs(content) ==> IsLocal(o, home, h)
    ensures SideloadFilesSpec(o, home, pid, log, content) == (log, content)
  {
    var links := AllowedLinks(o.linkHrefs(content));
    forall i | 0 <= i < |links| ensures !Eligible(o, home, links[i]) {
      assert links[i] in links;
    }
    IneligibleFilesUnchanged(o, home, pid, (log, content), links);
  }

  /** When the content changed, some allowed link passed the gates. */
  lemma {:induction false} ChangedFilesWereEligible(o: Oracles, home: string, pid: int, st: (seq<Effect>, string), links: seq<string>)
    requires FileSteps(o, home, pid, st, links).1 != st.1
    ensures exists i :: 0 <= i < |links| && Eligible(o, home, links[i])
    decreases |links|
  {
    var front := links[..|links| - 1];
    var mid := FileSteps(o, home, pid, st, front);
    if mid.1 != st.1 {
      ChangedFilesWereEligible(o, home, pid, st, front);
      var i :| 0 <= i < |front| && Eligible(o, home, front[i]);
      assert links[i] == front[i];
    } else {
      assert FileStep(o, home, pid, mid, links[|links| - 1]).1 != mid.1;
    }
  }

  method SideloadFile(host: Host, home: string, pid: int, content: string, url: string) returns (newContent: string)
    modifies host
    ensures (host.log, newContent) == FileStep(host.o, home, pid, (old(host.log), content), url)
    ensures host.items == old(host.items) && host.groups == old(host.groups)
  {
    var o := host.o;
    newContent := content;
    if !Eligible(o, home, url) {
      return;
    }
    var id := o.findMedia(host.log, MediaName(o, url), Files);
    if id == 0 {
      var decoded := o.entityDecode(Trim(url));
      if EmptyString(decoded) {
        return;
      }
      var res := o.sideload(host.log, decoded, pid, Files);
      host.Do(MediaSideloaded(decoded, pid, Files, res));
      if res.MediaError? {
        return;
      }
      id := res.id;
    }
    if id != 0 {
      var u := o.attachmentUrl(host.log, id);
      if !EmptyString(u) {
        newContent := StrReplace(url, u, newContent);
      }
    }
  }

  /** sideload_a_tag_files. */
  method SideloadATagFiles(host: Host, home: string, pid: int, content: string) returns (newContent: string)
    modifies host
    ensures (host.log, newContent) == SideloadFilesSpec(host.o, home, pid, old(host.log), content)
    ensures host.items == old(host.items) && host.groups == old(host.groups)
  {
    var links := AllowedLinks(host.o.linkHrefs(content));
    newContent := content;
    var i := 0;
    while i < |links|
      invariant 0 <= i <= |links|
      invariant (host.log, newContent) == FileSteps(host.o, home, pid, (old(host.log), content), links[..i])
      invariant host.items == old(host.items) && host.groups == old(host.groups)
    {
      FileStepsNext(host.o, home, pid, (old(host.log), content), links, i);
      newContent := SideloadFile(host, home, pid, newContent, links[i]);
      i := i + 1;
    }
    assert links[..i] == links;
  }

  // ---------------------------------------------------------------------------
  // References already in the media library

  /** The reference passes no gate, or the library already holds an attachment for it. */
  predicate InLibrary(o: Oracles, home: string, log: seq<Effect>, kind: MediaKind, url: string) {
    !Eligible(o, home, url) || o.findMedia(log, MediaName(o, url), kind) != 0
  }

  /** A URL replaced by the URL of its library attachment, when it passes the gates and that URL is truthy. */
  function LibraryRewrite(o: Oracles, home: string, log: seq<Effect>, kind: MediaKind, content: string, url: string): string {
    if !Eligible(o, home, url) then content
    else
      var u := o.attachmentUrl(log, o.findMedia(log, MediaName(o, url), kind));
      if EmptyString(u) then content else StrReplace(url, u, content)
  }

  /** Every URL in turn replaced by the URL of its library attachment. */
  function LibraryRewrites(o: Oracles, home: string, log: seq<Effect>, kind: MediaKind, content: string, urls: seq<string>): string
    decreases |urls|
  {
    if urls == [] then content
    else LibraryRewrite(o, home, log, kind, LibraryRewrites(o, home, log, kind, content, urls[..|urls| - 1]), urls[|urls| - 1])
  }

  /** <img> references whose images the library holds are rewritten in order, with nothing written. */
  lemma {:induction false} TagsFromLibrary(o: Oracles, home: string, pid: int, st: (seq<Effect>, string),
                                           refs: seq<ImageRef>, urls: seq<string>)
    requires |refs| == |urls| && forall i :: 0 <= i < |refs| ==> refs[i] == TagRef(urls[i])
    requires forall i :: 0 <= i < |urls| ==> InLibrary(o, home, st.0, Images, urls[i])
    ensures ImageSteps(o, home, pid, st, refs) == (st.0, LibraryRewrites(o, home, st.0, Images, st.1, urls))
    decreases |refs|
  {
    if refs != [] {
      var n := |refs| - 1;
      TagsFromLibrary(o, home, pid, st, refs[..n], urls[..n]);
      assert refs[n] == TagRef(urls[n]);
    }
  }

  /**
   * sideload_img_tags on content without galleries whose images the library
   * already holds: each image URL is replaced, in order, by its attachment's
   * URL, and nothing is written.
   */
  lemma ImagesFromLibrary(o: Oracles, home: string, pid: int, log: seq<Effect>, content: string)
    requires o.galleryImages(content) == []
    requires forall i :: 0 <= i < |o.imgSources(content)| ==> InLibrary(o, home, log, Images, o.imgSources(content)[i])
    ensures SideloadImgTagsSpec(o, home, pid, log, content)
            == (log, LibraryRewrites(o, home, log, Images, content, o.imgSources(content)))
  {
    TagsFromLibrary(o, home, pid, (log, content), ImageRefs(o, content), o.imgSources(content));
  }

  /** Links whose documents the library holds are rewritten in order, with nothing written. */
  lemma {:induction false} FilesFromLibrary(o: Oracles, home: string, pid: int, st: (seq<Effect>, string), links: seq<string>)
    requires forall i :: 0 <= i < |links| ==> InLibrary(o, home, st.0, Files, links[i])
    ensures FileSteps(o, home, pid, st, links) == (st.0, LibraryRewrites(o, home, st.0, Files, st.1, links))
    decreases |links|
  {
    if links != [] {
      FilesFromLibrary(o, home, pid, st, links[..|links| - 1]);
    }
  }

  /**
   * sideload_a_tag_files on content whose allowed links the library already
   * holds: each link is replaced, in order, by its attachment's URL, and
   * nothing is written.
   */
  lemma LinkedFilesFromLibrary(o: Oracles, home: string, pid: int, log: seq<Effect>, content: string)
    requires forall h :: h in AllowedLinks(o.linkHrefs(content)) ==> InLibrary(o, home, log, Files, h)
    ensures SideloadFilesSpec(o, home, pid, log, content)
            == (log, LibraryRewrites(o, home, log, Files, content, AllowedLinks(o.linkHrefs(content))))
  {
    var links := AllowedLinks(o.linkHrefs(content));
    forall i | 0 <= i < |links| ensures InLibrary(o, home, log, Files, links[i]) {
      assert links[i] in links;
    }
    FilesFromLibrary(o, home, pid, (log, content), links);
  }

  // ---------------------------------------------------------------------------
  // A failed image download, as the source handles it

  /**
   * The attachment handle as sideload_img_tags computes it: a failed
   * media_sideload_image leaves the error object in $attid, which is truthy
   * and which wp_get_attachment_url() casts to the id 1.
   */
  function AttachmentAsWritten(o: Oracles, log: seq<Effect>, pid: int, url: string): (int, seq<Effect>) {
    var found := o.findMedia(log, MediaName(o, url), Images);
    if found != 0 then (found, log)
    else
      var decoded := o.entityDecode(Trim(url));
      if EmptyString(decoded) then (0, log)
      else
        var res := o.sideload(log, decoded, pid, Images);
        var log1 := log + [MediaSideloaded(decoded, pid, Images, res)];
        match res
        case MediaCreated(id) => (id, log1)
        case MediaError => (1, log1)
  }

  /** An <img> reference processed as written. */
  function TagImageStepAsWritten(o: Oracles, home: string, pid: int, st: (seq<Effect>, string), url: string): (seq<Effect>, string) {
    if !Eligible(o, home, url) then st
    else
      var (id, log1) := AttachmentAsWritten(o, st.0, pid, url);
      if id == 0 then (log1, st.1)
      else
        var u := o.attachmentUrl(log1, id);
        (log1, if !EmptyString(u) then StrReplace(url, u, st.1) else st.1)
  }

  lemma StrReplaceWhole(search: string, replace: string)
    requires search != []
    ensures StrReplace(search, replace, search) == replace
  {
    assert search[..|search|] == search;
    assert search[|search|..] == [];
  }

  /**
   * A remote image that is not in the library and whose download fails is
   * rewritten, as written, to the URL of attachment 1.
   */
  lemma FailedImageRewrittenAsWritten(o: Oracles, home: string, pid: int, log: seq<Effect>, url: string)
    requires Eligible(o, home, url)
    requires o.findMedia(log, MediaName(o, url), Images) == 0
    requires !EmptyString(o.entityDecode(Trim(url)))
    requires o.sideload(log, o.entityDecode(Trim(url)), pid, Images) == MediaError
    requires var log1 := log + [MediaSideloaded(o.entityDecode(Trim(url)), pid, Images, MediaError)];
             !EmptyString(o.attachmentUrl(log1, 1)) && o.attachmentUrl(log1, 1) != url
    ensures TagImageStepAsWritten(o, home, pid, (log, url), url).1 != url
  {
    var log1 := log + [MediaSideloaded(o.entityDecode(Trim(url)), pid, Images, MediaError)];
    assert AttachmentAsWritten(o, log, pid, url) == (1, log1);
    StrReplaceWhole(url, o.attachmentUrl(log1, 1));
  }

  /** The corrected step leaves the reference to a failed download in place. */
  lemma FailedImageKept(o: Oracles, home: string, pid: int, log: seq<Effect>, url: string)
    requires o.findMedia(log, MediaName(o, url), Images) == 0
    requires o.sideload(log, o.entityDecode(Trim(url)), pid, Images) == MediaError
    ensures ImageStep(o, home, pid, (log, url), TagRef(url)).1 == url
  {
    FailedSideloadHasNoAttachment(o, log, pid, url, Images);
    assert RefUrl(TagRef(url)) == url;
    assert Attachment(o, (log, url).0, pid, RefUrl(TagRef(url)), Images).0 == 0;
  }
}
