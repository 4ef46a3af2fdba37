/**
  The image-kind cache of raxis/kernel/src/canonical_images_preflight.rs: a stamp-gated cache
  in front of a manifest verifier.
 */
module ImageCache {
  import opened Wrappers

  type Path = string
  type Content = seq<int>

  datatype ImageKind = RootfsErofs | RootfsInitramfsCpio

  datatype CanonicalKind = Reviewer | Orchestrator | ExecutorStarter

  /** A file: its bytes, its length and its modification time where the filesystem keeps one. */
  datatype File = File(bytes: Content, len: nat, mtime: Option<nat>)

  /** What is on disk for an image path: the image and its sibling manifest. */
  datatype Entry = Entry(image: Option<File>, manifest: Option<Content>)

  type Disk = Path -> Entry

  /** Verification of an image against its manifest, and the unverified format hint. */
  datatype Verifier = Verifier(
    verify: (Option<Content>, Content, CanonicalKind, string) -> Option<ImageKind>,
    hint: Content -> Option<ImageKind>)

  datatype Cached = Cached(
    imageKind: ImageKind, trusted: bool, mtime: nat, len: nat, version: string, kind: CanonicalKind)

  type Cache = map<Path, Cached>

  function Bytes(f: Option<File>): Option<Content> {
    if f.Some? then Some(f.value.bytes) else None
  }

  /** What the verifying path answers, without any cache. */
  function Uncached(v: Verifier, e: Entry, kind: CanonicalKind, version: string): (ImageKind, bool) {
    match e.manifest
    case None => (RootfsErofs, false)
    case Some(m) =>
      match v.verify(Bytes(e.image), m, kind, version)
      case Some(k) => (k, true)
      case None => (match v.hint(m) case Some(k) => k case None => RootfsErofs, false)
  }

  /** The stamp a stat yields, when both the file and its modification time can be read. */
  function Stamp(e: Entry): Option<(nat, nat)> {
    if e.image.Some? && e.image.value.mtime.Some? then Some((e.image.value.mtime.value, e.image.value.len)) else None
  }

  predicate Hit(c: Cache, e: Entry, path: Path, kind: CanonicalKind, version: string) {
    && Stamp(e).Some? && path in c
    && (c[path].mtime, c[path].len) == Stamp(e).value
    && c[path].version == version && c[path].kind == kind
  }

  function Answer(v: Verifier, c: Cache, e: Entry, path: Path, kind: CanonicalKind, version: string)
    : (ImageKind, bool)
  {
    if Hit(c, e, path, kind, version) then (c[path].imageKind, c[path].trusted) else Uncached(v, e, kind, version)
  }

  /** Only a verified answer is stored, under the stamp of the bytes just verified. */
  function Stored(v: Verifier, c: Cache, e: Entry, path: Path, kind: CanonicalKind, version: string): Cache {
    var (k, trusted) := Uncached(v, e, kind, version);
    if Hit(c, e, path, kind, version) || !trusted || Stamp(e).None? then c
    else c[path := Cached(k, trusted, Stamp(e).value.0, Stamp(e).value.1, version, kind)]
  }

  /** The process-wide cache with its one operation. */
  class ImageKindCache {
    var cache: Cache

    constructor ()
      ensures cache == map[]
    {
      cache := map[];
    }

    /** resolve_image_kind_for_role over the files found at the path during the call. */
    method ResolveImageKindForRole(v: Verifier, e: Entry, path: Path, kind: CanonicalKind, version: string)
      returns (r: (ImageKind, bool))
      modifies this
      ensures r == Answer(v, old(cache), e, path, kind, version)
      ensures cache == Stored(v, old(cache), e, path, kind, version)
    {
      if e.image.Some? && e.image.value.mtime.Some? && path in cache {
        var entry := cache[path];
        if entry.mtime == e.image.value.mtime.value && entry.len == e.image.value.len
           && entry.version == version && entry.kind == kind {
          return (entry.imageKind, entry.trusted);
        }
      }
      if e.manifest.None? {
        return (RootfsErofs, false);
      }
      var bytes := if e.image.Some? then Some(e.image.value.bytes) else None;
      var verified := v.verify(bytes, e.manifest.value, kind, version);
      if verified.None? {
        var hint := v.hint(e.manifest.value);
        return (if hint.Some? then hint.value else RootfsErofs, false);
      }
      r := (verified.value, true);
      if e.image.Some? && e.image.value.mtime.Some? {
        cache := cache[path := Cached(r.0, r.1, e.image.value.mtime.value, e.image.value.len, version, kind)];
      }
    }
  }

  // ----- Runs -----

  /** A lookup against the disk as it is then; between lookups the disk may change. */
  datatype Lookup = Lookup(disk: Disk, path: Path, kind: CanonicalKind, version: string)

  function Run(v: Verifier, h: seq<Lookup>): Cache {
    if h == [] then map[]
    else
      var l := h[|h| - 1];
      Stored(v, Run(v, h[..|h| - 1]), l.disk(l.path), l.path, l.kind, l.version)
  }

  /** Equal stamps mean equal bytes, and a manifest changes only together with its image. */
  ghost predicate StampsTell(h: seq<Lookup>) {
    forall i, j :: 0 <= i < j < |h| ==> StampTells(h[i], h[j])
  }

  ghost predicate StampTells(a: Lookup, b: Lookup) {
    forall p :: Stamp(a.disk(p)).Some? && Stamp(a.disk(p)) == Stamp(b.disk(p)) ==>
                  Bytes(a.disk(p).image) == Bytes(b.disk(p).image) && a.disk(p).manifest == b.disk(p).manifest
  }

  /** The cache entry for p was verified during one of the lookups, under its stamp. */
  ghost predicate Verified(v: Verifier, h: seq<Lookup>, c: Cache, p: Path)
    requires p in c
  {
    exists i :: 0 <= i < |h| && VerifiedAt(v, h[i], c[p], p)
  }

  ghost predicate VerifiedAt(v: Verifier, l: Lookup, e: Cached, p: Path) {
    Stamp(l.disk(p)) == Some((e.mtime, e.len)) && e.trusted
    && Uncached(v, l.disk(p), e.kind, e.version) == (e.imageKind, true)
  }

  lemma {:induction false} EntriesVerified(v: Verifier, h: seq<Lookup>, p: Path)
    requires p in Run(v, h)
    ensures Verified(v, h, Run(v, h), p)
    decreases |h|
  {
    hide Uncached, Stamp;
    var q, l := h[..|h| - 1], h[|h| - 1];
    var c := Run(v, q);
    if p in c && Run(v, h)[p] == c[p] {
      EntriesVerified(v, q, p);
      var i :| 0 <= i < |q| && VerifiedAt(v, q[i], c[p], p);
      assert h[i] == q[i];
    } else {
      assert VerifiedAt(v, h[|h| - 1], Run(v, h)[p], p);
    }
  }

  /** Over every run in which stamps tell, the cached resolver answers what the uncached
      verifier would at that moment. */
  lemma CacheAgrees(v: Verifier, h: seq<Lookup>)
    requires h != [] && StampsTell(h)
    ensures var l := h[|h| - 1];
            Answer(v, Run(v, h[..|h| - 1]), l.disk(l.path), l.path, l.kind, l.version) ==
            Uncached(v, l.disk(l.path), l.kind, l.version)
  {
    hide Stamp, Run;
    var q, l := h[..|h| - 1], h[|h| - 1];
    var c := Run(v, q);
    var e := l.disk(l.path);
    if Hit(c, e, l.path, l.kind, l.version) {
      EntriesVerified(v, q, l.path);
      var i :| 0 <= i < |q| && VerifiedAt(v, q[i], c[l.path], l.path);
      assert q[i] == h[i] && StampTells(h[i], h[|h| - 1]);
      SameEntrySameAnswer(v, q[i].disk(l.path), e, l.kind, l.version);
    }
  }

  lemma SameEntrySameAnswer(v: Verifier, a: Entry, b: Entry, kind: CanonicalKind, version: string)
    requires Bytes(a.image) == Bytes(b.image) && a.manifest == b.manifest
    ensures Uncached(v, a, kind, version) == Uncached(v, b, kind, version)
  {
  }

  /** Untrusted outcomes are never stored: a lookup that follows one and does not hit an older
      verified entry re-reads the manifest, so a repaired manifest is seen at once. */
  lemma UntrustedNotStored(v: Verifier, h: seq<Lookup>, next: Lookup)
    requires h != []
    requires var l := h[|h| - 1];
             !Answer(v, Run(v, h[..|h| - 1]), l.disk(l.path), l.path, l.kind, l.version).1
    requires next.path == h[|h| - 1].path
    requires next.kind == h[|h| - 1].kind && next.version == h[|h| - 1].version
    requires Stamp(next.disk(next.path)) == Stamp(h[|h| - 1].disk(next.path))
    ensures Run(v, h) == Run(v, h[..|h| - 1])
    ensures Answer(v, Run(v, h), next.disk(next.path), next.path, next.kind, next.version) ==
            Uncached(v, next.disk(next.path), next.kind, next.version)
  {
    hide Stamp;
    var q, l := h[..|h| - 1], h[|h| - 1];
    var c := Run(v, q);
    if Hit(c, l.disk(l.path), l.path, l.kind, l.version) {
      EntriesVerified(v, q, l.path);
    }
  }

  // ----- Why the manifest must move with its image -----

  function Rewrites(m: Content): Entry {
    Entry(Some(File([7], 1, Some(0))), Some(m))
  }

  /** A manifest replaced under an untouched image is not noticed: the cache still answers with
      the verified format although verification would now fail. */
  lemma StaleManifestUnseen()
    ensures var v := Verifier((_, m: Content, _, _) => if m == [1] then Some(RootfsInitramfsCpio) else None, _ => None);
            var first := Lookup(_ => Rewrites([1]), "img", Reviewer, "v");
            Answer(v, Run(v, [first]), Rewrites([2]), "img", Reviewer, "v") == (RootfsInitramfsCpio, true)
            && Uncached(v, Rewrites([2]), Reviewer, "v") == (RootfsErofs, false)
  {
    var v := Verifier((_, m: Content, _, _) => if m == [1] then Some(RootfsInitramfsCpio) else None, _ => None);
    var first := Lookup(_ => Rewrites([1]), "img", Reviewer, "v");
    assert [first][..0] == [];
    assert Run(v, []) == map[];
    assert Uncached(v, Rewrites([1]), Reviewer, "v") == (RootfsInitramfsCpio, true);
    assert Run(v, [first])["img"] == Cached(RootfsInitramfsCpio, true, 0, 1, "v", Reviewer);
    assert [2][0] != [1][0];
  }

  // ----- The verifier behind the cache -----

  /** An answer is trusted exactly when a manifest is there and verifies, and is then the verified
      format; otherwise it is the format the manifest claims, or EROFS. */
  lemma UncachedIs(v: Verifier, e: Entry, kind: CanonicalKind, version: string)
    ensures var (k, trusted) := Uncached(v, e, kind, version);
            var bytes := if e.image.Some? then Some(e.image.value.bytes) else None;
            && (trusted <==> e.manifest.Some? && v.verify(bytes, e.manifest.value, kind, version).Some?)
            && (trusted ==> v.verify(bytes, e.manifest.value, kind, version) == Some(k))
            && (!trusted && e.manifest.Some? && v.hint(e.manifest.value).Some? ==> v.hint(e.manifest.value) == Some(k))
            && (!trusted && (e.manifest.None? || v.hint(e.manifest.value).None?) ==> k == RootfsErofs)
  {
  }

  /** A verified answer is stored under its stamp, so the next lookup that finds the same stamp,
      version and kind is answered without reading the manifest. */
  lemma VerifiedIsStored(v: Verifier, h: seq<Lookup>, next: Lookup)
    requires h != []
    requires var l := h[|h| - 1];
             && next.path == l.path && next.kind == l.kind && next.version == l.version
             && Stamp(l.disk(l.path)).Some? && Stamp(next.disk(l.path)) == Stamp(l.disk(l.path))
             && Answer(v, Run(v, h[..|h| - 1]), l.disk(l.path), l.path, l.kind, l.version).1
    ensures var l := h[|h| - 1];
            forall w: Verifier ::
              Answer(w, Run(v, h), next.disk(l.path), l.path, l.kind, l.version) ==
              Answer(v, Run(v, h[..|h| - 1]), l.disk(l.path), l.path, l.kind, l.version)
  {
  }

  /** Without an image, or without its modification time, nothing is looked up and nothing stored. */
  lemma NoStampNoCache(v: Verifier, c: Cache, e: Entry, path: Path, kind: CanonicalKind, version: string)
    requires e.image.None? || e.image.value.mtime.None?
    ensures Answer(v, c, e, path, kind, version) == Uncached(v, e, kind, version)
    ensures Stored(v, c, e, path, kind, version) == c
  {
  }

  /** A cached answer counts only for the same modification time, length, version and kind. */
  lemma OtherStampMisses(v: Verifier, c: Cache, e: Entry, path: Path, kind: CanonicalKind, version: string)
    requires path in c && e.image.Some? && e.image.value.mtime.Some?
    requires || c[path].mtime != e.image.value.mtime.value || c[path].len != e.image.value.len
             || c[path].version != version || c[path].kind != kind
    ensures Answer(v, c, e, path, kind, version) == Uncached(v, e, kind, version)
  {
  }
}
