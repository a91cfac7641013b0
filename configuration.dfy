/**
 * Loading the database configuration for a reference: resolve the reference
 * to an id, fetch the version index at that id, then the manifest it names.
 */
module Configuration {
  import opened Wrappers
  import opened References
  import opened Pages

  /** The version-index object: its `Name` and `Versions.Current["/"]`. */
  datatype VersionIndex = VersionIndex(name: string, current: string)

  /** The manifest object: its lower-case `links` array, which may be absent. */
  datatype ManifestObject = ManifestObject(links: Option<seq<Link>>)

  /** `#DatabaseConfiguration`: the manifest's links as `Links`, with the version index as `Data`. */
  datatype DatabaseConfiguration = DatabaseConfiguration(links: Option<seq<Link>>, data: VersionIndex)

  /** `dag/get` of a version index or a manifest; None stands for a failed, timed-out or malformed answer. */
  type IndexFetcher = string -> Option<VersionIndex>
  type ManifestFetcher = string -> Option<ManifestObject>

  /** How loading ends: a thrown reference error, the caught fetch failure (`false`), or the configuration. */
  datatype Load = Threw(error: RefError) | Unavailable | Loaded(configuration: DatabaseConfiguration)

  /**
   * Reference errors escape; a failure of either fetch is caught and reported
   * as unavailable; on success the manifest's links are paired with the index
   * fetched at the reference's id.
   */
  function LoadConfiguration(ref: string, nowMs: nat, resolve: Resolver, getIndex: IndexFetcher, getManifest: ManifestFetcher): (r: Load)
    ensures r.Threw? <==> ConfigurationId(ref, nowMs, resolve).Err?
    ensures r.Threw? ==> r.error == ConfigurationId(ref, nowMs, resolve).error
    ensures r.Loaded? ==>
      var id := ConfigurationId(ref, nowMs, resolve).value;
      && getIndex(id) == Some(r.configuration.data)
      && getManifest(r.configuration.data.current) == Some(ManifestObject(r.configuration.links))
    ensures r.Unavailable? <==>
      ConfigurationId(ref, nowMs, resolve).Ok? &&
      var id := ConfigurationId(ref, nowMs, resolve).value;
      (getIndex(id).None? || getManifest(getIndex(id).value.current).None?)
  {
    match ConfigurationId(ref, nowMs, resolve)
    case Err(e) => Threw(e)
    case Ok(id) =>
      match getIndex(id)
      case None => Unavailable
      case Some(index) =>
        match getManifest(index.current)
        case None => Unavailable
        case Some(manifest) => Loaded(DatabaseConfiguration(manifest.links, index))
  }

  /** An immutable reference loads the index stored under its own cid. */
  lemma LoadImmutable(cid: string, nowMs: nat, resolve: Resolver, getIndex: IndexFetcher, getManifest: ManifestFetcher)
    requires Separator !in cid
    ensures var r := LoadConfiguration(Join(["", "ipfs", cid]), nowMs, resolve, getIndex, getManifest);
      && (r.Unavailable? <==> getIndex(cid).None? || getManifest(getIndex(cid).value.current).None?)
      && (r.Loaded? ==> r.configuration.data == getIndex(cid).value)
      && !r.Threw?
  {
    ImmutableReference(cid, [], nowMs, resolve);
    assert ["", "ipfs", cid] + [] == ["", "ipfs", cid];
  }
}
