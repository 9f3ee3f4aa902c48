/** The projection of the permanent URI map (id to S3 key) onto the map the
    web front end publishes: id to its full public URL and its S3 key. */
module FullUrlMap {
  import opened Wrappers

  /** The public prefix every permanent URL starts with. */
  const BASE_URL: string := "https://mfcoapi.com/file/"

  /** What the published map holds for one id. */
  datatype FullUrlEntry = FullUrlEntry(url: string, path: string)

  /** `full` is the projection of `uriMap`: the same ids, each with its URL
      under BASE_URL and its S3 key as the path. */
  ghost predicate ProjectsTo(uriMap: map<string, string>, full: map<string, FullUrlEntry>) {
    && full.Keys == uriMap.Keys
    && forall id :: id in full ==> full[id] == FullUrlEntry(BASE_URL + id, uriMap[id])
  }

  /** The id a full URL points at: the URL without BASE_URL, when it starts
      with BASE_URL. */
  function IdOfUrl(url: string): (id: Option<string>)
    ensures id.Some? <==> |BASE_URL| <= |url| && url[..|BASE_URL|] == BASE_URL
    ensures id.Some? ==> url == BASE_URL + id.value
  {
    if |BASE_URL| <= |url| && url[..|BASE_URL|] == BASE_URL then Some(url[|BASE_URL|..]) else None
  }

  /** generate_full_url_map's loop: one entry per id of the URI map, in the
      order the iteration picks. */
  method GenerateFullUrlMap(uriMap: map<string, string>) returns (fullUrlMap: map<string, FullUrlEntry>)
    ensures ProjectsTo(uriMap, fullUrlMap)
    ensures |fullUrlMap| == |uriMap|
  {
    fullUrlMap := map[];
    var rest := uriMap.Keys;
    while rest != {}
      invariant rest <= uriMap.Keys
      invariant fullUrlMap.Keys == uriMap.Keys - rest
      invariant forall id :: id in fullUrlMap ==> fullUrlMap[id] == FullUrlEntry(BASE_URL + id, uriMap[id])
      decreases |rest|
    {
      var nanoid :| nanoid in rest;
      var s3Key := uriMap[nanoid];
      var fullUrl := BASE_URL + nanoid;
      fullUrlMap := fullUrlMap[nanoid := FullUrlEntry(fullUrl, s3Key)];
      rest := rest - {nanoid};
    }
    assert fullUrlMap.Keys == uriMap.Keys;
  }

  /** Stripping BASE_URL from an id's URL gives the id back. */
  lemma UrlRoundTrip(id: string)
    ensures IdOfUrl(BASE_URL + id) == Some(id)
  {
  }

  /** Every URL of the published map leads back to its id, so two ids never
      share a URL. */
  lemma ProjectionUrlsAreDistinct(uriMap: map<string, string>, full: map<string, FullUrlEntry>)
    requires ProjectsTo(uriMap, full)
    ensures forall id :: id in full ==> IdOfUrl(full[id].url) == Some(id)
    ensures forall a, b :: a in full && b in full && a != b ==> full[a].url != full[b].url
  {
  }

  /** Reading the paths back off the published map gives the URI map. */
  lemma ProjectionPathsRecoverMap(uriMap: map<string, string>, full: map<string, FullUrlEntry>)
    requires ProjectsTo(uriMap, full)
    ensures (map id | id in full :: full[id].path) == uriMap
  {
  }

  /** The projection does not depend on the iteration order: a URI map has
      exactly one. */
  lemma ProjectionIsUnique(uriMap: map<string, string>, full1: map<string, FullUrlEntry>,
                           full2: map<string, FullUrlEntry>)
    requires ProjectsTo(uriMap, full1) && ProjectsTo(uriMap, full2)
    ensures full1 == full2
  {
  }
}
