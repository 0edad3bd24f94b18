/** Where OfflineBank reads its rates document from (#doc), with the narrow
    fallback to the bundled cache, and the guard and overwrite of #save_rates.
    The file system and the network are a map from location to the document
    the XML parser makes of its content; a location absent from the map is
    one that cannot be opened. */
module Sources {
  import opened Common
  import opened RateTable

  /** The bundled copy of the feed, `./lib/offline_rates`. */
  const CachedRates: Path := "./lib/offline_rates"

  type Files = map<Path, Document>

  /** The location #doc opens first: the cache argument unless it is nil or false. */
  function SourceOf(cache: Option<Path>): (p: Path)
    ensures cache.None? ==> p == CachedRates
    ensures cache.Some? ==> p == cache.value
  {
    if cache.Some? then cache.value else CachedRates
  }

  /** #doc: open and parse the source; only when the rate query on it raises an
      XPath syntax error is the bundled cache opened and parsed instead, without
      running the query again. Any failure to open propagates. */
  function Doc(cache: Option<Path>, files: Files): (r: Result<Document, Error>)
    ensures SourceOf(cache) !in files ==> r == Failure(CannotOpen(SourceOf(cache)))
    ensures r.Success? <==>
      SourceOf(cache) in files && (files[SourceOf(cache)].RatesDocument? || CachedRates in files)
    ensures r.Success? && files[SourceOf(cache)].RatesDocument? ==> r.value == files[SourceOf(cache)]
    ensures r.Success? && files[SourceOf(cache)].NoNamespaces? ==> r.value == files[CachedRates]
    ensures r.Failure? && SourceOf(cache) in files ==> r.error == CannotOpen(CachedRates)
  {
    var source := SourceOf(cache);
    if source !in files then Failure(CannotOpen(source))
    else if files[source].RatesDocument? then Success(files[source])
    else if CachedRates !in files then Failure(CannotOpen(CachedRates))
    else Success(files[CachedRates])
  }

  /** With a nil cache only the bundled cache is ever read. */
  lemma NilCacheReadsBundledCache(files: Files)
    ensures Doc(None, files) ==
      if CachedRates in files then Success(files[CachedRates]) else Failure(CannotOpen(CachedRates))
  {
  }

  /** What the download in #save_rates wrote into the cache file before it
      ended: the whole feed, or whatever was copied before it stopped (the
      file is truncated when it is opened, so nothing copied leaves an empty
      file, which parses to NoNamespaces). */
  datatype Download = Completed(written: Document) | Interrupted(written: Document)

  /** #save_rates: raise InvalidCache for a nil or false cache before touching
      anything; otherwise overwrite the cache location with what was downloaded. */
  function SaveRates(cache: Option<Path>, files: Files, download: Download): (r: (Files, Outcome<Error>))
    ensures cache.None? ==> r == (files, Fail(InvalidCache))
    ensures cache.Some? ==> r.0.Keys == files.Keys + {cache.value}
    ensures cache.Some? ==> r.0[cache.value] == download.written
    ensures forall p | p in files && Some(p) != cache :: r.0[p] == files[p]
    ensures cache.Some? ==> (r.1.Pass? <==> download.Completed?)
    ensures r.1.Fail? ==> r.1.error == (if cache.None? then InvalidCache else DownloadInterrupted)
  {
    match cache
    case None => (files, Fail(InvalidCache))
    case Some(p) =>
      (files[p := download.written],
       if download.Completed? then Pass else Fail(DownloadInterrupted))
  }

  /** A completed save of a proper feed is what a later #doc on that cache reads. */
  lemma SaveThenDocReadsDownload(p: Path, files: Files, d: Document)
    requires d.RatesDocument?
    ensures Doc(Some(p), SaveRates(Some(p), files, Completed(d)).0) == Success(d)
  {
  }

  /** A save interrupted before any byte was copied leaves an empty cache file,
      so a later #doc on it falls back to the bundled cache. */
  lemma EmptySaveFallsBack(p: Path, files: Files)
    requires p != CachedRates && CachedRates in files
    ensures Doc(Some(p), SaveRates(Some(p), files, Interrupted(NoNamespaces)).0) == Success(files[CachedRates])
  {
  }
}
