/**
 * The database client configuration: the connection string is the configured URL,
 * with the pooling parameters appended unless the URL already asks for pooling.
 */
module Connection {
  import opened Wrappers
  import opened Text
  import opened Validation

  const PoolMarker := "pgbouncer=true"
  const PoolSuffix := "?" + PoolMarker + "&connection_limit=1"
  const NotSet := "DATABASE_URL environment variable is not set."

  lemma SuffixHasMarker()
    ensures Contains(PoolSuffix, PoolMarker)
  {
    var tail := "&connection_limit=1";
    assert StartsWith(PoolMarker + tail, PoolMarker);
    ContainsSuffix("?", PoolMarker + tail, PoolMarker);
    assert PoolSuffix == "?" + (PoolMarker + tail);
  }

  /** The URL the client uses: always asks for pooling, and is the configured URL
      itself, or that URL followed by the pooling parameters. */
  function Pooled(url: string): (r: string)
    ensures Contains(r, PoolMarker)
    ensures Contains(url, PoolMarker) ==> r == url
    ensures !Contains(url, PoolMarker) ==> r == url + PoolSuffix
  {
    if Contains(url, PoolMarker) then url
    else
      SuffixHasMarker();
      ContainsSuffix(url, PoolSuffix, PoolMarker);
      url + PoolSuffix
  }

  /** Module start-up: an absent or empty URL is an error; otherwise the pooled URL. */
  function ConnectionString(databaseUrl: Option<string>): (r: Result<string, string>)
    ensures !Truthy(databaseUrl) <==> r == Err(NotSet)
    ensures r.Ok? ==> r.value == Pooled(databaseUrl.value) && Contains(r.value, PoolMarker)
  {
    if !Truthy(databaseUrl) then Err(NotSet) else Ok(Pooled(databaseUrl.value))
  }

  /** Applying the rule to its own result changes nothing. */
  lemma PooledIdempotent(url: string)
    ensures Pooled(Pooled(url)) == Pooled(url)
  {
  }
}
