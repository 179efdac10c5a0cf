/** The connection settings `execute` hands to the rendering server: the JDBC
    address of the database, the user and the password, read from the
    server configuration with fall-backs. The configuration values, the
    current database name and the operating-system user are inputs. */
module Config {
  import opened Wrappers
  import opened Text

  /** Python's `value or default` for a configuration entry that may be unset:
      an unset or empty entry gives the default. */
  function OrElse(value: Option<string>, default: string): string
  {
    match value
    case Some(v) => if v != "" then v else default
    case None => default
  }

  const Prefix: string := "jdbc:postgresql://"

  /** `dsn`: `jdbc:postgresql://<host>:<port>/<database>`, with `localhost`
      and `5432` standing in for an unset or empty host and port. */
  function Dsn(dbHost: Option<string>, dbPort: Option<string>, dbName: string): string
  {
    Prefix + OrElse(dbHost, "localhost") + ":" + OrElse(dbPort, "5432") + "/" + dbName
  }

  /** A reader for such an address: after the prefix, the host runs to the
      first `:`, the port to the next `/`, and the rest is the database name. */
  function DsnParts(url: string): Option<(string, string, string)>
  {
    if |url| < |Prefix| || url[..|Prefix|] != Prefix then None
    else SplitAddress(url[|Prefix|..])
  }

  function SplitAddress(rest: string): Option<(string, string, string)>
  {
    var i := Find(rest, ':');
    if i == |rest| then None
    else
      var after := rest[i + 1..];
      var j := Find(after, '/');
      if j == |after| then None
      else Some((rest[..i], after[..j], after[j + 1..]))
  }

  lemma SplitAddressOf(host: string, port: string, dbName: string)
    requires ':' !in host && '/' !in port
    ensures SplitAddress(host + ":" + port + "/" + dbName) == Some((host, port, dbName))
  {
    var after := port + ['/'] + dbName;
    var rest := host + [':'] + after;
    assert host + ":" + port + "/" + dbName == rest;
    FindAfter(host, ':', after);
    assert rest[..|host|] == host;
    assert rest[|host| + 1..] == after;
    FindAfter(port, '/', dbName);
    assert after[..|port|] == port;
    assert after[|port| + 1..] == dbName;
  }

  /** The address is read back into the host, port and database it was built
      from, the defaults included, when the host holds no `:` and the port no
      `/`. */
  lemma DsnRoundTrip(dbHost: Option<string>, dbPort: Option<string>, dbName: string)
    requires ':' !in OrElse(dbHost, "localhost") && '/' !in OrElse(dbPort, "5432")
    ensures DsnParts(Dsn(dbHost, dbPort, dbName)) == Some((OrElse(dbHost, "localhost"), OrElse(dbPort, "5432"), dbName))
  {
    var host, port := OrElse(dbHost, "localhost"), OrElse(dbPort, "5432");
    var rest := host + ":" + port + "/" + dbName;
    var url := Dsn(dbHost, dbPort, dbName);
    assert url == Prefix + rest;
    assert url[..|Prefix|] == Prefix;
    assert url[|Prefix|..] == rest;
    SplitAddressOf(host, port, dbName);
  }

  /** `password`: `db_password or ''` changes nothing but an unset password,
      which becomes empty. */
  function Password(dbPassword: Option<string>): (r: string)
    ensures dbPassword.Some? ==> r == dbPassword.value
    ensures dbPassword.None? ==> r == ""
  {
    OrElse(dbPassword, "")
  }

  /** `userName`: the configured database user, or the name of the user the
      server runs as when none is configured or the configured one is empty. */
  function UserName(dbUser: Option<string>, systemUser: string): (r: string)
    ensures dbUser.Some? && dbUser.value != "" ==> r == dbUser.value
    ensures dbUser.None? || dbUser.value == "" ==> r == systemUser
  {
    OrElse(dbUser, systemUser)
  }
}
