/** Configuration read from the environment (config/config.go). The
    environment lookup is injected as a function from key to value, the
    empty string standing for an unset variable. */
module Config {
  import opened Wrappers

  datatype Config = Config(notionToken: string, databaseId: string, dbPath: string, certPath: string)

  /** Go's zero value of Config. */
  const ZeroConfig := Config("", "", "", "")

  /** The keys that must be set; CERT_PATH is optional. */
  const RequiredKeys: set<string> := {"NOTION_TOKEN", "NOTION_DATABASE_ID", "KOBO_DB_PATH"}

  /** config/config.go GetConfigWithLoader: the configuration and no error,
      or the zero configuration and an error. */
  function GetConfigWithLoader(getEnv: string -> string): (r: (Config, Option<Error>))
    ensures r.1.Some? <==> exists key :: key in RequiredKeys && getEnv(key) == ""
    ensures r.1.Some? ==> r == (ZeroConfig, Some(MissingEnv))
    ensures r.1.None? ==> r.0.notionToken == getEnv("NOTION_TOKEN") && r.0.databaseId == getEnv("NOTION_DATABASE_ID")
    ensures r.1.None? ==> r.0.dbPath == getEnv("KOBO_DB_PATH") && r.0.certPath == getEnv("CERT_PATH")
  {
    var notionToken := getEnv("NOTION_TOKEN");
    var databaseId := getEnv("NOTION_DATABASE_ID");
    var dbPath := getEnv("KOBO_DB_PATH");
    var certPath := getEnv("CERT_PATH");
    if notionToken == "" || databaseId == "" || dbPath == "" then
      (ZeroConfig, Some(MissingEnv))
    else
      (Config(notionToken, databaseId, dbPath, certPath), None)
  }

  /** The lookup of the tests' mock loader: a map, unset keys read as "". */
  function EnvFrom(vars: map<string, string>): string -> string
  {
    key => if key in vars then vars[key] else ""
  }

  /** An unset CERT_PATH never causes an error: with the three required keys
      set the configuration is accepted whatever CERT_PATH holds. */
  lemma CertPathOptional(getEnv: string -> string)
    requires forall key :: key in RequiredKeys ==> getEnv(key) != ""
    ensures GetConfigWithLoader(getEnv).1 == None
    ensures GetConfigWithLoader(getEnv).0.certPath == getEnv("CERT_PATH")
  {
  }

  /** config/config_test.go: all four values present. */
  lemma AllValuesPresent(token: string, db: string, path: string, cert: string)
    requires token == "test_token" && db == "test_database_id" && path == "/path/to/kobo.db" && cert == "/path/to/cert"
    ensures var env := EnvFrom(map["NOTION_TOKEN" := token, "NOTION_DATABASE_ID" := db,
                                   "KOBO_DB_PATH" := path, "CERT_PATH" := cert]);
      GetConfigWithLoader(env) == (Config(token, db, path, cert), None)
  {
  }

  /** config/config_test.go: leaving out any one required key is an error. */
  lemma OneRequiredValueMissing(missing: string, vars: map<string, string>)
    requires missing in RequiredKeys && missing !in vars
    ensures GetConfigWithLoader(EnvFrom(vars)) == (ZeroConfig, Some(MissingEnv))
  {
  }
}
