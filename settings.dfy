/** The configuration read once at start-up from config.json (main.py:7-27).
    Reading and parsing the file is not modelled: a file that is missing or is
    not valid JSON arrives here as None, a parsed file as a map from keys to
    string values. */
module Settings {
  import opened Options

  /** The avatar used when the file names none. */
  const DefaultAvatar: string := "https://your-optional-avatar-url.png"

  datatype Config = Config(
    apiUrl: Option<string>,
    webhookUrl: Option<string>,
    accessToken: Option<string>,
    avatarUrl: string)

  /** The value stored under key, if any (Python's dict.get without a default). */
  function Lookup(file: map<string, string>, key: string): (v: Option<string>)
    ensures v.Some? <==> key in file
    ensures v.Some? ==> v.value == file[key]
  {
    if key in file then Some(file[key]) else None
  }

  /** The four configuration variables; only the avatar has a fallback. */
  function Load(file: map<string, string>): (cfg: Config)
    ensures cfg.apiUrl == Lookup(file, "MEMOS_API_URL")
    ensures cfg.webhookUrl == Lookup(file, "DISCORD_WEBHOOK_URL")
    ensures cfg.accessToken == Lookup(file, "MEMOS_ACCESS_TOKEN")
    ensures "AVATAR_URL" in file ==> cfg.avatarUrl == file["AVATAR_URL"]
    ensures "AVATAR_URL" !in file ==> cfg.avatarUrl == DefaultAvatar
  {
    Config(
      Lookup(file, "MEMOS_API_URL"),
      Lookup(file, "DISCORD_WEBHOOK_URL"),
      Lookup(file, "MEMOS_ACCESS_TOKEN"),
      if "AVATAR_URL" in file then file["AVATAR_URL"] else DefaultAvatar)
  }

  /** Python truthiness of an optional string: present and non-empty. */
  predicate Truthy(s: Option<string>) {
    s.Some? && s.value != ""
  }

  /** The start-up check: both URLs the relay needs are present and non-empty. */
  predicate HasRequired(cfg: Config) {
    Truthy(cfg.apiUrl) && Truthy(cfg.webhookUrl)
  }

  /** The check passes exactly when the file gives both URLs as non-empty strings. */
  lemma RequiredExactlyWhenBothUrlsGiven(file: map<string, string>)
    ensures HasRequired(Load(file)) <==>
      "MEMOS_API_URL" in file && file["MEMOS_API_URL"] != "" &&
      "DISCORD_WEBHOOK_URL" in file && file["DISCORD_WEBHOOK_URL"] != ""
  {
  }
}
