/**
 * app/Http/Controllers/Api/SettingsController.php: the settings read
 * through the cache with the file as fallback, the save that writes both,
 * the validation of `store`, and the format check and encoding choice of
 * `export`.
 */
module SettingsController {
  import opened Common

  /** A settings value as JSON carries it. */
  datatype Value = Text(s: string) | Flag(b: bool) | Number(n: int)

  type Settings = map<string, Value>

  /** The defaults `getSettings` starts from. */
  const Defaults: Settings := map[
    "companyName" := Text("NexaPro"),
    "companyEmail" := Text("admin@nexapro.com"),
    "timezone" := Text("Asia/Jakarta"),
    "dateFormat" := Text("DD/MM/YYYY"),
    "language" := Text("en"),
    "emailNotifications" := Flag(true),
    "pushNotifications" := Flag(true),
    "taskReminders" := Flag(true),
    "projectUpdates" := Flag(true),
    "weeklyReports" := Flag(false),
    "twoFactorAuth" := Flag(false),
    "sessionTimeout" := Number(30),
    "passwordExpiry" := Number(90),
    "loginAttempts" := Number(5),
    "theme" := Text("light"),
    "sidebarCollapsed" := Flag(false),
    "compactMode" := Flag(false),
    "slackIntegration" := Flag(false),
    "githubIntegration" := Flag(false),
    "googleCalendar" := Flag(false),
    "jiraIntegration" := Flag(false),
    "autoBackup" := Flag(true),
    "backupFrequency" := Text("daily"),
    "dataRetention" := Number(365),
    "exportFormat" := Text("csv")
  ]

  /** `array_merge($defaults, $saved)` on string keys: a saved key overrides, the rest come from the defaults. */
  function Merge(defaults: Settings, saved: Settings): (r: Settings)
    ensures forall k :: k in r <==> k in defaults || k in saved
    ensures forall k :: k in saved ==> r[k] == saved[k]
    ensures forall k :: k in defaults && k !in saved ==> r[k] == defaults[k]
  {
    map k | k in defaults.Keys + saved.Keys :: if k in saved then saved[k] else defaults[k]
  }

  /** What `json_decode(..., true)` makes of `settings.json`: an object, or null for text it cannot decode. */
  datatype FileContent = Decoded(saved: Settings) | Undecodable

  /** The body of the `Cache::remember` callback: defaults, overridden by the file when it decodes. */
  function Loaded(file: Option<FileContent>): (r: Settings)
    ensures file.None? ==> r == Defaults
    ensures file == Some(Undecodable) ==> r == Defaults
    ensures file.Some? && file.value.Decoded? ==> r == Merge(Defaults, file.value.saved)
  {
    match file
    case None => Defaults
    case Some(Undecodable) => Defaults
    case Some(Decoded(saved)) => Merge(Defaults, saved)
  }

  /** A read that has to go to the file never lacks a default key. */
  lemma LoadedHasEveryDefault(file: Option<FileContent>)
    ensures forall k :: k in Defaults ==> k in Loaded(file)
    ensures file.Some? && file.value.Decoded? ==>
      forall k :: k in Defaults && k !in file.value.saved ==> Loaded(file)[k] == Defaults[k]
  {
  }

  /** The cache entry `app_settings` and the file `settings.json`. */
  class SettingsStore {
    var cache: Option<Settings>
    var file: Option<FileContent>

    constructor (file0: Option<FileContent>)
      ensures cache.None? && file == file0
    {
      cache, file := None, file0;
    }

    /**
     * `getSettings`: a cached value is returned unchanged; on a miss the
     * settings are loaded from the defaults and the file, and cached.
     */
    method GetSettings() returns (s: Settings)
      modifies this
      ensures old(cache).Some? ==> s == old(cache).value
      ensures old(cache).None? ==> s == Loaded(file)
      ensures cache == Some(s) && file == old(file)
    {
      if cache.Some? {
        return cache.value;
      }
      s := Loaded(file);
      cache := Some(s);
    }

    /** `saveSettings`: the given settings, as they are, into both the cache and the file. */
    method SaveSettings(settings: Settings)
      modifies this
      ensures cache == Some(settings) && file == Some(Decoded(settings))
    {
      cache := Some(settings);
      file := Some(Decoded(settings));
    }

    /** The cache entry lapses after its 3600 seconds. */
    method Expire()
      modifies this
      ensures cache.None? && file == old(file)
    {
      cache := None;
    }
  }

  /** The rule of one key of `store`. */
  datatype Rule = TextRule(max: nat) | EmailRule(max: nat) | BoolRule | IntRule(lo: int, hi: int) | InRule(allowed: seq<string>)

  const Rules: map<string, Rule> := map[
    "companyName" := TextRule(255),
    "companyEmail" := EmailRule(255),
    "timezone" := TextRule(50),
    "dateFormat" := TextRule(20),
    "language" := TextRule(10),
    "emailNotifications" := BoolRule,
    "pushNotifications" := BoolRule,
    "taskReminders" := BoolRule,
    "projectUpdates" := BoolRule,
    "weeklyReports" := BoolRule,
    "twoFactorAuth" := BoolRule,
    "sessionTimeout" := IntRule(5, 480),
    "passwordExpiry" := IntRule(30, 365),
    "loginAttempts" := IntRule(3, 10),
    "theme" := InRule(["light", "dark", "auto"]),
    "sidebarCollapsed" := BoolRule,
    "compactMode" := BoolRule,
    "slackIntegration" := BoolRule,
    "githubIntegration" := BoolRule,
    "googleCalendar" := BoolRule,
    "jiraIntegration" := BoolRule,
    "autoBackup" := BoolRule,
    "backupFrequency" := InRule(["daily", "weekly", "monthly"]),
    "dataRetention" := IntRule(30, 1095),
    "exportFormat" := InRule(["csv", "json", "xlsx", "pdf"])
  ]

  /** Whether a value of the right kind passes a rule; a malformed field fails every rule. */
  predicate Passes(rule: Rule, v: Value)
  {
    match rule
    case TextRule(max) => v.Text? && |v.s| <= max
    case EmailRule(max) => v.Text? && |v.s| <= max
    case BoolRule => v.Flag?
    case IntRule(lo, hi) => v.Number? && lo <= v.n <= hi
    case InRule(allowed) => v.Text? && v.s in allowed
  }

  /**
   * The request of `store`: every key it carries. None of the rules is
   * `required` or `nullable`, so an absent key passes and a null one fails.
   */
  predicate StoreValid(request: map<string, Field<Value>>)
  {
    forall k :: k in request && k in Rules && !request[k].Absent? ==>
      request[k].Given? && Passes(Rules[k], request[k].value)
  }

  /** `$validated`: the keys under a rule that the request carries, with their values. */
  function Validated(request: map<string, Field<Value>>): (v: Settings)
    ensures forall k :: k in v <==> k in request && k in Rules && request[k].Given?
    ensures forall k :: k in v ==> v[k] == request[k].value
  {
    map k | k in request.Keys * Rules.Keys && request[k].Given? :: request[k].value
  }

  /** Each default passes its own rule, and the two tables name the same keys. */
  lemma DefaultsPassRules()
    ensures Defaults.Keys == Rules.Keys
    ensures forall k :: k in Defaults ==> Passes(Rules[k], Defaults[k])
  {
    SameKeys();
  }

  lemma SameKeys()
    ensures Defaults.Keys == Rules.Keys
  {
  }

  /**
   * `store`: 422 when a rule fails, with nothing saved; otherwise the
   * validated keys are saved in both places and 200 returned with them.
   */
  method Store(store: SettingsStore, request: map<string, Field<Value>>) returns (code: int, saved: Settings)
    modifies store
    ensures !StoreValid(request) ==> code == 422 && store.cache == old(store.cache) && store.file == old(store.file)
    ensures StoreValid(request) ==>
      && code == 200 && saved == Validated(request)
      && store.cache == Some(saved) && store.file == Some(Decoded(saved))
  {
    if !StoreValid(request) {
      return 422, map[];
    }
    saved := Validated(request);
    store.SaveSettings(saved);
    code := 200;
  }

  /**
   * After a save, a read served from the cache holds only the submitted
   * keys, while a read after the cache lapses sees every default as well.
   */
  lemma SavedSubsetShadowsDefaults(saved: Settings, k: string)
    requires k in Defaults && k !in saved
    ensures k in Loaded(Some(Decoded(saved))) && Loaded(Some(Decoded(saved)))[k] == Defaults[k]
  {
  }

  /** A submitted key is read back as submitted, from the cache or from the file. */
  lemma SavedKeyReadBack(saved: Settings, k: string)
    requires k in saved
    ensures Loaded(Some(Decoded(saved)))[k] == saved[k]
  {
  }

  /** The file encodings `formatExportData` chooses between. */
  datatype Encoding = PrettyJson | CompactJson | Csv

  const ExportFormats: seq<string> := ["csv", "json", "xlsx", "pdf"]

  /**
   * `formatExportData`: `json` pretty-printed, `csv` as CSV, and `xlsx`,
   * `pdf` and anything else as plain `json_encode` output.
   */
  function ExportEncoding(format: string): (e: Encoding)
    ensures e == PrettyJson <==> format == "json"
    ensures e == Csv <==> format == "csv"
    ensures format == "xlsx" || format == "pdf" ==> e == CompactJson
  {
    if format == "json" then PrettyJson
    else if format == "csv" then Csv
    else CompactJson
  }

  /** The outcome of `export`: 400 for an unknown format, otherwise a file in the chosen format and encoding. */
  datatype ExportOutcome = Rejected | Written(format: string, encoding: Encoding)

  /** `export`: `format` defaults to `csv`; a null or unlisted format is rejected before any data is gathered. */
  function Export(format: Field<string>): (r: ExportOutcome)
    ensures format.Absent? ==> r == Written("csv", Csv)
    ensures r.Rejected? <==> !format.Absent? && !(format.Given? && format.value in ExportFormats)
    ensures r.Written? ==> r.format in ExportFormats && r.encoding == ExportEncoding(r.format)
  {
    var f := if format.Absent? then Some("csv") else if format.Given? then Some(format.value) else None;
    if f.Some? && f.value in ExportFormats then Written(f.value, ExportEncoding(f.value)) else Rejected
  }

  /** The `xlsx` and `pdf` exports are the same bytes, and differ from the `json` one. */
  lemma XlsxAndPdfAlike()
    ensures Export(Given("xlsx")) == Written("xlsx", CompactJson)
    ensures Export(Given("pdf")) == Written("pdf", CompactJson)
    ensures Export(Given("json")) == Written("json", PrettyJson)
  {
  }
}
