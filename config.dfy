/** The plugin manifest of `src/config.rs`: the environment variables a plugin needs, and
    the text form of a listener's configuration. */
module Config {
  import opened Wrappers

  datatype PluginLanguage = Rust | AssemblyScript

  datatype ConfigDimension = ConfigDimension(name: Option<string>, managedTags: Option<map<string, string>>)

  /** The listener kinds, each with the fields of its configuration record. */
  datatype ConfigListenerConfig =
    | Manual(model: string)
    | Upload(model: string, fileTypes: seq<string>)
    | Cron(model: string, schedule: string, after: Option<string>, until: Option<string>)
    | Email
    | Scraper(model: string, actorId: string)
    | Request(body: string, metadata: string)
    | Created(model: string, record: string)
    | Updated(model: string, record: string)
    | Deleted(model: string, record: string)

  datatype ConfigListener = ConfigListener(form: bool, config: ConfigListenerConfig)

  datatype ConfigDomainAuth = OAuth2(authUrl: string, tokenUrl: string, scopes: seq<string>) | Token

  /** A rate limit; the duration is carried as an opaque count. */
  datatype ConfigDomainRateLimit = ConfigDomainRateLimit(number: int, duration: nat)

  datatype ConfigDomain = ConfigDomain(name: Option<string>, environments: map<string, string>,
                                       headers: map<string, string>, auth: ConfigDomainAuth,
                                       rateLimit: Option<ConfigDomainRateLimit>)

  datatype ConfigPlugin = ConfigPlugin(name: string, version: string, language: PluginLanguage,
                                       dimensions: map<string, ConfigDimension>,
                                       listeners: map<string, ConfigListener>,
                                       domains: map<string, ConfigDomain>)

  const MAILSLURP_API_KEY: string := "MAILSLURP_API_KEY"
  const MAILSLURP_INBOX_ID: string := "MAILSLURP_INBOX_ID"

  /** The suffixes a domain's variable names carry after its slug. */
  const ENVIRONMENT: string := "_environment"
  const CLIENT_ID: string := "_client_id"
  const SECRET: string := "_secret"
  const TOKEN: string := "_token"

  predicate EndsWith(s: string, suffix: string)
  {
    |suffix| <= |s| && s[|s| - |suffix|..] == suffix
  }

  /** Splits a variable name into the slug and the domain suffix it ends with, if any. No
      suffix ends another, so at most one can match. */
  function SplitEnv(name: string): (r: Option<(string, string)>)
    ensures r.Some? ==> r.value.0 + r.value.1 == name
  {
    if EndsWith(name, ENVIRONMENT) then Some((name[..|name| - |ENVIRONMENT|], ENVIRONMENT))
    else if EndsWith(name, CLIENT_ID) then Some((name[..|name| - |CLIENT_ID|], CLIENT_ID))
    else if EndsWith(name, SECRET) then Some((name[..|name| - |SECRET|], SECRET))
    else if EndsWith(name, TOKEN) then Some((name[..|name| - |TOKEN|], TOKEN))
    else None
  }

  lemma EndsWithConcat(s: string, suffix: string)
    ensures EndsWith(s + suffix, suffix) && (s + suffix)[..|s|] == s
  {
    assert (s + suffix)[|s|..] == suffix;
  }

  /** A name ending in `suffix` has the last characters of `suffix`. */
  lemma EndsWithLast(s: string, suffix: string, k: nat)
    requires EndsWith(s, suffix) && 0 < k <= |suffix|
    ensures s[|s| - k] == suffix[|suffix| - k]
  {
    assert s[|s| - |suffix|..][|suffix| - k] == s[|s| - k];
  }

  /** Splitting a name built from a slug and a domain suffix gives them back. */
  lemma SplitEnvOfSuffixed(slug: string, suffix: string)
    requires suffix in [ENVIRONMENT, CLIENT_ID, SECRET, TOKEN]
    ensures SplitEnv(slug + suffix) == Some((slug, suffix))
  {
    var name := slug + suffix;
    EndsWithConcat(slug, suffix);
    var n := |name|;
    assert name[n - 1] == suffix[|suffix| - 1] && name[n - 2] == suffix[|suffix| - 2];
    if EndsWith(name, ENVIRONMENT) {
      EndsWithLast(name, ENVIRONMENT, 1);
      EndsWithLast(name, ENVIRONMENT, 2);
    }
    if EndsWith(name, CLIENT_ID) {
      EndsWithLast(name, CLIENT_ID, 1);
    }
    if EndsWith(name, SECRET) {
      EndsWithLast(name, SECRET, 1);
      EndsWithLast(name, SECRET, 2);
    }
  }

  /** Models `ConfigDomain::required_envs`: the variable names a domain with slug `slug`
      needs, in the order they are pushed. */
  function DomainRequiredEnvs(domain: ConfigDomain, slug: string): (envs: seq<string>)
    ensures |envs| == if domain.auth.OAuth2? then 3 else 2
    ensures envs[0] == slug + ENVIRONMENT
  {
    var envs := [slug + ENVIRONMENT];
    match domain.auth
    case OAuth2(_, _, _) => envs + [slug + CLIENT_ID] + [slug + SECRET]
    case Token => envs + [slug + TOKEN]
  }

  /** Every name a domain needs is its slug followed by a suffix naming what it holds: the
      environment always, then a client id and a secret for OAuth2 or a token otherwise.
      So the names are pairwise different and each gives back the slug it was made for. */
  lemma DomainEnvsSplit(domain: ConfigDomain, slug: string)
    ensures var envs := DomainRequiredEnvs(domain, slug);
            (forall i :: 0 <= i < |envs| ==> SplitEnv(envs[i]).Some? && SplitEnv(envs[i]).value.0 == slug) &&
            (forall i :: 0 <= i < |envs| ==>
               SplitEnv(envs[i]).value.1 == [ENVIRONMENT, if domain.auth.OAuth2? then CLIENT_ID else TOKEN, SECRET][i]) &&
            (forall i, j :: 0 <= i < j < |envs| ==> envs[i] != envs[j])
  {
    SplitEnvOfSuffixed(slug, ENVIRONMENT);
    SplitEnvOfSuffixed(slug, CLIENT_ID);
    SplitEnvOfSuffixed(slug, SECRET);
    SplitEnvOfSuffixed(slug, TOKEN);
  }

  /** The names the domains need: every name of every domain, under its slug. */
  function DomainEnvs(domains: map<string, ConfigDomain>): set<string>
  {
    set slug, e | slug in domains && e in DomainRequiredEnvs(domains[slug], slug) :: e
  }

  /** Some listener among `ids` is an e-mail listener. */
  predicate EmailAmong(listeners: map<string, ConfigListener>, ids: set<string>)
  {
    exists id :: id in ids && id in listeners && listeners[id].config.Email?
  }

  predicate HasEmailListener(listeners: map<string, ConfigListener>)
  {
    EmailAmong(listeners, listeners.Keys)
  }

  /** The mail service names when some listener among `ids` is an e-mail listener. */
  function MailEnvs(listeners: map<string, ConfigListener>, ids: set<string>): set<string>
  {
    if EmailAmong(listeners, ids) then {MAILSLURP_API_KEY, MAILSLURP_INBOX_ID} else {}
  }

  /** What `ConfigPlugin::required_envs` collects. */
  function RequiredEnvs(plugin: ConfigPlugin): set<string>
  {
    DomainEnvs(plugin.domains) + MailEnvs(plugin.listeners, plugin.listeners.Keys)
  }

  /** The names collected once the listeners `visited` have been visited. */
  function CollectedEnvs(plugin: ConfigPlugin, visited: set<string>): set<string>
  {
    DomainEnvs(plugin.domains) + MailEnvs(plugin.listeners, visited)
  }

  /** What listener `id` adds to the collected names. */
  function ListenerEnvs(listener: ConfigListener): set<string>
  {
    if listener.config.Email? then {MAILSLURP_API_KEY, MAILSLURP_INBOX_ID} else {}
  }

  /** Visiting one more listener adds the mail service names when it is an e-mail listener. */
  lemma CollectedEnvsVisit(plugin: ConfigPlugin, visited: set<string>, id: string)
    requires id in plugin.listeners
    ensures CollectedEnvs(plugin, visited + {id}) == CollectedEnvs(plugin, visited) + ListenerEnvs(plugin.listeners[id])
  {
    var listeners := plugin.listeners;
    if listeners[id].config.Email? {
      assert EmailAmong(listeners, visited + {id});
    } else {
      assert EmailAmong(listeners, visited + {id}) == EmailAmong(listeners, visited);
    }
  }

  /** Models `ConfigPlugin::required_envs`: the names of every domain, extended with the
      two mail service names for each e-mail listener, visiting the listeners in any
      order. */
  method PluginRequiredEnvs(plugin: ConfigPlugin) returns (envs: set<string>)
    ensures envs == RequiredEnvs(plugin)
  {
    envs := DomainEnvs(plugin.domains);
    var remaining := plugin.listeners.Keys;
    ghost var visited: set<string> := {};
    while remaining != {}
      invariant visited <= plugin.listeners.Keys && remaining == plugin.listeners.Keys - visited
      invariant envs == CollectedEnvs(plugin, visited)
      decreases |remaining|
    {
      var id :| id in remaining;
      var listener := plugin.listeners[id];
      CollectedEnvsVisit(plugin, visited, id);
      if listener.config.Email? {
        envs := envs + {MAILSLURP_API_KEY, MAILSLURP_INBOX_ID};
      } else {
        assert ListenerEnvs(listener) == {};
        assert envs + {} == envs;
      }
      assert remaining - {id} == plugin.listeners.Keys - (visited + {id});
      remaining := remaining - {id};
      visited := visited + {id};
    }
    assert visited == plugin.listeners.Keys;
  }

  /** The mail service names are no domain's: they end in none of the domain suffixes. */
  lemma MailNamesAreNotDomainNames(domains: map<string, ConfigDomain>)
    ensures MAILSLURP_API_KEY !in DomainEnvs(domains) && MAILSLURP_INBOX_ID !in DomainEnvs(domains)
  {
    assert SplitEnv(MAILSLURP_API_KEY).None? && SplitEnv(MAILSLURP_INBOX_ID).None?;
    forall slug | slug in domains
      ensures MAILSLURP_API_KEY !in DomainRequiredEnvs(domains[slug], slug)
      ensures MAILSLURP_INBOX_ID !in DomainRequiredEnvs(domains[slug], slug)
    {
      DomainEnvsSplit(domains[slug], slug);
    }
  }

  /** A name is required exactly when a domain needs it or it is a mail service name and
      some listener is an e-mail listener; in particular the mail service names are
      required exactly when there is an e-mail listener. */
  lemma RequiredEnvsMembers(plugin: ConfigPlugin, e: string)
    ensures e in RequiredEnvs(plugin) <==>
              (exists slug :: slug in plugin.domains && e in DomainRequiredEnvs(plugin.domains[slug], slug)) ||
              (HasEmailListener(plugin.listeners) && e in {MAILSLURP_API_KEY, MAILSLURP_INBOX_ID})
    ensures MAILSLURP_API_KEY in RequiredEnvs(plugin) <==> HasEmailListener(plugin.listeners)
    ensures MAILSLURP_INBOX_ID in RequiredEnvs(plugin) <==> HasEmailListener(plugin.listeners)
  {
    MailNamesAreNotDomainNames(plugin.domains);
  }

  /** Only the domains and whether some listener is an e-mail listener matter: the name,
      version, language, dimensions, `form` flags and other listener kinds do not. */
  lemma RequiredEnvsDependOnlyOnDomainsAndEmail(p: ConfigPlugin, q: ConfigPlugin)
    requires p.domains == q.domains
    requires HasEmailListener(p.listeners) == HasEmailListener(q.listeners)
    ensures RequiredEnvs(p) == RequiredEnvs(q)
  {
  }

  /** A domain's names are required by a plugin that has it under slug `slug`. */
  lemma DomainNamesRequired(plugin: ConfigPlugin, slug: string)
    requires slug in plugin.domains
    ensures forall e :: e in DomainRequiredEnvs(plugin.domains[slug], slug) ==> e in RequiredEnvs(plugin)
  {
  }
  /** The name of a listener kind, as `Display` writes it first. */
  function KindName(config: ConfigListenerConfig): string
  {
    match config
    case Manual(_) => "Manual"
    case Upload(_, _) => "Upload"
    case Cron(_, _, _, _) => "Cron"
    case Email => "Email"
    case Scraper(_, _) => "Scraper"
    case Request(_, _) => "Request"
    case Created(_, _) => "Created"
    case Updated(_, _) => "Updated"
    case Deleted(_, _) => "Deleted"
  }

  /** What `Display` writes between the angle brackets after the kind name, if anything. */
  function Argument(config: ConfigListenerConfig): Option<string>
  {
    match config
    case Manual(model) => Some(model)
    case Upload(model, _) => Some(model)
    case Cron(model, _, _, _) => Some(model)
    case Email => None
    case Scraper(_, _) => None
    case Request(body, metadata) => Some(body + ", " + metadata)
    case Created(model, record) => Some(Bracketed(model, record))
    case Updated(model, record) => Some(Bracketed(model, record))
    case Deleted(model, record) => Some(Bracketed(model, record))
  }

  /** `kind<arg>`, the shape every bracketed listener kind is written in. */
  function Bracketed(kind: string, arg: string): string
  {
    kind + "<" + arg + ">"
  }

  /** Models `Display for ConfigListenerConfig`. */
  function Show(config: ConfigListenerConfig): string
  {
    match config
    case Manual(model) => Bracketed("Manual", model)
    case Upload(model, _) => Bracketed("Upload", model)
    case Cron(model, _, _, _) => Bracketed("Cron", model)
    case Email => "Email"
    case Scraper(_, _) => "Scraper"
    case Request(body, metadata) => Bracketed("Request", body + ", " + metadata)
    case Created(model, record) => Bracketed("Created", Bracketed(model, record))
    case Updated(model, record) => Bracketed("Updated", Bracketed(model, record))
    case Deleted(model, record) => Bracketed("Deleted", Bracketed(model, record))
  }

  /** The position of the first `c` in `s`. */
  function IndexOf(s: string, c: char): (r: Option<nat>)
    ensures r.Some? ==> r.value < |s| && s[r.value] == c && forall j :: 0 <= j < r.value ==> s[j] != c
    ensures r.None? ==> forall j :: 0 <= j < |s| ==> s[j] != c
    decreases |s|
  {
    if s == [] then None
    else if s[0] == c then Some(0)
    else match IndexOf(s[1..], c)
      case None => None
      case Some(k) => Some(k + 1)
  }

  /** Reads a rendered listener configuration back: the text before the first `<` and,
      when the text ends in `>`, what lies between. */
  function ParseShown(s: string): (string, Option<string>)
  {
    match IndexOf(s, '<')
    case None => (s, None)
    case Some(i) => if s[|s| - 1] == '>' then (s[..i], Some(s[i + 1..|s| - 1])) else (s, None)
  }

  /** The kind name followed by an angle-bracketed argument is read back as both. */
  lemma ParseBracketed(kind: string, arg: string)
    requires forall j :: 0 <= j < |kind| ==> kind[j] != '<'
    ensures ParseShown(Bracketed(kind, arg)) == (kind, Some(arg))
  {
    var s := Bracketed(kind, arg);
    assert s[|kind|] == '<';
    assert forall j :: 0 <= j < |kind| ==> s[j] == kind[j];
    assert s[..|kind|] == kind;
    assert s[|kind| + 1..|s| - 1] == arg;
  }

  /** `Display` is read back by `ParseShown`: the kind comes before the first `<` and the
      argument, the model, the body and metadata, or the model and record, between the
      outer brackets; `Email` and `Scraper` are their kind names alone. */
  lemma ShowParses(config: ConfigListenerConfig)
    ensures ParseShown(Show(config)) == (KindName(config), Argument(config))
  {
    match config
    case Email => NoBracket("Email");
    case Scraper(_, _) => NoBracket("Scraper");
    case _ => ParseBracketed(KindName(config), Argument(config).value);
  }

  /** A text without `<` is read back whole. */
  lemma NoBracket(s: string)
    requires forall j :: 0 <= j < |s| ==> s[j] != '<'
    ensures ParseShown(s) == (s, None)
  {
  }

  /** The text determines the kind, and for the kinds that carry one, the argument. */
  lemma ShowDeterminesKind(c: ConfigListenerConfig, d: ConfigListenerConfig)
    requires Show(c) == Show(d)
    ensures KindName(c) == KindName(d) && Argument(c) == Argument(d)
    ensures c.Manual? ==> c == d
  {
    ShowParses(c);
    ShowParses(d);
  }

  /** Models `default_type`: the metadata type of a request listener when none is given. */
  function DefaultType(): string
  {
    "()"
  }

  /** A request listener's configuration as read from the manifest, `metadata` defaulted
      by `default_type` when absent. */
  function ConfigResponse(body: string, metadata: Option<string>): (config: ConfigListenerConfig)
    ensures config.Request? && config.body == body
    ensures metadata.Some? ==> config.metadata == metadata.value
    ensures metadata.None? ==> config.metadata == "()"
  {
    Request(body, metadata.GetOr(DefaultType()))
  }

  /** A request listener without metadata renders with the unit type. */
  lemma DefaultMetadataShown(body: string)
    ensures Show(ConfigResponse(body, None)) == Bracketed("Request", body + ", ()")
    ensures ParseShown(Show(ConfigResponse(body, None))) == ("Request", Some(body + ", ()"))
  {
    assert body + ", " + "()" == body + ", ()";
    ShowParses(ConfigResponse(body, None));
  }
  /** The text of a manual, a scheduled, an e-mail and a scraper listener configuration. */
  lemma ShowExamples()
    ensures Show(Manual("Lead")) == "Manual<Lead>"
    ensures Show(Cron("Lead", "0 * * * *", None, None)) == "Cron<Lead>"
    ensures Show(Email) == "Email" && Show(Scraper("Lead", "actor")) == "Scraper"
  {
  }

  /** The text of a request and of a deletion configuration. */
  lemma ShowTypedExamples()
    ensures Show(ConfigResponse("Body", None)) == "Request<Body, ()>"
    ensures Show(Deleted("Contact", "Id")) == "Deleted<Contact<Id>>"
  {
  }
}
