/** The attack configuration record, its defaults and its validity check. */
module Config {
  import opened Wrappers

  /** The report formats the configuration names ("html", "json", "csv");
      the field itself is free text. */
  datatype AttackConfig = AttackConfig(
    targetUrl: string,
    targetEmail: string,
    // performance
    threads: int,
    delay: real,
    timeout: int,
    // stealth
    stealthMode: bool,
    randomUserAgents: bool,
    proxy: Option<string>,
    // variant generation
    maxVariants: int,
    includeZeroWidth: bool,
    includeHomographs: bool,
    includePunycode: bool,
    // output
    outputDir: string,
    generateReport: bool,
    reportFormat: string)

  /** `AttackConfig(target_url=url, target_email=email)`: every other field
      at its declared default. */
  function Defaults(url: string, email: string): (c: AttackConfig)
    ensures c.targetUrl == url && c.targetEmail == email
    ensures 1 <= c.threads <= 50 && c.delay >= 0.0
  {
    AttackConfig(url, email, 5, 1.0, 30, false, true, None, 100, true, true, true, "results", true, "html")
  }

  /** `validate`: the guards in source order, each returning false. */
  function Validate(c: AttackConfig): (ok: bool)
    ensures c.targetUrl == [] || c.targetEmail == [] ==> !ok
    ensures c.threads < 1 || c.threads > 50 ==> !ok
    ensures c.delay < 0.0 ==> !ok
  {
    if c.targetUrl == [] || c.targetEmail == [] then false
    else if c.threads < 1 || c.threads > 50 then false
    else if c.delay < 0.0 then false
    else true
  }

  /** The three guards are the only way to fail: a configuration passes
      exactly when both targets are set, the thread count lies in 1..50 and
      the delay is not negative. */
  lemma ValidateExactly(c: AttackConfig)
    ensures Validate(c) <==> c.targetUrl != [] && c.targetEmail != [] && 1 <= c.threads <= 50 && c.delay >= 0.0
  {
  }

  /** Only the two targets, the thread count and the delay are read: two
      configurations that agree on them validate alike, whatever their
      timeout, bound, proxy, switches or output settings. */
  lemma ValidateReadsFourFields(c: AttackConfig, c': AttackConfig)
    requires c.targetUrl == c'.targetUrl && c.targetEmail == c'.targetEmail
    requires c.threads == c'.threads && c.delay == c'.delay
    ensures Validate(c) == Validate(c')
  {
  }

  /** A configuration built from two non-empty targets and the defaults
      passes; an empty target fails whatever the rest. */
  lemma DefaultsValidate(url: string, email: string)
    ensures Validate(Defaults(url, email)) <==> url != [] && email != []
  {
  }
}
