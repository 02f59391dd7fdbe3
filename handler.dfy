/**
 * The handler base: the configuration a handler was built with and its webhook event
 * allow-list. The GitHub and GitLab handlers are this class plus their own operations.
 */
module Handlers {
  import opened Wrappers

  /**
   * The configuration the handlers read. `orgs`, `users` and `topics` may be unset (`None`);
   * a set but empty list is still "set" where the code tests the list itself for truth.
   */
  datatype HandlerConfig = HandlerConfig(
    endpoint: string,
    token: string,
    orgs: Option<seq<string>>,
    users: Option<seq<string>>,
    topics: Option<seq<string>>,
    repositories: seq<string>,
    approveToken: Option<string>)

  /** Request headers, one string value per lower-case header name. */
  type Headers = map<string, string>

  class Handler {
    const config: HandlerConfig
    var allowedEvents: seq<string>

    /** `new Handler(config)`: the config is kept as given, and no event is allowed yet. */
    constructor (config: HandlerConfig)
      ensures this.config == config
      ensures allowedEvents == []
      ensures forall event :: !CheckEvent(event)
    {
      this.config := config;
      allowedEvents := [];
    }

    /** `getConfig()` */
    function GetConfig(): HandlerConfig
    {
      config
    }

    /** `checkEvent(event)`: exact membership in the allow-list. */
    predicate CheckEvent(event: string)
      reads this
    {
      event in allowedEvents
    }

    /** `setAllowedEvents(events)`: the list is replaced, not extended; the config is untouched. */
    method SetAllowedEvents(events: seq<string>)
      modifies this
      ensures allowedEvents == events
      ensures forall event :: CheckEvent(event) <==> event in events
    {
      allowedEvents := events;
    }
  }
}
