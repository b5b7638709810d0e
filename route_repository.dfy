/**
 * NacosRouteDefinitionRepository: the gateway's routes live in one JSON
 * document of the Nacos configuration store, named by a data id and a group.
 * Every load fetches and parses that document; a change notification only asks
 * the gateway to reload. Routes are never written back.
 */
module NacosRouteDefinitionRepository {
  import opened Wrappers
  import opened Dto

  /** The bound, in milliseconds, given to every fetch of the route document. */
  const FetchTimeoutMillis := 5000

  /** A route as the document describes it; the repository passes it on untouched. */
  datatype RouteDefinition = RouteDefinition(
    id: Option<string>,
    predicates: seq<string>,
    filters: seq<string>,
    uri: Option<string>,
    order: int)

  /** getConfig: the document text (null when there is none), or a NacosException. */
  datatype ConfigFetch = Content(content: Option<string>) | StoreError

  /** What a load hands to the route locator: a list of routes, or an exception
      that escapes getRouteDefinitions. */
  datatype Load = Routes(routes: seq<RouteDefinition>) | Fault

  /** The only event the repository publishes. */
  datatype Event = RefreshRoutes

  /** StringUtils.isNotEmpty: neither null nor "". */
  predicate IsNotEmpty(content: Option<string>) {
    content.Some? && |content.value| > 0
  }

  /** getListByStr: `parse` stands for JSONObject.parseArray, which throws on a
      malformed document (Malformed) and may answer null (Null). Empty content is
      an empty list and is not parsed. */
  function GetListByStr(content: Option<string>, parse: string -> Parse<seq<RouteDefinition>>)
    : (r: Parse<seq<RouteDefinition>>)
    ensures !IsNotEmpty(content) ==> r == Parsed([])
    ensures IsNotEmpty(content) ==> r == parse(content.value)
  {
    if IsNotEmpty(content) then parse(content.value) else Parsed([])
  }

  /** getRouteDefinitions on a fetched document. Only the store's exception is
      caught, giving no routes; a parse exception escapes, and a null list makes
      Flux.fromIterable throw. */
  function LoadRoutes(fetched: ConfigFetch, parse: string -> Parse<seq<RouteDefinition>>): Load {
    match fetched
    case StoreError => Routes([])
    case Content(content) =>
      match GetListByStr(content, parse)
      case Parsed(routes) => Routes(routes)
      case Malformed => Fault
      case Null => Fault
  }

  // ---- properties of a load ----

  /** A load gives no routes exactly when the store fails, the document is null or
      empty, or it parses to an empty list. */
  lemma LoadIsEmptyIff(fetched: ConfigFetch, parse: string -> Parse<seq<RouteDefinition>>)
    ensures LoadRoutes(fetched, parse) == Routes([]) <==>
              fetched.StoreError?
              || !IsNotEmpty(fetched.content)
              || parse(fetched.content.value) == Parsed([])
  {
  }

  /** A non-empty document gives the parsed routes, in the document's order. */
  lemma LoadKeepsDocumentOrder(content: string, parse: string -> Parse<seq<RouteDefinition>>,
                               routes: seq<RouteDefinition>)
    requires |content| > 0 && parse(content) == Parsed(routes)
    ensures LoadRoutes(Content(Some(content)), parse) == Routes(routes)
  {
  }

  /** A load fails exactly when a non-empty document does not parse to a list:
      the store's exception is the only one turned into an empty result. */
  lemma LoadFaultIff(fetched: ConfigFetch, parse: string -> Parse<seq<RouteDefinition>>)
    ensures LoadRoutes(fetched, parse).Fault? <==>
              fetched.Content? && IsNotEmpty(fetched.content) && !parse(fetched.content.value).Parsed?
  {
  }

  /** The parser is consulted only on a non-empty document: with none, any two
      parsers give the same load. */
  lemma EmptyContentIsNotParsed(fetched: ConfigFetch, parse: string -> Parse<seq<RouteDefinition>>,
                                parse': string -> Parse<seq<RouteDefinition>>)
    requires fetched.StoreError? || !IsNotEmpty(fetched.content)
    ensures LoadRoutes(fetched, parse) == LoadRoutes(fetched, parse') == Routes([])
  {
  }

  // ---- the collaborators ----

  /** The Nacos configuration service: its documents, whether it can be reached,
      whether it refuses listeners, and the listeners and fetches it has seen. */
  class ConfigService {
    var documents: map<(string, string), string>
    var reachable: bool
    var refusesListeners: bool
    var listeners: seq<(string, string)>
    var fetches: seq<(string, string, int)>

    constructor(documents: map<(string, string), string>, reachable: bool, refusesListeners: bool)
      ensures this.documents == documents && this.reachable == reachable
      ensures this.refusesListeners == refusesListeners
      ensures listeners == [] && fetches == []
    {
      this.documents := documents;
      this.reachable := reachable;
      this.refusesListeners := refusesListeners;
      listeners := [];
      fetches := [];
    }

    /** addListener: registers a listener for (dataId, group), or throws
        NacosException (the false result) and registers nothing. */
    method AddListener(dataId: string, group: string) returns (ok: bool)
      modifies this
      ensures ok == !refusesListeners
      ensures listeners == if ok then old(listeners) + [(dataId, group)] else old(listeners)
      ensures documents == old(documents) && reachable == old(reachable)
      ensures refusesListeners == old(refusesListeners) && fetches == old(fetches)
    {
      ok := !refusesListeners;
      if ok {
        listeners := listeners + [(dataId, group)];
      }
    }

    /** getConfig: the document, null when there is none, or NacosException when
        the store cannot be reached. Each fetch is recorded with its bound. */
    method GetConfig(dataId: string, group: string, timeoutMillis: int) returns (r: ConfigFetch)
      modifies this
      ensures r == if !reachable then StoreError
                   else Content(if (dataId, group) in documents then Some(documents[(dataId, group)]) else None)
      ensures fetches == old(fetches) + [(dataId, group, timeoutMillis)]
      ensures documents == old(documents) && reachable == old(reachable)
      ensures refusesListeners == old(refusesListeners) && listeners == old(listeners)
    {
      if !reachable {
        r := StoreError;
      } else if (dataId, group) in documents {
        r := Content(Some(documents[(dataId, group)]));
      } else {
        r := Content(None);
      }
      fetches := fetches + [(dataId, group, timeoutMillis)];
    }
  }

  /** The application event publisher, as the list of events it was given. */
  class EventPublisher {
    var events: seq<Event>

    constructor()
      ensures events == []
    {
      events := [];
    }

    method PublishEvent(e: Event)
      modifies this
      ensures events == old(events) + [e]
    {
      events := events + [e];
    }
  }

  /** The repository: the publisher and the configuration it was built with, and
      the document name taken from the gateway's configuration. */
  class Repository {
    const publisher: EventPublisher
    const config: ConfigService
    const dataId: string
    const group: string
    const parse: string -> Parse<seq<RouteDefinition>>

    /** The constructor stores its collaborators and registers exactly one
        listener for the route document; a refused registration is logged and
        construction goes on. Nothing is published. */
    constructor(publisher: EventPublisher, config: ConfigService, dataId: string, group: string,
                parse: string -> Parse<seq<RouteDefinition>>)
      modifies config
      ensures this.publisher == publisher && this.config == config
      ensures this.dataId == dataId && this.group == group && this.parse == parse
      ensures config.listeners == if old(config.refusesListeners) then old(config.listeners)
                                  else old(config.listeners) + [(dataId, group)]
      ensures config.documents == old(config.documents) && config.reachable == old(config.reachable)
      ensures config.refusesListeners == old(config.refusesListeners) && config.fetches == old(config.fetches)
    {
      this.publisher := publisher;
      this.config := config;
      this.dataId := dataId;
      this.group := group;
      this.parse := parse;
      new;
      var _ := config.AddListener(dataId, group);
    }

    /** The receiveConfigInfo of the listener the constructor registered for
        (dataId, group) in `config.listeners`: one refresh event is published; the
        pushed text is not read, and neither the store nor the routes change. */
    method ReceiveConfigInfo(configInfo: Option<string>)
      modifies publisher
      ensures publisher.events == old(publisher.events) + [RefreshRoutes]
    {
      publisher.PublishEvent(RefreshRoutes);
    }

    /** getRouteDefinitions: one fetch of the route document, bounded by 5000 ms,
        and the load of what came back. */
    method GetRouteDefinitions() returns (r: Load)
      modifies config
      ensures config.fetches == old(config.fetches) + [(dataId, group, FetchTimeoutMillis)]
      ensures r == LoadRoutes(
                     if !config.reachable then StoreError
                     else Content(if (dataId, group) in config.documents
                                  then Some(config.documents[(dataId, group)]) else None),
                     parse)
      ensures config.documents == old(config.documents) && config.reachable == old(config.reachable)
      ensures config.refusesListeners == old(config.refusesListeners)
      ensures config.listeners == old(config.listeners)
    {
      var fetched := config.GetConfig(dataId, group, FetchTimeoutMillis);
      r := LoadRoutes(fetched, parse);
    }

    /** save: answers null and stores nothing. */
    method Save(route: RouteDefinition) returns (r: Option<()>)
      ensures r == None
    {
      r := None;
    }

    /** delete: answers null and removes nothing. */
    method Delete(routeId: string) returns (r: Option<()>)
      ensures r == None
    {
      r := None;
    }
  }
}
