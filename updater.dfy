/**
 * `AppUpdater.checkIfUpdateNeeded` as a function from everything the check
 * observes (bundle metadata, whether the lookup URL is accepted, what the
 * transport delivers and what the JSON decoder makes of it) to the effects it
 * has: the request it issues, if any, and the completion calls it makes.
 */
module Updater {
  import opened Wrappers
  import opened Versions

  /* ---------------------------------------------------------------------- */
  /*  enum UpdaterError                                                     */
  /* ---------------------------------------------------------------------- */

  datatype UpdaterError = InvalidBundle | InvalidResponse | Other(description: string)

  /** `reason`: fixed texts for the first two kinds (spelling as in the app), the carried text for `other`. */
  function Reason(e: UpdaterError): (text: string)
    ensures e.InvalidResponse? ==> text == "Invalid responce"
    ensures e.InvalidBundle? ==> text == "Invalid bundle"
    ensures e.Other? ==> text == e.description
  {
    match e
    case InvalidResponse => "Invalid responce"
    case InvalidBundle => "Invalid bundle"
    case Other(description) => description
  }

  /**
   * The reason text does not identify the error: the two fixed kinds are told
   * apart, but an `other` error can carry either fixed text.
   */
  lemma ReasonDistinguishesOnlyFixedKinds()
    ensures Reason(InvalidBundle) != Reason(InvalidResponse)
    ensures Reason(Other("Invalid bundle")) == Reason(InvalidBundle)
    ensures Reason(Other("Invalid responce")) == Reason(InvalidResponse)
  {
  }

  /* ---------------------------------------------------------------------- */
  /*  What the check observes                                               */
  /* ---------------------------------------------------------------------- */

  /** A value of the bundle's info dictionary: a string or anything else. */
  datatype InfoValue = Text(text: string) | NotText

  /** `Bundle.main.infoDictionary`, which may be absent. */
  type Info = Option<map<string, InfoValue>>

  const VersionKey: string := "CFBundleShortVersionString"
  const IdentifierKey: string := "CFBundleIdentifier"
  const LookupPrefix: string := "http://itunes.apple.com/lookup?bundleId="

  type Bytes = seq<bv8>

  /** The three arguments of the data task's completion handler, less the URL response. */
  datatype Response = Response(data: Option<Bytes>, error: Option<string>)

  /** A JSON value as `JSONSerialization` delivers it; numbers, booleans and null are `Scalar`. */
  datatype Json = Object(fields: map<string, Json>) | Array(items: seq<Json>) | Str(text: string) | Scalar

  /** The outcome of `JSONSerialization.jsonObject`: it throws (with a description) or yields a value. */
  datatype Decoded = Threw(description: string) | Parsed(json: Json)

  /** One argument pair passed to the completion callback. */
  datatype Completion = Completion(updateAvailable: bool, error: Option<UpdaterError>)

  /** An observable effect of the check, in the order it happens. */
  datatype Event = Request(url: string) | Complete(completion: Completion)

  /* ---------------------------------------------------------------------- */
  /*  Reading the bundle                                                    */
  /* ---------------------------------------------------------------------- */

  /** `info[key] as? String`. */
  function InfoString(info: Info, key: string): (r: Option<string>)
    ensures r.Some? <==> info.Some? && key in info.value && info.value[key].Text?
    ensures r.Some? ==> r.value == info.value[key].text
  {
    if info.Some? && key in info.value && info.value[key].Text? then Some(info.value[key].text) else None
  }

  /** The lookup address for a bundle identifier (the identifier is not escaped). */
  function LookupUrl(identifier: string): (url: string)
    ensures |url| == |LookupPrefix| + |identifier|
    ensures url[..|LookupPrefix|] == LookupPrefix
    ensures url[|LookupPrefix|..] == identifier
  {
    LookupPrefix + identifier
  }

  /** What the first guard binds when it passes. */
  datatype Local = Local(currentVersion: string, url: string)

  /**
   * The first guard: the info dictionary, a string version, a string identifier
   * and a URL that `urlParses` accepts; `None` is the invalid-bundle exit.
   */
  function ReadBundle(info: Info, urlParses: string -> bool): (r: Option<Local>)
    ensures r.Some? <==>
      InfoString(info, VersionKey).Some? && InfoString(info, IdentifierKey).Some?
      && urlParses(LookupUrl(InfoString(info, IdentifierKey).value))
    ensures r.Some? ==> r.value.currentVersion == info.value[VersionKey].text
    ensures r.Some? ==> r.value.url == LookupPrefix + info.value[IdentifierKey].text
  {
    match (InfoString(info, VersionKey), InfoString(info, IdentifierKey))
    case (Some(currentVersion), Some(identifier)) =>
      var url := LookupUrl(identifier);
      if urlParses(url) then Some(Local(currentVersion, url)) else None
    case _ => None
  }

  /* ---------------------------------------------------------------------- */
  /*  Reading the lookup response                                           */
  /* ---------------------------------------------------------------------- */

  /**
   * The second guard: the top level is an object whose "results" is a
   * non-empty array whose first element is an object with a string "version".
   */
  function RemoteVersion(json: Json): (r: Option<string>)
    ensures r.Some? <==>
      && json.Object? && "results" in json.fields
      && json.fields["results"].Array? && |json.fields["results"].items| > 0
      && json.fields["results"].items[0].Object?
      && "version" in json.fields["results"].items[0].fields
      && json.fields["results"].items[0].fields["version"].Str?
    ensures r.Some? ==> r.value == json.fields["results"].items[0].fields["version"].text
  {
    if !json.Object? || "results" !in json.fields then None
    else
      var results := json.fields["results"];
      if !results.Array? || |results.items| == 0 then None
      else
        var first := results.items[0];
        if !first.Object? || "version" !in first.fields then None
        else
          var version := first.fields["version"];
          if version.Str? then Some(version.text) else None
  }

  /** A lookup reply whose first result carries `version`, as the store sends it. */
  function LookupReply(version: string, firstExtra: map<string, Json>, otherResults: seq<Json>, extra: map<string, Json>): Json
  {
    Object(extra["results" := Array([Object(firstExtra["version" := Str(version)])] + otherResults)])
  }

  /** Every field besides the first result's "version" is ignored. */
  lemma RemoteVersionOfReply(version: string, firstExtra: map<string, Json>, otherResults: seq<Json>, extra: map<string, Json>)
    ensures RemoteVersion(LookupReply(version, firstExtra, otherResults, extra)) == Some(version)
  {
  }

  /* ---------------------------------------------------------------------- */
  /*  The data task's handler: do { ... } catch { ... }                     */
  /* ---------------------------------------------------------------------- */

  /** How the `do` block ends: it returns after its completion calls, or throws. */
  datatype Flow = Returned(events: seq<Event>) | Thrown(description: string)

  /** The body of the `do` block, with `throw` and `try` made explicit. */
  function HandlerBody(currentVersion: string, response: Response, decode: Bytes -> Decoded): (flow: Flow)
    ensures flow.Returned? ==> |flow.events| == 1 && flow.events[0].Complete?
    ensures flow.Thrown? <==>
      response.error.Some? || (response.data.Some? && decode(response.data.value).Threw?)
    ensures flow.Thrown? ==>
      flow.description == (if response.error.Some? then response.error.value else decode(response.data.value).description)
  {
    if response.error.Some? then Thrown(response.error.value)
    else if response.data.None? then Returned([Complete(Completion(false, Some(InvalidResponse)))])
    else
      match decode(response.data.value)
      case Threw(description) => Thrown(description)
      case Parsed(json) =>
        match RemoteVersion(json)
        case None => Returned([Complete(Completion(false, Some(InvalidResponse)))])
        case Some(version) =>
          match (ParseVersion(version), ParseVersion(currentVersion))
          case (Some(v), Some(cv)) => Returned([Complete(Completion(Less(cv, v), None))])
          case _ => Returned([Complete(Completion(false, Some(InvalidResponse)))])
  }

  /** The whole handler: whatever the `do` block throws becomes an `other` error. */
  function Handler(currentVersion: string, response: Response, decode: Bytes -> Decoded): (events: seq<Event>)
    ensures |events| == 1 && events[0].Complete?
    ensures events[0].completion.updateAvailable ==> events[0].completion.error.None?
  {
    match HandlerBody(currentVersion, response, decode)
    case Returned(events) => events
    case Thrown(description) => [Complete(Completion(false, Some(Other(description))))]
  }

  /* ---------------------------------------------------------------------- */
  /*  static func checkIfUpdateNeeded                                       */
  /* ---------------------------------------------------------------------- */

  /** The completion calls among `events`, in order. */
  function Completions(events: seq<Event>): seq<Completion>
  {
    if events == [] then []
    else (if events[0].Complete? then [events[0].completion] else []) + Completions(events[1..])
  }

  /** The requests among `events`, by URL, in order. */
  function Requests(events: seq<Event>): seq<string>
  {
    if events == [] then []
    else (if events[0].Request? then [events[0].url] else []) + Requests(events[1..])
  }

  /**
   * Everything one call does: with an invalid bundle it completes at once
   * without a request; otherwise it issues one request to the lookup URL and
   * the handler completes when the transport answers with `response`.
   */
  function CheckIfUpdateNeeded(info: Info, urlParses: string -> bool, response: Response, decode: Bytes -> Decoded): (events: seq<Event>)
    ensures |Completions(events)| == 1 && events[|events| - 1].Complete?
    ensures |Requests(events)| == (if ReadBundle(info, urlParses).Some? then 1 else 0)
    ensures ReadBundle(info, urlParses).Some? ==> events[0] == Request(ReadBundle(info, urlParses).value.url)
  {
    match ReadBundle(info, urlParses)
    case None => [Complete(Completion(false, Some(InvalidBundle)))]
    case Some(local) =>
      [Request(local.url)] + Handler(local.currentVersion, response, decode)
  }

  /** The arguments of the one completion call. */
  function Outcome(info: Info, urlParses: string -> bool, response: Response, decode: Bytes -> Decoded): Completion
  {
    Completions(CheckIfUpdateNeeded(info, urlParses, response, decode))[0]
  }

  /* ---------------------------------------------------------------------- */
  /*  What the one completion reports                                       */
  /* ---------------------------------------------------------------------- */

  /** When the response reaches the version comparison: the local and remote versions both parse. */
  predicate ReachesComparison(currentVersion: string, response: Response, decode: Bytes -> Decoded)
  {
    && response.error.None? && response.data.Some?
    && decode(response.data.value).Parsed?
    && RemoteVersion(decode(response.data.value).json).Some?
    && ParseVersion(RemoteVersion(decode(response.data.value).json).value).Some?
    && ParseVersion(currentVersion).Some?
  }

  /**
   * The one completion is `(false, invalidBundle)` when the first guard fails,
   * and otherwise the one the data task's handler makes.
   */
  lemma OutcomeOfBundle(info: Info, urlParses: string -> bool, response: Response, decode: Bytes -> Decoded)
    ensures ReadBundle(info, urlParses).None? ==>
      Outcome(info, urlParses, response, decode) == Completion(false, Some(InvalidBundle))
    ensures ReadBundle(info, urlParses).Some? ==>
      Outcome(info, urlParses, response, decode)
        == Handler(ReadBundle(info, urlParses).value.currentVersion, response, decode)[0].completion
  {
    var events := CheckIfUpdateNeeded(info, urlParses, response, decode);
    if ReadBundle(info, urlParses).Some? {
      var handled := Handler(ReadBundle(info, urlParses).value.currentVersion, response, decode);
      assert events == [events[0]] + handled;
      assert Completions(events) == Completions(handled) == [handled[0].completion];
    }
  }

  /** A bundle that fails the first guard: `(false, invalidBundle)` and no request at all. */
  lemma InvalidBundleOutcome(info: Info, urlParses: string -> bool, response: Response, decode: Bytes -> Decoded)
    requires ReadBundle(info, urlParses).None?
    ensures CheckIfUpdateNeeded(info, urlParses, response, decode) == [Complete(Completion(false, Some(InvalidBundle)))]
  {
  }

  /** The error kind is `invalidBundle` exactly when the first guard fails. */
  lemma InvalidBundleIff(info: Info, urlParses: string -> bool, response: Response, decode: Bytes -> Decoded)
    ensures Outcome(info, urlParses, response, decode).error == Some(InvalidBundle) <==> ReadBundle(info, urlParses).None?
  {
    OutcomeOfBundle(info, urlParses, response, decode);
  }

  /**
   * A transport error, or a decoder that throws, gives `(false, other(d))`
   * with that error's description; the transport error wins even when data
   * came with it.
   */
  lemma OtherOutcome(info: Info, urlParses: string -> bool, response: Response, decode: Bytes -> Decoded)
    requires ReadBundle(info, urlParses).Some?
    ensures response.error.Some? ==>
      Outcome(info, urlParses, response, decode) == Completion(false, Some(Other(response.error.value)))
    ensures response.error.None? && response.data.Some? && decode(response.data.value).Threw? ==>
      Outcome(info, urlParses, response, decode) == Completion(false, Some(Other(decode(response.data.value).description)))
  {
    OutcomeOfBundle(info, urlParses, response, decode);
  }

  /**
   * `(false, invalidResponse)` exactly when the request went out and came back
   * without an error but with no data, a value of the wrong shape, or a
   * version (remote or local) that does not parse.
   */
  lemma InvalidResponseIff(info: Info, urlParses: string -> bool, response: Response, decode: Bytes -> Decoded)
    ensures Outcome(info, urlParses, response, decode).error == Some(InvalidResponse) <==>
      && ReadBundle(info, urlParses).Some?
      && response.error.None?
      && (response.data.None? || decode(response.data.value).Parsed?)
      && !ReachesComparison(ReadBundle(info, urlParses).value.currentVersion, response, decode)
    ensures Outcome(info, urlParses, response, decode).error == Some(InvalidResponse) ==>
      !Outcome(info, urlParses, response, decode).updateAvailable
  {
    OutcomeOfBundle(info, urlParses, response, decode);
  }

  /**
   * No error exactly when both versions are read, and then the flag is the
   * declared `current < remote`; the flag is never set alongside an error.
   */
  lemma SuccessOutcome(info: Info, urlParses: string -> bool, response: Response, decode: Bytes -> Decoded)
    ensures Outcome(info, urlParses, response, decode).error.None? <==>
      ReadBundle(info, urlParses).Some? && ReachesComparison(ReadBundle(info, urlParses).value.currentVersion, response, decode)
    ensures Outcome(info, urlParses, response, decode).error.None? ==>
      var remote := RemoteVersion(decode(response.data.value).json).value;
      Outcome(info, urlParses, response, decode).updateAvailable
        == Less(ParseVersion(ReadBundle(info, urlParses).value.currentVersion).value, ParseVersion(remote).value)
    ensures Outcome(info, urlParses, response, decode).updateAvailable ==> Outcome(info, urlParses, response, decode).error.None?
  {
    OutcomeOfBundle(info, urlParses, response, decode);
  }

  /* ---------------------------------------------------------------------- */
  /*  Sample inputs                                                         */
  /* ---------------------------------------------------------------------- */

  /** A bundle whose metadata reads version "1.2.3" and some identifier. */
  function SampleInfo(): Info
  {
    Some(map[VersionKey := Text("1.2.3"), IdentifierKey := Text("com.example.app")])
  }

  /** A transport that answers with a body and no error. */
  function Delivered(): Response
  {
    Response(Some([0x7b, 0x7d]), None)
  }

  /** A decoder stub that yields `json` for any body. */
  function Yields(json: Json): Bytes -> Decoded
  {
    _ => Parsed(json)
  }

  /** The reply {"results": [{"version": version}]}. */
  function SimpleReply(version: string): Json
  {
    LookupReply(version, map[], [], map[])
  }

  /** A later minor is an update; a later base is not, as the declared `<` has it. */
  lemma ComparedSamples()
    ensures Outcome(SampleInfo(), _ => true, Delivered(), Yields(SimpleReply("1.2.4"))) == Completion(true, None)
    ensures Outcome(SampleInfo(), _ => true, Delivered(), Yields(SimpleReply("2.0.0"))) == Completion(false, None)
  {
    var urlParses: string -> bool := _ => true;
    assert ReadBundle(SampleInfo(), urlParses).Some?;
    assert ReadBundle(SampleInfo(), urlParses).value.currentVersion == "1.2.3";
    ParsesThreeIntegers();
    SingleDigitsParse(1, 2, 4);
    SingleDigitsParse(2, 0, 0);
    RemoteVersionOfReply("1.2.4", map[], [], map[]);
    RemoteVersionOfReply("2.0.0", map[], [], map[]);
    SuccessOutcome(SampleInfo(), urlParses, Delivered(), Yields(SimpleReply("1.2.4")));
    SuccessOutcome(SampleInfo(), urlParses, Delivered(), Yields(SimpleReply("2.0.0")));
  }

  /** An empty "results" array is an invalid response. */
  lemma EmptyResultsSample()
    ensures Outcome(SampleInfo(), _ => true, Delivered(), Yields(Object(map["results" := Array([])])))
      == Completion(false, Some(InvalidResponse))
  {
    var urlParses: string -> bool := _ => true;
    var decode := Yields(Object(map["results" := Array([])]));
    assert ReadBundle(SampleInfo(), urlParses).Some?;
    assert RemoteVersion(decode(Delivered().data.value).json).None?;
    InvalidResponseIff(SampleInfo(), urlParses, Delivered(), decode);
  }

  /** A connectivity failure is reported with its description. */
  lemma OfflineSample(description: string, decode: Bytes -> Decoded)
    ensures Outcome(SampleInfo(), _ => true, Response(None, Some(description)), decode)
      == Completion(false, Some(Other(description)))
  {
    var urlParses: string -> bool := _ => true;
    assert ReadBundle(SampleInfo(), urlParses).Some?;
    OtherOutcome(SampleInfo(), urlParses, Response(None, Some(description)), decode);
  }

  /** Without an identifier in the metadata nothing is requested. */
  lemma MissingIdentifierSample(urlParses: string -> bool, response: Response, decode: Bytes -> Decoded)
    ensures CheckIfUpdateNeeded(Some(map[VersionKey := Text("1.2.3")]), urlParses, response, decode)
      == [Complete(Completion(false, Some(InvalidBundle)))]
  {
    assert IdentifierKey !in map[VersionKey := Text("1.2.3")];
  }
}
