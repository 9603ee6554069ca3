/** The enrichment pipeline (src/processor.rs), with its pluggable parts as arbitrary functions. */
module Processing {
  import opened Words
  import opened Errors
  import opened Types
  import opened Ip
  import opened Visitor
  import opened Events
  import opened Strategy

  const MAX_URL := 2048
  const MAX_ID := 128
  const MAX_UTM := 256
  const MAX_UA := 4096

  datatype ClassifyCtx =
    ClassifyCtx(registrableDomain: Option<Str>, rawReferrer: Option<Str>, utm: Utm, pageUrl: Str)

  /** `registrableDomain` stands for the Public Suffix List lookup; `geoip` for the database of the moment. */
  datatype Processor = Processor(
    strategy: Option<VisitorIdStrategy>,
    keepRawReferrer: bool,
    geoip: Option<IpAddr -> Option<Location>>,
    uaParser: Option<Str -> ParsedUa>,
    classifier: Option<ClassifyCtx -> Option<TrafficSource>>,
    registrableDomain: Str -> Option<Str>)

  // ---- Input validation ----------------------------------------------------

  function Check(s: Str, field: Field, limit: nat): Result<(), ProcessError> {
    if |s| > limit then Err(InvalidInput(field, limit)) else Ok(())
  }

  function CheckOptional(s: Option<Str>, field: Field, limit: nat): Result<(), ProcessError> {
    match s
    case Some(v) => Check(v, field, limit)
    case None => Ok(())
  }

  function Validate(raw: RawEvent): Result<(), ProcessError> {
    var _ :- if raw.kind.Custom? then ValidateCustomKind(raw.kind.name) else Ok(());
    var _ :- Check(raw.pageUrl, PageUrl, MAX_URL);
    var _ :- CheckOptional(raw.referrer, Referrer, MAX_URL);
    var _ :- CheckOptional(raw.userAgent, UserAgent, MAX_UA);
    var _ :- CheckOptional(raw.entityId, EntityId, MAX_ID);
    var _ :- CheckOptional(raw.sessionId, SessionId, MAX_ID);
    var u := raw.context.utm;
    var _ :- CheckOptional(u.source, UtmSource, MAX_UTM);
    var _ :- CheckOptional(u.medium, UtmMedium, MAX_UTM);
    var _ :- CheckOptional(u.campaign, UtmCampaign, MAX_UTM);
    var _ :- CheckOptional(u.content, UtmContent, MAX_UTM);
    CheckOptional(u.term, UtmTerm, MAX_UTM)
  }

  /** One length limit on one field of an event. */
  datatype Limit = Limit(field: Field, value: Option<Str>, bytes: nat) {
    predicate Holds() { value.Some? ==> |value.value| <= bytes }
  }

  /** Every limit, in the order in which they are reported. */
  function Limits(raw: RawEvent): seq<Limit> {
    var u := raw.context.utm;
    [ Limit(PageUrl, Some(raw.pageUrl), 2048), Limit(Referrer, raw.referrer, 2048),
      Limit(UserAgent, raw.userAgent, 4096), Limit(EntityId, raw.entityId, 128),
      Limit(SessionId, raw.sessionId, 128), Limit(UtmSource, u.source, 256), Limit(UtmMedium, u.medium, 256),
      Limit(UtmCampaign, u.campaign, 256), Limit(UtmContent, u.content, 256), Limit(UtmTerm, u.term, 256) ]
  }

  /** An event is let through exactly when its kind is sound and every limit holds. */
  lemma ValidIff(raw: RawEvent)
    ensures Validate(raw).Ok? <==>
      ValidKind(raw.kind) && forall i :: 0 <= i < |Limits(raw)| ==> Limits(raw)[i].Holds()
  {
    var ls := Limits(raw);
    assert (forall i :: 0 <= i < 10 ==> ls[i].Holds()) <==>
      (ls[0].Holds() && ls[1].Holds() && ls[2].Holds() && ls[3].Holds() && ls[4].Holds()
      && ls[5].Holds() && ls[6].Holds() && ls[7].Holds() && ls[8].Holds() && ls[9].Holds());
  }

  /** An unsound kind is reported whatever else is broken: a bad byte or no name at all, or else the length. */
  lemma KindIsCheckedFirst(raw: RawEvent)
    requires raw.kind.Custom? && !Printable64(raw.kind.name)
    ensures Validate(raw) ==
      if raw.kind.name == [] || exists i :: 0 <= i < |raw.kind.name| && !(0x20 <= raw.kind.name[i] <= 0x7E)
      then Err(InvalidFormat(EventKindCustom))
      else Err(InvalidInput(EventKindCustom, 64))
  {
  }

  /** The error names the first broken limit, after the kind. */
  lemma FirstBrokenLimitReported(raw: RawEvent, i: nat)
    requires ValidKind(raw.kind)
    requires i < |Limits(raw)| && !Limits(raw)[i].Holds()
    requires forall j :: 0 <= j < i ==> Limits(raw)[j].Holds()
    ensures Validate(raw) == Err(InvalidInput(Limits(raw)[i].field, Limits(raw)[i].bytes))
  {
    var ls := Limits(raw);
    assert (i > 0 ==> ls[0].Holds()) && (i > 1 ==> ls[1].Holds()) && (i > 2 ==> ls[2].Holds());
    assert (i > 3 ==> ls[3].Holds()) && (i > 4 ==> ls[4].Holds()) && (i > 5 ==> ls[5].Holds());
    assert (i > 6 ==> ls[6].Holds()) && (i > 7 ==> ls[7].Holds()) && (i > 8 ==> ls[8].Holds());
  }

  // ---- The pipeline --------------------------------------------------------

  function ResolveUa(p: Processor, raw: RawEvent): Option<ParsedUa> {
    if raw.parsedUa.Some? then raw.parsedUa
    else if p.uaParser.Some? && raw.userAgent.Some? then Some(p.uaParser.value(raw.userAgent.value))
    else None
  }

  function ResolveReferrer(p: Processor, raw: RawEvent): (Option<Str>, Option<TrafficSource>) {
    var domain := if raw.referrer.Some? then p.registrableDomain(raw.referrer.value) else None;
    var source :=
      if p.classifier.Some? then
        p.classifier.value(ClassifyCtx(domain, raw.referrer, raw.context.utm, raw.pageUrl))
      else None;
    (domain, source)
  }

  function ResolveVisitorId(p: Processor, raw: RawEvent): Option<VisitorId> {
    if raw.visitorId.Some? then raw.visitorId
    else if p.strategy.Some? then p.strategy.value.Id(raw)
    else None
  }

  function ResolveLocation(p: Processor, raw: RawEvent): Option<Location> {
    if p.geoip.Some? && raw.ip.Some? then p.geoip.value(raw.ip.value) else None
  }

  function Process(p: Processor, raw: RawEvent): Result<Event, ProcessError> {
    var _ :- Validate(raw);
    var visitorId := ResolveVisitorId(p, raw);
    var location := ResolveLocation(p, raw);
    var parsed := ResolveUa(p, raw);
    var (device, browser, os, bot) :=
      match parsed
      case Some(u) => (Some(u.device), Some(u.browser), Some(u.os), Some(u.isBot))
      case None => (None, None, None, None);
    var (referrer, source) := ResolveReferrer(p, raw);
    var rawReferrer := if p.keepRawReferrer then raw.referrer else None;
    Ok(Event(raw.kind, visitorId, location, device, browser, os, bot, referrer, rawReferrer, source,
             raw.pageUrl, raw.entityId, raw.sessionId, raw.timestamp, raw.context))
  }

  // ---- The fields of an output -----------------------------------------------

  predicate AgentShown(e: Event, u: ParsedUa) {
    e.device == Some(u.device) && e.browser == Some(u.browser) && e.os == Some(u.os) && e.bot == Some(u.isBot)
  }

  /** A parsed agent that came with the event wins over the parser; without either nothing is shown. */
  lemma OutputAgent(p: Processor, raw: RawEvent)
    requires Process(p, raw).Ok?
    ensures var e := Process(p, raw).value;
      && (raw.parsedUa.Some? ==> AgentShown(e, raw.parsedUa.value))
      && (raw.parsedUa.None? && p.uaParser.Some? && raw.userAgent.Some? ==>
            AgentShown(e, p.uaParser.value(raw.userAgent.value)))
      && (raw.parsedUa.None? && (p.uaParser.None? || raw.userAgent.None?) ==>
            e.device == None && e.browser == None && e.os == None && e.bot == None)
  {
  }

  /** The output has the domain of the referrer, and the source the classifier gives for that domain, the raw
      referrer, the UTM parameters and the page; the raw referrer itself only leaves on request. */
  lemma OutputReferrer(p: Processor, raw: RawEvent)
    requires Process(p, raw).Ok?
    ensures var e := Process(p, raw).value;
      && (raw.referrer.None? ==> e.referrer == None && e.rawReferrer == None)
      && (raw.referrer.Some? ==> e.referrer == p.registrableDomain(raw.referrer.value))
      && (p.classifier.None? ==> e.trafficSource == None)
      && (p.classifier.Some? ==>
            e.trafficSource == p.classifier.value(ClassifyCtx(e.referrer, raw.referrer, raw.context.utm, raw.pageUrl)))
      && (e.rawReferrer.Some? <==> p.keepRawReferrer && raw.referrer.Some?)
      && (e.rawReferrer.Some? ==> e.rawReferrer == raw.referrer)
  {
  }

  /** A preset id leaves verbatim. Otherwise the id is the hash of entity, address, user agent and salt, with the
      address whole or masked as the strategy says; without a strategy or an address there is none. */
  lemma OutputId(p: Processor, raw: RawEvent)
    requires Process(p, raw).Ok?
    ensures var id := Process(p, raw).value.visitorId;
      && (raw.visitorId.Some? ==> id == raw.visitorId)
      && (raw.visitorId.None? && p.strategy.None? ==> id == None)
      && (raw.visitorId.None? && p.strategy.Some? ==>
            match p.strategy.value
            case SaltedHasher(h, salt) =>
              if raw.ip.None? then id == None
              else HashesParts(h, id, [raw.entityId.UnwrapOr([]), Octets(Canonical(raw.ip.value)),
                                       raw.userAgent.UnwrapOr([]), salt])
            case MaskedHashed(h, salt, mask) =>
              if raw.ip.None? then id == None
              else HashesParts(h, id, [raw.entityId.UnwrapOr([]), Octets(MaskIp(raw.ip.value, mask)),
                                       raw.userAgent.UnwrapOr([]), salt])
            case OtherStrategy(f) =>
              if f(raw).Some? && New(f(raw).value).Ok? then id == Some(VisitorId(f(raw).value)) else id == None)
  {
    if raw.visitorId.None? && p.strategy.Some? && p.strategy.value.BuiltIn() {
      var s := p.strategy.value;
      StrategyHashes(s.hasher, s.salt, s.Mask(), raw);
    }
  }

  /** The location is the database's answer for the unmasked address, the other fields pass through, and an event
      is refused exactly when validation refuses it, with the same error. */
  lemma OutputPassesThrough(p: Processor, raw: RawEvent)
    ensures Process(p, raw).Ok? <==> Validate(raw).Ok?
    ensures Process(p, raw).Err? ==> Process(p, raw).error == Validate(raw).error
    ensures Process(p, raw).Ok? ==> (var e := Process(p, raw).value;
      && (p.geoip.Some? && raw.ip.Some? ==> e.location == p.geoip.value(raw.ip.value))
      && (p.geoip.None? || raw.ip.None? ==> e.location == None)
      && e.kind == raw.kind && e.pageUrl == raw.pageUrl && e.entityId == raw.entityId
      && e.sessionId == raw.sessionId && e.timestamp == raw.timestamp && e.context == raw.context)
  {
  }

  // ---- What an output shows ------------------------------------------------

  function WithoutLocation(r: Result<Event, ProcessError>): Result<Event, ProcessError> {
    match r
    case Ok(e) => Ok(e.(location := None))
    case Err(_) => r
  }

  /** All that an output shows besides the location and the id. */
  datatype Shown = Shown(
    kind: EventKind, pageUrl: Str, entityId: Option<Str>, sessionId: Option<Str>, timestamp: int, context: Context,
    agent: Option<ParsedUa>, domain: Option<Str>, source: Option<TrafficSource>, rawReferrer: Option<Str>)

  function ShownBy(p: Processor, raw: RawEvent): Shown {
    var (domain, source) := ResolveReferrer(p, raw);
    Shown(raw.kind, raw.pageUrl, raw.entityId, raw.sessionId, raw.timestamp, raw.context, ResolveUa(p, raw),
          domain, source, if p.keepRawReferrer then raw.referrer else None)
  }

  /** The event that shows `s`, with an id and a location. */
  function EventOf(s: Shown, id: Option<VisitorId>, location: Option<Location>): Event {
    var (device, browser, os, bot) :=
      if s.agent.Some? then
        (Some(s.agent.value.device), Some(s.agent.value.browser), Some(s.agent.value.os), Some(s.agent.value.isBot))
      else (None, None, None, None);
    Event(s.kind, id, location, device, browser, os, bot, s.domain, s.rawReferrer, s.source,
          s.pageUrl, s.entityId, s.sessionId, s.timestamp, s.context)
  }

  lemma OutputShows(p: Processor, raw: RawEvent)
    requires Validate(raw).Ok?
    ensures Process(p, raw) == Ok(EventOf(ShownBy(p, raw), ResolveVisitorId(p, raw), ResolveLocation(p, raw)))
  {
  }

  lemma EventOfInjective(s: Shown, i: Option<VisitorId>, t: Shown, j: Option<VisitorId>)
    ensures EventOf(s, i, None) == EventOf(t, j, None) <==> s == t && i == j
  {
  }

  /** For any two processors: outputs agree up to the location exactly when all else shown and the ids agree. */
  lemma OutputsAgreeUpToId(p: Processor, a: RawEvent, q: Processor, b: RawEvent)
    requires Validate(a).Ok? && Validate(b).Ok?
    ensures WithoutLocation(Process(p, a)) == WithoutLocation(Process(q, b)) <==>
      ShownBy(p, a) == ShownBy(q, b) && ResolveVisitorId(p, a) == ResolveVisitorId(q, b)
  {
    OutputShows(p, a);
    OutputShows(q, b);
    EventOfInjective(ShownBy(p, a), ResolveVisitorId(p, a), ShownBy(q, b), ResolveVisitorId(q, b));
    hide Process, Validate, ShownBy, ResolveVisitorId, ResolveLocation;
  }

  /** Where the id of an output comes from. */
  datatype IdOrigin = NoId | Preset(id: VisitorId) | Generated(key: Key)

  /** No strategy, or a built-in one over the hasher `h`. */
  ghost predicate Hashes(p: Processor, h: Hasher) {
    p.strategy.Some? ==> p.strategy.value.BuiltIn() && p.strategy.value.hasher == h
  }

  function Origin(p: Processor, raw: RawEvent): IdOrigin
    requires p.strategy.Some? ==> p.strategy.value.BuiltIn()
  {
    if raw.visitorId.Some? then Preset(raw.visitorId.value)
    else if p.strategy.Some? && raw.ip.Some? then
      Generated(KeyOf(raw, p.strategy.value.Mask(), p.strategy.value.salt))
    else NoId
  }

  /** When two origins give one id: none twice, one preset value, one key or a collision,
      or a preset that happens to be the generated one. */
  predicate SameId(h: Hasher, x: IdOrigin, y: IdOrigin) {
    match (x, y)
    case (NoId, NoId) => true
    case (Preset(i), Preset(j)) => i == j
    case (Generated(k), Generated(l)) => k == l || Collision(h, FrameKey(k), FrameKey(l))
    case (Preset(i), Generated(k)) => i == IdOfKey(h, k)
    case (Generated(k), Preset(i)) => i == IdOfKey(h, k)
    case _ => false
  }

  lemma SameIdIff(h: Hasher, p: Processor, a: RawEvent, q: Processor, b: RawEvent)
    requires Hashes(p, h) && Hashes(q, h)
    ensures ResolveVisitorId(p, a) == ResolveVisitorId(q, b) <==> SameId(h, Origin(p, a), Origin(q, b))
  {
    IdFromOrigin(h, p, a);
    IdFromOrigin(h, q, b);
    match (Origin(p, a), Origin(q, b))
    case (Generated(k), Generated(l)) => IdsIdentifyKeys(h, k, l);
    case _ =>
  }

  lemma IdFromOrigin(h: Hasher, p: Processor, raw: RawEvent)
    requires Hashes(p, h)
    ensures ResolveVisitorId(p, raw) ==
      match Origin(p, raw)
      case NoId => None
      case Preset(id) => Some(id)
      case Generated(k) => Some(IdOfKey(h, k))
  {
  }

  /** Any two valid events, through any two processors over one hasher, whatever their salts, masks and parts:
      the outputs agree up to the location exactly when everything else shown agrees and the ids have the same
      origin, one key, or an explicit collision behind them. */
  lemma OutputsIdentifyInputs(h: Hasher, p: Processor, a: RawEvent, q: Processor, b: RawEvent)
    requires Hashes(p, h) && Hashes(q, h)
    requires Validate(a).Ok? && Validate(b).Ok?
    ensures WithoutLocation(Process(p, a)) == WithoutLocation(Process(q, b)) <==>
      ShownBy(p, a) == ShownBy(q, b) && SameId(h, Origin(p, a), Origin(q, b))
  {
    OutputsAgreeUpToId(p, a, q, b);
    SameIdIff(h, p, a, q, b);
  }

  // ---- The address stays behind the mask -----------------------------------

  /** No strategy, or a built-in one that applies `mask`. */
  predicate Masks(p: Processor, mask: IpMaskMode) {
    p.strategy.Some? ==> p.strategy.value.BuiltIn() && p.strategy.value.Mask() == mask
  }

  /** The salt and hasher of a built-in strategy, on one event. */
  function FramedKey(s: VisitorIdStrategy, raw: RawEvent): seq<byte>
    requires s.BuiltIn() && raw.ip.Some?
  {
    FrameKey(KeyOf(raw, s.Mask(), s.salt))
  }

  lemma NoDatabaseNoLocation(p: Processor, raw: RawEvent)
    requires p.geoip.None?
    ensures WithoutLocation(Process(p, raw)) == Process(p, raw)
  {
  }

  lemma ValidateIgnoresAddress(a: RawEvent, b: RawEvent)
    requires b == a.(ip := b.ip)
    ensures Validate(a) == Validate(b)
  {
  }

  lemma SameIdInClass(p: Processor, mask: IpMaskMode, a: RawEvent, b: RawEvent)
    requires Masks(p, mask)
    requires a.ip.Some? && b == a.(ip := b.ip) && b.ip.Some?
    requires SameMaskClass(a.ip.value, b.ip.value, mask)
    ensures ResolveVisitorId(p, a) == ResolveVisitorId(p, b)
  {
    SameMaskIffSameClass(a.ip.value, b.ip.value, mask);
  }

  /** Masking is non-interfering: addresses of one mask class give the same output, but for the location. */
  lemma MaskClassIsAllThatShows(p: Processor, mask: IpMaskMode, a: RawEvent, b: RawEvent)
    requires Masks(p, mask)
    requires a.ip.Some? && b == a.(ip := b.ip) && b.ip.Some?
    requires SameMaskClass(a.ip.value, b.ip.value, mask)
    ensures WithoutLocation(Process(p, a)) == WithoutLocation(Process(p, b))
    ensures p.geoip.None? ==> Process(p, a) == Process(p, b)
  {
    ValidateIgnoresAddress(a, b);
    if Validate(a).Ok? {
      SameIdInClass(p, mask, a, b);
      OutputsAgreeUpToId(p, a, p, b);
    }
    if p.geoip.None? {
      NoDatabaseNoLocation(p, a);
      NoDatabaseNoLocation(p, b);
    }
  }

  lemma BuiltInId(s: VisitorIdStrategy, raw: RawEvent)
    requires s.BuiltIn()
    ensures s.Id(raw) == VisitorIdOf(s.hasher, s.salt, raw, s.Mask())
  {
  }

  /** And the class does show: for any two valid events with generated ids, the outputs agree up to the location
      exactly when all else shown agrees, and mask class, agent and entity agree or the framed keys collide. */
  lemma OutputRevealsClassExactly(p: Processor, a: RawEvent, b: RawEvent)
    requires p.strategy.Some? && p.strategy.value.BuiltIn()
    requires a.ip.Some? && b.ip.Some? && a.visitorId.None? && b.visitorId.None?
    requires Validate(a).Ok? && Validate(b).Ok?
    ensures WithoutLocation(Process(p, a)) == WithoutLocation(Process(p, b)) <==>
      ShownBy(p, a) == ShownBy(p, b) &&
      ((&& SameMaskClass(a.ip.value, b.ip.value, p.strategy.value.Mask())
        && a.userAgent.UnwrapOr([]) == b.userAgent.UnwrapOr([])
        && a.entityId.UnwrapOr([]) == b.entityId.UnwrapOr([]))
       || Collision(p.strategy.value.hasher, FramedKey(p.strategy.value, a), FramedKey(p.strategy.value, b)))
  {
    var s := p.strategy.value;
    StablePerMaskedIpUaEntity(s.hasher, s.salt, s.Mask(), a, b);
    OutputsAgreeUpToId(p, a, p, b);
    BuiltInId(s, a);
    BuiltInId(s, b);
  }

  // ---- What leaves the pipeline is well formed -----------------------------

  /** Every id that leaves survives the wire, for built-in and other strategies, generated or passed through. */
  lemma OutputIdSurvivesWire(p: Processor, raw: RawEvent)
    requires raw.visitorId.Some? ==> Accepted(raw.visitorId.value)
    ensures Process(p, raw).Ok? && Process(p, raw).value.visitorId.Some? ==>
      var id := Process(p, raw).value.visitorId.value;
      Accepted(id) && Deserialize(Serialize(id)) == Ok(id)
  {
    if raw.visitorId.None? && p.strategy.Some? {
      StrategyIdAccepted(p.strategy.value, raw);
    }
    if Process(p, raw).Ok? && Process(p, raw).value.visitorId.Some? {
      WireRoundTrip(Process(p, raw).value.visitorId.value);
    }
  }

  /** The kind of an output event survives the wire, up to folding of shadowed names. */
  lemma OutputKindSurvivesWire(p: Processor, raw: RawEvent)
    requires Process(p, raw).Ok?
    ensures FromWire(AsWire(Process(p, raw).value.kind)) == Ok(Normalize(raw.kind))
  {
    KindRoundTrip(raw.kind);
  }
}
