/** Event kinds, their wire strings, and the input and output events (src/event.rs). */
module Events {
  import opened Words
  import opened Errors
  import opened Types
  import opened Visitor
  import opened Ip

  const MAX_CUSTOM := 64

  datatype EventKind = PageView | Click | FormSubmit | Conversation | View | Custom(name: Str)

  function AsWire(kind: EventKind): Str {
    match kind
    case PageView => Ascii("page_view")
    case Click => Ascii("click")
    case FormSubmit => Ascii("form_submit")
    case Conversation => Ascii("conversation")
    case View => Ascii("view")
    case Custom(s) => s
  }

  /** `EventKind::custom`: reserved strings fold into the known variants. */
  function FromWire(s: Str): Result<EventKind, ProcessError> {
    if s == Ascii("page_view") then Ok(PageView)
    else if s == Ascii("click") then Ok(Click)
    else if s == Ascii("form_submit") then Ok(FormSubmit)
    else if s == Ascii("conversation") then Ok(Conversation)
    else if s == Ascii("view") then Ok(View)
    else
      var _ :- ValidateCustomKind(s);
      Ok(Custom(s))
  }

  function ValidateCustomKind(s: Str): Result<(), ProcessError> {
    if |s| == 0 || !AllWithin(s, 0x20, 0x7E) then Err(InvalidFormat(EventKindCustom))
    else if |s| > MAX_CUSTOM then Err(InvalidInput(EventKindCustom, MAX_CUSTOM))
    else Ok(())
  }

  datatype RawEvent = RawEvent(
    kind: EventKind, ip: Option<IpAddr>, visitorId: Option<VisitorId>, userAgent: Option<Str>,
    parsedUa: Option<ParsedUa>, referrer: Option<Str>, pageUrl: Str, entityId: Option<Str>,
    sessionId: Option<Str>, timestamp: int, context: Context)

  datatype Event = Event(
    kind: EventKind, visitorId: Option<VisitorId>, location: Option<Location>, device: Option<DeviceInfo>,
    browser: Option<BrowserInfo>, os: Option<OperatingSystemInfo>, bot: Option<bool>,
    referrer: Option<Str>, rawReferrer: Option<Str>, trafficSource: Option<TrafficSource>,
    pageUrl: Str, entityId: Option<Str>, sessionId: Option<Str>, timestamp: int, context: Context)

  // ---- What is accepted ----------------------------------------------------

  /** 1 to 64 printable ASCII bytes, the space included. */
  predicate Printable64(s: Str) {
    1 <= |s| <= 64 && forall i :: 0 <= i < |s| ==> 0x20 <= s[i] <= 0x7E
  }

  /** The kinds that input validation lets through. */
  predicate ValidKind(kind: EventKind) {
    kind.Custom? ==> Printable64(kind.name)
  }

  predicate Reserved(s: Str) {
    s == Ascii("page_view") || s == Ascii("click") || s == Ascii("form_submit") || s == Ascii("conversation")
    || s == Ascii("view")
  }

  /** The kind of every wire string: the five reserved ones give their variants and nothing else does, other
      sound ones a `Custom`, and unsound ones one of two errors, where a bad byte goes before the length. */
  lemma KindOfWire(s: Str)
    ensures (FromWire(s) == Ok(PageView) <==> s == Ascii("page_view"))
      && (FromWire(s) == Ok(Click) <==> s == Ascii("click"))
      && (FromWire(s) == Ok(FormSubmit) <==> s == Ascii("form_submit"))
      && (FromWire(s) == Ok(Conversation) <==> s == Ascii("conversation"))
      && (FromWire(s) == Ok(View) <==> s == Ascii("view"))
    ensures FromWire(s) == Ok(Custom(s)) <==> !Reserved(s) && Printable64(s)
    ensures FromWire(s) == Err(InvalidFormat(EventKindCustom)) <==>
      s == [] || exists i :: 0 <= i < |s| && !(0x20 <= s[i] <= 0x7E)
    ensures FromWire(s) == Err(InvalidInput(EventKindCustom, 64)) <==>
      64 < |s| && forall i :: 0 <= i < |s| ==> 0x20 <= s[i] <= 0x7E
  {
    ReservedWiresDiffer();
    if Reserved(s) {
      ReservedIsPrintable(s);
    }
  }

  /** No two reserved strings are equal: their lengths differ. */
  lemma ReservedWiresDiffer()
    ensures |Ascii("page_view")| == 9 && |Ascii("click")| == 5 && |Ascii("form_submit")| == 11
    ensures |Ascii("conversation")| == 12 && |Ascii("view")| == 4
  {
  }

  lemma ReservedIsPrintable(s: Str)
    requires Reserved(s)
    ensures Printable64(s)
  {
  }

  // ---- The wire round trip -------------------------------------------------

  const KNOWN := [PageView, Click, FormSubmit, Conversation, View]

  /** A `Custom` holding the wire string of a known variant. */
  predicate Shadows(kind: EventKind, known: EventKind) {
    kind.Custom? && known in KNOWN && kind.name == AsWire(known)
  }

  /** What a kind becomes after the wire: itself, unless it shadows a known variant. */
  ghost function Normalize(kind: EventKind): EventKind {
    if exists known :: Shadows(kind, known) then
      ShadowsOne(kind);
      var known :| Shadows(kind, known);
      known
    else kind
  }

  lemma KnownWiresDiffer(a: EventKind, b: EventKind)
    requires a in KNOWN && b in KNOWN && AsWire(a) == AsWire(b)
    ensures a == b
  {
    assert |"page_view"| == 9 && |"click"| == 5 && |"form_submit"| == 11;
    assert |"conversation"| == 12 && |"view"| == 4;
  }

  lemma ShadowsOne(kind: EventKind)
    ensures forall a, b :: Shadows(kind, a) && Shadows(kind, b) ==> a == b
  {
    forall a, b | Shadows(kind, a) && Shadows(kind, b) ensures a == b {
      KnownWiresDiffer(a, b);
    }
  }

  /** Reading a wire string back: whatever is built has that wire string. */
  lemma WireIsKept(s: Str)
    ensures FromWire(s).Ok? ==> AsWire(FromWire(s).value) == s && ValidKind(FromWire(s).value)
  {
  }

  lemma FromWireOfKnown(kind: EventKind)
    requires kind in KNOWN
    ensures FromWire(AsWire(kind)) == Ok(kind)
  {
    var back := FromWire(AsWire(kind));
    WireIsKept(AsWire(kind));
    assert back.Ok? && back.value in KNOWN;
    KnownWiresDiffer(back.value, kind);
  }

  /** Writing and reading a kind normalises it, and fails exactly on unsound `Custom` strings. */
  lemma KindRoundTrip(kind: EventKind)
    ensures ValidKind(kind) || Normalize(kind) != kind ==> FromWire(AsWire(kind)) == Ok(Normalize(kind))
    ensures !ValidKind(kind) && Normalize(kind) == kind ==> FromWire(AsWire(kind)).Err?
  {
    if known :| Shadows(kind, known) {
      FromWireOfKnown(known);
      ShadowsOne(kind);
    } else if !kind.Custom? {
      assert kind in KNOWN;
      FromWireOfKnown(kind);
    } else {
      UnshadowedIsNotReserved(kind);
    }
  }

  lemma UnshadowedIsNotReserved(kind: EventKind)
    requires kind.Custom? && forall known :: !Shadows(kind, known)
    ensures FromWire(kind.name) == match ValidateCustomKind(kind.name) case Ok(_) => Ok(kind) case Err(e) => Err(e)
  {
    assert !Shadows(kind, PageView) && !Shadows(kind, Click) && !Shadows(kind, FormSubmit);
    assert !Shadows(kind, Conversation) && !Shadows(kind, View);
  }

  lemma NormalizeKeepsWire(kind: EventKind)
    ensures AsWire(Normalize(kind)) == AsWire(kind)
    ensures Normalize(Normalize(kind)) == Normalize(kind)
  {
  }

  /** A valid kind survives the wire unchanged exactly when it shadows no known variant. */
  lemma KindSurvivesWireIff(kind: EventKind)
    requires ValidKind(kind)
    ensures FromWire(AsWire(kind)) == Ok(kind) <==> !(exists known :: Shadows(kind, known))
  {
    KindRoundTrip(kind);
  }

  /** Every reserved name makes such a kind: it is valid, and comes back as the known variant. */
  lemma ReservedNameIsValidButFolds(known: EventKind)
    requires known in KNOWN
    ensures var kind := Custom(AsWire(known));
      ValidKind(kind) && Shadows(kind, known) && FromWire(AsWire(kind)) == Ok(known)
  {
    FromWireOfKnown(known);
  }
}
