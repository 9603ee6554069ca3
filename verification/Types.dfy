/** Plain data carried through the pipeline (src/types.rs). */
module Types {
  import opened Words

  datatype Utm = Utm(source: Option<Str>, medium: Option<Str>, campaign: Option<Str>,
                     content: Option<Str>, term: Option<Str>)

  const EMPTY_UTM := Utm(None, None, None, None, None)

  datatype Context = Context(screenWidth: Option<Str>, orientation: Option<Str>, utm: Utm)

  datatype Location = Location(countryCode: Option<Str>, countryName: Option<Str>,
                               continentCode: Option<Str>, continentName: Option<Str>,
                               regionCode: Option<Str>, regionName: Option<Str>, city: Option<Str>,
                               latitude: Option<real>, longitude: Option<real>, timezone: Option<Str>)

  datatype DeviceInfo = DeviceInfo(family: Str, brand: Option<Str>, model: Option<Str>, deviceType: Option<Str>)

  datatype BrowserInfo = BrowserInfo(name: Str, version: Option<Str>)

  datatype OperatingSystemInfo =
    OperatingSystemInfo(family: Str, major: Option<Str>, minor: Option<Str>, patch: Option<Str>)

  datatype TrafficSource = TrafficSource(category: Str, sourceName: Option<Str>, medium: Option<Str>)

  datatype ParsedUa =
    ParsedUa(device: DeviceInfo, browser: BrowserInfo, os: OperatingSystemInfo, isBot: bool)
}
