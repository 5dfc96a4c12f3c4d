/** The abstract command machine behind `Server::processCommand`: what a request text asks for, what
    that does to the devices, and what is answered. */
module Commands {
  import opened Text
  import opened Protocol
  import opened Devices

  datatype LightCommand =
    | LightUsage | LightStatus | LightOn | LightOff | SetBrightness(level: int) | BadBrightness
    | UnknownLight(action: string)

  datatype ThermostatCommand =
    | ThermostatUsage | ThermostatStatus | SetTemperature(temp: Double, text: string) | BadTemperature
    | UnknownThermostat(action: string)

  datatype CameraCommand =
    | CameraUsage | CameraStatus | Arm | Disarm | UnknownCamera(action: string)

  datatype Command =
    | PingUsage
    | Ping(target: string)
    | ArpUsage
    | ArpQuery(target: string)
    | NoCommand
    | ToLight(light: LightCommand)
    | ToThermostat(thermostat: ThermostatCommand)
    | ToCamera(camera: CameraCommand)
    | ListDevices
    | UnknownResource(resource: string)

  /** The devices in the registry; a missing one is `None`. */
  datatype House = House(
    light: Option<LightState>,
    light2: Option<LightState>,
    thermostat: Option<ThermostatState>,
    camera: Option<CameraState>)

  const NO_DEVICES := House(None, None, None, None)

  /** The house after up to four new devices were put, in their order, at the given places. */
  function Installed(h: House, places: seq<Place>): House {
    House(if |places| >= 1 then Some(NewLight(places[0])) else h.light,
          if |places| >= 2 then Some(NewLight(places[1])) else h.light2,
          if |places| >= 3 then Some(NewThermostat(places[2])) else h.thermostat,
          if |places| >= 4 then Some(NewCamera(places[3])) else h.camera)
  }

  /** Code the model does not look into: `std::stod`, and the layout of the status texts. */
  datatype Library = Library(
    stod: string -> Option<Double>,
    lightText: LightState -> string,
    thermostatText: ThermostatState -> string,
    cameraText: CameraState -> string,
    listText: House -> string)

  // ---------- decoding ----------

  predicate LineEndOrBlank(c: char) {
    c in {'\r', '\n', ' '}
  }

  /** Carriage returns, newlines and blanks go from the end. */
  function TrimTail(s: string): (r: string)
    ensures r <= s
    ensures forall i :: |r| <= i < |s| ==> LineEndOrBlank(s[i])
    ensures r != "" ==> !LineEndOrBlank(r[|r| - 1])
  {
    if s != "" && (s[|s| - 1] == '\r' || s[|s| - 1] == '\n' || s[|s| - 1] == ' ') then TrimTail(s[..|s| - 1]) else s
  }

  predicate IsPing(raw: string) {
    "PING" <= raw || "ping" <= raw
  }

  predicate IsArp(raw: string) {
    "ARP" <= raw || "arp" <= raw
  }

  function DecodeLight(segments: seq<string>): LightCommand {
    if |segments| < 2 then LightUsage
    else
      var action := segments[1];
      if action == "status" then LightStatus
      else if action == "on" then LightOn
      else if action == "off" then LightOff
      else if action == "brightness" && |segments| >= 3 then
        match Stoi(segments[2])
        case Some(level) => SetBrightness(level)
        case None => BadBrightness
      else UnknownLight(action)
  }

  function DecodeThermostat(segments: seq<string>, lib: Library): ThermostatCommand {
    if |segments| < 2 then ThermostatUsage
    else
      var action := segments[1];
      if action == "status" then ThermostatStatus
      else if action == "set" && |segments| >= 3 then
        match lib.stod(segments[2])
        case Some(temp) => SetTemperature(temp, segments[2])
        case None => BadTemperature
      else UnknownThermostat(action)
  }

  function DecodeCamera(segments: seq<string>): CameraCommand {
    if |segments| < 2 then CameraUsage
    else
      var action := segments[1];
      if action == "status" then CameraStatus
      else if action == "arm" then Arm
      else if action == "disarm" then Disarm
      else UnknownCamera(action)
  }

  function DecodeSegments(segments: seq<string>, lib: Library): (c: Command)
    ensures !c.Ping? && !c.ArpQuery? && !c.PingUsage? && !c.ArpUsage?
  {
    if segments == [] then NoCommand
    else if segments[0] == "light" then ToLight(DecodeLight(segments))
    else if segments[0] == "thermostat" then ToThermostat(DecodeThermostat(segments, lib))
    else if segments[0] == "security" then ToCamera(DecodeCamera(segments))
    else if segments[0] == "devices" then ListDevices
    else UnknownResource(segments[0])
  }

  /** What follows the first blank, trimmed at the end. */
  function Target(raw: string): string {
    var space := IndexOf(raw, ' ');
    if space < |raw| then TrimTail(raw[space + 1..]) else ""
  }

  function Decode(raw: string, lib: Library): Command {
    if IsPing(raw) then if ' ' in raw then Ping(Target(raw)) else PingUsage
    else if IsArp(raw) then if ' ' in raw then ArpQuery(Target(raw)) else ArpUsage
    else DecodeSegments(Segments(Parse(raw).path), lib)
  }

  // ---------- effect ----------

  function ApplyLight(l: LightState, c: LightCommand): LightState {
    match c
    case LightOn => l.(on := true)
    case LightOff => l.(on := false)
    case SetBrightness(level) => l.(brightness := Clamp(level))
    case _ => l
  }

  function ApplyThermostat(t: ThermostatState, c: ThermostatCommand): ThermostatState {
    match c
    case SetTemperature(temp, _) => t.(target := ClampTemperature(temp))
    case _ => t
  }

  function ApplyCamera(cam: CameraState, c: CameraCommand): CameraState {
    match c
    case Arm => cam.(armed := true, on := true)
    case Disarm => cam.(armed := false, motion := false)
    case _ => cam
  }

  function Apply(h: House, c: Command): House {
    match c
    case ToLight(lc) => if h.light.Some? then h.(light := Some(ApplyLight(h.light.value, lc))) else h
    case ToThermostat(tc) =>
      if h.thermostat.Some? then h.(thermostat := Some(ApplyThermostat(h.thermostat.value, tc))) else h
    case ToCamera(cc) => if h.camera.Some? then h.(camera := Some(ApplyCamera(h.camera.value, cc))) else h
    case _ => h
  }

  // ---------- answer ----------

  /** A status code and a body. */
  datatype Answer = Answer(code: int, body: string)

  function Ok(body: string): Answer { Answer(200, body) }
  function NotFound(body: string): Answer { Answer(404, body) }
  function Error(body: string): Answer { Answer(500, body) }

  function AnswerLight(l: Option<LightState>, c: LightCommand, lib: Library): Answer {
    if l.None? then Error("Light not found")
    else match c
      case LightUsage => NotFound("Usage: /light/<action>")
      case LightStatus => Ok(lib.lightText(l.value))
      case LightOn => Ok("Light turned ON")
      case LightOff => Ok("Light turned OFF")
      case SetBrightness(level) => Ok("Brightness set to " + IntText(level))
      case BadBrightness => Error("Invalid brightness value")
      case UnknownLight(action) => NotFound("Unknown light action: " + action)
  }

  function AnswerThermostat(t: Option<ThermostatState>, c: ThermostatCommand, lib: Library): Answer {
    if t.None? then Error("Thermostat not found")
    else match c
      case ThermostatUsage => NotFound("Usage: /thermostat/<action>")
      case ThermostatStatus => Ok(lib.thermostatText(t.value))
      case SetTemperature(_, text) => Ok("Temperature set to " + text + " C")
      case BadTemperature => Error("Invalid temperature value")
      case UnknownThermostat(action) => NotFound("Unknown thermostat action: " + action)
  }

  function AnswerCamera(cam: Option<CameraState>, c: CameraCommand, lib: Library): Answer {
    if cam.None? then Error("Security camera not found")
    else match c
      case CameraUsage => NotFound("Usage: /security/<action>")
      case CameraStatus => Ok(lib.cameraText(cam.value))
      case Arm => Ok("Security camera armed")
      case Disarm => Ok("Security camera disarmed")
      case UnknownCamera(action) => NotFound("Unknown security action: " + action)
  }

  /** The reply to a command that is answered in the protocol's own format. */
  function AnswerTo(h: House, c: Command, lib: Library): Answer
    requires !c.Ping? && !c.ArpQuery?
  {
    match c
    case PingUsage => Error("Usage: PING <ip>")
    case ArpUsage => Error("Usage: ARP <ip>")
    case NoCommand => NotFound("No command specified")
    case ToLight(lc) => AnswerLight(h.light, lc, lib)
    case ToThermostat(tc) => AnswerThermostat(h.thermostat, tc, lib)
    case ToCamera(cc) => AnswerCamera(h.camera, cc, lib)
    case ListDevices => Ok(lib.listText(h))
    case UnknownResource(resource) => NotFound("Unknown resource: " + resource)
  }

  function Wire(a: Answer): string {
    ResponseText(BuildResponse(a.code, a.body))
  }
}
